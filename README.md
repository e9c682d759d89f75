# Overview page of the Scrapbook Helper UI, in Dafny

This project models how the desktop UI of the Scrapbook Helper turns its
shared state into the overview page. The shared state is a set of servers,
each with a crawl in progress and a set of logged-in game accounts. The
overview (`Helper::view_overview` in `src/ui/mod.rs`) shows one button per
account. The buttons are grouped by server and sorted by server ident, then
by account name. A "+" button that leads to the login page comes last.
Each account's button shows:

- its status text;
- its server;
- its name;
- a free-fight indicator: a question mark, a countdown in seconds, or a check mark;
- an auto-battle indicator: a question mark, a check mark or a cross;
- its server's crawl label.

The project also models the branch choices of `view_current_page`,
`view_account` and `view_settings`:

- which page the current view shows;
- when the update banner appears;
- which sub-page button is highlighted;
- where the settings page leads back to.

How the state is represented:

- The state is given as values (`State`): each account's status is the value
  read under its lock. A crawl is reduced to the two counts the page reads,
  the number of players still queued and the number already stored.
- A hash map's iteration order is unknown, so the servers and each server's
  accounts are given as sequences in arbitrary order.
- Rust's `sort_by_key` is a stable sort, so its result is fully determined.
  The specification function `Sorting.StableSort` is a stable insertion sort.
  Its properties are proved separately: ordered, a permutation, and stable.
  `Sorting.StableSortUnique` proves that any list with the first and last of
  these properties equals `StableSort`.
- The method `Sorting.SortByKey` sorts an array in place and is proved to
  produce exactly `StableSort`.
- `String` keys compare as Rust compares them: lexicographically by
  character, with a proper prefix first. This is `Sorting.Less`.
- Time is an integer number of nanoseconds. `chrono`'s `num_seconds`
  truncates toward zero; `Overview.WholeSeconds` writes that out.

The page is built in two forms:

- `Overview.ViewOverview` is a method with the source's two nested loops.
- `Overview.OverviewList` is the function that specifies what the page shows.

The method is proved equal to the function. The properties of the page are
proved about the function:

- one button per account;
- the "+" button last, and only when there is a server;
- buttons in server order, and within a server in name order;
- every button carries its own server's label.

Two edge cases of the free-fight column, as the code decides them:

- When the game state has no next free fight scheduled (`Some(None)`), the
  catch-all `Some(_)` arm (`src/ui/mod.rs:290`) shows the check mark, not
  the question mark.
- When the fight is due exactly at the current instant, the guard
  `x >= Local::now()` holds, so the column shows a countdown of `0s`, not
  the check mark. `Overview.CountdownAtDeadline` states it.

## Model

| member | source | states |
|---|---|---|
| Overview.ServerStatus | src/ui/mod.rs:213-231 | Waiting, Restoring and a failed crawl each get their own label. An active crawl shows "Finished" exactly when nothing remains queued. Otherwise it shows crawled/total, where total is remaining plus crawled and crawled is less than total. |
| Overview.ServerLabelText | src/ui/mod.rs:214-228 | The column shows "Waiting", "Restoring", "Error" or "Finished" for those labels. A fraction shows digits, then "/" right after the crawled count's digits, then digits; the two digit runs read back to the crawled count and the total, and neither has a leading zero. |
| Overview.ServerLabelTextInjective | src/ui/mod.rs:213-231 | Two different server labels never show the same text. |
| Overview.ServerLabelExamples | src/ui/mod.rs:225-229 | 7 stored and 3 remaining shows "7/10"; 10 stored and none remaining shows "Finished"; a failed crawl shows "Error". |
| Format.Decimal | src/ui/mod.rs:228 | The decimal text of a number is a non-empty run of digits with no leading zero. |
| Format.ParseDecimalOfDecimal | src/ui/mod.rs:228 | Reading the decimal text back gives the number, so the digits of "crawled/total" read back to the two counts. |
| Format.DecimalInjective | src/ui/mod.rs:228 | Different numbers have different decimal texts. |
| Overview.StatusLabel | src/ui/mod.rs:243-261 | Both login states show "Logging in", idle shows "Active", busy shows its reason, and a fatal error shows "Error!". |
| Overview.NextFreeFight | src/ui/mod.rs:241-261 | A next-free-fight value is present exactly for idle and busy accounts. It is then their game state's arena value, which may itself be empty. |
| Overview.WholeSeconds | src/ui/mod.rs:283 | The whole seconds of a duration, truncated toward zero: bounded by the duration on both sides. |
| Overview.FreeFightIndicator | src/ui/mod.rs:271-300 | A question mark exactly when there is no game state. A countdown exactly when a fight is scheduled at or after now; its seconds are the whole seconds left. The check mark exactly when no fight is scheduled or it has passed. |
| Overview.CountdownSeconds | src/ui/mod.rs:282-289 | A fight due between k and k+1 seconds from now counts down k. |
| Overview.CountdownFiveSeconds | src/ui/mod.rs:282-289 | A fight five seconds ahead counts down 5. |
| Overview.CountdownAtDeadline | src/ui/mod.rs:282-289 | A fight due exactly now shows a countdown of 0, not the check mark. |
| Overview.CountdownNonIncreasing | src/ui/mod.rs:282-289 | A later instant never shows a larger countdown. |
| Overview.AutoBattleIndicator | src/ui/mod.rs:302-316 | Question mark exactly without scrapbook info; check exactly when auto-battle is on; cross exactly when it is off. |
| Overview.AccountRow | src/ui/mod.rs:236-329 | An account's button shows its status text, server, name, the server's label and both indicators, and sends ShowPlayer with the account's ident. The free-fight cell is the indicator of the status's next free fight, countdown seconds included; it is unknown exactly without a game state and ready exactly when no fight is due or it is past. |
| Overview.LoginKindsLookAlike | src/ui/mod.rs:244-260 | An account logging in and one logging in again get the same button. |
| Overview.FatalDetailHidden | src/ui/mod.rs:255-257 | The button of an account in fatal error does not depend on the error's detail. |
| Overview.OverviewList | src/ui/mod.rs:198-350 | The page as a function of the servers and the instant: the reference the method is proved equal to; the lemmas below state its properties. |
| Overview.ViewOverview | src/ui/mod.rs:198-350 | The nested loops over the sorted servers and their sorted accounts, followed by the "+" when there is a server, build exactly OverviewList. |
| Overview.AddServerButtons | src/ui/mod.rs:233-330 | The inner loop appends one button per account, the accounts sorted stably by name, each showing the server's label. |
| Overview.OverviewRowPerAccount | src/ui/mod.rs:210-342 | As a multiset, the page is one button per input account, with its own server's ident and label, plus one "+" when there is a server. |
| Overview.OverviewLength | src/ui/mod.rs:210-342 | The page's length is the total number of accounts, plus one when there is a server. |
| Overview.OverviewAddButton | src/ui/mod.rs:333-342 | The "+", sending ViewLogin, is present exactly when there is a server, and is then last; every other entry is an account button. |
| Overview.ServerEntriesByName | src/ui/mod.rs:233-235 | A server's group has one button per account, each with that server and its label, in name order. |
| Overview.NameOrderExample | src/ui/mod.rs:233-234 | Accounts named zeta, alpha and mid are listed as alpha, mid, zeta. |
| Overview.OverviewServerOrder | src/ui/mod.rs:210-212 | Across the page, account buttons come in non-decreasing order of their server's ident. |
| Sorting.StableSort | src/ui/mod.rs:211 | What `sort_by_key` leaves: the reference the sort methods are proved equal to; the lemmas below show it is ordered, a permutation, stable, and the only such list. |
| Sorting.SortByKey | src/ui/mod.rs:211 | Sorting an array in place by a string key leaves exactly the stable sort of its old contents. |
| Sorting.InsertLast | src/ui/mod.rs:211 | One insertion step: the sorted prefix extended with the next element put in its stable place; the rest of the array is unchanged. |
| Sorting.SortedCopy | src/ui/mod.rs:210-211 | Collecting a sequence into a vector and sorting it by key gives the stable sort of the sequence. |
| Sorting.StableSortOrdered | src/ui/mod.rs:211 | The stable sort is ordered by key. |
| Sorting.StableSortPermutation | src/ui/mod.rs:211 | The stable sort is a permutation of its input. |
| Sorting.StableSortIsStable | src/ui/mod.rs:211 | Elements with equal keys keep their relative order. |
| Sorting.StableSortLength | src/ui/mod.rs:211 | The stable sort has the input's length. |
| Sorting.LessIrreflexive | src/ui/mod.rs:211 | No string sorts before itself. |
| Sorting.LessAsymmetric | src/ui/mod.rs:211 | Two strings are never each before the other. |
| Sorting.NotLessTransitive | src/ui/mod.rs:211 | "Not before" is transitive. |
| Sorting.LessTrichotomous | src/ui/mod.rs:211 | Any two strings are equal or one is before the other. |
| Sorting.OrderedByWithKey | src/ui/mod.rs:211 | Two key-ordered lists that hold the same elements of every key, in the same order, are equal. |
| Sorting.StableSortUnique | src/ui/mod.rs:211 | Any key-ordered list that keeps the elements of each key in their input order is exactly StableSort of the input, so the insertion sort here leaves what Rust's merge-based stable sort leaves. |
| Pages.UpdateBannerFor | src/ui/mod.rs:36-58 | The banner is shown exactly when an update is available. Download opens the latest-release page; Ignore sends UpdateResult(false). |
| Pages.SelectionButton | src/ui/mod.rs:73-86 | A sub-page button opens its page for the player and is highlighted exactly when it is the page shown. |
| Pages.OnePrimarySubPage | src/ui/mod.rs:80-94 | Of the Scrapbook and Underworld buttons, exactly the current page's is highlighted. |
| Pages.FindAccount | src/ui/mod.rs:67 | Finds a server and one of its accounts with the given ident; finds nothing exactly when no account has it. |
| Pages.ViewAccount | src/ui/mod.rs:62-105 | Always the login page or an account page. The login page exactly when no account has the ident. Otherwise the page of an account with that ident, shown with the server that holds it, the requested sub-page, both sub-page buttons, Logout sending RemoveAccount, and a back button to the overview. |
| Pages.SettingsBack | src/ui/mod.rs:127-134 | The settings page leads back to the overview exactly when there are accounts, and to the login page otherwise. |
| Pages.ViewCurrentPage | src/ui/mod.rs:24-60 | The window shows the page of the current view, under the update banner exactly when one is due. The overview page's back button sends ViewLogin. |

## Left out

- Widgets, text sizes, widths, spacing, alignment, icons as glyphs and button colours. Only what each element shows and which message it sends is modelled.
- Locks: taking an account's status lock or a crawl queue's lock, and the panic on a poisoned lock. Each status and count is the value read under the lock.
- The clock: the source reads `Local::now()` twice per countdown (in the guard and in the subtraction). The model takes one instant `now` as a parameter, so clock skew between the two reads is not modelled.
- `Servers::len` (`src/ui/mod.rs:333`) is not part of this model; it is taken to be the number of servers, the length of `servers`.
- `count_remaining` of the crawl queue, `player_info.len()`, `Helper::has_accounts` and `Servers::get_ident` are not part of this model. Their results are inputs: the two crawl counts, a `hasAccounts` flag, and a first-match search over the servers (`Pages.FindAccount`).
- `titlecase` of account names and `get_server_code` of server URLs are not part of this model. A row keeps the raw name and the server ident.
- The login page, `top_bar`, and the scrapbook and underworld sub-views are not part of this model. The login page is reduced to the `hasAccounts` flag it receives; a top bar to the message its back button sends.
- The settings page's theme list, check boxes and thread-count input. Only its back button is modelled.
- Integer widths: the `usize` sum in the crawl total and the `i64` seconds are unbounded integers here, so their overflow is not modelled.
- The order in which hash maps yield servers and accounts: the model takes any order, and every property holds for all of them.
