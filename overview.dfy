/** The overview page: one button per account, grouped by server, followed
    by a "+" button that leads to the login page.

    For each account the row shows its status text, its server, its name,
    when its next free arena fight is due, whether auto-battle is on, and
    its server's crawl progress. All of these are derived here from the
    frozen state of one frame; the widgets that display them are not part
    of this model. */
module Overview {
  import opened State
  import opened Sorting
  import Format

  // ---------------------------------------------------------------------
  // Server crawl progress
  // ---------------------------------------------------------------------

  datatype ServerLabel =
    | WaitingLabel
    | RestoringLabel
    | ErrorLabel
    | FinishedLabel
    | FractionLabel(crawled: nat, total: nat)

  /** The progress label of a server: the crawl's phase, or for an active
      crawl either "Finished" or how many of the `remaining + crawled`
      players are already fetched. */
  function ServerStatus(crawling: CrawlingStatus): (shown: ServerLabel)
    ensures shown == WaitingLabel <==> crawling.Waiting?
    ensures shown == RestoringLabel <==> crawling.Restoring?
    ensures shown == ErrorLabel <==> crawling.CrawlingFailed?
    ensures shown == FinishedLabel <==> crawling.Crawling? && crawling.remaining == 0
    ensures shown.FractionLabel? <==> crawling.Crawling? && crawling.remaining > 0
    ensures shown.FractionLabel? ==>
      && shown.crawled == crawling.crawled
      && shown.total == crawling.remaining + crawling.crawled
      && shown.crawled < shown.total
  {
    match crawling
    case Waiting => WaitingLabel
    case Restoring => RestoringLabel
    case CrawlingFailed(_) => ErrorLabel
    case Crawling(remaining, crawled) =>
      var total := remaining + crawled;
      if crawled == total then FinishedLabel else FractionLabel(crawled, total)
  }

  /** The text the server column shows: a fixed word for each phase, or
      the two counts as decimal digits separated by "/". */
  function ServerLabelText(shown: ServerLabel): (text: string)
    ensures shown == WaitingLabel ==> text == "Waiting"
    ensures shown == RestoringLabel ==> text == "Restoring"
    ensures shown == ErrorLabel ==> text == "Error"
    ensures shown == FinishedLabel ==> text == "Finished"
    ensures shown.FractionLabel? ==>
      var n := |Format.Decimal(shown.crawled)|;
      && 0 < n < |text| - 1 && text[n] == '/'
      && Format.AllDigits(text[..n]) && Format.AllDigits(text[n + 1..])
      && Format.ParseDecimal(text[..n]) == shown.crawled
      && Format.ParseDecimal(text[n + 1..]) == shown.total
      && (text[0] == '0' ==> n == 1) && (text[n + 1] == '0' ==> |text| == n + 2)
  {
    match shown
    case WaitingLabel => "Waiting"
    case RestoringLabel => "Restoring"
    case ErrorLabel => "Error"
    case FinishedLabel => "Finished"
    case FractionLabel(crawled, total) =>
      var c, t := Format.Decimal(crawled), Format.Decimal(total);
      Format.ParseDecimalOfDecimal(crawled);
      Format.ParseDecimalOfDecimal(total);
      assert (c + "/" + t)[..|c|] == c && (c + "/" + t)[|c| + 1..] == t;
      c + "/" + t
  }

  /** No two labels are shown as the same text. */
  lemma ServerLabelTextInjective(l1: ServerLabel, l2: ServerLabel)
    requires ServerLabelText(l1) == ServerLabelText(l2)
    ensures l1 == l2
  {
    var t := ServerLabelText(l1);
    if l1.FractionLabel? {
      assert Format.IsDigit(t[0]);
    }
    if l2.FractionLabel? {
      assert Format.IsDigit(t[0]);
    }
    if l1.FractionLabel? && l2.FractionLabel? {
      Format.SplitAtSeparator(
        Format.Decimal(l1.crawled), Format.Decimal(l1.total),
        Format.Decimal(l2.crawled), Format.Decimal(l2.total), '/');
      Format.DecimalInjective(l1.crawled, l2.crawled);
      Format.DecimalInjective(l1.total, l2.total);
    }
  }

  lemma ServerLabelExamples()
    ensures ServerLabelText(ServerStatus(Crawling(3, 7))) == "7/10"
    ensures ServerLabelText(ServerStatus(Crawling(0, 10))) == "Finished"
    ensures ServerLabelText(ServerStatus(CrawlingFailed("timeout"))) == "Error"
  {
    assert Format.Decimal(10) == Format.Decimal(1) + [Format.DigitChar(0)];
  }

  // ---------------------------------------------------------------------
  // Account status
  // ---------------------------------------------------------------------

  /** The status text of an account. */
  function StatusLabel(status: AccountStatus): (shown: string)
    ensures status.LoggingIn? || status.LoggingInAgain? ==> shown == "Logging in"
    ensures status.Idle? ==> shown == "Active"
    ensures status.Busy? ==> shown == status.reason
    ensures status.FatalError? ==> shown == "Error!"
  {
    match status
    case LoggingIn => "Logging in"
    case Idle(_, _) => "Active"
    case Busy(_, reason) => reason
    case FatalError(_) => "Error!"
    case LoggingInAgain => "Logging in"
  }

  /** The next-free-fight value the status carries: present, possibly
      itself empty, only when the account has a game state. */
  function NextFreeFight(status: AccountStatus): (next: Option<Option<Instant>>)
    ensures next.Some? <==> status.Idle? || status.Busy?
    ensures next.Some? ==> next.value == status.gs.arena.nextFreeFight
  {
    match status
    case Idle(_, gs) => Some(gs.arena.nextFreeFight)
    case Busy(gs, _) => Some(gs.arena.nextFreeFight)
    case _ => None
  }

  // ---------------------------------------------------------------------
  // Free fight
  // ---------------------------------------------------------------------

  /** `TimeDelta::num_seconds` of a duration given in nanoseconds: the
      whole seconds in it, truncated toward zero. */
  function WholeSeconds(delta: int): (secs: int)
    ensures 0 <= delta ==> 0 <= secs && secs * NanosPerSecond <= delta < (secs + 1) * NanosPerSecond
    ensures delta < 0 ==> secs <= 0 && -secs * NanosPerSecond <= -delta < (-secs + 1) * NanosPerSecond
  {
    if 0 <= delta then delta / NanosPerSecond else -((-delta) / NanosPerSecond)
  }

  datatype FreeFight = FightUnknown | FightCountdown(seconds: int) | FightReady

  /** The free-fight column: a question mark when the status has no game
      state, the whole seconds left while the fight lies at or after `now`,
      and a check mark when it has passed or none is scheduled. */
  function FreeFightIndicator(next: Option<Option<Instant>>, now: Instant): (f: FreeFight)
    ensures f == FightUnknown <==> next.None?
    ensures f == FightReady <==> next.Some? && (next.value.None? || next.value.value < now)
    ensures f.FightCountdown? <==> next.Some? && next.value.Some? && now <= next.value.value
    ensures f.FightCountdown? ==>
      && 0 <= f.seconds
      && f.seconds * NanosPerSecond <= next.value.value - now < (f.seconds + 1) * NanosPerSecond
  {
    match next
    case None => FightUnknown
    case Some(fight) =>
      if fight.Some? && fight.value >= now then FightCountdown(WholeSeconds(fight.value - now))
      else FightReady
  }

  /** A fight due between `k` and `k + 1` seconds from now counts down `k`. */
  lemma CountdownSeconds(t: Instant, now: Instant, k: nat)
    requires k * NanosPerSecond <= t - now < (k + 1) * NanosPerSecond
    ensures FreeFightIndicator(Some(Some(t)), now) == FightCountdown(k)
  {
  }

  /** A fight due exactly now counts down 0 seconds; it is not yet ready. */
  lemma CountdownAtDeadline(t: Instant)
    ensures FreeFightIndicator(Some(Some(t)), t) == FightCountdown(0)
  {
    CountdownSeconds(t, t, 0);
  }

  /** A fight five seconds ahead counts down 5. */
  lemma CountdownFiveSeconds(now: Instant)
    ensures FreeFightIndicator(Some(Some(now + 5 * NanosPerSecond)), now) == FightCountdown(5)
  {
    CountdownSeconds(now + 5 * NanosPerSecond, now, 5);
  }

  /** As time passes, the countdown never goes up. */
  lemma CountdownNonIncreasing(next: Option<Option<Instant>>, now1: Instant, now2: Instant)
    requires now1 <= now2
    requires FreeFightIndicator(next, now1).FightCountdown?
    requires FreeFightIndicator(next, now2).FightCountdown?
    ensures FreeFightIndicator(next, now2).seconds <= FreeFightIndicator(next, now1).seconds
  {
  }

  // ---------------------------------------------------------------------
  // Auto-battle
  // ---------------------------------------------------------------------

  datatype Indicator = Question | Check | Cross

  /** The auto-battle column. */
  function AutoBattleIndicator(info: Option<ScrapbookInfo>): (icon: Indicator)
    ensures icon == Question <==> info.None?
    ensures icon == Check <==> info.Some? && info.value.autoBattle
    ensures icon == Cross <==> info.Some? && !info.value.autoBattle
  {
    match info
    case Some(sbi) => if sbi.autoBattle then Check else Cross
    case None => Question
  }

  // ---------------------------------------------------------------------
  // Rows
  // ---------------------------------------------------------------------

  /** What one account's button shows and sends. The server is shown by
      the code derived from its URL, the name in title case; both
      conversions are outside this model, so the row keeps the raw values. */
  datatype Row = Row(
    status: string,
    server: ServerIdent,
    name: string,
    freeFight: FreeFight,
    autoBattle: Indicator,
    serverStatus: ServerLabel,
    onPress: Message)

  /** An entry of the overview list: an account's button, or the "+"
      together with the message it sends. */
  datatype Entry = AccountButton(row: Row) | AddButton(onPress: Message)

  function AccountRow(account: Account, server: ServerIdent, serverStatus: ServerLabel, now: Instant): (row: Row)
    ensures row.status == StatusLabel(account.status)
    ensures row.server == server && row.name == account.name && row.serverStatus == serverStatus
    ensures row.onPress == ShowPlayer(account.ident)
    ensures row.freeFight == FreeFightIndicator(NextFreeFight(account.status), now)
    ensures row.freeFight == FightUnknown <==> !(account.status.Idle? || account.status.Busy?)
    ensures row.freeFight == FightReady <==>
      && (account.status.Idle? || account.status.Busy?)
      && (account.status.gs.arena.nextFreeFight.None? || account.status.gs.arena.nextFreeFight.value < now)
    ensures row.autoBattle == AutoBattleIndicator(account.scrapbookInfo)
  {
    Row(
      StatusLabel(account.status),
      server,
      account.name,
      FreeFightIndicator(NextFreeFight(account.status), now),
      AutoBattleIndicator(account.scrapbookInfo),
      serverStatus,
      ShowPlayer(account.ident))
  }

  /** Logging in for the first time and logging in again look the same. */
  lemma LoginKindsLookAlike(account: Account, server: ServerIdent, serverStatus: ServerLabel, now: Instant)
    requires account.status.LoggingIn?
    ensures AccountRow(account, server, serverStatus, now)
         == AccountRow(account.(status := LoggingInAgain), server, serverStatus, now)
  {
  }

  /** The detail of a fatal error is never shown. */
  lemma FatalDetailHidden(account: Account, detail: string, server: ServerIdent, serverStatus: ServerLabel, now: Instant)
    requires account.status.FatalError?
    ensures AccountRow(account, server, serverStatus, now)
         == AccountRow(account.(status := FatalError(detail)), server, serverStatus, now)
  {
  }

  // ---------------------------------------------------------------------
  // The list
  // ---------------------------------------------------------------------

  function ServerKey(server: Server): string
  {
    server.ident.ident
  }

  function AccountName(account: Account): string
  {
    account.name
  }

  /** One button per account of `accounts`, in that order. */
  function AccountEntries(accounts: seq<Account>, server: ServerIdent, serverStatus: ServerLabel, now: Instant): seq<Entry>
  {
    Map(accounts, (a: Account) => AccountButton(AccountRow(a, server, serverStatus, now)))
  }

  /** The buttons of one server: its accounts sorted by name. */
  function ServerEntries(server: Server, now: Instant): seq<Entry>
  {
    AccountEntries(StableSort(server.accounts, AccountName), server.ident, ServerStatus(server.crawling), now)
  }

  /** The buttons of every server in `servers`, server after server. */
  function AllEntries(servers: seq<Server>, now: Instant): seq<Entry>
  {
    FlatMap(servers, (server: Server) => ServerEntries(server, now))
  }

  /** The overview list for the servers as the map yields them. */
  function OverviewList(servers: seq<Server>, now: Instant): seq<Entry>
  {
    AllEntries(StableSort(servers, ServerKey), now) + (if |servers| > 0 then [AddButton(ViewLogin)] else [])
  }

  /** Reference: one button for each account of each server, in the order
      the maps yield them, each carrying its own server's label. */
  function InputEntries(servers: seq<Server>, now: Instant): seq<Entry>
  {
    FlatMap(servers, (server: Server) =>
      AccountEntries(server.accounts, server.ident, ServerStatus(server.crawling), now))
  }

  function AccountsOn(server: Server): nat
  {
    |server.accounts|
  }

  /** Builds the overview list, as `Helper::view_overview` does: it sorts
      the servers, and for each server computes its label once and adds the
      buttons of its accounts; it ends with "+" when there is any server. */
  method ViewOverview(servers: seq<Server>, now: Instant) returns (entries: seq<Entry>)
    ensures entries == OverviewList(servers, now)
  {
    var sorted := SortedCopy(servers, ServerKey);
    entries := [];
    for s := 0 to |sorted|
      invariant entries == AllEntries(sorted[..s], now)
    {
      var server := sorted[s];
      var serverStatus := ServerStatus(server.crawling);
      entries := AddServerButtons(entries, server, serverStatus, now);
      AllEntriesSnoc(sorted[..s + 1], now);
      assert sorted[..s + 1][..s] == sorted[..s];
    }
    assert sorted[..|sorted|] == sorted;
    if |servers| > 0 {
      entries := entries + [AddButton(ViewLogin)];
    }
  }

  /** The inner loop of `Helper::view_overview`: sorts the server's
      accounts by name and adds one button per account, each showing
      `serverStatus`. */
  method AddServerButtons(entries: seq<Entry>, server: Server, serverStatus: ServerLabel, now: Instant)
    returns (extended: seq<Entry>)
    ensures extended == entries + AccountEntries(StableSort(server.accounts, AccountName), server.ident, serverStatus, now)
  {
    var accs := SortedCopy(server.accounts, AccountName);
    extended := entries;
    for a := 0 to |accs|
      invariant extended == entries + AccountEntries(accs[..a], server.ident, serverStatus, now)
    {
      var row := AccountRow(accs[a], server.ident, serverStatus, now);
      extended := extended + [AccountButton(row)];
      AccountEntriesSnoc(accs[..a + 1], server.ident, serverStatus, now);
      assert accs[..a + 1][..a] == accs[..a];
    }
    assert accs[..|accs|] == accs;
  }

  lemma AccountEntriesSnoc(accounts: seq<Account>, server: ServerIdent, serverStatus: ServerLabel, now: Instant)
    requires accounts != []
    ensures AccountEntries(accounts, server, serverStatus, now)
         == AccountEntries(accounts[..|accounts| - 1], server, serverStatus, now)
            + [AccountButton(AccountRow(accounts[|accounts| - 1], server, serverStatus, now))]
  {
    var init := accounts[..|accounts| - 1];
    MapAppend(init, [accounts[|accounts| - 1]], (a: Account) => AccountButton(AccountRow(a, server, serverStatus, now)));
    assert accounts == init + [accounts[|accounts| - 1]];
  }

  lemma AllEntriesSnoc(servers: seq<Server>, now: Instant)
    requires servers != []
    ensures AllEntries(servers, now)
         == AllEntries(servers[..|servers| - 1], now) + ServerEntries(servers[|servers| - 1], now)
  {
  }

  // ---------------------------------------------------------------------
  // Properties of the list
  // ---------------------------------------------------------------------

  /** Each account of each server gets exactly one button, showing its own
      server's label, and the only other entry is the "+" that appears when
      there is at least one server. */
  lemma OverviewRowPerAccount(servers: seq<Server>, now: Instant)
    ensures multiset(OverviewList(servers, now))
         == multiset(InputEntries(servers, now)) + (if |servers| > 0 then multiset{AddButton(ViewLogin)} else multiset{})
  {
    var sortedEntries := (server: Server) => ServerEntries(server, now);
    var inputEntries := (server: Server) =>
      AccountEntries(server.accounts, server.ident, ServerStatus(server.crawling), now);
    FlatMapOfStableSort(servers, ServerKey, sortedEntries);
    forall x | x in servers
      ensures multiset(sortedEntries(x)) == multiset(inputEntries(x))
    {
      MapOfStableSort(x.accounts, AccountName,
        (a: Account) => AccountButton(AccountRow(a, x.ident, ServerStatus(x.crawling), now)));
    }
    FlatMapPointwise(servers, sortedEntries, inputEntries);
  }

  /** The list has one entry per account, plus the "+" when there is a server. */
  lemma OverviewLength(servers: seq<Server>, now: Instant)
    ensures |OverviewList(servers, now)| == Sum(servers, AccountsOn) + (if |servers| > 0 then 1 else 0)
  {
    OverviewRowPerAccount(servers, now);
    FlatMapLength(servers, (server: Server) =>
      AccountEntries(server.accounts, server.ident, ServerStatus(server.crawling), now), AccountsOn);
    assert |multiset(OverviewList(servers, now))| == |OverviewList(servers, now)|;
    assert |multiset(InputEntries(servers, now))| == |InputEntries(servers, now)|;
  }

  /** The "+" entry is there exactly when there is a server, and then it is last. */
  lemma OverviewAddButton(servers: seq<Server>, now: Instant)
    ensures AddButton(ViewLogin) in OverviewList(servers, now) <==> |servers| > 0
    ensures |servers| > 0 ==> OverviewList(servers, now)[|OverviewList(servers, now)| - 1] == AddButton(ViewLogin)
    ensures forall i :: 0 <= i < |OverviewList(servers, now)| - (if |servers| > 0 then 1 else 0)
              ==> OverviewList(servers, now)[i].AccountButton?
  {
    var sortedServers := StableSort(servers, ServerKey);
    var rows := AllEntries(sortedServers, now);
    forall x, i | x in sortedServers && 0 <= i < |ServerEntries(x, now)|
      ensures ServerEntries(x, now)[i].AccountButton?
    {
      StableSortLength(x.accounts, AccountName);
    }
    FlatMapAll(sortedServers, (server: Server) => ServerEntries(server, now), (e: Entry) => e.AccountButton?);
    assert AddButton(ViewLogin) !in rows;
  }

  /** The server key of a button; the "+" has none. */
  function EntryServerKey(e: Entry): string
  {
    if e.AccountButton? then e.row.server.ident else []
  }

  function EntryName(e: Entry): string
  {
    if e.AccountButton? then e.row.name else []
  }

  /** Every button of a server's group shows that server and its label, and
      the group is in order of account name. */
  lemma ServerEntriesByName(server: Server, now: Instant)
    ensures var e := ServerEntries(server, now);
      && |e| == |server.accounts|
      && (forall i :: 0 <= i < |e| ==>
            e[i].AccountButton? && e[i].row.server == server.ident
            && e[i].row.serverStatus == ServerStatus(server.crawling))
      && Ordered(e, EntryName)
  {
    var sorted := StableSort(server.accounts, AccountName);
    StableSortOrdered(server.accounts, AccountName);
    StableSortLength(server.accounts, AccountName);
    var e := ServerEntries(server, now);
    forall i, j | 0 <= i < j < |e|
      ensures !Less(EntryName(e[j]), EntryName(e[i]))
    {
      assert EntryName(e[i]) == AccountName(sorted[i]) && EntryName(e[j]) == AccountName(sorted[j]);
    }
  }

  /** Accounts named "zeta", "alpha" and "mid" are listed as "alpha", "mid", "zeta". */
  lemma NameOrderExample(accounts: seq<Account>)
    requires |accounts| == 3
    requires accounts[0].name == "zeta" && accounts[1].name == "alpha" && accounts[2].name == "mid"
    ensures Map(StableSort(accounts, AccountName), AccountName) == ["alpha", "mid", "zeta"]
  {
    var a := accounts;
    assert Less("alpha", "zeta") && Less("mid", "zeta") && !Less("mid", "alpha");
    assert a[..2][..1] == a[..1] == [a[0]] && a[..2] == [a[0], a[1]];
    assert StableSort(a[..1], AccountName) == [a[0]];
    assert Insert([a[0]], a[1], AccountName) == [a[1], a[0]];
    assert StableSort(a[..2], AccountName) == [a[1], a[0]];
    assert Insert([a[1]], a[2], AccountName) == [a[1], a[2]];
    assert Insert([a[1], a[0]], a[2], AccountName) == [a[1], a[2], a[0]];
    assert StableSort(a, AccountName) == [a[1], a[2], a[0]];
  }

  /** The buttons come in order of their server's key. */
  lemma OverviewServerOrder(servers: seq<Server>, now: Instant)
    ensures var e := OverviewList(servers, now);
      forall i, j :: 0 <= i < j < |e| && e[i].AccountButton? && e[j].AccountButton? ==>
        !Less(e[j].row.server.ident, e[i].row.server.ident)
  {
    var sortedServers := StableSort(servers, ServerKey);
    StableSortOrdered(servers, ServerKey);
    forall x, i | x in sortedServers && 0 <= i < |ServerEntries(x, now)|
      ensures EntryServerKey(ServerEntries(x, now)[i]) == ServerKey(x)
    {
      ServerEntriesByName(x, now);
    }
    FlatMapOrdered(sortedServers, ServerKey, (server: Server) => ServerEntries(server, now), EntryServerKey);
    var rows := AllEntries(sortedServers, now);
    var e := OverviewList(servers, now);
    forall i, j | 0 <= i < j < |e| && e[i].AccountButton? && e[j].AccountButton?
      ensures !Less(e[j].row.server.ident, e[i].row.server.ident)
    {
      assert j < |rows|;
      assert e[i] == rows[i] && e[j] == rows[j];
      assert !Less(EntryServerKey(rows[j]), EntryServerKey(rows[i]));
    }
  }
}
