/** The branch choices around the overview: which page the window shows,
    whether the update banner is on top of it, where the settings page
    leads back to, and how the account page marks its current sub-page. */
module Pages {
  import opened State
  import Overview

  const ReleaseUrl: string := "https://github.com/the-marenga/sf-scrapbook-helper/releases/latest"

  /** The banner offering a new version: "Download" opens the release
      page, "Ignore" dismisses the offer. */
  datatype UpdateBanner = UpdateBanner(download: Message, ignore: Message)

  datatype ButtonStyle = Primary | Secondary

  datatype SubPageButton = SubPageButton(page: AccountPage, onPress: Message, style: ButtonStyle)

  /** What the main part of the window shows. The login page itself is
      drawn by the login state, which is outside this model; it is told
      whether any account exists. `back` is what the top bar's back button
      sends. */
  datatype Screen =
    | LoginScreen(hasAccounts: bool)
    | AccountScreen(server: ServerIdent, player: Account, page: AccountPage,
                    scrapbook: SubPageButton, underworld: SubPageButton,
                    logout: Message, back: Message)
    | OverviewScreen(back: Message, entries: seq<Overview.Entry>)
    | SettingsScreen(back: Message)

  datatype Window = Window(banner: Option<UpdateBanner>, main: Screen)

  function UpdateBannerFor(shouldUpdate: bool): (banner: Option<UpdateBanner>)
    ensures banner.Some? <==> shouldUpdate
    ensures banner.Some? ==>
      banner.value.download == OpenLink(ReleaseUrl) && banner.value.ignore == UpdateResult(false)
  {
    if shouldUpdate then Some(UpdateBanner(OpenLink(ReleaseUrl), UpdateResult(false))) else None
  }

  /** The button that opens `thisPage` of `player`; it is highlighted when
      that page is the one shown. */
  function SelectionButton(player: AccountIdent, thisPage: AccountPage, page: AccountPage): (b: SubPageButton)
    ensures b.page == thisPage && b.onPress == ViewSubPage(player, thisPage)
    ensures b.style == Primary <==> thisPage == page
    ensures b.style == Secondary <==> thisPage != page
  {
    SubPageButton(thisPage, ViewSubPage(player, thisPage), if thisPage == page then Primary else Secondary)
  }

  /** Exactly one of the two sub-page buttons is highlighted: the current one. */
  lemma OnePrimarySubPage(player: AccountIdent, page: AccountPage)
    ensures var s := SelectionButton(player, Scrapbook, page);
            var u := SelectionButton(player, Underworld, page);
            (s.style == Primary) != (u.style == Primary)
            && (s.style == Primary <==> page == Scrapbook)
  {
  }

  function FindInAccounts(accounts: seq<Account>, ident: AccountIdent): (found: Option<Account>)
    ensures found.Some? ==> found.value in accounts && found.value.ident == ident
    ensures found.None? <==> forall a :: a in accounts ==> a.ident != ident
  {
    if accounts == [] then None
    else if accounts[0].ident == ident then Some(accounts[0])
    else FindInAccounts(accounts[1..], ident)
  }

  /** The server and account an ident names, the first in `servers` that
      holds an account with that ident. */
  function FindAccount(servers: seq<Server>, ident: AccountIdent): (found: Option<(Server, Account)>)
    ensures found.Some? ==>
      found.value.0 in servers && found.value.1 in found.value.0.accounts && found.value.1.ident == ident
    ensures found.None? <==> forall s, a :: s in servers && a in s.accounts ==> a.ident != ident
  {
    if servers == [] then None
    else match FindInAccounts(servers[0].accounts, ident)
      case Some(a) => Some((servers[0], a))
      case None => FindAccount(servers[1..], ident)
  }

  /** The account page, or the login page when no account has that ident.
      The account page's top bar leads back to the overview, and its
      "Logout" button asks to remove the account. */
  function ViewAccount(servers: seq<Server>, ident: AccountIdent, page: AccountPage, hasAccounts: bool): (screen: Screen)
    ensures screen.LoginScreen? || screen.AccountScreen?
    ensures screen.LoginScreen? <==> forall s, a :: s in servers && a in s.accounts ==> a.ident != ident
    ensures screen.LoginScreen? ==> screen == LoginScreen(hasAccounts)
    ensures screen.AccountScreen? ==>
      && screen.player.ident == ident
      && (exists s :: s in servers && s.ident == screen.server && screen.player in s.accounts)
      && screen.page == page
      && screen.scrapbook == SelectionButton(ident, Scrapbook, page)
      && screen.underworld == SelectionButton(ident, Underworld, page)
      && screen.logout == RemoveAccount(ident)
      && screen.back == ViewOverview
  {
    match FindAccount(servers, ident)
    case None => LoginScreen(hasAccounts)
    case Some((server, player)) =>
      AccountScreen(server.ident, player, page,
        SelectionButton(player.ident, Scrapbook, page),
        SelectionButton(player.ident, Underworld, page),
        RemoveAccount(player.ident),
        ViewOverview)
  }

  /** The settings page leads back to the overview when there are accounts
      to show, and to the login page otherwise. */
  function SettingsBack(hasAccounts: bool): (back: Message)
    ensures back == ViewOverview <==> hasAccounts
    ensures back == ViewLogin <==> !hasAccounts
  {
    if hasAccounts then ViewOverview else ViewLogin
  }

  /** `Helper::view_current_page`: the page of the current view, with the
      update banner above it when a new version is available. */
  method ViewCurrentPage(view: View, servers: seq<Server>, shouldUpdate: bool, hasAccounts: bool, now: Instant)
    returns (window: Window)
    ensures window.banner == UpdateBannerFor(shouldUpdate)
    ensures view.LoginView? ==> window.main == LoginScreen(hasAccounts)
    ensures view.OverviewView? ==> window.main == OverviewScreen(ViewLogin, Overview.OverviewList(servers, now))
    ensures view.SettingsView? ==> window.main == SettingsScreen(SettingsBack(hasAccounts))
    ensures view.AccountView? ==> window.main == ViewAccount(servers, view.ident, view.page, hasAccounts)
  {
    var main: Screen;
    match view {
      case AccountView(ident, page) =>
        main := ViewAccount(servers, ident, page, hasAccounts);
      case LoginView =>
        main := LoginScreen(hasAccounts);
      case OverviewView =>
        var entries := Overview.ViewOverview(servers, now);
        main := OverviewScreen(ViewLogin, entries);
      case SettingsView =>
        main := SettingsScreen(SettingsBack(hasAccounts));
    }
    window := Window(UpdateBannerFor(shouldUpdate), main);
  }
}
