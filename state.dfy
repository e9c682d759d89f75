/** The runtime state that the overview reads: servers and their crawl
    progress, accounts and their worker-owned status, and the messages the
    views send back. Each value stands for what the UI copies out of the
    shared state while rendering one frame: a status is the value read under
    its lock, a crawl's `remaining` is the count the queue reported. */
module State {

  datatype Option<T> = None | Some(value: T)

  /** A point in time, in nanoseconds; `chrono::DateTime<Local>` values
      compare as instants, so the time zone plays no part. */
  type Instant = int

  const NanosPerSecond: nat := 1_000_000_000

  datatype Arena = Arena(nextFreeFight: Option<Instant>)

  datatype GameState = GameState(arena: Arena)

  /** The logged-in session an idle account holds; only its presence matters here. */
  datatype Session = Session(id: nat)

  datatype AccountStatus =
    | LoggingIn
    | LoggingInAgain
    | Idle(session: Session, gs: GameState)
    | Busy(gs: GameState, reason: string)
    | FatalError(detail: string)

  datatype ScrapbookInfo = ScrapbookInfo(autoBattle: bool)

  datatype AccountIdent = AccountIdent(id: nat)

  datatype Account = Account(
    ident: AccountIdent,
    name: string,
    status: AccountStatus,
    scrapbookInfo: Option<ScrapbookInfo>)

  datatype ServerIdent = ServerIdent(ident: string, url: string)

  /** `Crawling` holds the two counts the overview reads: what the queue
      still has to fetch and how many player records are already stored. */
  datatype CrawlingStatus =
    | Waiting
    | Restoring
    | CrawlingFailed(error: string)
    | Crawling(remaining: nat, crawled: nat)

  datatype Server = Server(ident: ServerIdent, crawling: CrawlingStatus, accounts: seq<Account>)

  datatype AccountPage = Scrapbook | Underworld

  datatype View =
    | AccountView(ident: AccountIdent, page: AccountPage)
    | LoginView
    | OverviewView
    | SettingsView

  datatype Message =
    | OpenLink(url: string)
    | UpdateResult(accepted: bool)
    | ViewSubPage(player: AccountIdent, page: AccountPage)
    | RemoveAccount(ident: AccountIdent)
    | ShowPlayer(player: AccountIdent)
    | ViewOverview
    | ViewLogin
}
