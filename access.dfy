/**
 * `method_mixin.py`: what every handler shares. The database is opened, the
 * login name is known, access is decided, and the navigation links are built.
 */
module MethodMixin {
  import opened Wrappers
  import opened Store
  import opened Directory
  import opened Validation

  /** The name of the account that is always a site admin, and of the team whose members are. */
  const ADMIN: string := "admin"

  /**
   * `is_login_admin` as a function of the store. The literal login `admin`
   * never touches the store. For other logins the `admin` team is looked up
   * first (KeyError when it is missing), then the login's account (a blank
   * account for the empty name, which `is_member` refuses by assertion).
   */
  function SiteAdmin(t: Tables, login: string): (r: Result<bool, Error>)
    ensures login == ADMIN ==> r == Ok(true)
    ensures login != ADMIN && ADMIN !in t.teams ==> r == Err(NoSuchName)
    ensures login != ADMIN && ADMIN in t.teams && login == "" ==> r == Err(AssertionFailed)
    ensures login != ADMIN && ADMIN in t.teams && login != "" && login !in t.accounts ==> r == Err(NoSuchName)
    ensures r.Ok? <==> login == ADMIN || (ADMIN in t.teams && login != "" && login in t.accounts)
    ensures r.Ok? ==> (r.value <==> login == ADMIN || MemberByName(t, login, ADMIN))
  {
    if login == ADMIN then Ok(true)
    else if ADMIN !in t.teams then Err(NoSuchName)
    else if login == "" then Err(AssertionFailed)
    else if login !in t.accounts then Err(NoSuchName)
    else Ok((t.accounts[login].id, t.teams[ADMIN].id) in t.links)
  }

  /** `is_login_admin()` on an open database: the lookups fill the caches; the answer is `SiteAdmin`'s. */
  method IsLoginAdmin(db: Database, login: string) returns (r: Result<bool, Error>)
    requires db.Valid()
    modifies db`accountCache, db`teamCache
    ensures db.Valid()
    ensures Extends(old(db.accountCache), db.accountCache) && Extends(old(db.teamCache), db.teamCache)
    ensures db.FetchedAccounts(old(db.accountCache)) && db.FetchedTeams(old(db.teamCache))
    ensures r == SiteAdmin(db.Contents(), login)
  {
    if login == ADMIN {
      return Ok(true);
    }
    var team := db.GetTeam(ADMIN);
    if team.Err? {
      return Err(team.error);
    }
    var account := db.GetAccount(login, "");
    if account.Err? {
      return Err(account.error);
    }
    if account.value.id == 0 {
      return Err(AssertionFailed);
    }
    var member := team.value.IsMember(account.value);
    r := Ok(member);
  }

  /**
   * `check_access()`: FORBIDDEN exactly when the handler's access rule says
   * no; an exception raised while deciding propagates unchanged.
   */
  function CheckAccess(accessible: Result<bool, Error>, login: string): (r: Outcome<HttpError>)
    ensures r == Pass <==> accessible == Ok(true)
    ensures accessible == Ok(false) ==> r == Fail(Forbidden(NotAccessible(login)))
    ensures accessible.Err? ==> r == Fail(Internal(accessible.error))
  {
    match accessible
    case Err(e) => Fail(Internal(e))
    case Ok(allowed) => if allowed then Pass else Fail(Forbidden(NotAccessible(login)))
  }

  /** The rule `is_accessible` applies unless a handler overrides it: everyone is let in. */
  function DefaultAccessible(t: Tables, login: string): (r: Result<bool, Error>)
    ensures CheckAccess(r, login) == Pass
  {
    Ok(true)
  }

  /** `get_account_anonymous()`: an anonymous login never yields account data. */
  function GetAccountAnonymous(): (r: Result<AccountRow, Error>)
    ensures r.Err? && r.error == NoSuchName
  {
    Err(NoSuchName)
  }

  /**
   * `prepare(request)`: a fresh connection is opened on the store before
   * anything else, so the login and the access rule see the committed tables
   * and empty caches; `set_current` does nothing by default; then
   * `check_access` decides with the handler's rule.
   */
  method Prepare(digest: string -> string, t: Tables, lastAccountId: nat, lastTeamId: nat,
                 login: string, accessible: (Tables, string) -> Result<bool, Error>)
    returns (db: Database, r: Outcome<HttpError>)
    requires WellFormed(t, lastAccountId, lastTeamId)
    ensures fresh(db) && db.Valid() && db.digest == digest && db.Contents() == t
    ensures db.accountCache == map[] && db.teamCache == map[]
    ensures r == CheckAccess(accessible(t, login), login)
  {
    db := new Database.Open(digest, t, lastAccountId, lastTeamId);
    r := CheckAccess(accessible(db.Contents(), login), login);
  }

  /** Where a navigation link points: the URL names given to `get_url`. */
  datatype Target = AccountList | AccountPage(name: string) | TeamList | ApiDocumentation

  datatype Link = Link(title: string, resource: string, href: Target)

  const ACCOUNTS_LINK := Link("Accounts", "Account list", AccountList)
  const TEAMS_LINK := Link("Teams", "Team list", TeamList)
  const DOCUMENTATION_LINK := Link("Documentation: API", "Documentation API", ApiDocumentation)

  function MyAccountLink(login: string): Link {
    Link("My account", "Account", AccountPage(login))
  }

  /**
   * The links `get_data_links` returns: the login's own account and the API
   * documentation always; the account and team lists only for a site admin,
   * each before the entry it precedes in the list.
   */
  function DataLinks(admin: bool, login: string): (r: seq<Link>)
    ensures MyAccountLink(login) in r && DOCUMENTATION_LINK in r
    ensures ACCOUNTS_LINK in r <==> admin
    ensures TEAMS_LINK in r <==> admin
    ensures |r| == if admin then 4 else 2
    ensures r[|r| - 1] == DOCUMENTATION_LINK
    ensures admin ==> r[0] == ACCOUNTS_LINK && r[1] == MyAccountLink(login) && r[2] == TEAMS_LINK
    ensures !admin ==> r[0] == MyAccountLink(login)
  {
    (if admin then [ACCOUNTS_LINK] else []) + [MyAccountLink(login)]
      + (if admin then [TEAMS_LINK] else []) + [DOCUMENTATION_LINK]
  }

  /** `get_data_links(request)`: appends the links one by one, asking `is_login_admin` twice. */
  method GetDataLinks(db: Database, login: string) returns (r: Result<seq<Link>, Error>)
    requires db.Valid()
    modifies db`accountCache, db`teamCache
    ensures db.Valid()
    ensures Extends(old(db.accountCache), db.accountCache) && Extends(old(db.teamCache), db.teamCache)
    ensures db.FetchedAccounts(old(db.accountCache)) && db.FetchedTeams(old(db.teamCache))
    ensures SiteAdmin(db.Contents(), login).Err? ==> r == Err(SiteAdmin(db.Contents(), login).error)
    ensures SiteAdmin(db.Contents(), login).Ok? ==> r == Ok(DataLinks(SiteAdmin(db.Contents(), login).value, login))
  {
    var links: seq<Link> := [];
    var admin := IsLoginAdmin(db, login);
    match admin {
      case Err(e) => return Err(e);
      case Ok(first) =>
        if first {
          links := links + [ACCOUNTS_LINK];
        }
    }
    links := links + [MyAccountLink(login)];
    assert links == (if admin.value then [ACCOUNTS_LINK] else []) + [MyAccountLink(login)];
    admin := IsLoginAdmin(db, login);
    match admin {
      case Err(e) => return Err(e);
      case Ok(second) =>
        if second {
          links := links + [TEAMS_LINK];
        }
    }
    links := links + [DOCUMENTATION_LINK];
    assert links == DataLinks(admin.value, login);
    r := Ok(links);
  }
}
