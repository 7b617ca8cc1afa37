/**
 * `account.py`: who may reach the account handlers, and what
 * `POST_AccountCreate` and `POST_AccountEdit` check and store.
 */
module AccountResource {
  import opened Wrappers
  import opened Text
  import opened Store
  import opened Membership
  import opened Directory
  import opened Validation
  import opened MethodMixin

  /**
   * `is_access` of the view and edit handlers of one account: a site admin,
   * or the login whose name is the account's. `is_login_admin` is asked first,
   * so its exceptions propagate even for the account's owner. The list and
   * create handlers use `SiteAdmin` alone.
   */
  function AccountAccess(t: Tables, login: string, account: string): (r: Result<bool, Error>)
    ensures r.Err? <==> SiteAdmin(t, login).Err?
    ensures r.Err? ==> r.error == SiteAdmin(t, login).error
    ensures r.Ok? ==> (r.value <==> login == ADMIN || MemberByName(t, login, ADMIN) || login == account)
  {
    match SiteAdmin(t, login)
    case Err(e) => Err(e)
    case Ok(admin) => Ok(admin || login == account)
  }

  /**
   * What the integration tests check: with an `admin` team, a stored login
   * outside it is refused the account list and the `admin` account, and may
   * read its own account.
   */
  lemma NonAdminAccess(t: Tables, login: string)
    requires ADMIN in t.teams && login in t.accounts && login != "" && login != ADMIN
    requires !MemberByName(t, login, ADMIN)
    ensures CheckAccess(SiteAdmin(t, login), login) == Fail(Forbidden(NotAccessible(login)))
    ensures CheckAccess(AccountAccess(t, login, ADMIN), login) == Fail(Forbidden(NotAccessible(login)))
    ensures CheckAccess(AccountAccess(t, login, login), login) == Pass
  {
  }

  /** The fields of the account creation form after parsing; absent lists are empty. */
  datatype CreateForm = CreateForm(
    name: string, password: string, confirmPassword: string,
    email: Option<string>, description: Option<string>, teams: seq<string>)

  /**
   * The checks of `POST_AccountCreate` in their order, on the stripped name and
   * the names already stored: the name rules, then the name being free, then
   * the password rules.
   */
  function CreateRejection(stored: set<string>, name: string, password: string, confirm: string): (r: Option<Rejection>)
    ensures r == None <==>
      && |name| > 3 && AllowedChars(name) && name !in stored
      && |password| >= MIN_PASSWORD_LENGTH && password == confirm
    ensures r == Some(NameInUse) <==> NameRejection(name) == None && name in stored
    ensures r.Some? && r.value.PasswordTooShort? ==> NameRejection(name) == None && name !in stored
    ensures r.Some? && r.value.PasswordMismatch? ==> NameRejection(name) == None && name !in stored
  {
    if NameRejection(name).Some? then NameRejection(name)
    else if name in stored then Some(NameInUse)
    else PasswordRejection(password, confirm)
  }

  /**
   * `POST_AccountCreate.handle`: every check happens before `save`, so a
   * rejected form stores nothing. An accepted one stores the account with the
   * digest of its password, then `set_teams` puts it in the named teams that
   * exist, none as admin. The empty team name fails `add_member`'s assertion
   * after the account is saved, and the memberships are not committed.
   */
  method HandleCreate(db: Database, form: CreateForm) returns (r: Outcome<HttpError>)
    requires db.Valid()
    modifies db`accounts, db`lastAccountId, db`links, db`accountCache, db`teamCache
    ensures db.Valid()
    ensures Extends(old(db.accountCache), db.accountCache) && Extends(old(db.teamCache), db.teamCache)
    ensures db.teams == old(db.teams)
    ensures var rejection := CreateRejection(old(db.accounts).Keys, Strip(form.name), form.password, form.confirmPassword);
      rejection.Some? ==>
        r == Fail(BadRequest(rejection.value)) && db.accounts == old(db.accounts) && db.links == old(db.links)
    ensures CreateRejection(old(db.accounts).Keys, Strip(form.name), form.password, form.confirmPassword) == None ==>
      Registered(old(db.accounts), old(db.links), db.accounts, db.teams, db.links, Strip(form.name), db.digest, form, r)
  {
    var name := Strip(form.name);
    var rejection := NameRejection(name);
    if rejection.Some? {
      return Fail(BadRequest(rejection.value));
    }
    var existing := db.GetAccount(name, "");
    if existing.Ok? {
      return Fail(BadRequest(NameInUse));
    }
    rejection := PasswordRejection(form.password, form.confirmPassword);
    if rejection.Some? {
      return Fail(BadRequest(rejection.value));
    }
    r := Register(db, name, form);
  }

  /**
   * The outcome of an accepted creation form: the account is stored under a
   * fresh id with the digest of its password; unless a team name is empty, it
   * is then a non-admin member of exactly the named teams that exist.
   */
  ghost predicate Registered(
    accounts0: map<string, AccountRow>, links0: Links,
    accounts: map<string, AccountRow>, teams: map<string, TeamRow>, links: Links,
    name: string, digest: string -> string, form: CreateForm, r: Outcome<HttpError>)
  {
    && name in accounts
    && var id := accounts[name].id;
    && accounts == accounts0[name := AccountRow(id, Some(digest(form.password)), form.description, form.email, map[])]
    && (forall n :: n in accounts0 ==> accounts0[n].id != id)
    && ("" in form.teams ==> r == Fail(Internal(AssertionFailed)) && links == links0)
    && ("" !in form.teams ==>
          && r == Pass
          && links == SetTeamsLinks(teams, links0, id, set n | n in form.teams)
          && TeamsOf(teams, links, id) == (set n | n in form.teams) * teams.Keys
          && forall n :: n in form.teams && n in teams ==> (id, teams[n].id) in links && !links[(id, teams[n].id)])
  }

  /** The part of `POST_AccountCreate.handle` after the checks: build, save, then `set_teams`. */
  method Register(db: Database, name: string, form: CreateForm) returns (r: Outcome<HttpError>)
    requires db.Valid()
    requires OneWord(name) && name !in db.accounts
    modifies db`accounts, db`lastAccountId, db`links, db`teamCache
    ensures db.Valid()
    ensures Extends(old(db.teamCache), db.teamCache)
    ensures db.teams == old(db.teams)
    ensures Registered(old(db.accounts), old(db.links), db.accounts, db.teams, db.links, name, db.digest, form, r)
  {
    var account := Enrol(db, name, form);
    if "" in form.teams {
      return Fail(Internal(AssertionFailed));
    }
    ghost var before := db.links;
    ghost var wanted := set n | n in form.teams;
    account.SetTeams(form.teams);
    SetTeamsFresh(db.teams, before, account.id, wanted);
    assert db.accounts[name].id == account.id;
    r := Pass;
  }

  /** The first part of `Register`: a blank object with the form's columns, saved under a fresh id. */
  method Enrol(db: Database, name: string, form: CreateForm) returns (account: Account)
    requires db.Valid()
    requires OneWord(name) && name !in db.accounts
    modifies db`accounts, db`lastAccountId
    ensures db.Valid() && fresh(account) && account.db == db && account.name == name && db.Holds(account)
    ensures db.accounts == old(db.accounts)[name := AccountRow(account.id, Some(db.digest(form.password)), form.description, form.email, map[])]
    ensures forall n :: n in old(db.accounts) ==> old(db.accounts)[n].id != account.id
    ensures TeamsOf(db.teams, db.links, account.id) == {}
  {
    account := new Account.Blank(db, name);
    account.password := Some(db.digest(form.password));
    account.email := form.email;
    account.description := form.description;
    var saved := account.Save();
    assert saved == Pass;
  }

  /** The fields of the account edit form after parsing; a site admin's form has no current password. */
  datatype EditForm = EditForm(
    password: string, newPassword: string, confirmNewPassword: string,
    email: Option<string>, description: Option<string>, teams: seq<string>)

  /**
   * The checks of `POST_AccountEdit` against the account's stored digest: a
   * non-admin's non-empty current password must hash to it, then a non-empty
   * new password must pass the password rules.
   */
  function EditRejection(stored: Option<string>, admin: bool, form: EditForm, digest: string -> string): (r: Option<HttpError>)
    ensures r == None <==>
      && (admin || form.password == "" || stored == Some(digest(form.password)))
      && (form.newPassword == "" || (|form.newPassword| >= MIN_PASSWORD_LENGTH && form.newPassword == form.confirmNewPassword))
    ensures r == Some(Forbidden(InvalidCurrentPassword)) <==>
      !admin && form.password != "" && stored != Some(digest(form.password))
    ensures r.Some? && r.value.BadRequest? ==>
      form.newPassword != "" && PasswordRejection(form.newPassword, form.confirmNewPassword) == Some(r.value.rejection)
  {
    var current := if admin then "" else form.password;
    if current != "" && stored != Some(digest(current)) then Some(Forbidden(InvalidCurrentPassword))
    else if form.newPassword == "" then None
    else match PasswordRejection(form.newPassword, form.confirmNewPassword)
      case Some(rejection) => Some(BadRequest(rejection))
      case None => None
  }

  /** The digest stored after an accepted edit: a blank new password keeps the old one. */
  function EditedPassword(stored: Option<string>, newPassword: string, digest: string -> string): (r: Option<string>)
    ensures newPassword == "" ==> r == stored
    ensures newPassword != "" ==> r.Some? && r.value == digest(newPassword)
  {
    if newPassword == "" then stored else Some(digest(newPassword))
  }

  /**
   * `POST_AccountEdit`: `set_current` looks the account up (KeyError for an
   * unknown name), then `handle` checks the form, stores the new digest,
   * email and description, and, for a site admin only, reconciles the
   * account's teams with `set_teams`. A rejected form changes nothing.
   */
  method HandleEdit(db: Database, login: string, name: string, form: EditForm) returns (r: Outcome<HttpError>)
    requires db.Valid() && db.Synced()
    modifies db`accounts, db`lastAccountId, db`links, db`accountCache, db`teamCache, db.accountCache.Values
    ensures db.Valid()
    ensures Extends(old(db.accountCache), db.accountCache) && Extends(old(db.teamCache), db.teamCache)
    ensures db.teams == old(db.teams)
    ensures name !in old(db.accounts) ==> r.Fail? && db.accounts == old(db.accounts) && db.links == old(db.links)
    ensures name !in old(db.accounts) && name != "" ==> r == Fail(Internal(NoSuchName))
    ensures name in old(db.accounts) && SiteAdmin(old(db.Contents()), login).Err? ==>
      r == Fail(Internal(SiteAdmin(old(db.Contents()), login).error))
      && db.accounts == old(db.accounts) && db.links == old(db.links)
    ensures name in old(db.accounts) && SiteAdmin(old(db.Contents()), login).Ok? ==>
      var admin := SiteAdmin(old(db.Contents()), login).value;
      var rejection := EditRejection(old(db.accounts[name]).password, admin, form, db.digest);
      && (rejection.Some? ==>
            r == Fail(rejection.value) && db.accounts == old(db.accounts) && db.links == old(db.links))
      && (rejection == None ==>
            Edited(old(db.accounts), old(db.links), db.accounts, db.teams, db.links, name, admin, db.digest, form, r))
  {
    var found := db.GetAccount(name, "");
    if found.Err? {
      return Fail(Internal(found.error));
    }
    assert db.Contents() == old(db.Contents());
    r := EditAccount(db, login, found.value, form);
  }

  /** `POST_AccountEdit.handle` on the object `set_current` found: the checks, then the changes. */
  method EditAccount(db: Database, login: string, account: Account, form: EditForm) returns (r: Outcome<HttpError>)
    requires db.Valid() && account.db == db
    requires account.name in db.accounts ==> account.Row() == db.accounts[account.name]
    requires account.name !in db.accounts ==> account.name == ""
    modifies account, db`accounts, db`lastAccountId, db`links, db`accountCache, db`teamCache
    ensures db.Valid()
    ensures Extends(old(db.accountCache), db.accountCache) && Extends(old(db.teamCache), db.teamCache)
    ensures account.name !in old(db.accounts) ==> r.Fail? && db.accounts == old(db.accounts) && db.links == old(db.links)
    ensures account.name in old(db.accounts) && SiteAdmin(old(db.Contents()), login).Err? ==>
      r == Fail(Internal(SiteAdmin(old(db.Contents()), login).error))
      && db.accounts == old(db.accounts) && db.links == old(db.links)
    ensures account.name in old(db.accounts) && SiteAdmin(old(db.Contents()), login).Ok? ==>
      var admin := SiteAdmin(old(db.Contents()), login).value;
      var rejection := EditRejection(old(db.accounts[account.name]).password, admin, form, db.digest);
      && (rejection.Some? ==>
            r == Fail(rejection.value) && db.accounts == old(db.accounts) && db.links == old(db.links))
      && (rejection == None ==>
            Edited(old(db.accounts), old(db.links), db.accounts, db.teams, db.links, account.name, admin, db.digest, form, r))
  {
    var admin := IsLoginAdmin(db, login);
    if admin.Err? {
      return Fail(Internal(admin.error));
    }
    var current := if admin.value then "" else form.password;
    if current != "" && account.password != Some(db.digest(current)) {
      return Fail(Forbidden(InvalidCurrentPassword));
    }
    if form.newPassword != "" {
      var rejection := PasswordRejection(form.newPassword, form.confirmNewPassword);
      if rejection.Some? {
        return Fail(BadRequest(rejection.value));
      }
    }
    if account.name == "" {
      r := EditBlank(db, account, form);
      return;
    }
    r := ApplyEdit(db, account, login, admin.value, form);
  }

  /** `handle` on the blank account of the empty name: the assignments, then `save`, which refuses the missing name. */
  method EditBlank(db: Database, account: Account, form: EditForm) returns (r: Outcome<HttpError>)
    requires db.Valid() && account.db == db && account.name == "" && "" !in db.accounts
    modifies account, db`accounts, db`lastAccountId
    ensures db.Valid() && db.accounts == old(db.accounts)
    ensures r == Fail(Internal(AssertionFailed))
  {
    account.password := EditedPassword(account.password, form.newPassword, db.digest);
    account.email := form.email;
    account.description := form.description;
    var saved := account.Save();
    r := Fail(Internal(saved.error));
  }

  /**
   * The outcome of an accepted edit form on stored account `name`: `save`
   * refuses a name that is not one word; otherwise the row gets the new
   * digest, email and description under its id, and a site admin's form then
   * reconciles the teams unless a team name is empty.
   */
  ghost predicate Edited(
    accounts0: map<string, AccountRow>, links0: Links,
    accounts: map<string, AccountRow>, teams: map<string, TeamRow>, links: Links,
    name: string, admin: bool, digest: string -> string, form: EditForm, r: Outcome<HttpError>)
  {
    && name in accounts0
    && var row := accounts0[name];
    && (!OneWord(name) ==>
          r == Fail(Internal(AssertionFailed)) && accounts == accounts0 && links == links0)
    && (OneWord(name) ==>
          && accounts == accounts0[name := row.(
               password := EditedPassword(row.password, form.newPassword, digest),
               email := form.email, description := form.description)]
          && (!admin ==> r == Pass && links == links0)
          && (admin && "" in form.teams ==> r == Fail(Internal(AssertionFailed)) && links == links0)
          && (admin && "" !in form.teams ==>
                r == Pass && links == SetTeamsLinks(teams, links0, row.id, set n | n in form.teams)))
  }

  /** The part of `POST_AccountEdit.handle` after the checks: assign, save, then `set_teams` for a site admin. */
  method ApplyEdit(db: Database, account: Account, login: string, admin: bool, form: EditForm) returns (r: Outcome<HttpError>)
    requires db.Valid() && account.db == db && db.Holds(account)
    requires account.Row() == db.accounts[account.name]
    requires SiteAdmin(db.Contents(), login) == Ok(admin)
    modifies account, db`accounts, db`lastAccountId, db`links, db`accountCache, db`teamCache
    ensures db.Valid()
    ensures Extends(old(db.accountCache), db.accountCache) && Extends(old(db.teamCache), db.teamCache)
    ensures db.teams == old(db.teams)
    ensures Edited(old(db.accounts), old(db.links), db.accounts, db.teams, db.links, account.name, admin, db.digest, form, r)
  {
    ghost var before := db.Contents();
    var saved := SaveEdit(db, account, form);
    if saved.Fail? {
      return Fail(Internal(saved.error));
    }
    SiteAdminIgnoresRowData(before, account.name, db.accounts[account.name], login);
    assert db.Contents() == before.(accounts := before.accounts[account.name := db.accounts[account.name]]);
    r := ReconcileTeams(db, account, login, form.teams);
  }

  /** The first part of `ApplyEdit`: the form's digest, email and description go into the object, which is saved. */
  method SaveEdit(db: Database, account: Account, form: EditForm) returns (r: Outcome<Error>)
    requires db.Valid() && account.db == db && db.Holds(account)
    requires account.Row() == db.accounts[account.name]
    modifies account, db`accounts, db`lastAccountId
    ensures db.Valid() && db.Holds(account)
    ensures !OneWord(account.name) ==> r == Fail(AssertionFailed) && db.accounts == old(db.accounts)
    ensures OneWord(account.name) ==>
      var row := old(db.accounts[account.name]);
      && r == Pass
      && db.accounts == old(db.accounts)[account.name := row.(
           password := EditedPassword(row.password, form.newPassword, db.digest),
           email := form.email, description := form.description)]
  {
    ghost var row := db.accounts[account.name];
    if form.newPassword != "" {
      account.password := Some(db.digest(form.newPassword));
    }
    account.email := form.email;
    account.description := form.description;
    assert account.Row() == row.(
      password := EditedPassword(row.password, form.newPassword, db.digest),
      email := form.email, description := form.description);
    r := account.Save();
  }

  /**
   * The end of `POST_AccountEdit.handle`: `is_login_admin` is asked again
   * and, for a site admin, `set_teams` reconciles the account's teams. An
   * empty team name makes `get_team` return a blank team without id, whose
   * `add_member` fails its `assert self.id` after the first loop's deletions
   * and possibly some insertions; `set_teams` commits only at its end, so
   * none of those changes is committed and the memberships stay as they were.
   */
  method ReconcileTeams(db: Database, account: Account, login: string, teams: seq<string>)
    returns (r: Outcome<HttpError>)
    requires db.Valid() && account.db == db && db.Holds(account)
    modifies db`links, db`accountCache, db`teamCache
    ensures db.Valid()
    ensures Extends(old(db.accountCache), db.accountCache) && Extends(old(db.teamCache), db.teamCache)
    ensures SiteAdmin(old(db.Contents()), login).Err? ==>
      r == Fail(Internal(SiteAdmin(old(db.Contents()), login).error)) && db.links == old(db.links)
    ensures SiteAdmin(old(db.Contents()), login) == Ok(false) ==> r == Pass && db.links == old(db.links)
    ensures SiteAdmin(old(db.Contents()), login) == Ok(true) && "" in teams ==>
      r == Fail(Internal(AssertionFailed)) && db.links == old(db.links)
    ensures SiteAdmin(old(db.Contents()), login) == Ok(true) && "" !in teams ==>
      r == Pass && db.links == SetTeamsLinks(db.teams, old(db.links), account.id, set n | n in teams)
  {
    var stillAdmin := IsLoginAdmin(db, login);
    if stillAdmin.Err? {
      return Fail(Internal(stillAdmin.error));
    }
    if stillAdmin.value {
      if "" in teams {
        return Fail(Internal(AssertionFailed));
      }
      account.SetTeams(teams);
    }
    r := Pass;
  }

  /** Saving an account's row keeps its name and id, so whether the login is a site admin is unchanged. */
  lemma SiteAdminIgnoresRowData(t: Tables, name: string, row: AccountRow, login: string)
    requires name in t.accounts && row.id == t.accounts[name].id
    ensures SiteAdmin(t.(accounts := t.accounts[name := row]), login) == SiteAdmin(t, login)
  {
  }
}
