/**
 * `team.py`: who may reach the team handlers, and what `POST_TeamCreate` and
 * `POST_TeamEdit` check and store. The list and create handlers admit the
 * site admins alone, which is `SiteAdmin` itself.
 */
module TeamResource {
  import opened Wrappers
  import opened Text
  import opened Store
  import opened Membership
  import opened Directory
  import opened Validation
  import opened MethodMixin

  /**
   * `is_access` of the team view and edit handlers as written:
   * `is_login_admin()`, else `self.team.is_member(self.login)` (view) or
   * `self.team.is_admin(self.login)` (edit). The login is the dictionary the
   * login mixin stores, not an `Account`, so the `isinstance` assertion both
   * share fails for every login that is not a site admin.
   */
  function TeamAccessAsWritten(t: Tables, login: string, team: string): (r: Result<bool, Error>)
    requires team in t.teams
    ensures r == Ok(true) <==> SiteAdmin(t, login) == Ok(true)
    ensures SiteAdmin(t, login) == Ok(false) ==> r == Err(AssertionFailed)
    ensures SiteAdmin(t, login).Err? ==> r == SiteAdmin(t, login)
  {
    match SiteAdmin(t, login)
    case Err(e) => Err(e)
    case Ok(admin) => if admin then Ok(true) else Err(AssertionFailed)
  }

  /**
   * `is_access` of the team view handler as intended: a site admin, or a
   * member of the team, the login's account being looked up by its name.
   */
  function TeamViewAccess(t: Tables, login: string, team: string): (r: Result<bool, Error>)
    requires team in t.teams
    ensures r.Err? <==> SiteAdmin(t, login).Err?
    ensures r.Err? ==> r.error == SiteAdmin(t, login).error
    ensures r.Ok? ==> (r.value <==> login == ADMIN || MemberByName(t, login, ADMIN) || MemberByName(t, login, team))
  {
    match SiteAdmin(t, login)
    case Err(e) => Err(e)
    case Ok(admin) => Ok(admin || MemberByName(t, login, team))
  }

  /** `is_access` of the team edit handlers as intended: a site admin, or an admin member of the team. */
  function TeamEditAccess(t: Tables, login: string, team: string): (r: Result<bool, Error>)
    requires team in t.teams
    ensures r.Err? <==> SiteAdmin(t, login).Err?
    ensures r.Err? ==> r.error == SiteAdmin(t, login).error
    ensures r.Ok? ==> (r.value <==> login == ADMIN || MemberByName(t, login, ADMIN) || AdminByName(t, login, team))
  {
    match SiteAdmin(t, login)
    case Err(e) => Err(e)
    case Ok(admin) => Ok(admin || AdminByName(t, login, team))
  }

  /**
   * As intended, whoever may edit a team may also view it, and a team's
   * members are let in without being site admins.
   */
  lemma EditAccessGrantsView(t: Tables, login: string, team: string)
    requires team in t.teams
    ensures TeamEditAccess(t, login, team) == Ok(true) ==> TeamViewAccess(t, login, team) == Ok(true)
    ensures SiteAdmin(t, login).Ok? && MemberByName(t, login, team) ==>
      CheckAccess(TeamViewAccess(t, login, team), login) == Pass
    ensures SiteAdmin(t, login).Ok? && AdminByName(t, login, team) ==>
      CheckAccess(TeamEditAccess(t, login, team), login) == Pass
  {
  }

  /**
   * The two readings agree on every login that is a site admin or whose
   * access cannot be decided; they differ exactly for the other logins, whom
   * the code as written answers with an internal error instead of deciding.
   */
  lemma AsWrittenAgreesOnAdmins(t: Tables, login: string, team: string)
    requires team in t.teams
    ensures SiteAdmin(t, login) != Ok(false) ==>
      TeamAccessAsWritten(t, login, team) == TeamViewAccess(t, login, team)
      && TeamAccessAsWritten(t, login, team) == TeamEditAccess(t, login, team)
    ensures SiteAdmin(t, login) == Ok(false) ==>
      CheckAccess(TeamAccessAsWritten(t, login, team), login) == Fail(Internal(AssertionFailed))
  {
  }

  /**
   * A store that exhibits the discrepancy: `alice` is an admin member of team
   * `devs` and not a site admin. As written she can neither view nor edit
   * `devs`; as intended she can do both.
   */
  lemma TeamAdminLockedOut()
    ensures var t := Tables(
              map["alice" := AccountRow(1, None, None, None, map[])],
              map[ADMIN := TeamRow(1, None, map[]), "devs" := TeamRow(2, None, map[])],
              map[(1, 2) := true]);
      && CheckAccess(TeamAccessAsWritten(t, "alice", "devs"), "alice") == Fail(Internal(AssertionFailed))
      && CheckAccess(TeamViewAccess(t, "alice", "devs"), "alice") == Pass
      && CheckAccess(TeamEditAccess(t, "alice", "devs"), "alice") == Pass
  {
    var t := Tables(
      map["alice" := AccountRow(1, None, None, None, map[])],
      map[ADMIN := TeamRow(1, None, map[]), "devs" := TeamRow(2, None, map[])],
      map[(1, 2) := true]);
    assert "alice" != ADMIN;
    assert SiteAdmin(t, "alice") == Ok(false);
    assert AdminByName(t, "alice", "devs");
  }

  /** The fields of the team creation form after parsing. */
  datatype CreateForm = CreateForm(name: string, description: Option<string>)

  /** The checks of `POST_TeamCreate` in their order, on the stripped name: the name rules, then the name being free. */
  function CreateRejection(stored: set<string>, name: string): (r: Option<Rejection>)
    ensures r == None <==> |name| > 3 && AllowedChars(name) && name !in stored
    ensures r == Some(NameInUse) <==> NameRejection(name) == None && name in stored
    ensures r != Some(NameInUse) ==> r == NameRejection(name)
  {
    if NameRejection(name).Some? then NameRejection(name)
    else if name in stored then Some(NameInUse)
    else None
  }

  /**
   * `POST_TeamCreate.handle`: a rejected form stores nothing; an accepted one
   * stores the team under a fresh id with the description and no properties,
   * and the new team has no members.
   */
  method HandleCreate(db: Database, form: CreateForm) returns (r: Outcome<HttpError>)
    requires db.Valid()
    modifies db`teams, db`lastTeamId, db`teamCache
    ensures db.Valid()
    ensures Extends(old(db.teamCache), db.teamCache)
    ensures db.accounts == old(db.accounts) && db.links == old(db.links)
    ensures var rejection := CreateRejection(old(db.teams).Keys, Strip(form.name));
      rejection.Some? ==> r == Fail(BadRequest(rejection.value)) && db.teams == old(db.teams)
    ensures CreateRejection(old(db.teams).Keys, Strip(form.name)) == None ==>
      var name := Strip(form.name);
      && r == Pass
      && name in db.teams
      && db.teams == old(db.teams)[name := TeamRow(db.teams[name].id, form.description, map[])]
      && (forall n :: n in old(db.teams) ==> old(db.teams)[n].id != db.teams[name].id)
      && MembersOf(db.accounts, db.links, db.teams[name].id) == {}
  {
    var name := Strip(form.name);
    var rejection := NameRejection(name);
    if rejection.Some? {
      return Fail(BadRequest(rejection.value));
    }
    var existing := db.GetTeam(name);
    if existing.Ok? {
      return Fail(BadRequest(NameInUse));
    }
    var created := db.NewTeam(name, form.description);
    assert created.Ok?;
    r := Pass;
  }

  /** The fields of the team edit form after parsing; an absent administrator list is empty. */
  datatype EditForm = EditForm(description: Option<string>, administrators: seq<string>)

  /**
   * The outcome of `POST_TeamEdit.handle` on stored team `name`: `save`
   * refuses a name that is not one word; otherwise the row gets the new
   * description, and `set_admins` makes the admins exactly the listed names
   * that are accounts, unless a listed name is empty or names an account
   * that is neither admin nor member, whose promotion fails `set_admin`'s
   * assertion and leaves the memberships as they were.
   */
  ghost predicate Edited(
    teams0: map<string, TeamRow>, links0: Links,
    teams: map<string, TeamRow>, accounts: map<string, AccountRow>, links: Links,
    name: string, form: EditForm, r: Outcome<HttpError>)
  {
    && name in teams0
    && var row := teams0[name];
    && var wanted := set n | n in form.administrators;
    && (!OneWord(name) ==>
          r == Fail(Internal(AssertionFailed)) && teams == teams0 && links == links0)
    && (OneWord(name) ==>
          && teams == teams0[name := row.(description := form.description)]
          && ("" in wanted || !Promotable(accounts, links0, row.id, wanted) ==>
                r == Fail(Internal(AssertionFailed)) && links == links0)
          && ("" !in wanted && Promotable(accounts, links0, row.id, wanted) ==>
                && r == Pass
                && links == SetAdminsLinks(accounts, links0, row.id, wanted)
                && AdminsOf(accounts, links, row.id) == wanted * accounts.Keys
                && MembersOf(accounts, links, row.id) == MembersOf(accounts, links0, row.id)))
  }

  /**
   * `POST_TeamEdit`: `set_current` looks the team up (KeyError for an unknown
   * name), then `handle` stores the description and sets the admins.
   */
  method HandleEdit(db: Database, name: string, form: EditForm) returns (r: Outcome<HttpError>)
    requires db.Valid() && db.Synced()
    modifies db`teams, db`lastTeamId, db`links, db`accountCache, db`teamCache, db.teamCache.Values
    ensures db.Valid()
    ensures Extends(old(db.accountCache), db.accountCache) && Extends(old(db.teamCache), db.teamCache)
    ensures db.accounts == old(db.accounts)
    ensures name !in old(db.teams) ==> r.Fail? && db.teams == old(db.teams) && db.links == old(db.links)
    ensures name !in old(db.teams) && name != "" ==> r == Fail(Internal(NoSuchName))
    ensures name in old(db.teams) ==>
      Edited(old(db.teams), old(db.links), db.teams, db.accounts, db.links, name, form, r)
  {
    var found := db.GetTeam(name);
    if found.Err? {
      return Fail(Internal(found.error));
    }
    var team := found.value;
    assert db.Contents() == old(db.Contents());
    if name == "" {
      // The blank team of the empty name: `save` refuses its missing name.
      team.description := form.description;
      var saved := team.Save();
      return Fail(Internal(saved.error));
    }
    r := ApplyEdit(db, team, form);
  }

  /** `POST_TeamEdit.handle` on a stored team: assign, save, then `set_admins`. */
  method ApplyEdit(db: Database, team: Team, form: EditForm) returns (r: Outcome<HttpError>)
    requires db.Valid() && team.db == db && db.HoldsTeam(team)
    requires team.Row() == db.teams[team.name]
    modifies team, db`teams, db`lastTeamId, db`links, db`accountCache
    ensures db.Valid()
    ensures Extends(old(db.accountCache), db.accountCache)
    ensures db.accounts == old(db.accounts)
    ensures Edited(old(db.teams), old(db.links), db.teams, db.accounts, db.links, team.name, form, r)
  {
    team.description := form.description;
    var saved := team.Save();
    assert db.accounts == old(db.accounts) && db.links == old(db.links) && db.accountCache == old(db.accountCache);
    if saved.Fail? {
      return Fail(Internal(saved.error));
    }
    r := ReconcileAdmins(db, team, form.administrators);
  }

  /**
   * The end of `POST_TeamEdit.handle`: `set_admins` with the listed names. An
   * empty name, or a listed account that is neither admin nor member, fails
   * `set_admin`'s assertions, and the uncommitted changes leave the
   * memberships as they were.
   */
  method ReconcileAdmins(db: Database, team: Team, administrators: seq<string>) returns (r: Outcome<HttpError>)
    requires db.Valid() && team.db == db && db.HoldsTeam(team)
    modifies db`links, db`accountCache
    ensures db.Valid()
    ensures Extends(old(db.accountCache), db.accountCache)
    ensures var wanted := set n | n in administrators;
      && ("" in wanted || !Promotable(db.accounts, old(db.links), team.id, wanted) ==>
            r == Fail(Internal(AssertionFailed)) && db.links == old(db.links))
      && ("" !in wanted && Promotable(db.accounts, old(db.links), team.id, wanted) ==>
            && r == Pass
            && db.links == SetAdminsLinks(db.accounts, old(db.links), team.id, wanted)
            && AdminsOf(db.accounts, db.links, team.id) == wanted * db.accounts.Keys
            && MembersOf(db.accounts, db.links, team.id) == MembersOf(db.accounts, old(db.links), team.id))
  {
    var wanted := set n | n in administrators;
    if "" in administrators || !Promotable(db.accounts, db.links, team.id, wanted) {
      return Fail(Internal(AssertionFailed));
    }
    ghost var before := db.links;
    team.SetAdmins(administrators);
    SetAdminsResult(db.accounts, before, team.id, wanted);
    SetAdminsFrame(db.accounts, before, team.id, wanted);
    r := Pass;
  }
}
