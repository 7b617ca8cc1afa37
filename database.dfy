/**
 * `database.py`: the `Database` connection with its per-connection name
 * caches, and the `Account` and `Team` objects it hands out. The SQLite file
 * is modelled by three fields holding the tables; `commit` has no effect here.
 */
module Directory {
  import opened Wrappers
  import opened Text
  import opened Store
  import opened Membership

  /** The names of a list of accounts, in list order. */
  function AccountNames(s: seq<Account>): (r: seq<string>)
    ensures |r| == |s| && forall i :: 0 <= i < |s| ==> r[i] == s[i].name
  {
    if s == [] then [] else [s[0].name] + AccountNames(s[1..])
  }

  /**
   * The names of a list of teams, in list order. `Account` and `Team` are
   * unrelated classes, so the account and team lists each need their own.
   */
  function TeamNames(s: seq<Team>): (r: seq<string>)
    ensures |r| == |s| && forall i :: 0 <= i < |s| ==> r[i] == s[i].name
  {
    if s == [] then [] else [s[0].name] + TeamNames(s[1..])
  }

  /**
   * Every entry of cache `before` is still in `after`, bound to the same
   * object: the connection's caches only ever gain entries, so repeated
   * lookups of a name return one object.
   */
  ghost predicate Extends<T>(before: map<string, T>, after: map<string, T>)
  {
    forall n :: n in before ==> n in after && after[n] == before[n]
  }

  class Database {
    /** `configuration.get_password_hexdigest`: the salted digest, about which nothing is assumed. */
    const digest: string -> string
    var accounts: map<string, AccountRow>
    var teams: map<string, TeamRow>
    var links: Links
    /** The largest row id SQLite has handed out in `account` and in `team`. */
    var lastAccountId: nat
    var lastTeamId: nat
    var accountCache: map<string, Account>
    var teamCache: map<string, Team>

    function Contents(): Tables
      reads this`accounts, this`teams, this`links
    {
      Tables(accounts, teams, links)
    }

    /** The store is well formed and every cached object stands for the row of its name. */
    ghost predicate Valid()
      reads this, accountCache.Values, teamCache.Values
    {
      && WellFormed(Tables(accounts, teams, links), lastAccountId, lastTeamId)
      && (forall n :: n in accountCache ==>
            accountCache[n].db == this && accountCache[n].name == n &&
            n in accounts && accountCache[n].id == accounts[n].id)
      && (forall n :: n in teamCache ==>
            teamCache[n].db == this && teamCache[n].name == n &&
            n in teams && teamCache[n].id == teams[n].id)
    }

    /**
     * Every cached object still holds the stored row of its name: no handler
     * has changed one without saving it. Each request opens a fresh
     * connection, so this holds when a handler starts.
     */
    ghost predicate Synced()
      reads this`accountCache, this`accounts, this`teamCache, this`teams, accountCache.Values, teamCache.Values
    {
      AccountsSynced() && TeamsSynced()
    }

    /** The account half of `Synced`. */
    ghost predicate AccountsSynced()
      reads this`accountCache, this`accounts, accountCache.Values
    {
      forall n :: n in accountCache && n in accounts ==> accountCache[n].Row() == accounts[n]
    }

    /** The team half of `Synced`. */
    ghost predicate TeamsSynced()
      reads this`teamCache, this`teams, teamCache.Values
    {
      forall n :: n in teamCache && n in teams ==> teamCache[n].Row() == teams[n]
    }

    /** Every account object cached since the cache was `before` holds the stored row of its name, as `fetch` left it. */
    ghost predicate FetchedAccounts(before: map<string, Account>)
      reads this`accountCache, this`accounts, accountCache.Values
    {
      forall n :: n in accountCache && n !in before ==> n in accounts && accountCache[n].Row() == accounts[n]
    }

    /** Every team object cached since the cache was `before` holds the stored row of its name. */
    ghost predicate FetchedTeams(before: map<string, Team>)
      reads this`teamCache, this`teams, teamCache.Values
    {
      forall n :: n in teamCache && n !in before ==> n in teams && teamCache[n].Row() == teams[n]
    }

    /** Account object `a` has the id of the stored row of its name. */
    ghost predicate Holds(a: Account)
      reads this, a
    {
      a.name in accounts && accounts[a.name].id == a.id
    }

    /** Team object `t` has the id of the stored row of its name. */
    ghost predicate HoldsTeam(t: Team)
      reads this, t
    {
      t.name in teams && teams[t.name].id == t.id
    }

    /** `Database(path)` followed by `open()`: a connection to the given store, with empty caches. */
    constructor Open(digest: string -> string, t: Tables, lastAccountId: nat, lastTeamId: nat)
      requires WellFormed(t, lastAccountId, lastTeamId)
      ensures Valid()
      ensures this.digest == digest && Contents() == t
      ensures this.lastAccountId == lastAccountId && this.lastTeamId == lastTeamId
      ensures accountCache == map[] && teamCache == map[]
    {
      this.digest := digest;
      accounts, teams, links := t.accounts, t.teams, t.links;
      this.lastAccountId, this.lastTeamId := lastAccountId, lastTeamId;
      accountCache, teamCache := map[], map[];
    }

    /**
     * `get_account(name, password)`: the cached object of that name, else a
     * freshly fetched one that is then cached; KeyError, and nothing cached,
     * for a name that is not stored. The empty name skips the fetch and yields
     * a blank unsaved object. A non-empty password is checked after caching.
     */
    method GetAccount(name: string, password: string) returns (r: Result<Account, Error>)
      requires Valid()
      modifies this`accountCache
      ensures Valid()
      ensures name in accounts ==>
        && name in accountCache
        && (name in old(accountCache) ==> accountCache == old(accountCache))
        && (name !in old(accountCache) ==>
              && fresh(accountCache[name])
              && accountCache == old(accountCache)[name := accountCache[name]]
              && accountCache[name].Row() == accounts[name])
        && r == (if password != "" && Rejects(accountCache[name].password, digest(password))
                 then Err(WrongPassword) else Ok(accountCache[name]))
      ensures name !in accounts ==> accountCache == old(accountCache)
      ensures Extends(old(accountCache), accountCache)
      ensures name !in accounts && name != "" ==> r == Err(NoSuchName)
      ensures name == "" ==>
        r.Ok? && fresh(r.value) && r.value.db == this && r.value.name == ""
        && r.value.Row() == AccountRow(0, None, None, None, map[])
    {
      var account: Account;
      if name in accountCache {
        account := accountCache[name];
      } else if name == "" {
        account := new Account.Blank(this, name);
      } else if name in accounts {
        account := new Account.Fetch(this, name, accounts[name]);
        accountCache := accountCache[name := account];
      } else {
        return Err(NoSuchName);
      }
      if password != "" {
        var checked := account.CheckPassword(password);
        if checked.Fail? {
          return Err(checked.error);
        }
      }
      r := Ok(account);
    }

    /**
     * `get_team(name)`: the cached object of that name, else a freshly fetched
     * one that is then cached; KeyError, and nothing cached, for a name that
     * is not stored. The empty name yields a blank unsaved object.
     */
    method GetTeam(name: string) returns (r: Result<Team, Error>)
      requires Valid()
      modifies this`teamCache
      ensures Valid()
      ensures name in teams ==>
        && name in teamCache
        && r == Ok(teamCache[name])
        && (name in old(teamCache) ==> teamCache == old(teamCache))
        && (name !in old(teamCache) ==>
              && fresh(teamCache[name])
              && teamCache == old(teamCache)[name := teamCache[name]]
              && teamCache[name].Row() == teams[name])
      ensures name !in teams ==> teamCache == old(teamCache)
      ensures Extends(old(teamCache), teamCache)
      ensures name !in teams && name != "" ==> r == Err(NoSuchName)
      ensures name == "" ==>
        r.Ok? && fresh(r.value) && r.value.db == this && r.value.name == ""
        && r.value.Row() == TeamRow(0, None, map[])
    {
      if name in teamCache {
        r := Ok(teamCache[name]);
      } else if name == "" {
        var team := new Team.Blank(this, name);
        r := Ok(team);
      } else if name in teams {
        var team := new Team.Fetch(this, name, teams[name]);
        teamCache := teamCache[name := team];
        r := Ok(team);
      } else {
        r := Err(NoSuchName);
      }
    }

    /** The cached account objects of stored names, in the order given. */
    method AccountsNamed(names: seq<string>) returns (r: seq<Account>)
      requires Valid()
      requires forall i :: 0 <= i < |names| ==> names[i] in accounts
      modifies this`accountCache
      ensures Valid()
      ensures AccountNames(r) == names
      ensures forall i :: 0 <= i < |r| ==> names[i] in accountCache && r[i] == accountCache[names[i]]
      ensures Extends(old(accountCache), accountCache)
      ensures FetchedAccounts(old(accountCache))
      ensures old(Synced()) ==> Synced()
    {
      r := [];
      for i := 0 to |names|
        invariant Valid()
        invariant |r| == i
        invariant forall k :: 0 <= k < i ==> names[k] in accountCache && r[k] == accountCache[names[k]] && r[k].name == names[k]
        invariant Extends(old(accountCache), accountCache)
        invariant FetchedAccounts(old(accountCache))
      {
        ghost var before := accountCache;
        var found := GetAccount(names[i], "");
        assert accountCache == before || accountCache == before[names[i] := found.value];
        r := r + [found.value];
      }
      assert AccountNames(r) == names;
    }

    /** The cached team objects of stored names, in the order given. */
    method TeamsNamed(names: seq<string>) returns (r: seq<Team>)
      requires Valid()
      requires forall i :: 0 <= i < |names| ==> names[i] in teams
      modifies this`teamCache
      ensures Valid()
      ensures TeamNames(r) == names
      ensures forall i :: 0 <= i < |r| ==> names[i] in teamCache && r[i] == teamCache[names[i]]
      ensures Extends(old(teamCache), teamCache)
      ensures FetchedTeams(old(teamCache))
      ensures old(Synced()) ==> Synced()
    {
      r := [];
      for i := 0 to |names|
        invariant Valid()
        invariant |r| == i
        invariant forall k :: 0 <= k < i ==> names[k] in teamCache && r[k] == teamCache[names[k]] && r[k].name == names[k]
        invariant Extends(old(teamCache), teamCache)
        invariant FetchedTeams(old(teamCache))
      {
        var found := GetTeam(names[i]);
        r := r + [found.value];
      }
      assert TeamNames(r) == names;
    }

    /** `get_accounts()`: every account, ordered by name. */
    method GetAccounts() returns (r: seq<Account>)
      requires Valid()
      modifies this`accountCache
      ensures Valid()
      ensures Extends(old(accountCache), accountCache)
      ensures FetchedAccounts(old(accountCache))
      ensures old(Synced()) ==> Synced()
      ensures Ascending(AccountNames(r))
      ensures forall n :: n in AccountNames(r) <==> n in accounts
      ensures forall i :: 0 <= i < |r| ==> r[i].name in accountCache && r[i] == accountCache[r[i].name]
    {
      var names := SortNames(accounts.Keys);
      assert old(Synced()) ==> Synced();
      assert forall i :: 0 <= i < |names| ==> names[i] in names;
      r := AccountsNamed(names);
    }

    /** `get_teams()`: every team, ordered by name. */
    method GetTeams() returns (r: seq<Team>)
      requires Valid()
      modifies this`teamCache
      ensures Valid()
      ensures Extends(old(teamCache), teamCache)
      ensures FetchedTeams(old(teamCache))
      ensures old(Synced()) ==> Synced()
      ensures Ascending(TeamNames(r))
      ensures forall n :: n in TeamNames(r) <==> n in teams
      ensures forall i :: 0 <= i < |r| ==> r[i].name in teamCache && r[i] == teamCache[r[i].name]
    {
      var names := SortNames(teams.Keys);
      assert old(Synced()) ==> Synced();
      assert forall i :: 0 <= i < |names| ==> names[i] in names;
      r := TeamsNamed(names);
    }

    /**
     * `create_account(name, password, description)`: ValueError when the name
     * already resolves (the empty name always does, to a blank object);
     * AssertionError from `save` when the name is not one word; otherwise a
     * new row with the digest of a non-empty password, stored under a fresh id.
     */
    method CreateAccount(name: string, password: string, description: Option<string>) returns (r: Result<Account, Error>)
      requires Valid()
      modifies this`accounts, this`lastAccountId, this`accountCache
      ensures Valid()
      ensures Extends(old(accountCache), accountCache)
      ensures teams == old(teams) && links == old(links)
      ensures name == "" || name in old(accounts) ==> r == Err(NameTaken) && accounts == old(accounts)
      ensures name != "" && name !in old(accounts) && !OneWord(name) ==>
        r == Err(AssertionFailed) && accounts == old(accounts)
      ensures OneWord(name) && name !in old(accounts) ==>
        && r.Ok? && fresh(r.value) && r.value.name == name && r.value.db == this
        && accounts == old(accounts)[name := AccountRow(r.value.id, if password != "" then Some(digest(password)) else None, description, None, map[])]
        && (forall n :: n in old(accounts) ==> old(accounts)[n].id != r.value.id)
        && TeamsOf(teams, links, r.value.id) == {}
    {
      var existing := GetAccount(name, "");
      if existing.Ok? || existing.error != NoSuchName {
        return Err(NameTaken);
      }
      r := NewAccount(name, password, description);
    }

    /** The part of `create_account` after the name check: a blank object, its columns, then `save`. */
    method NewAccount(name: string, password: string, description: Option<string>) returns (r: Result<Account, Error>)
      requires Valid() && name != "" && name !in accounts
      modifies this`accounts, this`lastAccountId
      ensures Valid()
      ensures !OneWord(name) ==> r == Err(AssertionFailed) && accounts == old(accounts)
      ensures OneWord(name) ==>
        && r.Ok? && fresh(r.value) && r.value.name == name && r.value.db == this
        && accounts == old(accounts)[name := AccountRow(r.value.id, if password != "" then Some(digest(password)) else None, description, None, map[])]
        && (forall n :: n in old(accounts) ==> old(accounts)[n].id != r.value.id)
        && TeamsOf(teams, links, r.value.id) == {}
    {
      var account := new Account.Blank(this, name);
      if password != "" {
        account.password := Some(digest(password));
      }
      account.description := description;
      var saved := account.Save();
      if saved.Fail? {
        return Err(saved.error);
      }
      r := Ok(account);
    }

    /**
     * `create_team(name, description)`: ValueError when the name already
     * resolves (the empty name always does); AssertionError from `save` when
     * the name is not one word; otherwise a new row with a fresh id and no
     * members.
     */
    method CreateTeam(name: string, description: Option<string>) returns (r: Result<Team, Error>)
      requires Valid()
      modifies this`teams, this`lastTeamId, this`teamCache
      ensures Valid()
      ensures Extends(old(teamCache), teamCache)
      ensures accounts == old(accounts) && links == old(links)
      ensures name == "" || name in old(teams) ==> r == Err(NameTaken) && teams == old(teams)
      ensures name != "" && name !in old(teams) && !OneWord(name) ==>
        r == Err(AssertionFailed) && teams == old(teams)
      ensures OneWord(name) && name !in old(teams) ==>
        && r.Ok? && fresh(r.value) && r.value.name == name && r.value.db == this
        && teams == old(teams)[name := TeamRow(r.value.id, description, map[])]
        && (forall n :: n in old(teams) ==> old(teams)[n].id != r.value.id)
        && MembersOf(accounts, links, r.value.id) == {}
    {
      var existing := GetTeam(name);
      if existing.Ok? {
        return Err(NameTaken);
      }
      r := NewTeam(name, description);
    }

    /**
     * The part of `create_team` after the name check, which `POST_TeamCreate`
     * repeats after its own checks: a blank object, its description, then `save`.
     */
    method NewTeam(name: string, description: Option<string>) returns (r: Result<Team, Error>)
      requires Valid() && name != "" && name !in teams
      modifies this`teams, this`lastTeamId
      ensures Valid()
      ensures !OneWord(name) ==> r == Err(AssertionFailed) && teams == old(teams)
      ensures OneWord(name) ==>
        && r.Ok? && fresh(r.value) && r.value.name == name && r.value.db == this
        && teams == old(teams)[name := TeamRow(r.value.id, description, map[])]
        && (forall n :: n in old(teams) ==> old(teams)[n].id != r.value.id)
        && MembersOf(accounts, links, r.value.id) == {}
    {
      var team := new Team.Blank(this, name);
      team.description := description;
      var saved := team.Save();
      if saved.Fail? {
        return Err(saved.error);
      }
      r := Ok(team);
    }
  }

  class Account {
    const db: Database
    /** The account name; "" for a blank object whose name is still None. */
    const name: string
    /** The row id; 0 until the object is saved (None in the source). */
    var id: Id
    var password: Option<string>
    var description: Option<string>
    var email: Option<string>
    var properties: Properties

    /** `Account(db)` followed by `account.name = name`: an unsaved object. */
    constructor Blank(db: Database, name: string)
      ensures this.db == db && this.name == name
      ensures Row() == AccountRow(0, None, None, None, map[])
    {
      this.db, this.name := db, name;
      id, password, description, email, properties := 0, None, None, None, map[];
    }

    /** `Account(db, name)` on a stored name: `fetch` copies the row into the object. */
    constructor Fetch(db: Database, name: string, row: AccountRow)
      ensures this.db == db && this.name == name && Row() == row
    {
      this.db, this.name := db, name;
      id, password, description, email, properties := row.id, row.password, row.description, row.email, row.properties;
    }

    /** The row `save` writes for this object. */
    function Row(): AccountRow
      reads this
    {
      AccountRow(id, password, description, email, properties)
    }

    /** `check_password(password)`: ValueError iff a digest is stored and the password's digest differs. */
    method CheckPassword(password: string) returns (r: Outcome<Error>)
      ensures r.Fail? <==> Rejects(this.password, db.digest(password))
      ensures r.Fail? ==> r.error == WrongPassword
    {
      r := Pass;
      if this.password.Some? && this.password.value != "" {
        if db.digest(password) != this.password.value {
          r := Fail(WrongPassword);
        }
      }
    }

    /**
     * `save()`: the name must be a single word (AssertionError otherwise; the
     * blank name has no word). When a row of that name exists
     * its id must be this object's id (else ValueError and nothing written) and
     * the row's other columns are overwritten; otherwise a row is inserted and
     * the object takes its fresh id.
     */
    method Save() returns (r: Outcome<Error>)
      requires db.Valid()
      modifies this`id, db`accounts, db`lastAccountId
      ensures db.Valid()
      ensures !OneWord(name) ==>
        r == Fail(AssertionFailed) && id == old(id) && db.accounts == old(db.accounts)
      ensures OneWord(name) && old(name in db.accounts && db.accounts[name].id != id) ==>
        r == Fail(IdMismatch) && id == old(id) && db.accounts == old(db.accounts)
      ensures OneWord(name) && old(name in db.accounts && db.accounts[name].id == id) ==>
        r == Pass && id == old(id) && db.accounts == old(db.accounts)[name := Row()]
      ensures OneWord(name) && old(name !in db.accounts) ==>
        && r == Pass && 0 < id
        && db.accounts == old(db.accounts)[name := Row()]
        && (forall n :: n in old(db.accounts) ==> old(db.accounts)[n].id != id)
        && TeamsOf(db.teams, db.links, id) == {}
    {
      OneWordSplit(name);
      if |Split(name)| != 1 {
        return Fail(AssertionFailed);
      }
      if name in db.accounts {
        if db.accounts[name].id != id {
          return Fail(IdMismatch);
        }
        Overwrite();
      } else {
        Insert();
      }
      r := Pass;
    }

    /** The UPDATE of `save`: the stored row of this name, which has this object's id, takes its columns. */
    method Overwrite()
      requires db.Valid() && db.Holds(this)
      modifies db`accounts
      ensures db.Valid()
      ensures db.accounts == old(db.accounts)[name := Row()]
    {
      ReplaceAccountRow(db.Contents(), db.lastAccountId, db.lastTeamId, name, Row());
      db.accounts := db.accounts[name := Row()];
    }

    /** The INSERT of `save`: a row under the next id, which the object takes. */
    method Insert()
      requires db.Valid() && name != "" && name !in db.accounts
      modifies this`id, db`accounts, db`lastAccountId
      ensures db.Valid()
      ensures 0 < id && db.accounts == old(db.accounts)[name := Row()]
      ensures forall n :: n in old(db.accounts) ==> old(db.accounts)[n].id != id
      ensures TeamsOf(db.teams, db.links, id) == {}
    {
      assert this !in db.accountCache.Values;
      var row := Row().(id := db.lastAccountId + 1);
      InsertAccountRow(db.Contents(), db.lastAccountId, db.lastTeamId, name, row);
      id := row.id;
      db.lastAccountId, db.accounts := row.id, db.accounts[name := row];
    }

    /** `get_teams()`: the teams this account is a member of, ordered by name. */
    method GetTeams() returns (r: seq<Team>)
      requires db.Valid() && id != 0
      modifies db`teamCache
      ensures db.Valid()
      ensures Extends(old(db.teamCache), db.teamCache)
      ensures db.FetchedTeams(old(db.teamCache))
      ensures old(db.Synced()) ==> db.Synced()
      ensures Ascending(TeamNames(r))
      ensures forall n :: n in TeamNames(r) <==> n in TeamsOf(db.teams, db.links, id)
      ensures forall i :: 0 <= i < |r| ==> r[i].name in db.teamCache && r[i] == db.teamCache[r[i].name]
    {
      var names := SortNames(TeamsOf(db.teams, db.links, id));
      assert old(db.Synced()) ==> db.Synced();
      assert forall i :: 0 <= i < |names| ==> names[i] in names;
      r := db.TeamsNamed(names);
    }

    /**
     * `set_teams(teamnames)`: removes the account from the teams it is in but
     * that are not named, then adds it as a non-admin member to the named teams
     * that exist and that it is not in. Unknown names are skipped. The empty
     * name would reach `add_member` on a blank team, whose id assertion fails.
     */
    method SetTeams(teamnames: seq<string>)
      requires db.Valid() && db.Holds(this)
      requires "" !in teamnames
      modifies db`links, db`teamCache
      ensures db.Valid()
      ensures Extends(old(db.teamCache), db.teamCache)
      ensures db.FetchedTeams(old(db.teamCache))
      ensures old(db.Synced()) ==> db.Synced()
      ensures db.links == SetTeamsLinks(db.teams, old(db.links), id, set n | n in teamnames)
    {
      var current := TeamNameSet();
      var wanted := set n | n in teamnames;
      // When every cached team already holds its row, the loops track the whole cache, not only new entries.
      ghost var since := if db.TeamsSynced() then map[] else old(db.teamCache);
      LeaveTeams(current - wanted, since);
      JoinTeams(wanted - current, since);
      if old(db.Synced()) {
        assert db.FetchedTeams(map[]);
        assert db.AccountsSynced() && db.TeamsSynced();
      }
    }

    /** The first line of `set_teams`: the set of names of `get_teams()`. */
    method TeamNameSet() returns (current: set<string>)
      requires db.Valid() && db.Holds(this)
      modifies db`teamCache
      ensures db.Valid()
      ensures Extends(old(db.teamCache), db.teamCache)
      ensures db.FetchedTeams(old(db.teamCache))
      ensures old(db.Synced()) ==> db.Synced()
      ensures current == TeamsOf(db.teams, db.links, id)
    {
      var teams := GetTeams();
      current := set i | 0 <= i < |teams| :: teams[i].name;
      assert current == TeamsOf(db.teams, db.links, id) by {
        forall n | n in TeamsOf(db.teams, db.links, id) ensures n in current {
          assert n in TeamNames(teams);
        }
      }
    }

    /** The first loop of `set_teams`: `remove_member` on each named team that exists. */
    method LeaveTeams(names: set<string>, ghost since: map<string, Team>)
      requires db.Valid() && db.Holds(this)
      requires "" !in names
      requires db.FetchedTeams(since)
      modifies db`links, db`teamCache
      ensures db.Valid()
      ensures Extends(old(db.teamCache), db.teamCache)
      ensures db.FetchedTeams(since)
      ensures db.links == old(db.links) - TeamPairs(db.teams, id, names)
    {
      ghost var before := db.links;
      var todo := names;
      ghost var done: set<string> := {};
      while todo != {}
        invariant db.Valid() && db.Holds(this)
        invariant todo !! done && todo + done == names
        invariant db.links == before - TeamPairs(db.teams, id, done)
        invariant Extends(old(db.teamCache), db.teamCache)
        invariant db.FetchedTeams(since)
        decreases todo
      {
        var n :| n in todo;
        LeaveByName(n, since);
        LeaveStep(db.teams, id, before, done, n);
        todo, done := todo - {n}, done + {n};
      }
      assert done == names;
    }

    /** One turn of the first `set_teams` loop: `get_team(n)`, then `remove_member` when the name is stored. */
    method LeaveByName(n: string, ghost since: map<string, Team>)
      requires db.Valid() && db.Holds(this) && n != ""
      requires db.FetchedTeams(since)
      modifies db`links, db`teamCache
      ensures db.Valid()
      ensures Extends(old(db.teamCache), db.teamCache)
      ensures db.FetchedTeams(since)
      ensures n in db.teams ==> db.links == old(db.links) - {(id, db.teams[n].id)}
      ensures n !in db.teams ==> db.links == old(db.links)
    {
      var found := db.GetTeam(n);
      match found {
        case Ok(team) =>
          assert team.id == db.teams[n].id;
          team.RemoveMember(this);
        case Err(_) =>
      }
    }

    /** The second loop of `set_teams`: `add_member` as non-admin on each named team that exists. */
    method JoinTeams(names: set<string>, ghost since: map<string, Team>)
      requires db.Valid() && db.Holds(this)
      requires "" !in names
      requires db.FetchedTeams(since)
      modifies db`links, db`teamCache
      ensures db.Valid()
      ensures Extends(old(db.teamCache), db.teamCache)
      ensures db.FetchedTeams(since)
      ensures db.links == AddRows(old(db.links), TeamPairs(db.teams, id, names))
    {
      ghost var before := db.links;
      var todo := names;
      ghost var done: set<string> := {};
      while todo != {}
        invariant db.Valid() && db.Holds(this)
        invariant todo !! done && todo + done == names
        invariant db.links == AddRows(before, TeamPairs(db.teams, id, done))
        invariant Extends(old(db.teamCache), db.teamCache)
        invariant db.FetchedTeams(since)
        decreases todo
      {
        var n :| n in todo;
        JoinByName(n, since);
        JoinStep(db.teams, id, before, done, n);
        todo, done := todo - {n}, done + {n};
      }
      assert done == names;
    }

    /** One turn of the second `set_teams` loop: `get_team(n)`, then `add_member` as non-admin when the name is stored. */
    method JoinByName(n: string, ghost since: map<string, Team>)
      requires db.Valid() && db.Holds(this) && n != ""
      requires db.FetchedTeams(since)
      modifies db`links, db`teamCache
      ensures db.Valid()
      ensures Extends(old(db.teamCache), db.teamCache)
      ensures db.FetchedTeams(since)
      ensures n in db.teams ==>
        db.links == if (id, db.teams[n].id) in old(db.links) then old(db.links) else old(db.links)[(id, db.teams[n].id) := false]
      ensures n !in db.teams ==> db.links == old(db.links)
    {
      var found := db.GetTeam(n);
      match found {
        case Ok(team) =>
          assert team.id == db.teams[n].id;
          team.AddMember(this, false);
        case Err(_) =>
      }
    }
  }

  class Team {
    const db: Database
    /** The team name; "" for a blank object whose name is still None. */
    const name: string
    /** The row id; 0 until the object is saved (None in the source). */
    var id: Id
    var description: Option<string>
    var properties: Properties

    /** `Team(db)` followed by `team.name = name`: an unsaved object. */
    constructor Blank(db: Database, name: string)
      ensures this.db == db && this.name == name
      ensures Row() == TeamRow(0, None, map[])
    {
      this.db, this.name := db, name;
      id, description, properties := 0, None, map[];
    }

    /** `Team(db, name)` on a stored name: `fetch` copies the row into the object. */
    constructor Fetch(db: Database, name: string, row: TeamRow)
      ensures this.db == db && this.name == name && Row() == row
    {
      this.db, this.name := db, name;
      id, description, properties := row.id, row.description, row.properties;
    }

    /** The row `save` writes for this object. */
    function Row(): TeamRow
      reads this
    {
      TeamRow(id, description, properties)
    }

    /**
     * `save()`: as `Account.save`. The name must be a single word; an existing
     * row of the name must carry this object's id (else ValueError) and gets
     * the description and properties; otherwise a row is inserted under a
     * fresh id.
     */
    method Save() returns (r: Outcome<Error>)
      requires db.Valid()
      modifies this`id, db`teams, db`lastTeamId
      ensures db.Valid()
      ensures !OneWord(name) ==>
        r == Fail(AssertionFailed) && id == old(id) && db.teams == old(db.teams)
      ensures OneWord(name) && old(name in db.teams && db.teams[name].id != id) ==>
        r == Fail(IdMismatch) && id == old(id) && db.teams == old(db.teams)
      ensures OneWord(name) && old(name in db.teams && db.teams[name].id == id) ==>
        r == Pass && id == old(id) && db.teams == old(db.teams)[name := Row()]
      ensures OneWord(name) && old(name !in db.teams) ==>
        && r == Pass && 0 < id
        && db.teams == old(db.teams)[name := Row()]
        && (forall n :: n in old(db.teams) ==> old(db.teams)[n].id != id)
        && MembersOf(db.accounts, db.links, id) == {}
    {
      OneWordSplit(name);
      if |Split(name)| != 1 {
        return Fail(AssertionFailed);
      }
      if name in db.teams {
        if db.teams[name].id != id {
          return Fail(IdMismatch);
        }
        Overwrite();
      } else {
        Insert();
      }
      r := Pass;
    }

    /** The UPDATE of `save`: the stored row of this name, which has this object's id, takes its columns. */
    method Overwrite()
      requires db.Valid() && db.HoldsTeam(this)
      modifies db`teams
      ensures db.Valid()
      ensures db.teams == old(db.teams)[name := Row()]
    {
      ReplaceTeamRow(db.Contents(), db.lastAccountId, db.lastTeamId, name, Row());
      db.teams := db.teams[name := Row()];
    }

    /** The INSERT of `save`: a row under the next id, which the object takes. */
    method Insert()
      requires db.Valid() && name != "" && name !in db.teams
      modifies this`id, db`teams, db`lastTeamId
      ensures db.Valid()
      ensures 0 < id && db.teams == old(db.teams)[name := Row()]
      ensures forall n :: n in old(db.teams) ==> old(db.teams)[n].id != id
      ensures MembersOf(db.accounts, db.links, id) == {}
    {
      assert this !in db.teamCache.Values;
      var row := Row().(id := db.lastTeamId + 1);
      InsertTeamRow(db.Contents(), db.lastAccountId, db.lastTeamId, name, row);
      id := row.id;
      db.lastTeamId, db.teams := row.id, db.teams[name := row];
    }

    /** `get_members()`: the accounts with a membership row in this team. */
    method GetMembers() returns (r: seq<Account>)
      requires db.Valid() && id != 0
      modifies db`accountCache
      ensures db.Valid()
      ensures Extends(old(db.accountCache), db.accountCache)
      ensures db.FetchedAccounts(old(db.accountCache))
      ensures old(db.Synced()) ==> db.Synced()
      ensures forall n :: n in AccountNames(r) <==> n in MembersOf(db.accounts, db.links, id)
      ensures |r| == |MembersOf(db.accounts, db.links, id)|
      ensures forall i :: 0 <= i < |r| ==> r[i].name in db.accountCache && r[i] == db.accountCache[r[i].name]
    {
      var names := SortNames(MembersOf(db.accounts, db.links, id));
      assert old(db.Synced()) ==> db.Synced();
      assert forall i :: 0 <= i < |names| ==> names[i] in names;
      r := db.AccountsNamed(names);
    }

    /** `get_admins()`: the accounts whose membership row in this team has the admin flag. */
    method GetAdmins() returns (r: seq<Account>)
      requires db.Valid() && id != 0
      modifies db`accountCache
      ensures db.Valid()
      ensures Extends(old(db.accountCache), db.accountCache)
      ensures db.FetchedAccounts(old(db.accountCache))
      ensures old(db.Synced()) ==> db.Synced()
      ensures forall n :: n in AccountNames(r) <==> n in AdminsOf(db.accounts, db.links, id)
      ensures |r| == |AdminsOf(db.accounts, db.links, id)|
      ensures forall i :: 0 <= i < |r| ==> r[i].name in db.accountCache && r[i] == db.accountCache[r[i].name]
    {
      var names := SortNames(AdminsOf(db.accounts, db.links, id));
      assert old(db.Synced()) ==> db.Synced();
      assert forall i :: 0 <= i < |names| ==> names[i] in names;
      r := db.AccountsNamed(names);
    }

    /** `is_member(account)`: the pair has a membership row. */
    method IsMember(account: Account) returns (r: bool)
      requires id != 0 && account.id != 0
      ensures r <==> (account.id, id) in db.links
    {
      r := (account.id, id) in db.links;
    }

    /** `is_admin(account)`: the pair's membership row has the admin flag; only members can be admins. */
    method IsAdmin(account: Account) returns (r: bool)
      requires id != 0 && account.id != 0
      ensures r <==> (account.id, id) in db.links && db.links[(account.id, id)]
      ensures r ==> (account.id, id) in db.links
    {
      r := (account.id, id) in db.links && db.links[(account.id, id)];
    }

    /**
     * `add_member(account, admin)`: nothing changes when the pair is already a
     * member; otherwise exactly one row with the given admin flag is inserted.
     */
    method AddMember(account: Account, admin: bool)
      requires db.Valid() && db.HoldsTeam(this) && db.Holds(account)
      modifies db`links
      ensures db.Valid()
      ensures old((account.id, id) in db.links) ==> db.links == old(db.links)
      ensures old((account.id, id) !in db.links) ==> db.links == old(db.links)[(account.id, id) := admin]
    {
      var member := IsMember(account);
      if member {
        return;
      }
      db.links := db.links[(account.id, id) := admin];
    }

    /**
     * `remove_member(account)`: deletes the pair's row if there is one; the
     * pair is then neither member nor admin, and no other pair changes.
     */
    method RemoveMember(account: Account)
      requires db.Valid() && id != 0 && account.id != 0
      modifies db`links
      ensures db.Valid()
      ensures db.links == old(db.links) - {(account.id, id)}
      ensures (account.id, id) !in db.links
    {
      var member := IsMember(account);
      if !member {
        return;
      }
      db.links := db.links - {(account.id, id)};
    }

    /** `set_admin(account, admin)`: the pair must be a member; only its admin flag changes. */
    method SetAdmin(account: Account, admin: bool)
      requires db.Valid() && id != 0 && account.id != 0
      requires (account.id, id) in db.links
      modifies db`links
      ensures db.Valid()
      ensures db.links == old(db.links)[(account.id, id) := admin]
      ensures db.links.Keys == old(db.links.Keys)
    {
      db.links := db.links[(account.id, id) := admin];
    }

    /**
     * `set_admins(accountnames)`: demotes the admins that are not named, then
     * promotes the named accounts that exist and are not admins. Unknown names
     * are skipped; promoting a non-member, or the empty name (a blank account
     * without id), fails `set_admin`'s assertions, so both are excluded here.
     */
    method SetAdmins(accountnames: seq<string>)
      requires db.Valid() && db.HoldsTeam(this)
      requires "" !in accountnames
      requires Promotable(db.accounts, db.links, id, set n | n in accountnames)
      modifies db`links, db`accountCache
      ensures db.Valid()
      ensures Extends(old(db.accountCache), db.accountCache)
      ensures db.FetchedAccounts(old(db.accountCache))
      ensures old(db.Synced()) ==> db.Synced()
      ensures db.links == SetAdminsLinks(db.accounts, old(db.links), id, set n | n in accountnames)
    {
      var current := AdminNameSet();
      var wanted := set n | n in accountnames;
      // When every cached account already holds its row, the loops track the whole cache, not only new entries.
      ghost var since := if db.AccountsSynced() then map[] else old(db.accountCache);
      ApplyAdminFlags(current, wanted, since);
      if old(db.Synced()) {
        assert db.FetchedAccounts(map[]);
      }
    }

    /** The two loops of `set_admins`, given the current admins and the wanted names. */
    method ApplyAdminFlags(current: set<string>, wanted: set<string>, ghost since: map<string, Account>)
      requires db.Valid() && db.HoldsTeam(this)
      requires "" !in wanted && current == AdminsOf(db.accounts, db.links, id)
      requires Promotable(db.accounts, db.links, id, wanted)
      requires db.FetchedAccounts(since)
      modifies db`links, db`accountCache
      ensures db.Valid()
      ensures Extends(old(db.accountCache), db.accountCache)
      ensures db.FetchedAccounts(since)
      ensures old(db.TeamsSynced()) ==> db.TeamsSynced()
      ensures db.links == SetAdminsLinks(db.accounts, old(db.links), id, wanted)
    {
      SetAdminFlags(current - wanted, false, since);
      assert db.links.Keys == old(db.links).Keys;
      SetAdminFlags(wanted - current, true, since);
    }

    /** The first line of `set_admins`: the set of names of `get_admins()`. */
    method AdminNameSet() returns (current: set<string>)
      requires db.Valid() && db.HoldsTeam(this)
      modifies db`accountCache
      ensures db.Valid()
      ensures Extends(old(db.accountCache), db.accountCache)
      ensures db.FetchedAccounts(old(db.accountCache))
      ensures old(db.Synced()) ==> db.Synced()
      ensures current == AdminsOf(db.accounts, db.links, id)
    {
      var admins := GetAdmins();
      current := set i | 0 <= i < |admins| :: admins[i].name;
      assert current == AdminsOf(db.accounts, db.links, id) by {
        forall n | n in AdminsOf(db.accounts, db.links, id) ensures n in current {
          assert n in AccountNames(admins);
        }
      }
    }

    /** Either loop of `set_admins`: `set_admin(account, flag)` on each named account that exists. */
    method SetAdminFlags(names: set<string>, flag: bool, ghost since: map<string, Account>)
      requires db.Valid() && db.HoldsTeam(this)
      requires "" !in names
      requires forall n :: n in names && n in db.accounts ==> (db.accounts[n].id, id) in db.links
      requires db.FetchedAccounts(since)
      modifies db`links, db`accountCache
      ensures db.Valid()
      ensures Extends(old(db.accountCache), db.accountCache)
      ensures db.FetchedAccounts(since)
      ensures db.links == SetFlags(old(db.links), AdminPairs(db.accounts, id, names), flag)
    {
      ghost var before := db.links;
      var todo := names;
      ghost var done: set<string> := {};
      while todo != {}
        invariant db.Valid() && db.HoldsTeam(this)
        invariant todo !! done && todo + done == names
        invariant db.links == SetFlags(before, AdminPairs(db.accounts, id, done), flag)
        invariant Extends(old(db.accountCache), db.accountCache)
        invariant db.FetchedAccounts(since)
        decreases todo
      {
        var n :| n in todo;
        FlagByName(n, flag, since);
        SetFlagsStep(db.accounts, id, before, done, n, flag);
        todo, done := todo - {n}, done + {n};
      }
      assert done == names;
    }

    /** One turn of either `set_admins` loop: `get_account(n)`, then `set_admin` when the name is stored. */
    method FlagByName(n: string, flag: bool, ghost since: map<string, Account>)
      requires db.Valid() && db.HoldsTeam(this) && n != ""
      requires n in db.accounts ==> (db.accounts[n].id, id) in db.links
      requires db.FetchedAccounts(since)
      modifies db`links, db`accountCache
      ensures db.Valid()
      ensures Extends(old(db.accountCache), db.accountCache)
      ensures db.FetchedAccounts(since)
      ensures n in db.accounts ==> db.links == old(db.links)[(db.accounts[n].id, id) := flag]
      ensures n !in db.accounts ==> db.links == old(db.links)
    {
      var found := db.GetAccount(n, "");
      match found {
        case Ok(account) =>
          assert account.id == db.accounts[n].id;
          SetAdmin(account, flag);
        case Err(_) =>
      }
    }
  }
}
