/**
 * The three tables of the directory's SQLite store, as values: `account`,
 * `team` and `account_team`, with the queries the code runs against them.
 */
module Store {
  import opened Wrappers

  /** A row id; 0 stands for Python's None (SQLite row ids start at 1). */
  type Id = nat

  /** A JSON value, as the `properties` column holds it (floats are not modelled). */
  datatype Json =
    | JNull
    | JBool(b: bool)
    | JInt(i: int)
    | JStr(s: string)
    | JList(items: seq<Json>)
    | JObject(fields: map<string, Json>)

  /** The decoded `properties` column: application name to that application's value. */
  type Properties = map<string, Json>

  /** A row of `account`, keyed by its unique name. `password` holds the digest or NULL. */
  datatype AccountRow = AccountRow(
    id: Id,
    password: Option<string>,
    description: Option<string>,
    email: Option<string>,
    properties: Properties)

  /** A row of `team`, keyed by its unique name. */
  datatype TeamRow = TeamRow(id: Id, description: Option<string>, properties: Properties)

  /**
   * `account_team`: one row per (account id, team id) pair, which is the
   * table's UNIQUE constraint, mapped to its `admin` flag.
   */
  type Links = map<(Id, Id), bool>

  datatype Tables = Tables(accounts: map<string, AccountRow>, teams: map<string, TeamRow>, links: Links)

  /** The exceptions the directory raises, by cause; the Python type is given for each. */
  datatype Error =
    | NoSuchName       // KeyError: the name does not resolve
    | WrongPassword    // ValueError: check_password failed
    | NameTaken        // ValueError: create_account / create_team on an existing name
    | IdMismatch       // ValueError: save found the name under another id
    | NotAMapping      // AttributeError: dict.update on a value that is not a dict
    | AssertionFailed  // AssertionError: one of the code's assert statements

  ghost predicate AccountIdsUnique(accounts: map<string, AccountRow>) {
    forall m, n :: m in accounts && n in accounts && accounts[m].id == accounts[n].id ==> m == n
  }

  ghost predicate TeamIdsUnique(teams: map<string, TeamRow>) {
    forall m, n :: m in teams && n in teams && teams[m].id == teams[n].id ==> m == n
  }

  /**
   * What the schema and the code keep true of the store: no stored name is
   * empty (save asserts a name), ids are unique, positive and at most the last
   * id handed out, and membership rows only use ids handed out so far.
   */
  ghost predicate WellFormed(t: Tables, lastAccountId: nat, lastTeamId: nat) {
    && "" !in t.accounts && "" !in t.teams
    && (forall n :: n in t.accounts ==> 0 < t.accounts[n].id <= lastAccountId)
    && (forall n :: n in t.teams ==> 0 < t.teams[n].id <= lastTeamId)
    && AccountIdsUnique(t.accounts)
    && TeamIdsUnique(t.teams)
    && (forall p :: p in t.links ==> 0 < p.0 <= lastAccountId && 0 < p.1 <= lastTeamId)
  }

  /** `Account.get_teams`: names of the teams account `a` has a membership row in. */
  function TeamsOf(teams: map<string, TeamRow>, links: Links, a: Id): set<string> {
    set n | n in teams && (a, teams[n].id) in links
  }

  /** `Team.get_members`: names of the accounts with a membership row in team `t`. */
  function MembersOf(accounts: map<string, AccountRow>, links: Links, t: Id): set<string> {
    set n | n in accounts && (accounts[n].id, t) in links
  }

  /** `Team.get_admins`: names of the accounts whose membership row in team `t` has admin set. */
  function AdminsOf(accounts: map<string, AccountRow>, links: Links, t: Id): set<string> {
    set n | n in accounts && (accounts[n].id, t) in links && links[(accounts[n].id, t)]
  }

  /** The admin flag lives on the membership row, so every admin is a member. */
  lemma AdminsAreMembers(accounts: map<string, AccountRow>, links: Links, t: Id)
    ensures AdminsOf(accounts, links, t) <= MembersOf(accounts, links, t)
  {
  }

  /** Account `name` has a membership row in team `team`, both resolving by name. */
  predicate MemberByName(t: Tables, name: string, team: string) {
    name in t.accounts && team in t.teams && (t.accounts[name].id, t.teams[team].id) in t.links
  }

  /** Account `name` is an admin member of team `team`, both resolving by name. */
  predicate AdminByName(t: Tables, name: string, team: string) {
    MemberByName(t, name, team) && t.links[(t.accounts[name].id, t.teams[team].id)]
  }

  /**
   * `check_password` against a stored digest: it fails only when a digest is
   * stored (non-empty) and differs from the digest of the given password.
   */
  predicate Rejects(stored: Option<string>, givenDigest: string) {
    stored.Some? && stored.value != "" && givenDigest != stored.value
  }

  /** An account without a stored digest accepts every password. */
  lemma NoDigestAcceptsAll(stored: Option<string>, givenDigest: string)
    requires stored == None || stored == Some("")
    ensures !Rejects(stored, givenDigest)
  {
  }

  /** Inserting a row under a new name and the next id keeps the store well formed; no membership row uses that id yet. */
  lemma InsertAccountRow(t: Tables, lastAccountId: nat, lastTeamId: nat, name: string, row: AccountRow)
    requires WellFormed(t, lastAccountId, lastTeamId)
    requires name != "" && name !in t.accounts && row.id == lastAccountId + 1
    ensures WellFormed(t.(accounts := t.accounts[name := row]), lastAccountId + 1, lastTeamId)
    ensures forall n :: n in t.accounts ==> t.accounts[n].id != row.id
    ensures TeamsOf(t.teams, t.links, row.id) == {}
  {
  }

  /** Inserting a row under a new name and the next id keeps the store well formed; no membership row uses that id yet. */
  lemma InsertTeamRow(t: Tables, lastAccountId: nat, lastTeamId: nat, name: string, row: TeamRow)
    requires WellFormed(t, lastAccountId, lastTeamId)
    requires name != "" && name !in t.teams && row.id == lastTeamId + 1
    ensures WellFormed(t.(teams := t.teams[name := row]), lastAccountId, lastTeamId + 1)
    ensures forall n :: n in t.teams ==> t.teams[n].id != row.id
    ensures MembersOf(t.accounts, t.links, row.id) == {}
  {
  }

  /** Overwriting the row of a stored name with one of the same id keeps the store well formed. */
  lemma ReplaceAccountRow(t: Tables, lastAccountId: nat, lastTeamId: nat, name: string, row: AccountRow)
    requires WellFormed(t, lastAccountId, lastTeamId)
    requires name in t.accounts && row.id == t.accounts[name].id
    ensures WellFormed(t.(accounts := t.accounts[name := row]), lastAccountId, lastTeamId)
  {
    var a := t.accounts[name := row];
    forall m, n | m in a && n in a && a[m].id == a[n].id ensures m == n {
      assert a[m].id == t.accounts[m].id && a[n].id == t.accounts[n].id;
    }
  }

  /** Overwriting the row of a stored name with one of the same id keeps the store well formed. */
  lemma ReplaceTeamRow(t: Tables, lastAccountId: nat, lastTeamId: nat, name: string, row: TeamRow)
    requires WellFormed(t, lastAccountId, lastTeamId)
    requires name in t.teams && row.id == t.teams[name].id
    ensures WellFormed(t.(teams := t.teams[name := row]), lastAccountId, lastTeamId)
  {
    var a := t.teams[name := row];
    forall m, n | m in a && n in a && a[m].id == a[n].id ensures m == n {
      assert a[m].id == t.teams[m].id && a[n].id == t.teams[n].id;
    }
  }
}
