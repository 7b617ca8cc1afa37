/**
 * The two reconciliation routines of the directory, `Account.set_teams` and
 * `Team.set_admins`, as functions from the membership rows before the call to
 * the rows after it, with the properties the routines promise.
 */
module Membership {
  import opened Store

  /** Membership rows of account `a` in the teams among `names` that resolve. */
  function TeamPairs(teams: map<string, TeamRow>, a: Id, names: set<string>): set<(Id, Id)> {
    set n | n in names && n in teams :: (a, teams[n].id)
  }

  /** `add_member(account)` for every pair of `pairs`: a non-admin row where there is none yet. */
  function AddRows(links: Links, pairs: set<(Id, Id)>): Links {
    map p | p in links.Keys + pairs :: if p in links then links[p] else false
  }

  /**
   * The rows after `set_teams(wanted)` on account `a`: rows of teams it is in
   * but that are not wanted are deleted, then wanted teams that resolve and
   * that it is not in get a non-admin row.
   */
  function SetTeamsLinks(teams: map<string, TeamRow>, links: Links, a: Id, wanted: set<string>): Links {
    var current := TeamsOf(teams, links, a);
    AddRows(links - TeamPairs(teams, a, current - wanted), TeamPairs(teams, a, wanted - current))
  }

  lemma TeamPairsHas(teams: map<string, TeamRow>, a: Id, names: set<string>, n: string)
    requires TeamIdsUnique(teams) && n in teams
    ensures (a, teams[n].id) in TeamPairs(teams, a, names) <==> n in names
  {
    if (a, teams[n].id) in TeamPairs(teams, a, names) {
      var m :| m in names && m in teams && (a, teams[m].id) == (a, teams[n].id);
      assert m == n;
    }
  }

  /**
   * After `set_teams(wanted)` the account is in exactly the wanted teams that
   * resolve; a retained membership keeps its admin flag, a new one is
   * non-admin, and the rows of every other account are untouched.
   */
  lemma SetTeamsResult(teams: map<string, TeamRow>, links: Links, a: Id, wanted: set<string>)
    requires TeamIdsUnique(teams)
    ensures TeamsOf(teams, SetTeamsLinks(teams, links, a, wanted), a) == wanted * teams.Keys
    ensures forall n :: n in wanted && n in teams ==>
      var p := (a, teams[n].id);
      p in SetTeamsLinks(teams, links, a, wanted) &&
      SetTeamsLinks(teams, links, a, wanted)[p] == (if p in links then links[p] else false)
    ensures forall p: (Id, Id) :: p.0 != a ==>
      (p in SetTeamsLinks(teams, links, a, wanted) <==> p in links) &&
      (p in links ==> SetTeamsLinks(teams, links, a, wanted)[p] == links[p])
  {
    var r := SetTeamsLinks(teams, links, a, wanted);
    var current := TeamsOf(teams, links, a);
    forall n | n in teams
      ensures (a, teams[n].id) in r <==> n in wanted
      ensures n in wanted ==> r[(a, teams[n].id)] == (if (a, teams[n].id) in links then links[(a, teams[n].id)] else false)
    {
      TeamPairsHas(teams, a, current - wanted, n);
      TeamPairsHas(teams, a, wanted - current, n);
    }
  }

  /**
   * On an account without memberships, as a newly created one, `set_teams`
   * leaves it in exactly the wanted teams that resolve, none of them as admin.
   */
  lemma SetTeamsFresh(teams: map<string, TeamRow>, links: Links, a: Id, wanted: set<string>)
    requires TeamIdsUnique(teams)
    requires TeamsOf(teams, links, a) == {}
    ensures TeamsOf(teams, SetTeamsLinks(teams, links, a, wanted), a) == wanted * teams.Keys
    ensures forall n :: n in wanted && n in teams ==>
      (a, teams[n].id) in SetTeamsLinks(teams, links, a, wanted) && !SetTeamsLinks(teams, links, a, wanted)[(a, teams[n].id)]
  {
    SetTeamsResult(teams, links, a, wanted);
    forall n | n in wanted && n in teams
      ensures (a, teams[n].id) !in links
    {
      assert (a, teams[n].id) in links ==> n in TeamsOf(teams, links, a);
    }
  }

  /**
   * `set_teams` is idempotent: a second call with the same names leaves the
   * rows as the first call left them.
   */
  lemma SetTeamsIdempotent(teams: map<string, TeamRow>, links: Links, a: Id, wanted: set<string>)
    requires TeamIdsUnique(teams)
    ensures var once := SetTeamsLinks(teams, links, a, wanted);
      SetTeamsLinks(teams, once, a, wanted) == once
  {
    var once := SetTeamsLinks(teams, links, a, wanted);
    SetTeamsResult(teams, links, a, wanted);
    var current := TeamsOf(teams, once, a);
    assert TeamPairs(teams, a, current - wanted) == {};
    assert TeamPairs(teams, a, wanted - current) == {};
    assert once - {} == once;
    assert AddRows(once, {}) == once;
  }

  /**
   * The second call issues no mutation: no current team is unwanted, and every
   * wanted team the account is not in fails to resolve.
   */
  lemma SetTeamsSecondCallInert(teams: map<string, TeamRow>, links: Links, a: Id, wanted: set<string>)
    requires TeamIdsUnique(teams)
    ensures var current := TeamsOf(teams, SetTeamsLinks(teams, links, a, wanted), a);
      current - wanted == {} && forall n :: n in wanted - current ==> n !in teams
  {
    SetTeamsResult(teams, links, a, wanted);
  }

  /** Membership rows in team `t` of the accounts among `names` that resolve. */
  function AdminPairs(accounts: map<string, AccountRow>, t: Id, names: set<string>): set<(Id, Id)> {
    set n | n in names && n in accounts :: (accounts[n].id, t)
  }

  /** `set_admin(account, flag)` for every pair of `pairs` that has a row; no row is added or deleted. */
  function SetFlags(links: Links, pairs: set<(Id, Id)>, flag: bool): Links {
    map p | p in links :: if p in pairs then flag else links[p]
  }

  /**
   * What `set_admin`'s `assert self.is_member(account)` demands of `set_admins(wanted)`:
   * every wanted account that resolves and is not yet an admin is a member.
   */
  predicate Promotable(accounts: map<string, AccountRow>, links: Links, t: Id, wanted: set<string>) {
    forall n :: n in wanted && n in accounts && n !in AdminsOf(accounts, links, t) ==> (accounts[n].id, t) in links
  }

  /**
   * The rows after `set_admins(wanted)` on team `t`: current admins that are not
   * wanted are demoted, then wanted accounts that resolve and are not admins
   * are promoted.
   */
  function SetAdminsLinks(accounts: map<string, AccountRow>, links: Links, t: Id, wanted: set<string>): Links {
    var current := AdminsOf(accounts, links, t);
    SetFlags(SetFlags(links, AdminPairs(accounts, t, current - wanted), false), AdminPairs(accounts, t, wanted - current), true)
  }

  lemma AdminPairsHas(accounts: map<string, AccountRow>, t: Id, names: set<string>, n: string)
    requires AccountIdsUnique(accounts) && n in accounts
    ensures (accounts[n].id, t) in AdminPairs(accounts, t, names) <==> n in names
  {
    if (accounts[n].id, t) in AdminPairs(accounts, t, names) {
      var m :| m in names && m in accounts && (accounts[m].id, t) == (accounts[n].id, t);
      assert m == n;
    }
  }

  /**
   * `set_admins` never creates or deletes a membership row, and leaves the rows
   * of every other team alone.
   */
  lemma SetAdminsFrame(accounts: map<string, AccountRow>, links: Links, t: Id, wanted: set<string>)
    ensures SetAdminsLinks(accounts, links, t, wanted).Keys == links.Keys
    ensures forall p :: p in links && p.1 != t ==> SetAdminsLinks(accounts, links, t, wanted)[p] == links[p]
  {
    var current := AdminsOf(accounts, links, t);
    var once := SetFlags(links, AdminPairs(accounts, t, current - wanted), false);
    assert once.Keys == links.Keys;
  }

  /** After `set_admins(wanted)` every member's admin flag says whether it was wanted. */
  lemma SetAdminsFlags(accounts: map<string, AccountRow>, links: Links, t: Id, wanted: set<string>)
    requires AccountIdsUnique(accounts)
    ensures forall n :: n in accounts && (accounts[n].id, t) in links ==>
      SetAdminsLinks(accounts, links, t, wanted)[(accounts[n].id, t)] == (n in wanted)
  {
    var current := AdminsOf(accounts, links, t);
    forall n | n in accounts && (accounts[n].id, t) in links
      ensures SetAdminsLinks(accounts, links, t, wanted)[(accounts[n].id, t)] == (n in wanted)
    {
      AdminPairsHas(accounts, t, current - wanted, n);
      AdminPairsHas(accounts, t, wanted - current, n);
    }
  }

  /**
   * When the promotions are legal, the team's admins after `set_admins(wanted)`
   * are exactly the wanted names that resolve to accounts.
   */
  lemma SetAdminsResult(accounts: map<string, AccountRow>, links: Links, t: Id, wanted: set<string>)
    requires AccountIdsUnique(accounts)
    requires Promotable(accounts, links, t, wanted)
    ensures AdminsOf(accounts, SetAdminsLinks(accounts, links, t, wanted), t) == wanted * accounts.Keys
  {
    SetAdminsFrame(accounts, links, t, wanted);
    SetAdminsFlags(accounts, links, t, wanted);
    var r := SetAdminsLinks(accounts, links, t, wanted);
    forall n | n in accounts
      ensures n in AdminsOf(accounts, r, t) <==> n in wanted
    {
    }
  }

  /** `set_admins` is idempotent: a second call with the same names changes nothing. */
  lemma SetAdminsIdempotent(accounts: map<string, AccountRow>, links: Links, t: Id, wanted: set<string>)
    requires AccountIdsUnique(accounts)
    ensures var once := SetAdminsLinks(accounts, links, t, wanted);
      SetAdminsLinks(accounts, once, t, wanted) == once
  {
    var once := SetAdminsLinks(accounts, links, t, wanted);
    SetAdminsFrame(accounts, links, t, wanted);
    SetAdminsFlags(accounts, links, t, wanted);
    var current := AdminsOf(accounts, once, t);
    forall n | n in accounts && (accounts[n].id, t) in once
      ensures (accounts[n].id, t) !in AdminPairs(accounts, t, current - wanted)
      ensures (accounts[n].id, t) !in AdminPairs(accounts, t, wanted - current)
    {
      AdminPairsHas(accounts, t, current - wanted, n);
      AdminPairsHas(accounts, t, wanted - current, n);
    }
    var step := SetFlags(once, AdminPairs(accounts, t, current - wanted), false);
    assert step == once;
    assert SetFlags(step, AdminPairs(accounts, t, wanted - current), true) == once;
  }

  /**
   * An empty admin list, as an edit that submits none gives, demotes every
   * admin of the team and keeps every membership row.
   */
  lemma SetAdminsNone(accounts: map<string, AccountRow>, links: Links, t: Id)
    requires AccountIdsUnique(accounts)
    ensures AdminsOf(accounts, SetAdminsLinks(accounts, links, t, {}), t) == {}
    ensures MembersOf(accounts, SetAdminsLinks(accounts, links, t, {}), t) == MembersOf(accounts, links, t)
  {
    SetAdminsResult(accounts, links, t, {});
    SetAdminsFrame(accounts, links, t, {});
  }

  // One name at a time: how the loops of set_teams and set_admins reach the functions above.

  lemma TeamPairsAdd(teams: map<string, TeamRow>, a: Id, done: set<string>, n: string)
    ensures TeamPairs(teams, a, done + {n}) == TeamPairs(teams, a, done) + (if n in teams then {(a, teams[n].id)} else {})
  {
  }

  lemma AdminPairsAdd(accounts: map<string, AccountRow>, t: Id, done: set<string>, n: string)
    ensures AdminPairs(accounts, t, done + {n}) == AdminPairs(accounts, t, done) + (if n in accounts then {(accounts[n].id, t)} else {})
  {
  }

  lemma AddRowsAdd(links: Links, pairs: set<(Id, Id)>, p: (Id, Id))
    ensures AddRows(links, pairs + {p}) ==
      (if p in AddRows(links, pairs) then AddRows(links, pairs) else AddRows(links, pairs)[p := false])
  {
  }

  lemma SetFlagsAdd(links: Links, pairs: set<(Id, Id)>, p: (Id, Id), flag: bool)
    requires p in links
    ensures SetFlags(links, pairs + {p}, flag) == SetFlags(links, pairs, flag)[p := flag]
  {
  }

  /** One more name for `SetFlags`: the pair of that name, when it resolves, takes the flag. */
  lemma SetFlagsStep(accounts: map<string, AccountRow>, t: Id, links: Links, done: set<string>, n: string, flag: bool)
    requires n in accounts ==> (accounts[n].id, t) in links
    ensures n in accounts ==>
      SetFlags(links, AdminPairs(accounts, t, done + {n}), flag) ==
      SetFlags(links, AdminPairs(accounts, t, done), flag)[(accounts[n].id, t) := flag]
    ensures n !in accounts ==>
      SetFlags(links, AdminPairs(accounts, t, done + {n}), flag) == SetFlags(links, AdminPairs(accounts, t, done), flag)
  {
    AdminPairsAdd(accounts, t, done, n);
    if n in accounts {
      SetFlagsAdd(links, AdminPairs(accounts, t, done), (accounts[n].id, t), flag);
    } else {
      assert AdminPairs(accounts, t, done + {n}) == AdminPairs(accounts, t, done);
    }
  }

  /** One more name for the first `set_teams` loop: the row of that name's team, when it resolves, goes. */
  lemma LeaveStep(teams: map<string, TeamRow>, a: Id, links: Links, done: set<string>, n: string)
    ensures n in teams ==>
      links - TeamPairs(teams, a, done + {n}) == (links - TeamPairs(teams, a, done)) - {(a, teams[n].id)}
    ensures n !in teams ==>
      links - TeamPairs(teams, a, done + {n}) == links - TeamPairs(teams, a, done)
  {
    TeamPairsAdd(teams, a, done, n);
    if n in teams {
      RemoveRowsAdd(links, TeamPairs(teams, a, done), (a, teams[n].id));
    } else {
      assert TeamPairs(teams, a, done + {n}) == TeamPairs(teams, a, done);
    }
  }

  /** One more name for the second `set_teams` loop: the team of that name, when it resolves, gains a non-admin row if it has none. */
  lemma JoinStep(teams: map<string, TeamRow>, a: Id, links: Links, done: set<string>, n: string)
    ensures n in teams ==>
      var before := AddRows(links, TeamPairs(teams, a, done));
      AddRows(links, TeamPairs(teams, a, done + {n})) ==
        if (a, teams[n].id) in before then before else before[(a, teams[n].id) := false]
    ensures n !in teams ==>
      AddRows(links, TeamPairs(teams, a, done + {n})) == AddRows(links, TeamPairs(teams, a, done))
  {
    TeamPairsAdd(teams, a, done, n);
    if n in teams {
      AddRowsAdd(links, TeamPairs(teams, a, done), (a, teams[n].id));
    } else {
      assert TeamPairs(teams, a, done + {n}) == TeamPairs(teams, a, done);
    }
  }

  lemma RemoveRowsAdd(links: Links, pairs: set<(Id, Id)>, p: (Id, Id))
    ensures links - (pairs + {p}) == (links - pairs) - {p}
  {
  }
}
