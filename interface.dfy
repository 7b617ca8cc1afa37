/**
 * `interface.py`: the functions other web applications call. Only
 * `update_account_properties` changes the store; it works on a connection of
 * its own, opened on the committed tables.
 */
module Interface {
  import opened Wrappers
  import opened Text
  import opened Store
  import opened Directory

  /**
   * `properties.setdefault(app, dict()).update(upd)`: the application's
   * entry, created empty when missing, gets the given keys, later values
   * winning. An entry that is not a JSON object has no `update`
   * (AttributeError).
   */
  function MergeProperties(p: Properties, app: string, upd: map<string, Json>): (r: Result<Properties, Error>)
    ensures r.Err? <==> app in p && !p[app].JObject?
    ensures r.Err? ==> r.error == NotAMapping
    ensures r.Ok? ==> r.value.Keys == p.Keys + {app} && r.value[app].JObject?
    ensures r.Ok? ==> forall a :: a in p && a != app ==> r.value[a] == p[a]
    ensures r.Ok? ==> forall k :: k in upd ==> k in r.value[app].fields && r.value[app].fields[k] == upd[k]
    ensures r.Ok? && app in p ==> forall k :: k in p[app].fields && k !in upd ==>
      k in r.value[app].fields && r.value[app].fields[k] == p[app].fields[k]
    ensures r.Ok? ==> r.value[app].fields.Keys == upd.Keys + (if app in p then p[app].fields.Keys else {})
  {
    var entry := if app in p then p[app] else JObject(map[]);
    match entry
    case JObject(fields) => Ok(p[app := JObject(fields + upd)])
    case _ => Err(NotAMapping)
  }

  /** A repeated update with the same keys changes nothing more. */
  lemma MergeIdempotent(p: Properties, app: string, upd: map<string, Json>)
    requires MergeProperties(p, app, upd).Ok?
    ensures var once := MergeProperties(p, app, upd).value;
      MergeProperties(once, app, upd) == Ok(once)
  {
    var once := MergeProperties(p, app, upd).value;
    var fields := once[app].fields;
    assert fields + upd == fields;
    assert once[app := JObject(fields)] == once;
  }

  /** Two updates of the same application amount to one with their keys combined, the later winning. */
  lemma MergeTwice(p: Properties, app: string, first: map<string, Json>, second: map<string, Json>)
    requires MergeProperties(p, app, first).Ok?
    ensures MergeProperties(MergeProperties(p, app, first).value, app, second) == MergeProperties(p, app, first + second)
  {
    var entry := if app in p then p[app].fields else map[];
    var once := p[app := JObject(entry + first)];
    assert MergeProperties(p, app, first) == Ok(once);
    assert entry + first + second == entry + (first + second);
    assert once[app := JObject(entry + first + second)] == p[app := JObject(entry + (first + second))];
  }

  /**
   * `update_account_properties(name, app, upd)`: `get_db()` opens a new
   * connection, `get_account` resolves the name (KeyError when unknown; a
   * blank account for the empty name, whose `save` fails its assertion), the
   * properties are merged, and `save` writes the row back. Nothing but the
   * account's properties changes.
   */
  method UpdateAccountProperties(digest: string -> string, t: Tables, lastAccountId: nat, lastTeamId: nat,
                                 name: string, app: string, upd: map<string, Json>)
    returns (db: Database, r: Outcome<Error>)
    requires WellFormed(t, lastAccountId, lastTeamId)
    ensures fresh(db) && db.Valid() && db.digest == digest
    ensures db.teams == t.teams && db.links == t.links
    ensures name !in t.accounts ==> r.Fail? && db.accounts == t.accounts
    ensures name !in t.accounts && name != "" ==> r == Fail(NoSuchName)
    ensures name == "" ==> r == Fail(AssertionFailed)
    ensures name in t.accounts ==>
      match MergeProperties(t.accounts[name].properties, app, upd)
      case Err(e) => r == Fail(e) && db.accounts == t.accounts
      case Ok(p) =>
        && (!OneWord(name) ==> r == Fail(AssertionFailed) && db.accounts == t.accounts)
        && (OneWord(name) ==> r == Pass && db.accounts == t.accounts[name := t.accounts[name].(properties := p)])
  {
    db := new Database.Open(digest, t, lastAccountId, lastTeamId);
    var found := db.GetAccount(name, "");
    if found.Err? {
      return db, Fail(found.error);
    }
    r := MergeAndSave(db, found.value, app, upd);
  }

  /** The part of `update_account_properties` after the lookup: merge, then `save`. */
  method MergeAndSave(db: Database, account: Account, app: string, upd: map<string, Json>) returns (r: Outcome<Error>)
    requires db.Valid() && account.db == db
    requires account.name in db.accounts ==> account.Row() == db.accounts[account.name]
    requires account.name !in db.accounts ==> account.name == "" && account.Row() == AccountRow(0, None, None, None, map[])
    modifies account, db`accounts, db`lastAccountId
    ensures db.Valid()
    ensures account.name == "" ==> r == Fail(AssertionFailed) && db.accounts == old(db.accounts)
    ensures account.name != "" ==>
      match MergeProperties(old(db.accounts[account.name].properties), app, upd)
      case Err(e) => r == Fail(e) && db.accounts == old(db.accounts)
      case Ok(p) =>
        && (!OneWord(account.name) ==> r == Fail(AssertionFailed) && db.accounts == old(db.accounts))
        && (OneWord(account.name) ==>
              r == Pass && db.accounts == old(db.accounts)[account.name := old(db.accounts[account.name]).(properties := p)])
  {
    var merged := MergeProperties(account.properties, app, upd);
    if merged.Err? {
      return Fail(merged.error);
    }
    account.properties := merged.value;
    r := account.Save();
  }
}
