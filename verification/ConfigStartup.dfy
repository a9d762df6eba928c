/** The configuration table at startup: rename a prefix, repair flattened settings, seed defaults. */
module ConfigStartup {
  import opened Common
  import opened ConfigSplit
  import opened ConfigTree
  import opened ConfigRepair
  import opened ConfigNames

  function NewKey(old_: string, new_: string, k: string): string
    requires Under(old_, k)
  {
    new_ + "." + k[|old_| + 1..]
  }

  /** Rows below `old_` move below `new_`, except onto rows that exist; none stays below `old_`. */
  ghost predicate Renamed(old_: string, new_: string, db: Rows, db': Rows) {
    && (forall k :: k in db' <==> (k in db && !Under(old_, k)) || IsMoved(old_, new_, db, k))
    && (forall k | k in db && !Under(old_, k) && k in db' :: db'[k] == db[k])
    && (forall k | k in db && Under(old_, k) && NewKey(old_, new_, k) !in db ::
          NewKey(old_, new_, k) in db' && db'[NewKey(old_, new_, k)] == db[k])
  }

  ghost predicate IsMoved(old_: string, new_: string, db: Rows, k: string) {
    exists o | o in db && Under(old_, o) :: NewKey(old_, new_, o) == k
  }

  function Seeded(db: Rows, defaults: Rows, persistent: bool, oauthPersistent: bool): Rows {
    db + map k | k in defaults && Enabled(k, persistent, oauthPersistent) && k !in db :: defaults[k]
  }

  predicate Enabled(k: string, persistent: bool, oauthPersistent: bool) {
    persistent && ("oauth." <= k ==> oauthPersistent)
  }

  const OLD_PREFIX := "rag.web"
  const NEW_PREFIX := "web"

  /** The key matches the LIKE pattern for keys below the prefix: an underscore in it matches any character. */
  predicate LikePrefix(prefix: string, k: string) {
    |prefix| < |k| && k[|prefix|] == '.' && forall i | 0 <= i < |prefix| :: prefix[i] == '_' || prefix[i] == k[i]
  }

  lemma UnderIsLike(prefix: string, k: string)
    requires Under(prefix, k)
    ensures LikePrefix(prefix, k)
  {
    assert forall i | 0 <= i < |prefix + "."| :: (prefix + ".")[i] == k[i];
  }

  /** One startup. */
  ghost predicate Startup(db: Rows, defaults: Rows, persistent: bool, oauthPersistent: bool, db': Rows) {
    if !persistent then db' == db
    else exists renamed, repaired ::
      && Renamed(OLD_PREFIX, NEW_PREFIX, db, renamed)
      && Repaired(DICT_CONFIGS, renamed, repaired)
      && db' == Seeded(repaired, defaults, persistent, oauthPersistent)
  }

  // ---------------------------------------------------------------------------------------
  // The table
  // ---------------------------------------------------------------------------------------

  class ConfigStore {
    var rows: Rows
    const persistent: bool
    const oauthPersistent: bool

    constructor (rows: Rows, persistent: bool, oauthPersistent: bool)
      ensures this.rows == rows && this.persistent == persistent && this.oauthPersistent == oauthPersistent
    {
      this.rows, this.persistent, this.oauthPersistent := rows, persistent, oauthPersistent;
    }

    /** The keys that match the pattern for the prefix, in some order. */
    method Select(prefix: string) returns (ks: seq<string>)
      ensures forall k :: k in ks <==> k in rows && LikePrefix(prefix, k)
      ensures NoDup(ks)
    {
      ks := [];
      var rest := rows.Keys;
      while rest != {}
        invariant rest <= rows.Keys
        invariant forall k :: k in ks <==> k in rows && k !in rest && LikePrefix(prefix, k)
        invariant NoDup(ks)
        decreases rest
      {
        var k :| k in rest;
        rest := rest - {k};
        if LikePrefix(prefix, k) {
          ks := ks + [k];
        }
      }
    }

    method RenamePrefix(old_: string, new_: string)
      requires '_' !in old_ && Diverge(old_, new_)
      modifies this`rows
      ensures if persistent then Renamed(old_, new_, old(rows), rows) else rows == old(rows)
    {
      if !persistent {
        return;
      }
      var ks := Select(old_);
      forall k | k in ks
        ensures Under(old_, k)
      {
        LikeIsUnder(old_, k);
      }
      var before := rows;
      for n := 0 to |ks|
        invariant Moving(old_, new_, before, ks[..n], rows)
      {
        assert ks[..n + 1] == ks[..n] + [ks[n]];
        assert ks[n] in ks && ks[n] !in ks[..n];
        MoveOneKeys(old_, new_, before, ks[..n], rows, ks[n]);
        MoveOneValues(old_, new_, before, ks[..n], rows, ks[n]);
        ghost var moved := AfterMove(old_, new_, before[ks[n]], rows, ks[n]);
        var newKey := NewKey(old_, new_, ks[n]);
        if newKey !in rows {
          rows := rows[newKey := before[ks[n]]];
        }
        rows := rows - {ks[n]};
        assert rows == moved;
      }
      assert ks[..|ks|] == ks;
      AllMoved(old_, new_, before, ks, rows);
    }

    /** The queries for all names of a setting, one after the other. */
    method SelectAll(prefixes: seq<string>) returns (ks: seq<string>)
      ensures forall k :: k in ks <==> k in rows && exists p | p in prefixes :: LikePrefix(p, k)
    {
      ks := [];
      for n := 0 to |prefixes|
        invariant forall k :: k in ks <==> k in rows && exists p | p in prefixes[..n] :: LikePrefix(p, k)
      {
        assert prefixes[..n + 1] == prefixes[..n] + [prefixes[n]];
        var more := Select(prefixes[n]);
        ks := ks + more;
      }
      assert prefixes[..|prefixes|] == prefixes;
    }

    /** The inner loop: each found row that belongs to the setting is written into its value. */
    method PlaceRows(e: Entry, ks: seq<string>) returns (value: Dict, taken: seq<string>)
      requires forall k | k in ks :: k in rows
      ensures value == PlacedAll(e, rows, Start(e, rows), ks)
      ensures forall k :: k in taken <==> k in ks && Taken(e, rows, k)
    {
      value := Start(e, rows);
      taken := [];
      assert ks[..0] == [];
      for n := 0 to |ks|
        invariant value == PlacedAll(e, rows, Start(e, rows), ks[..n])
        invariant forall k :: k in taken <==> k in ks[..n] && Taken(e, rows, k)
      {
        var k := ks[n];
        assert ks[..n + 1] == ks[..n] + [k];
        PlacedAllSnoc(e, rows, Start(e, rows), ks[..n], k);
        var path := PathOf(e, k);
        if path.Some? {
          PlacedAllBlocks(e, rows, Start(e, rows), ks[..n], path.value);
          if !Blocked(e, value, path.value) {
            value := AssignPath(value, path.value, rows[k]);
            taken := taken + [k];
          }
        }
      }
      assert ks[..|ks|] == ks;
    }

    /** Reassembles the settings of `table`; the moved rows go at the end. */
    method RepairFlattened(table: seq<Entry>)
      requires Separate(table) && NoDup(table)
      modifies this`rows
      ensures if persistent then Repaired(table, old(rows), rows) else rows == old(rows)
    {
      if !persistent {
        return;
      }
      var orphans: set<string> := {};
      for n := 0 to |table|
        invariant Repairing(table[..n], old(rows), rows, orphans)
      {
        var e := table[n];
        assert table[..n + 1] == table[..n] + [e];
        assert Next(table, table[..n], e);
        var ks := SelectAll(Prefixes(e));
        var value, taken := PlaceRows(e, ks);
        RepairOne(table, table[..n], e, old(rows), rows, orphans, ks, value, taken);
        if taken != [] {
          rows := rows[e.key := Obj(value)];
        }
        orphans := orphans + Elements(taken);
      }
      assert table[..|table|] == table;
      RepairDone(table, old(rows), rows, orphans);
      rows := rows - orphans;
    }

    /** The startup sequence. */
    method SeedRegisteredDefaults(defaults: Rows)
      modifies this`rows
      ensures Startup(old(rows), defaults, persistent, oauthPersistent, rows)
    {
      PrefixesDiverge();
      DictConfigsSeparate();
      DictConfigsDistinct();
      RenamePrefix(OLD_PREFIX, NEW_PREFIX);
      ghost var renamed := rows;
      RepairFlattened(DICT_CONFIGS);
      ghost var repaired := rows;
      SeedDefaults(defaults);
      NothingSeeded(repaired, defaults, persistent, oauthPersistent);
    }

    method SeedDefaults(defaults: Rows)
      modifies this`rows
      ensures rows == Seeded(old(rows), defaults, persistent, oauthPersistent)
    {
      var rest := defaults.Keys;
      while rest != {}
        invariant rest <= defaults.Keys
        invariant rows == old(rows) + map k | k in defaults && k !in rest && Enabled(k, persistent, oauthPersistent) && k !in old(rows) :: defaults[k]
        decreases rest
      {
        var k :| k in rest;
        rest := rest - {k};
        if Enabled(k, persistent, oauthPersistent) && k !in rows {
          rows := rows[k := defaults[k]];
        }
      }
    }
  }

  lemma NothingSeeded(db: Rows, defaults: Rows, persistent: bool, oauthPersistent: bool)
    ensures !persistent ==> Seeded(db, defaults, persistent, oauthPersistent) == db
  {
  }

  // ---------------------------------------------------------------------------------------
  // The repair loop
  // ---------------------------------------------------------------------------------------

  /** The value of a setting in `done` that had flattened rows was rewritten. */
  ghost predicate IsRepaired(done: seq<Entry>, db: Rows, k: string) {
    exists e | e in done :: e.key == k && HasTaken(e, db)
  }

  ghost predicate RepairedKeys(done: seq<Entry>, db: Rows, now: Rows) {
    forall k :: k in now <==> k in db || IsRepaired(done, db, k)
  }

  ghost predicate OthersKept(done: seq<Entry>, db: Rows, now: Rows) {
    forall k | k in db && k in now && !IsRepaired(done, db, k) :: now[k] == db[k]
  }

  ghost predicate ValuesRepaired(done: seq<Entry>, db: Rows, now: Rows) {
    forall e | e in done && HasTaken(e, db) :: RepairedEntry(e, db, now)
  }

  /** The repair after the settings `done`, before the moved rows are dropped. */
  ghost predicate Repairing(done: seq<Entry>, db: Rows, now: Rows, orphans: set<string>) {
    && RepairedKeys(done, db, now)
    && OthersKept(done, db, now)
    && ValuesRepaired(done, db, now)
    && forall k :: k in orphans <==> Orphan(done, db, k)
  }

  /** The settings `done` come before `e` in a table of separate names. */
  ghost predicate Next(table: seq<Entry>, done: seq<Entry>, e: Entry) {
    Separate(table) && e in table && e !in done && forall f | f in done :: f in table
  }

  lemma OtherKey(table: seq<Entry>, done: seq<Entry>, e: Entry, f: Entry)
    requires Next(table, done, e) && f in done
    ensures f.key != e.key
  {
    if f.key == e.key {
      SameKeySameEntry(table, e, f);
    }
  }

  /** Earlier settings do not touch a flattened row of `e`, nor its value. */
  lemma RowUntouched(table: seq<Entry>, done: seq<Entry>, e: Entry, db: Rows, now: Rows, k: string)
    requires Next(table, done, e) && RepairedKeys(done, db, now) && OthersKept(done, db, now)
    requires PathOf(e, k).Some? || k == e.key
    ensures k in now <==> k in db
    ensures k in db ==> now[k] == db[k]
  {
    forall f | f in done
      ensures f.key != k
    {
      if k == e.key {
        OtherKey(table, done, e, f);
      } else {
        KeyIsNoRow(table, f, e);
      }
    }
  }

  lemma SameTaken(table: seq<Entry>, done: seq<Entry>, e: Entry, db: Rows, now: Rows, k: string)
    requires Next(table, done, e) && RepairedKeys(done, db, now) && OthersKept(done, db, now)
    ensures Taken(e, now, k) <==> Taken(e, db, k)
    ensures Start(e, now) == Start(e, db)
  {
    RowUntouched(table, done, e, db, now, e.key);
    if PathOf(e, k).Some? {
      RowUntouched(table, done, e, db, now, k);
    }
  }

  /** Rows that are no flattened rows do not matter. */
  lemma {:induction false} SamePlaced(e: Entry, db: Rows, now: Rows, d: Dict, ks: seq<string>)
    requires forall k | k in ks :: k in now
    requires forall k | k in ks && PathOf(e, k).Some? :: k in db && now[k] == db[k]
    ensures PlacedAll(e, now, d, ks) == PlacedAll(e, db, d, Keep(ks, db.Keys))
    decreases |ks|
  {
    if ks != [] {
      assert forall k | k in ks[1..] :: k in ks;
      SamePlaced(e, db, now, Placed(e, now, d, ks[0]), ks[1..]);
      var kept := Keep(ks[1..], db.Keys);
      assert ([ks[0]] + kept)[1..] == kept;
    }
  }

  /** `ks` is what the queries for the names of `e` return. */
  ghost predicate Selected(e: Entry, db: Rows, ks: seq<string>) {
    forall k :: k in ks <==> k in db && exists p | p in Prefixes(e) :: LikePrefix(p, k)
  }

  lemma RowIsSelected(e: Entry, db: Rows, k: string, ks: seq<string>)
    requires Selected(e, db, ks) && k in db && PathOf(e, k).Some?
    ensures k in ks
  {
    var p :| p in Prefixes(e) && Under(p, k);
    UnderIsLike(p, k);
  }

  lemma EntryPlaced(table: seq<Entry>, done: seq<Entry>, e: Entry, db: Rows, now: Rows, ks: seq<string>)
    requires Next(table, done, e) && RepairedKeys(done, db, now) && OthersKept(done, db, now)
    requires Selected(e, now, ks)
    ensures Found(e, db, Keep(ks, db.Keys))
    ensures PlacedAll(e, now, Start(e, now), ks) == PlacedAll(e, db, Start(e, db), Keep(ks, db.Keys))
  {
    forall k | PathOf(e, k).Some?
      ensures k in now <==> k in db
      ensures k in db ==> now[k] == db[k] && k in ks
    {
      RowUntouched(table, done, e, db, now, k);
      if k in db {
        RowIsSelected(e, now, k, ks);
      }
    }
    SameTaken(table, done, e, db, now, "");
    SamePlaced(e, db, now, Start(e, now), ks);
  }

  lemma TakenMeans(table: seq<Entry>, done: seq<Entry>, e: Entry, db: Rows, now: Rows, ks: seq<string>, taken: seq<string>)
    requires Next(table, done, e) && RepairedKeys(done, db, now) && OthersKept(done, db, now)
    requires Selected(e, now, ks) && forall k :: k in taken <==> k in ks && Taken(e, now, k)
    ensures forall k :: k in taken <==> Taken(e, db, k)
    ensures taken != [] <==> HasTaken(e, db)
  {
    forall k
      ensures k in taken <==> Taken(e, db, k)
    {
      SameTaken(table, done, e, db, now, k);
      if Taken(e, now, k) {
        RowIsSelected(e, now, k, ks);
      }
    }
    if taken != [] {
      assert taken[0] in taken && Taken(e, db, taken[0]);
    }
  }

  lemma IsRepairedSnoc(done: seq<Entry>, e: Entry, db: Rows, k: string)
    ensures IsRepaired(done + [e], db, k) <==> IsRepaired(done, db, k) || (e.key == k && HasTaken(e, db))
    ensures Orphan(done + [e], db, k) <==> Orphan(done, db, k) || Taken(e, db, k)
  {
    assert forall f :: f in done + [e] <==> f in done || f == e;
  }

  lemma SameValue(e: Entry, db: Rows, now: Rows, now': Rows)
    requires RepairedEntry(e, db, now) && e.key in now' && now'[e.key] == now[e.key]
    ensures RepairedEntry(e, db, now')
  {
  }

  /** Storing the value of one more setting keeps the values of the earlier ones. */
  lemma StoreKeepsValues(table: seq<Entry>, done: seq<Entry>, e: Entry, db: Rows, now: Rows, value: Dict, ks: seq<string>)
    requires Next(table, done, e) && ValuesRepaired(done, db, now)
    requires Found(e, db, ks) && value == PlacedAll(e, db, Start(e, db), ks)
    ensures ValuesRepaired(done + [e], db, now[e.key := Obj(value)])
  {
    var now' := now[e.key := Obj(value)];
    forall f | f in done + [e] && HasTaken(f, db)
      ensures RepairedEntry(f, db, now')
    {
      if f in done {
        OtherKey(table, done, e, f);
        SameValue(f, db, now, now');
      } else {
        assert f == e && now'[e.key] == Obj(PlacedAll(e, db, Start(e, db), ks));
      }
    }
  }

  lemma StoreValue(table: seq<Entry>, done: seq<Entry>, e: Entry, db: Rows, now: Rows, value: Dict, ks: seq<string>)
    requires Next(table, done, e) && RepairedKeys(done, db, now) && OthersKept(done, db, now) && ValuesRepaired(done, db, now)
    requires HasTaken(e, db) && Found(e, db, ks) && value == PlacedAll(e, db, Start(e, db), ks)
    ensures RepairedKeys(done + [e], db, now[e.key := Obj(value)])
    ensures OthersKept(done + [e], db, now[e.key := Obj(value)])
    ensures ValuesRepaired(done + [e], db, now[e.key := Obj(value)])
  {
    StoreKeepsValues(table, done, e, db, now, value, ks);
    StoreKeepsOthers(done, e, db, now, Obj(value));
  }

  lemma StoreKeepsOthers(done: seq<Entry>, e: Entry, db: Rows, now: Rows, value: Json)
    requires RepairedKeys(done, db, now) && OthersKept(done, db, now) && HasTaken(e, db)
    ensures RepairedKeys(done + [e], db, now[e.key := value]) && OthersKept(done + [e], db, now[e.key := value])
  {
    forall k
      ensures IsRepaired(done + [e], db, k) <==> IsRepaired(done, db, k) || e.key == k
    {
      IsRepairedSnoc(done, e, db, k);
    }
  }

  lemma SkipValue(done: seq<Entry>, e: Entry, db: Rows, now: Rows)
    requires RepairedKeys(done, db, now) && OthersKept(done, db, now) && ValuesRepaired(done, db, now)
    requires !HasTaken(e, db)
    ensures RepairedKeys(done + [e], db, now) && OthersKept(done + [e], db, now) && ValuesRepaired(done + [e], db, now)
  {
    forall k
      ensures IsRepaired(done + [e], db, k) <==> IsRepaired(done, db, k)
    {
      IsRepairedSnoc(done, e, db, k);
    }
  }

  lemma RepairOne(table: seq<Entry>, done: seq<Entry>, e: Entry, db: Rows, now: Rows, orphans: set<string>,
                  ks: seq<string>, value: Dict, taken: seq<string>)
    requires Next(table, done, e) && Repairing(done, db, now, orphans)
    requires Selected(e, now, ks) && value == PlacedAll(e, now, Start(e, now), ks)
    requires forall k :: k in taken <==> k in ks && Taken(e, now, k)
    ensures Repairing(done + [e], db, if taken != [] then now[e.key := Obj(value)] else now, orphans + Elements(taken))
  {
    TakenMeans(table, done, e, db, now, ks, taken);
    forall k
      ensures k in orphans + Elements(taken) <==> Orphan(done + [e], db, k)
    {
      IsRepairedSnoc(done, e, db, k);
    }
    if taken != [] {
      EntryPlaced(table, done, e, db, now, ks);
      StoreValue(table, done, e, db, now, value, Keep(ks, db.Keys));
    } else {
      SkipValue(done, e, db, now);
    }
  }

  lemma RepairDone(table: seq<Entry>, db: Rows, now: Rows, orphans: set<string>)
    requires Separate(table) && Repairing(table, db, now, orphans)
    ensures Repaired(table, db, now - orphans)
  {
    forall e | e in table
      ensures e.key !in orphans
      ensures HasTaken(e, db) ==> RepairedEntry(e, db, now - orphans)
    {
      KeyIsNoOrphan(table, db, e);
      if HasTaken(e, db) {
        assert RepairedEntry(e, db, now);
      }
    }
    assert forall k :: IsRepaired(table, db, k) <==> exists e | e in table :: e.key == k && HasTaken(e, db);
  }

  lemma LikeIsUnder(prefix: string, k: string)
    requires '_' !in prefix
    ensures LikePrefix(prefix, k) <==> Under(prefix, k)
  {
    if Under(prefix, k) {
      UnderIsLike(prefix, k);
    }
    if LikePrefix(prefix, k) {
      assert forall i | 0 <= i < |prefix| :: prefix[i] in prefix;
      assert k[..|prefix| + 1] == prefix + ".";
    }
  }

  // ---------------------------------------------------------------------------------------
  // The rename loop
  // ---------------------------------------------------------------------------------------

  /** The keys that the rows of `done` moved to. */
  ghost predicate MovedFrom(old_: string, new_: string, done: seq<string>, x: string) {
    exists o | o in done && Under(old_, o) :: NewKey(old_, new_, o) == x
  }

  ghost predicate MovingKeys(old_: string, new_: string, db: Rows, done: seq<string>, now: Rows) {
    forall k :: k in now <==> (k in db && k !in done) || MovedFrom(old_, new_, done, k)
  }

  ghost predicate MovingKept(db: Rows, done: seq<string>, now: Rows) {
    forall k | k in db && k !in done && k in now :: now[k] == db[k]
  }

  ghost predicate MovingValues(old_: string, new_: string, db: Rows, done: seq<string>, now: Rows) {
    forall k | k in done && k in db && Under(old_, k) && NewKey(old_, new_, k) !in db ::
      NewKey(old_, new_, k) in now && now[NewKey(old_, new_, k)] == db[k]
  }

  /** The rename after the rows `done`. */
  ghost predicate Moving(old_: string, new_: string, db: Rows, done: seq<string>, now: Rows) {
    MovingKeys(old_, new_, db, done, now) && MovingKept(db, done, now) && MovingValues(old_, new_, db, done, now)
  }

  /** The prefixes differ at some position, so neither name can start with the other. */
  ghost predicate Diverge(p: string, q: string) {
    exists i :: 0 <= i < |p| && i < |q| && p[i] != q[i]
  }

  lemma NewKeyNotOld(old_: string, new_: string, k: string)
    requires Under(old_, k) && Diverge(old_, new_)
    ensures !Under(old_, NewKey(old_, new_, k))
  {
    var i :| 0 <= i < |old_| && i < |new_| && old_[i] != new_[i];
    assert (old_ + ".")[i] == old_[i] && NewKey(old_, new_, k)[i] == new_[i];
  }

  lemma NewKeyInjective(old_: string, new_: string, k: string, o: string)
    requires Under(old_, k) && Under(old_, o) && NewKey(old_, new_, k) == NewKey(old_, new_, o)
    ensures k == o
  {
    var n := |old_| + 1;
    assert NewKey(old_, new_, k)[|new_| + 1..] == k[n..] && NewKey(old_, new_, o)[|new_| + 1..] == o[n..];
    assert k == k[..n] + k[n..] && o == o[..n] + o[n..];
    assert k[..n] == old_ + "." == o[..n];
  }

  lemma MovedFromSnoc(old_: string, new_: string, done: seq<string>, k: string, x: string)
    requires Under(old_, k)
    ensures MovedFrom(old_, new_, done + [k], x) <==> MovedFrom(old_, new_, done, x) || NewKey(old_, new_, k) == x
  {
    assert forall o :: o in done + [k] <==> o in done || o == k;
  }

  lemma TargetIsNew(old_: string, new_: string, done: seq<string>, k: string)
    requires Diverge(old_, new_) && Under(old_, k) && k !in done
    ensures !MovedFrom(old_, new_, done, NewKey(old_, new_, k)) && !MovedFrom(old_, new_, done, k)
    ensures NewKey(old_, new_, k) != k
  {
    NewKeyNotOld(old_, new_, k);
    if o :| o in done && Under(old_, o) && NewKey(old_, new_, o) == NewKey(old_, new_, k) {
      NewKeyInjective(old_, new_, o, k);
    }
    if o :| o in done && Under(old_, o) && NewKey(old_, new_, o) == k {
      NewKeyNotOld(old_, new_, o);
    }
  }

  /** The table after one more row has moved. */
  function AfterMove(old_: string, new_: string, value: Json, now: Rows, k: string): Rows
    requires Under(old_, k)
  {
    var nk := NewKey(old_, new_, k);
    (if nk !in now then now[nk := value] else now) - {k}
  }

  lemma MoveOneKeys(old_: string, new_: string, db: Rows, done: seq<string>, now: Rows, k: string)
    requires Diverge(old_, new_) && MovingKeys(old_, new_, db, done, now) && MovingKept(db, done, now)
    requires k in db && Under(old_, k) && k !in done
    ensures MovingKeys(old_, new_, db, done + [k], AfterMove(old_, new_, db[k], now, k))
    ensures MovingKept(db, done + [k], AfterMove(old_, new_, db[k], now, k))
  {
    TargetIsNew(old_, new_, done, k);
    forall x
      ensures MovedFrom(old_, new_, done + [k], x) <==> MovedFrom(old_, new_, done, x) || NewKey(old_, new_, k) == x
    {
      MovedFromSnoc(old_, new_, done, k, x);
    }
  }

  lemma MoveOneValues(old_: string, new_: string, db: Rows, done: seq<string>, now: Rows, k: string)
    requires Diverge(old_, new_) && Moving(old_, new_, db, done, now)
    requires k in db && Under(old_, k) && k !in done
    ensures MovingValues(old_, new_, db, done + [k], AfterMove(old_, new_, db[k], now, k))
  {
    TargetIsNew(old_, new_, done, k);
    var now' := AfterMove(old_, new_, db[k], now, k);
    forall o | o in done + [k] && o in db && Under(old_, o) && NewKey(old_, new_, o) !in db
      ensures NewKey(old_, new_, o) in now' && now'[NewKey(old_, new_, o)] == db[o]
    {
      if o in done {
        assert MovedFrom(old_, new_, done, NewKey(old_, new_, o));
      }
    }
  }

  lemma AllMoved(old_: string, new_: string, db: Rows, ks: seq<string>, now: Rows)
    requires Moving(old_, new_, db, ks, now) && forall k :: k in ks <==> k in db && Under(old_, k)
    ensures Renamed(old_, new_, db, now)
  {
    forall k
      ensures IsMoved(old_, new_, db, k) <==> MovedFrom(old_, new_, ks, k)
    {
      if o :| o in db && Under(old_, o) && NewKey(old_, new_, o) == k {
        assert o in ks;
      }
    }
  }

  lemma PrefixesDiverge()
    ensures Diverge(OLD_PREFIX, NEW_PREFIX) && '_' !in OLD_PREFIX
  {
    assert OLD_PREFIX[0] != NEW_PREFIX[0];
  }

  // ---------------------------------------------------------------------------------------
  // What a startup promises
  // ---------------------------------------------------------------------------------------

  /** The rename leaves no row below the old prefix and never overwrites a row. */
  lemma RenameClears(db: Rows, db': Rows)
    requires Renamed(OLD_PREFIX, NEW_PREFIX, db, db')
    ensures forall k | k in db' :: !Under(OLD_PREFIX, k)
    ensures forall k | k in db && !Under(OLD_PREFIX, k) :: k in db' && db'[k] == db[k]
  {
    PrefixesDiverge();
    forall k | k in db'
      ensures !Under(OLD_PREFIX, k)
    {
      if o :| o in db && Under(OLD_PREFIX, o) && NewKey(OLD_PREFIX, NEW_PREFIX, o) == k {
        NewKeyNotOld(OLD_PREFIX, NEW_PREFIX, o);
      }
    }
  }

  lemma NothingToRename(db: Rows, db': Rows)
    requires Renamed(OLD_PREFIX, NEW_PREFIX, db, db') && forall k | k in db :: !Under(OLD_PREFIX, k)
    ensures db' == db
  {
    assert forall k :: !IsMoved(OLD_PREFIX, NEW_PREFIX, db, k);
  }

  /** No setting is stored below the old prefix. */
  lemma SettingsNotOld()
    ensures forall e | e in DICT_CONFIGS :: !Under(OLD_PREFIX, e.key)
  {
    forall i | 0 <= i < |DICT_CONFIGS|
      ensures !Under(OLD_PREFIX, DICT_CONFIGS[i].key)
    {
      Initials(i);
      var k := DICT_CONFIGS[i].key;
      if KEY_INITIALS[i] == 'r' {
        assert i == 2 || i == 3;
        assert (OLD_PREFIX + ".")[4] == 'w';
        assert DICT_CONFIGS[2].key[4] == 'm' && DICT_CONFIGS[3].key[4] == 'd';
      } else {
        assert (OLD_PREFIX + ".")[0] == 'r' && k[0] != 'r';
      }
    }
  }

  lemma RepairKeepsOldEmpty(db: Rows, db': Rows)
    requires Repaired(DICT_CONFIGS, db, db') && forall k | k in db :: !Under(OLD_PREFIX, k)
    ensures forall k | k in db' :: !Under(OLD_PREFIX, k)
  {
    SettingsNotOld();
  }

  /** The defaults name no row below the old prefix and no flattened row. */
  ghost predicate CleanDefaults(defaults: Rows) {
    forall k | k in defaults ::
      !Under(OLD_PREFIX, k) && forall e | e in DICT_CONFIGS :: FragmentOf(Prefixes(e), k) == None
  }

  lemma SeedTakesNothing(db: Rows, repaired: Rows, defaults: Rows, persistent: bool, oauthPersistent: bool, e: Entry, k: string)
    requires Repaired(DICT_CONFIGS, db, repaired) && CleanDefaults(defaults) && e in DICT_CONFIGS
    ensures !Taken(e, Seeded(repaired, defaults, persistent, oauthPersistent), k)
  {
    DictConfigsSeparate();
    NothingLeftToTake(DICT_CONFIGS, db, repaired, e, k);
    SeededTakesNoMore(repaired, defaults, persistent, oauthPersistent, e, k);
  }

  /** Seeding clean defaults makes no flattened row, and unblocks none. */
  lemma SeededTakesNoMore(repaired: Rows, defaults: Rows, persistent: bool, oauthPersistent: bool, e: Entry, k: string)
    requires CleanDefaults(defaults) && e in DICT_CONFIGS && !Taken(e, repaired, k)
    ensures !Taken(e, Seeded(repaired, defaults, persistent, oauthPersistent), k)
  {
    var seeded := Seeded(repaired, defaults, persistent, oauthPersistent);
    if k in seeded && PathOf(e, k).Some? {
      assert k in repaired;
      assert Blocked(e, Start(e, repaired), PathOf(e, k).value);
      assert e.key in repaired && seeded[e.key] == repaired[e.key];
    }
  }

  lemma OnceMore(seeded: Rows, defaults: Rows, oauthPersistent: bool, again: Rows)
    requires Startup(seeded, defaults, true, oauthPersistent, again)
    requires forall k | k in seeded :: !Under(OLD_PREFIX, k)
    requires forall e, k | e in DICT_CONFIGS :: !Taken(e, seeded, k)
    requires Seeded(seeded, defaults, true, oauthPersistent) == seeded
    ensures again == seeded
  {
    var renamed, repaired :| Renamed(OLD_PREFIX, NEW_PREFIX, seeded, renamed)
      && Repaired(DICT_CONFIGS, renamed, repaired)
      && again == Seeded(repaired, defaults, true, oauthPersistent);
    NothingToRename(seeded, renamed);
    assert forall e | e in DICT_CONFIGS :: !HasTaken(e, seeded);
    NothingTakenNothingChanged(DICT_CONFIGS, seeded, repaired);
  }

  lemma SeedTwice(db: Rows, defaults: Rows, persistent: bool, oauthPersistent: bool)
    ensures var s := Seeded(db, defaults, persistent, oauthPersistent); Seeded(s, defaults, persistent, oauthPersistent) == s
  {
  }

  /** A second startup right after the first changes nothing, in whatever order the queries answer,
      provided no default lies below the old prefix or below the name of a dictionary setting. */
  lemma StartupIsIdempotent(db: Rows, defaults: Rows, persistent: bool, oauthPersistent: bool, db1: Rows, db2: Rows)
    requires Startup(db, defaults, persistent, oauthPersistent, db1)
    requires Startup(db1, defaults, persistent, oauthPersistent, db2)
    requires CleanDefaults(defaults)
    ensures db2 == db1
  {
    if persistent {
      var renamed, repaired :| Renamed(OLD_PREFIX, NEW_PREFIX, db, renamed)
        && Repaired(DICT_CONFIGS, renamed, repaired)
        && db1 == Seeded(repaired, defaults, persistent, oauthPersistent);
      RenameClears(db, renamed);
      RepairKeepsOldEmpty(renamed, repaired);
      forall e, k | e in DICT_CONFIGS
        ensures !Taken(e, db1, k)
      {
        SeedTakesNothing(renamed, repaired, defaults, persistent, oauthPersistent, e, k);
      }
      SeedTwice(repaired, defaults, persistent, oauthPersistent);
      OnceMore(db1, defaults, oauthPersistent, db2);
    }
  }

  /** No row stays below the old prefix. */
  lemma StartupClearsOldPrefix(db: Rows, defaults: Rows, oauthPersistent: bool, db': Rows)
    requires Startup(db, defaults, true, oauthPersistent, db') && CleanDefaults(defaults)
    ensures forall k | k in db' :: !Under(OLD_PREFIX, k)
  {
    var renamed, repaired :| Renamed(OLD_PREFIX, NEW_PREFIX, db, renamed)
      && Repaired(DICT_CONFIGS, renamed, repaired)
      && db' == Seeded(repaired, defaults, true, oauthPersistent);
    RenameClears(db, renamed);
    RepairKeepsOldEmpty(renamed, repaired);
  }

  /** A row outside the old prefix and outside the dictionary settings keeps its value. */
  lemma StartupFrame(db: Rows, defaults: Rows, persistent: bool, oauthPersistent: bool, db': Rows, k: string)
    requires Startup(db, defaults, persistent, oauthPersistent, db')
    requires k in db && !Under(OLD_PREFIX, k)
    requires forall e | e in DICT_CONFIGS :: e.key != k && forall p | p in Prefixes(e) :: !Under(p, k)
    ensures k in db' && db'[k] == db[k]
  {
    if persistent {
      var renamed, repaired :| Renamed(OLD_PREFIX, NEW_PREFIX, db, renamed)
        && Repaired(DICT_CONFIGS, renamed, repaired)
        && db' == Seeded(repaired, defaults, persistent, oauthPersistent);
      RenameClears(db, renamed);
      RepairFrame(DICT_CONFIGS, renamed, repaired, k);
    }
  }
}
