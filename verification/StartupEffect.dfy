/** What a startup does to each row: where renamed rows go, which defaults are added, and what
    happens to a setting that is already stored as a dictionary. */
module StartupEffect {
  import opened Common
  import opened ConfigSplit
  import opened ConfigTree
  import opened ConfigRepair
  import opened ConfigNames
  import opened ConfigStartup

  lemma TargetKey(old_: string, new_: string, f: string)
    ensures Under(old_, old_ + "." + f) && NewKey(old_, new_, old_ + "." + f) == new_ + "." + f
  {
    var k := old_ + "." + f;
    assert k[|old_| + 1..] == f;
    assert old_ + "." <= k;
  }

  lemma UnderIs(old_: string, k: string) returns (f: string)
    requires Under(old_, k)
    ensures k == old_ + "." + f
  {
    f := k[|old_| + 1..];
  }

  lemma OutsideOld(old_: string, new_: string, f: string)
    requires Diverge(old_, new_)
    ensures !Under(old_, new_ + "." + f)
  {
    TargetKey(old_, new_, f);
    NewKeyNotOld(old_, new_, old_ + "." + f);
  }

  /** The row `old.f` becomes the row `new.f`, unless that exists: then the existing one stays. Only
      such rows are added. */
  lemma RenameMoves(old_: string, new_: string, db: Rows, db': Rows, f: string)
    requires Renamed(old_, new_, db, db') && Diverge(old_, new_)
    ensures old_ + "." + f !in db'
    ensures old_ + "." + f in db && new_ + "." + f !in db ==> new_ + "." + f in db' && db'[new_ + "." + f] == db[old_ + "." + f]
    ensures new_ + "." + f in db ==> new_ + "." + f in db' && db'[new_ + "." + f] == db[new_ + "." + f]
  {
    TargetKey(old_, new_, f);
    OutsideOld(old_, new_, f);
    if IsMoved(old_, new_, db, old_ + "." + f) {
      var o :| o in db && Under(old_, o) && NewKey(old_, new_, o) == old_ + "." + f;
      NewKeyNotOld(old_, new_, o);
    }
  }

  lemma RenameAddsOnly(old_: string, new_: string, db: Rows, db': Rows, k: string)
    requires Renamed(old_, new_, db, db') && k in db' && k !in db
    ensures exists f :: k == new_ + "." + f && old_ + "." + f in db
  {
    var o :| o in db && Under(old_, o) && NewKey(old_, new_, o) == k;
    var f := UnderIs(old_, o);
    TargetKey(old_, new_, f);
  }

  /** A default is added with its value exactly when its key is missing and the table is in charge of
      it: settings persist, and those of OAuth only when that is switched on. */
  lemma SeedFills(db: Rows, defaults: Rows, persistent: bool, oauthPersistent: bool, k: string)
    ensures var db' := Seeded(db, defaults, persistent, oauthPersistent);
            var added := k in defaults && k !in db && persistent && (!("oauth." <= k) || oauthPersistent);
            && (k in db' <==> k in db || added)
            && (k in db ==> db'[k] == db[k])
            && (added ==> db'[k] == defaults[k])
  {
  }

  // ---------------------------------------------------------------------------------------
  // A whole startup
  // ---------------------------------------------------------------------------------------

  /** The key is neither a dictionary setting nor below a name of one. */
  ghost predicate PlainKey(k: string) {
    forall e | e in DICT_CONFIGS :: e.key != k && forall p | p in Prefixes(e) :: !Under(p, k)
  }

  lemma PrefixText(f: string)
    ensures OLD_PREFIX + "." + f == "rag.web." + f && NEW_PREFIX + "." + f == "web." + f
  {
    assert OLD_PREFIX + "." == "rag.web." && NEW_PREFIX + "." == "web.";
  }

  /** The stages of a startup: after the rename and after the repair. */
  lemma Stages(db: Rows, defaults: Rows, oauthPersistent: bool, db': Rows) returns (renamed: Rows, repaired: Rows)
    requires Startup(db, defaults, true, oauthPersistent, db')
    ensures Renamed(OLD_PREFIX, NEW_PREFIX, db, renamed)
    ensures Repaired(DICT_CONFIGS, renamed, repaired)
    ensures db' == Seeded(repaired, defaults, true, oauthPersistent)
  {
    renamed, repaired :| Renamed(OLD_PREFIX, NEW_PREFIX, db, renamed)
      && Repaired(DICT_CONFIGS, renamed, repaired)
      && db' == Seeded(repaired, defaults, true, oauthPersistent);
  }

  /** The rename stage at one suffix. */
  ghost predicate MovedTo(db: Rows, renamed: Rows, f: string) {
    && ("rag.web." + f in db && "web." + f !in db ==> "web." + f in renamed && renamed["web." + f] == db["rag.web." + f])
    && ("web." + f in db ==> "web." + f in renamed && renamed["web." + f] == db["web." + f])
  }

  lemma StartupMoves(db: Rows, renamed: Rows, f: string)
    requires Renamed(OLD_PREFIX, NEW_PREFIX, db, renamed)
    ensures MovedTo(db, renamed, f)
  {
    PrefixesDiverge();
    PrefixText(f);
    RenameMoves(OLD_PREFIX, NEW_PREFIX, db, renamed, f);
  }

  lemma StartupMovesOnly(db: Rows, renamed: Rows, k: string)
    requires Renamed(OLD_PREFIX, NEW_PREFIX, db, renamed) && k in renamed && k !in db
    ensures exists f :: k == "web." + f && "rag.web." + f in db
  {
    RenameAddsOnly(OLD_PREFIX, NEW_PREFIX, db, renamed, k);
    var f :| k == NEW_PREFIX + "." + f && OLD_PREFIX + "." + f in db;
    PrefixText(f);
  }

  /** The repair stage leaves a plain key's row alone, and the seeding fills it if it is missing. */
  lemma PlainAfterRepair(renamed: Rows, repaired: Rows, defaults: Rows, oauthPersistent: bool, k: string)
    requires Repaired(DICT_CONFIGS, renamed, repaired) && PlainKey(k)
    ensures var db', added := Seeded(repaired, defaults, true, oauthPersistent),
                              k in defaults && k !in renamed && ("oauth." <= k ==> oauthPersistent);
            && (k in db' <==> k in renamed || added)
            && (k in renamed ==> db'[k] == renamed[k])
            && (added ==> db'[k] == defaults[k])
  {
    RepairFrame(DICT_CONFIGS, renamed, repaired, k);
    SeedFills(repaired, defaults, true, oauthPersistent, k);
  }

  /** A startup moves the row `rag.web.f` to `web.f`, unless that exists, and drops the old row. */
  lemma StartupRenames(db: Rows, defaults: Rows, oauthPersistent: bool, db': Rows, f: string)
    requires Startup(db, defaults, true, oauthPersistent, db') && PlainKey("web." + f)
    ensures MovedTo(db, db', f)
  {
    var renamed, repaired := Stages(db, defaults, oauthPersistent, db');
    StartupMoves(db, renamed, f);
    PlainAfterRepair(renamed, repaired, defaults, oauthPersistent, "web." + f);
  }

  /** A startup adds a row only for a moved one, a repaired setting, or a default with its value. */
  lemma StartupAddsOnly(db: Rows, defaults: Rows, oauthPersistent: bool, db': Rows, k: string)
    requires Startup(db, defaults, true, oauthPersistent, db') && k in db' && k !in db
    ensures || (exists f :: k == "web." + f && "rag.web." + f in db)
            || (exists e :: e in DICT_CONFIGS && e.key == k)
            || (k in defaults && db'[k] == defaults[k] && ("oauth." <= k ==> oauthPersistent))
  {
    var renamed, repaired := Stages(db, defaults, oauthPersistent, db');
    SeedFills(repaired, defaults, true, oauthPersistent, k);
    if k in renamed {
      StartupMovesOnly(db, renamed, k);
    }
  }

  /** A startup adds every default that the table is in charge of and that neither exists nor comes
      into being by the rename. */
  lemma StartupSeeds(db: Rows, defaults: Rows, oauthPersistent: bool, db': Rows, k: string)
    requires Startup(db, defaults, true, oauthPersistent, db') && PlainKey(k)
    requires k in defaults && k !in db && ("oauth." <= k ==> oauthPersistent)
    requires forall f :: k == "web." + f ==> "rag.web." + f !in db
    ensures k in db' && db'[k] == defaults[k]
  {
    var renamed, repaired := Stages(db, defaults, oauthPersistent, db');
    if k in renamed {
      StartupMovesOnly(db, renamed, k);
    }
    PlainAfterRepair(renamed, repaired, defaults, oauthPersistent, k);
  }

  // ---------------------------------------------------------------------------------------
  // A repair beside a stored dictionary
  // ---------------------------------------------------------------------------------------

  /** The path that a row of the setting is placed at, if it is. */
  ghost predicate PlacedAt(e: Entry, db: Rows, k: string, p: Path) {
    Taken(e, db, k) && PathOf(e, k) == Some(p)
  }

  lemma {:induction false} PlacedElsewhere(e: Entry, db: Rows, d: Dict, ks: seq<string>, q: Path)
    requires (forall k | k in ks :: k in db) && q != []
    requires forall k | k in ks && PathOf(e, k).Some? && !Blocked(e, d, PathOf(e, k).value) :: Incomparable(PathOf(e, k).value, q)
    ensures Get(PlacedAll(e, db, d, ks), q) == Get(d, q)
    decreases |ks|
  {
    if ks != [] {
      assert forall k | k in ks[1..] :: k in ks;
      var next := Placed(e, db, d, ks[0]);
      forall k | k in ks[1..] && PathOf(e, k).Some?
        ensures Blocked(e, next, PathOf(e, k).value) <==> Blocked(e, d, PathOf(e, k).value)
      {
        PlacedBlocks(e, db, d, ks[0], PathOf(e, k).value);
      }
      PlacedElsewhere(e, db, next, ks[1..], q);
      if next != d {
        GetOther(d, PathOf(e, ks[0]).value, db[ks[0]], q);
      }
    }
  }

  /** The setting's value after a repair, at a path that no placed row touches, is what it was. */
  lemma RepairKeepsStored(table: seq<Entry>, e: Entry, db: Rows, db': Rows, q: Path)
    requires Repaired(table, db, db') && e in table && HasTaken(e, db) && q != []
    requires forall k, p | PlacedAt(e, db, k, p) :: Incomparable(p, q)
    ensures e.key in db' && db'[e.key].Obj?
    ensures Get(db'[e.key].fields, q) == if e.key in db && db[e.key].Obj? then Get(db[e.key].fields, q) else None
  {
    assert RepairedEntry(e, db, db');
    var ks :| Found(e, db, ks) && db'[e.key] == Obj(PlacedAll(e, db, Start(e, db), ks));
    forall k | k in ks && PathOf(e, k).Some? && !Blocked(e, Start(e, db), PathOf(e, k).value)
      ensures Incomparable(PathOf(e, k).value, q)
    {
      assert PlacedAt(e, db, k, PathOf(e, k).value);
    }
    PlacedElsewhere(e, db, Start(e, db), ks, q);
  }

  /** A row whose path no other placed row touches is readable at its path. */
  lemma {:induction false} PlacedThere(e: Entry, db: Rows, d: Dict, ks: seq<string>, k: string)
    requires (forall x | x in ks :: x in db) && k in ks
    requires PathOf(e, k).Some? && !Blocked(e, d, PathOf(e, k).value)
    requires forall x | x in ks && x != k && PathOf(e, x).Some? && !Blocked(e, d, PathOf(e, x).value) ::
               Incomparable(PathOf(e, x).value, PathOf(e, k).value)
    ensures Get(PlacedAll(e, db, d, ks), PathOf(e, k).value) == Some(db[k])
    decreases |ks|
  {
    var n, p := |ks| - 1, PathOf(e, k).value;
    var before, last := ks[..n], ks[n];
    assert ks == before + [last];
    PlacedAllSnoc(e, db, d, before, last);
    var d' := PlacedAll(e, db, d, before);
    if PathOf(e, last).Some? {
      PlacedAllBlocks(e, db, d, before, PathOf(e, last).value);
    }
    if last == k {
      GetAssigned(d', p, db[k]);
    } else {
      PlacedThere(e, db, d, before, k);
      if PathOf(e, last).Some? && !Blocked(e, d, PathOf(e, last).value) {
        GetOther(d', PathOf(e, last).value, db[last], p);
      }
    }
  }

  lemma RepairPlaces(table: seq<Entry>, e: Entry, db: Rows, db': Rows, k: string, p: Path)
    requires Repaired(table, db, db') && e in table && PlacedAt(e, db, k, p)
    requires forall x, q | x != k && PlacedAt(e, db, x, q) :: Incomparable(q, p)
    ensures e.key in db' && db'[e.key].Obj? && Get(db'[e.key].fields, p) == Some(db[k])
  {
    assert HasTaken(e, db);
    assert RepairedEntry(e, db, db');
    var ks :| Found(e, db, ks) && db'[e.key] == Obj(PlacedAll(e, db, Start(e, db), ks));
    forall x | x in ks && x != k && PathOf(e, x).Some? && !Blocked(e, Start(e, db), PathOf(e, x).value)
      ensures Incomparable(PathOf(e, x).value, p)
    {
      assert PlacedAt(e, db, x, PathOf(e, x).value);
    }
    PlacedThere(e, db, Start(e, db), ks, k);
  }

  /** A row is placed exactly when its fragment spells a path and, for a setting keyed by connection,
      nothing but a dictionary is stored under that connection. */
  lemma PlacedExactly(e: Entry, db: Rows, k: string, p: Path)
    ensures PlacedAt(e, db, k, p) <==>
              && k in db && PathOf(e, k) == Some(p)
              && (e.api && e.key in db && db[e.key].Obj? && p[0] in db[e.key].fields ==> db[e.key].fields[p[0]].Obj?)
  {
  }

  lemma OneSetting(table: seq<Entry>, e: Entry, f: Entry, k: string)
    requires Separate(table) && e in table && f in table && PathOf(e, k).Some? && PathOf(f, k).Some?
    ensures e == f
  {
    var p :| p in Prefixes(e) && Under(p, k);
    var q :| q in Prefixes(f) && Under(q, k);
    if |p| <= |q| {
      assert p + "." <= q + ".";
      assert Under(p, q + ".");
    } else {
      assert q + "." <= p + ".";
      assert Under(q, p + ".");
    }
  }

  /** A row that belongs to a setting goes exactly when it is placed; otherwise it stays as it is. */
  lemma RowGoesExactly(table: seq<Entry>, e: Entry, db: Rows, db': Rows, k: string)
    requires Separate(table) && Repaired(table, db, db') && e in table && k in db && PathOf(e, k).Some?
    ensures k !in db' <==> exists p :: PlacedAt(e, db, k, p)
    ensures k in db' ==> db'[k] == db[k]
  {
    forall f | f in table
      ensures f.key != k && (Taken(f, db, k) <==> f == e && PlacedAt(e, db, k, PathOf(e, k).value))
    {
      KeyIsNoRow(table, f, e);
      if Taken(f, db, k) {
        OneSetting(table, e, f, k);
      }
    }
  }
}
