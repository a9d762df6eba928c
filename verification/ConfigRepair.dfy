/** Reassembling dictionary settings that were flattened into one row per leaf. */
module ConfigRepair {
  import opened Common
  import opened ConfigSplit
  import opened ConfigTree

  /** The config table: one value per key. */
  type Rows = map<string, Json>

  /** A dictionary setting, its former names, and whether it is keyed by connection. */
  datatype Entry = Entry(key: string, aliases: seq<string>, api: bool)

  function Prefixes(e: Entry): seq<string> {
    [e.key] + e.aliases
  }

  predicate Under(prefix: string, k: string) {
    prefix + "." <= k
  }

  /** The rest of the key behind the first of the prefixes it starts with. */
  function FragmentOf(prefixes: seq<string>, k: string): (r: Option<string>)
    ensures r.Some? <==> exists p | p in prefixes :: Under(p, k)
    ensures r.Some? ==> exists p | p in prefixes :: Under(p, k) && k == p + "." + r.value
  {
    if prefixes == [] then None
    else if Under(prefixes[0], k) then
      assert k == prefixes[0] + "." + k[|prefixes[0]| + 1..];
      Some(k[|prefixes[0]| + 1..])
    else
      assert forall p :: p in prefixes <==> p == prefixes[0] || p in prefixes[1..];
      FragmentOf(prefixes[1..], k)
  }

  /** The path that a fragment spells, if one can be told. */
  function PathIn(api: bool, fragment: string): (p: Option<Path>)
    ensures p.Some? ==> p.value != [] && (api ==> |p.value| > 1)
  {
    if api then
      match SplitFragment(API_CONFIG_FIELDS, fragment)
      case None => None
      case Some((key, path)) => Some([key] + path)
    else Some(SplitDots(fragment))
  }

  /** Where a flattened row belongs inside its setting, if it can be told. */
  function PathOf(e: Entry, k: string): (p: Option<Path>)
    ensures p.Some? ==> p.value != [] && (e.api ==> |p.value| > 1) && exists q | q in Prefixes(e) :: Under(q, k)
  {
    match FragmentOf(Prefixes(e), k)
    case None => None
    case Some(fragment) => PathIn(e.api, fragment)
  }

  /** A connection that is already stored as something other than a dictionary is left alone. */
  predicate Blocked(e: Entry, d: Dict, path: Path)
    requires path != []
  {
    e.api && path[0] in d && !d[path[0]].Obj?
  }

  /** One row of the inner loop. */
  function Placed(e: Entry, db: Rows, d: Dict, k: string): Dict
    requires k in db
  {
    var path := PathOf(e, k);
    if path.Some? && !Blocked(e, d, path.value) then Assign(d, path.value, db[k]) else d
  }

  function PlacedAll(e: Entry, db: Rows, d: Dict, ks: seq<string>): Dict
    requires forall k | k in ks :: k in db
    decreases |ks|
  {
    if ks == [] then d
    else
      assert forall k | k in ks[1..] :: k in ks;
      PlacedAll(e, db, Placed(e, db, d, ks[0]), ks[1..])
  }

  /** The setting's value before the repair. */
  function Start(e: Entry, db: Rows): Dict {
    if e.key in db && db[e.key].Obj? then db[e.key].fields else map[]
  }

  /** The row is moved into its setting. */
  predicate Taken(e: Entry, db: Rows, k: string) {
    k in db && PathOf(e, k).Some? && !Blocked(e, Start(e, db), PathOf(e, k).value)
  }

  ghost predicate HasTaken(e: Entry, db: Rows) {
    exists k :: Taken(e, db, k)
  }

  /** `ks` lists rows, in some order, among them every flattened row of the setting. */
  ghost predicate Found(e: Entry, db: Rows, ks: seq<string>) {
    (forall k | k in ks :: k in db) && forall k | k in db && PathOf(e, k).Some? :: k in ks
  }

  /** The repair of all settings of `table`, for some order of the found rows. */
  ghost predicate Repaired(table: seq<Entry>, db: Rows, db': Rows) {
    && (forall k :: k in db' <==>
          (k in db && !Orphan(table, db, k)) || exists e | e in table :: e.key == k && HasTaken(e, db))
    && (forall e | e in table && HasTaken(e, db) :: RepairedEntry(e, db, db'))
    && (forall k | k in db && k in db' && !(exists e | e in table :: e.key == k && HasTaken(e, db)) :: db'[k] == db[k])
  }

  ghost predicate Orphan(table: seq<Entry>, db: Rows, k: string) {
    exists e | e in table :: Taken(e, db, k)
  }

  ghost predicate RepairedEntry(e: Entry, db: Rows, db': Rows) {
    e.key in db' && exists ks :: Found(e, db, ks) && db'[e.key] == Obj(PlacedAll(e, db, Start(e, db), ks))
  }

  /** No key can lie under the names of two settings, nor under two names of one. */
  ghost predicate Separate(table: seq<Entry>) {
    forall e, f, p, q | e in table && f in table && p in Prefixes(e) && q in Prefixes(f) && Under(p, q + ".") ::
      e == f && p == q
  }

  // ---------------------------------------------------------------------------------------
  // Repairing twice
  // ---------------------------------------------------------------------------------------

  lemma PlacedBlocks(e: Entry, db: Rows, d: Dict, k: string, path: Path)
    requires k in db && path != []
    ensures Blocked(e, Placed(e, db, d, k), path) <==> Blocked(e, d, path)
  {
    var p := PathOf(e, k);
    if e.api && p.Some? && !Blocked(e, d, p.value) {
      assert Assign(d, p.value, db[k])[p.value[0]].Obj?;
    }
  }

  /** Placing rows neither blocks nor unblocks a connection. */
  lemma {:induction false} PlacedAllBlocks(e: Entry, db: Rows, d: Dict, ks: seq<string>, path: Path)
    requires (forall k | k in ks :: k in db) && path != []
    ensures Blocked(e, PlacedAll(e, db, d, ks), path) <==> Blocked(e, d, path)
    decreases |ks|
  {
    if ks != [] {
      assert forall k | k in ks[1..] :: k in ks;
      PlacedBlocks(e, db, d, ks[0], path);
      PlacedAllBlocks(e, db, Placed(e, db, d, ks[0]), ks[1..], path);
    }
  }

  /** A setting's own key is no flattened row of any setting. */
  lemma KeyIsNoRow(table: seq<Entry>, e: Entry, f: Entry)
    requires Separate(table) && e in table && f in table
    ensures PathOf(f, e.key) == None
  {
    if PathOf(f, e.key).Some? {
      var p :| p in Prefixes(f) && Under(p, e.key);
      assert e.key in Prefixes(e);
      assert Under(p, e.key + ".");
      assert false;
    }
  }

  lemma KeyIsNoOrphan(table: seq<Entry>, db: Rows, e: Entry)
    requires Separate(table) && e in table
    ensures !Orphan(table, db, e.key)
  {
    forall f | f in table
      ensures !Taken(f, db, e.key)
    {
      KeyIsNoRow(table, e, f);
    }
  }

  lemma StartAfterRepair(table: seq<Entry>, db: Rows, db1: Rows, e: Entry, path: Path)
    requires Separate(table) && Repaired(table, db, db1) && e in table && path != []
    requires forall f | f in table && f.key == e.key :: f == e
    ensures Blocked(e, Start(e, db1), path) <==> Blocked(e, Start(e, db), path)
  {
    KeyIsNoOrphan(table, db, e);
    if HasTaken(e, db) {
      assert RepairedEntry(e, db, db1);
      var ks :| Found(e, db, ks) && db1[e.key] == Obj(PlacedAll(e, db, Start(e, db), ks));
      PlacedAllBlocks(e, db, Start(e, db), ks, path);
    } else {
      assert e.key in db1 <==> e.key in db;
    }
  }

  lemma SameKeySameEntry(table: seq<Entry>, e: Entry, f: Entry)
    requires Separate(table) && e in table && f in table && e.key == f.key
    ensures e == f
  {
    assert e.key in Prefixes(e) && f.key in Prefixes(f) && Under(e.key, f.key + ".");
  }

  lemma NothingLeftToTake(table: seq<Entry>, db: Rows, db1: Rows, e: Entry, k: string)
    requires Separate(table) && Repaired(table, db, db1) && e in table
    ensures !Taken(e, db1, k)
  {
    if k in db1 && PathOf(e, k).Some? {
      forall f | f in table && f.key == e.key
        ensures f == e
      {
        SameKeySameEntry(table, e, f);
      }
      forall f | f in table
        ensures f.key != k
      {
        KeyIsNoRow(table, f, e);
      }
      assert k in db && !Orphan(table, db, k);
      assert !Taken(e, db, k);
      StartAfterRepair(table, db, db1, e, PathOf(e, k).value);
    }
  }

  lemma NothingTakenNothingChanged(table: seq<Entry>, db: Rows, db': Rows)
    requires Repaired(table, db, db')
    requires forall e | e in table :: !HasTaken(e, db)
    ensures db' == db
  {
    forall k
      ensures !Orphan(table, db, k)
    {
      if e :| e in table && Taken(e, db, k) {
        assert HasTaken(e, db);
      }
    }
    assert forall k :: k in db' <==> k in db;
  }

  /** A second repair changes nothing, whatever order its queries return the rows in. */
  lemma RepairIsIdempotent(table: seq<Entry>, db: Rows, db1: Rows, db2: Rows)
    requires Separate(table) && Repaired(table, db, db1) && Repaired(table, db1, db2)
    ensures db2 == db1
  {
    forall e | e in table
      ensures !HasTaken(e, db1)
    {
      forall k
        ensures !Taken(e, db1, k)
      {
        NothingLeftToTake(table, db, db1, e, k);
      }
    }
    NothingTakenNothingChanged(table, db1, db2);
  }

  /** The repair touches only settings and their flattened rows. */
  lemma RepairFrame(table: seq<Entry>, db: Rows, db': Rows, k: string)
    requires Repaired(table, db, db')
    requires forall e | e in table :: e.key != k && forall p | p in Prefixes(e) :: !Under(p, k)
    ensures k in db' <==> k in db
    ensures k in db ==> db'[k] == db[k]
  {
    forall e | e in table
      ensures !Taken(e, db, k)
    {
    }
  }

  // ---------------------------------------------------------------------------------------
  // Round trip: flatten, then repair
  // ---------------------------------------------------------------------------------------

  function RowKey(prefix: string, path: Path): string
    requires path != []
  {
    prefix + "." + Join(path)
  }

  /** The row under `k` was made from the leaf at `path`, below the setting's name or a former one. */
  ghost predicate MadeFrom(e: Entry, path: Path, k: string) {
    path != [] && exists p | p in Prefixes(e) :: k == RowKey(p, path)
  }

  /** The dictionary `d` was flattened: the rows below the names of `e` hold the leaves of `d`, each
      leaf under one or more of the names, and no dictionary is stored for the setting itself. */
  ghost predicate Flattened(e: Entry, d: Dict, db: Rows) {
    && (e.key in db ==> db[e.key].Atom?)
    && (forall k, p | k in db && p in Prefixes(e) && Under(p, k) ::
          exists path :: LeafAt(d, path, db[k]) && k == RowKey(p, path))
    && (forall path, a | LeafAt(d, path, a) :: exists k :: k in db && MadeFrom(e, path, k))
  }

  lemma {:induction false} FirstFragment(prefixes: seq<string>, p: string, k: string)
    requires p in prefixes && Under(p, k) && forall q | q in prefixes && Under(q, k) :: q == p
    ensures FragmentOf(prefixes, k) == Some(k[|p| + 1..])
  {
    if !Under(prefixes[0], k) {
      FirstFragment(prefixes[1..], p, k);
    }
  }

  /** A key can lie under one name of a setting only. */
  lemma OnePrefix(table: seq<Entry>, e: Entry, p: string, q: string, k: string)
    requires Separate(table) && e in table && p in Prefixes(e) && q in Prefixes(e) && Under(p, k) && Under(q, k)
    ensures p == q
  {
    if |p| <= |q| {
      assert p + "." <= q + ".";
      assert Under(p, q + ".");
    } else {
      assert q + "." <= p + ".";
      assert Under(q, p + ".");
    }
  }

  /** The fragment of a row made from a leaf is the joined path. */
  lemma RowKeyFragment(table: seq<Entry>, e: Entry, p: string, path: Path)
    requires Separate(table) && e in table && p in Prefixes(e) && path != []
    ensures Under(p, RowKey(p, path)) && PathOf(e, RowKey(p, path)) == PathIn(e.api, Join(path))
  {
    var k := RowKey(p, path);
    AroundDot(p, Join(path));
    assert p + "." <= k;
    forall q | q in Prefixes(e) && Under(q, k)
      ensures q == p
    {
      OnePrefix(table, e, p, q, k);
    }
    FirstFragment(Prefixes(e), p, k);
  }

  /** The joined path spells the path again. */
  predicate ReadsBack(api: bool, path: Path) {
    path != [] && PathIn(api, Join(path)) == Some(path)
  }

  /** The paths that survive flattening: for a setting keyed by connection, the unambiguous ones; for
      any other, those without dots in their keys. */
  predicate Recoverable(api: bool, path: Path) {
    if api then |path| > 1 && Unambiguous(API_CONFIG_FIELDS, path[0], path[1..])
    else path != [] && forall t | t in path :: DotFree(t)
  }

  /** A joined path spells the path again if and only if it is recoverable. */
  lemma ReadsBackExactly(api: bool, path: Path)
    ensures ReadsBack(api, path) <==> Recoverable(api, path)
  {
    if path == [] {
    } else if !api {
      if Recoverable(api, path) {
        SplitJoin(path);
      }
    } else if |path| > 1 {
      ApiFieldsPlain();
      assert path == [path[0]] + path[1..];
      SplitUndoesJoin(API_CONFIG_FIELDS, path[0], path[1..]);
      SplitPaths(Join(path), path);
    }
  }

  lemma SplitPaths(fragment: string, path: Path)
    requires |path| > 1
    ensures PathIn(true, fragment) == Some(path) <==> SplitFragment(API_CONFIG_FIELDS, fragment) == Some((path[0], path[1..]))
  {
    match SplitFragment(API_CONFIG_FIELDS, fragment)
    case None =>
    case Some((key, rest)) =>
      assert ([key] + rest)[0] == key && ([key] + rest)[1..] == rest;
      assert path == [path[0]] + path[1..];
  }

  /** A path that a fragment spells joins to the fragment, so it reads back. */
  lemma SpelledReadsBack(api: bool, fragment: string)
    ensures PathIn(api, fragment).Some? ==>
              Join(PathIn(api, fragment).value) == fragment && ReadsBack(api, PathIn(api, fragment).value)
  {
    if api {
      SplitJoinsBack(API_CONFIG_FIELDS, fragment);
    }
  }

  /** The rows that have a path, as the writes they lead to. */
  function Writes(e: Entry, db: Rows, ks: seq<string>): (w: seq<(Path, Json)>)
    requires forall k | k in ks :: k in db
    ensures forall r | r in w :: r.0 != []
  {
    if ks == [] then []
    else
      var n := |ks| - 1;
      assert forall k | k in ks[..n] :: k in ks;
      var before := Writes(e, db, ks[..n]);
      if PathOf(e, ks[n]).Some? then before + [(PathOf(e, ks[n]).value, db[ks[n]])] else before
  }

  lemma {:induction false} PlacedAllSnoc(e: Entry, db: Rows, d: Dict, ks: seq<string>, k: string)
    requires (forall x | x in ks :: x in db) && k in db
    ensures PlacedAll(e, db, d, ks + [k]) == Placed(e, db, PlacedAll(e, db, d, ks), k)
    decreases |ks|
  {
    if ks == [] {
      assert [k][1..] == [];
    } else {
      assert (ks + [k])[1..] == ks[1..] + [k] && (ks + [k])[0] == ks[0];
      assert forall x | x in ks[1..] :: x in ks;
      PlacedAllSnoc(e, db, Placed(e, db, d, ks[0]), ks[1..], k);
    }
  }

  /** From an empty setting nothing is blocked, so placing the rows is rebuilding from them. */
  lemma {:induction false} PlacedIsRebuilt(e: Entry, db: Rows, ks: seq<string>)
    requires forall k | k in ks :: k in db
    ensures PlacedAll(e, db, map[], ks) == Rebuilt(map[], Writes(e, db, ks))
    decreases |ks|
  {
    if ks != [] {
      var n := |ks| - 1;
      var before, k := ks[..n], ks[n];
      assert ks == before + [k];
      PlacedIsRebuilt(e, db, before);
      PlacedAllSnoc(e, db, map[], before, k);
      if PathOf(e, k).Some? {
        PlacedAllBlocks(e, db, map[], before, PathOf(e, k).value);
        var w := Writes(e, db, before);
        assert (w + [(PathOf(e, k).value, db[k])])[..|w|] == w;
      }
    }
  }

  lemma {:induction false} WritesMember(e: Entry, db: Rows, ks: seq<string>, path: Path, a: Json)
    requires forall k | k in ks :: k in db
    ensures (path, a) in Writes(e, db, ks) <==> exists k | k in ks :: PathOf(e, k) == Some(path) && db[k] == a
    decreases |ks|
  {
    if ks != [] {
      var n := |ks| - 1;
      assert ks == ks[..n] + [ks[n]];
      WritesMember(e, db, ks[..n], path, a);
    }
  }

  /** Repairing a flattened setting, whatever order its rows come in, restores the dictionary
      without the empty dictionaries inside it, provided its paths read back. */
  lemma RepairRestores(table: seq<Entry>, e: Entry, d: Dict, db: Rows, db': Rows)
    requires Separate(table) && Repaired(table, db, db') && e in table && Flattened(e, d, db)
    requires forall path, a | LeafAt(d, path, a) :: ReadsBack(e.api, path)
    requires exists path, a :: LeafAt(d, path, a)
    ensures e.key in db' && db'[e.key] == Prune(Obj(d))
  {
    LeafIsTaken(table, e, d, db);
    assert RepairedEntry(e, db, db');
    var ks :| Found(e, db, ks) && db'[e.key] == Obj(PlacedAll(e, db, Start(e, db), ks));
    FoundRebuild(table, e, d, db, ks);
  }

  lemma LeafIsTaken(table: seq<Entry>, e: Entry, d: Dict, db: Rows)
    requires Separate(table) && e in table && Flattened(e, d, db)
    requires forall path, a | LeafAt(d, path, a) :: ReadsBack(e.api, path)
    requires exists path, a :: LeafAt(d, path, a)
    ensures HasTaken(e, db)
  {
    var path, a :| LeafAt(d, path, a);
    var k :| k in db && MadeFrom(e, path, k);
    LeafRowSpells(table, e, path, k);
    RowIsTaken(e, db, k, path);
  }

  lemma RowIsTaken(e: Entry, db: Rows, k: string, path: Path)
    requires (e.key in db ==> db[e.key].Atom?) && k in db && PathOf(e, k) == Some(path)
    ensures HasTaken(e, db)
  {
    assert Start(e, db) == map[];
    assert Taken(e, db, k);
  }

  /** Placing all flattened rows, in any order, rebuilds the dictionary. */
  lemma FoundRebuild(table: seq<Entry>, e: Entry, d: Dict, db: Rows, ks: seq<string>)
    requires Separate(table) && e in table && Flattened(e, d, db) && Found(e, db, ks)
    requires forall path, a | LeafAt(d, path, a) :: ReadsBack(e.api, path)
    ensures Obj(PlacedAll(e, db, map[], ks)) == Prune(Obj(d))
  {
    PlacedIsRebuilt(e, db, ks);
    forall p, x
      ensures LeafAt(d, p, x) <==> (p, x) in Writes(e, db, ks)
    {
      WrittenLeaves(table, e, d, db, ks, p, x);
    }
    RebuildFromLeaves(d, Writes(e, db, ks));
  }

  lemma LeafRowSpells(table: seq<Entry>, e: Entry, path: Path, k: string)
    requires Separate(table) && e in table && MadeFrom(e, path, k)
    ensures PathOf(e, k) == PathIn(e.api, Join(path))
  {
    var p :| p in Prefixes(e) && k == RowKey(p, path);
    RowKeyFragment(table, e, p, path);
  }

  /** Each row below a name of the setting holds the leaf whose joined path its fragment is. */
  lemma RowIsLeaf(table: seq<Entry>, e: Entry, d: Dict, db: Rows, k: string) returns (path: Path)
    requires Separate(table) && e in table && Flattened(e, d, db) && k in db && PathOf(e, k).Some?
    ensures LeafAt(d, path, db[k]) && PathOf(e, k) == PathIn(e.api, Join(path))
  {
    var p :| p in Prefixes(e) && Under(p, k);
    path :| LeafAt(d, path, db[k]) && k == RowKey(p, path);
    RowKeyFragment(table, e, p, path);
  }

  lemma WrittenLeaves(table: seq<Entry>, e: Entry, d: Dict, db: Rows, ks: seq<string>, path: Path, x: Json)
    requires Separate(table) && e in table && Flattened(e, d, db) && Found(e, db, ks)
    requires forall path, a | LeafAt(d, path, a) :: ReadsBack(e.api, path)
    ensures LeafAt(d, path, x) <==> (path, x) in Writes(e, db, ks)
  {
    WritesMember(e, db, ks, path, x);
    if LeafAt(d, path, x) {
      var k :| k in db && MadeFrom(e, path, k);
      LeafRowSpells(table, e, path, k);
      var leaf := RowIsLeaf(table, e, d, db, k);
      assert leaf == path;
      assert k in ks && PathOf(e, k) == Some(path) && db[k] == x;
    }
    if (path, x) in Writes(e, db, ks) {
      var k :| k in ks && PathOf(e, k) == Some(path) && db[k] == x;
      var leaf := RowIsLeaf(table, e, d, db, k);
    }
  }

  // ---------------------------------------------------------------------------------------
  // Exactly when the round trip succeeds
  // ---------------------------------------------------------------------------------------

  lemma AssignedLeaf(d: Dict, p: Path, v: Json, q: Path, a: Json)
    requires p != [] && v.Atom? && LeafAt(Assign(d, p, v), q, a)
    ensures q == p || LeafAt(d, q, a)
  {
    if q != p {
      if Incomparable(p, q) {
        GetOther(d, p, v, q);
      } else {
        ComparableIsNoLeaf(d, p, v, q, a);
      }
    }
  }

  lemma PathReadsBack(e: Entry, k: string)
    ensures PathOf(e, k).Some? ==> ReadsBack(e.api, PathOf(e, k).value)
  {
    if FragmentOf(Prefixes(e), k).Some? {
      SpelledReadsBack(e.api, FragmentOf(Prefixes(e), k).value);
    }
  }

  /** Placing rows produces only leaves whose paths read back. */
  lemma {:induction false} PlacedLeavesReadBack(e: Entry, db: Rows, d: Dict, ks: seq<string>, q: Path, a: Json)
    requires forall k | k in ks :: k in db && (PathOf(e, k).Some? ==> db[k].Atom?)
    requires LeafAt(PlacedAll(e, db, d, ks), q, a)
    ensures ReadsBack(e.api, q) || LeafAt(d, q, a)
    decreases |ks|
  {
    if ks != [] {
      assert forall k | k in ks[1..] :: k in ks;
      PlacedLeavesReadBack(e, db, Placed(e, db, d, ks[0]), ks[1..], q, a);
      if Placed(e, db, d, ks[0]) != d && LeafAt(Placed(e, db, d, ks[0]), q, a) {
        AssignedLeaf(d, PathOf(e, ks[0]).value, db[ks[0]], q, a);
        PathReadsBack(e, ks[0]);
      }
    }
  }

  lemma {:induction false} TidyIsPruned(j: Json)
    requires Tidy(j)
    ensures Prune(j) == j
    ensures j.Obj? && j != Obj(map[]) ==> !Vanishes(j)
    decreases j
  {
    if j.Obj? {
      forall k | k in j.fields
        ensures Prune(j.fields[k]) == j.fields[k] && !Vanishes(j.fields[k])
      {
        TidyIsPruned(j.fields[k]);
      }
    }
  }

  /** Placing atoms into an empty setting makes a tidy dictionary, not empty once a row is placed. */
  lemma {:induction false} PlacedIsTidy(e: Entry, db: Rows, ks: seq<string>)
    requires forall k | k in ks :: k in db && (PathOf(e, k).Some? ==> db[k].Atom?)
    ensures Tidy(Obj(PlacedAll(e, db, map[], ks)))
    ensures (exists k | k in ks :: PathOf(e, k).Some?) ==> PlacedAll(e, db, map[], ks) != map[]
    decreases |ks|
  {
    if ks != [] {
      var n := |ks| - 1;
      var before, k := ks[..n], ks[n];
      assert ks == before + [k];
      PlacedIsTidy(e, db, before);
      PlacedAllSnoc(e, db, map[], before, k);
      if PathOf(e, k).Some? {
        PlacedAllBlocks(e, db, map[], before, PathOf(e, k).value);
        AssignIsTidy(PlacedAll(e, db, map[], before), PathOf(e, k).value, db[k]);
      }
    }
  }

  /** A flattened setting, connection settings included, comes back unchanged if and only if it is not
      empty, holds no empty dictionary, and the path to each leaf reads back. */
  lemma RepairRestoresExactly(table: seq<Entry>, e: Entry, d: Dict, db: Rows, db': Rows)
    requires Separate(table) && Repaired(table, db, db') && e in table && Flattened(e, d, db)
    ensures (e.key in db' && db'[e.key] == Obj(d)) <==>
              d != map[] && Tidy(Obj(d)) && forall path, a | LeafAt(d, path, a) :: Recoverable(e.api, path)
  {
    forall path
      ensures ReadsBack(e.api, path) <==> Recoverable(e.api, path)
    {
      ReadsBackExactly(e.api, path);
    }
    if d != map[] && Tidy(Obj(d)) && forall path, a | LeafAt(d, path, a) :: Recoverable(e.api, path) {
      var path, a := TidyHasLeaf(d);
      RepairRestores(table, e, d, db, db');
      TidyIsPruned(Obj(d));
    }
    if e.key in db' && db'[e.key] == Obj(d) {
      RestoredOnlyIf(table, e, d, db, db');
    }
  }

  lemma RestoredOnlyIf(table: seq<Entry>, e: Entry, d: Dict, db: Rows, db': Rows)
    requires Separate(table) && Repaired(table, db, db') && e in table && Flattened(e, d, db)
    requires e.key in db' && db'[e.key] == Obj(d)
    ensures d != map[] && Tidy(Obj(d)) && forall path, a | LeafAt(d, path, a) :: ReadsBack(e.api, path)
  {
    RestoredWasTaken(table, e, db, db');
    assert RepairedEntry(e, db, db');
    var ks :| Found(e, db, ks) && db'[e.key] == Obj(PlacedAll(e, db, Start(e, db), ks));
    forall k | k in ks && PathOf(e, k).Some?
      ensures db[k].Atom?
    {
      var path := RowIsLeaf(table, e, d, db, k);
    }
    PlacedIsTidy(e, db, ks);
    forall path, a | LeafAt(d, path, a)
      ensures ReadsBack(e.api, path)
    {
      PlacedLeavesReadBack(e, db, map[], ks, path, a);
    }
  }

  /** A setting that is a dictionary after the repair, but not before, had flattened rows. */
  lemma RestoredWasTaken(table: seq<Entry>, e: Entry, db: Rows, db': Rows)
    requires Separate(table) && Repaired(table, db, db') && e in table
    requires (e.key in db ==> db[e.key].Atom?) && e.key in db' && db'[e.key].Obj?
    ensures HasTaken(e, db)
  {
    if !HasTaken(e, db) {
      forall f | f in table && f.key == e.key
        ensures f == e
      {
        SameKeySameEntry(table, e, f);
      }
      assert !(exists f | f in table :: f.key == e.key && HasTaken(f, db));
      assert false;
    }
  }

  /** An empty dictionary inside a setting is lost: one whose only entry is an empty dictionary leaves
      no row behind. */
  lemma EmptyDictionaryLost(table: seq<Entry>, e: Entry, db: Rows, db': Rows)
    requires Separate(table) && Repaired(table, db, db') && e in table
    requires Flattened(e, map["a" := Obj(map[])], db)
    ensures !(e.key in db' && db'[e.key] == Obj(map["a" := Obj(map[])]))
  {
    var d := map["a" := Obj(map[])];
    assert Obj(d).fields["a"] == Obj(map[]);
    RepairRestoresExactly(table, e, d, db, db');
  }
}
