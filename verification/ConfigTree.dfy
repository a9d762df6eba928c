/** Nested configuration values: assigning at a path, flattening, and rebuilding from rows. */
module ConfigTree {
  import opened Common
  import opened ConfigSplit

  /** A JSON value; `Atom` stands for everything that is not a dictionary. */
  datatype Json = Atom(text: string) | Obj(fields: map<string, Json>)

  type Dict = map<string, Json>
  type Path = seq<string>

  /** Walks down, replacing what is not a dictionary by an empty one, and sets the leaf. */
  function Assign(target: Dict, path: Path, value: Json): Dict
    requires path != []
    decreases |path|
  {
    if |path| == 1 then target[path[0] := value]
    else target[path[0] := Obj(Assign(Below(target, path[0]), path[1..], value))]
  }

  /** The dictionary under a key, or an empty one. */
  function Below(target: Dict, part: string): Dict {
    if part in target && target[part].Obj? then target[part].fields else map[]
  }

  function Get(d: Dict, path: Path): Option<Json>
    requires path != []
    decreases |path|
  {
    if path[0] !in d then None
    else if |path| == 1 then Some(d[path[0]])
    else if d[path[0]].Obj? then Get(d[path[0]].fields, path[1..])
    else None
  }

  predicate Incomparable(p: Path, q: Path) {
    !(p <= q) && !(q <= p)
  }

  /** What the walk has passed: the dictionaries from the root down, each with the key taken. */
  datatype Frame = Frame(dict: Dict, part: string)

  /** Puts a dictionary back under the frames it was reached through. */
  function Plug(frames: seq<Frame>, d: Dict): Dict
    decreases |frames|
  {
    if frames == [] then d
    else
      var last := frames[|frames| - 1];
      Plug(frames[..|frames| - 1], last.dict[last.part := Obj(d)])
  }

  /** The walk over all parts but the last, then the write. */
  method AssignPath(target: Dict, path: Path, value: Json) returns (r: Dict)
    requires path != []
    ensures r == Assign(target, path, value)
  {
    var current := target;
    var frames: seq<Frame> := [];
    for i := 0 to |path| - 1
      invariant Plug(frames, Assign(current, path[i..], value)) == Assign(target, path, value)
    {
      var part := path[i];
      var next := map[];
      if part in current && current[part].Obj? {
        next := current[part].fields;
      }
      assert path[i..][1..] == path[i + 1..];
      frames := frames + [Frame(current, part)];
      assert frames[..|frames| - 1] + [Frame(current, part)] == frames;
      current := next;
    }
    r := Plug(frames, current[path[|path| - 1] := value]);
  }

  /** A path reads back what was written to it. */
  lemma {:induction false} GetAssigned(d: Dict, p: Path, v: Json)
    requires p != []
    ensures Get(Assign(d, p, v), p) == Some(v)
    decreases |p|
  {
    if |p| > 1 {
      GetAssigned(Below(d, p[0]), p[1..], v);
    }
  }

  /** Writing leaves incomparable paths alone. */
  lemma {:induction false} GetOther(d: Dict, p: Path, v: Json, q: Path)
    requires p != [] && q != [] && Incomparable(p, q)
    ensures Get(Assign(d, p, v), q) == Get(d, q)
    decreases |p|
  {
    if p[0] == q[0] {
      assert |p| > 1 && |q| > 1;
      assert p == [p[0]] + p[1..] && q == [q[0]] + q[1..];
      GetOther(Below(d, p[0]), p[1..], v, q[1..]);
      assert Get(Assign(d, p, v), q) == Get(Assign(Below(d, p[0]), p[1..], v), q[1..]);
      if !(q[0] in d && d[q[0]].Obj?) {
        assert Get(map[], q[1..]) == None;
      }
    }
  }

  ghost predicate LeafAt(d: Dict, p: Path, a: Json) {
    p != [] && Get(d, p) == Some(a) && a.Atom?
  }

  /** No dictionary inside is empty. */
  ghost predicate Tidy(j: Json) {
    j.Obj? ==> forall k | k in j.fields :: j.fields[k] != Obj(map[]) && Tidy(j.fields[k])
  }

  /** The paths that the flattening walk yields: one per leaf; empty dictionaries leave no trace. */
  ghost function WalkPaths(j: Json): set<Path> {
    if j.Atom? then {}
    else
      (set k | k in j.fields && j.fields[k].Atom? :: [k]) +
      (set k, q | k in j.fields && q in WalkPaths(j.fields[k]) :: [k] + q)
  }

  /** The dictionary without the empty dictionaries inside it. */
  function Prune(j: Json): Json {
    if j.Atom? then j else Obj(map k | k in j.fields && !Vanishes(j.fields[k]) :: Prune(j.fields[k]))
  }

  predicate Vanishes(j: Json) {
    j.Obj? && forall k | k in j.fields :: Vanishes(j.fields[k])
  }

  lemma {:induction false} WalkPathsAreLeaves(d: Dict, p: Path)
    ensures p in WalkPaths(Obj(d)) <==> p != [] && Get(d, p).Some? && Get(d, p).value.Atom?
    decreases Obj(d)
  {
    var j := Obj(d);
    if p != [] {
      var k, q := p[0], p[1..];
      assert p == [k] + q;
      if k in d && d[k].Obj? {
        WalkPathsAreLeaves(d[k].fields, q);
        assert Obj(d[k].fields) == d[k];
      }
      if q == [] {
        assert p == [k];
      }
    }
  }

  lemma {:induction false} LeafIsDeep(d: Dict, p: Path, a: Json)
    requires p != []
    ensures LeafAt(d, p, a) <==>
              && p[0] in d
              && if |p| == 1 then d[p[0]] == a && a.Atom? else d[p[0]].Obj? && LeafAt(d[p[0]].fields, p[1..], a)
  {
  }

  // ---------------------------------------------------------------------------------------
  // Leaves determine a tidy dictionary
  // ---------------------------------------------------------------------------------------

  lemma {:induction false} TidyHasLeaf(d: Dict) returns (p: Path, a: Json)
    requires Tidy(Obj(d)) && d != map[]
    ensures LeafAt(d, p, a)
    decreases Obj(d)
  {
    var k :| k in d;
    if d[k].Atom? {
      p, a := [k], d[k];
    } else {
      assert Obj(d).fields[k] < Obj(d);
      assert d[k] == Obj(d[k].fields);
      p, a := TidyHasLeaf(d[k].fields);
      p := [k] + p;
      assert p[1..] == p[1..];
    }
  }

  ghost predicate SameLeaves(a: Dict, b: Dict) {
    forall p, x :: LeafAt(a, p, x) <==> LeafAt(b, p, x)
  }

  lemma {:induction false} SameLeavesBelow(a: Dict, b: Dict, k: string)
    requires SameLeaves(a, b) && k in a && k in b && a[k].Obj? && b[k].Obj?
    ensures SameLeaves(a[k].fields, b[k].fields)
  {
    forall q, x
      ensures LeafAt(a[k].fields, q, x) <==> LeafAt(b[k].fields, q, x)
    {
      if q != [] {
        var p := [k] + q;
        assert p[1..] == q && p[0] == k;
        LeafIsDeep(a, p, x);
        LeafIsDeep(b, p, x);
        assert LeafAt(a, p, x) <==> LeafAt(b, p, x);
      }
    }
  }

  /** A key of a tidy dictionary is a key, of the same kind, of every dictionary with the same leaves. */
  lemma SameKind(a: Dict, b: Dict, k: string)
    requires Tidy(Obj(a)) && SameLeaves(a, b) && k in a
    ensures k in b && (a[k].Atom? ==> b[k] == a[k]) && (a[k].Obj? ==> b[k].Obj?)
  {
    if a[k].Atom? {
      assert LeafAt(a, [k], a[k]);
      assert LeafAt(b, [k], a[k]);
    } else {
      assert Obj(a).fields[k] == a[k] == Obj(a[k].fields);
      var p, x := TidyHasLeaf(a[k].fields);
      var q := [k] + p;
      assert q[1..] == p && q[0] == k;
      LeafIsDeep(a, q, x);
      assert LeafAt(a, q, x);
      assert LeafAt(b, q, x);
      LeafIsDeep(b, q, x);
    }
  }

  /** Two tidy dictionaries with the same leaves are equal. */
  lemma {:induction false} TidyUnique(a: Dict, b: Dict)
    requires Tidy(Obj(a)) && Tidy(Obj(b)) && SameLeaves(a, b)
    ensures a == b
    decreases Obj(a)
  {
    forall k | k in a
      ensures k in b && b[k] == a[k]
    {
      SameKind(a, b, k);
      if a[k].Obj? {
        SameLeavesBelow(a, b, k);
        assert Obj(a).fields[k] == a[k] == Obj(a[k].fields) && Obj(b).fields[k] == b[k] == Obj(b[k].fields);
        TidyUnique(a[k].fields, b[k].fields);
      }
    }
    forall k | k in b
      ensures k in a
    {
      SameKind(b, a, k);
    }
  }

  lemma {:induction false} PruneIsTidy(j: Json)
    ensures Tidy(Prune(j))
    ensures j.Obj? ==> (Prune(j) == Obj(map[]) <==> Vanishes(j))
    decreases j
  {
    if j.Obj? {
      forall k | k in j.fields
        ensures Tidy(Prune(j.fields[k]))
        ensures j.fields[k].Obj? ==> (Prune(j.fields[k]) == Obj(map[]) <==> Vanishes(j.fields[k]))
      {
        PruneIsTidy(j.fields[k]);
      }
      if !Vanishes(j) {
        var k :| k in j.fields && !Vanishes(j.fields[k]);
        assert k in Prune(j).fields;
      }
    }
  }

  lemma {:induction false} VanishingHasNoLeaf(d: Dict, p: Path, a: Json)
    requires Vanishes(Obj(d))
    ensures !LeafAt(d, p, a)
    decreases |p|
  {
    if p != [] && p[0] in d {
      assert Vanishes(Obj(d).fields[p[0]]);
      assert d[p[0]] == Obj(d[p[0]].fields);
      if |p| > 1 {
        VanishingHasNoLeaf(d[p[0]].fields, p[1..], a);
      }
    }
  }

  lemma {:induction false} PruneKeepsLeaf(d: Dict, p: Path, a: Json)
    ensures LeafAt(Prune(Obj(d)).fields, p, a) <==> LeafAt(d, p, a)
    decreases |p|
  {
    if p != [] {
      var e := Prune(Obj(d)).fields;
      LeafIsDeep(d, p, a);
      LeafIsDeep(e, p, a);
      if p[0] in d && d[p[0]].Obj? && |p| > 1 {
        assert d[p[0]] == Obj(d[p[0]].fields);
        PruneKeepsLeaf(d[p[0]].fields, p[1..], a);
        if Vanishes(d[p[0]]) {
          VanishingHasNoLeaf(d[p[0]].fields, p[1..], a);
        }
      }
    }
  }

  // ---------------------------------------------------------------------------------------
  // Rebuilding
  // ---------------------------------------------------------------------------------------

  lemma {:induction false} AssignIsTidy(d: Dict, p: Path, v: Json)
    requires p != [] && v.Atom? && Tidy(Obj(d))
    ensures Tidy(Obj(Assign(d, p, v))) && Assign(d, p, v) != map[]
    decreases |p|
  {
    if |p| > 1 {
      var sub := Below(d, p[0]);
      assert Tidy(Obj(sub)) by {
        if p[0] in d && d[p[0]].Obj? {
          assert Obj(sub) == Obj(d).fields[p[0]];
        }
      }
      AssignIsTidy(sub, p[1..], v);
    }
    var d' := Assign(d, p, v);
    assert p[0] in d';
    forall k | k in d'
      ensures d'[k] != Obj(map[]) && Tidy(d'[k])
    {
      if k != p[0] {
        assert d'[k] == Obj(d).fields[k];
      }
    }
  }

  /** Writing a leaf at a path incomparable to all other leaves adds exactly that leaf. */
  lemma {:induction false} AssignAddsLeaf(d: Dict, p: Path, v: Json, q: Path, a: Json)
    requires p != [] && v.Atom?
    requires LeafAt(d, q, a) ==> q == p || Incomparable(p, q)
    ensures LeafAt(Assign(d, p, v), q, a) <==> (q == p && a == v) || (q != p && LeafAt(d, q, a))
    decreases |p|
  {
    if q == p {
      GetAssigned(d, p, v);
    } else if q != [] && Incomparable(p, q) {
      GetOther(d, p, v, q);
    } else if q != [] {
      ComparableIsNoLeaf(d, p, v, q, a);
    }
  }

  lemma {:induction false} ComparableIsNoLeaf(d: Dict, p: Path, v: Json, q: Path, a: Json)
    requires p != [] && q != [] && v.Atom? && q != p && !Incomparable(p, q)
    ensures !LeafAt(Assign(d, p, v), q, a)
    decreases |p|
  {
    assert p[0] == q[0];
    assert p == [p[0]] + p[1..] && q == [q[0]] + q[1..];
    if |p| > 1 && |q| > 1 {
      ComparableIsNoLeaf(Below(d, p[0]), p[1..], v, q[1..], a);
      LeafIsDeep(Assign(d, p, v), q, a);
    }
  }

  lemma {:induction false} LeavesIncomparable(d: Dict, p: Path, a: Json, q: Path, b: Json)
    requires LeafAt(d, p, a) && LeafAt(d, q, b)
    ensures if p == q then a == b else Incomparable(p, q)
    decreases |p|
  {
    if p[0] == q[0] && p != q {
      LeafIsDeep(d, p, a);
      LeafIsDeep(d, q, b);
      assert p == [p[0]] + p[1..] && q == [q[0]] + q[1..];
      if |p| > 1 && |q| > 1 {
        LeavesIncomparable(d[p[0]].fields, p[1..], a, q[1..], b);
      }
    }
  }

  /** Writes each row at its path, in order. */
  function Rebuilt(start: Dict, rows: seq<(Path, Json)>): Dict
    requires forall r | r in rows :: r.0 != []
  {
    if rows == [] then start
    else
      var last := rows[|rows| - 1];
      assert forall r | r in rows[..|rows| - 1] :: r in rows;
      Assign(Rebuilt(start, rows[..|rows| - 1]), last.0, last.1)
  }

  ghost predicate LeavesOf(d: Dict, rows: seq<(Path, Json)>) {
    forall r | r in rows :: LeafAt(d, r.0, r.1)
  }

  lemma {:induction false} RebuiltLeaves(d: Dict, rows: seq<(Path, Json)>)
    requires LeavesOf(d, rows)
    ensures Tidy(Obj(Rebuilt(map[], rows)))
    ensures forall q, a :: LeafAt(Rebuilt(map[], rows), q, a) <==> (q, a) in rows
    decreases |rows|
  {
    if rows != [] {
      var before, last := rows[..|rows| - 1], rows[|rows| - 1];
      assert rows == before + [last];
      assert forall r | r in before :: r in rows;
      RebuiltLeaves(d, before);
      AssignIsTidy(Rebuilt(map[], before), last.0, last.1);
      forall q, a
        ensures LeafAt(Rebuilt(map[], rows), q, a) <==> (q, a) in rows
      {
        if LeafAt(Rebuilt(map[], before), q, a) {
          LeavesIncomparable(d, last.0, last.1, q, a);
        }
        AssignAddsLeaf(Rebuilt(map[], before), last.0, last.1, q, a);
        assert (q, a) in rows <==> (q, a) in before || (q, a) == last;
      }
    } else {
      forall q, a
        ensures !LeafAt(map[], q, a)
      {
      }
    }
  }

  /** Rebuilding from all leaves, in whatever order, gives the dictionary without the empty
      dictionaries inside it. */
  lemma RebuildFromLeaves(d: Dict, rows: seq<(Path, Json)>)
    requires forall p, a :: LeafAt(d, p, a) <==> (p, a) in rows
    ensures LeavesOf(d, rows) && Obj(Rebuilt(map[], rows)) == Prune(Obj(d))
  {
    assert forall r | r in rows :: LeafAt(d, r.0, r.1) by {
      forall r | r in rows
        ensures LeafAt(d, r.0, r.1)
      {
        assert r == (r.0, r.1);
      }
    }
    RebuiltLeaves(d, rows);
    PruneIsTidy(Obj(d));
    forall p, a
      ensures LeafAt(Rebuilt(map[], rows), p, a) <==> LeafAt(Prune(Obj(d)).fields, p, a)
    {
      PruneKeepsLeaf(d, p, a);
    }
    assert Prune(Obj(d)) == Obj(Prune(Obj(d)).fields);
    TidyUnique(Rebuilt(map[], rows), Prune(Obj(d)).fields);
  }
}
