/** Small sequence vocabulary shared by the models: options, duplicate-free sequences,
    and the list comprehensions the source uses to keep or drop elements. */
module Common {

  datatype Option<+T> = None | Some(value: T)

  ghost predicate NoDup<T>(s: seq<T>) {
    forall i, j :: 0 <= i < j < |s| ==> s[i] != s[j]
  }

  function Elements<T(==,!new)>(s: seq<T>): (r: set<T>)
    ensures forall x :: x in r <==> x in s
  {
    set x | x in s
  }

  /** The elements of `s` inside the set, in order. */
  function Keep<T(==,!new)>(s: seq<T>, inside: set<T>): (r: seq<T>)
    ensures forall x :: x in r <==> x in s && x in inside
    ensures NoDup(s) ==> NoDup(r)
    ensures |r| <= |s|
  {
    if s == [] then []
    else
      assert forall x :: x in s <==> x == s[0] || x in s[1..];
      if s[0] in inside then [s[0]] + Keep(s[1..], inside) else Keep(s[1..], inside)
  }

  /** The elements of `s` outside the set, in order. */
  function Drop<T(==,!new)>(s: seq<T>, outside: set<T>): (r: seq<T>)
    ensures forall x :: x in r <==> x in s && x !in outside
    ensures NoDup(s) ==> NoDup(r)
    ensures |r| <= |s|
  {
    if s == [] then []
    else
      assert forall x :: x in s <==> x == s[0] || x in s[1..];
      if s[0] in outside then Drop(s[1..], outside) else [s[0]] + Drop(s[1..], outside)
  }

  lemma {:induction false} KeepAll<T(!new)>(s: seq<T>, inside: set<T>)
    requires forall x :: x in s ==> x in inside
    ensures Keep(s, inside) == s
  {
    if s != [] {
      KeepAll(s[1..], inside);
    }
  }

  lemma {:induction false} DropNone<T(!new)>(s: seq<T>, outside: set<T>)
    requires forall x :: x in s ==> x !in outside
    ensures Drop(s, outside) == s
  {
    if s != [] {
      DropNone(s[1..], outside);
    }
  }

  lemma {:induction false} KeepNone<T(!new)>(s: seq<T>, inside: set<T>)
    requires forall x :: x in s ==> x !in inside
    ensures Keep(s, inside) == []
  {
    if s != [] {
      KeepNone(s[1..], inside);
    }
  }

  lemma {:induction false} KeepConcat<T(!new)>(s: seq<T>, t: seq<T>, inside: set<T>)
    ensures Keep(s + t, inside) == Keep(s, inside) + Keep(t, inside)
  {
    if s == [] {
      assert s + t == t;
    } else {
      assert (s + t)[1..] == s[1..] + t;
      KeepConcat(s[1..], t, inside);
    }
  }

  lemma KeepSnoc<T(!new)>(s: seq<T>, x: T, inside: set<T>)
    ensures Keep(s + [x], inside) == if x in inside then Keep(s, inside) + [x] else Keep(s, inside)
  {
    KeepConcat(s, [x], inside);
    assert [x][1..] == [];
  }

  lemma {:induction false} DropSnoc<T(!new)>(s: seq<T>, x: T, outside: set<T>)
    ensures Drop(s + [x], outside) == if x in outside then Drop(s, outside) else Drop(s, outside) + [x]
  {
    if s == [] {
      assert [x][1..] == [];
    } else {
      assert (s + [x])[1..] == s[1..] + [x];
      DropSnoc(s[1..], x, outside);
    }
  }

  /** A duplicate-free list is as long as its set of elements. */
  lemma {:induction false} NoDupSize<T(!new)>(s: seq<T>)
    requires NoDup(s)
    ensures |Elements(s)| == |s|
  {
    if s == [] {
      assert Elements(s) == {};
    } else {
      NoDupSize(s[1..]);
      assert Elements(s) == {s[0]} + Elements(s[1..]);
    }
  }

  lemma NoDupSnoc<T(!new)>(s: seq<T>, x: T)
    requires NoDup(s) && x !in s
    ensures NoDup(s + [x])
    ensures Elements(s + [x]) == Elements(s) + {x}
  {
  }

  lemma NoDupConcat<T(!new)>(s: seq<T>, t: seq<T>)
    requires NoDup(s) && NoDup(t)
    requires forall x :: x in s ==> x !in t
    ensures NoDup(s + t)
  {
    forall i, j | 0 <= i < j < |s + t|
      ensures (s + t)[i] != (s + t)[j]
    {
      if i < |s| <= j {
        assert s[i] in s && t[j - |s|] in t;
      }
    }
  }

  lemma SubsetSize<T>(a: set<T>, b: set<T>)
    requires a <= b
    ensures |a| <= |b|
    ensures |a| == |b| ==> a == b
  {
    assert b == a + (b - a);
    assert |b| == |a| + |b - a|;
  }

  /** An occurrence of `x` comes before one of `y`. */
  ghost predicate Before<T(!new)>(s: seq<T>, x: T, y: T) {
    exists i, j :: 0 <= i < j < |s| && s[i] == x && s[j] == y
  }

  lemma BeforeConcat<T(!new)>(s: seq<T>, t: seq<T>, x: T, y: T)
    ensures Before(s + t, x, y) <==> Before(s, x, y) || Before(t, x, y) || (x in s && y in t)
  {
    var st := s + t;
    if Before(s, x, y) {
      var i, j :| 0 <= i < j < |s| && s[i] == x && s[j] == y;
      assert st[i] == x && st[j] == y;
    } else if Before(t, x, y) {
      var i, j :| 0 <= i < j < |t| && t[i] == x && t[j] == y;
      assert st[|s| + i] == x && st[|s| + j] == y;
    } else if x in s && y in t {
      var i :| 0 <= i < |s| && s[i] == x;
      var j :| 0 <= j < |t| && t[j] == y;
      assert st[i] == x && st[|s| + j] == y;
    }
    if Before(st, x, y) {
      var i, j :| 0 <= i < j < |st| && st[i] == x && st[j] == y;
      if j < |s| {
        assert s[i] == x && s[j] == y;
      } else if i >= |s| {
        assert t[i - |s|] == x && t[j - |s|] == y;
      } else {
        assert s[i] == x && t[j - |s|] == y;
      }
    }
  }

  lemma BeforeCons<T(!new)>(s: seq<T>, x: T, y: T)
    requires s != []
    ensures Before(s, x, y) <==> (s[0] == x && y in s[1..]) || Before(s[1..], x, y)
  {
    assert s == [s[0]] + s[1..];
    BeforeConcat([s[0]], s[1..], x, y);
  }

  /** Keeping and dropping elements leaves the others in their order. */
  lemma {:induction false} BeforeKeep<T(!new)>(s: seq<T>, inside: set<T>, x: T, y: T)
    ensures Before(Keep(s, inside), x, y) <==> x in inside && y in inside && Before(s, x, y)
  {
    if s != [] {
      BeforeKeep(s[1..], inside, x, y);
      BeforeCons(s, x, y);
      BeforeConcat([s[0]], Keep(s[1..], inside), x, y);
    }
  }

  lemma {:induction false} BeforeDrop<T(!new)>(s: seq<T>, outside: set<T>, x: T, y: T)
    ensures Before(Drop(s, outside), x, y) <==> x !in outside && y !in outside && Before(s, x, y)
  {
    if s != [] {
      BeforeDrop(s[1..], outside, x, y);
      BeforeCons(s, x, y);
      BeforeConcat([s[0]], Drop(s[1..], outside), x, y);
    }
  }

  lemma BeforeIsIn<T(!new)>(s: seq<T>, x: T, y: T)
    requires Before(s, x, y)
    ensures x in s && y in s
    ensures NoDup(s) ==> x != y
  {
  }
}
