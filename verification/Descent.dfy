/** After a deletion the current message is found by walking down last children. The walk ends,
    and it ends on a leaf below the deleted message's parent. */
module Descent {
  import opened Common
  import opened Messages
  import opened Deletion

  /** A number above every rank. */
  lemma {:induction false} RankBound(rank: map<Id, nat>, keys: set<Id>) returns (top: nat)
    requires keys <= rank.Keys
    ensures forall x | x in keys :: rank[x] < top
  {
    if keys == {} {
      top := 0;
    } else {
      var x :| x in keys;
      top := RankBound(rank, keys - {x});
      top := if rank[x] < top then top else rank[x] + 1;
    }
  }

  /** In a linked, acyclic history the walk over last children goes strictly down. */
  lemma ForestDescentTerminates(ms: MessageMap)
    requires Linked(ms) && Acyclic(ms)
    ensures DescentTerminates(ms)
  {
    var rank :| Ranked(ms, rank);
    var top := RankBound(rank, ms.Keys);
    var height := map x | x in ms :: (top - rank[x]) as nat;
    forall x | x in ms && ms[x].Children() != []
      ensures var last := ms[x].Children()[|ms[x].Children()| - 1]; last in ms ==> height[last] < height[x]
    {
      assert Lists(ms, x, ms[x].Children()[|ms[x].Children()| - 1]);
    }
    assert DescentRank(ms, height);
  }

  /** Two walks from one start agree as long as both go on. */
  lemma {:induction false} PathsAgree(ms: MessageMap, p: seq<Id>, q: seq<Id>, i: nat)
    requires LastChildPath(ms, p) && LastChildPath(ms, q) && p[0] == q[0]
    requires i < |p| && i < |q|
    ensures p[i] == q[i]
  {
    if i > 0 {
      PathsAgree(ms, p, q, i - 1);
    }
  }

  lemma PathContinues(ms: MessageMap, path: seq<Id>, i: nat)
    requires LastChildPath(ms, path) && i + 1 < |path|
    ensures ChildrenOf(ms, path[i]) != [] && path[i + 1] == ChildrenOf(ms, path[i])[|ChildrenOf(ms, path[i])| - 1]
  {
  }

  /** The walk has at most one end. */
  lemma DescentUnique(ms: MessageMap, start: Id, leaf: Id, other: Id)
    requires DescendsTo(ms, start, leaf) && DescendsTo(ms, start, other)
    ensures leaf == other
  {
    var p :| LastChildPath(ms, p) && p[0] == start && p[|p| - 1] == leaf && ChildrenOf(ms, leaf) == [];
    var q :| LastChildPath(ms, q) && q[0] == start && q[|q| - 1] == other && ChildrenOf(ms, other) == [];
    var n := if |p| <= |q| then |p| - 1 else |q| - 1;
    PathsAgree(ms, p, q, n);
    if n + 1 < |q| {
      PathContinues(ms, q, n);
    }
    if n + 1 < |p| {
      PathContinues(ms, p, n);
    }
  }

  /** Climbing back up the walk leads to its start. */
  lemma {:induction false} PathClimb(ms: MessageMap, path: seq<Id>)
    requires Linked(ms) && LastChildPath(ms, path) && path[0] in ms
    ensures path[|path| - 1] in ms
    ensures Up(ms, path[|path| - 1], |path| - 1) == Some(path[0])
  {
    if |path| > 1 {
      var tail := path[1..];
      var c := tail[0];
      assert ChildrenOf(ms, path[0]) != [] && c == ChildrenOf(ms, path[0])[|ChildrenOf(ms, path[0])| - 1];
      assert Lists(ms, path[0], c);
      assert LastChildPath(ms, tail) by {
        forall i, j | 0 <= i < j < |tail| && j == i + 1
          ensures ChildrenOf(ms, tail[i]) != [] && tail[j] == ChildrenOf(ms, tail[i])[|ChildrenOf(ms, tail[i])| - 1]
        {
          assert tail[i] == path[i + 1] && tail[j] == path[j + 1];
        }
      }
      PathClimb(ms, tail);
      UpSnoc(ms, tail[|tail| - 1], |tail| - 1, c, path[0]);
    }
  }

  /** A climb of n links that reaches c goes one link further to c's stored parent. */
  lemma {:induction false} UpSnoc(ms: MessageMap, x: Id, n: nat, c: Id, p: Id)
    requires Up(ms, x, n) == Some(c) && HasParent(ms, c, p) && p in ms
    ensures Up(ms, x, n + 1) == Some(p)
    decreases n
  {
    if n == 0 {
      assert Up(ms, p, 0) == Some(p);
    } else {
      UpSnoc(ms, ms[x].Parent().value, n - 1, c, p);
    }
  }

  /** A walk that starts at a stored message ends at a stored leaf at or below it. */
  lemma DescentEndsBelow(ms: MessageMap, start: Id, leaf: Id)
    requires Linked(ms) && start in ms && DescendsTo(ms, start, leaf)
    ensures leaf in ms && ms[leaf].Children() == []
    ensures leaf == start || ProperAncestor(ms, start, leaf)
  {
    var path :| LastChildPath(ms, path) && path[0] == start && path[|path| - 1] == leaf && ChildrenOf(ms, leaf) == [];
    PathClimb(ms, path);
  }

  /** A non-empty acyclic history without dangling parents has a root. */
  lemma {:induction false} RootAbove(ms: MessageMap, rank: map<Id, nat>, x: Id) returns (root: Id)
    requires Ranked(ms, rank) && NoDangling(ms) && x in ms
    ensures root in ms && ms[root].Parent() == None
    decreases rank[x]
  {
    if ms[x].Parent() == None {
      root := x;
    } else {
      assert HasParent(ms, x, ms[x].Parent().value);
      root := RootAbove(ms, rank, ms[x].Parent().value);
    }
  }

  /** The current message after deleting `m` from a linked, acyclic history: a stored leaf at or
      below m's parent, or none exactly when that parent is not stored, or when m was a root and
      no root is left. */
  lemma DeleteCurrentIsLeaf(ms: MessageMap, m: Id, keys: seq<Id>, current: Option<Id>)
    requires Linked(ms) && Acyclic(ms) && m in ms
    requires Keyed(Deleted(ms, m), keys)
    requires CurrentAfterDelete(Deleted(ms, m), keys, ms[m].Parent(), current)
    ensures current.Some? ==> current.value in Deleted(ms, m) && Deleted(ms, m)[current.value].Children() == []
    ensures current.Some? && ms[m].Parent().Some? ==>
              current == ms[m].Parent() || ProperAncestor(Deleted(ms, m), ms[m].Parent().value, current.value)
    ensures current == None <==>
            if ms[m].Parent().Some? then ms[m].Parent().value !in ms
            else forall x | x in Deleted(ms, m) :: Deleted(ms, m)[x].Parent().Some?
  {
    DeleteKeepsLinked(ms, m);
    CurrentIsLeaf(Deleted(ms, m), keys, ms[m].Parent(), current);
    if ms[m].Parent().Some? {
      var rank :| Ranked(ms, rank);
      var p := ms[m].Parent().value;
      Survivor(ms, m, p);
      if p in ms {
        RelativesSurvive(ms, m, rank, p);
      }
    }
  }

  /** In a linked history the walk ends on a stored leaf whenever its start is stored. */
  lemma CurrentIsLeaf(ms: MessageMap, keys: seq<Id>, parent: Option<Id>, current: Option<Id>)
    requires Linked(ms) && Keyed(ms, keys) && CurrentAfterDelete(ms, keys, parent, current)
    ensures current.Some? ==> current.value in ms && ms[current.value].Children() == []
    ensures current.Some? && parent.Some? ==> current == parent || ProperAncestor(ms, parent.value, current.value)
    ensures current == None <==>
            if parent.Some? then parent.value !in ms else forall x | x in ms :: ms[x].Parent().Some?
  {
    var start := DescentStart(ms, keys, parent);
    RootsComplete(ms, keys);
    if start.Some? {
      var leaf :| DescendsTo(ms, start.value, leaf) && current == if leaf in ms then Some(leaf) else None;
      if start.value in ms {
        DescentEndsBelow(ms, start.value, leaf);
      } else {
        DescentStops(ms, start.value);
        DescentUnique(ms, start.value, leaf, start.value);
      }
      if parent == None {
        assert start.value in Roots(ms, keys);
      }
    }
  }

  lemma DescentStops(ms: MessageMap, x: Id)
    requires ChildrenOf(ms, x) == []
    ensures DescendsTo(ms, x, x)
  {
    var path := [x];
    assert LastChildPath(ms, path) && path[0] == x && path[|path| - 1] == x;
  }

  lemma RootsComplete(ms: MessageMap, keys: seq<Id>)
    requires Keyed(ms, keys)
    ensures Roots(ms, keys) == [] <==> forall x | x in ms :: ms[x].Parent().Some?
    ensures forall x | x in Roots(ms, keys) :: x in ms && ms[x].Parent() == None
  {
    if Roots(ms, keys) == [] {
      forall x | x in ms
        ensures ms[x].Parent().Some?
      {
        assert x in Elements(keys);
        assert x !in Roots(ms, keys);
      }
    } else {
      var x := Roots(ms, keys)[0];
      assert x in Roots(ms, keys);
    }
  }

  /** Without dangling parents the current message is none exactly when the history is empty. */
  lemma DeleteCurrentNoneIffEmpty(ms: MessageMap, m: Id, keys: seq<Id>, current: Option<Id>)
    requires Linked(ms) && Acyclic(ms) && m in ms && NoDangling(ms)
    requires Keyed(Deleted(ms, m), keys)
    requires CurrentAfterDelete(Deleted(ms, m), keys, ms[m].Parent(), current)
    ensures current == None <==> Deleted(ms, m) == map[]
  {
    var ms' := Deleted(ms, m);
    DeleteCurrentIsLeaf(ms, m, keys, current);
    if current == None && ms' != map[] {
      DeleteKeepsAcyclic(ms, m);
      DeleteKeepsNoDangling(ms, m);
      var rank :| Ranked(ms', rank);
      var x :| x in ms';
      var root := RootAbove(ms', rank, x);
    }
  }
}
