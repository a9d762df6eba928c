/** What a deletion leaves of each record, and in which order adopted messages join their new parent. */
module DeletionOrder {
  import opened Common
  import opened Messages
  import opened Deletion
  import opened Descent

  /** Every survivor's record is the old one but for its links: only grandchildren of the deleted
      message get another parent, and only its parent gets another child list. */
  lemma SurvivorRecord(ms: MessageMap, m: Id, x: Id)
    requires Linked(ms) && m in ms && x in Deleted(ms, m)
    ensures Deleted(ms, m)[x] ==
            ms[x].(
              parentId := if IsGrandchild(ms, m, x) then Is(ms[m].Parent()) else ms[x].parentId,
              childrenIds := if ms[m].Parent() == Some(x) then Is(Deleted(ms, m)[x].Children()) else ms[x].childrenIds)
  {
    AdoptedAreGrandchildren(ms, m);
    assert x in AdoptedIds(ms, m) <==> IsGrandchild(ms, m, x);
    LinksOnly(ms, m, x);
  }

  lemma LinksOnly(ms: MessageMap, m: Id, x: Id)
    requires m in ms && x in Deleted(ms, m)
    ensures x in ms
    ensures Deleted(ms, m)[x] ==
            ms[x].(
              parentId := if x in AdoptedIds(ms, m) then Is(ms[m].Parent()) else ms[x].parentId,
              childrenIds := if ms[m].Parent() == Some(x) then Is(Deleted(ms, m)[x].Children()) else ms[x].childrenIds)
  {
    var linked := SetChildren(ms, ms[m].Parent(), AdoptingChildren(ms, m, ms[m].Parent()));
    assert Deleted(ms, m)[x] == SetParents(linked, Elements(AdoptedIds(ms, m)), ms[m].Parent())[x];
  }

  /** `x` comes before `y` among the children of the messages in `parents`, taken in turn. */
  ghost predicate InTurn(ms: MessageMap, parents: seq<Id>, x: Id, y: Id) {
    && x in ms && ms[x].Parent().Some? && ms[x].Parent().value in parents
    && y in ms && ms[y].Parent().Some? && ms[y].Parent().value in parents
    && var p, q := ms[x].Parent().value, ms[y].Parent().value;
       if p == q then Before(ChildrenOf(ms, p), x, y) else Before(parents, p, q)
  }

  lemma {:induction false} GrandchildrenInTurn(ms: MessageMap, parents: seq<Id>, x: Id, y: Id)
    requires Linked(ms) && NoDup(parents) && forall p | p in parents :: p in ms
    ensures Before(StoredGrandchildren(ms, parents), x, y) <==> InTurn(ms, parents, x, y)
  {
    if parents != [] {
      var p, rest := parents[0], parents[1..];
      StoredChildrenLinked(ms, p);
      GrandchildrenOf(ms, rest);
      GrandchildrenInTurn(ms, rest, x, y);
      BeforeConcat(StoredChildren(ms, p), StoredGrandchildren(ms, rest), x, y);
      ParentsInTurn(ms, parents, x, y);
      assert x in StoredChildren(ms, p) <==> HasParent(ms, x, p);
      assert y in StoredChildren(ms, p) <==> HasParent(ms, y, p);
      if Before(ms[p].Children(), x, y) {
        BeforeIsIn(ms[p].Children(), x, y);
      }
    }
  }

  lemma ParentsInTurn(ms: MessageMap, parents: seq<Id>, x: Id, y: Id)
    requires Linked(ms) && NoDup(parents) && parents != [] && parents[0] in ms
    ensures InTurn(ms, parents, x, y) <==>
              || InTurn(ms, parents[1..], x, y)
              || (HasParent(ms, x, parents[0]) && HasParent(ms, y, parents[0]) && Before(ms[parents[0]].Children(), x, y))
              || (HasParent(ms, x, parents[0]) && y in ms && ms[y].Parent().Some? && ms[y].Parent().value in parents[1..])
  {
    var p, rest := parents[0], parents[1..];
    assert p !in rest;
    if x in ms && y in ms && ms[x].Parent().Some? && ms[y].Parent().Some? {
      var a, b := ms[x].Parent().value, ms[y].Parent().value;
      BeforeCons(parents, a, b);
      if Before(rest, a, b) {
        BeforeIsIn(rest, a, b);
      }
      assert a in parents <==> a == p || a in rest;
      assert b in parents <==> b == p || b in rest;
    }
  }

  /** `x` and `y` stand in this order in the list of the deleted message's parent afterwards: the
      children kept come first, in their old order; then, in the order of the deleted message's own
      list, the children of each child, in the order that child listed them. */
  ghost predicate AdoptionOrder(ms: MessageMap, m: Id, p: Id, x: Id, y: Id) {
    var keptX, keptY := HasParent(ms, x, p) && x != m, HasParent(ms, y, p) && y != m;
    var newX, newY := IsGrandchild(ms, m, x), IsGrandchild(ms, m, y);
    || (keptX && keptY && Before(ChildrenOf(ms, p), x, y))
    || (keptX && newY)
    || (newX && newY &&
        var c, d := ms[x].Parent().value, ms[y].Parent().value;
        if c == d then Before(ChildrenOf(ms, c), x, y) else Before(ChildrenOf(ms, m), c, d))
  }

  lemma AdoptedInOrder(ms: MessageMap, m: Id, p: Id, x: Id, y: Id)
    requires Linked(ms) && m in ms && ms[m].Parent() == Some(p) && p in Deleted(ms, m)
    ensures Before(ChildrenOf(Deleted(ms, m), p), x, y) <==> AdoptionOrder(ms, m, p, x, y)
  {
    Survivor(ms, m, p);
    StoredChildrenLinked(ms, m);
    AdoptedAreGrandchildren(ms, m);
    var kids, adopted := ms[p].Children(), AdoptedIds(ms, m);
    GrandchildrenInTurn(ms, StoredChildren(ms, m), x, y);
    TurnIsGrandchildren(ms, m, x, y);
    BeforeConcat(Drop(kids, {m}), adopted, x, y);
    BeforeDrop(kids, {m}, x, y);
    assert Lists(ms, p, x) <==> HasParent(ms, x, p);
    assert Lists(ms, p, y) <==> HasParent(ms, y, p);
    assert y in adopted <==> IsGrandchild(ms, m, y);
    if Before(kids, x, y) {
      BeforeIsIn(kids, x, y);
    }
  }

  lemma TurnIsGrandchildren(ms: MessageMap, m: Id, x: Id, y: Id)
    requires Linked(ms) && m in ms
    ensures InTurn(ms, StoredChildren(ms, m), x, y) <==>
              && IsGrandchild(ms, m, x) && IsGrandchild(ms, m, y)
              && var c, d := ms[x].Parent().value, ms[y].Parent().value;
                 if c == d then Before(ChildrenOf(ms, c), x, y) else Before(ChildrenOf(ms, m), c, d)
  {
    StoredChildrenLinked(ms, m);
    forall g | g in ms && ms[g].Parent().Some?
      ensures ms[g].Parent().value in StoredChildren(ms, m) <==> IsGrandchild(ms, m, g)
    {
      assert ms[g].Parent().value in StoredChildren(ms, m) <==> HasParent(ms, ms[g].Parent().value, m);
    }
  }

  // ---------------------------------------------------------------------------------------
  // The walk to the new current message
  // ---------------------------------------------------------------------------------------

  /** The message `k` links above `leaf` is the last child of its parent. */
  ghost predicate LastChildAt(ms: MessageMap, leaf: Id, k: nat) {
    && Up(ms, leaf, k).Some? && Up(ms, leaf, k + 1).Some?
    && var kids := ChildrenOf(ms, Up(ms, leaf, k + 1).value);
       kids != [] && kids[|kids| - 1] == Up(ms, leaf, k).value
  }

  /** Climbing `n` links from `leaf` leads to `start`, each time from the last child of a list. */
  ghost predicate ClimbsFromLast(ms: MessageMap, start: Id, leaf: Id, n: nat) {
    Up(ms, leaf, n) == Some(start) && forall k: nat :: k < n ==> LastChildAt(ms, leaf, k)
  }

  lemma PathClimbsFromLast(ms: MessageMap, path: seq<Id>)
    requires Linked(ms) && LastChildPath(ms, path) && path[0] in ms
    ensures ClimbsFromLast(ms, path[0], path[|path| - 1], |path| - 1)
  {
    var n := |path| - 1;
    ClimbStep(ms, path, n);
    forall k: nat | k < n
      ensures LastChildAt(ms, path[n], k)
    {
      ClimbStep(ms, path, k);
      ClimbStep(ms, path, k + 1);
      PathContinues(ms, path, n - k - 1);
    }
  }

  lemma {:induction false} PathStored(ms: MessageMap, path: seq<Id>, i: nat)
    requires Linked(ms) && LastChildPath(ms, path) && path[0] in ms && i < |path|
    ensures path[i] in ms && (i > 0 ==> HasParent(ms, path[i], path[i - 1]))
  {
    if i > 0 {
      PathStored(ms, path, i - 1);
      PathContinues(ms, path, i - 1);
      assert Lists(ms, path[i - 1], path[i]);
    }
  }

  lemma {:induction false} ClimbStep(ms: MessageMap, path: seq<Id>, k: nat)
    requires Linked(ms) && LastChildPath(ms, path) && path[0] in ms && k < |path|
    ensures path[|path| - 1 - k] in ms && Up(ms, path[|path| - 1], k) == Some(path[|path| - 1 - k])
    decreases k
  {
    PathStored(ms, path, |path| - 1 - k);
    if k > 0 {
      ClimbStep(ms, path, k - 1);
      PathStored(ms, path, |path| - k);
      UpSnoc(ms, path[|path| - 1], k - 1, path[|path| - k], path[|path| - 1 - k]);
    }
  }

  predicate IsRoot(ms: MessageMap, x: Id) {
    x in ms && ms[x].Parent() == None
  }

  /** The walk starts at the parent of the deleted message, or else at the last root in dictionary
      order. */
  ghost predicate StartsAt(ms: MessageMap, keys: seq<Id>, parent: Option<Id>, start: Id) {
    if parent.Some? then start == parent.value
    else exists i :: 0 <= i < |keys| && keys[i] == start && IsRoot(ms, start) && forall j | i < j < |keys| :: !IsRoot(ms, keys[j])
  }

  lemma {:induction false} LastRoot(ms: MessageMap, keys: seq<Id>) returns (i: nat)
    requires Roots(ms, keys) != []
    ensures i < |keys| && keys[i] == Roots(ms, keys)[|Roots(ms, keys)| - 1] && IsRoot(ms, keys[i])
    ensures forall j | i < j < |keys| :: !IsRoot(ms, keys[j])
    decreases |keys|
  {
    i := |keys| - 1;
    var before := keys[..i];
    assert keys == before + [keys[i]];
    RootsSnoc(ms, before, keys[i]);
    if !IsRoot(ms, keys[i]) {
      i := LastRoot(ms, before);
    }
  }

  lemma RootsSnoc(ms: MessageMap, keys: seq<Id>, x: Id)
    ensures Roots(ms, keys + [x]) == if IsRoot(ms, x) then Roots(ms, keys) + [x] else Roots(ms, keys)
  {
    KeepSnoc(keys, x, set x | x in ms && ms[x].Parent() == None);
  }

  /** The new current message is the leaf reached from the walk's start by always taking the last
      child: climbing from it, every message is the last one in its parent's list. */
  lemma CurrentClimbsToStart(ms: MessageMap, keys: seq<Id>, parent: Option<Id>, current: Option<Id>)
    requires Linked(ms) && Keyed(ms, keys) && CurrentAfterDelete(ms, keys, parent, current) && current.Some?
    ensures ChildrenOf(ms, current.value) == []
    ensures exists start, n: nat :: StartsAt(ms, keys, parent, start) && ClimbsFromLast(ms, start, current.value, n)
  {
    CurrentIsLeaf(ms, keys, parent, current);
    var start := DescentStart(ms, keys, parent).value;
    var leaf :| DescendsTo(ms, start, leaf) && current == if leaf in ms then Some(leaf) else None;
    var path :| LastChildPath(ms, path) && path[0] == start && path[|path| - 1] == leaf && ChildrenOf(ms, leaf) == [];
    if parent == None {
      var i := LastRoot(ms, keys);
      assert start in ms;
    } else if start !in ms {
      DescentStops(ms, start);
      DescentUnique(ms, start, leaf, start);
      assert false;
    }
    PathClimbsFromLast(ms, path);
    assert StartsAt(ms, keys, parent, start);
  }
}
