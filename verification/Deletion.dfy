/** What deleting a message does to a history: the message goes together with its direct
    children, and its grandchildren move up to its parent. */
module Deletion {
  import opened Common
  import opened Messages

  /** The message's children that are stored. */
  function StoredChildren(ms: MessageMap, x: Id): seq<Id> {
    Keep(ChildrenOf(ms, x), ms.Keys)
  }

  /** The stored children of each message in `parents`, one list after the other. */
  function StoredGrandchildren(ms: MessageMap, parents: seq<Id>): (r: seq<Id>)
    ensures forall g :: g in r ==> g in ms && exists c :: c in parents && g in ChildrenOf(ms, c)
  {
    if parents == [] then []
    else
      var rest := StoredGrandchildren(ms, parents[1..]);
      assert forall c :: c in parents[1..] ==> c in parents;
      assert parents[0] in parents;
      StoredChildren(ms, parents[0]) + rest
  }

  /** Replaces the child list of `x`, if it is stored. */
  function SetChildren(ms: MessageMap, x: Option<Id>, kids: seq<Id>): MessageMap {
    if x.Some? && x.value in ms then ms[x.value := ms[x.value].(childrenIds := Is(kids))] else ms
  }

  function SetParents(ms: MessageMap, xs: set<Id>, parent: Option<Id>): (r: MessageMap) {
    map x | x in ms :: if x in xs then ms[x].(parentId := Is(parent)) else ms[x]
  }

  function DeletedIds(ms: MessageMap, m: Id): set<Id> {
    {m} + Elements(StoredChildren(ms, m))
  }

  function AdoptedIds(ms: MessageMap, m: Id): seq<Id> {
    StoredGrandchildren(ms, StoredChildren(ms, m))
  }

  /** The children the parent of `m` keeps or adopts. */
  function AdoptingChildren(ms: MessageMap, m: Id, parent: Option<Id>): seq<Id> {
    Drop(if parent.Some? then ChildrenOf(ms, parent.value) else [], {m}) + AdoptedIds(ms, m)
  }

  /** The message map after deleting the stored message `m`. */
  function Deleted(ms: MessageMap, m: Id): MessageMap
    requires m in ms
  {
    var parent := ms[m].Parent();
    var adopted := Elements(AdoptedIds(ms, m));
    SetParents(SetChildren(ms, parent, AdoptingChildren(ms, m, parent)), adopted, parent) - DeletedIds(ms, m)
  }

  // ---------------------------------------------------------------------------------------
  // Where the current message ends up
  // ---------------------------------------------------------------------------------------

  /** Messages without a parent link, in dictionary order. */
  function Roots(ms: MessageMap, keys: seq<Id>): seq<Id> {
    Keep(keys, set x | x in ms && ms[x].Parent() == None)
  }

  /** Each step of the path goes to the last child. */
  ghost predicate LastChildPath(ms: MessageMap, path: seq<Id>) {
    && path != []
    && forall i, j | 0 <= i < j < |path| && j == i + 1 ::
         ChildrenOf(ms, path[i]) != [] && path[j] == ChildrenOf(ms, path[i])[|ChildrenOf(ms, path[i])| - 1]
  }

  /** The descent over last children that starts at `start` stops at `leaf`. */
  ghost predicate DescendsTo(ms: MessageMap, start: Id, leaf: Id) {
    exists path :: LastChildPath(ms, path) && path[0] == start && path[|path| - 1] == leaf && ChildrenOf(ms, leaf) == []
  }

  /** The descent's first message: the deleted message's parent, or else the last root. */
  function DescentStart(ms: MessageMap, keys: seq<Id>, parent: Option<Id>): Option<Id> {
    if parent.Some? then parent
    else if Roots(ms, keys) != [] then Some(Roots(ms, keys)[|Roots(ms, keys)| - 1])
    else None
  }

  ghost predicate CurrentAfterDelete(ms: MessageMap, keys: seq<Id>, parent: Option<Id>, current: Option<Id>) {
    match DescentStart(ms, keys, parent)
    case None => current == None
    case Some(start) =>
      exists leaf :: DescendsTo(ms, start, leaf) && current == if leaf in ms then Some(leaf) else None
  }

  /** `rank` bounds the descent: a stored last child has a smaller rank than its parent. */
  ghost predicate DescentRank(ms: MessageMap, rank: map<Id, nat>) {
    && rank.Keys == ms.Keys
    && forall x | x in ms && ms[x].Children() != [] ::
         var last := ms[x].Children()[|ms[x].Children()| - 1];
         last in ms ==> rank[last] < rank[x]
  }

  ghost predicate DescentTerminates(ms: MessageMap) {
    exists rank :: DescentRank(ms, rank)
  }

  // ---------------------------------------------------------------------------------------
  // Shape of the result, for a linked and acyclic history
  // ---------------------------------------------------------------------------------------

  ghost predicate IsGrandchild(ms: MessageMap, m: Id, g: Id) {
    g in ms && ms[g].Parent().Some? && HasParent(ms, ms[g].Parent().value, m)
  }

  /** In a linked history the stored children are all the children. */
  lemma StoredChildrenLinked(ms: MessageMap, p: Id)
    requires Linked(ms) && p in ms
    ensures StoredChildren(ms, p) == ms[p].Children() && NoDup(StoredChildren(ms, p))
    ensures forall c {:trigger HasParent(ms, c, p)} {:trigger c in StoredChildren(ms, p)} ::
              c in StoredChildren(ms, p) <==> HasParent(ms, c, p)
  {
    forall c
      ensures c in ms[p].Children() <==> HasParent(ms, c, p)
    {
      assert Lists(ms, p, c) <==> HasParent(ms, c, p);
    }
    KeepAll(ms[p].Children(), ms.Keys);
  }

  lemma {:induction false} GrandchildrenOf(ms: MessageMap, parents: seq<Id>)
    requires Linked(ms) && NoDup(parents)
    requires forall p | p in parents :: p in ms
    ensures NoDup(StoredGrandchildren(ms, parents))
    ensures forall g :: g in StoredGrandchildren(ms, parents) <==>
              g in ms && ms[g].Parent().Some? && ms[g].Parent().value in parents
  {
    if parents != [] {
      var p, rest := parents[0], parents[1..];
      GrandchildrenOf(ms, rest);
      StoredChildrenLinked(ms, p);
      forall g
        ensures g in StoredGrandchildren(ms, parents) <==>
                g in ms && ms[g].Parent().Some? && ms[g].Parent().value in parents
      {
        assert g in StoredChildren(ms, p) <==> HasParent(ms, g, p);
      }
      NoDupConcat(StoredChildren(ms, p), StoredGrandchildren(ms, rest));
    }
  }

  lemma AdoptedAreGrandchildren(ms: MessageMap, m: Id)
    requires Linked(ms) && m in ms
    ensures NoDup(AdoptedIds(ms, m))
    ensures forall g {:trigger IsGrandchild(ms, m, g)} {:trigger g in AdoptedIds(ms, m)} ::
              g in AdoptedIds(ms, m) <==> IsGrandchild(ms, m, g)
  {
    StoredChildrenLinked(ms, m);
    GrandchildrenOf(ms, StoredChildren(ms, m));
    forall g
      ensures g in AdoptedIds(ms, m) <==> IsGrandchild(ms, m, g)
    {
      if g in ms && ms[g].Parent().Some? {
        assert ms[g].Parent().value in StoredChildren(ms, m) <==> HasParent(ms, ms[g].Parent().value, m);
      }
    }
  }

  /** Every survivor keeps its record, except that grandchildren of `m` change parent and the
      parent of `m` trades `m` for those grandchildren. */
  lemma Survivor(ms: MessageMap, m: Id, x: Id)
    requires Linked(ms) && m in ms
    ensures x in Deleted(ms, m) <==> x in ms && x != m && !HasParent(ms, x, m)
    ensures x in Deleted(ms, m) ==>
              && Deleted(ms, m)[x].Parent() == (if IsGrandchild(ms, m, x) then ms[m].Parent() else ms[x].Parent())
              && Deleted(ms, m)[x].Children() ==
                 (if ms[m].Parent() == Some(x) then Drop(ms[x].Children(), {m}) + AdoptedIds(ms, m) else ms[x].Children())
  {
    StoredChildrenLinked(ms, m);
    AdoptedAreGrandchildren(ms, m);
    assert x in StoredChildren(ms, m) <==> HasParent(ms, x, m);
    assert x in AdoptedIds(ms, m) <==> IsGrandchild(ms, m, x);
  }

  /** The parent of a deleted message survives the deletion, and so do its grandchildren. */
  lemma RelativesSurvive(ms: MessageMap, m: Id, rank: map<Id, nat>, x: Id)
    requires Linked(ms) && Ranked(ms, rank) && m in ms
    requires x in ms && (HasParent(ms, m, x) || IsGrandchild(ms, m, x))
    ensures x in Deleted(ms, m) && !(HasParent(ms, m, x) && IsGrandchild(ms, m, x))
  {
    Survivor(ms, m, x);
    if HasParent(ms, m, x) {
      assert rank[x] < rank[m];
      assert !HasParent(ms, x, m);
    }
    if IsGrandchild(ms, m, x) {
      var c := ms[x].Parent().value;
      assert HasParent(ms, x, c) && HasParent(ms, c, m);
      assert rank[m] < rank[c] < rank[x];
      assert HasParent(ms, x, m) ==> c == m;
    }
  }

  /** Deletion keeps the links mutually inverse, at every pair. */
  lemma LinkAfterDelete(ms: MessageMap, m: Id, rank: map<Id, nat>, p: Id, c: Id)
    requires Linked(ms) && Ranked(ms, rank) && m in ms && p in Deleted(ms, m)
    ensures Lists(Deleted(ms, m), p, c) <==> HasParent(Deleted(ms, m), c, p)
  {
    Survivor(ms, m, p);
    Survivor(ms, m, c);
    AdoptedAreGrandchildren(ms, m);
    assert Lists(ms, p, c) <==> HasParent(ms, c, p);
    assert c in AdoptedIds(ms, m) <==> IsGrandchild(ms, m, c);
    if IsGrandchild(ms, m, c) {
      RelativesSurvive(ms, m, rank, c);
      assert !HasParent(ms, c, p);
    }
  }

  lemma DeleteKeepsLinked(ms: MessageMap, m: Id)
    requires Linked(ms) && Acyclic(ms) && m in ms
    ensures Linked(Deleted(ms, m))
  {
    var rank :| Ranked(ms, rank);
    var ms' := Deleted(ms, m);
    forall p, c | p in ms'
      ensures Lists(ms', p, c) <==> HasParent(ms', c, p)
    {
      LinkAfterDelete(ms, m, rank, p, c);
    }
    forall p | p in ms'
      ensures NoDup(ms'[p].Children())
    {
      Survivor(ms, m, p);
      if HasParent(ms, m, p) {
        AdoptedAreGrandchildren(ms, m);
        forall c | c in ms[p].Children()
          ensures c !in AdoptedIds(ms, m)
        {
          assert Lists(ms, p, c);
          assert c in AdoptedIds(ms, m) <==> IsGrandchild(ms, m, c);
        }
        NoDupConcat(Drop(ms[p].Children(), {m}), AdoptedIds(ms, m));
      }
    }
  }

  /** Deletion keeps the history acyclic: the old ranks still decrease towards the parents. */
  lemma DeleteKeepsAcyclic(ms: MessageMap, m: Id)
    requires Linked(ms) && Acyclic(ms) && m in ms
    ensures Acyclic(Deleted(ms, m))
  {
    var rank :| Ranked(ms, rank);
    var ms' := Deleted(ms, m);
    forall x | x in ms'
      ensures x in ms
    {
      Survivor(ms, m, x);
    }
    var rank' := map x | x in ms' :: rank[x];
    forall p, c | HasParent(ms', c, p) && p in ms'
      ensures rank'[p] < rank'[c]
    {
      Survivor(ms, m, c);
      if IsGrandchild(ms, m, c) {
        var q := ms[c].Parent().value;
        assert HasParent(ms, c, q) && HasParent(ms, q, m) && HasParent(ms, m, p);
      } else {
        assert HasParent(ms, c, p);
      }
    }
    assert Ranked(ms', rank');
  }

  lemma DeletedKeys(ms: MessageMap, m: Id)
    requires m in ms
    ensures Deleted(ms, m).Keys == ms.Keys - DeletedIds(ms, m)
  {
  }

  /** Deletion removes exactly the message and its direct children. */
  lemma DeleteRemovesExactly(ms: MessageMap, m: Id)
    requires Linked(ms) && Acyclic(ms) && m in ms
    ensures forall x :: x in Deleted(ms, m) <==> x in ms && x != m && !HasParent(ms, x, m)
    ensures |Deleted(ms, m)| == |ms| - 1 - |ms[m].Children()|
  {
    forall x
      ensures x in Deleted(ms, m) <==> x in ms && x != m && !HasParent(ms, x, m)
    {
      Survivor(ms, m, x);
    }
    DeletedKeys(ms, m);
    FamilySize(ms, m);
    DifferenceSize(ms.Keys, DeletedIds(ms, m));
  }

  lemma DifferenceSize(a: set<Id>, b: set<Id>)
    requires b <= a
    ensures |a - b| == |a| - |b|
  {
  }

  lemma FamilySize(ms: MessageMap, m: Id)
    requires Linked(ms) && Acyclic(ms) && m in ms
    ensures DeletedIds(ms, m) <= ms.Keys && |DeletedIds(ms, m)| == 1 + |ms[m].Children()|
  {
    var rank :| Ranked(ms, rank);
    StoredChildrenLinked(ms, m);
    NoDupSize(ms[m].Children());
    assert !HasParent(ms, m, m);
  }

  lemma DeleteKeepsNoDangling(ms: MessageMap, m: Id)
    requires Linked(ms) && Acyclic(ms) && m in ms && NoDangling(ms)
    ensures NoDangling(Deleted(ms, m))
  {
    var rank :| Ranked(ms, rank);
    var ms' := Deleted(ms, m);
    forall c | c in ms' && ms'[c].Parent().Some?
      ensures ms'[c].Parent().value in ms'
    {
      var p := ms'[c].Parent().value;
      Survivor(ms, m, c);
      Survivor(ms, m, p);
      if IsGrandchild(ms, m, c) {
        RelativesSurvive(ms, m, rank, p);
      } else {
        assert HasParent(ms, p, m) ==> IsGrandchild(ms, m, c);
      }
    }
  }

  // ---------------------------------------------------------------------------------------
  // Ancestors
  // ---------------------------------------------------------------------------------------

  lemma UpStep(ms: MessageMap, x: Id, p: Id, n: nat)
    requires HasParent(ms, x, p) && p in ms
    ensures Up(ms, x, n + 1) == Up(ms, p, n)
  {
  }

  /** The first link of a climb. */
  lemma UpFirst(ms: MessageMap, x: Id, n: nat, a: Id) returns (p: Id)
    requires n > 0 && Up(ms, x, n) == Some(a)
    ensures HasParent(ms, x, p) && p in ms && Up(ms, p, n - 1) == Some(a)
  {
    p := ms[x].Parent().value;
  }

  /** `ms'` is `ms` without `m` and its children, the grandchildren hanging below m's parent. */
  ghost predicate Spliced(ms: MessageMap, m: Id, ms': MessageMap) {
    && m in ms
    && (forall x :: x in ms' <==> x in ms && x != m && !HasParent(ms, x, m))
    && (forall x | x in ms' && x in ms :: ms'[x].Parent() == if IsGrandchild(ms, m, x) then ms[m].Parent() else ms[x].Parent())
  }

  lemma DeletedIsSpliced(ms: MessageMap, m: Id)
    requires Linked(ms) && m in ms
    ensures Spliced(ms, m, Deleted(ms, m))
  {
    forall x
      ensures x in Deleted(ms, m) <==> x in ms && x != m && !HasParent(ms, x, m)
      ensures x in Deleted(ms, m) ==>
                Deleted(ms, m)[x].Parent() == if IsGrandchild(ms, m, x) then ms[m].Parent() else ms[x].Parent()
    {
      Survivor(ms, m, x);
    }
  }

  /** A climb between survivors in the old history can be made in the new one. */
  lemma {:induction false} ClimbKept(ms: MessageMap, m: Id, ms': MessageMap, rank: map<Id, nat>, a: Id, b: Id, n: nat) returns (k: nat)
    requires Spliced(ms, m, ms') && Ranked(ms, rank) && a in ms' && b in ms'
    requires Up(ms, b, n) == Some(a)
    ensures Up(ms', b, k) == Some(a)
    ensures n > 0 ==> k > 0
    decreases n
  {
    if n == 0 {
      return 0;
    }
    var next, rest := ClimbHop(ms, m, ms', rank, a, b, n);
    var j := ClimbKept(ms, m, ms', rank, a, next, rest);
    UpStep(ms', b, next, j);
    k := j + 1;
  }

  /** The first link of such a climb: one link of the old history, or three where b is adopted. */
  lemma ClimbHop(ms: MessageMap, m: Id, ms': MessageMap, rank: map<Id, nat>, a: Id, b: Id, n: nat) returns (next: Id, rest: nat)
    requires Spliced(ms, m, ms') && Ranked(ms, rank) && a in ms' && b in ms'
    requires n > 0 && Up(ms, b, n) == Some(a)
    ensures rest < n && next in ms' && Up(ms, next, rest) == Some(a) && HasParent(ms', b, next)
  {
    var p := UpFirst(ms, b, n, a);
    if HasParent(ms, p, m) {
      assert IsGrandchild(ms, m, b);
      next, rest := AdoptedHop(ms, m, ms', rank, a, p, n - 1);
    } else {
      next, rest := p, n - 1;
    }
  }

  /** Two links further up than a deleted child that has a survivor above it. */
  lemma AdoptedHop(ms: MessageMap, m: Id, ms': MessageMap, rank: map<Id, nat>, a: Id, c: Id, n: nat) returns (next: Id, rest: nat)
    requires Spliced(ms, m, ms') && Ranked(ms, rank) && a in ms'
    requires HasParent(ms, c, m) && Up(ms, c, n) == Some(a)
    ensures rest < n && next in ms' && Up(ms, next, rest) == Some(a) && HasParent(ms, m, next)
  {
    var up := UpFirst(ms, c, n, a);
    next := UpFirst(ms, m, n - 1, a);
    rest := n - 2;
    assert rank[next] < rank[m];
  }

  /** One parent link of the new history was one link of the old one, or three. */
  lemma OriginalLinks(ms: MessageMap, m: Id, b: Id, p: Id)
    requires Linked(ms) && m in ms
    requires HasParent(Deleted(ms, m), b, p) && p in Deleted(ms, m)
    ensures p in ms
    ensures HasParent(ms, b, p) || (IsGrandchild(ms, m, b) && HasParent(ms, m, p))
  {
    Survivor(ms, m, b);
    Survivor(ms, m, p);
  }

  lemma OriginalStep(ms: MessageMap, m: Id, b: Id, p: Id, j: nat) returns (k: nat)
    requires m in ms && p in ms
    requires HasParent(ms, b, p) || (IsGrandchild(ms, m, b) && HasParent(ms, m, p))
    ensures k > 0 && Up(ms, b, k) == Up(ms, p, j)
  {
    if HasParent(ms, b, p) {
      UpStep(ms, b, p, j);
      k := j + 1;
    } else {
      var c := ms[b].Parent().value;
      UpStep(ms, m, p, j);
      UpStep(ms, c, m, j + 1);
      UpStep(ms, b, c, j + 2);
      k := j + 3;
    }
  }

  /** A climb in the new history was already there in the old one. */
  lemma {:induction false} ClimbOriginal(ms: MessageMap, m: Id, a: Id, b: Id, n: nat) returns (k: nat)
    requires Linked(ms) && m in ms
    requires b in Deleted(ms, m)
    requires Up(Deleted(ms, m), b, n) == Some(a)
    ensures Up(ms, b, k) == Some(a)
    ensures n > 0 ==> k > 0
    decreases n
  {
    if n == 0 {
      k := 0;
    } else {
      var p := UpFirst(Deleted(ms, m), b, n, a);
      var j := ClimbOriginal(ms, m, a, p, n - 1);
      OriginalLinks(ms, m, b, p);
      k := OriginalStep(ms, m, b, p, j);
    }
  }

  /** For two survivors, being a proper ancestor is unchanged by the deletion, both ways. */
  lemma DeleteKeepsAncestors(ms: MessageMap, m: Id, a: Id, b: Id)
    requires Linked(ms) && Acyclic(ms) && m in ms
    requires a in Deleted(ms, m) && b in Deleted(ms, m)
    ensures ProperAncestor(ms, a, b) <==> ProperAncestor(Deleted(ms, m), a, b)
  {
    var rank :| Ranked(ms, rank);
    if ProperAncestor(ms, a, b) {
      var n: nat :| n > 0 && Up(ms, b, n) == Some(a);
      DeletedIsSpliced(ms, m);
      var k := ClimbKept(ms, m, Deleted(ms, m), rank, a, b, n);
    }
    if ProperAncestor(Deleted(ms, m), a, b) {
      var n: nat :| n > 0 && Up(Deleted(ms, m), b, n) == Some(a);
      var k := ClimbOriginal(ms, m, a, b, n);
    }
  }
}
