/** The folder tree of a user: walking a subtree, and deleting one. */
module Folders {
  import opened Common

  type Id = string

  datatype Folder = Folder(user: string, parent: Option<Id>)

  type Table = map<Id, Folder>

  /** The row is a folder of the user directly below `p`. */
  predicate ChildOf(t: Table, user: string, p: Id, c: Id) {
    c in t && t[c].user == user && t[c].parent == Some(p)
  }

  /** The folder `n` parent links above `x`, along folders of the user. */
  ghost function Up(t: Table, user: string, x: Id, n: nat): Option<Id>
    decreases n
  {
    if n == 0 then Some(x)
    else if x in t && t[x].user == user && t[x].parent.Some? then Up(t, user, t[x].parent.value, n - 1)
    else None
  }

  /** `x` lies strictly below `p`. */
  ghost predicate Below(t: Table, user: string, p: Id, x: Id) {
    exists n: nat :: n > 0 && Up(t, user, x, n) == Some(p)
  }

  ghost predicate InSubtree(t: Table, user: string, p: Id, x: Id) {
    x == p || Below(t, user, p, x)
  }

  lemma UpNext(t: Table, user: string, x: Id, n: nat)
    requires x in t && t[x].user == user && t[x].parent.Some?
    ensures Up(t, user, x, n + 1) == Up(t, user, t[x].parent.value, n)
  {
  }

  lemma {:induction false} UpAdd(t: Table, user: string, x: Id, m: nat, n: nat)
    requires Up(t, user, x, m).Some?
    ensures Up(t, user, x, m + n) == Up(t, user, Up(t, user, x, m).value, n)
    decreases m
  {
    if m > 0 {
      UpAdd(t, user, t[x].parent.value, m - 1, n);
      UpNext(t, user, x, m + n - 1);
    }
  }

  lemma BelowTransitive(t: Table, user: string, a: Id, b: Id, c: Id)
    requires InSubtree(t, user, a, b) && InSubtree(t, user, b, c)
    ensures InSubtree(t, user, a, c)
    ensures (a != b && b != c) || Below(t, user, a, b) || Below(t, user, b, c) ==> Below(t, user, a, c)
  {
    if Below(t, user, a, b) && Below(t, user, b, c) {
      var m: nat :| m > 0 && Up(t, user, b, m) == Some(a);
      var n: nat :| n > 0 && Up(t, user, c, n) == Some(b);
      UpAdd(t, user, c, n, m);
    }
  }

  lemma ChildIsBelow(t: Table, user: string, p: Id, c: Id)
    requires ChildOf(t, user, p, c)
    ensures Below(t, user, p, c)
  {
    assert Up(t, user, c, 1) == Some(p);
  }

  /** Every folder strictly below `p` is a child of one in the subtree. */
  lemma BelowHasParent(t: Table, user: string, p: Id, x: Id)
    requires Below(t, user, p, x)
    ensures x in t && t[x].user == user && t[x].parent.Some? && InSubtree(t, user, p, t[x].parent.value)
  {
    var n: nat :| n > 0 && Up(t, user, x, n) == Some(p);
    if n > 1 {
      assert Up(t, user, t[x].parent.value, n - 1) == Some(p);
    }
  }

  /** The query for the children of a folder, in some order. */
  method Children(t: Table, user: string, p: Id) returns (r: seq<Id>)
    ensures NoDup(r) && forall c :: c in r <==> ChildOf(t, user, p, c)
  {
    r := [];
    var rest := t.Keys;
    while rest != {}
      invariant rest <= t.Keys && NoDup(r)
      invariant forall c :: c in r <==> ChildOf(t, user, p, c) && c !in rest
      decreases rest
    {
      var c :| c in rest;
      rest := rest - {c};
      if ChildOf(t, user, p, c) {
        r := r + [c];
      }
    }
  }

  // ---------------------------------------------------------------------------------------
  // The worklist walk
  // ---------------------------------------------------------------------------------------

  /** `found` lists the folders reached so far: those done, whose children are found too, and those
      waiting on the stack. */
  ghost predicate Walking(t: Table, user: string, root: Id, found: seq<Id>, stack: seq<Id>, done: set<Id>) {
    && NoDup(found) && NoDup(stack)
    && (forall x :: x in found <==> x in done || x in stack)
    && (forall x | x in done :: x !in stack)
    && (root in found && forall x | x in found :: x in t && InSubtree(t, user, root, x))
    && (forall p, c | p in done && ChildOf(t, user, p, c) :: c in found)
    && (forall x | x in found && x != root :: t[x].user == user && t[x].parent.Some? && t[x].parent.value in done)
  }

  /** A child of the folder taken from the stack was not found before, unless it is the root. */
  lemma ChildIsNew(t: Table, user: string, root: Id, found: seq<Id>, stack: seq<Id>, done: set<Id>, c: Id)
    requires Walking(t, user, root, found, stack, done) && stack != []
    requires ChildOf(t, user, stack[|stack| - 1], c) && !Below(t, user, root, root)
    ensures c !in found && InSubtree(t, user, root, c)
  {
    var p := stack[|stack| - 1];
    assert p in stack && p in found && p !in done;
    ChildIsBelow(t, user, p, c);
    BelowTransitive(t, user, root, p, c);
  }

  lemma WalkOne(t: Table, user: string, root: Id, found: seq<Id>, stack: seq<Id>, done: set<Id>, children: seq<Id>)
    requires Walking(t, user, root, found, stack, done) && stack != [] && !Below(t, user, root, root)
    requires NoDup(children) && forall c :: c in children <==> ChildOf(t, user, stack[|stack| - 1], c)
    ensures Walking(t, user, root, found + children, stack[..|stack| - 1] + children, done + {stack[|stack| - 1]})
  {
    var p, rest := stack[|stack| - 1], stack[..|stack| - 1];
    assert stack == rest + [p] && p in stack;
    forall c | c in children
      ensures c !in found && InSubtree(t, user, root, c)
    {
      ChildIsNew(t, user, root, found, stack, done, c);
    }
    NoDupConcat(found, children);
    forall x | x in rest
      ensures x in stack && x in found && x !in children && x != p
    {
      assert x in stack;
    }
    NoDupConcat(rest, children);
  }

  lemma WalkSize(t: Table, user: string, root: Id, found: seq<Id>, stack: seq<Id>, done: set<Id>)
    requires Walking(t, user, root, found, stack, done)
    ensures |found| <= |t|
  {
    NoDupSize(found);
    assert Elements(found) <= t.Keys;
    SubsetSize(Elements(found), t.Keys);
  }

  /** The walk's result: every folder of the subtree once. It ends because no folder is found twice,
      provided the root does not lie below itself. */
  method SubtreeIds(t: Table, user: string, root: Id) returns (found: seq<Id>)
    requires !Below(t, user, root, root)
    ensures !(root in t && t[root].user == user) ==> found == []
    ensures root in t && t[root].user == user ==>
              NoDup(found) && found != [] && found[0] == root && forall x :: x in found <==> InSubtree(t, user, root, x)
  {
    if !(root in t && t[root].user == user) {
      return [];
    }
    found := [root];
    var stack := [root];
    ghost var done := {};
    while stack != []
      invariant Walking(t, user, root, found, stack, done)
      invariant found != [] && found[0] == root && |found| <= |t|
      decreases |t| - |found|, |stack|
    {
      var p := stack[|stack| - 1];
      var children := Children(t, user, p);
      WalkOne(t, user, root, found, stack, done, children);
      found, stack, done := found + children, stack[..|stack| - 1] + children, done + {p};
      WalkSize(t, user, root, found, stack, done);
    }
    forall x | InSubtree(t, user, root, x)
      ensures x in found
    {
      SubtreeFound(t, user, root, found, done, x);
    }
  }

  /** Once the stack is empty, the whole subtree is found. */
  lemma SubtreeFound(t: Table, user: string, root: Id, found: seq<Id>, done: set<Id>, x: Id)
    requires Walking(t, user, root, found, [], done) && InSubtree(t, user, root, x)
    ensures x in found
  {
    if x != root {
      var n: nat :| n > 0 && Up(t, user, x, n) == Some(root);
      ClimbFound(t, user, root, found, done, x, n);
    }
  }

  lemma {:induction false} ClimbFound(t: Table, user: string, root: Id, found: seq<Id>, done: set<Id>, x: Id, n: nat)
    requires Walking(t, user, root, found, [], done) && Up(t, user, x, n) == Some(root)
    ensures x in found
    decreases n
  {
    if n > 0 {
      var p := t[x].parent.value;
      ClimbFound(t, user, root, found, done, p, n - 1);
      assert ChildOf(t, user, p, x);
    }
  }

  /** The root lies below itself exactly when the walk would meet it again as a child. */
  lemma RootMetAgainExactly(t: Table, user: string, root: Id)
    ensures Below(t, user, root, root) <==> exists p | InSubtree(t, user, root, p) :: ChildOf(t, user, p, root)
  {
    if Below(t, user, root, root) {
      BelowHasParent(t, user, root, root);
      assert ChildOf(t, user, t[root].parent.value, root);
    }
    if p :| InSubtree(t, user, root, p) && ChildOf(t, user, p, root) {
      ChildIsBelow(t, user, p, root);
      BelowTransitive(t, user, root, p, root);
    }
  }

  // ---------------------------------------------------------------------------------------
  // Recursion over children
  // ---------------------------------------------------------------------------------------

  ghost function BelowSet(t: Table, user: string, p: Id): set<Id> {
    set x | x in t && Below(t, user, p, x)
  }

  lemma ChildNotCyclic(t: Table, user: string, p: Id, c: Id)
    requires ChildOf(t, user, p, c) && !Below(t, user, p, p)
    ensures !Below(t, user, c, c) && !InSubtree(t, user, c, p)
    ensures BelowSet(t, user, c) < BelowSet(t, user, p)
  {
    ChildIsBelow(t, user, p, c);
    if InSubtree(t, user, c, p) {
      BelowTransitive(t, user, p, c, p);
    }
    if Below(t, user, c, c) {
      BelowHasParent(t, user, c, c);
    }
    forall x | x in BelowSet(t, user, c)
      ensures x in BelowSet(t, user, p)
    {
      BelowTransitive(t, user, p, c, x);
    }
    assert c in BelowSet(t, user, p) && c !in BelowSet(t, user, c);
  }

  /** A folder has one parent, so of two folders above it one lies above the other. */
  lemma {:induction false} AncestorsNested(t: Table, user: string, x: Id, m: nat, n: nat)
    requires m <= n && Up(t, user, x, m).Some? && Up(t, user, x, n).Some?
    ensures InSubtree(t, user, Up(t, user, x, n).value, Up(t, user, x, m).value)
  {
    UpAdd(t, user, x, m, n - m);
    var a := Up(t, user, x, m).value;
    assert Up(t, user, a, n - m) == Up(t, user, x, n);
  }

  /** The subtrees of two children of a folder share nothing. */
  lemma SiblingsDisjoint(t: Table, user: string, p: Id, c: Id, d: Id, x: Id)
    requires ChildOf(t, user, p, c) && ChildOf(t, user, p, d) && c != d && !Below(t, user, p, p)
    requires InSubtree(t, user, c, x)
    ensures !InSubtree(t, user, d, x)
  {
    if InSubtree(t, user, d, x) {
      var m: nat :| Up(t, user, x, m) == Some(c);
      var n: nat :| Up(t, user, x, n) == Some(d);
      if m <= n {
        AncestorsNested(t, user, x, m, n);
        BelowHasParent(t, user, d, c);
        ChildNotCyclic(t, user, p, d);
      } else {
        AncestorsNested(t, user, x, n, m);
        BelowHasParent(t, user, c, d);
        ChildNotCyclic(t, user, p, c);
      }
    }
  }

  /** Strictly below a folder are its children and what lies below them. */
  lemma BelowByChild(t: Table, user: string, p: Id, x: Id)
    ensures Below(t, user, p, x) <==> exists c | ChildOf(t, user, p, c) :: InSubtree(t, user, c, x)
  {
    if c :| ChildOf(t, user, p, c) && InSubtree(t, user, c, x) {
      ChildIsBelow(t, user, p, c);
      BelowTransitive(t, user, p, c, x);
    }
    if Below(t, user, p, x) {
      var n: nat :| n > 0 && Up(t, user, x, n) == Some(p);
      var c := LastStep(t, user, p, x, n);
    }
  }

  lemma {:induction false} LastStep(t: Table, user: string, p: Id, x: Id, n: nat) returns (c: Id)
    requires n > 0 && Up(t, user, x, n) == Some(p)
    ensures ChildOf(t, user, p, c) && InSubtree(t, user, c, x)
    decreases n
  {
    if n == 1 {
      c := x;
      assert Up(t, user, t[x].parent.value, 0) == Some(p);
    } else {
      var q := t[x].parent.value;
      c := LastStep(t, user, p, q, n - 1);
      assert ChildOf(t, user, q, x);
      ChildIsBelow(t, user, q, x);
      BelowTransitive(t, user, c, q, x);
    }
  }

  /** What the first children of `p` contribute. */
  ghost predicate InFirst(t: Table, user: string, children: seq<Id>, x: Id) {
    exists c | c in children :: InSubtree(t, user, c, x)
  }

  lemma InFirstSnoc(t: Table, user: string, children: seq<Id>, c: Id, x: Id)
    ensures InFirst(t, user, children + [c], x) <==> InFirst(t, user, children, x) || InSubtree(t, user, c, x)
  {
    assert forall d :: d in children + [c] <==> d in children || d == c;
  }

  lemma InFirstApart(t: Table, user: string, p: Id, children: seq<Id>, c: Id, x: Id)
    requires ChildOf(t, user, p, c) && c !in children && !Below(t, user, p, p)
    requires forall d | d in children :: ChildOf(t, user, p, d)
    requires InFirst(t, user, children, x)
    ensures !InSubtree(t, user, c, x)
  {
    var d :| d in children && InSubtree(t, user, d, x);
    SiblingsDisjoint(t, user, p, d, c, x);
  }

  lemma InFirstIsBelow(t: Table, user: string, p: Id, children: seq<Id>, x: Id)
    requires forall c :: c in children <==> ChildOf(t, user, p, c)
    ensures InFirst(t, user, children, x) <==> Below(t, user, p, x)
  {
    BelowByChild(t, user, p, x);
  }

  /** Everything below a listed folder is listed before it. */
  ghost predicate ChildrenFirst(t: Table, user: string, found: seq<Id>) {
    forall x, y | x in found && Below(t, user, x, y) :: Before(found, y, x)
  }

  /** Listing one more subtree, its root last, keeps children first. */
  lemma SubtreeAppended(t: Table, user: string, found: seq<Id>, below: seq<Id>, c: Id)
    requires ChildrenFirst(t, user, found) && ChildrenFirst(t, user, below)
    requires forall x :: x in below <==> Below(t, user, c, x)
    ensures ChildrenFirst(t, user, found + (below + [c]))
  {
    forall x, y | x in found + (below + [c]) && Below(t, user, x, y)
      ensures Before(found + (below + [c]), y, x)
    {
      BeforeConcat(found, below + [c], y, x);
      BeforeConcat(below, [c], y, x);
    }
  }

  /** The recursive walk: everything below a child comes before the child. */
  method CollectBelow(t: Table, user: string, p: Id) returns (found: seq<Id>)
    requires !Below(t, user, p, p)
    ensures NoDup(found) && forall x :: x in found <==> Below(t, user, p, x)
    ensures ChildrenFirst(t, user, found)
    decreases BelowSet(t, user, p)
  {
    var children := Children(t, user, p);
    found := [];
    for n := 0 to |children|
      invariant NoDup(found) && forall x :: x in found <==> InFirst(t, user, children[..n], x)
      invariant ChildrenFirst(t, user, found)
    {
      var c := children[n];
      assert c in children && children[..n + 1] == children[..n] + [c];
      assert c !in children[..n];
      ChildNotCyclic(t, user, p, c);
      var below := CollectBelow(t, user, c);
      forall x
        ensures InFirst(t, user, children[..n + 1], x) <==> InFirst(t, user, children[..n], x) || InSubtree(t, user, c, x)
        ensures InFirst(t, user, children[..n], x) ==> !InSubtree(t, user, c, x)
      {
        InFirstSnoc(t, user, children[..n], c, x);
        if InFirst(t, user, children[..n], x) {
          InFirstApart(t, user, p, children[..n], c, x);
        }
      }
      NoDupSnoc(below, c);
      NoDupConcat(found, below + [c]);
      SubtreeAppended(t, user, found, below, c);
      found := found + (below + [c]);
    }
    assert children[..|children|] == children;
    forall x
      ensures InFirst(t, user, children, x) <==> Below(t, user, p, x)
    {
      InFirstIsBelow(t, user, p, children, x);
    }
  }

  /** The folders below one of the user's folders, or none when the user has no such folder. */
  method ChildFolders(t: Table, user: string, id: Id) returns (found: Option<seq<Id>>)
    requires id in t && t[id].user == user ==> !Below(t, user, id, id)
    ensures found.Some? <==> id in t && t[id].user == user
    ensures found.Some? ==> NoDup(found.value) && forall x :: x in found.value <==> Below(t, user, id, x)
    ensures found.Some? ==> ChildrenFirst(t, user, found.value)
  {
    if id !in t || t[id].user != user {
      return None;
    }
    var below := CollectBelow(t, user, id);
    found := Some(below);
  }

  // ---------------------------------------------------------------------------------------
  // Deleting
  // ---------------------------------------------------------------------------------------

  /** `now` is `t` without some rows. */
  ghost predicate SubTable(now: Table, t: Table) {
    forall x | x in now :: x in t && now[x] == t[x]
  }

  lemma {:induction false} UpInSuper(now: Table, t: Table, user: string, x: Id, n: nat)
    requires SubTable(now, t) && Up(now, user, x, n).Some?
    ensures Up(t, user, x, n) == Up(now, user, x, n)
    decreases n
  {
    if n > 0 {
      UpInSuper(now, t, user, now[x].parent.value, n - 1);
    }
  }

  lemma {:induction false} UpKept(now: Table, t: Table, user: string, p: Id, x: Id, n: nat)
    requires SubTable(now, t) && Up(t, user, x, n) == Some(p)
    requires forall y | y in t && Below(t, user, p, y) :: y in now
    ensures Up(now, user, x, n) == Some(p)
    decreases n
  {
    if n > 0 {
      assert Below(t, user, p, x);
      UpKept(now, t, user, p, t[x].parent.value, n - 1);
    }
  }

  /** Removing rows outside a subtree leaves the subtree as it is. */
  lemma SubtreeUntouched(now: Table, t: Table, user: string, p: Id, x: Id)
    requires SubTable(now, t) && forall y | y in t && Below(t, user, p, y) :: y in now
    ensures Below(now, user, p, x) <==> Below(t, user, p, x)
  {
    if n: nat :| n > 0 && Up(t, user, x, n) == Some(p) {
      UpKept(now, t, user, p, x, n);
    }
    if n: nat :| n > 0 && Up(now, user, x, n) == Some(p) {
      UpInSuper(now, t, user, x, n);
    }
  }

  /** The table without the folders strictly below `p`. */
  ghost predicate WithoutBelow(t: Table, user: string, p: Id, now: Table) {
    SubTable(now, t) && forall x :: x in now <==> x in t && !Below(t, user, p, x)
  }

  /** Without the subtrees of the first children of `p`. */
  ghost predicate WithoutFirst(t: Table, user: string, children: seq<Id>, now: Table) {
    SubTable(now, t) && forall x :: x in now <==> x in t && !InFirst(t, user, children, x)
  }

  /** One child's turn in the deletion finds its subtree untouched. */
  lemma ChildStillThere(t: Table, user: string, p: Id, children: seq<Id>, c: Id, now: Table)
    requires ChildOf(t, user, p, c) && c !in children && !Below(t, user, p, p)
    requires forall d | d in children :: ChildOf(t, user, p, d)
    requires WithoutFirst(t, user, children, now)
    ensures c in now && !Below(now, user, c, c)
    ensures forall x :: Below(now, user, c, x) <==> Below(t, user, c, x)
    ensures BelowSet(now, user, c) < BelowSet(t, user, p)
    ensures forall y | y in t && InSubtree(t, user, c, y) :: y in now
  {
    forall y | y in t && InSubtree(t, user, c, y)
      ensures y in now
    {
      if InFirst(t, user, children, y) {
        InFirstApart(t, user, p, children, c, y);
      }
    }
    assert InSubtree(t, user, c, c);
    forall x
      ensures Below(now, user, c, x) <==> Below(t, user, c, x)
    {
      SubtreeUntouched(now, t, user, c, x);
    }
    ChildNotCyclic(t, user, p, c);
    forall x | x in BelowSet(t, user, c)
      ensures x in now
    {
      assert InSubtree(t, user, c, x);
    }
    assert BelowSet(now, user, c) == BelowSet(t, user, c);
  }

  /** The order of an untouched subtree is the same in both tables. */
  lemma SameOrder(t: Table, user: string, c: Id, now: Table, below: seq<Id>)
    requires SubTable(now, t) && forall y | y in t && InSubtree(t, user, c, y) :: y in now
    requires forall x :: x in below <==> Below(t, user, c, x)
    requires ChildrenFirst(now, user, below)
    ensures ChildrenFirst(t, user, below)
  {
    forall x, y | x in below && Below(t, user, x, y)
      ensures Before(below, y, x)
    {
      forall z | z in t && InSubtree(t, user, x, z)
        ensures z in now
      {
        BelowTransitive(t, user, c, x, z);
      }
      SubtreeUntouched(now, t, user, x, y);
    }
  }

  lemma AfterChild(t: Table, user: string, children: seq<Id>, c: Id, now: Table, after: Table)
    requires WithoutFirst(t, user, children, now) && WithoutBelow(now, user, c, after)
    requires forall x :: Below(now, user, c, x) <==> Below(t, user, c, x)
    ensures WithoutFirst(t, user, children + [c], after - {c})
  {
    forall x
      ensures InFirst(t, user, children + [c], x) <==> InFirst(t, user, children, x) || InSubtree(t, user, c, x)
    {
      InFirstSnoc(t, user, children, c, x);
    }
  }

  class FolderStore {
    var rows: Table

    constructor (rows: Table)
      ensures this.rows == rows
    {
      this.rows := rows;
    }

    /** Deletes everything strictly below `p`, children last. */
    method DeleteChildren(user: string, p: Id) returns (deleted: seq<Id>)
      requires !Below(rows, user, p, p)
      modifies this`rows
      ensures WithoutBelow(old(rows), user, p, rows)
      ensures NoDup(deleted) && forall x :: x in deleted <==> Below(old(rows), user, p, x)
      ensures ChildrenFirst(old(rows), user, deleted)
      decreases BelowSet(rows, user, p)
    {
      var children := Children(rows, user, p);
      deleted := [];
      for n := 0 to |children|
        invariant WithoutFirst(old(rows), user, children[..n], rows)
        invariant NoDup(deleted) && forall x :: x in deleted <==> InFirst(old(rows), user, children[..n], x)
        invariant ChildrenFirst(old(rows), user, deleted)
      {
        var c := children[n];
        assert c in children && children[..n + 1] == children[..n] + [c] && c !in children[..n];
        ChildStillThere(old(rows), user, p, children[..n], c, rows);
        ghost var now := rows;
        var below := DeleteChildren(user, c);
        AfterChild(old(rows), user, children[..n], c, now, rows);
        AddDeleted(old(rows), user, p, children[..n], c, deleted, below);
        SameOrder(old(rows), user, c, now, below);
        SubtreeAppended(old(rows), user, deleted, below, c);
        deleted := deleted + (below + [c]);
        rows := rows - {c};
      }
      assert children[..|children|] == children;
      forall x
        ensures InFirst(old(rows), user, children, x) <==> Below(old(rows), user, p, x)
      {
        InFirstIsBelow(old(rows), user, p, children, x);
      }
    }

    /** Deletes a folder of the user with its whole subtree. */
    method DeleteFolder(user: string, id: Id) returns (deleted: seq<Id>)
      requires !Below(rows, user, id, id)
      modifies this`rows
      ensures !(id in old(rows) && old(rows)[id].user == user) ==> deleted == [] && rows == old(rows)
      ensures id in old(rows) && old(rows)[id].user == user ==>
                && SubTable(rows, old(rows))
                && (forall x :: x in rows <==> x in old(rows) && !InSubtree(old(rows), user, id, x))
                && NoDup(deleted) && (forall x :: x in deleted <==> InSubtree(old(rows), user, id, x))
                && deleted != [] && deleted[0] == id && ChildrenFirst(old(rows), user, deleted[1..])
    {
      if !(id in rows && rows[id].user == user) {
        return [];
      }
      var below := DeleteChildren(user, id);
      rows := rows - {id};
      NoDupConcat([id], below);
      deleted := [id] + below;
    }
  }

  lemma AddDeleted(t: Table, user: string, p: Id, children: seq<Id>, c: Id, deleted: seq<Id>, below: seq<Id>)
    requires ChildOf(t, user, p, c) && c !in children && !Below(t, user, p, p)
    requires forall d | d in children :: ChildOf(t, user, p, d)
    requires NoDup(deleted) && forall x :: x in deleted <==> InFirst(t, user, children, x)
    requires NoDup(below) && forall x :: x in below <==> Below(t, user, c, x)
    ensures NoDup(deleted + (below + [c]))
    ensures forall x :: x in deleted + (below + [c]) <==> InFirst(t, user, children + [c], x)
  {
    ChildNotCyclic(t, user, p, c);
    forall x
      ensures InFirst(t, user, children + [c], x) <==> InFirst(t, user, children, x) || InSubtree(t, user, c, x)
      ensures x in deleted ==> x !in below && x != c
    {
      InFirstSnoc(t, user, children, c, x);
      if InFirst(t, user, children, x) {
        InFirstApart(t, user, p, children, c, x);
      }
    }
    NoDupSnoc(below, c);
    NoDupConcat(deleted, below + [c]);
  }

  /** After a deletion no folder of the user points at a deleted one. */
  lemma NobodyPointsIntoDeleted(t: Table, user: string, id: Id, now: Table, x: Id)
    requires SubTable(now, t) && forall y :: y in now <==> y in t && !InSubtree(t, user, id, y)
    requires x in now && now[x].user == user && now[x].parent.Some?
    ensures !InSubtree(t, user, id, now[x].parent.value)
  {
    var p := now[x].parent.value;
    if InSubtree(t, user, id, p) {
      ChildIsBelow(t, user, p, x);
      BelowTransitive(t, user, id, p, x);
    }
  }

  /** The two walks agree: the worklist's result is the root and exactly what the recursion returns. */
  lemma WalksAgree(t: Table, user: string, root: Id, ids: seq<Id>, below: seq<Id>)
    requires !Below(t, user, root, root)
    requires NoDup(ids) && forall x :: x in ids <==> InSubtree(t, user, root, x)
    requires NoDup(below) && forall x :: x in below <==> Below(t, user, root, x)
    ensures Elements(ids) == {root} + Elements(below) && root !in below && |ids| == 1 + |below|
  {
    NoDupSize(ids);
    NoDupSize(below);
    assert Elements(ids) == {root} + Elements(below);
  }
}
