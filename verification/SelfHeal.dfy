/** Reading a chat's message map repairs its rows: parents that the rows name but lack are written
    from the embedded history, so that repeated reads close the gaps. */
module SelfHeal {
  import opened Common
  import opened Messages
  import opened MirrorTable
  import opened MirrorRebuild
  import opened MirrorContents

  /** The message ids of the chat's rows. */
  function Ids(t: Table, chat: string): set<Id> {
    set k | k in t && t[k].chatId == chat :: MessageId(chat, k)
  }

  lemma IdsAreKeys(t: Table, chat: string, x: Id)
    requires OwnRows(t, chat)
    ensures x in Ids(t, chat) <==> RowKey(chat, x) in t
  {
    KeyHasPrefix(chat, x);
    if RowKey(chat, x) in t {
      assert MessageId(chat, RowKey(chat, x)) == x;
    }
    if x in Ids(t, chat) {
      var k :| k in t && t[k].chatId == chat && MessageId(chat, k) == x;
      assert Prefix(chat) <= k;
      assert k == RowKey(chat, x);
    }
  }

  /** Parent ids named by messages but absent from the map. */
  function UnresolvedParents(ms: MessageMap): set<Id> {
    set x | x in ms && ms[x].Parent().Some? && ms[x].Parent().value != "" && ms[x].Parent().value !in ms
      :: ms[x].Parent().value
  }

  /** The unresolved parents the history holds. */
  function Missing(ms: MessageMap, h: MessageMap): set<Id> {
    set x | x in UnresolvedParents(ms) && x in h
  }

  function MissingMessages(ms: MessageMap, h: MessageMap): MessageMap {
    map x | x in Missing(ms, h) :: h[x]
  }

  ghost predicate Names(t: Table, chat: string, y: Id, x: Id) {
    RowKey(chat, y) in t && t[RowKey(chat, y)].parent == Some(x)
  }

  predicate Supplies(h: MessageMap, x: Id) {
    x in h && h[x].Role() != ""
  }

  /** What a read can write: with no rows at all, every message of the history that has a role;
      otherwise those that some row names as parent and no row holds. */
  ghost predicate Fillable(t: Table, chat: string, h: MessageMap, x: Id) {
    && Supplies(h, x)
    && if Ids(t, chat) == {} then true
       else x != "" && RowKey(chat, x) !in t && exists y :: Names(t, chat, y, x)
  }

  ghost function FillSet(t: Table, chat: string, h: MessageMap): set<Id> {
    set x | x in h && Fillable(t, chat, h, x)
  }

  /** `t2` is `t1` with rows for exactly the messages `xs` of `h` added, which hold them. */
  ghost predicate Adds(t1: Table, t2: Table, chat: string, h: MessageMap, xs: set<Id>) {
    && OwnRows(t2, chat)
    && (forall k | k in t1 :: k in t2 && t2[k] == t1[k])
    && (forall x :: RowKey(chat, x) in t2 <==> RowKey(chat, x) in t1 || x in xs)
    && (forall k | k in t2 && t2[k].chatId != chat :: k in t1)
    && (forall x | x in xs :: x in h && RowKey(chat, x) in t2 && t2[RowKey(chat, x)].parent == h[x].Parent())
    && (forall x | x in xs :: x in h && RowKey(chat, x) in t2 && RowHolds(t2[RowKey(chat, x)], h[x]))
  }

  /** One self-healing read. */
  ghost predicate Read(t: Table, chat: string, h: MessageMap, t': Table) {
    Adds(t, t', chat, h, FillSet(t, chat, h))
  }

  // ---------------------------------------------------------------------------------------
  // The read
  // ---------------------------------------------------------------------------------------

  lemma {:induction false} BackfillKeeps(t: Table, chat: string, h: MessageMap, keys: seq<Id>, k: string)
    requires k in t && forall x | x in keys :: RowKey(chat, x) !in t
    ensures k in Backfilled(t, chat, h, keys) && Backfilled(t, chat, h, keys)[k] == t[k]
    decreases |keys|
  {
    var n := |keys|;
    if n > 0 {
      BackfillSnoc(t, chat, h, keys[..n - 1], keys[n - 1]);
      assert keys[..n - 1] + [keys[n - 1]] == keys;
      BackfillKeeps(t, chat, h, keys[..n - 1], k);
    }
  }

  lemma {:induction false} BackfillOthers(t: Table, chat: string, h: MessageMap, keys: seq<Id>, k: string)
    requires OwnRows(t, chat) && k in Backfilled(t, chat, h, keys) && Backfilled(t, chat, h, keys)[k].chatId != chat
    ensures k in t
    decreases |keys|
  {
    if keys != [] {
      var next := if Supplies(h, keys[0]) then UpsertRow(t, chat, keys[0], h[keys[0]]) else t;
      if Supplies(h, keys[0]) {
        UpsertRowOwn(t, chat, keys[0], h[keys[0]]);
      }
      BackfillOthers(next, chat, h, keys[1..], k);
      if k == RowKey(chat, keys[0]) {
        KeyHasPrefix(chat, keys[0]);
        BackfillOwn(t, chat, h, keys);
      }
    }
  }

  lemma {:induction false} BackfillSnoc(t: Table, chat: string, h: MessageMap, keys: seq<Id>, x: Id)
    ensures Backfilled(t, chat, h, keys + [x]) ==
            if Supplies(h, x) then UpsertRow(Backfilled(t, chat, h, keys), chat, x, h[x]) else Backfilled(t, chat, h, keys)
    decreases |keys|
  {
    if keys == [] {
      assert [x][1..] == [];
    } else {
      assert (keys + [x])[1..] == keys[1..] + [x];
      var next := if Supplies(h, keys[0]) then UpsertRow(t, chat, keys[0], h[keys[0]]) else t;
      BackfillSnoc(next, chat, h, keys[1..], x);
    }
  }

  /** Backfilling absent messages adds the rows of those with a role. */
  lemma BackfillAdds(t: Table, chat: string, h: MessageMap, keys: seq<Id>, xs: set<Id>)
    requires OwnRows(t, chat)
    requires forall x | x in keys :: RowKey(chat, x) !in t
    requires forall x :: x in xs <==> x in keys && Supplies(h, x)
    ensures Adds(t, Backfilled(t, chat, h, keys), chat, h, xs)
  {
    BackfillOwn(t, chat, h, keys);
    var t' := Backfilled(t, chat, h, keys);
    forall k | k in t
      ensures k in t' && t'[k] == t[k]
    {
      BackfillKeeps(t, chat, h, keys, k);
    }
    forall x
      ensures RowKey(chat, x) in t' <==> RowKey(chat, x) in t || x in xs
      ensures x in xs ==> RowKey(chat, x) in t' && t'[RowKey(chat, x)].parent == h[x].Parent()
      ensures x in xs ==> RowHolds(t'[RowKey(chat, x)], h[x])
    {
      BackfillRow(t, chat, h, keys, x);
      if x in xs {
        BackfillMakesHeld(t, chat, h, keys, x);
      }
    }
    forall k | k in t' && t'[k].chatId != chat
      ensures k in t
    {
      BackfillOthers(t, chat, h, keys, k);
    }
  }

  /** Some order of the elements of a set. */
  method SomeOrder(s: set<Id>) returns (r: seq<Id>)
    ensures forall x :: x in r <==> x in s
  {
    r := [];
    var rest := s;
    while rest != {}
      invariant forall x :: x in s <==> x in r || x in rest
      decreases rest
    {
      var x :| x in rest;
      r := r + [x];
      rest := rest - {x};
    }
  }

  /** The rows name an id as parent exactly when the rebuilt map does. */
  lemma RebuiltNames(t: Table, chat: string, rows: seq<(string, Row)>, base: MessageMap)
    requires OwnRows(t, chat) && Answers(rows, t, chat) && IsBase(base, chat, rows)
    ensures forall x :: x in base <==> RowKey(chat, x) in t
    ensures forall x, y :: x in base && base[x].Parent() == Some(y) <==> Names(t, chat, x, y)
  {
    RowIdsDistinct(t, chat, rows);
    var ids := RowIds(chat, rows);
    forall x
      ensures x in base <==> RowKey(chat, x) in t
      ensures x in base ==> base[x].Parent() == t[RowKey(chat, x)].parent
    {
      KeyHasPrefix(chat, x);
      if RowKey(chat, x) in t {
        var i :| 0 <= i < |rows| && rows[i].0 == RowKey(chat, x);
        RowKeyInjective(chat, x, ids[i]);
        assert ids[i] in Elements(ids);
      }
      if x in base {
        assert x in Elements(ids);
        var i :| 0 <= i < |ids| && ids[i] == x;
        assert base[ids[i]] == RowMessage(chat, rows[i]) && rows[i].0 == RowKey(chat, x);
      }
    }
  }

  /** The returned map has every message with a row, and, as the history has it, every message of
      the history that some row names as parent and no row holds; and nothing else. */
  lemma ReturnedMap(t: Table, chat: string, rows: seq<(string, Row)>, h: MessageMap, base: MessageMap, x: Id)
    requires OwnRows(t, chat) && Answers(rows, t, chat) && IsBase(base, chat, rows)
    ensures var r := FullyLinked(base, RowIds(chat, rows)) + MissingMessages(base, h);
            && (x in r <==> RowKey(chat, x) in t || (x in h && x != "" && exists y :: Names(t, chat, y, x)))
            && (RowKey(chat, x) in t ==> x in r && r[x].Parent() == t[RowKey(chat, x)].parent)
            && (x in r && RowKey(chat, x) !in t ==> r[x] == h[x])
  {
    MissingNamed(t, chat, rows, h, base, x);
    EnrichedAt(base, RowIds(chat, rows), h, x);
    if x in base {
      RowParent(t, chat, rows, base, x);
    }
  }

  lemma EnrichedAt(base: MessageMap, ids: seq<Id>, h: MessageMap, x: Id)
    ensures var r := FullyLinked(base, ids) + MissingMessages(base, h);
            && (x in r <==> x in base || x in Missing(base, h))
            && (x in base ==> r[x].Parent() == base[x].Parent())
            && (x in r && x !in base ==> r[x] == h[x])
  {
    FullParents(base, ids);
  }

  lemma UnresolvedIs(ms: MessageMap, x: Id)
    ensures x in UnresolvedParents(ms) <==> x !in ms && x != "" && exists y :: HasParent(ms, y, x)
  {
    if y :| HasParent(ms, y, x) {
      assert y in ms;
    }
    if x in UnresolvedParents(ms) {
      var y :| y in ms && ms[y].Parent() == Some(x);
      assert HasParent(ms, y, x);
    }
  }

  lemma NamedAt(t: Table, chat: string, rows: seq<(string, Row)>, base: MessageMap, y: Id, x: Id)
    requires OwnRows(t, chat) && Answers(rows, t, chat) && IsBase(base, chat, rows)
    ensures y in base <==> RowKey(chat, y) in t
    ensures HasParent(base, y, x) <==> Names(t, chat, y, x)
  {
    RebuiltNames(t, chat, rows, base);
  }

  lemma NamedByRow(t: Table, chat: string, rows: seq<(string, Row)>, base: MessageMap, x: Id)
    requires OwnRows(t, chat) && Answers(rows, t, chat) && IsBase(base, chat, rows)
    ensures x in base <==> RowKey(chat, x) in t
    ensures (exists y :: HasParent(base, y, x)) <==> exists y :: Names(t, chat, y, x)
  {
    NamedAt(t, chat, rows, base, x, x);
    if y :| HasParent(base, y, x) {
      NamedAt(t, chat, rows, base, y, x);
    }
    if y :| Names(t, chat, y, x) {
      NamedAt(t, chat, rows, base, y, x);
    }
  }

  lemma MissingNamed(t: Table, chat: string, rows: seq<(string, Row)>, h: MessageMap, base: MessageMap, x: Id)
    requires OwnRows(t, chat) && Answers(rows, t, chat) && IsBase(base, chat, rows)
    ensures x in base <==> RowKey(chat, x) in t
    ensures x in Missing(base, h) <==> RowKey(chat, x) !in t && x in h && x != "" && exists y :: Names(t, chat, y, x)
  {
    NamedByRow(t, chat, rows, base, x);
    UnresolvedIs(base, x);
  }

  lemma RowParent(t: Table, chat: string, rows: seq<(string, Row)>, base: MessageMap, x: Id)
    requires OwnRows(t, chat) && Answers(rows, t, chat) && IsBase(base, chat, rows) && x in base
    ensures RowKey(chat, x) in t && base[x].Parent() == t[RowKey(chat, x)].parent
  {
    RebuiltNames(t, chat, rows, base);
    var p := t[RowKey(chat, x)].parent;
    if p.Some? {
      assert Names(t, chat, x, p.value);
    } else if base[x].Parent().Some? {
      assert Names(t, chat, x, base[x].Parent().value);
    }
  }

  /** Writes the missing messages, in whatever order the set yields them. */
  method FillGaps(t: Table, chat: string, h: MessageMap, missing: set<Id>, ghost xs: set<Id>) returns (t': Table)
    requires OwnRows(t, chat)
    requires forall x | x in missing :: RowKey(chat, x) !in t
    requires forall x :: x in xs <==> x in missing && Supplies(h, x)
    ensures Adds(t, t', chat, h, xs)
  {
    var order := SomeOrder(missing);
    t' := Backfill(t, chat, h, order);
    BackfillAdds(t, chat, h, order, xs);
  }

  /** The map for walking the history, and the rows after healing. `rows` is the query's answer. */
  method GetMessagesMap(t: Table, chat: string, rows: seq<(string, Row)>, h: MessageMap, keys: seq<Id>)
    returns (r: MessageMap, t': Table, ghost base: MessageMap)
    requires OwnRows(t, chat) && Answers(rows, t, chat) && Keyed(h, keys)
    ensures Read(t, chat, h, t')
    ensures rows == [] ==> r == h
    ensures rows != [] ==>
              && IsBase(base, chat, rows)
              && r == FullyLinked(base, RowIds(chat, rows)) + MissingMessages(base, h)
  {
    RowIdsDistinct(t, chat, rows);
    NoRows(t, chat, rows);
    var found;
    found, base := RebuildMap(chat, rows);
    if found == None {
      r := h;
      t' := Backfill(t, chat, h, keys);
      AllFill(t, chat, h, keys);
    } else {
      SameUnresolved(base, RowIds(chat, rows));
      assert Missing(found.value, h) == Missing(base, h);
      GapFacts(t, chat, rows, h, base);
      r, t' := Enrich(t, chat, h, found.value);
    }
  }

  /** Adds the missing messages of the history to the rebuilt map and writes them. */
  method Enrich(t: Table, chat: string, h: MessageMap, full: MessageMap) returns (r: MessageMap, t': Table)
    requires OwnRows(t, chat)
    requires forall x | x in Missing(full, h) :: RowKey(chat, x) !in t
    requires forall x :: x in FillSet(t, chat, h) <==> x in Missing(full, h) && Supplies(h, x)
    ensures Read(t, chat, h, t')
    ensures r == full + MissingMessages(full, h)
  {
    var missing := Missing(full, h);
    r, t' := full, t;
    if missing == {} {
      assert MissingMessages(full, h) == map[];
      NothingToAdd(t, chat, h);
    } else {
      r := full + MissingMessages(full, h);
      t' := FillGaps(t, chat, h, missing, FillSet(t, chat, h));
    }
  }

  lemma GapFacts(t: Table, chat: string, rows: seq<(string, Row)>, h: MessageMap, base: MessageMap)
    requires OwnRows(t, chat) && Answers(rows, t, chat) && IsBase(base, chat, rows) && rows != []
    ensures forall x | x in Missing(base, h) :: RowKey(chat, x) !in t
    ensures forall x :: x in FillSet(t, chat, h) <==> x in Missing(base, h) && Supplies(h, x)
  {
    UnresolvedFill(t, chat, rows, h, base);
  }

  lemma NothingToAdd(t: Table, chat: string, h: MessageMap)
    requires OwnRows(t, chat) && forall x :: x !in FillSet(t, chat, h)
    ensures Read(t, chat, h, t)
  {
  }

  /** Without rows the whole history is written. */
  lemma AllFill(t: Table, chat: string, h: MessageMap, keys: seq<Id>)
    requires OwnRows(t, chat) && Keyed(h, keys) && Ids(t, chat) == {}
    ensures Read(t, chat, h, Backfilled(t, chat, h, keys))
  {
    assert forall x :: x in keys <==> x in Elements(keys);
    forall x
      ensures RowKey(chat, x) !in t
    {
      IdsAreKeys(t, chat, x);
    }
    BackfillAdds(t, chat, h, keys, FillSet(t, chat, h));
  }

  lemma NoRows(t: Table, chat: string, rows: seq<(string, Row)>)
    requires OwnRows(t, chat) && Answers(rows, t, chat)
    ensures rows == [] <==> Ids(t, chat) == {}
    ensures rows == [] ==> forall x :: RowKey(chat, x) !in t
  {
    if rows == [] {
      forall x
        ensures RowKey(chat, x) !in t
      {
        KeyHasPrefix(chat, x);
      }
    } else {
      assert rows[0].0 in t && MessageId(chat, rows[0].0) in Ids(t, chat);
    }
  }

  lemma SameUnresolved(base: MessageMap, ids: seq<Id>)
    ensures UnresolvedParents(FullyLinked(base, ids)) == UnresolvedParents(base)
  {
    var full := FullyLinked(base, ids);
    assert forall x | x in base :: full[x].Parent() == base[x].Parent();
    forall x | x in UnresolvedParents(base)
      ensures x in UnresolvedParents(full)
    {
      var y :| y in base && base[y].Parent() == Some(x);
      assert full[y].Parent() == Some(x);
    }
  }

  lemma UnresolvedFill(t: Table, chat: string, rows: seq<(string, Row)>, h: MessageMap, base: MessageMap)
    requires OwnRows(t, chat) && Answers(rows, t, chat) && IsBase(base, chat, rows) && rows != []
    ensures forall x :: x in FillSet(t, chat, h) <==> x in UnresolvedParents(base) && Supplies(h, x)
    ensures forall x | x in UnresolvedParents(base) :: RowKey(chat, x) !in t
  {
    NoRows(t, chat, rows);
    RebuiltNames(t, chat, rows, base);
    forall x
      ensures x in UnresolvedParents(base) <==> x != "" && RowKey(chat, x) !in t && exists y :: Names(t, chat, y, x)
    {
      if y :| Names(t, chat, y, x) {
        assert y in base && base[y].Parent() == Some(x);
      }
      if x in UnresolvedParents(base) {
        var y :| y in base && base[y].Parent() == Some(x);
        assert Names(t, chat, y, x);
      }
    }
  }

  // ---------------------------------------------------------------------------------------
  // Repeated reads
  // ---------------------------------------------------------------------------------------

  ghost predicate Reads(states: seq<Table>, chat: string, h: MessageMap) {
    && states != []
    && OwnRows(states[0], chat)
    && forall i, j | 0 <= i < j < |states| && j == i + 1 :: Read(states[i], chat, h, states[j])
  }

  /** History messages without a row. */
  ghost function Unwritten(t: Table, chat: string, h: MessageMap): set<Id> {
    set x | x in h && RowKey(chat, x) !in t
  }

  /** While a named parent can still be supplied, a read strictly shrinks the set of history
      messages without a row; otherwise it changes nothing. */
  lemma ReadShrinks(t: Table, chat: string, h: MessageMap, t': Table)
    requires OwnRows(t, chat) && Read(t, chat, h, t')
    ensures forall x :: x in Unwritten(t', chat, h) <==> x in Unwritten(t, chat, h) && x !in FillSet(t, chat, h)
    ensures FillSet(t, chat, h) != {} ==> |Unwritten(t', chat, h)| < |Unwritten(t, chat, h)|
    ensures FillSet(t, chat, h) == {} ==> t' == t
  {
    FillIsUnwritten(t, chat, h);
    if FillSet(t, chat, h) == {} {
      SameTable(t, t', chat, h);
    } else {
      var x :| x in FillSet(t, chat, h);
      assert x in Unwritten(t, chat, h) && x !in Unwritten(t', chat, h);
      SubsetSize(Unwritten(t', chat, h), Unwritten(t, chat, h) - {x});
    }
  }

  lemma FillIsUnwritten(t: Table, chat: string, h: MessageMap)
    requires OwnRows(t, chat)
    ensures FillSet(t, chat, h) <= Unwritten(t, chat, h)
  {
    forall x | x in FillSet(t, chat, h)
      ensures x in Unwritten(t, chat, h)
    {
      IdsAreKeys(t, chat, x);
    }
  }

  lemma SameTable(t: Table, t': Table, chat: string, h: MessageMap)
    requires OwnRows(t, chat) && Adds(t, t', chat, h, {})
    ensures t' == t
  {
    forall k | k in t'
      ensures k in t
    {
      if t'[k].chatId == chat {
        assert Prefix(chat) <= k;
        assert k == RowKey(chat, k[|Prefix(chat)|..]);
      }
    }
  }

  lemma {:induction false} ReadsOwn(states: seq<Table>, chat: string, h: MessageMap, i: nat)
    requires Reads(states, chat, h) && i < |states|
    ensures OwnRows(states[i], chat)
  {
    if i > 0 {
      ReadsOwn(states, chat, h, i - 1);
      assert Read(states[i - 1], chat, h, states[i]);
    }
  }

  lemma {:induction false} ReadsShrink(states: seq<Table>, chat: string, h: MessageMap, i: nat)
    requires Reads(states, chat, h) && i < |states|
    ensures FillSet(states[i], chat, h) == {} || |Unwritten(states[i], chat, h)| + i <= |Unwritten(states[0], chat, h)|
  {
    if i > 0 {
      ReadsShrink(states, chat, h, i - 1);
      ReadsOwn(states, chat, h, i - 1);
      assert Read(states[i - 1], chat, h, states[i]);
      ReadShrinks(states[i - 1], chat, h, states[i]);
    }
  }

  /** Repeated reads converge: after as many reads as the history has messages without a row, no
      parent is left that the history could supply, and every later read changes nothing. */
  lemma ReadsConverge(states: seq<Table>, chat: string, h: MessageMap, i: nat, j: nat)
    requires Reads(states, chat, h) && |Unwritten(states[0], chat, h)| <= i <= j < |states|
    ensures FillSet(states[i], chat, h) == {}
    ensures states[j] == states[i]
    decreases j
  {
    AllFilled(states, chat, h, i);
    if i < j {
      ReadsConverge(states, chat, h, i, j - 1);
      NothingMore(states, chat, h, j - 1);
    }
  }

  lemma AllFilled(states: seq<Table>, chat: string, h: MessageMap, i: nat)
    requires Reads(states, chat, h) && |Unwritten(states[0], chat, h)| <= i < |states|
    ensures FillSet(states[i], chat, h) == {}
  {
    ReadsShrink(states, chat, h, i);
    ReadsOwn(states, chat, h, i);
    FillIsUnwritten(states[i], chat, h);
  }

  lemma NothingMore(states: seq<Table>, chat: string, h: MessageMap, i: nat)
    requires Reads(states, chat, h) && i + 1 < |states| && FillSet(states[i], chat, h) == {}
    ensures states[i + 1] == states[i]
  {
    ReadsOwn(states, chat, h, i);
    ReadShrinks(states[i], chat, h, states[i + 1]);
  }

  // ---------------------------------------------------------------------------------------
  // What the rows converge to
  // ---------------------------------------------------------------------------------------

  /** The parent of a message as the rows see it: its own row's parent, or the history's once the
      row has to come from there. */
  ghost function ParentSeen(t: Table, chat: string, h: MessageMap, x: Id): Option<Id> {
    if RowKey(chat, x) in t then t[RowKey(chat, x)].parent else if x in h then h[x].Parent() else None
  }

  /** A chain of parents that starts at a row and then only meets messages that have no row and
      that the history can supply. */
  ghost predicate Lineage(t: Table, chat: string, h: MessageMap, path: seq<Id>) {
    && path != []
    && RowKey(chat, path[0]) in t
    && forall i, j | 0 <= i < j < |path| && j == i + 1 :: LineageStep(t, chat, h, path[i], path[j])
  }

  ghost predicate LineageStep(t: Table, chat: string, h: MessageMap, y: Id, x: Id) {
    ParentSeen(t, chat, h, y) == Some(x) && x != "" && RowKey(chat, x) !in t && Supplies(h, x)
  }

  lemma LineageSnoc(t: Table, chat: string, h: MessageMap, path: seq<Id>, x: Id)
    requires path != []
    ensures Lineage(t, chat, h, path + [x]) <==> Lineage(t, chat, h, path) && LineageStep(t, chat, h, path[|path| - 1], x)
  {
    var longer := path + [x];
    assert forall i | 0 <= i < |path| :: longer[i] == path[i];
    assert longer[|path|] == x;
    if Lineage(t, chat, h, longer) {
      assert LineageStep(t, chat, h, longer[|path| - 1], longer[|path|]);
      forall i, j | 0 <= i < j < |path| && j == i + 1
        ensures LineageStep(t, chat, h, path[i], path[j])
      {
        assert LineageStep(t, chat, h, longer[i], longer[j]);
      }
    }
  }

  /** Rows present from the start stay as they were; later ones carry the history's parent. */
  lemma {:induction false} RowsSoFar(states: seq<Table>, chat: string, h: MessageMap, i: nat, x: Id)
    requires Reads(states, chat, h) && i < |states|
    ensures RowKey(chat, x) in states[0] ==> RowKey(chat, x) in states[i]
    ensures RowKey(chat, x) in states[i] ==> states[i][RowKey(chat, x)].parent == ParentSeen(states[0], chat, h, x)
    ensures RowKey(chat, x) in states[i] && RowKey(chat, x) !in states[0] ==> Supplies(h, x)
  {
    if i > 0 {
      RowsSoFar(states, chat, h, i - 1, x);
      assert Read(states[i - 1], chat, h, states[i]);
    }
  }

  /** Each message of a lineage has its row after as many reads as there are steps to it. */
  lemma {:induction false} LineageWritten(states: seq<Table>, chat: string, h: MessageMap, path: seq<Id>, i: nat)
    requires Reads(states, chat, h) && Lineage(states[0], chat, h, path) && |path| <= i + 1 && i < |states|
    ensures RowKey(chat, path[|path| - 1]) in states[i]
    decreases |path|
  {
    var n := |path|;
    if n == 1 {
      RowsSoFar(states, chat, h, i, path[0]);
    } else {
      var before, x := path[..n - 1], path[n - 1];
      assert path == before + [x];
      LineageSnoc(states[0], chat, h, before, x);
      LineageWritten(states, chat, h, before, i - 1);
      ReadOneStep(states, chat, h, i - 1, before[n - 2], x);
    }
  }

  lemma ReadOneStep(states: seq<Table>, chat: string, h: MessageMap, i: nat, y: Id, x: Id)
    requires Reads(states, chat, h) && i + 1 < |states|
    requires RowKey(chat, y) in states[i] && LineageStep(states[0], chat, h, y, x)
    ensures RowKey(chat, x) in states[i + 1]
  {
    RowsSoFar(states, chat, h, i, y);
    ReadsOwn(states, chat, h, i);
    assert Names(states[i], chat, y, x);
    assert Read(states[i], chat, h, states[i + 1]);
    if RowKey(chat, x) !in states[i] {
      assert Fillable(states[i], chat, h, x);
      assert x in FillSet(states[i], chat, h);
    }
  }

  /** `x` got its row in one round from a message that had one before. */
  ghost predicate NamedFrom(t: Table, chat: string, h: MessageMap, before: set<Id>, x: Id) {
    exists y :: y in before && LineageStep(t, chat, h, y, x)
  }

  /** The ids written after each read: at first those with a row, then only ids named by earlier ones. */
  ghost predicate Rounds(t: Table, chat: string, h: MessageMap, rounds: seq<set<Id>>) {
    && rounds != [] && (forall x | x in rounds[0] :: RowKey(chat, x) in t)
    && forall j, k, x | 0 <= j < k < |rounds| && k == j + 1 && x in rounds[k] && x !in rounds[j] ::
         NamedFrom(t, chat, h, rounds[j], x)
  }

  lemma {:induction false} RoundHasLineage(t: Table, chat: string, h: MessageMap, rounds: seq<set<Id>>, i: nat, x: Id)
    returns (path: seq<Id>)
    requires Rounds(t, chat, h, rounds) && i < |rounds| && x in rounds[i]
    ensures Lineage(t, chat, h, path) && path[|path| - 1] == x && |path| <= i + 1
  {
    if i == 0 {
      path := FirstLineage(t, chat, h, x);
    } else if x in rounds[i - 1] {
      path := RoundHasLineage(t, chat, h, rounds, i - 1, x);
    } else {
      assert NamedFrom(t, chat, h, rounds[i - 1], x);
      var y :| y in rounds[i - 1] && LineageStep(t, chat, h, y, x);
      var before := RoundHasLineage(t, chat, h, rounds, i - 1, y);
      path := LongerLineage(t, chat, h, before, x);
    }
  }

  /** Every row after some reads is reached by a lineage. */
  lemma WrittenHasLineage(states: seq<Table>, chat: string, h: MessageMap, i: nat, x: Id) returns (path: seq<Id>)
    requires Reads(states, chat, h) && i < |states| && Ids(states[0], chat) != {}
    requires RowKey(chat, x) in states[i]
    ensures Lineage(states[0], chat, h, path) && path[|path| - 1] == x && |path| <= i + 1
  {
    var rounds := seq(|states|, k requires 0 <= k < |states| => Ids(states[k], chat));
    ReadsAreRounds(states, chat, h, rounds);
    ReadsOwn(states, chat, h, i);
    IdsAreKeys(states[i], chat, x);
    path := RoundHasLineage(states[0], chat, h, rounds, i, x);
  }

  lemma ReadsAreRounds(states: seq<Table>, chat: string, h: MessageMap, rounds: seq<set<Id>>)
    requires Reads(states, chat, h) && Ids(states[0], chat) != {}
    requires |rounds| == |states| && forall k | 0 <= k < |rounds| :: rounds[k] == Ids(states[k], chat)
    ensures Rounds(states[0], chat, h, rounds)
  {
    forall x | x in rounds[0]
      ensures RowKey(chat, x) in states[0]
    {
      IdsAreKeys(states[0], chat, x);
    }
    forall j, k, x | 0 <= j < k < |rounds| && k == j + 1 && x in rounds[k] && x !in rounds[j]
      ensures NamedFrom(states[0], chat, h, rounds[j], x)
    {
      ReadsOwn(states, chat, h, j);
      ReadsOwn(states, chat, h, k);
      IdsAreKeys(states[j], chat, x);
      IdsAreKeys(states[k], chat, x);
      var y := NamedBy(states, chat, h, j, x);
      IdsAreKeys(states[j], chat, y);
    }
  }

  lemma LongerLineage(t: Table, chat: string, h: MessageMap, before: seq<Id>, x: Id) returns (path: seq<Id>)
    requires Lineage(t, chat, h, before) && LineageStep(t, chat, h, before[|before| - 1], x)
    ensures Lineage(t, chat, h, path) && path[|path| - 1] == x && |path| == |before| + 1
  {
    LineageSnoc(t, chat, h, before, x);
    path := before + [x];
  }

  lemma FirstLineage(t: Table, chat: string, h: MessageMap, x: Id) returns (path: seq<Id>)
    requires RowKey(chat, x) in t
    ensures Lineage(t, chat, h, path) && path[|path| - 1] == x && |path| == 1
  {
    path := [x];
  }

  lemma NamedBy(states: seq<Table>, chat: string, h: MessageMap, i: nat, x: Id) returns (y: Id)
    requires Reads(states, chat, h) && i + 1 < |states| && Ids(states[0], chat) != {}
    requires RowKey(chat, x) !in states[i] && RowKey(chat, x) in states[i + 1]
    ensures RowKey(chat, y) in states[i] && LineageStep(states[0], chat, h, y, x)
  {
    StillHasRows(states, chat, h, i);
    assert Read(states[i], chat, h, states[i + 1]);
    assert Fillable(states[i], chat, h, x);
    y :| Names(states[i], chat, y, x);
    RowsSoFar(states, chat, h, i, y);
    RowsSoFar(states, chat, h, i, x);
  }

  lemma StillHasRows(states: seq<Table>, chat: string, h: MessageMap, i: nat)
    requires Reads(states, chat, h) && i < |states| && Ids(states[0], chat) != {}
    ensures Ids(states[i], chat) != {}
  {
    var x :| x in Ids(states[0], chat);
    IdsAreKeys(states[0], chat, x);
    RowsSoFar(states, chat, h, i, x);
    ReadsOwn(states, chat, h, i);
    IdsAreKeys(states[i], chat, x);
  }

  /** After `i` reads the rows are exactly the original ones and the messages that a lineage of at
      most `i` steps leads to. */
  lemma ReadsReachLineages(states: seq<Table>, chat: string, h: MessageMap, i: nat, x: Id)
    requires Reads(states, chat, h) && i < |states| && Ids(states[0], chat) != {}
    ensures RowKey(chat, x) in states[i] <==>
              exists path :: Lineage(states[0], chat, h, path) && path[|path| - 1] == x && |path| <= i + 1
  {
    if RowKey(chat, x) in states[i] {
      var path := WrittenHasLineage(states, chat, h, i, x);
    }
    if path :| Lineage(states[0], chat, h, path) && path[|path| - 1] == x && |path| <= i + 1 {
      LineageWritten(states, chat, h, path, i);
    }
  }
}
