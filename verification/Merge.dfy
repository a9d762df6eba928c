/** Merging a saved history with an incoming one: incoming records win, and all child lists are
    recomputed from the parent links. */
module Merge {
  import opened Common
  import opened Messages

  /** What a JSON dictionary may hold under a message id. */
  datatype Value = Record(message: Message) | NotADict

  /** A history as received: `keys` is the order of its message dictionary, `meta` its other keys. */
  datatype RawHistory = RawHistory(values: map<Id, Value>, keys: seq<Id>, currentId: Option<Id>, meta: map<string, string>)

  ghost predicate Valid(h: RawHistory) {
    NoDup(h.keys) && Elements(h.keys) == h.values.Keys
  }

  /** The records of both sides, the incoming one winning; other values are left out. */
  function Records(e: RawHistory, i: RawHistory): MessageMap {
    var both := e.values + i.values;
    map x | x in both && both[x].Record? :: both[x].message
  }

  function RecordKeys(e: RawHistory, i: RawHistory): seq<Id> {
    Keep(e.keys + Drop(i.keys, e.values.Keys), Records(e, i).Keys)
  }

  function ChildIds(ms: MessageMap, p: Id): set<Id> {
    set c | c in ms && ms[c].Parent() == Some(p)
  }

  /** Every child list recomputed, in dictionary order. */
  function Relinked(ms: MessageMap, keys: seq<Id>): MessageMap {
    map x | x in ms :: ms[x].(childrenIds := Is(Keep(keys, ChildIds(ms, x))))
  }

  function MergedCurrent(e: RawHistory, i: RawHistory): Option<Id> {
    if i.currentId.Some? && i.currentId.value in Records(e, i) then i.currentId
    else if e.currentId.Some? && e.currentId.value in Records(e, i) then e.currentId
    else None
  }

  function AsValues(ms: MessageMap): map<Id, Value> {
    map x | x in ms :: Record(ms[x])
  }

  function Merged(e: RawHistory, i: RawHistory): RawHistory {
    RawHistory(AsValues(Relinked(Records(e, i), RecordKeys(e, i))), RecordKeys(e, i), MergedCurrent(e, i), e.meta + i.meta)
  }

  lemma MergedKeyed(e: RawHistory, i: RawHistory)
    requires Valid(e) && Valid(i)
    ensures Keyed(Records(e, i), RecordKeys(e, i))
  {
    var all := e.keys + Drop(i.keys, e.values.Keys);
    assert forall x :: x in all <==> x in Elements(e.keys) || x in Elements(i.keys);
    NoDupConcat(e.keys, Drop(i.keys, e.values.Keys)) by {
      forall x | x in e.keys
        ensures x !in Drop(i.keys, e.values.Keys)
      {
        assert x in Elements(e.keys);
      }
    }
  }

  /** Handing one more message to its parent. */
  lemma RelinkOne(ms: MessageMap, keys: seq<Id>, x: Id)
    requires x in ms
    ensures var before, parent := Relinked(ms, keys), ms[x].Parent();
            Relinked(ms, keys + [x]) ==
            if parent.Some? && parent.value in ms
            then before[parent.value := before[parent.value].(childrenIds := Is(before[parent.value].Children() + [x]))]
            else before
  {
    forall p | p in ms
      ensures Relinked(ms, keys + [x])[p] ==
              if ms[x].Parent() == Some(p)
              then Relinked(ms, keys)[p].(childrenIds := Is(Relinked(ms, keys)[p].Children() + [x]))
              else Relinked(ms, keys)[p]
    {
      KeepSnoc(keys, x, ChildIds(ms, p));
    }
  }

  /** Every merged record starts over with an empty child list. */
  method ClearChildren(base: MessageMap, keys: seq<Id>) returns (merged: MessageMap)
    requires Keyed(base, keys)
    ensures merged == Relinked(base, [])
  {
    merged := base;
    for n := 0 to |keys|
      invariant merged.Keys == base.Keys
      invariant forall x | x in base :: merged[x] == if x in keys[..n] then base[x].(childrenIds := Is([])) else base[x]
    {
      assert keys[n] in Elements(keys);
      merged := merged[keys[n] := merged[keys[n]].(childrenIds := Is([]))];
      assert keys[..n + 1] == keys[..n] + [keys[n]];
    }
    assert keys[..|keys|] == keys;
    assert forall x | x in base :: x in Elements(keys);
  }

  /** Each message is appended to the child list of its parent, in dictionary order. */
  method HandOutChildren(base: MessageMap, keys: seq<Id>, cleared: MessageMap) returns (merged: MessageMap)
    requires Keyed(base, keys) && cleared == Relinked(base, [])
    ensures merged == Relinked(base, keys)
  {
    merged := cleared;
    for n := 0 to |keys|
      invariant merged == Relinked(base, keys[..n])
    {
      assert keys[n] in Elements(keys);
      assert keys[..n + 1] == keys[..n] + [keys[n]];
      RelinkOne(base, keys[..n], keys[n]);
      var parent := merged[keys[n]].Parent();
      if parent.Some? && parent.value in merged {
        merged := merged[parent.value := merged[parent.value].(childrenIds := Is(merged[parent.value].Children() + [keys[n]]))];
      }
    }
    assert keys[..|keys|] == keys;
  }

  method MergeHistory(e: RawHistory, i: RawHistory) returns (r: RawHistory)
    requires Valid(e) && Valid(i)
    ensures r == Merged(e, i)
  {
    var base, keys := Records(e, i), RecordKeys(e, i);
    MergedKeyed(e, i);
    var cleared := ClearChildren(base, keys);
    var merged := HandOutChildren(base, keys, cleared);
    var current := i.currentId;
    if !(current.Some? && current.value in merged) {
      current := e.currentId;
      if !(current.Some? && current.value in merged) {
        current := None;
      }
    }
    r := RawHistory(AsValues(merged), keys, current, e.meta + i.meta);
  }

  // ---------------------------------------------------------------------------------------
  // What the merge promises
  // ---------------------------------------------------------------------------------------

  /** The message records of a history. */
  function RecordsOf(h: RawHistory): MessageMap {
    map x | x in h.values && h.values[x].Record? :: h.values[x].message
  }

  lemma MergedRecords(e: RawHistory, i: RawHistory)
    ensures RecordsOf(Merged(e, i)) == Relinked(Records(e, i), RecordKeys(e, i))
    ensures RecordsOf(Merged(e, i)).Keys == Merged(e, i).values.Keys == Records(e, i).Keys
  {
  }

  lemma RelinkedIsLinked(ms: MessageMap, keys: seq<Id>)
    requires Keyed(ms, keys)
    ensures Linked(Relinked(ms, keys))
  {
    var ms' := Relinked(ms, keys);
    forall p, c | p in ms'
      ensures Lists(ms', p, c) <==> HasParent(ms', c, p)
    {
      assert c in ms ==> c in Elements(keys);
      assert c in Keep(keys, ChildIds(ms, p)) <==> c in keys && c in ChildIds(ms, p);
    }
  }

  /** Whatever the incoming child lists say, the merged ones are the exact inverse of the parent
      links; and the current message is one of the merged ones, or none. */
  lemma MergeIsLinked(e: RawHistory, i: RawHistory)
    requires Valid(e) && Valid(i)
    ensures Valid(Merged(e, i)) && Linked(RecordsOf(Merged(e, i)))
    ensures Merged(e, i).currentId.Some? ==> Merged(e, i).currentId.value in Merged(e, i).values
  {
    MergedKeyed(e, i);
    MergedRecords(e, i);
    RelinkedIsLinked(Records(e, i), RecordKeys(e, i));
  }

  /** The merged history holds every record of both sides, the incoming one where both have one,
      and nothing else; only child lists differ from what was received. */
  lemma MergeContents(e: RawHistory, i: RawHistory, x: Id)
    ensures x in Merged(e, i).values <==>
            if x in i.values then i.values[x].Record? else x in e.values && e.values[x].Record?
    ensures x in Merged(e, i).values ==>
              && Merged(e, i).values[x].Record?
              && exists kids :: Merged(e, i).values[x].message ==
                   (if x in i.values then i.values[x] else e.values[x]).message.(childrenIds := Is(kids))
  {
    if x in Merged(e, i).values {
      assert Merged(e, i).values[x].message == Records(e, i)[x].(childrenIds := Is(Merged(e, i).values[x].message.Children()));
    }
  }

  /** The number of listed children of the messages in `keys`. */
  function ListedChildren(ms: MessageMap, keys: seq<Id>): nat {
    if keys == [] then 0 else |ChildrenOf(ms, keys[0])| + ListedChildren(ms, keys[1..])
  }

  ghost function WithParentIn(ms: MessageMap, parents: set<Id>): set<Id> {
    set c | c in ms && ms[c].Parent().Some? && ms[c].Parent().value in parents
  }

  lemma ChildrenAreCounted(ms: MessageMap, p: Id, rest: set<Id>)
    requires Linked(ms) && p in ms && p !in rest
    ensures WithParentIn(ms, rest + {p}) == Elements(ms[p].Children()) + WithParentIn(ms, rest)
    ensures Elements(ms[p].Children()) !! WithParentIn(ms, rest)
    ensures |Elements(ms[p].Children())| == |ms[p].Children()|
  {
    forall c
      ensures c in ms[p].Children() <==> HasParent(ms, c, p)
    {
      assert Lists(ms, p, c) <==> HasParent(ms, c, p);
    }
    NoDupSize(ms[p].Children());
  }

  lemma {:induction false} LinkedCount(ms: MessageMap, keys: seq<Id>)
    requires Linked(ms) && NoDup(keys) && forall k | k in keys :: k in ms
    ensures ListedChildren(ms, keys) == |WithParentIn(ms, Elements(keys))|
  {
    if keys == [] {
      assert WithParentIn(ms, Elements(keys)) == {};
    } else {
      var p, rest := keys[0], keys[1..];
      LinkedCount(ms, rest);
      ChildrenAreCounted(ms, p, Elements(rest));
      assert Elements(keys) == Elements(rest) + {p};
    }
  }

  /** The merged child lists hold, together, each message with a stored parent exactly once. */
  lemma MergeCountsChildren(e: RawHistory, i: RawHistory)
    requires Valid(e) && Valid(i)
    ensures var ms := RecordsOf(Merged(e, i));
            ListedChildren(ms, Merged(e, i).keys) == |WithParentIn(ms, ms.Keys)|
  {
    MergeIsLinked(e, i);
    MergedRecords(e, i);
    var keys := Merged(e, i).keys;
    forall k | k in keys
      ensures k in RecordsOf(Merged(e, i))
    {
      assert k in Elements(keys);
    }
    LinkedCount(RecordsOf(Merged(e, i)), keys);
  }

  /** Two maps hold the same messages up to their child lists. */
  ghost predicate SameButChildren(a: MessageMap, b: MessageMap) {
    && a.Keys == b.Keys
    && forall x | x in b :: a[x].(childrenIds := Absent) == b[x].(childrenIds := Absent)
  }

  /** Relinking looks at parent links only. */
  lemma RelinkSame(ms: MessageMap, again: MessageMap, keys: seq<Id>)
    requires SameButChildren(again, ms)
    ensures Relinked(again, keys) == Relinked(ms, keys)
  {
    forall x | x in ms
      ensures again[x].Parent() == ms[x].Parent()
      ensures forall kids :: again[x].(childrenIds := Is(kids)) == ms[x].(childrenIds := Is(kids))
    {
      assert again[x].(childrenIds := Absent) == ms[x].(childrenIds := Absent);
    }
    forall p | p in ms
      ensures ChildIds(again, p) == ChildIds(ms, p)
    {
    }
  }

  /** Merging into an already merged history adds nothing when the records are the same. */
  lemma MergeAgain(m: RawHistory, i: RawHistory, ms: MessageMap)
    requires Valid(m) && Valid(i)
    requires m.values == AsValues(Relinked(ms, m.keys))
    requires SameButChildren(Records(m, i), ms)
    requires m.currentId.Some? ==> m.currentId.value in ms
    requires i.currentId.Some? && i.currentId.value in ms ==> m.currentId == i.currentId
    requires m.meta + i.meta == m.meta
    ensures Merged(m, i) == m
  {
    SameKeys(m, i);
    RelinkSame(ms, Records(m, i), m.keys);
  }

  /** Receiving the incoming records again leaves the merged ones as they were. */
  lemma IncomingAgain(e: RawHistory, i: RawHistory, m: RawHistory)
    requires m.values == AsValues(Relinked(Records(e, i), m.keys))
    ensures SameButChildren(Records(m, i), Records(e, i))
  {
    var ms := Records(e, i);
    forall x
      ensures x in Records(m, i) <==> x in ms
      ensures x in ms ==> Records(m, i)[x].(childrenIds := Absent) == ms[x].(childrenIds := Absent)
    {
      if x in i.values {
        assert (m.values + i.values)[x] == i.values[x] == (e.values + i.values)[x];
      } else if x in m.values {
        assert (m.values + i.values)[x] == m.values[x];
      }
    }
  }

  lemma SelfRecords(m: RawHistory, ms: MessageMap)
    requires m.values == AsValues(Relinked(ms, m.keys))
    ensures Records(m, m) == Relinked(ms, m.keys) && SameButChildren(Records(m, m), ms)
  {
    assert m.values + m.values == m.values;
  }

  lemma MergedFields(e: RawHistory, i: RawHistory) returns (m: RawHistory)
    requires Valid(e) && Valid(i)
    ensures m == Merged(e, i) && Valid(m)
    ensures m.values == AsValues(Relinked(Records(e, i), m.keys))
    ensures m.currentId.Some? ==> m.currentId.value in Records(e, i)
    ensures i.currentId.Some? && i.currentId.value in Records(e, i) ==> m.currentId == i.currentId
    ensures m.meta == e.meta + i.meta
  {
    m := Merged(e, i);
    MergeIsLinked(e, i);
  }

  /** Merging the result with the incoming history again changes nothing. */
  lemma MergeIncomingAgain(e: RawHistory, i: RawHistory)
    requires Valid(e) && Valid(i)
    ensures Merged(Merged(e, i), i) == Merged(e, i)
  {
    var m := MergedFields(e, i);
    IncomingAgain(e, i, m);
    assert m.meta + i.meta == m.meta;
    MergeAgain(m, i, Records(e, i));
  }

  /** Merging the result with itself changes nothing. */
  lemma MergeWithItself(e: RawHistory, i: RawHistory)
    requires Valid(e) && Valid(i)
    ensures Merged(Merged(e, i), Merged(e, i)) == Merged(e, i)
  {
    var m := MergedFields(e, i);
    SelfRecords(m, Records(e, i));
    assert m.meta + m.meta == m.meta;
    MergeAgain(m, m, Records(e, i));
  }

  /** When the second history adds no record, the first one's order stays. */
  lemma SameKeys(m: RawHistory, i: RawHistory)
    requires Valid(m) && Valid(i)
    requires Records(m, i).Keys == m.values.Keys
    ensures RecordKeys(m, i) == m.keys
  {
    var extra := Drop(i.keys, m.values.Keys);
    KeepConcat(m.keys, extra, m.values.Keys);
    KeepNone(extra, m.values.Keys);
    assert forall x | x in m.keys :: x in Elements(m.keys);
    KeepAll(m.keys, m.values.Keys);
  }

  // ---------------------------------------------------------------------------------------
  // Order, current message and other keys
  // ---------------------------------------------------------------------------------------

  /** The merged messages keep the order of the existing history; those that only the incoming one
      has follow, in its order. */
  lemma MergeOrder(e: RawHistory, i: RawHistory, x: Id, y: Id)
    requires Valid(e) && Valid(i)
    ensures Before(Merged(e, i).keys, x, y) <==>
              && x in Merged(e, i).values && y in Merged(e, i).values
              && if x in e.values && y in e.values then Before(e.keys, x, y)
                 else y !in e.values && (x in e.values || Before(i.keys, x, y))
  {
    var added := Drop(i.keys, e.values.Keys);
    BeforeKeep(e.keys + added, Records(e, i).Keys, x, y);
    BeforeConcat(e.keys, added, x, y);
    BeforeDrop(i.keys, e.values.Keys, x, y);
    assert forall z :: z in e.keys <==> z in Elements(e.keys);
    assert forall z :: z in i.keys <==> z in Elements(i.keys);
  }

  lemma RelinkedOrder(ms: MessageMap, keys: seq<Id>, p: Id, x: Id, y: Id)
    requires p in ms
    ensures Before(Relinked(ms, keys)[p].Children(), x, y) <==>
              HasParent(Relinked(ms, keys), x, p) && HasParent(Relinked(ms, keys), y, p) && Before(keys, x, y)
  {
    BeforeKeep(keys, ChildIds(ms, p), x, y);
    assert x in ChildIds(ms, p) <==> HasParent(Relinked(ms, keys), x, p);
    assert y in ChildIds(ms, p) <==> HasParent(Relinked(ms, keys), y, p);
  }

  /** Each merged child list is in the order of the merged messages. */
  lemma MergeChildOrder(e: RawHistory, i: RawHistory, p: Id, x: Id, y: Id)
    requires Valid(e) && Valid(i) && p in RecordsOf(Merged(e, i))
    ensures var ms := RecordsOf(Merged(e, i));
            Before(ms[p].Children(), x, y) <==> HasParent(ms, x, p) && HasParent(ms, y, p) && Before(Merged(e, i).keys, x, y)
  {
    MergedRecords(e, i);
    RelinkedOrder(Records(e, i), RecordKeys(e, i), p, x, y);
  }

  /** The current message is the incoming one if it is among the merged ones, else the existing one if
      that is, else none; of the other keys the incoming ones win. */
  lemma MergeCurrent(e: RawHistory, i: RawHistory)
    ensures var m := Merged(e, i);
            && (i.currentId.Some? && i.currentId.value in m.values ==> m.currentId == i.currentId)
            && (!(i.currentId.Some? && i.currentId.value in m.values) ==>
                  m.currentId == if e.currentId.Some? && e.currentId.value in m.values then e.currentId else None)
            && (forall k :: k in m.meta <==> k in e.meta || k in i.meta)
            && (forall k | k in i.meta :: k in m.meta && m.meta[k] == i.meta[k])
            && (forall k | k in e.meta && k !in i.meta :: k in m.meta && m.meta[k] == e.meta[k])
  {
  }
}
