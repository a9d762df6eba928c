/** The message map that is rebuilt from a chat's rows, which store parent links only. */
module MirrorRebuild {
  import opened Common
  import opened Messages
  import opened MirrorTable

  /** `rows` is an answer to the query for the chat's rows, in some order. */
  ghost predicate Answers(rows: seq<(string, Row)>, t: Table, chat: string) {
    && (forall i, j | 0 <= i < j < |rows| :: rows[i].0 != rows[j].0)
    && (forall i | 0 <= i < |rows| :: rows[i].0 in t && t[rows[i].0] == rows[i].1 && rows[i].1.chatId == chat)
    && (forall k | k in t && t[k].chatId == chat :: exists i :: 0 <= i < |rows| && rows[i].0 == k)
  }

  function MessageId(chat: string, key: string): Id {
    if Prefix(chat) <= key then key[|Prefix(chat)|..] else key
  }

  /** The record rebuilt from a row, before its children are known. */
  function RowMessage(chat: string, row: (string, Row)): Message {
    Message(
      Is(MessageId(chat, row.0)),
      if row.1.parent.Some? then Is(row.1.parent) else Absent,
      Absent,
      Is(row.1.role),
      row.1.created,
      row.1.output,
      if "content" in row.1.body then row.1.body else row.1.body["content" := ""])
  }

  function RowIds(chat: string, rows: seq<(string, Row)>): (ids: seq<Id>)
    ensures |ids| == |rows| && forall i | 0 <= i < |rows| :: ids[i] == MessageId(chat, rows[i].0)
  {
    seq(|rows|, i requires 0 <= i < |rows| => MessageId(chat, rows[i].0))
  }

  /** Children by truthy parent link: a message under the empty id gets none. */
  function RowChildren(base: MessageMap, p: Id): set<Id> {
    if p == "" then {} else set c | c in base && base[c].Parent() == Some(p)
  }

  /** A record after the first rows were visited; a message nobody named so far has no list. */
  function PartRecord(base: MessageMap, ids: seq<Id>, x: Id): Message
    requires x in base
  {
    var kids := Keep(ids, RowChildren(base, x));
    base[x].(childrenIds := if kids == [] then Absent else Is(kids))
  }

  function PartlyLinked(base: MessageMap, ids: seq<Id>): MessageMap {
    map x | x in base :: PartRecord(base, ids, x)
  }

  function FullRecord(base: MessageMap, ids: seq<Id>, x: Id): Message
    requires x in base
  {
    base[x].(childrenIds := Is(Keep(ids, RowChildren(base, x))))
  }

  function FullyLinked(base: MessageMap, ids: seq<Id>): MessageMap {
    map x | x in base :: FullRecord(base, ids, x)
  }

  ghost predicate IsBase(base: MessageMap, chat: string, rows: seq<(string, Row)>) {
    && base.Keys == Elements(RowIds(chat, rows))
    && forall i | 0 <= i < |rows| :: base[RowIds(chat, rows)[i]] == RowMessage(chat, rows[i])
  }

  lemma LinkOneAt(base: MessageMap, ids: seq<Id>, x: Id, p: Id)
    requires x in base && x !in ids && p in base
    ensures PartRecord(base, ids + [x], p) ==
            if p != "" && base[x].Parent() == Some(p)
            then PartRecord(base, ids, p).(childrenIds := Is(PartRecord(base, ids, p).Children() + [x]))
            else PartRecord(base, ids, p)
    ensures x !in PartRecord(base, ids, p).Children()
  {
    KeepSnoc(ids, x, RowChildren(base, p));
  }

  function WithChild(r: MessageMap, parent: Option<Id>, x: Id): MessageMap {
    if parent.Some? && parent.value != "" && parent.value in r
    then r[parent.value := r[parent.value].(childrenIds := Is(r[parent.value].Children() + [x]))]
    else r
  }

  lemma LinkOneMore(base: MessageMap, ids: seq<Id>, x: Id)
    requires x in base && x !in ids
    ensures PartlyLinked(base, ids + [x]) == WithChild(PartlyLinked(base, ids), base[x].Parent(), x)
    ensures forall p | p in base :: x !in PartlyLinked(base, ids)[p].Children()
  {
    var before, after := PartlyLinked(base, ids), PartlyLinked(base, ids + [x]);
    forall p | p in base
      ensures after[p] == WithChild(before, base[x].Parent(), x)[p]
      ensures x !in before[p].Children()
    {
      LinkOneAt(base, ids, x, p);
    }
  }

  /** The first loop: one record per row. */
  method ReadRows(chat: string, rows: seq<(string, Row)>) returns (base: MessageMap)
    requires NoDup(RowIds(chat, rows))
    ensures IsBase(base, chat, rows)
  {
    base := map[];
    var ids := RowIds(chat, rows);
    for n := 0 to |rows|
      invariant base.Keys == Elements(ids[..n])
      invariant forall i | 0 <= i < n :: base[ids[i]] == RowMessage(chat, rows[i])
    {
      assert ids[..n + 1] == ids[..n] + [ids[n]];
      base := base[MessageId(chat, rows[n].0) := RowMessage(chat, rows[n])];
    }
    assert ids[..|rows|] == ids;
  }

  /** A first child starts its parent's list, a new one extends it. */
  method AddChild(r: MessageMap, parent: Option<Id>, x: Id) returns (r': MessageMap)
    requires parent.Some? && parent.value in r ==> x !in r[parent.value].Children()
    ensures r' == WithChild(r, parent, x)
  {
    r' := r;
    if parent.Some? && parent.value != "" && parent.value in r {
      var children := r[parent.value].childrenIds;
      if children == Absent {
        assert [x] == r[parent.value].Children() + [x];
        r' := r[parent.value := r[parent.value].(childrenIds := Is([x]))];
      } else if x !in children.value {
        r' := r[parent.value := r[parent.value].(childrenIds := Is(children.value + [x]))];
      }
    }
  }

  lemma NothingLinked(base: MessageMap)
    requires forall x | x in base :: base[x].childrenIds == Absent
    ensures PartlyLinked(base, []) == base
  {
  }

  lemma LinkStep(base: MessageMap, ids: seq<Id>, n: nat)
    requires NoDup(ids) && base.Keys == Elements(ids) && n < |ids|
    ensures var before, x := PartlyLinked(base, ids[..n]), ids[n];
            && x in before
            && PartlyLinked(base, ids[..n + 1]) == WithChild(before, before[x].Parent(), x)
            && forall p | p in before :: x !in before[p].Children()
  {
    assert ids[n] in Elements(ids);
    assert ids[..n + 1] == ids[..n] + [ids[n]];
    LinkOneMore(base, ids[..n], ids[n]);
  }

  /** The second loop: each message joins the list of its parent. */
  method LinkRows(base: MessageMap, ids: seq<Id>) returns (r: MessageMap)
    requires NoDup(ids) && base.Keys == Elements(ids) && forall x | x in base :: base[x].childrenIds == Absent
    ensures r == PartlyLinked(base, ids)
  {
    r := base;
    NothingLinked(base);
    for n := 0 to |ids|
      invariant r == PartlyLinked(base, ids[..n])
    {
      LinkStep(base, ids, n);
      r := AddChild(r, r[ids[n]].Parent(), ids[n]);
    }
    assert ids[..|ids|] == ids;
  }

  /** The record with an empty child list where it had none. */
  function Filled(m: Message): Message {
    if m.childrenIds == Absent then m.(childrenIds := Is([])) else m
  }

  lemma FilledIsFull(base: MessageMap, ids: seq<Id>, full: MessageMap)
    requires full.Keys == base.Keys
    requires forall x | x in base :: full[x] == Filled(PartlyLinked(base, ids)[x])
    ensures full == FullyLinked(base, ids)
  {
  }

  /** The third loop: a message without a list gets an empty one. */
  method FillLeaves(partly: MessageMap, ids: seq<Id>) returns (r: MessageMap)
    requires NoDup(ids) && partly.Keys == Elements(ids)
    ensures r.Keys == partly.Keys && forall x | x in partly :: r[x] == Filled(partly[x])
  {
    r := partly;
    for n := 0 to |ids|
      invariant r.Keys == partly.Keys
      invariant forall x | x in partly :: r[x] == if x in ids[..n] then Filled(partly[x]) else partly[x]
    {
      assert ids[n] in Elements(ids);
      assert ids[..n + 1] == ids[..n] + [ids[n]];
      if r[ids[n]].childrenIds == Absent {
        r := r[ids[n] := r[ids[n]].(childrenIds := Is([]))];
      }
    }
    assert ids[..|ids|] == ids;
    assert forall x | x in partly :: x in Elements(ids);
  }

  /** The map rebuilt from the rows, or none when there is no row. */
  method RebuildMap(chat: string, rows: seq<(string, Row)>) returns (r: Option<MessageMap>, ghost base: MessageMap)
    requires NoDup(RowIds(chat, rows))
    ensures r == None <==> rows == []
    ensures r.Some? ==> IsBase(base, chat, rows) && r.value == FullyLinked(base, RowIds(chat, rows))
  {
    base := map[];
    if rows == [] {
      return None, base;
    }
    var read := ReadRows(chat, rows);
    NoListsYet(chat, rows, read);
    var partly := LinkRows(read, RowIds(chat, rows));
    var full := FillLeaves(partly, RowIds(chat, rows));
    FilledIsFull(read, RowIds(chat, rows), full);
    return Some(full), read;
  }

  lemma NoListsYet(chat: string, rows: seq<(string, Row)>, base: MessageMap)
    requires IsBase(base, chat, rows)
    ensures forall x | x in base :: base[x].childrenIds == Absent
  {
    var ids := RowIds(chat, rows);
    forall x | x in base
      ensures base[x].childrenIds == Absent
    {
      assert x in Elements(ids);
      var i :| 0 <= i < |ids| && ids[i] == x;
    }
  }

  // ---------------------------------------------------------------------------------------
  // The rebuilt map agrees with the history
  // ---------------------------------------------------------------------------------------

  lemma RowIdsDistinct(t: Table, chat: string, rows: seq<(string, Row)>)
    requires OwnRows(t, chat) && Answers(rows, t, chat)
    ensures NoDup(RowIds(chat, rows))
    ensures forall i | 0 <= i < |rows| :: rows[i].0 == RowKey(chat, RowIds(chat, rows)[i])
  {
    forall i | 0 <= i < |rows|
      ensures rows[i].0 == RowKey(chat, RowIds(chat, rows)[i])
    {
      assert Prefix(chat) <= rows[i].0;
    }
  }

  lemma RebuiltRow(t: Table, chat: string, ms: MessageMap, rows: seq<(string, Row)>, x: Id) returns (i: nat)
    requires Mirrors(t, chat, ms) && Answers(rows, t, chat) && x in ms
    ensures i < |rows| && RowIds(chat, rows)[i] == x && rows[i].1.parent == ms[x].Parent()
  {
    RowIdsDistinct(t, chat, rows);
    assert RowAgrees(t, chat, ms, x);
    KeyHasPrefix(chat, x);
    i :| 0 <= i < |rows| && rows[i].0 == RowKey(chat, x);
    RowKeyInjective(chat, x, RowIds(chat, rows)[i]);
  }

  lemma RebuiltFromHistory(t: Table, chat: string, ms: MessageMap, rows: seq<(string, Row)>, i: nat)
    requires Mirrors(t, chat, ms) && Answers(rows, t, chat) && i < |rows|
    ensures RowIds(chat, rows)[i] in ms
  {
    RowIdsDistinct(t, chat, rows);
    assert RowAgrees(t, chat, ms, RowIds(chat, rows)[i]);
  }

  /** Whatever order the rows arrive in, the rebuilt map has the history's ids and parent links. */
  lemma RebuiltParents(t: Table, chat: string, ms: MessageMap, rows: seq<(string, Row)>, base: MessageMap)
    requires Mirrors(t, chat, ms) && Answers(rows, t, chat) && IsBase(base, chat, rows)
    ensures base.Keys == ms.Keys
    ensures forall x | x in ms :: base[x].Parent() == ms[x].Parent()
  {
    var ids := RowIds(chat, rows);
    forall x | x in ms
      ensures x in base && base[x].Parent() == ms[x].Parent()
    {
      var i := RebuiltRow(t, chat, ms, rows, x);
      assert ids[i] in Elements(ids);
      assert base[ids[i]] == RowMessage(chat, rows[i]);
    }
    forall x | x in base
      ensures x in ms
    {
      assert x in Elements(ids);
      var i :| 0 <= i < |ids| && ids[i] == x;
      RebuiltFromHistory(t, chat, ms, rows, i);
    }
  }

  lemma RebuiltChild(ms: MessageMap, base: MessageMap, ids: seq<Id>, x: Id, c: Id)
    requires base.Keys == ms.Keys == Elements(ids) && x in ms
    requires forall y | y in ms :: base[y].Parent() == ms[y].Parent()
    ensures c in FullRecord(base, ids, x).Children() <==> x != "" && HasParent(ms, c, x)
  {
    assert c in ids <==> c in Elements(ids);
  }

  lemma RebuiltLists(ms: MessageMap, base: MessageMap, ids: seq<Id>)
    requires base.Keys == ms.Keys == Elements(ids)
    requires forall y | y in ms :: base[y].Parent() == ms[y].Parent()
    ensures FullyLinked(base, ids).Keys == ms.Keys
    ensures forall x, c | x in ms :: Lists(FullyLinked(base, ids), x, c) <==> x != "" && HasParent(ms, c, x)
  {
    forall x, c | x in ms
      ensures Lists(FullyLinked(base, ids), x, c) <==> x != "" && HasParent(ms, c, x)
    {
      RebuiltChild(ms, base, ids, x, c);
    }
  }

  /** Filling in child lists changes no parent link. */
  lemma FullParents(base: MessageMap, ids: seq<Id>)
    ensures FullyLinked(base, ids).Keys == base.Keys
    ensures forall x | x in base :: FullyLinked(base, ids)[x].Parent() == base[x].Parent()
  {
  }

  ghost predicate SameChildSets(a: MessageMap, b: MessageMap) {
    a.Keys == b.Keys && forall x | x in b :: Elements(a[x].Children()) == Elements(b[x].Children())
  }

  /** The child lists name exactly the messages whose parent link leads back, and the message with
      the empty id, which the rebuilding passes over, has none. */
  ghost predicate ListsFollowParents(ms: MessageMap) {
    forall p, c {:trigger Lists(ms, p, c)} {:trigger HasParent(ms, c, p)} ::
      p in ms ==> (Lists(ms, p, c) <==> p != "" && HasParent(ms, c, p))
  }

  /** The rebuilt child sets are the history's, in whatever order the rows arrive, exactly when the
      history's child lists follow its parent links. */
  lemma RebuiltChildren(t: Table, chat: string, ms: MessageMap, rows: seq<(string, Row)>, base: MessageMap)
    requires Mirrors(t, chat, ms) && Answers(rows, t, chat) && IsBase(base, chat, rows)
    ensures SameChildSets(FullyLinked(base, RowIds(chat, rows)), ms) <==> ListsFollowParents(ms)
  {
    RebuiltParents(t, chat, ms, rows, base);
    RebuiltLists(ms, base, RowIds(chat, rows));
    SameSetsExactly(FullyLinked(base, RowIds(chat, rows)), ms);
  }

  lemma SameSetsExactly(full: MessageMap, ms: MessageMap)
    requires full.Keys == ms.Keys
    requires forall x, c | x in ms :: Lists(full, x, c) <==> x != "" && HasParent(ms, c, x)
    ensures SameChildSets(full, ms) <==> ListsFollowParents(ms)
  {
    if SameChildSets(full, ms) {
      forall x, c | x in ms
        ensures Lists(ms, x, c) <==> x != "" && HasParent(ms, c, x)
      {
        assert Elements(full[x].Children()) == Elements(ms[x].Children());
        assert Lists(full, x, c) <==> c in Elements(full[x].Children());
      }
    }
    if ListsFollowParents(ms) {
      forall x | x in ms
        ensures Elements(full[x].Children()) == Elements(ms[x].Children())
      {
        forall c
          ensures c in full[x].Children() <==> c in ms[x].Children()
        {
          assert Lists(full, x, c) <==> Lists(ms, x, c);
        }
      }
    }
  }

  /** While a history without an empty id waits for link halves, the rebuilt child sets are its own
      exactly when no half is missing. */
  lemma FollowsWhenComplete(ms: MessageMap, unlisted: set<Id>, pending: set<(Id, Id)>)
    requires HalfLinked(ms, unlisted, pending) && "" !in ms
    ensures ListsFollowParents(ms) <==> unlisted == {} && pending == {}
  {
    if c :| c in unlisted {
      var p := ms[c].Parent().value;
      assert HasParent(ms, c, p) && (p, c) !in pending;
      assert !Lists(ms, p, c);
    } else if l :| l in pending {
      assert (l.0, l.1) in pending;
      assert Lists(ms, l.0, l.1) && !HasParent(ms, l.1, l.0);
    } else {
      forall p, c | p in ms
        ensures Lists(ms, p, c) <==> HasParent(ms, c, p)
      {
        assert (p, c) !in pending;
      }
    }
  }

  /** No rebuilt child list names a child twice. */
  lemma RebuiltDistinct(t: Table, chat: string, rows: seq<(string, Row)>, base: MessageMap)
    requires OwnRows(t, chat) && Answers(rows, t, chat)
    ensures ChildrenDistinct(FullyLinked(base, RowIds(chat, rows)))
  {
    RowIdsDistinct(t, chat, rows);
  }

  /** Each rebuilt child list is in the order in which the rows arrived. */
  lemma RebuiltOrder(base: MessageMap, ids: seq<Id>, p: Id, x: Id, y: Id)
    requires p in base && p != "" && base.Keys == Elements(ids)
    ensures Before(FullyLinked(base, ids)[p].Children(), x, y) <==>
              HasParent(base, x, p) && HasParent(base, y, p) && Before(ids, x, y)
  {
    BeforeKeep(ids, RowChildren(base, p), x, y);
  }
}
