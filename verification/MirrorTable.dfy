/** The chat_message table: one row per message under a composite key, holding parent links only,
    and the map that is rebuilt from the rows. */
module MirrorTable {
  import opened Common
  import opened Messages

  /** `created` is the creation time the message brought along, or absent when the clock supplied
      it; `body` holds the columns that are copied as they are. */
  datatype Row = Row(
    chatId: string,
    role: string,
    parent: Option<Id>,
    created: Slot<int>,
    output: Slot<seq<string>>,
    body: map<string, string>)

  /** The message keys with a column of their own in which they are copied. */
  const COLUMNS: set<string> := {
    "content", "model", "files", "sources", "embeds", "meta", "statusHistory", "error", "contextSummary"
  }

  function Columns(rest: map<string, string>): map<string, string> {
    map k | k in rest && k in COLUMNS :: rest[k]
  }

  /** The table, by primary key. */
  type Table = map<string, Row>

  function Prefix(chat: string): string {
    chat + "-"
  }

  function RowKey(chat: string, x: Id): string {
    Prefix(chat) + x
  }

  /** Inserts the row of a message, or sets the columns the given record has. */
  function UpsertRow(t: Table, chat: string, x: Id, m: Message): Table {
    var key := RowKey(chat, x);
    t[key :=
      if key in t then
        Row(t[key].chatId,
            if m.role.Is? then m.role.value else t[key].role,
            if m.parentId.Is? then m.parentId.value else t[key].parent,
            t[key].created,
            if m.output.Is? then m.output else t[key].output,
            t[key].body + Columns(m.rest))
      else
        Row(chat, if m.role.Is? then m.role.value else "user", m.Parent(), m.timestamp, m.output, Columns(m.rest))]
  }

  /** Writes every message that has a role, in dictionary order. */
  function Backfilled(t: Table, chat: string, ms: MessageMap, keys: seq<Id>): Table
    decreases |keys|
  {
    if keys == [] then t
    else
      Backfilled(
        if keys[0] in ms && ms[keys[0]].Role() != "" then UpsertRow(t, chat, keys[0], ms[keys[0]]) else t,
        chat, ms, keys[1..])
  }

  function DeleteRows(t: Table, chat: string, ids: set<Id>): Table {
    t - (set k | k in t && t[k].chatId == chat && k in (set x | x in ids :: RowKey(chat, x)))
  }

  method Backfill(t: Table, chat: string, ms: MessageMap, keys: seq<Id>) returns (r: Table)
    ensures r == Backfilled(t, chat, ms, keys)
  {
    r := t;
    for n := 0 to |keys|
      invariant Backfilled(t, chat, ms, keys) == Backfilled(r, chat, ms, keys[n..])
    {
      assert keys[n..][1..] == keys[n + 1..];
      if keys[n] in ms && ms[keys[n]].Role() != "" {
        r := UpsertRow(r, chat, keys[n], ms[keys[n]]);
      }
    }
  }

  // ---------------------------------------------------------------------------------------
  // Composite keys
  // ---------------------------------------------------------------------------------------

  lemma RowKeyInjective(chat: string, x: Id, y: Id)
    requires RowKey(chat, x) == RowKey(chat, y)
    ensures x == y
  {
    assert RowKey(chat, x)[|Prefix(chat)|..] == x;
    assert RowKey(chat, y)[|Prefix(chat)|..] == y;
  }

  /** Two chats can produce the same key exactly when one's prefix starts with the other's. */
  ghost predicate Clash(c: string, d: string) {
    Prefix(c) <= Prefix(d) || Prefix(d) <= Prefix(c)
  }

  lemma ClashExactly(c: string, d: string)
    ensures Clash(c, d) <==> exists x, y :: RowKey(c, x) == RowKey(d, y)
  {
    if Prefix(c) <= Prefix(d) {
      assert RowKey(c, Prefix(d)[|Prefix(c)|..]) == RowKey(d, "");
    } else if Prefix(d) <= Prefix(c) {
      assert RowKey(c, "") == RowKey(d, Prefix(c)[|Prefix(d)|..]);
    } else if x, y :| RowKey(c, x) == RowKey(d, y) {
      NoCommonKey(c, d, x, y);
    }
  }

  lemma NoCommonKey(c: string, d: string, x: Id, y: Id)
    requires !Clash(c, d)
    ensures RowKey(c, x) != RowKey(d, y) && !(Prefix(d) <= RowKey(c, x))
  {
  }

  /** Chat ids of one length, such as UUIDs, never clash. */
  lemma SameLengthNeverClash(c: string, d: string)
    requires |c| == |d| && c != d
    ensures !Clash(c, d)
  {
    assert Prefix(c)[..|c|] == c && Prefix(d)[..|d|] == d;
  }

  // ---------------------------------------------------------------------------------------
  // Rows that mirror a history
  // ---------------------------------------------------------------------------------------

  /** The rows of a chat are the ones under its prefix. */
  ghost predicate OwnRows(t: Table, chat: string) {
    forall k | k in t :: Prefix(chat) <= k <==> t[k].chatId == chat
  }

  ghost predicate RowAgrees(t: Table, chat: string, ms: MessageMap, x: Id) {
    && (RowKey(chat, x) in t <==> x in ms)
    && (x in ms ==> t[RowKey(chat, x)].parent == ms[x].Parent())
  }

  /** The chat's rows have exactly the history's ids and parent links. */
  ghost predicate Mirrors(t: Table, chat: string, ms: MessageMap) {
    OwnRows(t, chat) && forall x :: RowAgrees(t, chat, ms, x)
  }

  ghost predicate RolesPresent(ms: MessageMap) {
    forall x | x in ms :: ms[x].Role() != ""
  }

  lemma KeyHasPrefix(chat: string, x: Id)
    ensures Prefix(chat) <= RowKey(chat, x)
  {
  }

  lemma UpsertRowOwn(t: Table, chat: string, x: Id, m: Message)
    requires OwnRows(t, chat)
    ensures OwnRows(UpsertRow(t, chat, x, m), chat)
  {
    KeyHasPrefix(chat, x);
  }

  /** Writing the row of a stored or updated message keeps the mirror. */
  lemma UpsertKeepsMirror(t: Table, chat: string, ms: MessageMap, x: Id, m: Message)
    requires Mirrors(t, chat, ms)
    requires m.parentId.Is? || (x in ms && ms[x].Parent() == None)
    ensures Mirrors(UpsertRow(t, chat, x, m), chat, ms[x := m])
  {
    UpsertRowOwn(t, chat, x, m);
    var t', ms' := UpsertRow(t, chat, x, m), ms[x := m];
    forall y
      ensures RowAgrees(t', chat, ms', y)
    {
      assert RowAgrees(t, chat, ms, y);
      if y != x {
        if RowKey(chat, y) == RowKey(chat, x) {
          RowKeyInjective(chat, y, x);
        }
      }
    }
  }

  /** Backfilling writes the given messages that have a role, and nothing else. */
  lemma {:induction false} BackfillRow(t: Table, chat: string, ms: MessageMap, keys: seq<Id>, x: Id)
    ensures var t', key := Backfilled(t, chat, ms, keys), RowKey(chat, x);
            var written := x in keys && x in ms && ms[x].Role() != "";
            && (key in t' <==> key in t || written)
            && (written ==> t'[key].parent == if ms[x].parentId.Is? || key !in t then ms[x].Parent() else t[key].parent)
            && (!written && key in t ==> t'[key] == t[key])
    decreases |keys|
  {
    if keys != [] {
      var next := if keys[0] in ms && ms[keys[0]].Role() != "" then UpsertRow(t, chat, keys[0], ms[keys[0]]) else t;
      BackfillRow(next, chat, ms, keys[1..], x);
      if RowKey(chat, x) == RowKey(chat, keys[0]) {
        RowKeyInjective(chat, x, keys[0]);
      }
    }
  }

  lemma {:induction false} BackfillOwn(t: Table, chat: string, ms: MessageMap, keys: seq<Id>)
    requires OwnRows(t, chat)
    ensures OwnRows(Backfilled(t, chat, ms, keys), chat)
    decreases |keys|
  {
    if keys != [] {
      var next := if keys[0] in ms && ms[keys[0]].Role() != "" then UpsertRow(t, chat, keys[0], ms[keys[0]]) else t;
      if next != t {
        UpsertRowOwn(t, chat, keys[0], ms[keys[0]]);
      }
      BackfillOwn(next, chat, ms, keys[1..]);
    }
  }

  lemma DeleteRowsKey(t: Table, chat: string, ids: set<Id>, x: Id)
    requires OwnRows(t, chat)
    ensures RowKey(chat, x) in DeleteRows(t, chat, ids) <==> RowKey(chat, x) in t && x !in ids
    ensures forall k | k in DeleteRows(t, chat, ids) :: k in t && DeleteRows(t, chat, ids)[k] == t[k]
  {
    KeyHasPrefix(chat, x);
    var keys := set y | y in ids :: RowKey(chat, y);
    if RowKey(chat, x) in keys {
      var y :| y in ids && RowKey(chat, y) == RowKey(chat, x);
      RowKeyInjective(chat, x, y);
    }
  }

  /** Rewriting the surviving messages and then dropping the rows of the deleted ones keeps the
      mirror, provided a survivor's parent changed only by being set. */
  lemma DeleteKeepsMirror(t: Table, chat: string, ms: MessageMap, ms': MessageMap, keys': seq<Id>, gone: set<Id>)
    requires Mirrors(t, chat, ms) && RolesPresent(ms') && Keyed(ms', keys')
    requires ms'.Keys == ms.Keys - gone
    requires forall x | x in ms' :: ms'[x].parentId.Is? || ms'[x].Parent() == ms[x].Parent()
    ensures Mirrors(DeleteRows(Backfilled(t, chat, ms', keys'), chat, gone), chat, ms')
  {
    var t1 := Backfilled(t, chat, ms', keys');
    var t2 := DeleteRows(t1, chat, gone);
    BackfillOwn(t, chat, ms', keys');
    forall k | k in keys'
      ensures k in ms'
    {
      assert k in Elements(keys');
    }
    forall x
      ensures RowAgrees(t2, chat, ms', x)
    {
      assert RowAgrees(t, chat, ms, x);
      BackfillRow(t, chat, ms', keys', x);
      DeleteRowsKey(t1, chat, gone, x);
      assert x in keys' <==> x in Elements(keys');
    }
    assert OwnRows(t2, chat) by {
      DeleteRowsKey(t1, chat, gone, "");
    }
  }

  // ---------------------------------------------------------------------------------------
  // Other chats
  // ---------------------------------------------------------------------------------------

  /** `t2` holds the same rows as `t1` for chat `d`. */
  ghost predicate SameRows(t1: Table, t2: Table, d: string) {
    && (forall x :: RowKey(d, x) in t1 <==> RowKey(d, x) in t2)
    && (forall x :: RowKey(d, x) in t1 ==> t2[RowKey(d, x)] == t1[RowKey(d, x)])
    && (OwnRows(t1, d) ==> OwnRows(t2, d))
  }

  lemma UpsertLeavesOthers(t: Table, c: string, d: string, x: Id, m: Message)
    requires !Clash(c, d) && OwnRows(t, c)
    ensures SameRows(t, UpsertRow(t, c, x, m), d)
  {
    forall y
      ensures RowKey(d, y) != RowKey(c, x)
    {
      NoCommonKey(c, d, x, y);
    }
    KeyHasPrefix(c, x);
    NoCommonKey(c, d, x, "");
    assert c != d;
  }

  lemma {:induction false} BackfillLeavesOthers(t: Table, c: string, d: string, ms: MessageMap, keys: seq<Id>)
    requires !Clash(c, d) && OwnRows(t, c)
    ensures SameRows(t, Backfilled(t, c, ms, keys), d)
    decreases |keys|
  {
    if keys != [] {
      if keys[0] in ms && ms[keys[0]].Role() != "" {
        UpsertLeavesOthers(t, c, d, keys[0], ms[keys[0]]);
        UpsertRowOwn(t, c, keys[0], ms[keys[0]]);
        BackfillLeavesOthers(UpsertRow(t, c, keys[0], ms[keys[0]]), c, d, ms, keys[1..]);
      } else {
        BackfillLeavesOthers(t, c, d, ms, keys[1..]);
      }
    }
  }

  lemma DeleteLeavesOthers(t: Table, c: string, d: string, ids: set<Id>)
    requires !Clash(c, d)
    ensures SameRows(t, DeleteRows(t, c, ids), d)
  {
    forall x, y
      ensures RowKey(c, x) != RowKey(d, y)
    {
      NoCommonKey(c, d, x, y);
    }
  }

  /** Exactly the chats whose prefixes do not clash leave each other's rows alone. */
  lemma WritesLeaveOthersExactly(c: string, d: string)
    ensures !Clash(c, d) <==> forall t, x, m | OwnRows(t, c) :: SameRows(t, UpsertRow(t, c, x, m), d)
  {
    if Clash(c, d) {
      ClashExactly(c, d);
      var x, y :| RowKey(c, x) == RowKey(d, y);
      var m := Message(Absent, Absent, Absent, Absent, Absent, Absent, map[]);
      var t: Table := map[];
      assert RowKey(d, y) !in t && RowKey(d, y) in UpsertRow(t, c, x, m);
      assert OwnRows(t, c) && !SameRows(t, UpsertRow(t, c, x, m), d);
    } else {
      forall t, x, m | OwnRows(t, c)
        ensures SameRows(t, UpsertRow(t, c, x, m), d)
      {
        UpsertLeavesOthers(t, c, d, x, m);
      }
    }
  }

  /** Writing message `x` of chat `c` replaces the parent in the row of message `y` of chat `d`. */
  ghost predicate Overwrites(c: string, x: Id, d: string, y: Id) {
    forall t: Table, m: Message | RowKey(d, y) in t && m.parentId.Is? ::
      && UpsertRow(t, c, x, m)[RowKey(d, y)].parent == m.Parent()
      && UpsertRow(t, c, x, m)[RowKey(d, y)].chatId == t[RowKey(d, y)].chatId
  }

  /** Two prefixes clash exactly when some message of the one chat is written into the row of a
      message of the other: the row stays with its chat but takes the written parent. */
  lemma ClashOverwrites(c: string, d: string)
    ensures Clash(c, d) <==> exists x, y :: Overwrites(c, x, d, y)
  {
    if Clash(c, d) {
      ClashExactly(c, d);
      var x, y :| RowKey(c, x) == RowKey(d, y);
      assert Overwrites(c, x, d, y);
    } else {
      forall x, y
        ensures !Overwrites(c, x, d, y)
      {
        NoCommonKey(c, d, x, y);
        var m := Message(Absent, Is(None), Absent, Absent, Absent, Absent, map[]);
        var t := map[RowKey(d, y) := Row(d, "", Some(""), Absent, Absent, map[])];
        assert UpsertRow(t, c, x, m)[RowKey(d, y)].parent != m.Parent();
      }
    }
  }
}
