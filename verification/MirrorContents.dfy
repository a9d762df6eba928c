/** The rows hold what the messages say, and the rebuilt map says it again. */
module MirrorContents {
  import opened Common
  import opened Messages
  import opened MirrorTable
  import opened MirrorRebuild

  /** The row has the message's role and output, and exactly its keys that have a column. */
  ghost predicate RowHolds(row: Row, m: Message) {
    && row.role == m.Role()
    && row.output == m.output
    && (forall k :: k in row.body <==> k in m.rest && k in COLUMNS)
    && (forall k | k in row.body && k in m.rest :: row.body[k] == m.rest[k])
  }

  /** Every stored message has a row that holds it. */
  ghost predicate Holds(t: Table, chat: string, ms: MessageMap) {
    forall x | x in ms :: RowKey(chat, x) in t && RowHolds(t[RowKey(chat, x)], ms[x])
  }

  /** A new row holds its message. */
  lemma NewRowHolds(t: Table, chat: string, x: Id, m: Message)
    requires RowKey(chat, x) !in t && m.role.Is?
    ensures RowHolds(UpsertRow(t, chat, x, m)[RowKey(chat, x)], m)
    ensures UpsertRow(t, chat, x, m)[RowKey(chat, x)].created == m.timestamp
  {
  }

  /** Writing over the row of a message whose keys are only overridden makes it hold the new ones;
      the creation time stays. */
  lemma OldRowHolds(t: Table, chat: string, x: Id, old_: Message, m: Message)
    requires RowKey(chat, x) in t && RowHolds(t[RowKey(chat, x)], old_) && m.role.Is?
    requires old_.output.Is? ==> m.output.Is?
    requires forall k | k in old_.rest :: k in m.rest
    ensures RowHolds(UpsertRow(t, chat, x, m)[RowKey(chat, x)], m)
    ensures UpsertRow(t, chat, x, m)[RowKey(chat, x)].created == t[RowKey(chat, x)].created
  {
  }

  lemma OtherRowStays(t: Table, chat: string, x: Id, m: Message, y: Id)
    requires x != y && RowKey(chat, y) in t
    ensures RowKey(chat, y) in UpsertRow(t, chat, x, m) && UpsertRow(t, chat, x, m)[RowKey(chat, y)] == t[RowKey(chat, y)]
  {
    if RowKey(chat, x) == RowKey(chat, y) {
      RowKeyInjective(chat, x, y);
    }
  }

  /** Storing or updating a message keeps the rows holding the history. */
  lemma UpsertKeepsHolds(t: Table, chat: string, ms: MessageMap, x: Id, m: Message)
    requires Mirrors(t, chat, ms) && Holds(t, chat, ms) && m.role.Is?
    requires x in ms ==> (ms[x].output.Is? ==> m.output.Is?) && forall k | k in ms[x].rest :: k in m.rest
    ensures Holds(UpsertRow(t, chat, x, m), chat, ms[x := m])
  {
    assert RowAgrees(t, chat, ms, x);
    if x in ms {
      OldRowHolds(t, chat, x, ms[x], m);
    } else {
      NewRowHolds(t, chat, x, m);
    }
    forall y | y in ms && y != x
      ensures RowKey(chat, y) in UpsertRow(t, chat, x, m) && RowHolds(UpsertRow(t, chat, x, m)[RowKey(chat, y)], ms[y])
    {
      OtherRowStays(t, chat, x, m, y);
    }
  }

  /** Writing a held message again leaves its row holding it. */
  lemma {:induction false} BackfillKeepsHeld(t: Table, chat: string, ms: MessageMap, keys: seq<Id>, x: Id)
    requires x in ms && RowKey(chat, x) in t && RowHolds(t[RowKey(chat, x)], ms[x])
    ensures var t' := Backfilled(t, chat, ms, keys); RowKey(chat, x) in t' && RowHolds(t'[RowKey(chat, x)], ms[x])
    decreases |keys|
  {
    if keys != [] {
      var writes := keys[0] in ms && ms[keys[0]].Role() != "";
      var next := if writes then UpsertRow(t, chat, keys[0], ms[keys[0]]) else t;
      if writes {
        if keys[0] == x {
          OldRowHolds(t, chat, x, ms[x], ms[x]);
        } else {
          OtherRowStays(t, chat, keys[0], ms[keys[0]], x);
        }
      }
      BackfillKeepsHeld(next, chat, ms, keys[1..], x);
    }
  }

  /** Backfilling makes a row for each message that has a role and no row yet, and the row holds it. */
  lemma {:induction false} BackfillMakesHeld(t: Table, chat: string, ms: MessageMap, keys: seq<Id>, x: Id)
    requires x in keys && x in ms && ms[x].Role() != "" && RowKey(chat, x) !in t
    ensures var t' := Backfilled(t, chat, ms, keys); RowKey(chat, x) in t' && RowHolds(t'[RowKey(chat, x)], ms[x])
    decreases |keys|
  {
    var next := if keys[0] in ms && ms[keys[0]].Role() != "" then UpsertRow(t, chat, keys[0], ms[keys[0]]) else t;
    if keys[0] == x {
      NewRowHolds(t, chat, x, ms[x]);
      BackfillKeepsHeld(next, chat, ms, keys[1..], x);
    } else {
      if RowKey(chat, keys[0]) == RowKey(chat, x) {
        RowKeyInjective(chat, keys[0], x);
      }
      BackfillMakesHeld(next, chat, ms, keys[1..], x);
    }
  }

  /** Rewriting the survivors and dropping the deleted rows keeps the rows holding the history. */
  lemma DeleteKeepsHolds(t: Table, chat: string, ms: MessageMap, ms': MessageMap, keys': seq<Id>, gone: set<Id>)
    requires Mirrors(t, chat, ms) && Holds(t, chat, ms)
    requires forall x | x in ms' :: x in ms && x !in gone
    requires forall x | x in ms' :: ms'[x].Role() == ms[x].Role() && ms'[x].output == ms[x].output && ms'[x].rest == ms[x].rest
    ensures Holds(DeleteRows(Backfilled(t, chat, ms', keys'), chat, gone), chat, ms')
  {
    var t1 := Backfilled(t, chat, ms', keys');
    BackfillOwn(t, chat, ms', keys');
    forall x | x in ms'
      ensures RowKey(chat, x) in DeleteRows(t1, chat, gone) && RowHolds(DeleteRows(t1, chat, gone)[RowKey(chat, x)], ms'[x])
    {
      BackfillKeepsHeld(t, chat, ms', keys', x);
      DeleteRowsKey(t1, chat, gone, x);
    }
  }

  // ---------------------------------------------------------------------------------------
  // Reading the contents back
  // ---------------------------------------------------------------------------------------

  /** The rebuilt record says what the message says: its id, role and output, and its keys that have a
      column; an absent content reads as the empty one, and there are no other keys. */
  ghost predicate SaysAgain(x: Id, m: Message, rebuilt: Message) {
    && rebuilt.id == Is(x)
    && rebuilt.Role() == m.Role()
    && rebuilt.output == m.output
    && (forall k :: k in rebuilt.rest <==> k == "content" || (k in m.rest && k in COLUMNS))
    && (forall k | k in rebuilt.rest :: rebuilt.rest[k] == if k in m.rest then m.rest[k] else "")
  }

  lemma HeldRowSaysAgain(chat: string, row: (string, Row), x: Id, m: Message)
    requires row.0 == RowKey(chat, x) && RowHolds(row.1, m)
    ensures SaysAgain(x, m, RowMessage(chat, row))
  {
    KeyHasPrefix(chat, x);
  }

  /** The map rebuilt from the rows, in whatever order they arrive, says what the history says. */
  lemma RebuiltContents(t: Table, chat: string, ms: MessageMap, rows: seq<(string, Row)>, base: MessageMap, x: Id)
    requires Mirrors(t, chat, ms) && Holds(t, chat, ms) && Answers(rows, t, chat) && IsBase(base, chat, rows) && x in ms
    ensures var full := FullyLinked(base, RowIds(chat, rows)); x in full && SaysAgain(x, ms[x], full[x])
  {
    RebuiltParents(t, chat, ms, rows, base);
    RowIdsDistinct(t, chat, rows);
    var i := RebuiltRow(t, chat, ms, rows, x);
    HeldRowSaysAgain(chat, rows[i], x, ms[x]);
    assert base[RowIds(chat, rows)[i]] == RowMessage(chat, rows[i]);
  }
}
