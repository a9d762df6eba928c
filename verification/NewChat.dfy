/** The first history of a chat, built in one piece with all its placeholders and then written to
    the rows; and how it compares with a turn on an empty history. */
module NewChat {
  import opened Common
  import opened Messages
  import opened Upsert
  import opened MirrorTable
  import opened MirrorContents
  import opened TurnSteps
  import opened Turn
  import opened TurnRecords
  import opened ChatStore

  const NOTHING := HistoryState(map[], [], None)

  /** The id the user message carries, if there is a message and it has one. */
  function IdOf(userMessage: Option<Message>): Option<Id> {
    if userMessage.Some? && userMessage.value.id.Is? then Some(userMessage.value.id.value) else None
  }

  /** The message is stored only under an id that is not empty. */
  predicate Stored(userMessage: Option<Message>) {
    IdOf(userMessage).Some? && IdOf(userMessage).value != ""
  }

  /** Stores a record; a new id goes to the end of the order. */
  function Put(s: HistoryState, x: Id, m: Message): HistoryState {
    HistoryState(s.messages[x := m], if x in s.messages then s.keys else s.keys + [x], s.currentId)
  }

  function PutUser(userMessage: Option<Message>, ids: seq<Id>): HistoryState {
    if Stored(userMessage)
    then Put(NOTHING, IdOf(userMessage).value, userMessage.value.(childrenIds := Is(ids)))
    else NOTHING
  }

  function PutPlaceholders(s: HistoryState, userId: Option<Id>, entries: seq<Entry>): HistoryState
    decreases |entries|
  {
    if entries == [] then s
    else
      var e := entries[0];
      PutPlaceholders(if e.messageId != "" then Put(s, e.messageId, Placeholder(userId, e)) else s, userId, entries[1..])
  }

  function NewHistory(userMessage: Option<Message>, entries: seq<Entry>): HistoryState {
    var ids := AssistantIds(entries);
    PutPlaceholders(PutUser(userMessage, ids), IdOf(userMessage), entries).(
      currentId := if ids != [] then Some(ids[0]) else IdOf(userMessage))
  }

  method BuildHistory(userMessage: Option<Message>, entries: seq<Entry>) returns (s: HistoryState)
    ensures s == NewHistory(userMessage, entries)
  {
    var ids := [];
    for n := 0 to |entries|
      invariant ids + AssistantIds(entries[n..]) == AssistantIds(entries)
    {
      assert entries[n..][1..] == entries[n + 1..];
      if entries[n].messageId != "" {
        ids := ids + [entries[n].messageId];
      }
    }
    assert ids == AssistantIds(entries);
    var userId := IdOf(userMessage);
    s := NOTHING;
    if Stored(userMessage) {
      s := Put(s, userId.value, userMessage.value.(childrenIds := Is(ids)));
    }
    for n := 0 to |entries|
      invariant PutPlaceholders(s, userId, entries[n..]) == PutPlaceholders(PutUser(userMessage, ids), userId, entries)
    {
      var e := entries[n];
      assert entries[n..][1..] == entries[n + 1..];
      if e.messageId != "" {
        s := Put(s, e.messageId, Placeholder(userId, e));
      }
    }
    assert s == PutPlaceholders(PutUser(userMessage, ids), userId, entries);
    s := s.(currentId := if ids != [] then Some(ids[0]) else userId);
  }

  // ---------------------------------------------------------------------------------------
  // What the new history holds
  // ---------------------------------------------------------------------------------------

  ghost predicate IsPlaceholder(m: Message, userId: Option<Id>) {
    m.Parent() == userId && m.Children() == [] && m.Role() == "assistant" && m.parentId.Is?
  }

  lemma {:induction false} PlaceholderOrKept(s: HistoryState, userId: Option<Id>, entries: seq<Entry>, x: Id)
    requires Keyed(s.messages, s.keys)
    ensures var s' := PutPlaceholders(s, userId, entries);
            && Keyed(s'.messages, s'.keys)
            && (x in s'.messages <==> x in s.messages || x in AssistantIds(entries))
            && (x in AssistantIds(entries) ==> IsPlaceholder(s'.messages[x], userId))
            && (x in s.messages && x !in AssistantIds(entries) ==> s'.messages[x] == s.messages[x])
    decreases |entries|
  {
    if entries != [] {
      var e := entries[0];
      if e.messageId == "" {
        PlaceholderOrKept(s, userId, entries[1..], x);
      } else {
        var next := Put(s, e.messageId, Placeholder(userId, e));
        PutKeyed(s, e.messageId, Placeholder(userId, e));
        PlaceholderOrKept(next, userId, entries[1..], x);
        if x == e.messageId {
          LaterPlaceholders(next, userId, entries[1..], x);
        }
      }
    }
  }

  lemma {:induction false} LaterPlaceholders(s: HistoryState, userId: Option<Id>, entries: seq<Entry>, x: Id)
    requires x in s.messages && IsPlaceholder(s.messages[x], userId)
    ensures var s' := PutPlaceholders(s, userId, entries); x in s'.messages && IsPlaceholder(s'.messages[x], userId)
    decreases |entries|
  {
    if entries != [] {
      var e := entries[0];
      LaterPlaceholders(
        if e.messageId != "" then Put(s, e.messageId, Placeholder(userId, e)) else s, userId, entries[1..], x);
    }
  }

  lemma PutKeyed(s: HistoryState, x: Id, m: Message)
    requires Keyed(s.messages, s.keys)
    ensures Keyed(Put(s, x, m).messages, Put(s, x, m).keys)
  {
    if x !in s.messages {
      assert x !in s.keys by { assert x !in Elements(s.keys); }
      NoDupSnoc(s.keys, x);
    }
  }

  /** Every requested answer is a childless placeholder below the user message, which lists them all. */
  lemma NewRecord(userMessage: Option<Message>, entries: seq<Entry>, x: Id)
    ensures var s, ids := NewHistory(userMessage, entries), AssistantIds(entries);
            && Keyed(s.messages, s.keys)
            && (x in s.messages <==> x in ids || (Stored(userMessage) && IdOf(userMessage) == Some(x)))
            && (x in ids ==> IsPlaceholder(s.messages[x], IdOf(userMessage)))
            && (x in s.messages && x !in ids ==> s.messages[x] == userMessage.value.(childrenIds := Is(ids)))
  {
    var ids := AssistantIds(entries);
    assert Keyed(NOTHING.messages, NOTHING.keys);
    if Stored(userMessage) {
      PutKeyed(NOTHING, IdOf(userMessage).value, userMessage.value.(childrenIds := Is(ids)));
    }
    PlaceholderOrKept(PutUser(userMessage, ids), IdOf(userMessage), entries, x);
  }

  lemma {:induction false} OthersKept(s: HistoryState, userId: Option<Id>, entries: seq<Entry>, x: Id)
    requires x in s.messages && forall n | 0 <= n < |entries| :: entries[n].messageId != x
    ensures var ms := PutPlaceholders(s, userId, entries).messages; x in ms && ms[x] == s.messages[x]
    decreases |entries|
  {
    if entries != [] {
      var e, tail := entries[0], entries[1..];
      assert forall n | 0 <= n < |tail| :: tail[n] == entries[n + 1];
      OthersKept(if e.messageId != "" then Put(s, e.messageId, Placeholder(userId, e)) else s, userId, tail, x);
    }
  }

  lemma {:induction false} LastEntryWins(s: HistoryState, userId: Option<Id>, entries: seq<Entry>, n: nat)
    requires n < |entries| && entries[n].messageId != ""
    requires forall k | n < k < |entries| :: entries[k].messageId != entries[n].messageId
    ensures IsAnswer(PutPlaceholders(s, userId, entries).messages, userId, entries[n])
    decreases |entries|
  {
    var e, tail := entries[0], entries[1..];
    var next := if e.messageId != "" then Put(s, e.messageId, Placeholder(userId, e)) else s;
    assert forall k | 0 <= k < |tail| :: tail[k] == entries[k + 1];
    if n == 0 {
      OthersKept(next, userId, tail, e.messageId);
    } else {
      LastEntryWins(next, userId, tail, n - 1);
    }
  }

  /** The placeholder of an answer has the time and contents of the last entry that names it. */
  lemma NewAnswerRecord(userMessage: Option<Message>, entries: seq<Entry>, n: nat)
    requires n < |entries| && entries[n].messageId != ""
    requires forall k | n < k < |entries| :: entries[k].messageId != entries[n].messageId
    ensures IsAnswer(NewHistory(userMessage, entries).messages, IdOf(userMessage), entries[n])
  {
    LastEntryWins(PutUser(userMessage, AssistantIds(entries)), IdOf(userMessage), entries, n);
  }

  lemma OneMorePut(s: HistoryState, a: Id, m: Message, rest: seq<Id>)
    requires NoDup([a] + rest) && forall x | x in [a] + rest :: x !in s.messages
    ensures NoDup(rest) && forall x | x in rest :: x !in Put(s, a, m).messages
    ensures Put(s, a, m).keys + rest == s.keys + ([a] + rest)
  {
    assert a in [a] + rest;
    assert forall x | x in rest :: x in [a] + rest;
    TailDistinct(a, rest);
  }

  lemma {:induction false} PlaceholdersInOrder(s: HistoryState, userId: Option<Id>, entries: seq<Entry>)
    requires NoDup(AssistantIds(entries)) && forall a | a in AssistantIds(entries) :: a !in s.messages
    ensures PutPlaceholders(s, userId, entries).keys == s.keys + AssistantIds(entries)
    decreases |entries|
  {
    if entries != [] {
      var e, tail := entries[0], entries[1..];
      if e.messageId == "" {
        PlaceholdersInOrder(s, userId, tail);
      } else {
        OneMorePut(s, e.messageId, Placeholder(userId, e), AssistantIds(tail));
        PlaceholdersInOrder(Put(s, e.messageId, Placeholder(userId, e)), userId, tail);
      }
    }
  }

  lemma {:induction false} AnswersNamed(entries: seq<Entry>)
    ensures "" !in AssistantIds(entries)
  {
    if entries != [] {
      AnswersNamed(entries[1..]);
    }
  }

  // ---------------------------------------------------------------------------------------
  // When it is a forest
  // ---------------------------------------------------------------------------------------

  /** The id of a stored user message, its parent's and those of the answers are all different. */
  predicate DistinctIds(userMessage: Option<Message>, entries: seq<Entry>) {
    var ids := AssistantIds(entries);
    Stored(userMessage) ==>
      && (forall i, j :: 0 <= i < j < |ids| ==> ids[i] != ids[j])
      && IdOf(userMessage).value !in ids
      && (userMessage.value.Parent().Some? ==>
            userMessage.value.Parent() != IdOf(userMessage) && userMessage.value.Parent().value !in ids)
  }

  predicate HasRole(userMessage: Option<Message>) {
    Stored(userMessage) ==> userMessage.value.Role() != ""
  }

  lemma DistinctIsLinked(userMessage: Option<Message>, entries: seq<Entry>)
    requires DistinctIds(userMessage, entries)
    ensures Linked(NewHistory(userMessage, entries).messages)
  {
    var ms, ids := NewHistory(userMessage, entries).messages, AssistantIds(entries);
    AnswersNamed(entries);
    forall p | p in ms
      ensures NoDup(ms[p].Children())
    {
      NewRecord(userMessage, entries, p);
    }
    forall p, c | p in ms
      ensures Lists(ms, p, c) <==> HasParent(ms, c, p)
    {
      NewRecord(userMessage, entries, p);
      NewRecord(userMessage, entries, c);
    }
  }

  lemma DistinctIsForest(userMessage: Option<Message>, entries: seq<Entry>)
    requires DistinctIds(userMessage, entries) && HasRole(userMessage)
    ensures Forest(NewHistory(userMessage, entries))
  {
    var ms := NewHistory(userMessage, entries).messages;
    AnswersNamed(entries);
    forall x
      ensures x in ms ==> x != "" && ms[x].Role() != ""
    {
      NewRecord(userMessage, entries, x);
    }
    NewRecord(userMessage, entries, "");
    DistinctIsLinked(userMessage, entries);
    NewIsAcyclic(userMessage, entries);
  }

  lemma NewIsAcyclic(userMessage: Option<Message>, entries: seq<Entry>)
    requires DistinctIds(userMessage, entries)
    ensures Acyclic(NewHistory(userMessage, entries).messages)
  {
    var ms, ids := NewHistory(userMessage, entries).messages, AssistantIds(entries);
    var rank: map<Id, nat> := map x | x in ms :: if x in ids then 1 else 0;
    forall p, c | HasParent(ms, c, p) && p in ms
      ensures rank[p] < rank[c]
    {
      NewRecord(userMessage, entries, p);
      NewRecord(userMessage, entries, c);
      AnswersNamed(entries);
    }
    assert Ranked(ms, rank);
  }

  lemma ForestIsDistinct(userMessage: Option<Message>, entries: seq<Entry>)
    requires Forest(NewHistory(userMessage, entries))
    ensures DistinctIds(userMessage, entries) && HasRole(userMessage)
  {
    var ms, ids := NewHistory(userMessage, entries).messages, AssistantIds(entries);
    if Stored(userMessage) {
      var u := IdOf(userMessage).value;
      NewRecord(userMessage, entries, u);
      assert HasParent(ms, u, u) ==> Lists(ms, u, u);
      if u !in ids && userMessage.value.Parent().Some? {
        var p := userMessage.value.Parent().value;
        NewRecord(userMessage, entries, p);
        assert HasParent(ms, u, p) && p in ms ==> Lists(ms, p, u);
      }
    }
  }

  /** The first history is a linked, acyclic forest of messages with roles if and only if the ids
      of the request are distinct and the user message, if stored, has a role. */
  lemma NewHistoryIsForestExactly(userMessage: Option<Message>, entries: seq<Entry>)
    ensures Forest(NewHistory(userMessage, entries)) <==> DistinctIds(userMessage, entries) && HasRole(userMessage)
  {
    if DistinctIds(userMessage, entries) && HasRole(userMessage) {
      DistinctIsForest(userMessage, entries);
    } else if Forest(NewHistory(userMessage, entries)) {
      ForestIsDistinct(userMessage, entries);
    }
  }

  // ---------------------------------------------------------------------------------------
  // Its rows
  // ---------------------------------------------------------------------------------------

  ghost predicate NoRows(t: Table, chat: string) {
    OwnRows(t, chat) && forall x :: RowKey(chat, x) !in t
  }

  /** The initial rows mirror the new history exactly when every message has a role. */
  lemma NewRowsMirrorExactly(t: Table, chat: string, s: HistoryState)
    requires NoRows(t, chat) && Keyed(s.messages, s.keys)
    ensures Mirrors(Backfilled(t, chat, s.messages, s.keys), chat, s.messages) <==> RolesPresent(s.messages)
  {
    var t' := Backfilled(t, chat, s.messages, s.keys);
    BackfillOwn(t, chat, s.messages, s.keys);
    forall x
      ensures RowAgrees(t', chat, s.messages, x) <==> (x in s.messages ==> s.messages[x].Role() != "")
    {
      BackfillRow(t, chat, s.messages, s.keys, x);
      assert x in s.keys <==> x in Elements(s.keys);
    }
  }

  /** A new chat starts every run and conversation soundly, so what holds through those holds from
      the first request on. */
  lemma NewChatStartsSound(t: Table, chat: string, userMessage: Option<Message>, entries: seq<Entry>)
    requires NoRows(t, chat) && DistinctIds(userMessage, entries) && HasRole(userMessage)
    ensures var s := NewHistory(userMessage, entries);
            Forest(s) && Sound(chat, StoreState(s, Backfilled(t, chat, s.messages, s.keys)))
  {
    var s := NewHistory(userMessage, entries);
    DistinctIsForest(userMessage, entries);
    NewRowsMirrorExactly(t, chat, s);
    forall x | x in s.messages
      ensures var t' := Backfilled(t, chat, s.messages, s.keys); RowKey(chat, x) in t' && RowHolds(t'[RowKey(chat, x)], s.messages[x])
    {
      assert x in Elements(s.keys);
      BackfillMakesHeld(t, chat, s.messages, s.keys, x);
    }
  }

  // ---------------------------------------------------------------------------------------
  // Compared with a turn
  // ---------------------------------------------------------------------------------------

  ghost predicate SameLinks(ms: MessageMap, ms': MessageMap) {
    && ms.Keys == ms'.Keys
    && (forall x | x in ms :: ms[x].Parent() == ms'[x].Parent())
    && (forall x | x in ms :: Elements(ms[x].Children()) == Elements(ms'[x].Children()))
  }

  lemma SameParentsSameLinks(ms: MessageMap, ms': MessageMap)
    requires Linked(ms) && Linked(ms') && ms.Keys == ms'.Keys
    requires forall x | x in ms :: ms[x].Parent() == ms'[x].Parent()
    ensures SameLinks(ms, ms')
  {
    forall x | x in ms
      ensures Elements(ms[x].Children()) == Elements(ms'[x].Children())
    {
      forall c
        ensures c in ms[x].Children() <==> c in ms'[x].Children()
      {
        assert Lists(ms, x, c) <==> HasParent(ms, c, x);
        assert Lists(ms', x, c) <==> HasParent(ms', c, x);
      }
    }
  }

  /** Building the first history in one piece stores the same messages in the same order, with the
      same links, as a turn on an empty history; but it shows the first answer where the turn shows the last. */
  lemma NewChatMatchesTurn(r: Request)
    requires r.userMessage.Some? && Stored(r.userMessage) && FreshRequest(NOTHING, r)
    ensures var s, s', ids := NewHistory(r.userMessage, r.entries), AfterTurn(NOTHING, r), AssistantIds(r.entries);
            && SameLinks(s.messages, s'.messages)
            && s.keys == s'.keys
            && s.currentId == (if ids != [] then Some(ids[0]) else r.userId)
            && s'.currentId == (if ids != [] then Some(ids[|ids| - 1]) else r.userId)
            && (s.currentId == s'.currentId <==> |ids| <= 1)
  {
    var s, s', ids := NewHistory(r.userMessage, r.entries), AfterTurn(NOTHING, r), AssistantIds(r.entries);
    NothingIsForest();
    TurnKeepsForest(NOTHING, r);
    TurnCurrent(NOTHING, r);
    DistinctIsLinked(r.userMessage, r.entries);
    forall x
      ensures x in s.messages <==> x in s'.messages
      ensures x in s.messages ==> s.messages[x].Parent() == s'.messages[x].Parent()
    {
      NewRecord(r.userMessage, r.entries, x);
    }
    SameParentsSameLinks(s.messages, s'.messages);
    SameOrder(r);
  }

  lemma SameOrder(r: Request)
    requires r.userMessage.Some? && Stored(r.userMessage) && FreshRequest(NOTHING, r)
    ensures NewHistory(r.userMessage, r.entries).keys == AfterTurn(NOTHING, r).keys
  {
    NothingIsForest();
    TurnOrder(NOTHING, r);
    PlaceholdersInOrder(PutUser(r.userMessage, AssistantIds(r.entries)), r.userId, r.entries);
  }

  lemma NothingIsForest()
    ensures Forest(NOTHING)
  {
    assert Ranked(NOTHING.messages, map[]);
  }
}
