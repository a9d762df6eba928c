/** The records a turn stores, and where they go in the order of the dictionary. */
module TurnRecords {
  import opened Common
  import opened Messages
  import opened Upsert
  import opened TurnSteps
  import opened Turn

  /** The record of a requested answer. */
  ghost predicate IsAnswer(ms: MessageMap, userId: Option<Id>, e: Entry) {
    && e.messageId in ms
    && ms[e.messageId] == Message(Is(e.messageId), Is(userId), Is([]), Is("assistant"), Is(e.now), Absent, e.body)
  }

  lemma FreshSaved(s: HistoryState, userId: Option<Id>, entries: seq<Entry>)
    requires entries != [] && entries[0].messageId != "" && AwaitsAnswers(s, userId, AssistantIds(entries))
    ensures var e := entries[0];
            Upserted(s, e.messageId, Placeholder(userId, e), e.now).messages[e.messageId] ==
            Message(Is(e.messageId), Is(userId), Is([]), Is("assistant"), Is(e.now), Absent, e.body)
  {
    var e := entries[0];
    SaveAssistantStep(s, userId, e, AssistantIds(entries[1..]));
    assert e.messageId in AssistantIds(entries);
  }

  lemma FirstRecord(s: HistoryState, userId: Option<Id>, entries: seq<Entry>)
    requires entries != [] && entries[0].messageId != "" && AwaitsAnswers(s, userId, AssistantIds(entries))
    ensures IsAnswer(SaveAssistants(s, userId, entries).messages, userId, entries[0])
  {
    var e, tail := entries[0], entries[1..];
    FreshSaved(s, userId, entries);
    TailDistinct(e.messageId, AssistantIds(tail));
    SaveAssistantsKeep(Upserted(s, e.messageId, Placeholder(userId, e), e.now), userId, tail, e.messageId);
  }

  /** What is awaited once the first entry is dealt with. */
  lemma AwaitsRest(s: HistoryState, userId: Option<Id>, entries: seq<Entry>)
    requires entries != [] && AwaitsAnswers(s, userId, AssistantIds(entries))
    ensures AwaitsAnswers(Written(s, EntryWrite(userId, entries[0])), userId, AssistantIds(entries[1..]))
  {
    if entries[0].messageId != "" {
      SaveAssistantStep(s, userId, entries[0], AssistantIds(entries[1..]));
    }
  }

  lemma {:induction false} SavedRecord(s: HistoryState, userId: Option<Id>, entries: seq<Entry>, n: nat)
    requires n < |entries| && entries[n].messageId != "" && AwaitsAnswers(s, userId, AssistantIds(entries))
    ensures IsAnswer(SaveAssistants(s, userId, entries).messages, userId, entries[n])
    decreases |entries|
  {
    if n == 0 {
      FirstRecord(s, userId, entries);
    } else {
      AwaitsRest(s, userId, entries);
      SavedRecord(Written(s, EntryWrite(userId, entries[0])), userId, entries[1..], n - 1);
    }
  }

  /** Each requested answer is stored as a childless assistant message below the user message, with
      the time and contents of its entry and no output yet. */
  lemma AnswerRecord(s: HistoryState, r: Request, n: nat)
    requires Forest(s) && FreshRequest(s, r) && n < |r.entries| && r.entries[n].messageId != ""
    ensures IsAnswer(AfterTurn(s, r).messages, r.userId, r.entries[n])
  {
    TurnReady(s, r);
    SavedRecord(LinkAssistants(LinkGrandparent(SaveUser(s, r), r), r), r.userId, r.entries, n);
  }

  /** The user message is stored as it was sent, with the answers it did not list yet, in the order
      of the request, at the end of its list. */
  lemma UserRecord(s: HistoryState, r: Request)
    requires Forest(s) && FreshRequest(s, r) && r.userMessage.Some?
    ensures var sent, u, ms := r.userMessage.value, r.userMessage.value.id.value, AfterTurn(s, r).messages;
            && u in ms
            && ms[u] == sent.(
                 parentId := Is(sent.Parent()),
                 childrenIds := Is(sent.Children() + Drop(AssistantIds(r.entries), Elements(sent.Children()))),
                 role := ms[u].role,
                 timestamp := Is(if sent.Time() != 0 then sent.Time() else r.now))
            && (sent.Role() != "" ==> ms[u].role == sent.role)
  {
    SaveUserFrame(s, r);
    UserLinked(s, r);
    var s3 := LinkAssistants(LinkGrandparent(SaveUser(s, r), r), r);
    TurnReady(s, r);
    SaveAssistantsKeep(s3, r.userId, r.entries, UserMessageId(r));
  }

  lemma UserLinked(s: HistoryState, r: Request)
    requires Forest(s) && FreshRequest(s, r) && r.userMessage.Some?
    ensures var u, s1, s3 := UserMessageId(r), SaveUser(s, r), LinkAssistants(LinkGrandparent(SaveUser(s, r), r), r);
            && u in s1.messages && u in s3.messages
            && s3.messages[u] == s1.messages[u].(
                 childrenIds := Is(s1.messages[u].Children() + Drop(AssistantIds(r.entries), Elements(s1.messages[u].Children()))))
            && s1.messages[u].childrenIds.Is?
  {
    SaveUserFrame(s, r);
    GrandparentLinked(s, r);
    AssistantsLinked(s, r);
    var u, s1, s2 := UserMessageId(r), SaveUser(s, r), LinkGrandparent(SaveUser(s, r), r);
    assert s2.messages[u] == s1.messages[u];
    var own, ids := s1.messages[u].Children(), AssistantIds(r.entries);
    if ids == [] {
      assert own + Drop(ids, Elements(own)) == own;
    } else {
      assert AnswerParent(s, r) == Some(u) && NewAnswers(s, r, u) == Drop(ids, Elements(own));
      PatchedKids(s2.messages[u], own + Drop(ids, Elements(own)));
    }
  }

  lemma OneMoreKey(s: HistoryState, a: Id, m: Message, now: int, rest: seq<Id>)
    requires NoDup([a] + rest) && forall x | x in [a] + rest :: x !in s.messages
    ensures NoDup(rest) && forall x | x in rest :: x !in Upserted(s, a, m, now).messages
    ensures Upserted(s, a, m, now).keys + rest == s.keys + ([a] + rest)
  {
    assert a in [a] + rest;
    assert forall x | x in rest :: x in [a] + rest;
    TailDistinct(a, rest);
  }

  lemma {:induction false} SaveAssistantsOrder(s: HistoryState, userId: Option<Id>, entries: seq<Entry>)
    requires NoDup(AssistantIds(entries)) && forall a | a in AssistantIds(entries) :: a !in s.messages
    ensures SaveAssistants(s, userId, entries).keys == s.keys + AssistantIds(entries)
    decreases |entries|
  {
    if entries != [] {
      var e, tail := entries[0], entries[1..];
      if e.messageId == "" {
        SaveAssistantsOrder(s, userId, tail);
      } else {
        OneMoreKey(s, e.messageId, Placeholder(userId, e), e.now, AssistantIds(tail));
        SaveAssistantsOrder(Upserted(s, e.messageId, Placeholder(userId, e), e.now), userId, tail);
      }
    }
  }

  /** The user message and then the answers, as requested, go to the end of the dictionary. */
  lemma TurnOrder(s: HistoryState, r: Request)
    requires Forest(s) && FreshRequest(s, r)
    ensures AfterTurn(s, r).keys ==
            s.keys + (if r.userMessage.Some? then [r.userMessage.value.id.value] else []) + AssistantIds(r.entries)
  {
    TurnReady(s, r);
    LinksKeepOrder(s, r);
    SaveAssistantsOrder(LinkAssistants(LinkGrandparent(SaveUser(s, r), r), r), r.userId, r.entries);
  }

  lemma LinksKeepOrder(s: HistoryState, r: Request)
    requires Forest(s) && FreshRequest(s, r)
    ensures LinkAssistants(LinkGrandparent(SaveUser(s, r), r), r).keys ==
            s.keys + if r.userMessage.Some? then [r.userMessage.value.id.value] else []
  {
    SaveUserFrame(s, r);
    GrandparentLinked(s, r);
    AssistantsLinked(s, r);
  }

  /** The ids of a request's answers are those of its entries, in order, without the empty ones. */
  lemma {:induction false} AssistantIdsAre(entries: seq<Entry>)
    ensures AssistantIds(entries) == Drop(seq(|entries|, i requires 0 <= i < |entries| => entries[i].messageId), {""})
  {
    if entries != [] {
      var tail := entries[1..];
      var ids := seq(|entries|, i requires 0 <= i < |entries| => entries[i].messageId);
      AssistantIdsAre(tail);
      assert ids[1..] == seq(|tail|, i requires 0 <= i < |tail| => tail[i].messageId);
    }
  }

  // ---------------------------------------------------------------------------------------
  // Linking, whatever the history looks like
  // ---------------------------------------------------------------------------------------

  /** Linking the user message appends it to its parent's list, unless it is listed already or no such
      message with contents is stored; then nothing happens. */
  lemma GrandparentLinkedOnce(s: HistoryState, r: Request)
    ensures var s', u := LinkGrandparent(s, r), UserMessageId(r);
            var links := u != "" && r.userMessage.value.Parent().Some? &&
              var g := r.userMessage.value.Parent().value;
              g != "" && g in s.messages && s.messages[g] != EMPTY && u !in s.messages[g].Children();
            if !links then s' == s
            else
              var g := r.userMessage.value.Parent().value;
              && s'.messages == s.messages[g := s.messages[g].(childrenIds := Is(s.messages[g].Children() + [u]))]
              && s'.keys == s.keys && s'.currentId == Some(g)
  {
    if UserMessageId(r) != "" && r.userMessage.value.Parent().Some? && r.userMessage.value.Parent().value in s.messages {
      var g := r.userMessage.value.Parent().value;
      PatchedKids(s.messages[g], s.messages[g].Children() + [UserMessageId(r)]);
    }
  }

  /** Extending a list keeps what it had, in place; adds the missing ids and no others, and repeats
      none of them. */
  lemma {:induction false} AppendNewExtends(kids: seq<Id>, ids: seq<Id>)
    ensures kids <= AppendNew(kids, ids)
    ensures forall x :: x in AppendNew(kids, ids) <==> x in kids || x in ids
    ensures NoDup(kids) ==> NoDup(AppendNew(kids, ids))
    decreases |ids|
  {
    if ids != [] {
      var next := if ids[0] in kids then kids else kids + [ids[0]];
      AppendNewExtends(next, ids[1..]);
      assert forall x :: x in ids <==> x == ids[0] || x in ids[1..];
    }
  }

  /** Linking the answers extends the list of the stored message they answer. */
  lemma AnswersLinkedOnce(s: HistoryState, r: Request)
    ensures var s', ids := LinkAssistants(s, r), AssistantIds(r.entries);
            var links := ids != [] && r.userId.Some? && r.userId.value != "" && r.userId.value in s.messages
                         && s.messages[r.userId.value] != EMPTY;
            if !links then s' == s
            else
              var u := r.userId.value;
              && s'.messages == s.messages[u := s.messages[u].(childrenIds := Is(AppendNew(s.messages[u].Children(), ids)))]
              && s'.keys == s.keys && s'.currentId == Some(u)
  {
    if r.userId.Some? && r.userId.value in s.messages {
      PatchedKids(s.messages[r.userId.value], AppendNew(s.messages[r.userId.value].Children(), AssistantIds(r.entries)));
    }
  }
}
