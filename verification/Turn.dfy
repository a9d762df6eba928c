/** What a whole turn in an existing chat does to the history, and what is missing part-way through. */
module Turn {
  import opened Common
  import opened Messages
  import opened Upsert
  import opened TurnSteps

  /** A history that waits for the answers of `entries` below the message `userId`. */
  ghost predicate AwaitsAnswers(s: HistoryState, userId: Option<Id>, ids: seq<Id>) {
    && Stage(s, {}, if userId.Some? && userId.value in s.messages then Pairs(userId.value, ids) else {})
    && NoDup(ids)
    && (forall a | a in ids :: Fresh(s.messages, a) && userId != Some(a))
  }

  /** Saving one placeholder settles exactly its own link. */
  lemma SaveAssistantStep(s: HistoryState, userId: Option<Id>, e: Entry, rest: seq<Id>)
    requires e.messageId != "" && AwaitsAnswers(s, userId, [e.messageId] + rest)
    ensures AwaitsAnswers(Upserted(s, e.messageId, Placeholder(userId, e), e.now), userId, rest)
    ensures Saved(s.messages, s.keys, e.messageId, Placeholder(userId, e), e.now).Parent() == userId
  {
    var a, m := e.messageId, Placeholder(userId, e);
    assert ([a] + rest)[0] == a && a in [a] + rest;
    TailDistinct(a, rest);
    SaveAssistantLinks(s, userId, e, rest);
    forall x | x in rest
      ensures Fresh(Upserted(s, a, m, e.now).messages, x)
    {
      assert x in [a] + rest;
      StaysFresh(s, a, m, e.now, x);
    }
  }

  lemma SaveAssistantLinks(s: HistoryState, userId: Option<Id>, e: Entry, rest: seq<Id>)
    requires e.messageId != "" && e.messageId !in rest
    requires AwaitsAnswers(s, userId, [e.messageId] + rest) && e.messageId in [e.messageId] + rest
    ensures var s' := Upserted(s, e.messageId, Placeholder(userId, e), e.now);
            Stage(s', {}, if userId.Some? && userId.value in s'.messages then Pairs(userId.value, rest) else {})
    ensures ParentFor(s.messages, s.keys, e.messageId, Placeholder(userId, e)) == userId
  {
    var a, m := e.messageId, Placeholder(userId, e);
    var stored := userId.Some? && userId.value in s.messages;
    var pending := if stored then Pairs(userId.value, [a] + rest) else {};
    InsertStage(s, a, m, e.now, {}, pending);
    ParentIsOwn(s, a, m, {}, pending);
    assert NotTo(pending, a) + Pairs(a, m.Children()) == if stored then Pairs(userId.value, rest) else {};
  }

  lemma TailDistinct(a: Id, rest: seq<Id>)
    requires NoDup([a] + rest)
    ensures NoDup(rest) && a !in rest
  {
    var ids := [a] + rest;
    forall i, j | 0 <= i < j < |rest|
      ensures rest[i] != rest[j]
    {
      assert rest[i] == ids[i + 1] && rest[j] == ids[j + 1];
    }
    forall i | 0 <= i < |rest|
      ensures rest[i] != a
    {
      assert rest[i] == ids[i + 1] && ids[0] == a;
    }
  }

  /** Part-way through the last step, only the answers not yet saved are pending. */
  lemma {:induction false} SavedSoFar(s: HistoryState, userId: Option<Id>, entries: seq<Entry>, k: nat)
    requires k <= |entries| && AwaitsAnswers(s, userId, AssistantIds(entries))
    ensures AwaitsAnswers(SaveAssistants(s, userId, entries[..k]), userId, AssistantIds(entries[k..]))
    decreases k
  {
    if k == 0 {
      assert entries[0..] == entries;
    } else {
      var e, tail, first := entries[0], entries[1..], entries[..k];
      assert first[0] == e && first[1..] == tail[..k - 1] && tail[k - 1..] == entries[k..];
      if e.messageId == "" {
        SavedSoFar(s, userId, tail, k - 1);
      } else {
        var next := Upserted(s, e.messageId, Placeholder(userId, e), e.now);
        assert AwaitsAnswers(next, userId, AssistantIds(tail)) by {
          SaveAssistantStep(s, userId, e, AssistantIds(tail));
        }
        SavedSoFar(next, userId, tail, k - 1);
      }
    }
  }

  lemma {:induction false} SaveAssistantsCurrent(s: HistoryState, userId: Option<Id>, entries: seq<Entry>)
    ensures SaveAssistants(s, userId, entries).currentId ==
            var ids := AssistantIds(entries); if ids != [] then Some(ids[|ids| - 1]) else s.currentId
    decreases |entries|
  {
    if entries != [] {
      var e := entries[0];
      SaveAssistantsCurrent(
        if e.messageId != "" then Upserted(s, e.messageId, Placeholder(userId, e), e.now) else s, userId, entries[1..]);
    }
  }

  /** Saving the placeholders keeps every earlier message. */
  lemma {:induction false} SaveAssistantsKeep(s: HistoryState, userId: Option<Id>, entries: seq<Entry>, x: Id)
    requires x in s.messages && x !in AssistantIds(entries)
    ensures x in SaveAssistants(s, userId, entries).messages
    ensures SaveAssistants(s, userId, entries).messages[x] == s.messages[x]
    decreases |entries|
  {
    if entries != [] {
      var e, ids := entries[0], AssistantIds(entries);
      assert e.messageId != "" ==> ids[0] == e.messageId && e.messageId in ids;
      SaveAssistantsKeep(
        if e.messageId != "" then Upserted(s, e.messageId, Placeholder(userId, e), e.now) else s, userId, entries[1..], x);
    }
  }

  /** Every placeholder hangs below the message it answers and has no children. */
  lemma {:induction false} SaveAssistantsNew(s: HistoryState, userId: Option<Id>, entries: seq<Entry>, a: Id)
    requires AwaitsAnswers(s, userId, AssistantIds(entries)) && a in AssistantIds(entries)
    ensures a in SaveAssistants(s, userId, entries).messages
    ensures SaveAssistants(s, userId, entries).messages[a].Parent() == userId
    ensures SaveAssistants(s, userId, entries).messages[a].Children() == []
    decreases |entries|
  {
    var e, tail := entries[0], entries[1..];
    if e.messageId == "" {
      SaveAssistantsNew(s, userId, tail, a);
    } else {
      var next := Upserted(s, e.messageId, Placeholder(userId, e), e.now);
      SaveAssistantStep(s, userId, e, AssistantIds(tail));
      TailDistinct(e.messageId, AssistantIds(tail));
      if a == e.messageId {
        NewIsChildless(s, userId, e, AssistantIds(entries));
        SaveAssistantsKeep(next, userId, tail, a);
      } else {
        SaveAssistantsNew(next, userId, tail, a);
      }
    }
  }

  lemma NewIsChildless(s: HistoryState, userId: Option<Id>, e: Entry, ids: seq<Id>)
    requires AwaitsAnswers(s, userId, ids) && e.messageId in ids
    ensures Saved(s.messages, s.keys, e.messageId, Placeholder(userId, e), e.now).Children() == []
  {
  }

  lemma KeysBeforeAnswers(s: HistoryState, r: Request)
    requires Forest(s) && FreshRequest(s, r)
    ensures LinkAssistants(LinkGrandparent(SaveUser(s, r), r), r).messages.Keys == SaveUser(s, r).messages.Keys
  {
    GrandparentLinked(s, r);
    AssistantsLinked(s, r);
  }

  lemma TurnReady(s: HistoryState, r: Request)
    requires Forest(s) && FreshRequest(s, r)
    ensures AwaitsAnswers(LinkAssistants(LinkGrandparent(SaveUser(s, r), r), r), r.userId, AssistantIds(r.entries))
  {
    LinkAssistantsStep(s, r);
    AnswersStayFresh(s, r);
    KeysBeforeAnswers(s, r);
    if AssistantIds(r.entries) == [] {
      assert r.userId.Some? ==> Pairs(r.userId.value, []) == {};
    }
  }

  /** At each point of the turn there is no cycle, and only the named link halves are missing: the
      user message in its parent's list, then the children it lists, then the answers not yet saved. */
  lemma TurnInBetween(s: HistoryState, r: Request, k: nat)
    requires Forest(s) && FreshRequest(s, r) && k <= |r.entries|
    ensures var s1 := SaveUser(s, r);
            var s2 := LinkGrandparent(s1, r);
            var s3 := LinkAssistants(s2, r);
            && Acyclic(s1.messages) && HalfLinked(s1.messages, UnlistedAfterSave(s, r), PendingAfterSave(r))
            && Acyclic(s2.messages) && HalfLinked(s2.messages, {}, PendingAfterSave(r))
            && HalfLinked(s3.messages, {}, PendingAnswers(s, r, AssistantIds(r.entries)))
            && Acyclic(SaveAssistants(s3, r.userId, r.entries[..k]).messages)
            && HalfLinked(SaveAssistants(s3, r.userId, r.entries[..k]).messages, {},
                          PendingAnswers(s, r, AssistantIds(r.entries[k..])))
  {
    SaveUserStep(s, r);
    LinkGrandparentStep(s, r);
    LinkAssistantsStep(s, r);
    TurnReady(s, r);
    var s3 := LinkAssistants(LinkGrandparent(SaveUser(s, r), r), r);
    SavedSoFar(s3, r.userId, r.entries, k);
    SavedKeys(s, s3, r, k);
  }

  lemma SavedKeys(s: HistoryState, s3: HistoryState, r: Request, k: nat)
    requires Forest(s) && FreshRequest(s, r) && k <= |r.entries|
    requires s3 == LinkAssistants(LinkGrandparent(SaveUser(s, r), r), r)
    ensures var s4 := SaveAssistants(s3, r.userId, r.entries[..k]);
            (if r.userId.Some? && r.userId.value in s4.messages then Pairs(r.userId.value, AssistantIds(r.entries[k..])) else {})
            == PendingAnswers(s, r, AssistantIds(r.entries[k..]))
  {
    KeysBeforeAnswers(s, r);
    AssistantIdsSplit(r.entries, k);
    SaveAssistantsKeys(s3, r.userId, r.entries[..k]);
    var ids, first, last := AssistantIds(r.entries), AssistantIds(r.entries[..k]), AssistantIds(r.entries[k..]);
    if r.userId.Some? {
      assert r.userId.value !in first;
      if ids == [] {
        assert last == [];
        assert Pairs(r.userId.value, last) == {};
      }
    }
  }

  lemma {:induction false} AssistantIdsSplit(entries: seq<Entry>, k: nat)
    requires k <= |entries|
    ensures AssistantIds(entries) == AssistantIds(entries[..k]) + AssistantIds(entries[k..])
  {
    if k == 0 {
      assert entries[0..] == entries;
    } else {
      var e, tail, first := entries[0], entries[1..], entries[..k];
      AssistantIdsSplit(tail, k - 1);
      assert first[0] == e && first[1..] == tail[..k - 1] && tail[k - 1..] == entries[k..];
    }
  }

  lemma {:induction false} SaveAssistantsKeys(s: HistoryState, userId: Option<Id>, entries: seq<Entry>)
    ensures SaveAssistants(s, userId, entries).messages.Keys == s.messages.Keys + Elements(AssistantIds(entries))
    decreases |entries|
  {
    if entries != [] {
      var e := entries[0];
      SaveAssistantsKeys(
        if e.messageId != "" then Upserted(s, e.messageId, Placeholder(userId, e), e.now) else s, userId, entries[1..]);
    }
  }

  lemma TurnEndsInForest(s: HistoryState, r: Request)
    requires Forest(s) && FreshRequest(s, r)
    ensures Forest(AfterTurn(s, r))
  {
    TurnReady(s, r);
    SavedSoFar(LinkAssistants(LinkGrandparent(SaveUser(s, r), r), r), r.userId, r.entries, |r.entries|);
    assert r.entries[..|r.entries|] == r.entries;
    assert r.userId.Some? ==> Pairs(r.userId.value, []) == {};
    ForestIsStage(AfterTurn(s, r));
  }

  /** A turn takes a linked, acyclic history to a linked, acyclic history and adds exactly the user
      message and the answers, which hang below the message they answer. */
  lemma TurnKeepsForest(s: HistoryState, r: Request)
    requires Forest(s) && FreshRequest(s, r)
    ensures Forest(AfterTurn(s, r))
    ensures AfterTurn(s, r).messages.Keys ==
            s.messages.Keys + (if r.userMessage.Some? then {UserMessageId(r)} else {}) + Elements(AssistantIds(r.entries))
    ensures forall a | a in AssistantIds(r.entries) :: ParentIs(AfterTurn(s, r).messages, a, r.userId)
    ensures r.userMessage.Some? ==>
              ParentIs(AfterTurn(s, r).messages, UserMessageId(r), r.userMessage.value.Parent())
  {
    TurnEndsInForest(s, r);
    TurnReady(s, r);
    KeysBeforeAnswers(s, r);
    SaveUserFrame(s, r);
    var s3 := LinkAssistants(LinkGrandparent(SaveUser(s, r), r), r);
    SaveAssistantsKeys(s3, r.userId, r.entries);
    forall a | a in AssistantIds(r.entries)
      ensures ParentIs(AfterTurn(s, r).messages, a, r.userId)
    {
      SaveAssistantsNew(s3, r.userId, r.entries, a);
    }
    if r.userMessage.Some? {
      UserParentKept(s, r);
      SaveAssistantsKeep(s3, r.userId, r.entries, UserMessageId(r));
    }
  }

  lemma UserParentKept(s: HistoryState, r: Request)
    requires Forest(s) && FreshRequest(s, r) && r.userMessage.Some?
    ensures ParentIs(LinkAssistants(LinkGrandparent(SaveUser(s, r), r), r).messages, UserMessageId(r), r.userMessage.value.Parent())
  {
    SaveUserFrame(s, r);
    GrandparentLinked(s, r);
    AssistantsLinked(s, r);
  }

  ghost predicate ParentIs(ms: MessageMap, x: Id, parent: Option<Id>) {
    x in ms && ms[x].Parent() == parent
  }

  lemma AnswersAreNew(s: HistoryState, r: Request, x: Id)
    requires Forest(s) && FreshRequest(s, r) && x in s.messages
    ensures NewAnswers(s, r, x) == AssistantIds(r.entries)
    ensures r.userMessage.Some? ==> r.userId != Some(x)
  {
    SaveUserFrame(s, r);
    forall a | a in AssistantIds(r.entries)
      ensures a !in Elements(s.messages[x].Children())
    {
      assert !HasParent(s.messages, a, x);
      assert !Lists(s.messages, x, a);
    }
    DropNone(AssistantIds(r.entries), Elements(s.messages[x].Children()));
  }

  /** A turn changes no earlier message other than the one the user replies to, which gains the
      user message as last child, and an earlier one being answered, which gains the answers. */
  lemma TurnFrame(s: HistoryState, r: Request, x: Id)
    requires Forest(s) && FreshRequest(s, r) && x in s.messages
    ensures x in AfterTurn(s, r).messages
    ensures AfterTurn(s, r).messages[x] ==
            if r.userMessage.Some? && r.userMessage.value.Parent() == Some(x)
            then s.messages[x].(childrenIds := Is(s.messages[x].Children() + [UserMessageId(r)]))
            else if r.userId == Some(x) && AssistantIds(r.entries) != []
            then s.messages[x].(childrenIds := Is(s.messages[x].Children() + AssistantIds(r.entries)))
            else s.messages[x]
  {
    FrameBeforeAnswers(s, r, x);
    SaveAssistantsKeep(LinkAssistants(LinkGrandparent(SaveUser(s, r), r), r), r.userId, r.entries, x);
  }

  lemma FrameBeforeAnswers(s: HistoryState, r: Request, x: Id)
    requires Forest(s) && FreshRequest(s, r) && x in s.messages
    ensures var s3 := LinkAssistants(LinkGrandparent(SaveUser(s, r), r), r);
            && x in s3.messages
            && s3.messages[x] ==
               if r.userMessage.Some? && r.userMessage.value.Parent() == Some(x)
               then s.messages[x].(childrenIds := Is(s.messages[x].Children() + [UserMessageId(r)]))
               else if r.userId == Some(x) && AssistantIds(r.entries) != []
               then s.messages[x].(childrenIds := Is(s.messages[x].Children() + AssistantIds(r.entries)))
               else s.messages[x]
  {
    FrameAfterGrandparent(s, r, x);
    AnswersAreNew(s, r, x);
    FrameAfterAssistants(s, r, x);
  }

  lemma FrameAfterAssistants(s: HistoryState, r: Request, x: Id)
    requires Forest(s) && FreshRequest(s, r) && x in s.messages && x in LinkGrandparent(SaveUser(s, r), r).messages
    ensures var s2, s3 := LinkGrandparent(SaveUser(s, r), r), LinkAssistants(LinkGrandparent(SaveUser(s, r), r), r);
            && x in s3.messages
            && s3.messages[x] ==
               if r.userId == Some(x) && AssistantIds(r.entries) != []
               then s2.messages[x].(childrenIds := Is(s2.messages[x].Children() + NewAnswers(s, r, x)))
               else s2.messages[x]
  {
    AssistantsLinked(s, r);
    var s2, ids := LinkGrandparent(SaveUser(s, r), r), AssistantIds(r.entries);
    if r.userId == Some(x) && ids != [] {
      SaveUserFrame(s, r);
      assert AnswerParent(s, r) == Some(x);
      PatchedKids(s2.messages[x], s2.messages[x].Children() + NewAnswers(s, r, x));
    }
  }

  lemma PatchedKids(m: Message, kids: seq<Id>)
    ensures m.With(ChildrenPatch(kids)) == m.(childrenIds := Is(kids))
  {
    assert m.rest + map[] == m.rest;
  }

  lemma FrameAfterGrandparent(s: HistoryState, r: Request, x: Id)
    requires Forest(s) && FreshRequest(s, r) && x in s.messages
    ensures var s2 := LinkGrandparent(SaveUser(s, r), r);
            && x in s2.messages
            && s2.messages[x] ==
               if r.userMessage.Some? && r.userMessage.value.Parent() == Some(x)
               then s.messages[x].(childrenIds := Is(s.messages[x].Children() + [UserMessageId(r)]))
               else s.messages[x]
  {
    SaveUserFrame(s, r);
    GrandparentLinked(s, r);
  }

  /** With at least one answer the turn ends on the last one, a leaf. Without any, it ends on the
      message the user replied to when that is stored, otherwise on the user message. */
  lemma TurnCurrent(s: HistoryState, r: Request)
    requires Forest(s) && FreshRequest(s, r)
    ensures var ids := AssistantIds(r.entries);
            if ids != [] then
              && AfterTurn(s, r).currentId == Some(ids[|ids| - 1])
              && ChildrenOf(AfterTurn(s, r).messages, ids[|ids| - 1]) == []
            else if r.userMessage.Some? then
              var g := r.userMessage.value.Parent();
              AfterTurn(s, r).currentId == if g.Some? && g.value in s.messages then g else Some(UserMessageId(r))
            else AfterTurn(s, r).currentId == s.currentId
  {
    TurnReady(s, r);
    GrandparentLinked(s, r);
    AssistantsLinked(s, r);
    var s3, ids := LinkAssistants(LinkGrandparent(SaveUser(s, r), r), r), AssistantIds(r.entries);
    SaveAssistantsCurrent(s3, r.userId, r.entries);
    if ids != [] {
      SaveAssistantsNew(s3, r.userId, r.entries, ids[|ids| - 1]);
    }
  }
}
