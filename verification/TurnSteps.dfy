/** The steps of one turn in an existing chat: the user message is saved and linked below its parent,
    the assistants' ids are listed below the user message, and a placeholder is saved for each. */
module TurnSteps {
  import opened Common
  import opened Messages
  import opened Upsert

  /** One requested answer; an empty `messageId` stands for a missing one. */
  datatype Entry = Entry(messageId: Id, body: map<string, string>, now: int)

  datatype Request = Request(userMessage: Option<Message>, userId: Option<Id>, entries: seq<Entry>, now: int)

  const EMPTY := Message(Absent, Absent, Absent, Absent, Absent, Absent, map[])

  function UserMessageId(r: Request): Id {
    if r.userMessage.Some? && r.userMessage.value.id.Is? then r.userMessage.value.id.value else ""
  }

  function AssistantIds(entries: seq<Entry>): seq<Id> {
    if entries == [] then []
    else if entries[0].messageId == "" then AssistantIds(entries[1..])
    else [entries[0].messageId] + AssistantIds(entries[1..])
  }

  function Placeholder(userId: Option<Id>, e: Entry): Message {
    Message(Is(e.messageId), Is(userId), Is([]), Is("assistant"), Is(e.now), Absent, e.body)
  }

  /** `child_ids` extended by each id it does not contain yet. */
  function AppendNew(kids: seq<Id>, ids: seq<Id>): seq<Id>
    decreases |ids|
  {
    if ids == [] then kids else AppendNew(if ids[0] in kids then kids else kids + [ids[0]], ids[1..])
  }

  /** One upsert of the turn. */
  datatype Write = Write(x: Id, patch: Message, now: int)

  function Written(s: HistoryState, w: Option<Write>): HistoryState {
    if w.Some? then Upserted(s, w.value.x, w.value.patch, w.value.now) else s
  }

  // What the four steps of the turn write, if anything.

  function UserWrite(r: Request): Option<Write> {
    if UserMessageId(r) != "" then Some(Write(UserMessageId(r), r.userMessage.value, r.now)) else None
  }

  function GrandparentWrite(s: HistoryState, r: Request): Option<Write> {
    if UserMessageId(r) == "" || r.userMessage.value.Parent() == None then None
    else
      var g := r.userMessage.value.Parent().value;
      if g == "" || g !in s.messages || s.messages[g] == EMPTY || UserMessageId(r) in s.messages[g].Children() then None
      else Some(Write(g, ChildrenPatch(s.messages[g].Children() + [UserMessageId(r)]), r.now))
  }

  function AssistantsWrite(s: HistoryState, r: Request): Option<Write> {
    if r.userId == None || r.userId.value == "" || AssistantIds(r.entries) == [] then None
    else
      var u := r.userId.value;
      if u !in s.messages || s.messages[u] == EMPTY then None
      else Some(Write(u, ChildrenPatch(AppendNew(s.messages[u].Children(), AssistantIds(r.entries))), r.now))
  }

  function EntryWrite(userId: Option<Id>, e: Entry): Option<Write> {
    if e.messageId != "" then Some(Write(e.messageId, Placeholder(userId, e), e.now)) else None
  }

  function SaveUser(s: HistoryState, r: Request): HistoryState {
    Written(s, UserWrite(r))
  }

  function LinkGrandparent(s: HistoryState, r: Request): HistoryState {
    Written(s, GrandparentWrite(s, r))
  }

  function LinkAssistants(s: HistoryState, r: Request): HistoryState {
    Written(s, AssistantsWrite(s, r))
  }

  function SaveAssistants(s: HistoryState, userId: Option<Id>, entries: seq<Entry>): HistoryState
    decreases |entries|
  {
    if entries == [] then s else SaveAssistants(Written(s, EntryWrite(userId, entries[0])), userId, entries[1..])
  }

  function AfterTurn(s: HistoryState, r: Request): HistoryState {
    SaveAssistants(LinkAssistants(LinkGrandparent(SaveUser(s, r), r), r), r.userId, r.entries)
  }

  // ---------------------------------------------------------------------------------------
  // What a turn may start from
  // ---------------------------------------------------------------------------------------

  ghost predicate Forest(s: HistoryState) {
    Keyed(s.messages, s.keys) && WellFormed(s.messages) && Linked(s.messages) && Acyclic(s.messages)
  }

  /** The ids of the request are new and distinct, the request names its own user message, and that
      message lists no child other than the requested answers. */
  ghost predicate FreshRequest(s: HistoryState, r: Request) {
    var ids := AssistantIds(r.entries);
    && NoDup(ids)
    && (forall a | a in ids :: Fresh(s.messages, a))
    && (r.userId.Some? ==> r.userId.value !in ids)
    && (r.userMessage.Some? ==>
          && var u := UserMessageId(r);
          && Fresh(s.messages, u)
          && u !in ids
          && r.userId == Some(u)
          && r.userMessage.value.role != Is("")
          && NoDup(r.userMessage.value.Children())
          && (forall c | c in r.userMessage.value.Children() :: c in ids)
          && (r.userMessage.value.Parent().Some? ==>
                r.userMessage.value.Parent().value != u && r.userMessage.value.Parent().value !in ids))
  }

  // ---------------------------------------------------------------------------------------
  // The four steps
  // ---------------------------------------------------------------------------------------

  /** The grandparent link is missing one half after the user message is saved. */
  ghost function UnlistedAfterSave(s: HistoryState, r: Request): set<Id> {
    if r.userMessage.Some? && r.userMessage.value.Parent().Some? && r.userMessage.value.Parent().value in s.messages
    then {UserMessageId(r)} else {}
  }

  ghost function PendingAfterSave(r: Request): set<(Id, Id)> {
    if r.userMessage.Some? then Pairs(UserMessageId(r), r.userMessage.value.Children()) else {}
  }

  lemma ForestIsStage(s: HistoryState)
    ensures Forest(s) <==> Stage(s, {}, {})
  {
    LinkedIsHalfLinked(s.messages);
  }

  /** After saving the user message, exactly its entry in the grandparent's list is missing, and
      exactly the children it brought along are pending. */
  lemma SaveUserStep(s: HistoryState, r: Request)
    requires Forest(s) && FreshRequest(s, r)
    ensures Stage(SaveUser(s, r), UnlistedAfterSave(s, r), PendingAfterSave(r))
  {
    ForestIsStage(s);
    if r.userMessage.Some? {
      var u, m := UserMessageId(r), r.userMessage.value;
      InsertStage(s, u, m, r.now, {}, {});
      assert NotTo({}, u) + Pairs(u, m.Children()) == PendingAfterSave(r);
      assert Unlisting(s.messages, {}, {}, u, m.Parent()) == UnlistedAfterSave(s, r);
    }
  }

  lemma SaveUserFrame(s: HistoryState, r: Request)
    requires Forest(s) && FreshRequest(s, r)
    ensures var s1 := SaveUser(s, r);
            && s1.messages.Keys == s.messages.Keys + (if r.userMessage.Some? then {UserMessageId(r)} else {})
            && (forall x | x in s.messages :: s1.messages[x] == s.messages[x])
            && (r.userMessage.Some? ==>
                  && s1.messages[UserMessageId(r)].Parent() == r.userMessage.value.Parent()
                  && s1.messages[UserMessageId(r)].Children() == r.userMessage.value.Children())
  {
    if r.userMessage.Some? {
      ForestIsStage(s);
      ParentIsOwn(s, UserMessageId(r), r.userMessage.value, {}, {});
    }
  }

  /** Saving the user message and linking it touch nothing an answer refers to. */
  lemma AnswersStayFresh(s: HistoryState, r: Request)
    requires Forest(s) && FreshRequest(s, r)
    ensures forall a | a in AssistantIds(r.entries) ::
              && Fresh(SaveUser(s, r).messages, a)
              && Fresh(LinkGrandparent(SaveUser(s, r), r).messages, a)
              && Fresh(LinkAssistants(LinkGrandparent(SaveUser(s, r), r), r).messages, a)
  {
    var s1 := SaveUser(s, r);
    var s2 := LinkGrandparent(s1, r);
    var s3 := LinkAssistants(s2, r);
    forall a | a in AssistantIds(r.entries)
      ensures Fresh(s1.messages, a) && Fresh(s2.messages, a) && Fresh(s3.messages, a)
    {
      if r.userMessage.Some? {
        ForestIsStage(s);
        ParentIsOwn(s, UserMessageId(r), r.userMessage.value, {}, {});
        StaysFresh(s, UserMessageId(r), r.userMessage.value, r.now, a);
      }
      if s2 != s1 {
        var g := r.userMessage.value.Parent().value;
        StaysFresh(s1, g, ChildrenPatch(s1.messages[g].Children() + [UserMessageId(r)]), r.now, a);
      }
      if s3 != s2 {
        var u := r.userId.value;
        StaysFresh(s2, u, ChildrenPatch(AppendNew(s2.messages[u].Children(), AssistantIds(r.entries))), r.now, a);
      }
    }
  }

  /** The grandparent's list is extended exactly when the grandparent is stored. */
  lemma GrandparentLinked(s: HistoryState, r: Request)
    requires Forest(s) && FreshRequest(s, r)
    ensures var s1 := SaveUser(s, r);
            LinkGrandparent(s1, r) ==
            if UnlistedAfterSave(s, r) != {} then
              var g := r.userMessage.value.Parent().value;
              Upserted(s1, g, ChildrenPatch(s1.messages[g].Children() + [UserMessageId(r)]), r.now)
            else s1
    ensures UnlistedAfterSave(s, r) != {} ==>
              && UserMessageId(r) !in SaveUser(s, r).messages[r.userMessage.value.Parent().value].Children()
              && HasParent(SaveUser(s, r).messages, UserMessageId(r), r.userMessage.value.Parent().value)
  {
    SaveUserFrame(s, r);
    if UnlistedAfterSave(s, r) != {} {
      var u, g := UserMessageId(r), r.userMessage.value.Parent().value;
      assert !Lists(s.messages, g, u) by { assert !HasParent(s.messages, u, g); }
      assert s.messages[g].Role() != "" && s.messages[g] != EMPTY;
    }
  }

  /** Listing the one unlisted message below its parent settles its link. */
  lemma LinkOne(s: HistoryState, g: Id, u: Id, now: int, pending: set<(Id, Id)>)
    requires Stage(s, {u}, pending) && g in s.messages && u !in s.messages[g].Children() && HasParent(s.messages, u, g)
    ensures Stage(Upserted(s, g, ChildrenPatch(s.messages[g].Children() + [u]), now), {}, pending)
  {
    AppendStage(s, g, [u], now, {u}, pending);
    assert {u} - Elements([u]) == {};
    assert pending + Pairs(g, Drop([u], s.messages.Keys)) == pending;
  }

  /** Linking the grandparent leaves only the pending children. */
  lemma LinkGrandparentStep(s: HistoryState, r: Request)
    requires Forest(s) && FreshRequest(s, r)
    ensures Stage(LinkGrandparent(SaveUser(s, r), r), {}, PendingAfterSave(r))
  {
    SaveUserStep(s, r);
    GrandparentLinked(s, r);
    if UnlistedAfterSave(s, r) != {} {
      LinkOne(SaveUser(s, r), r.userMessage.value.Parent().value, UserMessageId(r), r.now, PendingAfterSave(r));
    }
  }

  lemma {:induction false} AppendNewIsConcat(kids: seq<Id>, ids: seq<Id>)
    requires NoDup(ids)
    ensures AppendNew(kids, ids) == kids + Drop(ids, Elements(kids))
    decreases |ids|
  {
    if ids != [] {
      var kids' := if ids[0] in kids then kids else kids + [ids[0]];
      AppendNewIsConcat(kids', ids[1..]);
      SameDrop(ids[1..], Elements(kids), Elements(kids'));
      if ids[0] !in kids {
        assert kids' + Drop(ids[1..], Elements(kids)) == kids + ([ids[0]] + Drop(ids[1..], Elements(kids)));
      }
    }
  }

  lemma {:induction false} SameDrop(s: seq<Id>, a: set<Id>, b: set<Id>)
    requires forall x | x in s :: x in a <==> x in b
    ensures Drop(s, a) == Drop(s, b)
  {
    if s != [] {
      SameDrop(s[1..], a, b);
    }
  }

  /** The user message the answers hang below, when it is stored. */
  ghost function AnswerParent(s: HistoryState, r: Request): Option<Id> {
    if r.userId.Some? && r.userId.value in SaveUser(s, r).messages && AssistantIds(r.entries) != [] then r.userId else None
  }

  ghost function PendingAnswers(s: HistoryState, r: Request, ids: seq<Id>): set<(Id, Id)> {
    if AnswerParent(s, r).Some? then Pairs(AnswerParent(s, r).value, ids) else {}
  }

  /** The answers the user message does not list yet. */
  ghost function NewAnswers(s: HistoryState, r: Request, u: Id): seq<Id> {
    Drop(AssistantIds(r.entries), Elements(ChildrenOf(SaveUser(s, r).messages, u)))
  }

  /** Linking the grandparent leaves the user message as it was saved. */
  lemma AnsweredKept(s: HistoryState, r: Request, u: Id)
    requires Forest(s) && FreshRequest(s, r) && AnswerParent(s, r) == Some(u)
    ensures var s1, s2 := SaveUser(s, r), LinkGrandparent(SaveUser(s, r), r);
            && u in s1.messages && u in s2.messages && s2.messages[u] == s1.messages[u]
            && u != "" && s2.messages[u] != EMPTY
  {
    LinkGrandparentStep(s, r);
    GrandparentLinked(s, r);
    SaveUserFrame(s, r);
    assert LinkGrandparent(SaveUser(s, r), r).messages[u].Role() != "";
  }

  lemma AssistantsLinked(s: HistoryState, r: Request)
    requires Forest(s) && FreshRequest(s, r)
    ensures var s2 := LinkGrandparent(SaveUser(s, r), r);
            LinkAssistants(s2, r) ==
            if AnswerParent(s, r).Some? then
              var u := AnswerParent(s, r).value;
              Upserted(s2, u, ChildrenPatch(s2.messages[u].Children() + NewAnswers(s, r, u)), r.now)
            else s2
    ensures AnswerParent(s, r).Some? ==>
              var u := AnswerParent(s, r).value;
              && u in LinkGrandparent(SaveUser(s, r), r).messages
              && LinkGrandparent(SaveUser(s, r), r).messages[u] == SaveUser(s, r).messages[u]
  {
    var s2 := LinkGrandparent(SaveUser(s, r), r);
    if AnswerParent(s, r).Some? {
      var u := AnswerParent(s, r).value;
      AnsweredKept(s, r, u);
      AppendNewIsConcat(s2.messages[u].Children(), AssistantIds(r.entries));
    } else {
      SameKeysAfterLink(s, r);
    }
  }

  lemma SameKeysAfterLink(s: HistoryState, r: Request)
    requires Forest(s) && FreshRequest(s, r)
    ensures LinkGrandparent(SaveUser(s, r), r).messages.Keys == SaveUser(s, r).messages.Keys
  {
    GrandparentLinked(s, r);
    SaveUserFrame(s, r);
  }

  /** After listing the answers below the user message, exactly the answers are pending. */
  lemma LinkAssistantsStep(s: HistoryState, r: Request)
    requires Forest(s) && FreshRequest(s, r)
    ensures Stage(LinkAssistants(LinkGrandparent(SaveUser(s, r), r), r), {}, PendingAnswers(s, r, AssistantIds(r.entries)))
  {
    LinkGrandparentStep(s, r);
    AssistantsLinked(s, r);
    AnswersStayFresh(s, r);
    var s2 := LinkGrandparent(SaveUser(s, r), r);
    var ids := AssistantIds(r.entries);
    if AnswerParent(s, r).Some? {
      var u := AnswerParent(s, r).value;
      var extra := NewAnswers(s, r, u);
      AppendStage(s2, u, extra, r.now, {}, PendingAfterSave(r));
      assert {} - Elements(extra) == {};
      PendingBecomesAnswers(s, r, s2, u, extra);
    } else if r.userMessage.Some? {
      SaveUserFrame(s, r);
      assert ids == [];
      assert PendingAfterSave(r) == {};
    }
  }

  lemma PendingBecomesAnswers(s: HistoryState, r: Request, s2: HistoryState, u: Id, extra: seq<Id>)
    requires Forest(s) && FreshRequest(s, r) && AnswerParent(s, r) == Some(u)
    requires extra == NewAnswers(s, r, u)
    requires forall a | a in AssistantIds(r.entries) :: a !in s2.messages
    ensures PendingAfterSave(r) + Pairs(u, Drop(extra, s2.messages.Keys)) == PendingAnswers(s, r, AssistantIds(r.entries))
  {
    var ids := AssistantIds(r.entries);
    SaveUserFrame(s, r);
    forall c | c in ids && c !in extra
      ensures (u, c) in PendingAfterSave(r)
    {
      if r.userMessage.None? {
        assert Lists(s.messages, u, c) && !HasParent(s.messages, c, u);
      }
    }
  }
}
