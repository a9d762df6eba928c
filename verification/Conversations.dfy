/** Whole conversations of a stored chat: turns, deletions and reads, in any order, and when the map
    rebuilt from the rows agrees with the history. */
module Conversations {
  import opened Common
  import opened Messages
  import opened Upsert
  import opened TurnSteps
  import opened Turn
  import opened CurrentMessage
  import opened MirrorTable
  import opened MirrorRebuild
  import opened MirrorContents
  import opened SelfHeal
  import opened ChatStore

  datatype StoredChange = StoredTurn(request: Request) | StoredDelete(x: Id) | StoredRead

  /** One completed change: a turn with fresh ids, a deletion, or a read that may heal the rows. */
  ghost predicate StoredChanges(chat: string, s: StoreState, c: StoredChange, s': StoreState) {
    match c
    case StoredTurn(r) => FreshRequest(s.history, r) && s' == AfterStoredTurn(chat, s, r)
    case StoredDelete(x) => Step(chat, s, DeleteOp(x), s')
    case StoredRead => s'.history == s.history && Read(s.rows, chat, s.history.messages, s'.rows)
  }

  /** The history is a linked, acyclic forest of messages with roles, and the rows mirror it. */
  ghost predicate Intact(chat: string, s: StoreState) {
    Forest(s.history) && Sound(chat, s)
  }

  lemma FreshKeepsRole(s: HistoryState, r: Request)
    requires FreshRequest(s, r)
    ensures UserRoleKept(r)
  {
  }

  lemma StoredTurnIntact(chat: string, s: StoreState, r: Request)
    requires Intact(chat, s) && FreshRequest(s.history, r)
    ensures Intact(chat, AfterStoredTurn(chat, s, r))
  {
    FreshKeepsRole(s.history, r);
    StoredTurnIsTurn(chat, s, r);
    TurnKeepsForest(s.history, r);
    TurnKeepsSound(chat, s, r, 3 + |r.entries|);
  }

  lemma StoredDeleteIntact(chat: string, s: StoreState, x: Id, s': StoreState)
    requires Intact(chat, s) && Step(chat, s, DeleteOp(x), s')
    ensures Intact(chat, s')
  {
    StepSound(chat, s, DeleteOp(x), s');
    if x in s.history.messages {
      ChangeKeepsForest(s.history, DeleteChange(x), s'.history);
    }
  }

  lemma ChangeKeepsIntact(chat: string, s: StoreState, c: StoredChange, s': StoreState)
    requires Intact(chat, s) && StoredChanges(chat, s, c, s')
    ensures Intact(chat, s')
  {
    match c
    case StoredTurn(r) => StoredTurnIntact(chat, s, r);
    case StoredDelete(x) => StoredDeleteIntact(chat, s, x, s');
    case StoredRead => MirrorNeedsNoHealing(s.rows, chat, s.history.messages);
  }

  ghost predicate StoredConversation(chat: string, states: seq<StoreState>, changes: seq<StoredChange>) {
    && |states| == |changes| + 1
    && Intact(chat, states[0])
    && forall k | 0 <= k < |changes| :: StoredChanges(chat, states[k], changes[k], states[k + 1])
  }

  lemma ConversationStep(chat: string, states: seq<StoreState>, changes: seq<StoredChange>, k: nat)
    requires StoredConversation(chat, states, changes) && k < |changes| && Intact(chat, states[k])
    ensures Intact(chat, states[k + 1])
  {
    ChangeKeepsIntact(chat, states[k], changes[k], states[k + 1]);
  }

  /** Through any conversation the history stays a linked, acyclic forest that the rows mirror. */
  lemma {:induction false} ConversationStaysIntact(chat: string, states: seq<StoreState>, changes: seq<StoredChange>, i: nat)
    requires StoredConversation(chat, states, changes) && i < |states|
    ensures Intact(chat, states[i])
  {
    if i > 0 {
      ConversationStaysIntact(chat, states, changes, i - 1);
      ConversationStep(chat, states, changes, i - 1);
    }
  }

  /** A linked history without an empty id has child lists that follow its parent links. */
  lemma ForestFollows(s: HistoryState)
    requires Forest(s)
    ensures ListsFollowParents(s.messages)
  {
    LinkedIsHalfLinked(s.messages);
    FollowsWhenComplete(s.messages, {}, {});
  }

  /** After every completed turn, deletion or read of a conversation, the map rebuilt from the rows,
      in whatever order they arrive, has the ids, parent links, child sets and contents of the history. */
  lemma ConversationRebuilds(chat: string, states: seq<StoreState>, changes: seq<StoredChange>, i: nat,
                             rows: seq<(string, Row)>, base: MessageMap)
    requires StoredConversation(chat, states, changes) && i < |states|
    requires Answers(rows, states[i].rows, chat) && IsBase(base, chat, rows)
    ensures var ms, full := states[i].history.messages, FullyLinked(base, RowIds(chat, rows));
            && (forall x | x in ms :: x in full && full[x].Parent() == ms[x].Parent())
            && SameChildSets(full, ms)
            && (forall x | x in ms :: SaysAgain(x, ms[x], full[x]))
  {
    ConversationStaysIntact(chat, states, changes, i);
    ForestFollows(states[i].history);
    IntactRebuilds(chat, states[i], rows, base);
  }

  lemma IntactRebuilds(chat: string, s: StoreState, rows: seq<(string, Row)>, base: MessageMap)
    requires Sound(chat, s) && ListsFollowParents(s.history.messages)
    requires Answers(rows, s.rows, chat) && IsBase(base, chat, rows)
    ensures var ms, full := s.history.messages, FullyLinked(base, RowIds(chat, rows));
            && (forall x | x in ms :: x in full && full[x].Parent() == ms[x].Parent())
            && SameChildSets(full, ms)
            && (forall x | x in ms :: SaysAgain(x, ms[x], full[x]))
  {
    MirrorRebuilds(s.rows, chat, s.history.messages, rows, base);
    ContentsRebuild(s.rows, chat, s.history.messages, rows, base);
  }

  // ---------------------------------------------------------------------------------------
  // Between the upserts of a turn
  // ---------------------------------------------------------------------------------------

  /** No link half is missing after `j` upserts of a turn: the user message waits for its parent to
      list it, then for the children it brought along, then for the answers. */
  predicate LinksComplete(s: HistoryState, r: Request, j: nat)
    requires j <= 3 + |r.entries|
  {
    if j == 0 then true
    else if j <= 2 then
      r.userMessage.Some? ==>
        && r.userMessage.value.Children() == []
        && (j == 1 && r.userMessage.value.Parent().Some? ==> r.userMessage.value.Parent().value !in s.messages)
    else
      r.userId.Some? && (r.userMessage.Some? || r.userId.value in s.messages) ==> AssistantIds(r.entries[j - 3..]) == []
  }

  /** The link halves missing after `j` upserts. */
  ghost function Unlisted(s: HistoryState, r: Request, j: nat): set<Id> {
    if j == 1 then UnlistedAfterSave(s, r) else {}
  }

  ghost function Pending(s: HistoryState, r: Request, j: nat): set<(Id, Id)>
    requires j <= 3 + |r.entries|
  {
    if j == 0 then {} else if j <= 2 then PendingAfterSave(r) else PendingAnswers(s, r, AssistantIds(r.entries[j - 3..]))
  }

  lemma PairsEmpty(p: Id, ids: seq<Id>)
    ensures Pairs(p, ids) == {} <==> ids == []
  {
    if ids != [] {
      assert (p, ids[0]) in Pairs(p, ids);
    }
  }

  lemma CompleteExactly(s: HistoryState, r: Request, j: nat)
    requires Forest(s) && FreshRequest(s, r) && j <= 3 + |r.entries|
    ensures LinksComplete(s, r, j) <==> Unlisted(s, r, j) == {} && Pending(s, r, j) == {}
  {
    if 0 < j <= 2 && r.userMessage.Some? {
      PairsEmpty(UserMessageId(r), r.userMessage.value.Children());
      assert UserMessageId(r) in {UserMessageId(r)};
    } else if j > 2 {
      SaveUserFrame(s, r);
      AssistantIdsSplit(r.entries, j - 3);
      if r.userId.Some? {
        PairsEmpty(r.userId.value, AssistantIds(r.entries[j - 3..]));
      }
    }
  }

  lemma TurnStage(chat: string, s: StoreState, r: Request, j: nat)
    requires Intact(chat, s) && FreshRequest(s.history, r) && j <= 3 + |r.entries|
    ensures var ms := TurnState(chat, s, r, j).history.messages;
            HalfLinked(ms, Unlisted(s.history, r, j), Pending(s.history, r, j)) && "" !in ms
  {
    TurnHistory(chat, s, r, j);
    TurnInBetween(s.history, r, if j >= 3 then j - 3 else 0);
    LinkedIsHalfLinked(s.history.messages);
    TurnNamesMessages(s.history, r, if j >= 3 then j - 3 else 0);
  }

  /** No step of a turn stores a message under the empty id. */
  lemma TurnNamesMessages(s: HistoryState, r: Request, k: nat)
    requires Forest(s) && FreshRequest(s, r) && k <= |r.entries|
    ensures var s1 := SaveUser(s, r);
            var s2 := LinkGrandparent(s1, r);
            && "" !in s1.messages && "" !in s2.messages
            && "" !in SaveAssistants(LinkAssistants(s2, r), r.userId, r.entries[..k]).messages
  {
    SaveUserStep(s, r);
    LinkGrandparentStep(s, r);
    TurnReady(s, r);
    SavedSoFar(LinkAssistants(LinkGrandparent(SaveUser(s, r), r), r), r.userId, r.entries, k);
  }

  /** After each upsert of a turn the rows mirror ids and parent links, and the rebuilt child sets
      are the history's exactly when no link half is missing. */
  lemma TurnRebuilds(chat: string, s: StoreState, r: Request, j: nat, rows: seq<(string, Row)>, base: MessageMap)
    requires Intact(chat, s) && FreshRequest(s.history, r) && j <= 3 + |r.entries|
    requires Answers(rows, TurnState(chat, s, r, j).rows, chat) && IsBase(base, chat, rows)
    ensures var ms, full := TurnState(chat, s, r, j).history.messages, FullyLinked(base, RowIds(chat, rows));
            && full.Keys == ms.Keys
            && (forall x | x in ms :: full[x].Parent() == ms[x].Parent())
            && (SameChildSets(full, ms) <==> LinksComplete(s.history, r, j))
  {
    var s' := TurnState(chat, s, r, j);
    FreshKeepsRole(s.history, r);
    TurnKeepsSound(chat, s, r, j);
    TurnStage(chat, s, r, j);
    MirrorRebuilds(s'.rows, chat, s'.history.messages, rows, base);
    FollowsWhenComplete(s'.history.messages, Unlisted(s.history, r, j), Pending(s.history, r, j));
    CompleteExactly(s.history, r, j);
  }
}
