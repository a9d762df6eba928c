/** A stored chat: its history and its rows in the chat_message table, written together. */
module ChatStore {
  import opened Common
  import opened Messages
  import opened Deletion
  import opened Upsert
  import opened CurrentMessage
  import opened MirrorTable
  import opened MirrorRebuild
  import opened MirrorContents
  import opened DeletionOrder
  import opened SelfHeal
  import opened TurnSteps
  import opened Turn
  import opened Descent
  import H = History

  datatype StoreState = StoreState(history: HistoryState, rows: Table)

  datatype Op = UpsertOp(x: Id, patch: Message, now: int) | DeleteOp(x: Id)

  /** One call: the history changes, and the rows follow. */
  ghost predicate Step(chat: string, s: StoreState, op: Op, s': StoreState) {
    match op
    case UpsertOp(x, patch, now) =>
      && s'.history == Upserted(s.history, x, patch, now)
      && s'.rows == UpsertRow(s.rows, chat, x, Saved(s.history.messages, s.history.keys, x, patch, now))
    case DeleteOp(x) =>
      if x in s.history.messages then
        && s'.history.messages == Deleted(s.history.messages, x)
        && s'.history.keys == Drop(s.history.keys, DeletedIds(s.history.messages, x))
        && CurrentAfterDelete(s'.history.messages, s'.history.keys, s.history.messages[x].Parent(), s'.history.currentId)
        && s'.rows == DeleteRows(Backfilled(s.rows, chat, s'.history.messages, s'.history.keys), chat,
                                 DeletedIds(s.history.messages, x))
      else
        s'.rows == s.rows && exists changed :: Repaired(s.history, s'.history, changed)
  }

  /** The history and the rows after one upsert. */
  function StoreWritten(chat: string, s: StoreState, w: Option<Write>): StoreState {
    if w == None then s
    else
      var saved := Saved(s.history.messages, s.history.keys, w.value.x, w.value.patch, w.value.now);
      StoreState(Written(s.history, w), UpsertRow(s.rows, chat, w.value.x, saved))
  }

  function StoreAnswers(chat: string, s: StoreState, userId: Option<Id>, entries: seq<Entry>): StoreState
    decreases |entries|
  {
    if entries == [] then s
    else StoreAnswers(chat, StoreWritten(chat, s, EntryWrite(userId, entries[0])), userId, entries[1..])
  }

  /** The stored chat after the first `j` upserts of a turn, skipped ones included. */
  function TurnState(chat: string, s: StoreState, r: Request, j: nat): StoreState
    requires j <= 3 + |r.entries|
  {
    var s1 := StoreWritten(chat, s, UserWrite(r));
    var s2 := StoreWritten(chat, s1, GrandparentWrite(s1.history, r));
    var s3 := StoreWritten(chat, s2, AssistantsWrite(s2.history, r));
    if j == 0 then s else if j == 1 then s1 else if j == 2 then s2
    else StoreAnswers(chat, s3, r.userId, r.entries[..j - 3])
  }

  function AfterStoredTurn(chat: string, s: StoreState, r: Request): StoreState {
    TurnState(chat, s, r, 3 + |r.entries|)
  }

  class ChatStore {
    const chat: string
    const history: H.History
    var rows: Table

    ghost predicate Valid()
      reads this, history
    {
      history.Valid()
    }

    function State(): StoreState
      reads this, history
    {
      StoreState(history.State(), rows)
    }

    constructor (chat: string, s: StoreState)
      requires Keyed(s.history.messages, s.history.keys)
      ensures Valid() && State() == s && this.chat == chat && fresh(history)
    {
      this.chat := chat;
      history := new H.History(s.history);
      rows := s.rows;
    }

    method Upsert(x: Id, patch: Message, now: int)
      requires Valid()
      modifies this, history
      ensures Valid()
      ensures Step(chat, old(State()), UpsertOp(x, patch, now), State())
      ensures patch.role != Is("") && Sound(chat, old(State())) ==> Sound(chat, State())
    {
      if patch.role != Is("") {
        StepKeepsSound(chat, State(), UpsertOp(x, patch, now));
      }
      var _ := history.RepairCurrentId();
      var saved := history.Upsert(x, patch, now);
      rows := UpsertRow(rows, chat, x, saved);
    }

    method Delete(x: Id)
      requires Valid()
      requires x in history.messages ==> DescentTerminates(Deleted(history.messages, x))
      modifies this, history
      ensures Valid()
      ensures Step(chat, old(State()), DeleteOp(x), State())
    {
      var _ := history.RepairCurrentId();
      var deleted := history.Delete(x);
      if deleted != {} {
        var written := Backfill(rows, chat, history.messages, history.keys);
        rows := DeleteRows(written, chat, deleted);
      }
    }

    method SaveUserMessage(r: Request)
      requires Valid()
      modifies this, history
      ensures Valid() && State() == StoreWritten(chat, old(State()), UserWrite(r))
    {
      if UserMessageId(r) != "" {
        Upsert(UserMessageId(r), r.userMessage.value, r.now);
      }
    }

    method LinkToGrandparent(r: Request)
      requires Valid()
      modifies this, history
      ensures Valid() && State() == StoreWritten(chat, old(State()), GrandparentWrite(old(State()).history, r))
    {
      if UserMessageId(r) != "" && r.userMessage.value.Parent().Some? {
        var g := r.userMessage.value.Parent().value;
        if g != "" && g in history.messages && history.messages[g] != EMPTY {
          var kids := history.messages[g].Children();
          if UserMessageId(r) !in kids {
            Upsert(g, ChildrenPatch(kids + [UserMessageId(r)]), r.now);
          }
        }
      }
    }

    method LinkToAssistants(r: Request)
      requires Valid()
      modifies this, history
      ensures Valid() && State() == StoreWritten(chat, old(State()), AssistantsWrite(old(State()).history, r))
    {
      var ids := AssistantIds(r.entries);
      if r.userId.Some? && r.userId.value != "" && ids != [] {
        var u := r.userId.value;
        if u in history.messages && history.messages[u] != EMPTY {
          var kids := ExtendKids(history.messages[u].Children(), ids);
          Upsert(u, ChildrenPatch(kids), r.now);
        }
      }
    }

    method SavePlaceholders(r: Request)
      requires Valid()
      modifies this, history
      ensures Valid() && State() == StoreAnswers(chat, old(State()), r.userId, r.entries)
    {
      for n := 0 to |r.entries|
        invariant Valid()
        invariant StoreAnswers(chat, State(), r.userId, r.entries[n..]) == StoreAnswers(chat, old(State()), r.userId, r.entries)
      {
        var e := r.entries[n];
        assert r.entries[n..][1..] == r.entries[n + 1..];
        if e.messageId != "" {
          Upsert(e.messageId, Placeholder(r.userId, e), e.now);
        }
      }
    }

    /** The map for walking the history; rows that lack parents are healed from the history. */
    method GetMessagesMap(answer: seq<(string, Row)>) returns (r: MessageMap)
      requires Valid() && OwnRows(rows, chat) && Answers(answer, rows, chat)
      modifies this`rows
      ensures Read(old(rows), chat, history.messages, rows)
      ensures answer == [] ==> r == history.messages
      ensures answer != [] ==> exists base ::
                && IsBase(base, chat, answer)
                && r == FullyLinked(base, RowIds(chat, answer)) + MissingMessages(base, history.messages)
      ensures Mirrors(old(rows), chat, history.messages) ==> rows == old(rows)
    {
      MirrorNeedsNoHealing(rows, chat, history.messages);
      ghost var base;
      r, rows, base := SelfHeal.GetMessagesMap(rows, chat, answer, history.messages, history.keys);
    }

    /** One turn, every upsert of it writing its row. */
    method RunTurn(r: Request)
      requires Valid()
      modifies this, history
      ensures Valid() && State() == AfterStoredTurn(chat, old(State()), r)
      ensures history.State() == AfterTurn(old(history.State()), r)
      ensures UserRoleKept(r) && Sound(chat, old(State())) ==> Sound(chat, State())
    {
      StoredTurnIsTurn(chat, State(), r);
      TurnKeepsSound(chat, State(), r, 3 + |r.entries|);
      assert r.entries[..|r.entries|] == r.entries;
      SaveUserMessage(r);
      LinkToGrandparent(r);
      LinkToAssistants(r);
      SavePlaceholders(r);
    }
  }

  /** Rows that mirror the history have no gap the history could fill, so a read writes nothing. */
  lemma MirrorNeedsNoHealing(t: Table, chat: string, ms: MessageMap)
    ensures Mirrors(t, chat, ms) ==>
              FillSet(t, chat, ms) == {} && forall t' | Read(t, chat, ms, t') :: t' == t
  {
    if Mirrors(t, chat, ms) {
      forall x
        ensures x !in FillSet(t, chat, ms)
      {
        assert RowAgrees(t, chat, ms, x);
        IdsAreKeys(t, chat, x);
      }
      forall t' | Read(t, chat, ms, t')
        ensures t' == t
      {
        ReadShrinks(t, chat, ms, t');
      }
    }
  }

  /** Appends, in order, each id that the list does not hold yet. */
  method ExtendKids(kids: seq<Id>, ids: seq<Id>) returns (r: seq<Id>)
    ensures r == AppendNew(kids, ids)
  {
    r := kids;
    for n := 0 to |ids|
      invariant AppendNew(r, ids[n..]) == AppendNew(kids, ids)
    {
      assert ids[n..][1..] == ids[n + 1..];
      if ids[n] !in r {
        r := r + [ids[n]];
      }
    }
  }

  // ---------------------------------------------------------------------------------------
  // Runs
  // ---------------------------------------------------------------------------------------

  /** The rows mirror the history and hold its messages, and every message carries a role. */
  ghost predicate Sound(chat: string, s: StoreState) {
    && Keyed(s.history.messages, s.history.keys)
    && RolesPresent(s.history.messages)
    && Mirrors(s.rows, chat, s.history.messages)
    && Holds(s.rows, chat, s.history.messages)
  }

  /** The caller does not blank a role. */
  predicate KeepsRole(op: Op) {
    op.UpsertOp? ==> op.patch.role != Is("")
  }

  /** A saved record has a role, keeps the keys the stored one had, and names a parent unless the
      stored one named none. */
  lemma SavedFits(s: HistoryState, x: Id, patch: Message, now: int)
    requires RolesPresent(s.messages) && patch.role != Is("")
    ensures var ms, m := s.messages, Saved(s.messages, s.keys, x, patch, now);
            && m.role.Is? && m.Role() != ""
            && (m.parentId.Is? || (x in ms && ms[x].Parent() == None))
            && (x in ms ==> (ms[x].output.Is? ==> m.output.Is?) && forall k | k in ms[x].rest :: k in m.rest)
  {
  }

  lemma UpsertStepSound(chat: string, s: StoreState, op: Op)
    requires Sound(chat, s) && op.UpsertOp? && KeepsRole(op)
    ensures forall s' | Step(chat, s, op, s') :: Sound(chat, s')
  {
    SavedFits(s.history, op.x, op.patch, op.now);
    SavedSound(chat, s, op.x, Saved(s.history.messages, s.history.keys, op.x, op.patch, op.now));
    UpsertedKeyed(s.history, op.x, op.patch, op.now);
  }

  lemma SavedSound(chat: string, s: StoreState, x: Id, m: Message)
    requires Sound(chat, s) && m.role.Is? && m.Role() != ""
    requires m.parentId.Is? || (x in s.history.messages && s.history.messages[x].Parent() == None)
    requires x in s.history.messages ==>
               && (s.history.messages[x].output.Is? ==> m.output.Is?)
               && forall k | k in s.history.messages[x].rest :: k in m.rest
    ensures var ms', rows' := s.history.messages[x := m], UpsertRow(s.rows, chat, x, m);
            RolesPresent(ms') && Mirrors(rows', chat, ms') && Holds(rows', chat, ms')
  {
    UpsertKeepsMirror(s.rows, chat, s.history.messages, x, m);
    UpsertKeepsHolds(s.rows, chat, s.history.messages, x, m);
  }

  lemma DeletedSame(ms: MessageMap, m: Id, x: Id)
    requires m in ms && x in Deleted(ms, m)
    ensures x in ms && x !in DeletedIds(ms, m)
    ensures Deleted(ms, m)[x].parentId.Is? || Deleted(ms, m)[x].Parent() == ms[x].Parent()
    ensures Deleted(ms, m)[x].Role() == ms[x].Role()
    ensures Deleted(ms, m)[x].output == ms[x].output && Deleted(ms, m)[x].rest == ms[x].rest
  {
    LinksOnly(ms, m, x);
  }

  lemma DeleteStepMirrors(chat: string, s: StoreState, x: Id)
    requires Sound(chat, s) && x in s.history.messages
    ensures var ms', gone := Deleted(s.history.messages, x), DeletedIds(s.history.messages, x);
            var keys' := Drop(s.history.keys, gone);
            var rows' := DeleteRows(Backfilled(s.rows, chat, ms', keys'), chat, gone);
            Keyed(ms', keys') && RolesPresent(ms') && Mirrors(rows', chat, ms') && Holds(rows', chat, ms')
  {
    var ms := s.history.messages;
    var ms', gone := Deleted(ms, x), DeletedIds(ms, x);
    var keys' := Drop(s.history.keys, gone);
    DeletedKeys(ms, x);
    H.DroppedKeyed(ms, s.history.keys, ms', gone);
    forall y | y in ms'
      ensures y in ms && y !in gone && ms'[y].Role() != "" && (ms'[y].parentId.Is? || ms'[y].Parent() == ms[y].Parent())
      ensures ms'[y].Role() == ms[y].Role() && ms'[y].output == ms[y].output && ms'[y].rest == ms[y].rest
    {
      DeletedSame(ms, x, y);
    }
    DeleteKeepsMirror(s.rows, chat, ms, ms', keys', gone);
    DeleteKeepsHolds(s.rows, chat, ms, ms', keys', gone);
  }

  lemma DeleteStepSound(chat: string, s: StoreState, op: Op)
    requires Sound(chat, s) && op.DeleteOp?
    ensures forall s' | Step(chat, s, op, s') :: Sound(chat, s')
  {
    if op.x in s.history.messages {
      DeleteStepMirrors(chat, s, op.x);
    }
  }

  lemma StepKeepsSound(chat: string, s: StoreState, op: Op)
    requires KeepsRole(op)
    ensures Sound(chat, s) ==> forall s' | Step(chat, s, op, s') :: Sound(chat, s')
  {
    if Sound(chat, s) {
      if op.UpsertOp? {
        UpsertStepSound(chat, s, op);
      } else {
        DeleteStepSound(chat, s, op);
      }
    }
  }

  lemma StepSound(chat: string, s: StoreState, op: Op, s': StoreState)
    requires Sound(chat, s) && KeepsRole(op) && Step(chat, s, op, s')
    ensures Sound(chat, s')
  {
    StepKeepsSound(chat, s, op);
  }

  // ---------------------------------------------------------------------------------------
  // The upserts of a turn
  // ---------------------------------------------------------------------------------------

  predicate UserRoleKept(r: Request) {
    r.userMessage.Some? ==> r.userMessage.value.role != Is("")
  }

  lemma {:induction false} AnswersHistory(chat: string, s: StoreState, userId: Option<Id>, entries: seq<Entry>)
    ensures StoreAnswers(chat, s, userId, entries).history == SaveAssistants(s.history, userId, entries)
    decreases |entries|
  {
    if entries != [] {
      AnswersHistory(chat, StoreWritten(chat, s, EntryWrite(userId, entries[0])), userId, entries[1..]);
    }
  }

  /** The histories a stored turn goes through are those of the turn. */
  lemma TurnHistory(chat: string, s: StoreState, r: Request, j: nat)
    requires j <= 3 + |r.entries|
    ensures var s1 := SaveUser(s.history, r);
            var s2 := LinkGrandparent(s1, r);
            TurnState(chat, s, r, j).history ==
            if j == 0 then s.history else if j == 1 then s1 else if j == 2 then s2
            else SaveAssistants(LinkAssistants(s2, r), r.userId, r.entries[..j - 3])
  {
    if j >= 3 {
      AnswersHistory(chat, TurnState(chat, s, r, 3), r.userId, r.entries[..j - 3]);
    }
  }

  lemma StoredTurnIsTurn(chat: string, s: StoreState, r: Request)
    ensures AfterStoredTurn(chat, s, r).history == AfterTurn(s.history, r)
  {
    TurnHistory(chat, s, r, 3 + |r.entries|);
    assert r.entries[..|r.entries|] == r.entries;
  }

  lemma WriteKeepsSound(chat: string, s: StoreState, w: Option<Write>)
    requires Sound(chat, s) && (w.Some? ==> w.value.patch.role != Is(""))
    ensures Sound(chat, StoreWritten(chat, s, w))
  {
    if w.Some? {
      StepSound(chat, s, UpsertOp(w.value.x, w.value.patch, w.value.now), StoreWritten(chat, s, w));
    }
  }

  lemma {:induction false} AnswersKeepSound(chat: string, s: StoreState, userId: Option<Id>, entries: seq<Entry>)
    requires Sound(chat, s)
    ensures Sound(chat, StoreAnswers(chat, s, userId, entries))
    decreases |entries|
  {
    if entries != [] {
      WriteKeepsSound(chat, s, EntryWrite(userId, entries[0]));
      AnswersKeepSound(chat, StoreWritten(chat, s, EntryWrite(userId, entries[0])), userId, entries[1..]);
    }
  }

  /** After each upsert of a turn the rows mirror the history. */
  lemma TurnKeepsSound(chat: string, s: StoreState, r: Request, j: nat)
    requires j <= 3 + |r.entries|
    ensures UserRoleKept(r) && Sound(chat, s) ==> Sound(chat, TurnState(chat, s, r, j))
  {
    if UserRoleKept(r) && Sound(chat, s) {
      var s1 := StoreWritten(chat, s, UserWrite(r));
      WriteKeepsSound(chat, s, UserWrite(r));
      LinksKeepSound(chat, s1, r);
      var s2 := StoreWritten(chat, s1, GrandparentWrite(s1.history, r));
      if j >= 3 {
        AnswersKeepSound(chat, StoreWritten(chat, s2, AssistantsWrite(s2.history, r)), r.userId, r.entries[..j - 3]);
      }
    }
  }

  lemma LinksKeepSound(chat: string, s1: StoreState, r: Request)
    requires Sound(chat, s1)
    ensures var s2 := StoreWritten(chat, s1, GrandparentWrite(s1.history, r));
            Sound(chat, s2) && Sound(chat, StoreWritten(chat, s2, AssistantsWrite(s2.history, r)))
  {
    var s2 := StoreWritten(chat, s1, GrandparentWrite(s1.history, r));
    WriteKeepsSound(chat, s1, GrandparentWrite(s1.history, r));
    WriteKeepsSound(chat, s2, AssistantsWrite(s2.history, r));
  }

  // ---------------------------------------------------------------------------------------
  // Runs of arbitrary calls
  // ---------------------------------------------------------------------------------------

  ghost predicate Run(chat: string, states: seq<StoreState>, ops: seq<Op>) {
    && |states| == |ops| + 1
    && forall i | 0 <= i < |ops| :: Step(chat, states[i], ops[i], states[i + 1])
  }

  /** After every call of a run, the chat's rows have exactly the history's ids and parent links, and
      each row holds its message. */
  lemma {:induction false} RunKeepsMirror(chat: string, states: seq<StoreState>, ops: seq<Op>, i: nat)
    requires Run(chat, states, ops) && i < |states|
    requires Sound(chat, states[0]) && forall op | op in ops :: KeepsRole(op)
    ensures Sound(chat, states[i])
  {
    if i > 0 {
      RunKeepsMirror(chat, states, ops, i - 1);
      var k := i - 1;
      assert Step(chat, states[k], ops[k], states[k + 1]);
      StepSound(chat, states[k], ops[k], states[i]);
    }
  }

  /** After every call of a run, the map rebuilt from the rows, in whatever order they arrive, has
      the ids, parent links and contents of the history; and the same child sets exactly when the
      child lists of the history follow its parent links. */
  lemma RunRebuilds(chat: string, states: seq<StoreState>, ops: seq<Op>, i: nat, rows: seq<(string, Row)>, base: MessageMap)
    requires Run(chat, states, ops) && i < |states|
    requires Sound(chat, states[0]) && forall op | op in ops :: KeepsRole(op)
    requires Answers(rows, states[i].rows, chat) && IsBase(base, chat, rows)
    ensures var ms, full := states[i].history.messages, FullyLinked(base, RowIds(chat, rows));
            && full.Keys == ms.Keys
            && (forall x | x in ms :: full[x].Parent() == ms[x].Parent())
            && (SameChildSets(full, ms) <==> ListsFollowParents(ms))
            && (forall x | x in ms :: SaysAgain(x, ms[x], full[x]))
  {
    RunKeepsMirror(chat, states, ops, i);
    var ms := states[i].history.messages;
    MirrorRebuilds(states[i].rows, chat, ms, rows, base);
    ContentsRebuild(states[i].rows, chat, ms, rows, base);
  }

  lemma ContentsRebuild(t: Table, chat: string, ms: MessageMap, rows: seq<(string, Row)>, base: MessageMap)
    requires Mirrors(t, chat, ms) && Holds(t, chat, ms) && Answers(rows, t, chat) && IsBase(base, chat, rows)
    ensures var full := FullyLinked(base, RowIds(chat, rows)); forall x | x in ms :: x in full && SaysAgain(x, ms[x], full[x])
  {
    var full := FullyLinked(base, RowIds(chat, rows));
    forall x | x in ms
      ensures x in full && SaysAgain(x, ms[x], full[x])
    {
      RebuiltContents(t, chat, ms, rows, base, x);
    }
  }

  lemma MirrorRebuilds(t: Table, chat: string, ms: MessageMap, rows: seq<(string, Row)>, base: MessageMap)
    requires Mirrors(t, chat, ms) && Answers(rows, t, chat) && IsBase(base, chat, rows)
    ensures var full := FullyLinked(base, RowIds(chat, rows));
            && full.Keys == ms.Keys
            && (forall x | x in ms :: full[x].Parent() == ms[x].Parent())
            && (SameChildSets(full, ms) <==> ListsFollowParents(ms))
  {
    FullParents(base, RowIds(chat, rows));
    RebuiltParents(t, chat, ms, rows, base);
    RebuiltChildren(t, chat, ms, rows, base);
  }

  lemma SameRowsTransitive(t1: Table, t2: Table, t3: Table, d: string)
    requires SameRows(t1, t2, d) && SameRows(t2, t3, d)
    ensures SameRows(t1, t3, d)
  {
    forall x
      ensures RowKey(d, x) in t1 <==> RowKey(d, x) in t3
      ensures RowKey(d, x) in t1 ==> t3[RowKey(d, x)] == t1[RowKey(d, x)]
    {
      assert RowKey(d, x) in t1 <==> RowKey(d, x) in t2;
    }
  }

  lemma StepLeavesOthers(chat: string, d: string, s: StoreState, op: Op, s': StoreState)
    requires Sound(chat, s) && Step(chat, s, op, s') && !Clash(chat, d)
    ensures SameRows(s.rows, s'.rows, d)
  {
    match op
    case UpsertOp(x, patch, now) =>
      UpsertLeavesOthers(s.rows, chat, d, x, Saved(s.history.messages, s.history.keys, x, patch, now));
    case DeleteOp(x) =>
      if x in s.history.messages {
        var written := Backfilled(s.rows, chat, s'.history.messages, s'.history.keys);
        BackfillLeavesOthers(s.rows, chat, d, s'.history.messages, s'.history.keys);
        DeleteLeavesOthers(written, chat, d, DeletedIds(s.history.messages, x));
        SameRowsTransitive(s.rows, written, s'.rows, d);
      }
  }

  /** No run of one chat touches a row of another chat whose prefix does not clash with its own. */
  lemma {:induction false} RunLeavesOthers(chat: string, d: string, states: seq<StoreState>, ops: seq<Op>, i: nat)
    requires Run(chat, states, ops) && i < |states| && !Clash(chat, d)
    requires Sound(chat, states[0]) && forall op | op in ops :: KeepsRole(op)
    ensures SameRows(states[0].rows, states[i].rows, d)
  {
    if i > 0 {
      RunLeavesOthers(chat, d, states, ops, i - 1);
      RunKeepsMirror(chat, states, ops, i - 1);
      assert Step(chat, states[i - 1], ops[i - 1], states[i - 1 + 1]);
      StepLeavesOthers(chat, d, states[i - 1], ops[i - 1], states[i]);
      SameRowsTransitive(states[0].rows, states[i - 1].rows, states[i].rows, d);
    }
  }

  // ---------------------------------------------------------------------------------------
  // Whole conversations: turns and deletions
  // ---------------------------------------------------------------------------------------

  datatype Change = TurnChange(request: Request) | DeleteChange(x: Id)

  ghost predicate Changes(s: HistoryState, c: Change, s': HistoryState) {
    match c
    case TurnChange(r) => FreshRequest(s, r) && s' == AfterTurn(s, r)
    case DeleteChange(x) =>
      && x in s.messages
      && s'.messages == Deleted(s.messages, x)
      && s'.keys == Drop(s.keys, DeletedIds(s.messages, x))
      && CurrentAfterDelete(s'.messages, s'.keys, s.messages[x].Parent(), s'.currentId)
  }

  lemma ChangeKeepsForest(s: HistoryState, c: Change, s': HistoryState)
    requires Forest(s) && Changes(s, c, s')
    ensures Forest(s')
  {
    match c
    case TurnChange(r) => TurnKeepsForest(s, r);
    case DeleteChange(x) =>
      DeleteKeepsLinked(s.messages, x);
      DeleteKeepsAcyclic(s.messages, x);
      DeletedKeys(s.messages, x);
      H.DroppedKeyed(s.messages, s.keys, s'.messages, DeletedIds(s.messages, x));
      forall y | y in s'.messages
        ensures s'.messages[y].Role() != ""
      {
        DeletedSame(s.messages, x, y);
      }
  }

  ghost predicate Conversation(states: seq<HistoryState>, changes: seq<Change>) {
    && |states| == |changes| + 1
    && Forest(states[0])
    && forall k | 0 <= k < |changes| :: Changes(states[k], changes[k], states[k + 1])
  }

  lemma ConversationStep(states: seq<HistoryState>, changes: seq<Change>, k: nat)
    requires Conversation(states, changes) && k < |changes| && Forest(states[k])
    ensures Forest(states[k + 1])
  {
    ChangeKeepsForest(states[k], changes[k], states[k + 1]);
  }

  /** Through any conversation of fresh turns and deletions the history stays a linked, acyclic forest. */
  lemma {:induction false} ConversationKeepsForest(states: seq<HistoryState>, changes: seq<Change>, i: nat)
    requires Conversation(states, changes) && i < |states|
    ensures Forest(states[i])
  {
    if i > 0 {
      ConversationKeepsForest(states, changes, i - 1);
      ConversationStep(states, changes, i - 1);
    }
  }

  /** So at any time deleting any message ends its walk to the new current message. */
  lemma ConversationCanDelete(states: seq<HistoryState>, changes: seq<Change>, i: nat, x: Id)
    requires Conversation(states, changes) && i < |states| && x in states[i].messages
    ensures DescentTerminates(Deleted(states[i].messages, x))
  {
    ConversationKeepsForest(states, changes, i);
    DeletionWalkEnds(states[i].messages, x);
  }

  lemma DeletionWalkEnds(ms: MessageMap, x: Id)
    requires Linked(ms) && Acyclic(ms) && x in ms
    ensures DescentTerminates(Deleted(ms, x))
  {
    DeleteKeepsLinked(ms, x);
    DeleteKeepsAcyclic(ms, x);
    ForestDescentTerminates(Deleted(ms, x));
  }
}
