/** When the repair of the current message changes it, and to what, in terms of the records' keys. */
module RepairEffect {
  import opened Common
  import opened Messages
  import opened Upsert
  import opened UpsertEffect
  import opened CurrentMessage

  ghost predicate HasText(s: Slot<string>) {
    s.Is? && s.value != ""
  }

  /** No time is given, or zero. */
  ghost predicate NoTime(m: Message) {
    m.timestamp == Absent || m.timestamp == Is(0)
  }

  ghost predicate NoParent(m: Message) {
    m.parentId == Absent || m.parentId == Is(None)
  }

  /** A half-written answer among other messages: its output's first role is the assistant's, but it
      has neither parent nor time. */
  ghost predicate Stray(ms: MessageMap, m: Message) {
    && |ms| > 1 && NoParent(m) && NoTime(m)
    && m.output.Is? && exists i :: FirstRoleAt(m.output.value, i) && m.output.value[i] == "assistant"
  }

  /** The current message is stored with an id and a role, and is no stray. */
  ghost predicate Settled(s: HistoryState) {
    && s.currentId.Some? && s.currentId.value in s.messages
    && var m := s.messages[s.currentId.value];
       HasText(m.id) && HasText(m.role) && !Stray(s.messages, m)
  }

  ghost predicate Leaf(ms: MessageMap, x: Id) {
    x in ms && HasText(ms[x].role) && (ms[x].childrenIds == Absent || ms[x].childrenIds == Is([]))
  }

  ghost function TimeOf(m: Message): int {
    if m.timestamp.Is? then m.timestamp.value else 0
  }

  /** Of the leaves with a role the one at `i` has the largest time, not below 0, and is the first
      with that time. */
  ghost predicate Newest(s: HistoryState, i: int) {
    && 0 <= i < |s.keys| && Leaf(s.messages, s.keys[i]) && TimeOf(s.messages[s.keys[i]]) >= 0
    && forall j | 0 <= j < |s.keys| && Leaf(s.messages, s.keys[j]) ::
         && TimeOf(s.messages[s.keys[j]]) <= TimeOf(s.messages[s.keys[i]])
         && (j < i ==> TimeOf(s.messages[s.keys[j]]) < TimeOf(s.messages[s.keys[i]]))
  }

  lemma OneFirstRole(roles: seq<string>, i: int, j: int)
    requires FirstRoleAt(roles, i) && FirstRoleAt(roles, j)
    ensures i == j
  {
  }

  lemma StrayIsBadLeaf(ms: MessageMap, m: Message)
    ensures BadLeaf(ms, m) <==> Stray(ms, m)
  {
    if m.output.Is? {
      FirstRoleFound(m.output.value);
      forall i, j | FirstRoleAt(m.output.value, i) && FirstRoleAt(m.output.value, j)
        ensures i == j
      {
        OneFirstRole(m.output.value, i, j);
      }
    }
  }

  lemma SettledIsFine(s: HistoryState)
    ensures CurrentIsFine(s) <==> Settled(s)
  {
    if s.currentId.Some? && s.currentId.value in s.messages {
      StrayIsBadLeaf(s.messages, s.messages[s.currentId.value]);
    }
  }

  lemma LeafIsCandidate(ms: MessageMap, x: Id)
    ensures Candidate(ms, x) <==> Leaf(ms, x)
    ensures x in ms ==> ms[x].Time() == TimeOf(ms[x])
  {
  }

  lemma NewestIsLatest(s: HistoryState, i: int)
    ensures Newest(s, i) <==> LatestAt(s.messages, s.keys, i)
  {
    forall j | 0 <= j < |s.keys|
      ensures Candidate(s.messages, s.keys[j]) <==> Leaf(s.messages, s.keys[j])
      ensures s.keys[j] in s.messages ==> s.messages[s.keys[j]].Time() == TimeOf(s.messages[s.keys[j]])
    {
      LeafIsCandidate(s.messages, s.keys[j]);
    }
  }

  /** A settled current message stays. Otherwise the newest leaf becomes current, unless there is none
      with a time of at least 0 or its id is empty. */
  lemma RepairExactly(s: HistoryState, s': HistoryState, changed: bool)
    requires Repaired(s, s', changed)
    ensures s'.messages == s.messages && s'.keys == s.keys && (changed <==> s'.currentId != s.currentId)
    ensures Settled(s) ==> !changed
    ensures forall i | !Settled(s) && Newest(s, i) :: s'.currentId == if s.keys[i] != "" then Some(s.keys[i]) else s.currentId
    ensures (forall i :: !Newest(s, i)) ==> !changed
  {
    SettledIsFine(s);
    var best :| LatestLeaf(s.messages, s.keys, best)
      && changed == (!CurrentIsFine(s) && best.Some? && best.value != "" && best != s.currentId)
      && s'.currentId == if changed then best else s.currentId;
    forall i | Newest(s, i)
      ensures best == Some(s.keys[i])
    {
      NewestIsLatest(s, i);
      LatestLeafUnique(s.messages, s.keys, best, Some(s.keys[i]));
    }
    if best.Some? {
      var i :| LatestAt(s.messages, s.keys, i) && s.keys[i] == best.value;
      NewestIsLatest(s, i);
    }
  }
}
