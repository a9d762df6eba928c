/** Repairing a history whose current message is missing, incomplete or a stray placeholder. */
module CurrentMessage {
  import opened Common
  import opened Messages
  import opened Upsert

  /** An assistant placeholder without parent and timestamp, beside other messages. */
  predicate BadLeaf(ms: MessageMap, m: Message) {
    m.OutputRole() == "assistant" && m.Parent() == None && m.Time() == 0 && |ms| > 1
  }

  /** The current message is stored, has an id and a role, and is no bad leaf. */
  predicate CurrentIsFine(s: HistoryState) {
    && s.currentId.Some?
    && s.currentId.value in s.messages
    && var m := s.messages[s.currentId.value];
       m.id.Is? && m.id.value != "" && m.Role() != "" && !BadLeaf(s.messages, m)
  }

  /** A leaf with a role. */
  predicate Candidate(ms: MessageMap, x: Id) {
    x in ms && ms[x].Role() != "" && ms[x].Children() == []
  }

  ghost predicate LatestAt(ms: MessageMap, keys: seq<Id>, i: int) {
    && 0 <= i < |keys| && Candidate(ms, keys[i]) && ms[keys[i]].Time() > -1
    && forall j | 0 <= j < |keys| && Candidate(ms, keys[j]) ::
         if j < i then ms[keys[j]].Time() < ms[keys[i]].Time() else ms[keys[j]].Time() <= ms[keys[i]].Time()
  }

  /** `best` is the first of the candidates among `keys` with the largest timestamp, or none when
      no candidate has a timestamp above -1. */
  ghost predicate LatestLeaf(ms: MessageMap, keys: seq<Id>, best: Option<Id>) {
    match best
    case None => forall j | 0 <= j < |keys| && Candidate(ms, keys[j]) :: ms[keys[j]].Time() <= -1
    case Some(b) => exists i :: LatestAt(ms, keys, i) && keys[i] == b
  }

  function LatestTime(ms: MessageMap, best: Option<Id>): int {
    if best.Some? && best.value in ms then ms[best.value].Time() else -1
  }

  /** One round of the search for the latest leaf. */
  function Later(ms: MessageMap, best: Option<Id>, x: Id): Option<Id> {
    if Candidate(ms, x) && ms[x].Time() > LatestTime(ms, best) then Some(x) else best
  }

  lemma LaterIsLatest(ms: MessageMap, keys: seq<Id>, best: Option<Id>, x: Id)
    requires LatestLeaf(ms, keys, best)
    ensures LatestLeaf(ms, keys + [x], Later(ms, best, x))
  {
    var keys' := keys + [x];
    assert forall j | 0 <= j < |keys| :: keys'[j] == keys[j];
    if best.Some? {
      var i :| LatestAt(ms, keys, i) && keys[i] == best.value;
      if Later(ms, best, x) != best {
        assert LatestAt(ms, keys', |keys|);
      } else {
        assert LatestAt(ms, keys', i);
      }
    } else if Later(ms, best, x) != best {
      assert LatestAt(ms, keys', |keys|);
    }
  }

  /** The search over all messages. */
  function LatestOf(ms: MessageMap, keys: seq<Id>): Option<Id> {
    if keys == [] then None else Later(ms, LatestOf(ms, keys[..|keys| - 1]), keys[|keys| - 1])
  }

  lemma {:induction false} LatestOfIsLatest(ms: MessageMap, keys: seq<Id>)
    ensures LatestLeaf(ms, keys, LatestOf(ms, keys))
  {
    if keys != [] {
      var n := |keys| - 1;
      LatestOfIsLatest(ms, keys[..n]);
      LaterIsLatest(ms, keys[..n], LatestOf(ms, keys[..n]), keys[n]);
      assert keys[..n] + [keys[n]] == keys;
    }
  }

  /** The effect of the repair: only the current id may change, and it changes exactly when it is
      not fine and the latest leaf is another message with a non-empty id. */
  ghost predicate Repaired(s: HistoryState, s': HistoryState, changed: bool) {
    && s'.messages == s.messages && s'.keys == s.keys
    && exists best ::
         && LatestLeaf(s.messages, s.keys, best)
         && changed == (!CurrentIsFine(s) && best.Some? && best.value != "" && best != s.currentId)
         && s'.currentId == if changed then best else s.currentId
  }

  lemma LatestLeafUnique(ms: MessageMap, keys: seq<Id>, a: Option<Id>, b: Option<Id>)
    requires LatestLeaf(ms, keys, a) && LatestLeaf(ms, keys, b)
    ensures a == b
  {
    if a.Some? && b.Some? {
      var i :| LatestAt(ms, keys, i) && keys[i] == a.value;
      var k :| LatestAt(ms, keys, k) && keys[k] == b.value;
      assert Candidate(ms, keys[i]) && Candidate(ms, keys[k]);
    }
  }

  /** A second repair right after the first changes nothing. */
  lemma RepairTwice(s: HistoryState, s1: HistoryState, s2: HistoryState, changed: bool, again: bool)
    requires Repaired(s, s1, changed) && Repaired(s1, s2, again)
    ensures !again && s2 == s1
  {
    var best :| LatestLeaf(s.messages, s.keys, best)
      && changed == (!CurrentIsFine(s) && best.Some? && best.value != "" && best != s.currentId)
      && s1.currentId == if changed then best else s.currentId;
    var next :| LatestLeaf(s1.messages, s1.keys, next)
      && again == (!CurrentIsFine(s1) && next.Some? && next.value != "" && next != s1.currentId)
      && s2.currentId == if again then next else s1.currentId;
    LatestLeafUnique(s.messages, s.keys, best, next);
  }

  /** When the repair moves the current id, it lands on a stored leaf with a role, and no such leaf
      is newer. */
  lemma RepairLandsOnLatestLeaf(s: HistoryState, s': HistoryState)
    requires Repaired(s, s', true)
    ensures s'.currentId.Some? && Candidate(s.messages, s'.currentId.value)
    ensures forall x | x in s.keys && Candidate(s.messages, x) :: s.messages[x].Time() <= s.messages[s'.currentId.value].Time()
    ensures !CurrentIsFine(s)
  {
    var best :| LatestLeaf(s.messages, s.keys, best) && s'.currentId == best && best.Some?;
    forall x | x in s.keys && Candidate(s.messages, x)
      ensures s.messages[x].Time() <= s.messages[best.value].Time()
    {
      var j :| 0 <= j < |s.keys| && s.keys[j] == x;
    }
  }
}
