/** What an upsert writes, key by key. */
module UpsertEffect {
  import opened Common
  import opened Messages
  import opened Upsert

  /** The slot reads as the patch has it, or as before when the patch does not have the key. */
  ghost predicate Overrides<T>(old_: Slot<T>, patch: Slot<T>, new_: Slot<T>) {
    (patch.Is? ==> new_ == patch) && (patch == Absent ==> new_ == old_)
  }

  /** The same for the keys that no operation looks at. */
  ghost predicate RestOverrides(old_: map<string, string>, patch: map<string, string>, new_: map<string, string>) {
    && (forall k :: k in new_ <==> k in old_ || k in patch)
    && (forall k | k in patch && k in new_ :: new_[k] == patch[k])
    && (forall k | k in old_ && k !in patch && k in new_ :: new_[k] == old_[k])
  }

  /** An upsert touches no other message, keeps the order, puts a new id at the end, and shows the
      message. */
  lemma UpsertFrame(s: HistoryState, x: Id, patch: Message, now: int)
    ensures var s' := Upserted(s, x, patch, now);
            && s'.messages.Keys == s.messages.Keys + {x}
            && (forall y | y in s.messages && y != x :: s'.messages[y] == s.messages[y])
            && (x in s.messages ==> s'.keys == s.keys)
            && (x !in s.messages ==> s'.keys == s.keys + [x])
            && s'.currentId == Some(x)
  {
  }

  /** Upserting a stored message overrides exactly the keys it brings. */
  lemma UpsertOverrides(s: HistoryState, x: Id, patch: Message, now: int)
    requires x in s.messages
    ensures var old_, new_ := s.messages[x], Upserted(s, x, patch, now).messages[x];
            && Overrides(old_.id, patch.id, new_.id)
            && Overrides(old_.parentId, patch.parentId, new_.parentId)
            && Overrides(old_.childrenIds, patch.childrenIds, new_.childrenIds)
            && Overrides(old_.role, patch.role, new_.role)
            && Overrides(old_.timestamp, patch.timestamp, new_.timestamp)
            && Overrides(old_.output, patch.output, new_.output)
            && RestOverrides(old_.rest, patch.rest, new_.rest)
  {
  }

  /** The first of the output items that has a role. */
  ghost predicate FirstRoleAt(roles: seq<string>, i: int) {
    0 <= i < |roles| && roles[i] != "" && forall j | 0 <= j < i :: roles[j] == ""
  }

  lemma {:induction false} FirstRoleFound(roles: seq<string>)
    ensures if forall j | 0 <= j < |roles| :: roles[j] == "" then FirstRole(roles) == ""
            else exists i :: FirstRoleAt(roles, i) && FirstRole(roles) == roles[i]
  {
    if roles != [] {
      if roles[0] != "" {
        assert FirstRoleAt(roles, 0);
      } else {
        FirstRoleFound(roles[1..]);
        if i :| FirstRoleAt(roles[1..], i) && FirstRole(roles[1..]) == roles[1..][i] {
          assert FirstRoleAt(roles, i + 1);
        } else {
          assert forall j | 0 < j < |roles| :: roles[j] == roles[1..][j - 1];
        }
      }
    }
  }

  /** The role an output suggests: that of its first item with one, or none. */
  ghost predicate OutputSuggests(m: Message, role: string) {
    if m.output.Is? && exists i :: FirstRoleAt(m.output.value, i)
    then exists i :: FirstRoleAt(m.output.value, i) && role == m.output.value[i]
    else role == ""
  }

  lemma OutputRoleIs(m: Message)
    ensures OutputSuggests(m, m.OutputRole())
    ensures m.OutputRole() == "" <==> m.output == Absent || forall i | 0 <= i < |m.output.value| :: m.output.value[i] == ""
  {
    if m.output.Is? {
      FirstRoleFound(m.output.value);
    }
  }

  /** The first message in dictionary order that lists `x`, if any does. */
  ghost predicate FirstLister(s: HistoryState, x: Id, parent: Option<Id>) {
    match parent
    case None => forall i | 0 <= i < |s.keys| :: x !in ChildrenOf(s.messages, s.keys[i])
    case Some(p) =>
      exists i :: 0 <= i < |s.keys| && s.keys[i] == p && x in ChildrenOf(s.messages, p)
        && forall j | 0 <= j < i :: x !in ChildrenOf(s.messages, s.keys[j])
  }

  lemma {:induction false} ListerIsFirst(s: HistoryState, x: Id)
    ensures FirstLister(s, x, Lister(s.messages, s.keys, x))
    decreases |s.keys|
  {
    if s.keys != [] && x !in ChildrenOf(s.messages, s.keys[0]) {
      var tail := s.(keys := s.keys[1..]);
      ListerIsFirst(tail, x);
      assert forall i | 0 < i < |s.keys| :: s.keys[i] == tail.keys[i - 1];
      var parent := Lister(s.messages, s.keys, x);
      if parent.Some? {
        var i :| 0 <= i < |tail.keys| && tail.keys[i] == parent.value
          && forall j | 0 <= j < i :: x !in ChildrenOf(s.messages, tail.keys[j]);
        assert s.keys[i + 1] == parent.value;
      }
    }
  }

  /** A new message's role is its own, or the one its output suggests, or the opposite of its stored
      parent's: user below an assistant, assistant below anyone else or nobody. */
  ghost predicate RoleIs(s: HistoryState, patch: Message, parent: Option<Id>, role: string) {
    if patch.role.Is? && patch.role.value != "" then role == patch.role.value
    else if patch.output.Is? && exists i :: FirstRoleAt(patch.output.value, i) then OutputSuggests(patch, role)
    else if parent.Some? && parent.value != "" && parent.value in s.messages && s.messages[parent.value].role == Is("assistant")
    then role == "user"
    else role == "assistant"
  }

  /** Upserting a new message stores it as given, but for the keys filled in: its id, the parent that
      lists it, a child list, a role and a time. */
  lemma UpsertStores(s: HistoryState, x: Id, patch: Message, now: int)
    requires x !in s.messages
    ensures var m := Upserted(s, x, patch, now).messages[x];
            && m.id == Is(if patch.id.Is? && patch.id.value != "" then patch.id.value else x)
            && m.parentId.Is?
            && (if patch.parentId.Is? && patch.parentId.value.Some? then m.parentId == patch.parentId
                else FirstLister(s, x, m.parentId.value))
            && m.childrenIds == Is(if patch.childrenIds.Is? then patch.childrenIds.value else [])
            && m.role.Is? && RoleIs(s, patch, m.parentId.value, m.role.value)
            && m.timestamp == Is(if patch.timestamp.Is? && patch.timestamp.value != 0 then patch.timestamp.value else now)
            && m.output == patch.output && m.rest == patch.rest
  {
    ListerIsFirst(s, x);
    OutputRoleIs(patch);
    if patch.output.Is? {
      FirstRoleFound(patch.output.value);
    }
  }
}
