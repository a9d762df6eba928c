/** The history dictionary of a chat, edited in place. */
module History {
  import opened Common
  import opened Messages
  import opened Deletion
  import opened Upsert
  import opened CurrentMessage

  class History {
    var messages: MessageMap
    var keys: seq<Id>
    var currentId: Option<Id>

    ghost predicate Valid()
      reads this
    {
      Keyed(messages, keys)
    }

    function State(): HistoryState
      reads this
    {
      HistoryState(messages, keys, currentId)
    }

    constructor (s: HistoryState)
      requires Keyed(s.messages, s.keys)
      ensures Valid() && State() == s
    {
      messages, keys, currentId := s.messages, s.keys, s.currentId;
    }

    /** Moves the current id off a missing, incomplete or stray message. */
    method RepairCurrentId() returns (changed: bool)
      requires Valid()
      modifies this`currentId
      ensures Repaired(old(State()), State(), changed)
    {
      if CurrentIsFine(State()) {
        LatestOfIsLatest(messages, keys);
        return false;
      }
      var latest := FindLatestLeaf(messages, keys);
      if latest == None || latest.value == "" || latest == currentId {
        return false;
      }
      currentId := latest;
      return true;
    }

    /** Removes a message and its direct children; grandchildren move up to its parent. */
    method Delete(m: Id) returns (deleted: set<Id>)
      requires Valid()
      requires m in messages ==> DescentTerminates(Deleted(messages, m))
      modifies this
      ensures Valid()
      ensures m !in old(messages) ==> deleted == {} && State() == old(State())
      ensures m in old(messages) ==>
                && deleted == DeletedIds(old(messages), m)
                && messages == Deleted(old(messages), m)
                && keys == Drop(old(keys), deleted)
                && CurrentAfterDelete(messages, keys, old(messages)[m].Parent(), currentId)
    {
      if m !in messages {
        return {};
      }
      var parent := messages[m].Parent();
      var childIds := StoredChildren(messages, m);
      var grandchildIds := StoredGrandchildren(messages, childIds);
      var adopting := messages;
      if parent.Some? && parent.value in messages {
        var kept := Drop(messages[parent.value].Children(), {m});
        adopting := messages[parent.value := messages[parent.value].(childrenIds := Is(kept + grandchildIds))];
      }
      var moved := Reparent(adopting, grandchildIds, parent);
      deleted := {m} + Elements(childIds);
      messages, keys := moved - deleted, Drop(keys, deleted);
      assert messages == Deleted(old(messages), m);
      DroppedKeyed(old(messages), old(keys), messages, deleted);
      SettleCurrent(parent);
    }

    /** Walks down last children from `parent`, or from the last root, to the new current message. */
    method SettleCurrent(parent: Option<Id>)
      requires Valid() && DescentTerminates(messages)
      modifies this`currentId
      ensures CurrentAfterDelete(messages, keys, parent, currentId)
    {
      ghost var rank :| DescentRank(messages, rank);
      var current := parent;
      var childIds := if current == None then Roots(messages, keys) else ChildrenOf(messages, current.value);
      ghost var path := if current == None then [] else [current.value];
      while childIds != []
        invariant Walking(messages, keys, parent, current, childIds, path)
        decreases current == None, StepsLeft(messages, rank, current)
      {
        WalkDescends(messages, keys, parent, current, childIds, path, rank);
        WalkStep(messages, keys, parent, current, childIds, path);
        path := path + [childIds[|childIds| - 1]];
        current := Some(childIds[|childIds| - 1]);
        childIds := ChildrenOf(messages, current.value);
      }
      WalkEnds(messages, keys, parent, current, path);
      currentId := if current.Some? && current.value in messages then current else None;
    }

    /** Stores a new message, or overrides the given keys of a stored one. */
    method Upsert(x: Id, patch: Message, now: int) returns (saved: Message)
      requires Valid()
      modifies this
      ensures Valid()
      ensures State() == Upserted(old(State()), x, patch, now)
      ensures saved == Saved(old(messages), old(keys), x, patch, now)
    {
      UpsertedKeyed(State(), x, patch, now);
      if x in messages {
        messages := messages[x := messages[x].With(patch)];
      } else {
        var parentId := patch.Parent();
        if parentId == None {
          parentId := FindLister(x);
        }
        var role := InferRole(parentId, patch);
        messages := messages[x := patch.(
          id := Is(if patch.id.Is? && patch.id.value != "" then patch.id.value else x),
          parentId := Is(if patch.Parent().Some? then patch.Parent() else parentId),
          childrenIds := Is(patch.Children()),
          role := Is(role),
          timestamp := Is(if patch.Time() != 0 then patch.Time() else now))];
        keys := keys + [x];
      }
      currentId := Some(x);
      saved := messages[x];
    }

    /** A message without a role of its own, nor in its output, gets the one its parent does not have. */
    method InferRole(parentId: Option<Id>, patch: Message) returns (role: string)
      ensures role == RoleFor(messages, parentId, patch)
    {
      role := if patch.Role() != "" then patch.Role() else patch.OutputRole();
      if role == "" {
        var known := parentId.Some? && parentId.value != "" && parentId.value in messages;
        var parentRole := if known then messages[parentId.value].Role() else "";
        if parentRole == "user" {
          role := "assistant";
        } else if parentRole == "assistant" {
          role := "user";
        } else {
          role := "assistant";
        }
      }
    }

    /** The first message that already lists `x` as a child. */
    method FindLister(x: Id) returns (r: Option<Id>)
      requires Valid()
      ensures r == Lister(messages, keys, x)
    {
      for n := 0 to |keys|
        invariant Lister(messages, keys, x) == Lister(messages, keys[n..], x)
      {
        assert keys[n] in Elements(keys);
        assert keys[n..][1..] == keys[n + 1..];
        if x in messages[keys[n]].Children() {
          return Some(keys[n]);
        }
      }
      r := None;
    }
  }

  /** The search for the newest leaf that has a role. */
  method FindLatestLeaf(ms: MessageMap, keys: seq<Id>) returns (latest: Option<Id>)
    requires Keyed(ms, keys)
    ensures LatestLeaf(ms, keys, latest)
  {
    latest := None;
    var timestamp := -1;
    for n := 0 to |keys|
      invariant latest == LatestOf(ms, keys[..n]) && timestamp == LatestTime(ms, latest)
    {
      assert keys[n] in Elements(keys);
      assert keys[..n + 1][..n] == keys[..n];
      if ms[keys[n]].Role() != "" {
        var time := ms[keys[n]].Time();
        if |ms[keys[n]].Children()| == 0 && time > timestamp {
          latest, timestamp := Some(keys[n]), time;
        }
      }
    }
    assert keys[..|keys|] == keys;
    LatestOfIsLatest(ms, keys);
  }

  /** Points each of `xs` at `parent`. */
  method Reparent(ms: MessageMap, xs: seq<Id>, parent: Option<Id>) returns (r: MessageMap)
    requires forall x | x in xs :: x in ms
    ensures r == SetParents(ms, Elements(xs), parent)
  {
    r := ms;
    for n := 0 to |xs|
      invariant r == SetParents(ms, Elements(xs[..n]), parent)
    {
      assert xs[n] in xs && xs[..n + 1] == xs[..n] + [xs[n]];
      r := r[xs[n] := r[xs[n]].(parentId := Is(parent))];
    }
    assert xs[..|xs|] == xs;
  }

  /** The walk to the new current message: `path` leads to `current`, whose children are `childIds`. */
  ghost predicate Walking(ms: MessageMap, keys: seq<Id>, parent: Option<Id>, current: Option<Id>, childIds: seq<Id>, path: seq<Id>) {
    if current == None then parent == None && childIds == Roots(ms, keys) && path == []
    else
      && LastChildPath(ms, path)
      && DescentStart(ms, keys, parent) == Some(path[0])
      && path[|path| - 1] == current.value
      && childIds == ChildrenOf(ms, current.value)
  }

  lemma WalkStep(ms: MessageMap, keys: seq<Id>, parent: Option<Id>, current: Option<Id>, childIds: seq<Id>, path: seq<Id>)
    requires Walking(ms, keys, parent, current, childIds, path) && childIds != []
    ensures var next := childIds[|childIds| - 1];
            Walking(ms, keys, parent, Some(next), ChildrenOf(ms, next), path + [next])
  {
  }

  ghost function StepsLeft(ms: MessageMap, rank: map<Id, nat>, current: Option<Id>): nat {
    if current.Some? && current.value in ms && current.value in rank then rank[current.value] + 1 else 0
  }

  lemma WalkDescends(ms: MessageMap, keys: seq<Id>, parent: Option<Id>, current: Option<Id>, childIds: seq<Id>, path: seq<Id>, rank: map<Id, nat>)
    requires Walking(ms, keys, parent, current, childIds, path) && childIds != [] && DescentRank(ms, rank)
    ensures current.Some? ==> StepsLeft(ms, rank, Some(childIds[|childIds| - 1])) < StepsLeft(ms, rank, current)
  {
  }

  lemma WalkEnds(ms: MessageMap, keys: seq<Id>, parent: Option<Id>, current: Option<Id>, path: seq<Id>)
    requires Walking(ms, keys, parent, current, [], path)
    ensures CurrentAfterDelete(ms, keys, parent, if current.Some? && current.value in ms then current else None)
  {
    if current.Some? {
      assert DescendsTo(ms, path[0], current.value);
    }
  }

  lemma DroppedKeyed(ms: MessageMap, keys: seq<Id>, ms': MessageMap, gone: set<Id>)
    requires Keyed(ms, keys) && ms'.Keys == ms.Keys - gone
    ensures Keyed(ms', Drop(keys, gone))
  {
    forall x
      ensures x in Drop(keys, gone) <==> x in ms'
    {
      assert x in keys <==> x in Elements(keys);
    }
  }
}
