/** The task registry: which tasks exist, and which belong to which item. */
module Tasks {
  import opened Common

  /** An item id may be missing or empty; neither is ever cleaned up. */
  type Item = Option<string>

  predicate Truthy(item: Item) {
    item.Some? && item.value != ""
  }

  datatype Registry = Registry(tasks: set<string>, items: map<Item, seq<string>>)

  /** The list without the first occurrence of `x`. */
  function Remove(s: seq<string>, x: string): seq<string> {
    if s == [] then [] else if s[0] == x then s[1..] else [s[0]] + Remove(s[1..], x)
  }

  /** The tasks listed for an item; none when it has no list. */
  function ItemTasks(r: Registry, item: Item): seq<string> {
    if item in r.items then r.items[item] else []
  }

  function Created(r: Registry, id: string, item: Item): Registry {
    Registry(r.tasks + {id}, r.items[item := ItemTasks(r, item) + [id]])
  }

  function CleanedUp(r: Registry, id: string, item: Item): Registry {
    var tasks := r.tasks - {id};
    if Truthy(item) && id in ItemTasks(r, item) then
      var rest := Remove(r.items[item], id);
      Registry(tasks, if rest == [] then r.items - {item} else r.items[item := rest])
    else Registry(tasks, r.items)
  }

  function Stopped(r: Registry, id: string): Registry {
    Registry(r.tasks - {id}, r.items)
  }

  /** The module's two dictionaries, without a Redis server. */
  class TaskRegistry {
    var tasks: set<string>
    var items: map<Item, seq<string>>

    function State(): Registry
      reads this
    {
      Registry(tasks, items)
    }

    constructor ()
      ensures State() == Registry({}, map[])
    {
      tasks, items := {}, map[];
    }

    method CreateTask(id: string, item: Item)
      modifies this
      ensures State() == Created(old(State()), id, item)
    {
      tasks := tasks + {id};
      if item in items && items[item] != [] {
        items := items[item := items[item] + [id]];
      } else {
        assert [] + [id] == [id];
        items := items[item := [id]];
      }
    }

    method CleanupTask(id: string, item: Item)
      modifies this
      ensures State() == CleanedUp(old(State()), id, item)
    {
      tasks := tasks - {id};
      if Truthy(item) && item in items && id in items[item] {
        items := items[item := Remove(items[item], id)];
        if items[item] == [] {
          items := items - {item};
          assert items == old(items) - {item};
        }
      }
    }

    method StopTask(id: string) returns (found: bool)
      modifies this
      ensures found == (id in old(tasks))
      ensures State() == Stopped(old(State()), id)
    {
      found := id in tasks;
      tasks := tasks - {id};
    }

    method HasActiveTasks(item: Item) returns (active: bool)
      ensures active == (ItemTasks(State(), item) != [])
    {
      var ids := if item in items then items[item] else [];
      active := |ids| > 0;
    }

    /** A finished chat request: if it names a chat and a task, deregister the task, then report the
        chat inactive if none is left. */
    method FinishRequest(id: string, chat: Item) returns (inactive: bool)
      modifies this
      ensures if Truthy(chat) && id != "" then
                State() == CleanedUp(old(State()), id, chat) && inactive == (ItemTasks(State(), chat) == [])
              else State() == old(State()) && !inactive
    {
      inactive := false;
      if Truthy(chat) && id != "" {
        CleanupTask(id, chat);
        var active := HasActiveTasks(chat);
        inactive := !active;
      }
    }
  }

  // ---------------------------------------------------------------------------------------
  // Traces
  // ---------------------------------------------------------------------------------------

  /** What happens to the registry. A clean-up is either the done-callback of a task or an explicit
      one; a stop only forgets the task itself. */
  datatype Event = Create(id: string, item: Item) | Cleanup(id: string, item: Item) | Stop(id: string)

  function After(r: Registry, e: Event): Registry {
    match e
    case Create(id, item) => Created(r, id, item)
    case Cleanup(id, item) => CleanedUp(r, id, item)
    case Stop(id) => Stopped(r, id)
  }

  function AfterAll(trace: seq<Event>): Registry {
    if trace == [] then Registry({}, map[])
    else After(AfterAll(trace[..|trace| - 1]), trace[|trace| - 1])
  }

  /** No task id is created twice. */
  ghost predicate FreshIds(trace: seq<Event>) {
    forall i, j | 0 <= i < j < |trace| && trace[i].Create? && trace[j].Create? :: trace[i].id != trace[j].id
  }

  /** At `i` a task of the item was created that no clean-up naming task and item has removed since.
      A clean-up with a missing or empty item id removes nothing. */
  predicate LiveAt(trace: seq<Event>, item: Item, i: int) {
    && 0 <= i < |trace|
    && trace[i].Create? && trace[i].item == item
    && (Truthy(item) ==> Cleanup(trace[i].id, item) !in trace[i + 1..])
  }

  /** The item's live tasks among the first `n` events, in the order of their creation. */
  function LiveTasks(trace: seq<Event>, item: Item, n: nat): seq<string>
    requires n <= |trace|
  {
    if n == 0 then []
    else if LiveAt(trace, item, n - 1) then LiveTasks(trace, item, n - 1) + [trace[n - 1].id]
    else LiveTasks(trace, item, n - 1)
  }

  function Live(trace: seq<Event>, item: Item): seq<string> {
    LiveTasks(trace, item, |trace|)
  }

  lemma {:induction false} LiveMember(trace: seq<Event>, item: Item, n: nat, id: string)
    requires n <= |trace|
    ensures id in LiveTasks(trace, item, n) <==> exists i | 0 <= i < n :: LiveAt(trace, item, i) && trace[i].id == id
  {
    if n > 0 {
      LiveMember(trace, item, n - 1, id);
    }
  }

  lemma {:induction false} LiveDistinct(trace: seq<Event>, item: Item, n: nat)
    requires n <= |trace| && FreshIds(trace)
    ensures NoDup(LiveTasks(trace, item, n))
  {
    if n > 0 {
      LiveDistinct(trace, item, n - 1);
      LiveMember(trace, item, n - 1, if trace[n - 1].Create? then trace[n - 1].id else "");
    }
  }

  lemma LiveAtSnoc(trace: seq<Event>, e: Event, item: Item, i: int)
    requires 0 <= i < |trace|
    ensures LiveAt(trace + [e], item, i) <==>
              LiveAt(trace, item, i) && !(Truthy(item) && e == Cleanup(trace[i].id, item))
  {
    assert (trace + [e])[i + 1..] == trace[i + 1..] + [e];
  }

  /** One more event drops the cleaned task and nothing else from the live tasks so far. */
  lemma {:induction false} LiveTasksSnoc(trace: seq<Event>, e: Event, item: Item, n: nat)
    requires n <= |trace|
    ensures LiveTasks(trace + [e], item, n) ==
            if Truthy(item) && e.Cleanup? && e.item == item then Drop(LiveTasks(trace, item, n), {e.id}) else LiveTasks(trace, item, n)
  {
    if n > 0 {
      LiveTasksSnoc(trace, e, item, n - 1);
      OneMoreLive(trace, e, item, n - 1, LiveTasks(trace, item, n - 1));
      assert (trace + [e])[n - 1] == trace[n - 1];
    }
  }

  /** One more task is live after the event if it was before and the event does not clean it up. */
  lemma OneMoreLive(trace: seq<Event>, e: Event, item: Item, i: nat, before: seq<string>)
    requires i < |trace|
    ensures var cleans := Truthy(item) && e.Cleanup? && e.item == item;
            var was := if LiveAt(trace, item, i) then before + [trace[i].id] else before;
            (if cleans then Drop(was, {e.id}) else was) ==
            var kept := if cleans then Drop(before, {e.id}) else before;
            if LiveAt(trace + [e], item, i) then kept + [trace[i].id] else kept
  {
    LiveAtSnoc(trace, e, item, i);
    if e.Cleanup? && LiveAt(trace, item, i) {
      DropSnoc(before, trace[i].id, {e.id});
    }
  }

  lemma LiveSnoc(trace: seq<Event>, e: Event, item: Item)
    ensures Live(trace + [e], item) ==
            if e.Create? && e.item == item then Live(trace, item) + [e.id]
            else if Truthy(item) && e.Cleanup? && e.item == item then Drop(Live(trace, item), {e.id})
            else Live(trace, item)
  {
    var longer := trace + [e];
    LiveTasksSnoc(trace, e, item, |trace|);
    assert longer[|trace|] == e && longer[|trace| + 1..] == [];
  }

  lemma {:induction false} RemoveIsDrop(s: seq<string>, x: string)
    requires NoDup(s)
    ensures Remove(s, x) == Drop(s, {x})
  {
    if s != [] {
      if s[0] == x {
        assert x !in s[1..];
        DropNone(s[1..], {x});
      } else {
        RemoveIsDrop(s[1..], x);
      }
    }
  }

  lemma FreshPrefix(trace: seq<Event>)
    requires trace != [] && FreshIds(trace)
    ensures FreshIds(trace[..|trace| - 1])
  {
  }

  ghost predicate Registered(r: Registry, trace: seq<Event>) {
    forall item :: ItemTasks(r, item) == Live(trace, item) && (item in r.items <==> Live(trace, item) != [])
  }

  lemma EventKeepsRegistered(r: Registry, trace: seq<Event>, e: Event)
    requires Registered(r, trace) && FreshIds(trace)
    ensures Registered(After(r, e), trace + [e])
  {
    forall item
      ensures ItemTasks(After(r, e), item) == Live(trace + [e], item)
      ensures item in After(r, e).items <==> Live(trace + [e], item) != []
    {
      assert ItemTasks(r, item) == Live(trace, item);
      LiveSnoc(trace, e, item);
      if e.Cleanup? && e.item == item {
        LiveDistinct(trace, item, |trace|);
        RemoveIsDrop(Live(trace, item), e.id);
        if e.id !in Live(trace, item) {
          DropNone(Live(trace, item), {e.id});
        }
      }
    }
  }

  /** Over any interleaving of events with fresh ids, an item's list holds exactly its live tasks, in
      the order of their creation; it has no duplicates, and no empty list is kept. */
  lemma {:induction false} RegistryHoldsLiveTasks(trace: seq<Event>, item: Item)
    requires FreshIds(trace)
    ensures ItemTasks(AfterAll(trace), item) == Live(trace, item) && NoDup(Live(trace, item))
    ensures item in AfterAll(trace).items <==> Live(trace, item) != []
  {
    AllRegistered(trace);
    LiveDistinct(trace, item, |trace|);
  }

  lemma {:induction false} AllRegistered(trace: seq<Event>)
    requires FreshIds(trace)
    ensures Registered(AfterAll(trace), trace)
  {
    if trace == [] {
      assert forall item :: Live([], item) == [];
    } else {
      var n := |trace| - 1;
      FreshPrefix(trace);
      AllRegistered(trace[..n]);
      EventKeepsRegistered(AfterAll(trace[..n]), trace[..n], trace[n]);
      assert trace[..n] + [trace[n]] == trace;
    }
  }

  /** Deregistering a task and then checking reports the chat inactive exactly when no other task of
      the chat was live. */
  lemma DeregisterThenCheck(trace: seq<Event>, id: string, chat: Item)
    requires FreshIds(trace) && Truthy(chat)
    ensures ItemTasks(AfterAll(trace + [Cleanup(id, chat)]), chat) == [] <==>
              forall i | LiveAt(trace, chat, i) :: trace[i].id == id
  {
    var e := Cleanup(id, chat);
    assert (trace + [e])[..|trace|] == trace;
    RegistryHoldsLiveTasks(trace, chat);
    AllRegistered(trace);
    EventKeepsRegistered(AfterAll(trace), trace, e);
    assert ItemTasks(After(AfterAll(trace), e), chat) == Live(trace + [e], chat);
    LiveSnoc(trace, e, chat);
    var rest := Drop(Live(trace, chat), {id});
    if rest == [] {
      forall i | LiveAt(trace, chat, i)
        ensures trace[i].id == id
      {
        LiveMember(trace, chat, |trace|, trace[i].id);
        assert trace[i].id !in rest;
      }
    } else {
      assert rest[0] in rest;
      LiveMember(trace, chat, |trace|, rest[0]);
    }
  }

  lemma OnlyOne(s: seq<string>, x: string)
    requires NoDup(s) && x in s && forall k | 0 <= k < |s| :: s[k] == x
    ensures s == [x]
  {
    assert s[0] == s[|s| - 1] == x;
  }

  /** While its own task is live, the report is "inactive" exactly when that task was the whole list. */
  lemma LastTaskReports(trace: seq<Event>, id: string, chat: Item)
    requires FreshIds(trace) && Truthy(chat) && id in Live(trace, chat)
    ensures ItemTasks(AfterAll(trace + [Cleanup(id, chat)]), chat) == [] <==> Live(trace, chat) == [id]
  {
    DeregisterThenCheck(trace, id, chat);
    LiveDistinct(trace, chat, |trace|);
    var live := Live(trace, chat);
    if forall i | LiveAt(trace, chat, i) :: trace[i].id == id {
      forall k | 0 <= k < |live|
        ensures live[k] == id
      {
        LiveMember(trace, chat, |trace|, live[k]);
      }
      OnlyOne(live, id);
    } else {
      var i :| LiveAt(trace, chat, i) && trace[i].id != id;
      LiveMember(trace, chat, |trace|, trace[i].id);
    }
  }

  /** The task itself is known until it is cleaned up, under whatever item id, or stopped. */
  predicate KnownAt(trace: seq<Event>, i: int) {
    && 0 <= i < |trace|
    && trace[i].Create?
    && forall e | e in trace[i + 1..] && !e.Create? :: e.id != trace[i].id
  }

  lemma {:induction false} TasksAreKnown(trace: seq<Event>, id: string)
    requires FreshIds(trace)
    ensures id in AfterAll(trace).tasks <==> exists i :: KnownAt(trace, i) && trace[i].id == id
  {
    if trace != [] {
      var n := |trace| - 1;
      var before, e := trace[..n], trace[n];
      FreshPrefix(trace);
      TasksAreKnown(before, id);
      forall i | 0 <= i < n
        ensures KnownAt(trace, i) <==> KnownAt(before, i) && (e.Create? || e.id != trace[i].id)
      {
        assert trace[i + 1..] == before[i + 1..] + [e];
      }
      assert trace[n + 1..] == [];
      assert KnownAt(trace, n) <==> e.Create?;
    }
  }
}
