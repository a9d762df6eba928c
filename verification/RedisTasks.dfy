/** The task registry as several server processes share it through Redis: a hash from task to item,
    and a set of tasks for each item. Each call is one atomic step. */
module RedisTasks {
  import opened Common

  datatype Redis = Redis(hash: map<string, string>, sets: map<string, set<string>>)

  /** The name an item is stored under: a missing one is stored as "". */
  function Name(item: Option<string>): string {
    if item.Some? then item.value else ""
  }

  /** The tasks in an item's set; an empty set is an absent key. */
  function Members(r: Redis, item: string): set<string> {
    if item in r.sets then r.sets[item] else {}
  }

  function WithMembers(r: Redis, item: string, members: set<string>): Redis {
    r.(sets := if members == {} then r.sets - {item} else r.sets[item := members])
  }

  function Saved(r: Redis, id: string, item: Option<string>): Redis {
    var r := r.(hash := r.hash[id := Name(item)]);
    if Name(item) != "" then WithMembers(r, Name(item), Members(r, Name(item)) + {id}) else r
  }

  function CleanedUp(r: Redis, id: string, item: Option<string>): Redis {
    var r := r.(hash := r.hash - {id});
    if Name(item) != "" then WithMembers(r, Name(item), Members(r, Name(item)) - {id}) else r
  }

  /** Stopping looks the item up first, so that the set entry goes too. */
  function Stopped(r: Redis, id: string): Redis {
    CleanedUp(r, id, if id in r.hash && r.hash[id] != "" then Some(r.hash[id]) else None)
  }

  /** An item's set holds exactly the tasks the hash assigns to it, and no set is empty. */
  ghost predicate Consistent(r: Redis) {
    && (forall item, id | item != "" :: id in Members(r, item) <==> id in r.hash && r.hash[id] == item)
    && (forall item | item in r.sets :: r.sets[item] != {} && item != "")
  }

  lemma SaveKeepsConsistent(r: Redis, id: string, item: Option<string>)
    requires Consistent(r) && id !in r.hash
    ensures Consistent(Saved(r, id, item))
  {
    var r' := Saved(r, id, item);
    forall other, x | other != ""
      ensures x in Members(r', other) <==> x in r'.hash && r'.hash[x] == other
    {
      assert x in Members(r, other) <==> x in r.hash && r.hash[x] == other;
    }
  }

  /** A clean-up keeps hash and sets together exactly when it names the item of that task
      (or there is none, or the task is gone). */
  lemma CleanupKeepsConsistentExactly(r: Redis, id: string, item: Option<string>)
    requires Consistent(r)
    ensures Consistent(CleanedUp(r, id, item)) <==> (id in r.hash && r.hash[id] != "" ==> Name(item) == r.hash[id])
  {
    var r' := CleanedUp(r, id, item);
    if id in r.hash && r.hash[id] != "" && Name(item) != r.hash[id] {
      assert id in Members(r, r.hash[id]);
      assert id in Members(r', r.hash[id]);
    } else {
      forall other, x | other != ""
        ensures x in Members(r', other) <==> x in r'.hash && r'.hash[x] == other
      {
        assert x in Members(r, other) <==> x in r.hash && r.hash[x] == other;
      }
    }
  }

  datatype Command = Save(id: string, item: Option<string>) | Cleanup(id: string, item: Option<string>) | Stop(id: string)

  function After(r: Redis, c: Command): Redis {
    match c
    case Save(id, item) => Saved(r, id, item)
    case Cleanup(id, item) => CleanedUp(r, id, item)
    case Stop(id) => Stopped(r, id)
  }

  function AfterAll(commands: seq<Command>): Redis {
    if commands == [] then Redis(map[], map[])
    else After(AfterAll(commands[..|commands| - 1]), commands[|commands| - 1])
  }

  /** Every process cleans up under the item it saved the task with, and task ids are fresh. */
  ghost predicate Disciplined(commands: seq<Command>) {
    forall i, j | 0 <= i < j < |commands| && commands[i].Save? && commands[i].id == commands[j].id ::
      !commands[j].Save? && (commands[j].Cleanup? ==> commands[j].item == commands[i].item)
  }

  /** The task was saved for the item and neither cleaned up nor stopped since. */
  predicate SavedAt(commands: seq<Command>, i: int) {
    && 0 <= i < |commands|
    && commands[i].Save?
    && forall c | c in commands[i + 1..] && !c.Save? :: c.id != commands[i].id
  }

  lemma SavedAtSnoc(before: seq<Command>, c: Command, i: int)
    requires 0 <= i < |before|
    ensures SavedAt(before + [c], i) <==> SavedAt(before, i) && (c.Save? || c.id != before[i].id)
  {
    assert (before + [c])[i + 1..] == before[i + 1..] + [c];
  }

  /** The hash holds exactly the saved tasks that were neither cleaned up nor stopped, with their items. */
  ghost predicate HashIs(commands: seq<Command>, id: string) {
    && (id in AfterAll(commands).hash <==> exists i :: SavedAt(commands, i) && commands[i].id == id)
    && (forall i | SavedAt(commands, i) && commands[i].id == id :: id in AfterAll(commands).hash && AfterAll(commands).hash[id] == Name(commands[i].item))
  }

  lemma HashAfter(r: Redis, c: Command, id: string)
    ensures id in After(r, c).hash <==> if c.id == id then c.Save? else id in r.hash
    ensures id in After(r, c).hash ==> After(r, c).hash[id] == if c.id == id && c.Save? then Name(c.item) else r.hash[id]
  {
  }

  lemma {:induction false} HashHoldsSavedTasks(commands: seq<Command>, id: string)
    requires Disciplined(commands)
    ensures HashIs(commands, id)
  {
    if commands != [] {
      var n := |commands| - 1;
      var before, c := commands[..n], commands[n];
      assert commands == before + [c] && commands[n + 1..] == [];
      HashHoldsSavedTasks(before, id);
      HashAfter(AfterAll(before), c, id);
      forall i | 0 <= i < n
        ensures SavedAt(commands, i) <==> SavedAt(before, i) && (c.Save? || c.id != before[i].id)
      {
        SavedAtSnoc(before, c, i);
      }
      assert SavedAt(commands, n) <==> c.Save?;
    }
  }

  /** Through any disciplined interleaving of the processes, each item's set holds exactly the tasks
      saved for it that were neither cleaned up nor stopped, and no set is empty. */
  lemma SetsHoldSavedTasks(commands: seq<Command>, item: string, id: string)
    requires Disciplined(commands) && item != ""
    ensures Consistent(AfterAll(commands))
    ensures id in Members(AfterAll(commands), item) <==>
              exists i :: SavedAt(commands, i) && commands[i].id == id && commands[i].item == Some(item)
  {
    StaysConsistent(commands);
    HashHoldsSavedTasks(commands, id);
    var r := AfterAll(commands);
    SetIsHash(r, item, id);
    if id in r.hash && r.hash[id] == item {
      var i :| SavedAt(commands, i) && commands[i].id == id;
      assert Name(commands[i].item) == item;
    }
  }

  lemma SetIsHash(r: Redis, item: string, id: string)
    requires Consistent(r) && item != ""
    ensures id in Members(r, item) <==> id in r.hash && r.hash[id] == item
  {
  }

  lemma {:induction false} StaysConsistent(commands: seq<Command>)
    requires Disciplined(commands)
    ensures Consistent(AfterAll(commands))
  {
    if commands != [] {
      var n := |commands| - 1;
      var before, c := commands[..n], commands[n];
      assert commands == before + [c];
      StaysConsistent(before);
      HashHoldsSavedTasks(before, c.id);
      CommandKeepsConsistent(before, c);
    }
  }

  lemma CommandKeepsConsistent(before: seq<Command>, c: Command)
    requires Disciplined(before + [c]) && Consistent(AfterAll(before))
    requires HashIs(before, c.id)
    ensures Consistent(After(AfterAll(before), c))
  {
    var r, commands := AfterAll(before), before + [c];
    if c.id in r.hash {
      var i :| SavedAt(before, i) && before[i].id == c.id;
      assert commands[i] == before[i] && commands[|before|] == c;
    }
    match c
    case Save(id, item) => SaveKeepsConsistent(r, id, item);
    case Cleanup(id, item) => CleanupKeepsConsistentExactly(r, id, item);
    case Stop(id) =>
      CleanupKeepsConsistentExactly(r, id, if id in r.hash && r.hash[id] != "" then Some(r.hash[id]) else None);
  }
}
