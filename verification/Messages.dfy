/** The message history of one chat: a dictionary of message records that point at their
    parent and list their children, and the shape such a dictionary should have. */
module Messages {
  import opened Common

  type Id = string

  /** One key of a JSON object: `Absent` when the object does not have the key. */
  datatype Slot<+T> = Absent | Is(value: T)

  /** A message record. `output` keeps the role of each output item ("" for an item without one);
      `rest` stands for every key that no modelled operation looks at. */
  datatype Message = Message(
    id: Slot<Id>,
    parentId: Slot<Option<Id>>,
    childrenIds: Slot<seq<Id>>,
    role: Slot<string>,
    timestamp: Slot<int>,
    output: Slot<seq<string>>,
    rest: map<string, string>)
  {
    /** The parent named by the record; none when the key is missing. */
    function Parent(): Option<Id> {
      if parentId.Is? then parentId.value else None
    }

    /** The listed children; a missing list counts as empty. */
    function Children(): seq<Id> {
      if childrenIds.Is? then childrenIds.value else []
    }

    /** The role, with "" for a missing one: the two are treated alike. */
    function Role(): string {
      if role.Is? then role.value else ""
    }

    /** The timestamp, 0 when missing. */
    function Time(): int {
      if timestamp.Is? then timestamp.value else 0
    }

    /** The first truthy role among the output items, or "". */
    function OutputRole(): string {
      if output.Is? then FirstRole(output.value) else ""
    }

    /** The record with every key of the patch written over it. */
    function With(patch: Message): Message {
      Message(
        if patch.id.Is? then patch.id else id,
        if patch.parentId.Is? then patch.parentId else parentId,
        if patch.childrenIds.Is? then patch.childrenIds else childrenIds,
        if patch.role.Is? then patch.role else role,
        if patch.timestamp.Is? then patch.timestamp else timestamp,
        if patch.output.Is? then patch.output else output,
        rest + patch.rest)
    }
  }

  function FirstRole(roles: seq<string>): string {
    if roles == [] then "" else if roles[0] != "" then roles[0] else FirstRole(roles[1..])
  }

  type MessageMap = map<Id, Message>

  /** The children that the record under `x` lists; none when there is no such record. */
  function ChildrenOf(ms: MessageMap, x: Id): seq<Id> {
    if x in ms then ms[x].Children() else []
  }

  /** `keys` lists the dictionary's keys in insertion order. */
  ghost predicate Keyed(ms: MessageMap, keys: seq<Id>) {
    NoDup(keys) && Elements(keys) == ms.Keys
  }

  // ---------------------------------------------------------------------------------------
  // The shape of a history
  // ---------------------------------------------------------------------------------------

  ghost predicate Lists(ms: MessageMap, p: Id, c: Id) {
    p in ms && c in ms[p].Children()
  }

  ghost predicate HasParent(ms: MessageMap, c: Id, p: Id) {
    c in ms && ms[c].Parent() == Some(p)
  }

  ghost predicate ChildrenDistinct(ms: MessageMap) {
    forall p | p in ms :: NoDup(ms[p].Children())
  }

  /** The child lists are exactly the inverse of the parent links, without duplicates. */
  ghost predicate Linked(ms: MessageMap) {
    && ChildrenDistinct(ms)
    && forall p, c {:trigger Lists(ms, p, c)} {:trigger HasParent(ms, c, p)} ::
         p in ms ==> (Lists(ms, p, c) <==> HasParent(ms, c, p))
  }

  /** The links agree except that the stored messages in `unlisted` are not yet listed by their
      stored parent, and the pairs in `pending` are listed children not yet stored. */
  ghost predicate HalfLinked(ms: MessageMap, unlisted: set<Id>, pending: set<(Id, Id)>) {
    && ChildrenDistinct(ms)
    && (forall p, c {:trigger Lists(ms, p, c)} {:trigger HasParent(ms, c, p)} {:trigger (p, c) in pending} ::
          p in ms ==> (Lists(ms, p, c) <==> (HasParent(ms, c, p) && c !in unlisted) || (p, c) in pending))
    && (forall p, c {:trigger (p, c) in pending} :: (p, c) in pending ==> p in ms && c !in ms)
    && (forall c | c in unlisted :: c in ms && ms[c].Parent().Some? && ms[c].Parent().value in ms)
  }

  lemma LinkedIsHalfLinked(ms: MessageMap)
    ensures Linked(ms) <==> HalfLinked(ms, {}, {})
  {
    if HalfLinked(ms, {}, {}) {
      forall p, c | p in ms
        ensures Lists(ms, p, c) <==> HasParent(ms, c, p)
      {
        assert (p, c) !in {};
      }
    }
  }

  ghost predicate Ranked(ms: MessageMap, rank: map<Id, nat>) {
    && rank.Keys == ms.Keys
    && forall p, c {:trigger HasParent(ms, c, p)} ::
         HasParent(ms, c, p) && p in ms ==> rank[p] < rank[c]
  }

  ghost predicate Acyclic(ms: MessageMap) {
    exists rank :: Ranked(ms, rank)
  }

  ghost predicate NoDangling(ms: MessageMap) {
    forall c | c in ms && ms[c].Parent().Some? :: ms[c].Parent().value in ms
  }

  /** The message `n` parent links above `x`, if the walk stays inside the map. */
  ghost function Up(ms: MessageMap, x: Id, n: nat): Option<Id>
    decreases n
  {
    if n == 0 then Some(x)
    else if x in ms && ms[x].Parent().Some? && ms[x].Parent().value in ms
    then Up(ms, ms[x].Parent().value, n - 1)
    else None
  }

  ghost predicate ProperAncestor(ms: MessageMap, a: Id, b: Id) {
    exists n: nat :: n > 0 && Up(ms, b, n) == Some(a)
  }

  /** Every stored message carries a role, and no message is stored under the empty id. */
  ghost predicate WellFormed(ms: MessageMap) {
    "" !in ms && forall x | x in ms :: ms[x].Role() != ""
  }
}
