/** Inserting a message into a history, or updating one, and what that does to the links. */
module Upsert {
  import opened Common
  import opened Messages

  datatype HistoryState = HistoryState(messages: MessageMap, keys: seq<Id>, currentId: Option<Id>)

  /** The first message, in dictionary order, that lists `x` as a child. */
  function Lister(ms: MessageMap, keys: seq<Id>, x: Id): (r: Option<Id>)
    ensures r.Some? ==> x in ChildrenOf(ms, r.value) && r.value in keys
    ensures r == None ==> forall k | k in keys :: x !in ChildrenOf(ms, k)
  {
    if keys == [] then None
    else if x in ChildrenOf(ms, keys[0]) then Some(keys[0])
    else Lister(ms, keys[1..], x)
  }

  function ParentFor(ms: MessageMap, keys: seq<Id>, x: Id, patch: Message): Option<Id> {
    if patch.Parent().Some? then patch.Parent() else Lister(ms, keys, x)
  }

  /** The message's own role, or that of its output, or the opposite of its parent's. */
  function RoleFor(ms: MessageMap, parent: Option<Id>, patch: Message): (r: string)
    ensures r != ""
  {
    if patch.Role() != "" then patch.Role()
    else if patch.OutputRole() != "" then patch.OutputRole()
    else if parent.Some? && parent.value != "" && parent.value in ms && ms[parent.value].Role() == "assistant" then "user"
    else "assistant"
  }

  /** The record stored under `x`. */
  function Saved(ms: MessageMap, keys: seq<Id>, x: Id, patch: Message, now: int): Message {
    if x in ms then ms[x].With(patch)
    else
      var parent := ParentFor(ms, keys, x, patch);
      patch.(
        id := Is(if patch.id.Is? && patch.id.value != "" then patch.id.value else x),
        parentId := Is(parent),
        childrenIds := Is(patch.Children()),
        role := Is(RoleFor(ms, parent, patch)),
        timestamp := Is(if patch.Time() != 0 then patch.Time() else now))
  }

  function Upserted(s: HistoryState, x: Id, patch: Message, now: int): HistoryState {
    HistoryState(
      s.messages[x := Saved(s.messages, s.keys, x, patch, now)],
      if x in s.messages then s.keys else s.keys + [x],
      Some(x))
  }

  lemma UpsertedKeyed(s: HistoryState, x: Id, patch: Message, now: int)
    requires Keyed(s.messages, s.keys)
    ensures Keyed(Upserted(s, x, patch, now).messages, Upserted(s, x, patch, now).keys)
  {
    if x !in s.messages {
      assert x !in s.keys by { assert x !in Elements(s.keys); }
      NoDupSnoc(s.keys, x);
    }
  }

  lemma UpsertedWellFormed(s: HistoryState, x: Id, patch: Message, now: int)
    requires WellFormed(s.messages) && x != "" && patch.role != Is("")
    ensures WellFormed(Upserted(s, x, patch, now).messages)
  {
  }

  /** The links from `p` to each of `ids`. */
  ghost function Pairs(p: Id, ids: seq<Id>): (r: set<(Id, Id)>)
    ensures forall l :: l in r <==> l.0 == p && l.1 in ids
  {
    set c | c in ids :: (p, c)
  }

  /** The links that do not lead to `x`. */
  ghost function NotTo(links: set<(Id, Id)>, x: Id): (r: set<(Id, Id)>)
    ensures forall l :: l in r <==> l in links && l.1 != x
  {
    set l | l in links && l.1 != x
  }

  /** The unlisted messages once `x` is stored below `parent`. */
  ghost function Unlisting(ms: MessageMap, unlisted: set<Id>, pending: set<(Id, Id)>, x: Id, parent: Option<Id>): set<Id> {
    if parent.Some? && parent.value in ms && (parent.value, x) !in pending then unlisted + {x} else unlisted
  }

  ghost predicate Unreferenced(ms: MessageMap, x: Id) {
    forall c :: !HasParent(ms, c, x)
  }

  /** Storing a new message settles every pending link to it, leaves its own children pending, and
      leaves it unlisted when its stored parent did not list it beforehand. */
  lemma InsertLinks(s: HistoryState, x: Id, patch: Message, now: int, unlisted: set<Id>, pending: set<(Id, Id)>)
    requires Keyed(s.messages, s.keys) && HalfLinked(s.messages, unlisted, pending)
    requires x !in s.messages && Unreferenced(s.messages, x)
    requires NoDup(patch.Children()) && forall c | c in patch.Children() :: c !in s.messages && c != x
    requires ParentFor(s.messages, s.keys, x, patch) != Some(x)
    requires forall q {:trigger (q, x) in pending} :: (q, x) in pending ==> ParentFor(s.messages, s.keys, x, patch) == Some(q)
    ensures HalfLinked(
              Upserted(s, x, patch, now).messages,
              Unlisting(s.messages, unlisted, pending, x, ParentFor(s.messages, s.keys, x, patch)),
              NotTo(pending, x) + Pairs(x, patch.Children()))
  {
    var saved := Saved(s.messages, s.keys, x, patch, now);
    InsertedLinks(s.messages, x, saved, unlisted, pending);
  }

  lemma InsertedLinks(ms: MessageMap, x: Id, m: Message, unlisted: set<Id>, pending: set<(Id, Id)>)
    requires HalfLinked(ms, unlisted, pending)
    requires x !in ms && Unreferenced(ms, x)
    requires NoDup(m.Children()) && forall c | c in m.Children() :: c !in ms && c != x
    requires m.Parent() != Some(x)
    requires forall q {:trigger (q, x) in pending} :: (q, x) in pending ==> m.Parent() == Some(q)
    ensures HalfLinked(ms[x := m], Unlisting(ms, unlisted, pending, x, m.Parent()), NotTo(pending, x) + Pairs(x, m.Children()))
  {
    var ms' := ms[x := m];
    var unlisted' := Unlisting(ms, unlisted, pending, x, m.Parent());
    var pending' := NotTo(pending, x) + Pairs(x, m.Children());
    forall p, c
      ensures p in ms' ==> (Lists(ms', p, c) <==> (HasParent(ms', c, p) && c !in unlisted') || (p, c) in pending')
      ensures (p, c) in pending' ==> p in ms' && c !in ms'
    {
      assert (p, c) in pending' <==> ((p, c) in pending && c != x) || (p == x && c in m.Children());
      if p == x {
        assert !HasParent(ms, c, x);
      } else {
        assert Lists(ms', p, c) <==> Lists(ms, p, c);
        assert c != x ==> (HasParent(ms', c, p) <==> HasParent(ms, c, p));
      }
    }
  }

  /** A patch that only sets the child list. */
  function ChildrenPatch(kids: seq<Id>): Message {
    Message(Absent, Absent, Is(kids), Absent, Absent, Absent, map[])
  }

  /** Appending children to a stored message settles the unlisted ones among them and leaves the
      ones not yet stored pending. */
  lemma AppendLinks(s: HistoryState, p: Id, extra: seq<Id>, now: int, unlisted: set<Id>, pending: set<(Id, Id)>)
    requires HalfLinked(s.messages, unlisted, pending) && p in s.messages && NoDup(extra)
    requires forall c | c in extra :: c !in s.messages[p].Children() && (c in s.messages ==> HasParent(s.messages, c, p))
    ensures HalfLinked(
              Upserted(s, p, ChildrenPatch(s.messages[p].Children() + extra), now).messages,
              unlisted - Elements(extra),
              pending + Pairs(p, Drop(extra, s.messages.Keys)))
  {
    var ms := s.messages;
    var ms' := Upserted(s, p, ChildrenPatch(ms[p].Children() + extra), now).messages;
    var pending' := pending + Pairs(p, Drop(extra, ms.Keys));
    AppendKeepsDistinct(s, p, extra, now, unlisted, pending);
    forall q, c
      ensures q in ms' ==> (Lists(ms', q, c) <==> (HasParent(ms', c, q) && c !in unlisted - Elements(extra)) || (q, c) in pending')
      ensures (q, c) in pending' ==> q in ms' && c !in ms'
    {
      AppendedLink(s, p, extra, now, unlisted, pending, q, c);
    }
  }

  lemma AppendKeepsDistinct(s: HistoryState, p: Id, extra: seq<Id>, now: int, unlisted: set<Id>, pending: set<(Id, Id)>)
    requires HalfLinked(s.messages, unlisted, pending) && p in s.messages && NoDup(extra)
    requires forall c | c in extra :: c !in s.messages[p].Children()
    ensures ChildrenDistinct(Upserted(s, p, ChildrenPatch(s.messages[p].Children() + extra), now).messages)
  {
    NoDupConcat(s.messages[p].Children(), extra);
  }

  lemma AppendedLink(s: HistoryState, p: Id, extra: seq<Id>, now: int, unlisted: set<Id>, pending: set<(Id, Id)>, q: Id, c: Id)
    requires HalfLinked(s.messages, unlisted, pending) && p in s.messages
    requires forall c | c in extra :: c !in s.messages[p].Children() && (c in s.messages ==> HasParent(s.messages, c, p))
    ensures var ms' := Upserted(s, p, ChildrenPatch(s.messages[p].Children() + extra), now).messages;
            var pending' := pending + Pairs(p, Drop(extra, s.messages.Keys));
            && (q in ms' ==> (Lists(ms', q, c) <==> (HasParent(ms', c, q) && c !in unlisted - Elements(extra)) || (q, c) in pending'))
            && ((q, c) in pending' ==> q in ms' && c !in ms')
  {
    var ms := s.messages;
    var ms' := Upserted(s, p, ChildrenPatch(ms[p].Children() + extra), now).messages;
    assert HasParent(ms', c, q) <==> HasParent(ms, c, q);
    assert Lists(ms', q, c) <==> Lists(ms, q, c) || (q == p && c in extra);
    assert (q, c) in pending + Pairs(p, Drop(extra, ms.Keys)) <==> (q, c) in pending || (q == p && c in extra && c !in ms);
    if c in extra && c in ms {
      assert HasParent(ms, c, p) && !Lists(ms, p, c);
    }
  }

  /** A new message that nobody calls its parent cannot close a cycle. */
  lemma InsertKeepsAcyclic(s: HistoryState, x: Id, patch: Message, now: int)
    requires Acyclic(s.messages) && x !in s.messages && Unreferenced(s.messages, x)
    requires ParentFor(s.messages, s.keys, x, patch) != Some(x)
    ensures Acyclic(Upserted(s, x, patch, now).messages)
  {
    var ms, ms' := s.messages, Upserted(s, x, patch, now).messages;
    var rank :| Ranked(ms, rank);
    var parent := ParentFor(ms, s.keys, x, patch);
    var rank' := rank[x := if parent.Some? && parent.value in ms then rank[parent.value] + 1 else 0];
    forall p, c | HasParent(ms', c, p) && p in ms'
      ensures rank'[p] < rank'[c]
    {
      if c != x {
        assert HasParent(ms, c, p);
      }
    }
    assert Ranked(ms', rank');
  }

  lemma AppendKeepsAcyclic(s: HistoryState, p: Id, kids: seq<Id>, now: int)
    requires Acyclic(s.messages) && p in s.messages
    ensures Acyclic(Upserted(s, p, ChildrenPatch(kids), now).messages)
  {
    var ms, ms' := s.messages, Upserted(s, p, ChildrenPatch(kids), now).messages;
    var rank :| Ranked(ms, rank);
    forall q, c | HasParent(ms', c, q) && q in ms'
      ensures rank[q] < rank[c]
    {
      assert HasParent(ms, c, q);
    }
    assert Ranked(ms', rank);
  }

  // ---------------------------------------------------------------------------------------
  // One upsert of a turn
  // ---------------------------------------------------------------------------------------

  ghost predicate Fresh(ms: MessageMap, x: Id) {
    x != "" && x !in ms && Unreferenced(ms, x)
  }

  /** A sound history up to the named link halves. */
  ghost predicate Stage(s: HistoryState, unlisted: set<Id>, pending: set<(Id, Id)>) {
    && Keyed(s.messages, s.keys)
    && WellFormed(s.messages)
    && Acyclic(s.messages)
    && HalfLinked(s.messages, unlisted, pending)
  }

  lemma InsertStage(s: HistoryState, x: Id, patch: Message, now: int, unlisted: set<Id>, pending: set<(Id, Id)>)
    requires Stage(s, unlisted, pending)
    requires Fresh(s.messages, x) && patch.role != Is("")
    requires NoDup(patch.Children()) && forall c | c in patch.Children() :: c !in s.messages && c != x
    requires patch.Parent() != Some(x)
    requires forall q {:trigger (q, x) in pending} :: (q, x) in pending ==> patch.Parent() == Some(q)
    ensures Stage(
              Upserted(s, x, patch, now),
              Unlisting(s.messages, unlisted, pending, x, patch.Parent()),
              NotTo(pending, x) + Pairs(x, patch.Children()))
    ensures Saved(s.messages, s.keys, x, patch, now).Parent() == patch.Parent()
  {
    ParentIsOwn(s, x, patch, unlisted, pending);
    InsertLinks(s, x, patch, now, unlisted, pending);
    InsertKeepsAcyclic(s, x, patch, now);
    UpsertedKeyed(s, x, patch, now);
    UpsertedWellFormed(s, x, patch, now);
  }

  /** Nobody but the named parent lists a new message, so the search for a lister changes nothing. */
  lemma ParentIsOwn(s: HistoryState, x: Id, patch: Message, unlisted: set<Id>, pending: set<(Id, Id)>)
    requires Keyed(s.messages, s.keys) && HalfLinked(s.messages, unlisted, pending)
    requires Fresh(s.messages, x)
    requires forall q {:trigger (q, x) in pending} :: (q, x) in pending ==> patch.Parent() == Some(q)
    ensures ParentFor(s.messages, s.keys, x, patch) == patch.Parent()
  {
    if patch.Parent() == None {
      forall q | q in s.keys
        ensures x !in ChildrenOf(s.messages, q)
      {
        assert q in Elements(s.keys);
        assert Lists(s.messages, q, x) <==> x in ChildrenOf(s.messages, q);
        assert !HasParent(s.messages, x, q);
      }
    }
  }

  lemma AppendStage(s: HistoryState, p: Id, extra: seq<Id>, now: int, unlisted: set<Id>, pending: set<(Id, Id)>)
    requires Stage(s, unlisted, pending) && p in s.messages && NoDup(extra)
    requires forall c | c in extra :: c !in s.messages[p].Children() && (c in s.messages ==> HasParent(s.messages, c, p))
    ensures Stage(
              Upserted(s, p, ChildrenPatch(s.messages[p].Children() + extra), now),
              unlisted - Elements(extra),
              pending + Pairs(p, Drop(extra, s.messages.Keys)))
  {
    var kids := s.messages[p].Children() + extra;
    AppendLinks(s, p, extra, now, unlisted, pending);
    AppendKeepsAcyclic(s, p, kids, now);
    UpsertedKeyed(s, p, ChildrenPatch(kids), now);
    UpsertedWellFormed(s, p, ChildrenPatch(kids), now);
  }

  /** A message nobody refers to stays so while other messages are stored or gain children. */
  lemma StaysFresh(s: HistoryState, x: Id, patch: Message, now: int, y: Id)
    requires Fresh(s.messages, y) && y != x
    requires (if x in s.messages then patch.parentId == Absent else ParentFor(s.messages, s.keys, x, patch) != Some(y))
    ensures Fresh(Upserted(s, x, patch, now).messages, y)
  {
    forall c
      ensures !HasParent(Upserted(s, x, patch, now).messages, c, y)
    {
      assert !HasParent(s.messages, c, y);
    }
  }
}
