/** Claiming due automations: who is claimed when, and that no scheduled slot is claimed twice. */
module Automations {
  import opened Common

  type Id = string

  datatype Automation = Automation(active: bool, next: Option<int>, last: Option<int>)

  type Table = map<Id, Automation>

  /** Active, and its next run is not after `now`; a missing next run is never due. */
  predicate Due(t: Table, x: Id, now: int) {
    x in t && t[x].active && t[x].next.Some? && t[x].next.value <= now
  }

  function DueSet(t: Table, now: int): set<Id> {
    set x | x in t && Due(t, x, now)
  }

  function NextOf(t: Table, x: Id): int {
    if x in t && t[x].next.Some? then t[x].next.value else 0
  }

  /** An answer to the claim query: due rows outside `locked`, earliest first, at most `limit`. Rows
      with the same next run come in any order. */
  ghost predicate Selection(t: Table, locked: set<Id>, now: int, limit: nat, sel: seq<Id>) {
    && NoDup(sel)
    && (forall x | x in sel :: Due(t, x, now) && x !in locked)
    && (forall i, j | 0 <= i < j < |sel| :: NextOf(t, sel[i]) <= NextOf(t, sel[j]))
    && |sel| <= limit
    && (forall x | Due(t, x, now) && x !in locked && x !in sel ::
          |sel| == limit && forall y | y in sel :: NextOf(t, y) <= NextOf(t, x))
  }

  /** What `next_run_ns` promises: no next run, or one after `now`. */
  ghost predicate Reschedules(next: map<Id, Option<int>>, sel: seq<Id>, now: int) {
    forall x | x in sel :: x in next && (next[x].Some? ==> next[x].value > now)
  }

  /** The claimed rows get a new next run. */
  function Claimed(t: Table, sel: set<Id>, now: int, next: map<Id, Option<int>>): Table
    requires sel <= next.Keys
  {
    map x | x in t :: if x in sel then t[x].(last := Some(now), next := next[x]) else t[x]
  }

  class AutomationStore {
    var rows: Table

    constructor (rows: Table)
      ensures this.rows == rows
    {
      this.rows := rows;
    }

    /** The claim: the rows the query selects get their last run and a new next run. */
    method ClaimDue(now: int, limit: nat, next: map<Id, Option<int>>) returns (claimed: seq<Id>)
      requires rows.Keys <= next.Keys
      modifies this`rows
      ensures Selection(old(rows), {}, now, limit, claimed)
      ensures Elements(claimed) <= next.Keys
      ensures rows == Claimed(old(rows), Elements(claimed), now, next)
      ensures forall x | x in claimed :: x in rows && rows[x] == Automation(true, next[x], Some(now))
      ensures rows.Keys == old(rows).Keys && forall x | x in rows && x !in claimed :: rows[x] == old(rows)[x]
    {
      claimed := SelectDue(rows, {}, now, limit);
      forall x | x in claimed
        ensures x in rows
      {
        assert Due(rows, x, now);
      }
      for n := 0 to |claimed|
        invariant rows.Keys == old(rows).Keys
        invariant forall x | x in rows ::
                    rows[x] == if x in claimed[..n] then old(rows)[x].(last := Some(now), next := next[x]) else old(rows)[x]
      {
        assert claimed[n] in claimed && claimed[..n + 1] == claimed[..n] + [claimed[n]];
        rows := rows[claimed[n] := rows[claimed[n]].(last := Some(now), next := next[claimed[n]])];
      }
      assert claimed[..|claimed|] == claimed;
    }
  }

  /** The earliest due rows up to the limit, skipping locked ones. */
  method SelectDue(t: Table, locked: set<Id>, now: int, limit: nat) returns (sel: seq<Id>)
    ensures Selection(t, locked, now, limit, sel)
  {
    sel := [];
    var rest := DueSet(t, now) - locked;
    while rest != {} && |sel| < limit
      invariant NoDup(sel) && |sel| <= limit
      invariant forall x | x in sel :: Due(t, x, now) && x !in locked && x !in rest
      invariant forall x | Due(t, x, now) && x !in locked :: x in sel || x in rest
      invariant forall x | x in rest :: Due(t, x, now) && x !in locked
      invariant forall i, j | 0 <= i < j < |sel| :: NextOf(t, sel[i]) <= NextOf(t, sel[j])
      invariant forall x, y | x in sel && y in rest :: NextOf(t, x) <= NextOf(t, y)
      decreases rest
    {
      var x := Earliest(t, rest);
      sel := sel + [x];
      rest := rest - {x};
    }
  }

  method Earliest(t: Table, xs: set<Id>) returns (x: Id)
    requires xs != {}
    ensures x in xs && forall y | y in xs :: NextOf(t, x) <= NextOf(t, y)
  {
    x :| x in xs;
    var rest := xs - {x};
    while rest != {}
      invariant x in xs && rest <= xs
      invariant forall y | y in xs - rest :: NextOf(t, x) <= NextOf(t, y)
      decreases rest
    {
      var y :| y in rest;
      if NextOf(t, y) < NextOf(t, x) {
        x := y;
      }
      rest := rest - {y};
    }
  }

  // ---------------------------------------------------------------------------------------
  // When a due automation is claimed
  // ---------------------------------------------------------------------------------------

  datatype Call = Call(now: int, sel: seq<Id>, next: map<Id, Option<int>>)

  ghost predicate Step(t: Table, limit: nat, c: Call, t': Table) {
    && Selection(t, {}, c.now, limit, c.sel)
    && Reschedules(c.next, c.sel, c.now)
    && Elements(c.sel) <= c.next.Keys
    && t' == Claimed(t, Elements(c.sel), c.now, c.next)
  }

  /** Successive claims with a clock that does not run backwards. */
  ghost predicate Run(states: seq<Table>, calls: seq<Call>, limit: nat) {
    && |states| == |calls| + 1
    && (forall i | 0 <= i < |calls| :: Step(states[i], limit, calls[i], states[i + 1]))
    && (forall i, j | 0 <= i <= j < |calls| :: calls[i].now <= calls[j].now)
  }

  /** The other active automations that run no later than `r`. */
  ghost function Rivals(t: Table, r: Id): set<Id> {
    set x | x in t && x != r && t[x].active && t[x].next.Some? && t[x].next.value <= NextOf(t, r)
  }

  /** Those that run strictly earlier. */
  ghost function Earlier(t: Table, r: Id): set<Id> {
    set x | x in t && x != r && t[x].active && t[x].next.Some? && t[x].next.value < NextOf(t, r)
  }

  /** While `r` waits, a call uses up as many rivals as it may claim. */
  lemma WaitingCostsRivals(t: Table, limit: nat, c: Call, t': Table, r: Id)
    requires Step(t, limit, c, t') && Due(t, r, c.now) && r !in c.sel
    ensures r in t' && t'[r] == t[r]
    ensures |Rivals(t', r)| + limit <= |Rivals(t, r)|
  {
    NoDupSize(c.sel);
    forall x | x in c.sel
      ensures x in Rivals(t, r) && x !in Rivals(t', r)
    {
      assert Due(t, x, c.now);
    }
    assert Rivals(t', r) <= Rivals(t, r) - Elements(c.sel);
    SubsetSize(Rivals(t', r), Rivals(t, r) - Elements(c.sel));
    SubsetSize(Elements(c.sel), Rivals(t, r));
    assert |Rivals(t, r) - Elements(c.sel)| == |Rivals(t, r)| - |Elements(c.sel)|;
  }

  lemma {:induction false} WaitedSoFar(states: seq<Table>, calls: seq<Call>, limit: nat, r: Id, n: nat)
    requires Run(states, calls, limit) && n <= |calls| && n > 0
    requires Due(states[0], r, calls[0].now)
    requires forall i | 0 <= i < n :: r !in calls[i].sel
    ensures r in states[n] && states[n][r] == states[0][r]
    ensures |Rivals(states[n], r)| + n * limit <= |Rivals(states[0], r)|
  {
    var c, t := calls[n - 1], states[n - 1];
    assert Step(t, limit, c, states[n - 1 + 1]);
    if n > 1 {
      WaitedSoFar(states, calls, limit, r, n - 1);
    }
    assert calls[0].now <= c.now;
    WaitingCostsRivals(t, limit, c, states[n], r);
    assert n * limit == (n - 1) * limit + limit;
  }

  /** A due automation with k rivals is claimed within k / limit + 1 calls. */
  lemma ClaimedInTime(states: seq<Table>, calls: seq<Call>, limit: nat, r: Id)
    requires Run(states, calls, limit) && limit > 0 && |calls| > |Rivals(states[0], r)| / limit
    requires Due(states[0], r, calls[0].now)
    ensures exists i | 0 <= i <= |Rivals(states[0], r)| / limit :: r in calls[i].sel
  {
    var k := |Rivals(states[0], r)|;
    assert (k / limit + 1) * limit == k / limit * limit + limit > k;
    if forall i | 0 <= i <= k / limit :: r !in calls[i].sel {
      WaitedSoFar(states, calls, limit, r, k / limit + 1);
    }
  }

  lemma MinusSize(a: set<Id>, b: set<Id>)
    ensures |a - b| + |b| >= |a|
  {
    assert a == (a - b) + (a * b);
    assert |a| == |a - b| + |a * b|;
    SubsetSize(a * b, b);
  }

  /** A call has no room for `r` while `limit` automations run strictly earlier. */
  lemma NoRoomYet(t: Table, limit: nat, c: Call, r: Id)
    requires Selection(t, {}, c.now, limit, c.sel) && Due(t, r, c.now) && |Earlier(t, r)| >= limit
    ensures r !in c.sel
  {
    if r in c.sel {
      var others := Elements(c.sel) - {r};
      forall x | x in Earlier(t, r)
        ensures x in others
      {
        assert Due(t, x, c.now);
      }
      SubsetSize(Earlier(t, r), others);
      NoDupSize(c.sel);
    }
  }

  /** While `r` waits, a call removes at most `limit` of the strictly earlier automations. */
  lemma EarlierLeft(t: Table, limit: nat, c: Call, t': Table, r: Id)
    requires Step(t, limit, c, t') && Due(t, r, c.now) && |Earlier(t, r)| >= limit
    ensures r !in c.sel && r in t' && t'[r] == t[r]
    ensures |Earlier(t', r)| + limit >= |Earlier(t, r)|
  {
    NoRoomYet(t, limit, c, r);
    NoDupSize(c.sel);
    assert Earlier(t, r) - Elements(c.sel) <= Earlier(t', r);
    SubsetSize(Earlier(t, r) - Elements(c.sel), Earlier(t', r));
    MinusSize(Earlier(t, r), Elements(c.sel));
  }

  /** And it is not claimed before the strictly earlier ones leave room: not within the first
      e / limit calls when e automations run strictly earlier. */
  lemma {:induction false} NotClaimedEarly(states: seq<Table>, calls: seq<Call>, limit: nat, r: Id, n: nat)
    requires Run(states, calls, limit) && n <= |calls| && n > 0
    requires Due(states[0], r, calls[0].now) && n * limit <= |Earlier(states[0], r)|
    ensures forall i | 0 <= i < n :: r !in calls[i].sel
    ensures r in states[n] && states[n][r] == states[0][r]
    ensures |Earlier(states[n], r)| + n * limit >= |Earlier(states[0], r)|
  {
    var c, t := calls[n - 1], states[n - 1];
    assert n * limit == (n - 1) * limit + limit;
    assert Step(t, limit, c, states[n - 1 + 1]);
    if n > 1 {
      NotClaimedEarly(states, calls, limit, r, n - 1);
    }
    assert calls[0].now <= c.now;
    EarlierLeft(t, limit, c, states[n], r);
  }

  // ---------------------------------------------------------------------------------------
  // When a claimed automation runs again
  // ---------------------------------------------------------------------------------------

  /** A claim gives each selected row the time of the claim as its last run and the answered next run,
      and leaves it active; it touches no other row. */
  lemma ClaimedRow(t: Table, limit: nat, c: Call, t': Table, x: Id)
    requires Step(t, limit, c, t')
    ensures x in t' <==> x in t
    ensures x in c.sel ==> x in c.next && x in t' && t'[x] == Automation(true, c.next[x], Some(c.now))
    ensures x in t && x !in c.sel ==> t'[x] == t[x]
  {
    assert x in c.sel ==> Due(t, x, c.now);
  }

  /** Until it is claimed again, a claimed automation is due exactly from its answered next run on,
      and never when there is none. */
  lemma {:induction false} DueFromNextRun(states: seq<Table>, calls: seq<Call>, limit: nat, r: Id, i: nat, j: nat)
    requires Run(states, calls, limit) && i < j <= |calls| && r in calls[i].sel
    requires forall k | i < k < j :: r !in calls[k].sel
    ensures r in calls[i].next && r in states[j]
    ensures states[j][r] == Automation(true, calls[i].next[r], Some(calls[i].now))
    ensures forall now :: Due(states[j], r, now) <==> calls[i].next[r].Some? && calls[i].next[r].value <= now
    decreases j
  {
    var c, t := calls[j - 1], states[j - 1];
    assert Step(t, limit, c, states[j - 1 + 1]);
    ClaimedRow(t, limit, c, states[j], r);
    if i < j - 1 {
      DueFromNextRun(states, calls, limit, r, i, j - 1);
    }
  }

  lemma NotDueNotClaimed(t: Table, limit: nat, c: Call, r: Id)
    requires Selection(t, {}, c.now, limit, c.sel) && !Due(t, r, c.now)
    ensures r !in c.sel
  {
  }

  /** Before its next run it is not claimed again. */
  lemma {:induction false} NotClaimedBefore(states: seq<Table>, calls: seq<Call>, limit: nat, r: Id, i: nat, j: nat)
    requires Run(states, calls, limit) && i < j <= |calls| && r in calls[i].sel
    requires r in calls[i].next
    requires calls[i].next[r].Some? ==> forall k | i < k < j :: calls[k].now < calls[i].next[r].value
    ensures forall k | i < k < j :: r !in calls[k].sel
    decreases j
  {
    if i < j - 1 {
      NotClaimedBefore(states, calls, limit, r, i, j - 1);
      DueFromNextRun(states, calls, limit, r, i, j - 1);
      assert Step(states[j - 1], limit, calls[j - 1], states[j - 1 + 1]);
      NotDueNotClaimed(states[j - 1], limit, calls[j - 1], r);
    }
  }

  lemma RunSuffix(states: seq<Table>, calls: seq<Call>, limit: nat, j: nat)
    requires Run(states, calls, limit) && j <= |calls|
    ensures Run(states[j..], calls[j..], limit)
  {
    forall i | 0 <= i < |calls[j..]|
      ensures Step(states[j..][i], limit, calls[j..][i], states[j..][i + 1])
    {
      assert Step(states[j + i], limit, calls[j + i], states[j + i + 1]);
    }
  }

  /** A claimed automation is claimed again within the bound for its rivals, counted from the first
      call `j` at or after its next run, and not before that call. */
  lemma ClaimedAgain(states: seq<Table>, calls: seq<Call>, limit: nat, r: Id, i: nat, j: nat)
    requires Run(states, calls, limit) && limit > 0 && i < j < |calls| && r in calls[i].sel
    requires r in calls[i].next && calls[i].next[r].Some?
    requires forall k | i < k < j :: calls[k].now < calls[i].next[r].value
    requires calls[i].next[r].value <= calls[j].now
    requires |calls| - j > |Rivals(states[j], r)| / limit
    ensures forall k | i < k < j :: r !in calls[k].sel
    ensures exists k | j <= k <= j + |Rivals(states[j], r)| / limit :: r in calls[k].sel
  {
    NotClaimedBefore(states, calls, limit, r, i, j);
    DueFromNextRun(states, calls, limit, r, i, j);
    RunSuffix(states, calls, limit, j);
    ClaimedInTime(states[j..], calls[j..], limit, r);
    var k :| 0 <= k <= |Rivals(states[j], r)| / limit && r in calls[j..][k].sel;
    assert calls[j..][k] == calls[j + k];
  }

  // ---------------------------------------------------------------------------------------
  // Concurrent claimers
  // ---------------------------------------------------------------------------------------

  /** A claimer's transaction holds locks on the rows it selected until it commits. */
  datatype Claim = Claim(now: int, sel: seq<Id>)

  /** `log` records each claimed slot: the automation and the run it was due for. */
  datatype Shared = Shared(rows: Table, open: map<nat, Claim>, log: seq<(Id, int)>)

  function LockedBy(s: Shared): set<Id> {
    set c, x | c in s.open && x in s.open[c].sel :: x
  }

  function Slots(t: Table, sel: seq<Id>): (slots: seq<(Id, int)>)
    ensures |slots| == |sel| && forall i | 0 <= i < |sel| :: slots[i] == (sel[i], NextOf(t, sel[i]))
  {
    seq(|sel|, i requires 0 <= i < |sel| => (sel[i], NextOf(t, sel[i])))
  }

  /** A claimer selects and locks rows, skipping locked ones. */
  ghost predicate Begin(s: Shared, c: nat, now: int, limit: nat, sel: seq<Id>, s': Shared) {
    && c !in s.open
    && Selection(s.rows, LockedBy(s), now, limit, sel)
    && s' == s.(open := s.open[c := Claim(now, sel)])
  }

  /** A claimer reschedules its rows and commits. */
  ghost predicate Commit(s: Shared, c: nat, next: map<Id, Option<int>>, s': Shared) {
    && c in s.open
    && var claim := s.open[c];
    && Reschedules(next, claim.sel, claim.now)
    && Elements(claim.sel) <= next.Keys
    && s' == Shared(Claimed(s.rows, Elements(claim.sel), claim.now, next), s.open - {c}, s.log + Slots(s.rows, claim.sel))
  }

  ghost predicate SharedStep(s: Shared, s': Shared) {
    || (exists c, now, limit, sel :: Begin(s, c, now, limit, sel, s'))
    || (exists c, next :: Commit(s, c, next, s'))
  }

  /** Claimed slots lie before the automation's next run; open claims are due and disjoint. */
  ghost predicate SharedInv(s: Shared) {
    && NoDup(s.log)
    && (forall l | l in s.log :: l.0 in s.rows && (s.rows[l.0].next.Some? ==> l.1 < s.rows[l.0].next.value))
    && (forall c | c in s.open :: NoDup(s.open[c].sel) && forall x | x in s.open[c].sel :: Due(s.rows, x, s.open[c].now))
    && (forall c, d | c in s.open && d in s.open && c != d :: forall x | x in s.open[c].sel :: x !in s.open[d].sel)
  }

  lemma BeginKeepsInv(s: Shared, c: nat, now: int, limit: nat, sel: seq<Id>, s': Shared)
    requires SharedInv(s) && Begin(s, c, now, limit, sel, s')
    ensures SharedInv(s')
  {
    forall d, x | d in s.open && x in s.open[d].sel
      ensures x !in sel
    {
      assert x in LockedBy(s);
    }
  }

  lemma CommitLogs(s: Shared, c: nat)
    requires SharedInv(s) && c in s.open
    ensures NoDup(s.log + Slots(s.rows, s.open[c].sel))
  {
    var sel := s.open[c].sel;
    var slots := Slots(s.rows, sel);
    forall l | l in slots
      ensures l !in s.log
    {
      var i :| 0 <= i < |slots| && slots[i] == l;
      assert sel[i] in sel && Due(s.rows, sel[i], s.open[c].now);
    }
    NoDupConcat(s.log, slots);
  }

  lemma CommitKeepsInv(s: Shared, c: nat, next: map<Id, Option<int>>, s': Shared)
    requires SharedInv(s) && Commit(s, c, next, s')
    ensures SharedInv(s')
  {
    CommitLogs(s, c);
    var claim := s.open[c];
    forall l | l in s'.log
      ensures l.0 in s'.rows && (s'.rows[l.0].next.Some? ==> l.1 < s'.rows[l.0].next.value)
    {
      if l !in s.log {
        var slots := Slots(s.rows, claim.sel);
        var i :| 0 <= i < |slots| && slots[i] == l;
        assert claim.sel[i] in claim.sel;
      }
      if l.0 in claim.sel {
        assert Due(s.rows, l.0, claim.now);
      }
    }
  }

  /** However claimers interleave, no scheduled slot is claimed twice. */
  lemma {:induction false} NoSlotClaimedTwice(states: seq<Shared>, n: nat)
    requires n < |states| && forall i, j | 0 <= i < j < |states| && j == i + 1 :: SharedStep(states[i], states[j])
    requires states[0].open == map[] && states[0].log == []
    ensures SharedInv(states[n]) && NoDup(states[n].log)
  {
    if n > 0 {
      NoSlotClaimedTwice(states, n - 1);
      var s, s' := states[n - 1], states[n];
      assert SharedStep(s, s');
      if c, now, limit, sel :| Begin(s, c, now, limit, sel, s') {
        BeginKeepsInv(s, c, now, limit, sel, s');
      } else {
        var c, next :| Commit(s, c, next, s');
        CommitKeepsInv(s, c, next, s');
      }
    }
  }

  /** Among concurrent claimers too, a row changes only when the claimer that locked it commits; it then
      stays active, and its last run is that claimer's time. */
  lemma SharedRow(states: seq<Shared>, n: nat, x: Id)
    requires n + 1 < |states| && forall i, j | 0 <= i < j < |states| && j == i + 1 :: SharedStep(states[i], states[j])
    requires states[0].open == map[] && states[0].log == []
    ensures x in states[n + 1].rows <==> x in states[n].rows
    ensures x in states[n].rows ==>
              || states[n + 1].rows[x] == states[n].rows[x]
              || (exists c :: c in states[n].open && x in states[n].open[c].sel && states[n + 1].rows[x].active
                    && states[n + 1].rows[x].last == Some(states[n].open[c].now)
                    && (states[n + 1].rows[x].next.Some? ==> states[n + 1].rows[x].next.value > states[n].open[c].now))
  {
    NoSlotClaimedTwice(states, n);
    var s, s' := states[n], states[n + 1];
    assert SharedStep(s, s');
    if c, next :| Commit(s, c, next, s') {
      assert x in s.open[c].sel ==> Due(s.rows, x, s.open[c].now);
    }
  }
}
