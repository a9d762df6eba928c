/** Which submitted grants are accepted, under which id and in which order; and which access controls
    survive as grants. */
module GrantEffect {
  import opened Common
  import opened AccessGrants

  // ---------------------------------------------------------------------------------------
  // Normalising
  // ---------------------------------------------------------------------------------------

  /** A grant a form may submit: to a named user or group, or the public read. */
  ghost predicate ValidGrant(g: Grant) {
    && g.permission in {"read", "write"}
    && g.principalId != ""
    && (g.principalType == "user" || g.principalType == "group" || g == Grant("anyone", "*", "read"))
  }

  /** The item submits the grant. */
  ghost predicate Submits(r: Raw, g: Grant) {
    r.Raw? && r.principalType == g.principalType && r.principalId == g.principalId && r.permission == g.permission
  }

  lemma AcceptableExactly(r: Raw)
    ensures Acceptable(r) <==> exists g :: Submits(r, g) && ValidGrant(g)
    ensures r.Raw? ==> Submits(r, AsStored(r, "").grant)
  {
    if Acceptable(r) {
      assert Submits(r, Grant(r.principalType, r.principalId, r.permission));
    }
  }

  lemma AcceptableSubmits(r: Raw, g: Grant)
    requires ValidGrant(g)
    ensures Submits(r, g) <==> Acceptable(r) && AsStored(r, "").grant == g
  {
    AcceptableExactly(r);
  }

  /** The last item that submits the grant is number `i`. */
  ghost predicate LastSubmits(raws: seq<Raw>, g: Grant, i: int) {
    0 <= i < |raws| && Submits(raws[i], g) && forall j | i < j < |raws| :: !Submits(raws[j], g)
  }

  /** The result holds exactly the valid grants that some item submits, each under the id given by
      the last such item, or a generated one when that item gives none. */
  lemma NormalizedExactly(raws: seq<Raw>, uuid: nat -> string, x: Stored)
    ensures x in Normalized(raws, uuid) <==>
              && ValidGrant(x.grant)
              && exists i: nat :: LastSubmits(raws, x.grant, i) && x.id == if raws[i].id != "" then raws[i].id else uuid(i)
  {
    NormalizedContents(raws, uuid, |raws|, x);
    if x in Normalized(raws, uuid) {
      var i :| 0 <= i < |raws| && LastSubmission(raws, |raws|, i) && x == AsStored(raws[i], uuid(i));
      AcceptableExactly(raws[i]);
      LastIsLast(raws, i);
    }
    if ValidGrant(x.grant) {
      if i: nat :| LastSubmits(raws, x.grant, i) && x.id == if raws[i].id != "" then raws[i].id else uuid(i) {
        AcceptableSubmits(raws[i], x.grant);
        LastIsLast(raws, i);
        assert x == AsStored(raws[i], uuid(i));
      }
    }
  }

  lemma LastIsLast(raws: seq<Raw>, i: nat)
    requires i < |raws| && Acceptable(raws[i])
    ensures LastSubmission(raws, |raws|, i) <==> LastSubmits(raws, AsStored(raws[i], "").grant, i)
    ensures ValidGrant(AsStored(raws[i], "").grant)
  {
    var g := AsStored(raws[i], "").grant;
    AcceptableExactly(raws[i]);
    forall j | 0 <= j < |raws|
      ensures Submits(raws[j], g) <==> Acceptable(raws[j]) && AsStored(raws[j], "").grant == g
    {
      AcceptableSubmits(raws[j], g);
    }
  }

  /** Every valid grant that is submitted is in the result. */
  lemma SubmittedIsKept(raws: seq<Raw>, uuid: nat -> string, i: nat, g: Grant)
    requires i < |raws| && Submits(raws[i], g) && ValidGrant(g)
    ensures exists x :: x in Normalized(raws, uuid) && x.grant == g
  {
    var last := LastOf(raws, g, i);
    var x := Stored(if raws[last].id != "" then raws[last].id else uuid(last), g);
    NormalizedExactly(raws, uuid, x);
    assert x in Normalized(raws, uuid);
  }

  lemma {:induction false} LastOf(raws: seq<Raw>, g: Grant, i: nat) returns (last: nat)
    requires i < |raws| && Submits(raws[i], g)
    ensures LastSubmits(raws, g, last)
    decreases |raws| - i
  {
    if j :| i < j < |raws| && Submits(raws[j], g) {
      last := LastOf(raws, g, j);
    } else {
      last := i;
    }
  }

  /** The result is in the order in which its grants were first submitted: an item that repeats a
      grant does not move it. */
  lemma {:induction false} FirstSubmissionOrder(raws: seq<Raw>, uuid: nat -> string, n: nat, a: nat, b: nat)
    requires n <= |raws| && a < b < |NormalizedUpTo(raws, uuid, n)|
    ensures exists i :: 0 <= i < n && Submits(raws[i], NormalizedUpTo(raws, uuid, n)[a].grant)
              && forall j | 0 <= j <= i :: !Submits(raws[j], NormalizedUpTo(raws, uuid, n)[b].grant)
  {
    var out := NormalizedUpTo(raws, uuid, n);
    var before := NormalizedUpTo(raws, uuid, n - 1);
    if Acceptable(raws[n - 1]) {
      var s := AsStored(raws[n - 1], uuid(n - 1));
      PutPlaces(before, s);
      if b < |before| {
        FirstSubmissionOrder(raws, uuid, n - 1, a, b);
      } else {
        EarlierSubmitted(raws, uuid, n - 1, a);
        NotYetSubmitted(raws, uuid, n - 1, s.grant);
      }
    } else {
      FirstSubmissionOrder(raws, uuid, n - 1, a, b);
    }
  }

  /** Putting a grant keeps every place, and adds one at the end for a new grant. */
  lemma {:induction false} PutPlaces(out: seq<Stored>, s: Stored)
    ensures |Put(out, s)| == if exists x :: x in out && x.grant == s.grant then |out| else |out| + 1
    ensures forall k | 0 <= k < |out| :: Put(out, s)[k].grant == out[k].grant
    ensures |Put(out, s)| > |out| ==> Put(out, s)[|out|] == s
  {
    if out != [] {
      if out[0].grant == s.grant {
        assert out[0] in out;
      } else {
        PutPlaces(out[1..], s);
        assert forall x :: x in out <==> x == out[0] || x in out[1..];
      }
    }
  }

  lemma EarlierSubmitted(raws: seq<Raw>, uuid: nat -> string, n: nat, a: nat)
    requires n <= |raws| && a < |NormalizedUpTo(raws, uuid, n)|
    ensures exists i :: 0 <= i < n && Submits(raws[i], NormalizedUpTo(raws, uuid, n)[a].grant)
  {
    var x := NormalizedUpTo(raws, uuid, n)[a];
    assert x in NormalizedUpTo(raws, uuid, n);
    NormalizedDistinct(raws, uuid, n);
    var i :| 0 <= i < n && Acceptable(raws[i]) && x == AsStored(raws[i], uuid(i));
    assert Submits(raws[i], x.grant);
  }

  lemma {:induction false} NotYetSubmitted(raws: seq<Raw>, uuid: nat -> string, n: nat, g: Grant)
    requires n <= |raws| && ValidGrant(g)
    requires forall x | x in NormalizedUpTo(raws, uuid, n) :: x.grant != g
    ensures forall j | 0 <= j < n :: !Submits(raws[j], g)
  {
    var first := raws[..n];
    SameUpTo(raws, uuid, n, n);
    if j :| 0 <= j < n && Submits(raws[j], g) {
      assert first[j] == raws[j];
      SubmittedIsKept(first, uuid, j, g);
    }
  }

  lemma {:induction false} SameUpTo(raws: seq<Raw>, uuid: nat -> string, m: nat, n: nat)
    requires n <= m <= |raws|
    ensures NormalizedUpTo(raws[..m], uuid, n) == NormalizedUpTo(raws, uuid, n)
  {
    if n > 0 {
      SameUpTo(raws, uuid, m, n - 1);
    }
  }

  // ---------------------------------------------------------------------------------------
  // Access control as grants and back
  // ---------------------------------------------------------------------------------------

  /** The grants in their places: first those of the read lists, groups before users, then those of
      the write lists. */
  lemma GrantPlaces(resourceType: string, read: Lists, write: Lists)
    ensures var grants := ToGrants(resourceType, Structured(read, write));
            var a, b := |read.groupIds|, |read.groupIds| + |read.userIds|;
            var c, d := b + |write.groupIds|, b + |write.groupIds| + |write.userIds|;
            && |grants| == d
            && forall i | 0 <= i < d :: grants[i] ==
                 if i < a then Grant("group", read.groupIds[i], "read")
                 else if i < b then Grant("user", read.userIds[i - a], "read")
                 else if i < c then Grant("group", write.groupIds[i - b], "write")
                 else Grant("user", write.userIds[i - c], "write")
  {
    PermissionPlaces(read, "read");
    PermissionPlaces(write, "write");
    var first, second := PermissionGrants(read, "read"), PermissionGrants(write, "write");
    assert ToGrants(resourceType, Structured(read, write)) == first + second;
    assert forall i | 0 <= i < |second| :: (first + second)[|first| + i] == second[i];
  }

  lemma PermissionPlaces(l: Lists, permission: string)
    ensures var grants, a := PermissionGrants(l, permission), |l.groupIds|;
            && |grants| == a + |l.userIds|
            && forall i | 0 <= i < |grants| :: grants[i] ==
                 if i < a then Grant("group", l.groupIds[i], permission) else Grant("user", l.userIds[i - a], permission)
  {
  }

  /** The ids that the grants of one kind name, each at its first place. */
  ghost function FirstNamed(grants: seq<Grant>, principalType: string, permission: string): seq<string> {
    if grants == [] then []
    else
      var before, g := FirstNamed(grants[..|grants| - 1], principalType, permission), grants[|grants| - 1];
      if g.principalType == principalType && g.permission == permission && g.principalId !in before
      then before + [g.principalId] else before
  }

  /** Without a public read, each list of the old format has the ids of its grants at their first
      places. */
  lemma {:induction false} CollectedLists(grants: seq<Grant>)
    requires PUBLIC_READ !in grants
    ensures CollectedAll(grants) ==
            Structured(Lists(FirstNamed(grants, "group", "read"), FirstNamed(grants, "user", "read")),
                       Lists(FirstNamed(grants, "group", "write"), FirstNamed(grants, "user", "write")))
  {
    if grants != [] {
      var n := |grants| - 1;
      assert grants == grants[..n] + [grants[n]];
      CollectedLists(grants[..n]);
    }
  }

  lemma {:induction false} NamedConcat(grants: seq<Grant>, ids: seq<string>, t: string, p: string, principalType: string, permission: string)
    ensures FirstNamed(grants + ListGrants(ids, t, p), principalType, permission) ==
            if t == principalType && p == permission
            then AddAll(FirstNamed(grants, principalType, permission), ids) else FirstNamed(grants, principalType, permission)
    decreases |ids|
  {
    var all := grants + ListGrants(ids, t, p);
    if ids == [] {
      assert all == grants;
    } else {
      var n := |ids| - 1;
      NamedConcat(grants, ids[..n], t, p, principalType, permission);
      NamedSnoc(grants + ListGrants(ids[..n], t, p), Grant(t, ids[n], p), principalType, permission);
      assert all == (grants + ListGrants(ids[..n], t, p)) + [Grant(t, ids[n], p)];
    }
  }

  lemma NamedSnoc(grants: seq<Grant>, g: Grant, principalType: string, permission: string)
    ensures var before := FirstNamed(grants, principalType, permission);
            FirstNamed(grants + [g], principalType, permission) ==
            if g.principalType == principalType && g.permission == permission && g.principalId !in before
            then before + [g.principalId] else before
  {
    assert (grants + [g])[..|grants|] == grants;
  }

  ghost function AddAll(before: seq<string>, ids: seq<string>): seq<string> {
    if ids == [] then before
    else
      var so := AddAll(before, ids[..|ids| - 1]);
      if ids[|ids| - 1] in so then so else so + [ids[|ids| - 1]]
  }

  /** Adding ids to nothing gives them back exactly when none is repeated. */
  lemma {:induction false} AddAllExactly(ids: seq<string>)
    ensures |AddAll([], ids)| <= |ids|
    ensures AddAll([], ids) == ids <==> NoDup(ids)
  {
    if ids != [] {
      var n := |ids| - 1;
      assert ids == ids[..n] + [ids[n]];
      AddAllExactly(ids[..n]);
      if NoDup(ids) {
        assert NoDup(ids[..n]) && ids[n] !in ids[..n];
      }
      if AddAll([], ids) == ids {
        assert |AddAll([], ids[..n])| == n;
        assert AddAll([], ids)[..n] == ids[..n];
        NoDupSnoc(ids[..n], ids[n]);
      }
    }
  }

  lemma NamedBack(resourceType: string, read: Lists, write: Lists)
    ensures var grants := ToGrants(resourceType, Structured(read, write));
            && FirstNamed(grants, "group", "read") == AddAll([], read.groupIds)
            && FirstNamed(grants, "user", "read") == AddAll([], read.userIds)
            && FirstNamed(grants, "group", "write") == AddAll([], write.groupIds)
            && FirstNamed(grants, "user", "write") == AddAll([], write.userIds)
  {
    var g1 := ListGrants(read.groupIds, GROUP, "read");
    var g2 := g1 + ListGrants(read.userIds, USER, "read");
    var g3 := g2 + ListGrants(write.groupIds, GROUP, "write");
    var g4 := g3 + ListGrants(write.userIds, USER, "write");
    assert g4 == ToGrants(resourceType, Structured(read, write));
    forall t, p | (t == "group" || t == "user") && (p == "read" || p == "write")
      ensures FirstNamed(g4, t, p) ==
              AddAll([], if p == "read" then if t == "group" then read.groupIds else read.userIds
                         else if t == "group" then write.groupIds else write.userIds)
    {
      assert [] + g1 == g1;
      NamedConcat([], read.groupIds, GROUP, "read", t, p);
      NamedConcat(g1, read.userIds, USER, "read", t, p);
      NamedConcat(g2, write.groupIds, GROUP, "write", t, p);
      NamedConcat(g3, write.userIds, USER, "write", t, p);
    }
  }

  lemma PublicReadListed(resourceType: string, read: Lists, write: Lists)
    ensures PUBLIC_READ in ToGrants(resourceType, Structured(read, write)) <==> "*" in read.userIds
  {
    StructuredGrants(resourceType, Structured(read, write), PUBLIC_READ);
  }

  /** Access control comes back unchanged from its grants exactly when it is the public one of a
      resource that is no file, or the empty dictionary, or lists some principal, none twice in one
      list and no wildcard reader. */
  lemma AccessControlComesBackExactly(resourceType: string, ac: AccessControl)
    ensures FromGrants(ToGrants(resourceType, ac)) == ac <==>
              match ac
              case Null => resourceType != "file"
              case Empty => true
              case Structured(read, write) =>
                && read.groupIds + read.userIds + write.groupIds + write.userIds != []
                && NoDup(read.groupIds) && NoDup(read.userIds) && NoDup(write.groupIds) && NoDup(write.userIds)
                && "*" !in read.userIds
  {
    if ac.Structured? {
      var grants := ToGrants(resourceType, ac);
      GrantPlaces(resourceType, ac.read, ac.write);
      PublicReadListed(resourceType, ac.read, ac.write);
      NamedBack(resourceType, ac.read, ac.write);
      AddAllExactly(ac.read.groupIds);
      AddAllExactly(ac.read.userIds);
      AddAllExactly(ac.write.groupIds);
      AddAllExactly(ac.write.userIds);
      if PUBLIC_READ !in grants {
        CollectedLists(grants);
      }
    }
  }
}
