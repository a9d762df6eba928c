/** Old-style access control and flat grants: conversion both ways, and normalising submitted grants. */
module AccessGrants {
  import opened Common

  const USER := "user"
  const GROUP := "group"
  const ANYONE := "anyone"
  const WILDCARD := "*"

  datatype Grant = Grant(principalType: string, principalId: string, permission: string)

  /** The lists of one permission; a missing or empty dictionary is two empty lists. */
  datatype Lists = Lists(groupIds: seq<string>, userIds: seq<string>)

  /** `Null` means public, `Empty` the empty dictionary. */
  datatype AccessControl = Null | Empty | Structured(read: Lists, write: Lists)

  const PUBLIC_READ := Grant(USER, WILDCARD, "read")

  // ---------------------------------------------------------------------------------------
  // Conversions
  // ---------------------------------------------------------------------------------------

  function ListGrants(ids: seq<string>, principalType: string, permission: string): seq<Grant> {
    seq(|ids|, i requires 0 <= i < |ids| => Grant(principalType, ids[i], permission))
  }

  function PermissionGrants(l: Lists, permission: string): seq<Grant> {
    ListGrants(l.groupIds, GROUP, permission) + ListGrants(l.userIds, USER, permission)
  }

  /** The grants of a resource; files without access control are private. */
  function ToGrants(resourceType: string, ac: AccessControl): seq<Grant> {
    match ac
    case Null => if resourceType != "file" then [PUBLIC_READ] else []
    case Empty => []
    case Structured(read, write) => PermissionGrants(read, "read") + PermissionGrants(write, "write")
  }

  method AccessControlToGrants(resourceType: string, ac: AccessControl) returns (grants: seq<Grant>)
    ensures grants == ToGrants(resourceType, ac)
  {
    grants := [];
    match ac
    case Null =>
      if resourceType != "file" {
        grants := [PUBLIC_READ];
      }
    case Empty =>
    case Structured(read, write) =>
      grants := AppendPermission(grants, read, "read");
      grants := AppendPermission(grants, write, "write");
      assert [] + PermissionGrants(read, "read") == PermissionGrants(read, "read");
  }

  method AppendPermission(grants: seq<Grant>, l: Lists, permission: string) returns (r: seq<Grant>)
    ensures r == grants + PermissionGrants(l, permission)
  {
    r := grants;
    for n := 0 to |l.groupIds|
      invariant r == grants + ListGrants(l.groupIds, GROUP, permission)[..n]
    {
      r := r + [Grant(GROUP, l.groupIds[n], permission)];
    }
    var groups := r;
    for n := 0 to |l.userIds|
      invariant r == groups + ListGrants(l.userIds, USER, permission)[..n]
    {
      r := r + [Grant(USER, l.userIds[n], permission)];
    }
  }

  function AddNew(ids: seq<string>, x: string): seq<string> {
    if x in ids then ids else ids + [x]
  }

  /** One grant of the way back; the wildcard read goes into no list. */
  function Collected(ac: AccessControl, g: Grant): AccessControl
    requires ac.Structured?
    ensures Collected(ac, g).Structured?
  {
    if g == PUBLIC_READ || g.permission !in ["read", "write"] then ac
    else
      var l := if g.permission == "read" then ac.read else ac.write;
      var l' := if g.principalType == GROUP then l.(groupIds := AddNew(l.groupIds, g.principalId))
                else if g.principalType == USER then l.(userIds := AddNew(l.userIds, g.principalId))
                else l;
      if g.permission == "read" then ac.(read := l') else ac.(write := l')
  }

  function CollectedAll(grants: seq<Grant>): (ac: AccessControl)
    ensures ac.Structured?
  {
    if grants == [] then Structured(Lists([], []), Lists([], []))
    else Collected(CollectedAll(grants[..|grants| - 1]), grants[|grants| - 1])
  }

  function FromGrants(grants: seq<Grant>): AccessControl {
    if grants == [] then Empty else if PUBLIC_READ in grants then Null else CollectedAll(grants)
  }

  method GrantsToAccessControl(grants: seq<Grant>) returns (ac: AccessControl)
    ensures ac == FromGrants(grants)
  {
    if grants == [] {
      return Empty;
    }
    var isPublic := false;
    var result: AccessControl := Structured(Lists([], []), Lists([], []));
    for n := 0 to |grants|
      invariant result == CollectedAll(grants[..n])
      invariant isPublic == (PUBLIC_READ in grants[..n])
    {
      var g := grants[n];
      assert grants[..n + 1] == grants[..n] + [g];
      if g.principalType == USER && g.principalId == WILDCARD && g.permission == "read" {
        isPublic := true;
        continue;
      }
      if g.permission !in ["read", "write"] {
        continue;
      }
      result := Collected(result, g);
    }
    assert grants[..|grants|] == grants;
    ac := if isPublic then Null else result;
  }

  // ---------------------------------------------------------------------------------------
  // Round trips
  // ---------------------------------------------------------------------------------------

  /** A grant that the old format can express. */
  predicate Expressible(g: Grant) {
    g.principalType in [USER, GROUP] && g.permission in ["read", "write"]
  }

  predicate Listed(ac: AccessControl, g: Grant)
    requires ac.Structured?
  {
    var l := if g.permission == "read" then ac.read else ac.write;
    Expressible(g) && g.principalId in if g.principalType == GROUP then l.groupIds else l.userIds
  }

  lemma StructuredGrants(resourceType: string, ac: AccessControl, g: Grant)
    requires ac.Structured?
    ensures g in ToGrants(resourceType, ac) <==> Listed(ac, g)
  {
    ListMember(ac.read.groupIds, GROUP, "read", g);
    ListMember(ac.read.userIds, USER, "read", g);
    ListMember(ac.write.groupIds, GROUP, "write", g);
    ListMember(ac.write.userIds, USER, "write", g);
  }

  lemma ListMember(ids: seq<string>, principalType: string, permission: string, g: Grant)
    ensures g in ListGrants(ids, principalType, permission) <==>
              g.principalType == principalType && g.permission == permission && g.principalId in ids
  {
    if g.principalType == principalType && g.permission == permission && g.principalId in ids {
      var i :| 0 <= i < |ids| && ids[i] == g.principalId;
      assert ListGrants(ids, principalType, permission)[i] == g;
    }
  }

  lemma {:induction false} CollectedListed(grants: seq<Grant>, g: Grant)
    ensures Listed(CollectedAll(grants), g) <==> g in grants && Expressible(g) && g != PUBLIC_READ
  {
    if grants != [] {
      var n := |grants| - 1;
      assert grants == grants[..n] + [grants[n]];
      CollectedListed(grants[..n], g);
    }
  }

  /** What survives the way back to the old format and forth: the public-read grant alone when it is
      there, otherwise every grant the format can express. */
  ghost function Surviving(resourceType: string, grants: seq<Grant>): set<Grant> {
    if PUBLIC_READ in grants then (if resourceType != "file" then {PUBLIC_READ} else {})
    else set g | g in grants && Expressible(g)
  }

  lemma BackAndForth(resourceType: string, grants: seq<Grant>)
    ensures Elements(ToGrants(resourceType, FromGrants(grants))) == Surviving(resourceType, grants)
  {
    var ac := FromGrants(grants);
    if ac.Structured? {
      forall g
        ensures g in ToGrants(resourceType, ac) <==> g in grants && Expressible(g)
      {
        StructuredGrants(resourceType, ac, g);
        CollectedListed(grants, g);
      }
    }
  }

  /** Going back and forth keeps the set of grants exactly when every grant can be expressed and the
      public-read grant, if present, is the only one and the resource is no file. */
  lemma BackAndForthKeepsExactly(resourceType: string, grants: seq<Grant>)
    ensures Elements(ToGrants(resourceType, FromGrants(grants))) == Elements(grants) <==>
              && (forall g | g in grants :: Expressible(g))
              && (PUBLIC_READ in grants ==> resourceType != "file" && forall g | g in grants :: g == PUBLIC_READ)
  {
    BackAndForth(resourceType, grants);
    if Surviving(resourceType, grants) == Elements(grants) {
      forall g | g in grants
        ensures Expressible(g) && (PUBLIC_READ in grants ==> resourceType != "file" && g == PUBLIC_READ)
      {
        assert g in Elements(grants);
      }
    }
  }

  /** Converting access control to grants, back, and to grants again gives the same grants when they
      contain no public read, and just the public-read grant otherwise (none for a file). */
  lemma ThereBackAndThere(resourceType: string, ac: AccessControl)
    ensures var grants := ToGrants(resourceType, ac);
            Elements(ToGrants(resourceType, FromGrants(grants))) ==
            if PUBLIC_READ !in grants then Elements(grants) else if resourceType != "file" then {PUBLIC_READ} else {}
  {
    var grants := ToGrants(resourceType, ac);
    BackAndForth(resourceType, grants);
    forall g | g in grants
      ensures Expressible(g)
    {
      if ac.Structured? {
        StructuredGrants(resourceType, ac, g);
      }
    }
  }

  // ---------------------------------------------------------------------------------------
  // Normalising submitted grants
  // ---------------------------------------------------------------------------------------

  /** A submitted item: not a dictionary, or one whose id may be missing or empty. */
  datatype Raw = NotADict | Raw(id: string, principalType: string, principalId: string, permission: string)

  datatype Stored = Stored(id: string, grant: Grant)

  predicate Acceptable(r: Raw) {
    && r.Raw?
    && r.principalType in [USER, GROUP, ANYONE]
    && r.permission in ["read", "write"]
    && r.principalId != ""
    && (r.principalType == ANYONE ==> r.principalId == WILDCARD && r.permission == "read")
  }

  function AsStored(r: Raw, newId: string): Stored
    requires r.Raw?
  {
    Stored(if r.id != "" then r.id else newId, Grant(r.principalType, r.principalId, r.permission))
  }

  /** Stores a value under a key: an existing key keeps its place. */
  function Put(out: seq<Stored>, s: Stored): seq<Stored> {
    if out == [] then [s]
    else if out[0].grant == s.grant then [s] + out[1..]
    else [out[0]] + Put(out[1..], s)
  }

  /** The first `n` items normalised; `uuid(i)` is the id generated for item `i`. */
  function NormalizedUpTo(raws: seq<Raw>, uuid: nat -> string, n: nat): seq<Stored>
    requires n <= |raws|
  {
    if n == 0 then []
    else if Acceptable(raws[n - 1]) then Put(NormalizedUpTo(raws, uuid, n - 1), AsStored(raws[n - 1], uuid(n - 1)))
    else NormalizedUpTo(raws, uuid, n - 1)
  }

  function Normalized(raws: seq<Raw>, uuid: nat -> string): seq<Stored> {
    NormalizedUpTo(raws, uuid, |raws|)
  }

  method NormalizeAccessGrants(raws: seq<Raw>, uuid: nat -> string) returns (out: seq<Stored>)
    ensures out == Normalized(raws, uuid)
  {
    out := [];
    for n := 0 to |raws|
      invariant out == NormalizedUpTo(raws, uuid, n)
    {
      if !Acceptable(raws[n]) {
        continue;
      }
      out := Put(out, AsStored(raws[n], uuid(n)));
    }
  }

  ghost predicate DistinctGrants(out: seq<Stored>) {
    forall i, j | 0 <= i < j < |out| :: out[i].grant != out[j].grant
  }

  lemma {:induction false} PutEffect(out: seq<Stored>, s: Stored)
    requires DistinctGrants(out)
    ensures DistinctGrants(Put(out, s))
    ensures forall x :: x in Put(out, s) <==> x == s || (x in out && x.grant != s.grant)
  {
    if out != [] {
      var rest := out[1..];
      assert forall i | 0 <= i < |rest| :: rest[i] == out[i + 1];
      assert out == [out[0]] + rest;
      PutEffect(rest, s);
      var r := Put(rest, s);
      if out[0].grant != s.grant {
        forall i | 0 <= i < |r|
          ensures r[i].grant != out[0].grant
        {
          assert r[i] in r;
        }
      }
    }
  }

  lemma {:induction false} NormalizedDistinct(raws: seq<Raw>, uuid: nat -> string, n: nat)
    requires n <= |raws|
    ensures DistinctGrants(NormalizedUpTo(raws, uuid, n))
    ensures forall x | x in NormalizedUpTo(raws, uuid, n) ::
              exists i | 0 <= i < n :: Acceptable(raws[i]) && x == AsStored(raws[i], uuid(i))
  {
    if n > 0 {
      NormalizedDistinct(raws, uuid, n - 1);
      if Acceptable(raws[n - 1]) {
        PutEffect(NormalizedUpTo(raws, uuid, n - 1), AsStored(raws[n - 1], uuid(n - 1)));
      }
    }
  }

  /** The output holds, once each, the grants of the acceptable items, with the id of the last item
      that submitted the grant. */
  lemma {:induction false} NormalizedContents(raws: seq<Raw>, uuid: nat -> string, n: nat, x: Stored)
    requires n <= |raws|
    ensures x in NormalizedUpTo(raws, uuid, n) <==>
              exists i | 0 <= i < n :: LastSubmission(raws, n, i) && x == AsStored(raws[i], uuid(i))
  {
    if n > 0 {
      NormalizedDistinct(raws, uuid, n - 1);
      NormalizedContents(raws, uuid, n - 1, x);
      var last := raws[n - 1];
      if Acceptable(last) {
        PutEffect(NormalizedUpTo(raws, uuid, n - 1), AsStored(last, uuid(n - 1)));
        assert LastSubmission(raws, n, n - 1);
      }
      forall i | 0 <= i < n - 1
        ensures LastSubmission(raws, n, i) <==>
                  LastSubmission(raws, n - 1, i) && !(Acceptable(last) && AsStored(last, "").grant == AsStored(raws[i], "").grant)
      {
      }
    }
  }

  /** Item `i` is acceptable and no later acceptable one names the same grant. */
  ghost predicate LastSubmission(raws: seq<Raw>, n: nat, i: int)
    requires n <= |raws|
  {
    && 0 <= i < n && Acceptable(raws[i])
    && forall j | i < j < n && Acceptable(raws[j]) :: AsStored(raws[j], "").grant != AsStored(raws[i], "").grant
  }

  function Resubmitted(out: seq<Stored>): seq<Raw> {
    seq(|out|, i requires 0 <= i < |out| => Raw(out[i].id, out[i].grant.principalType, out[i].grant.principalId, out[i].grant.permission))
  }

  lemma {:induction false} PutNew(out: seq<Stored>, s: Stored)
    requires forall x | x in out :: x.grant != s.grant
    ensures Put(out, s) == out + [s]
  {
    if out != [] {
      PutNew(out[1..], s);
      assert out == [out[0]] + out[1..];
    }
  }

  lemma {:induction false} ResubmittedUpTo(out: seq<Stored>, uuid: nat -> string, n: nat)
    requires n <= |out| && DistinctGrants(out)
    requires forall x | x in out :: x.id != "" && Acceptable(Raw(x.id, x.grant.principalType, x.grant.principalId, x.grant.permission))
    ensures NormalizedUpTo(Resubmitted(out), uuid, n) == out[..n]
  {
    if n > 0 {
      ResubmittedUpTo(out, uuid, n - 1);
      assert out[n - 1] in out;
      assert AsStored(Resubmitted(out)[n - 1], uuid(n - 1)) == out[n - 1];
      PutNew(out[..n - 1], out[n - 1]);
      assert out[..n] == out[..n - 1] + [out[n - 1]];
    }
  }

  /** Normalising what was normalised changes nothing, and no two results share the table's unique key. */
  lemma NormalizeIsIdempotent(raws: seq<Raw>, uuid: nat -> string, uuidAgain: nat -> string)
    requires forall i :: uuid(i) != ""
    ensures Normalized(Resubmitted(Normalized(raws, uuid)), uuidAgain) == Normalized(raws, uuid)
    ensures DistinctGrants(Normalized(raws, uuid))
  {
    var out := Normalized(raws, uuid);
    NormalizedDistinct(raws, uuid, |raws|);
    forall x | x in out
      ensures x.id != "" && Acceptable(Raw(x.id, x.grant.principalType, x.grant.principalId, x.grant.permission))
    {
      var i :| 0 <= i < |raws| && Acceptable(raws[i]) && x == AsStored(raws[i], uuid(i));
    }
    ResubmittedUpTo(out, uuidAgain, |out|);
    assert out[..|out|] == out;
  }
}
