/** Channel membership rows, and finding the direct-message channel of a set of users by counting. */
module Channels {
  import opened Common

  type RowId = string
  type User = string
  type ChannelId = string

  datatype Member = Member(channel: ChannelId, user: User, active: bool)

  type Table = map<RowId, Member>

  function RowsOf(t: Table, ch: ChannelId): set<RowId> {
    set r | r in t && t[r].channel == ch
  }

  function MatchingRows(t: Table, ch: ChannelId, users: set<User>): set<RowId> {
    set r | r in t && t[r].channel == ch && t[r].user in users
  }

  function Members(t: Table, ch: ChannelId): set<User> {
    set r | r in t && t[r].channel == ch :: t[r].user
  }

  /** The two counting conditions of the lookup. A channel without rows forms no group. */
  predicate CountsMatch(t: Table, ch: ChannelId, users: set<User>) {
    && RowsOf(t, ch) != {}
    && |RowsOf(t, ch)| == |users|
    && |MatchingRows(t, ch, users)| == |users|
  }

  /** At most one row for each channel and user. */
  ghost predicate OneRowEach(t: Table) {
    forall r, q | r in t && q in t && t[r].channel == t[q].channel && t[r].user == t[q].user :: r == q
  }

  // ---------------------------------------------------------------------------------------
  // The lookup
  // ---------------------------------------------------------------------------------------

  /** With one row each, a channel has as many members as rows. */
  lemma {:induction false} RowsAreMembers(t: Table, rows: set<RowId>, ch: ChannelId)
    requires OneRowEach(t) && rows <= RowsOf(t, ch)
    ensures |set r | r in rows :: t[r].user| == |rows|
  {
    var users := set r | r in rows :: t[r].user;
    if rows == {} {
      assert users == {};
    } else {
      var q :| q in rows;
      RowsAreMembers(t, rows - {q}, ch);
      var others := set r | r in rows - {q} :: t[r].user;
      assert users == others + {t[q].user};
      assert t[q].user !in others;
    }
  }

  /** With one row each, the two counts match for a channel exactly when its members are the given
      users, provided there are any. */
  lemma CountsMatchExactly(t: Table, ch: ChannelId, users: set<User>)
    requires OneRowEach(t)
    ensures CountsMatch(t, ch, users) <==> Members(t, ch) == users && users != {}
  {
    var rows, matching := RowsOf(t, ch), MatchingRows(t, ch, users);
    RowsAreMembers(t, rows, ch);
    assert Members(t, ch) == set r | r in rows :: t[r].user;
    if CountsMatch(t, ch, users) {
      SubsetSize(matching, rows);
      assert Members(t, ch) <= users;
      SubsetSize(Members(t, ch), users);
    }
    if Members(t, ch) == users {
      assert matching == rows;
      if users != {} {
        var u :| u in users;
        var r :| r in t && t[r].channel == ch && t[r].user == u;
        assert r in rows;
      }
    }
  }

  /** Without that condition the counts mislead: a channel with two rows for one user passes for a
      channel of two users. */
  lemma DuplicateRowsMislead(ch: ChannelId)
    ensures var t := map["r" := Member(ch, "ann", true), "s" := Member(ch, "ann", true)];
            && !OneRowEach(t)
            && CountsMatch(t, ch, {"ann", "bob"})
            && Members(t, ch) != {"ann", "bob"}
  {
    var t := map["r" := Member(ch, "ann", true), "s" := Member(ch, "ann", true)];
    assert RowsOf(t, ch) == {"r", "s"} == MatchingRows(t, ch, {"ann", "bob"});
    assert "r" in t && "s" in t && "r" != "s";
    assert "bob" !in Members(t, ch);
  }

  /** The lookup's answer: some channel of type dm for which the counts match, or none if there is none. */
  ghost predicate Found(t: Table, dms: set<ChannelId>, users: set<User>, r: Option<ChannelId>) {
    match r
    case Some(ch) => ch in dms && CountsMatch(t, ch, users)
    case None => forall ch | ch in dms :: !CountsMatch(t, ch, users)
  }

  /** The lookup finds a direct-message channel with exactly the requested users, whenever there is one. */
  lemma LookupIsExact(t: Table, dms: set<ChannelId>, userIds: seq<User>, r: Option<ChannelId>)
    requires OneRowEach(t) && userIds != [] && Found(t, dms, Elements(userIds), r)
    ensures r.Some? ==> r.value in dms && Members(t, r.value) == Elements(userIds)
    ensures r.None? <==> forall ch | ch in dms :: Members(t, ch) != Elements(userIds)
  {
    assert userIds[0] in Elements(userIds);
    forall ch | ch in dms
      ensures CountsMatch(t, ch, Elements(userIds)) <==> Members(t, ch) == Elements(userIds)
    {
      CountsMatchExactly(t, ch, Elements(userIds));
    }
  }

  // ---------------------------------------------------------------------------------------
  // Membership operations
  // ---------------------------------------------------------------------------------------

  /** Unused row ids, one for each user. */
  ghost predicate FreshIds(t: Table, users: set<User>, ids: map<User, RowId>) {
    && users <= ids.Keys
    && (forall u | u in users :: ids[u] !in t)
    && (forall u, v | u in users && v in users && ids[u] == ids[v] :: u == v)
  }

  class MemberStore {
    var rows: Table

    constructor (rows: Table)
      ensures this.rows == rows
    {
      this.rows := rows;
    }

    /** Inserts one row for each of `users`. */
    method CreateMemberships(ch: ChannelId, users: set<User>, ids: map<User, RowId>)
      requires FreshIds(rows, users, ids)
      modifies this`rows
      ensures Inserted(old(rows), ch, users, ids, rows)
    {
      var rest := users;
      while rest != {}
        invariant rest <= users
        invariant Inserted(old(rows), ch, users - rest, ids, rows)
        decreases rest
      {
        var u :| u in rest;
        InsertOne(old(rows), ch, users - rest, ids, rows, u);
        rows := rows[ids[u] := Member(ch, u, true)];
        assert users - (rest - {u}) == (users - rest) + {u};
        rest := rest - {u};
      }
      assert users - rest == users;
    }

    /** Adds the requested users that are not members yet. */
    method AddMembers(ch: ChannelId, invitedBy: User, userIds: seq<User>, groupUsers: set<User>, ids: map<User, RowId>)
      requires OneRowEach(rows) && FreshIds(rows, Elements(userIds) + {invitedBy} + groupUsers, ids)
      modifies this`rows
      ensures OneRowEach(rows)
      ensures Members(rows, ch) == Members(old(rows), ch) + Elements(userIds) + {invitedBy} + groupUsers
      ensures forall d | d != ch :: Members(rows, d) == Members(old(rows), d)
      ensures forall r | r in old(rows) :: r in rows && rows[r] == old(rows)[r]
      ensures forall r | r in rows && r !in old(rows) :: rows[r].channel == ch && rows[r].active
    {
      var requested := Elements(userIds) + {invitedBy} + groupUsers;
      var newUsers := requested - Members(rows, ch);
      if newUsers == {} {
        NothingNew(requested, Members(rows, ch));
        assert Members(rows, ch) + Elements(userIds) + {invitedBy} + groupUsers == Members(rows, ch) + requested;
        return;
      }
      CreateMemberships(ch, newUsers, ids);
      InsertedMembers(old(rows), ch, newUsers, ids, rows);
    }

    /** A new direct-message or group channel gets its members at once. */
    method InsertNewChannel(ch: ChannelId, creator: User, userIds: seq<User>, groupUsers: set<User>, ids: map<User, RowId>)
      requires OneRowEach(rows) && RowsOf(rows, ch) == {} && FreshIds(rows, Elements(userIds) + {creator} + groupUsers, ids)
      modifies this`rows
      ensures OneRowEach(rows)
      ensures Members(rows, ch) == Elements(userIds) + {creator} + groupUsers
      ensures forall d | d != ch :: Members(rows, d) == Members(old(rows), d)
      ensures forall r | r in old(rows) :: r in rows && rows[r] == old(rows)[r]
      ensures forall r | r in rows && r !in old(rows) :: rows[r].channel == ch && rows[r].active
    {
      var users := Elements(userIds) + {creator} + groupUsers;
      NoMembers(rows, ch);
      CreateMemberships(ch, users, ids);
      InsertedMembers(old(rows), ch, users, ids, rows);
    }

    method RemoveMembers(ch: ChannelId, userIds: seq<User>) returns (count: nat)
      requires OneRowEach(rows)
      modifies this`rows
      ensures OneRowEach(rows)
      ensures Members(rows, ch) == Members(old(rows), ch) - Elements(userIds)
      ensures forall d | d != ch :: Members(rows, d) == Members(old(rows), d)
      ensures count == |old(rows)| - |rows|
      ensures forall r :: r in rows <==> r in old(rows) && !(old(rows)[r].channel == ch && old(rows)[r].user in userIds)
      ensures forall r | r in rows :: rows[r] == old(rows)[r]
    {
      var gone := MatchingRows(rows, ch, Elements(userIds));
      count := |gone|;
      rows := rows - gone;
      assert rows.Keys == old(rows).Keys - gone;
      assert |old(rows).Keys - gone| == |old(rows).Keys| - |gone|;
      RemovedMembers(old(rows), ch, Elements(userIds), rows);
    }

    /** Joining adds a row for a user who has none. A user who left still has one, which stays inactive. */
    method Join(ch: ChannelId, user: User, id: RowId)
      requires OneRowEach(rows) && id !in rows
      modifies this`rows
      ensures OneRowEach(rows)
      ensures Members(rows, ch) == Members(old(rows), ch) + {user}
      ensures forall d | d != ch :: Members(rows, d) == Members(old(rows), d)
      ensures rows == if user in Members(old(rows), ch) then old(rows) else old(rows)[id := Member(ch, user, true)]
    {
      if user in Members(rows, ch) {
        return;
      }
      rows := rows[id := Member(ch, user, true)];
      InsertedMembers(old(rows), ch, {user}, map[user := id], rows);
    }

    /** Leaving only marks the row: the user still counts as a member. */
    method Leave(ch: ChannelId, user: User) returns (left: bool)
      requires OneRowEach(rows)
      modifies this`rows
      ensures OneRowEach(rows)
      ensures left <==> user in Members(old(rows), ch)
      ensures forall d :: Members(rows, d) == Members(old(rows), d)
      ensures rows.Keys == old(rows).Keys
      ensures forall r | r in rows ::
                rows[r] == if old(rows)[r].channel == ch && old(rows)[r].user == user then Member(ch, user, false) else old(rows)[r]
    {
      if user !in Members(rows, ch) {
        return false;
      }
      var r :| r in rows && rows[r].channel == ch && rows[r].user == user;
      rows := rows[r := rows[r].(active := false)];
      SameMembers(old(rows), rows);
      return true;
    }
  }

  lemma NothingNew(a: set<User>, b: set<User>)
    requires a - b == {}
    ensures a <= b
  {
    forall x | x in a
      ensures x in b
    {
      assert x !in a - b;
    }
  }

  /** `t2` is `t` with one row for each of `users`. */
  ghost predicate Inserted(t: Table, ch: ChannelId, users: set<User>, ids: map<User, RowId>, t2: Table) {
    && users <= ids.Keys
    && (forall r :: r in t2 <==> r in t || exists u | u in users :: ids[u] == r)
    && (forall r | r in t :: r in t2 && t2[r] == t[r])
    && (forall u | u in users :: ids[u] !in t && ids[u] in t2 && t2[ids[u]] == Member(ch, u, true))
  }

  lemma InsertOne(t: Table, ch: ChannelId, users: set<User>, ids: map<User, RowId>, t2: Table, u: User)
    requires Inserted(t, ch, users, ids, t2) && u in ids && u !in users && ids[u] !in t
    requires forall v | v in users :: ids[v] != ids[u]
    ensures Inserted(t, ch, users + {u}, ids, t2[ids[u] := Member(ch, u, true)])
  {
  }

  lemma InsertedMembers(t: Table, ch: ChannelId, users: set<User>, ids: map<User, RowId>, t2: Table)
    requires OneRowEach(t) && Inserted(t, ch, users, ids, t2) && users !! Members(t, ch)
    ensures OneRowEach(t2)
    ensures Members(t2, ch) == Members(t, ch) + users
    ensures forall d | d != ch :: Members(t2, d) == Members(t, d)
  {
    forall r, q | r in t2 && q in t2 && t2[r].channel == t2[q].channel && t2[r].user == t2[q].user
      ensures r == q
    {
      assert r in t ==> t[r].user in Members(t, t[r].channel);
      assert q in t ==> t[q].user in Members(t, t[q].channel);
    }
    InsertedMembersOf(t, ch, users, ids, t2, ch);
    forall d | d != ch
      ensures Members(t2, d) == Members(t, d)
    {
      InsertedMembersOf(t, ch, users, ids, t2, d);
    }
  }

  lemma InsertedMembersOf(t: Table, ch: ChannelId, users: set<User>, ids: map<User, RowId>, t2: Table, d: ChannelId)
    requires Inserted(t, ch, users, ids, t2)
    ensures Members(t2, d) == if d == ch then Members(t, d) + users else Members(t, d)
  {
    forall u
      ensures u in Members(t2, d) <==> u in Members(t, d) || (d == ch && u in users)
    {
      if u in Members(t, d) {
        var r :| r in t && t[r].channel == d && t[r].user == u;
        assert r in t2;
      }
      if d == ch && u in users {
        assert ids[u] in t2;
      }
    }
  }

  lemma NoMembers(t: Table, ch: ChannelId)
    requires RowsOf(t, ch) == {}
    ensures Members(t, ch) == {}
  {
    forall r | r in t
      ensures t[r].channel != ch
    {
      assert r !in RowsOf(t, ch);
    }
  }

  lemma RemovedMembers(t: Table, ch: ChannelId, users: set<User>, t2: Table)
    requires t2 == t - MatchingRows(t, ch, users)
    ensures Members(t2, ch) == Members(t, ch) - users
    ensures forall d | d != ch :: Members(t2, d) == Members(t, d)
  {
    forall d
      ensures Members(t2, d) == if d == ch then Members(t, d) - users else Members(t, d)
    {
      forall u
        ensures u in Members(t2, d) <==> u in Members(t, d) && !(d == ch && u in users)
      {
        if u in Members(t, d) && !(d == ch && u in users) {
          var r :| r in t && t[r].channel == d && t[r].user == u;
          assert r in t2;
        }
      }
    }
  }

  lemma SameMembers(t: Table, t2: Table)
    requires t2.Keys == t.Keys && forall r | r in t :: t2[r].channel == t[r].channel && t2[r].user == t[r].user
    ensures forall d :: Members(t2, d) == Members(t, d)
  {
    forall d
      ensures Members(t2, d) == Members(t, d)
    {
      forall u
        ensures u in Members(t2, d) <==> u in Members(t, d)
      {
        if r :| r in t && t[r].channel == d && t[r].user == u {
          assert r in t2;
        }
      }
    }
  }
}
