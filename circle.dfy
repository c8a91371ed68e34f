/**
 * The circle: invites between users (pending, then accepted or declined)
 * and the undirected connections that accepting an invite creates.
 *
 * The store's `circle_invites` and `connections` tables are sequences of
 * records; every write takes its outcome as a parameter, and the id the
 * store gives an inserted row is a parameter too.
 */
module Circle {
  import opened Wrappers

  datatype InviteStatus = Pending | Accepted | Declined

  datatype Invite = Invite(id: string, fromUserId: string, toUserId: string, status: InviteStatus)

  /** A connection is stored once, with `userA` before `userB` in string order. */
  datatype Connection = Connection(id: string, userA: string, userB: string)

  // ---------------------------------------------------------------------
  // String order and the canonical pair
  // ---------------------------------------------------------------------

  /** JavaScript's `a < b` on strings: lexicographic, character by character. */
  predicate StrLess(a: string, b: string) {
    if b == [] then false
    else if a == [] then true
    else if a[0] != b[0] then a[0] < b[0]
    else StrLess(a[1..], b[1..])
  }

  lemma {:induction false} StrLessIrreflexive(a: string)
    ensures !StrLess(a, a)
  {
    if a != [] {
      StrLessIrreflexive(a[1..]);
    }
  }

  lemma {:induction false} StrLessAsymmetric(a: string, b: string)
    ensures !(StrLess(a, b) && StrLess(b, a))
  {
    if a != [] && b != [] && a[0] == b[0] {
      StrLessAsymmetric(a[1..], b[1..]);
    }
  }

  lemma {:induction false} StrLessTotal(a: string, b: string)
    ensures a == b || StrLess(a, b) || StrLess(b, a)
  {
    if a != [] && b != [] && a[0] == b[0] {
      StrLessTotal(a[1..], b[1..]);
      if a[1..] == b[1..] {
        assert a == [a[0]] + a[1..] && b == [b[0]] + b[1..];
      }
    }
  }

  /** The stored order of a connection's endpoints: the smaller string first. */
  function Canonical(fromUserId: string, toUserId: string): (r: (string, string))
    ensures {r.0, r.1} == {fromUserId, toUserId}
    ensures !StrLess(r.1, r.0)
  {
    StrLessAsymmetric(fromUserId, toUserId);
    if StrLess(fromUserId, toUserId) then (fromUserId, toUserId) else (toUserId, fromUserId)
  }

  /**
   * The stored pair does not depend on who invited whom: it holds the same
   * two users, the smaller one first.
   */
  lemma CanonicalIgnoresDirection(a: string, b: string)
    ensures Canonical(a, b) == Canonical(b, a)
    ensures var (x, y) := Canonical(a, b); {x, y} == {a, b} && !StrLess(y, x)
  {
    StrLessAsymmetric(a, b);
    StrLessTotal(a, b);
  }

  // ---------------------------------------------------------------------
  // Derived lists
  // ---------------------------------------------------------------------

  /** The connection joins `u` and `v`, in either column order. */
  predicate Links(c: Connection, u: string, v: string) {
    (c.userA == u && c.userB == v) || (c.userA == v && c.userB == u)
  }

  /** For each connection touching `u`, the endpoint that is not `u`'s column. */
  function OtherEndpoints(connections: seq<Connection>, u: string): (r: seq<string>)
    ensures forall v :: v in r <==> exists c :: c in connections && Links(c, u, v)
  {
    if connections == [] then []
    else
      var c := connections[0];
      var rest := OtherEndpoints(connections[1..], u);
      var r := if c.userA == u then [c.userB] + rest else if c.userB == u then [c.userA] + rest else rest;
      OtherEndpointsStep(connections, u, rest, r);
      r
  }

  lemma OtherEndpointsStep(connections: seq<Connection>, u: string, rest: seq<string>, r: seq<string>)
    requires connections != []
    requires forall v :: v in rest <==> exists c :: c in connections[1..] && Links(c, u, v)
    requires var c := connections[0];
      r == if c.userA == u then [c.userB] + rest else if c.userB == u then [c.userA] + rest else rest
    ensures forall v :: v in r <==> exists c :: c in connections && Links(c, u, v)
  {
    var c := connections[0];
    forall v ensures v in r <==> exists x :: x in connections && Links(x, u, v) {
      if v in r {
        if v in rest {
          var x :| x in connections[1..] && Links(x, u, v);
          assert x in connections;
        } else {
          assert c in connections && Links(c, u, v);
        }
      }
      if exists x :: x in connections && Links(x, u, v) {
        var x :| x in connections && Links(x, u, v);
        if x != c {
          assert x in connections[1..];
        }
      }
    }
  }

  /** Membership is symmetric: `v` is in `u`'s circle iff `u` is in `v`'s. */
  lemma MembershipSymmetric(connections: seq<Connection>, u: string, v: string)
    ensures v in OtherEndpoints(connections, u) <==> u in OtherEndpoints(connections, v)
  {
    if v in OtherEndpoints(connections, u) {
      var c :| c in connections && Links(c, u, v);
      assert Links(c, v, u);
    }
    if u in OtherEndpoints(connections, v) {
      var c :| c in connections && Links(c, v, u);
      assert Links(c, u, v);
    }
  }

  /** The member list: the profiles (in the store's order) of the other endpoints. */
  function MembersOf(profiles: seq<string>, connections: seq<Connection>, u: string): (r: seq<string>)
    ensures forall v :: v in r <==> v in profiles && v in OtherEndpoints(connections, u)
  {
    if profiles == [] then []
    else (if profiles[0] in OtherEndpoints(connections, u) then [profiles[0]] else [])
         + MembersOf(profiles[1..], connections, u)
  }

  /** Pending invites addressed to `u`. */
  function Received(invites: seq<Invite>, u: string): (r: seq<Invite>)
    ensures forall i :: i in r <==> i in invites && i.toUserId == u && i.status == Pending
  {
    if invites == [] then []
    else (if invites[0].toUserId == u && invites[0].status == Pending then [invites[0]] else [])
         + Received(invites[1..], u)
  }

  /** Pending invites sent by `u`. */
  function Sent(invites: seq<Invite>, u: string): (r: seq<Invite>)
    ensures forall i :: i in r <==> i in invites && i.fromUserId == u && i.status == Pending
  {
    if invites == [] then []
    else (if invites[0].fromUserId == u && invites[0].status == Pending then [invites[0]] else [])
         + Sent(invites[1..], u)
  }

  /** The invite was sent between `u` and `v`, in either direction. */
  predicate Between(i: Invite, u: string, v: string) {
    (i.fromUserId == u && i.toUserId == v) || (i.fromUserId == v && i.toUserId == u)
  }

  function PairInvites(invites: seq<Invite>, u: string, v: string): (r: seq<Invite>)
    ensures forall i :: i in r <==> i in invites && Between(i, u, v)
  {
    if invites == [] then []
    else (if Between(invites[0], u, v) then [invites[0]] else []) + PairInvites(invites[1..], u, v)
  }

  /** `.single()`: the row when exactly one matched; otherwise an error, read as no data. */
  function Single<T>(rows: seq<T>): (r: Option<T>)
    ensures r.Some? <==> |rows| == 1
    ensures r.Some? ==> r.value == rows[0]
  {
    if |rows| == 1 then Some(rows[0]) else None
  }

  /** `sendInvite`'s existing-invite check as written: it blocks only when exactly one invite joins the pair and it is pending. */
  predicate SingleInviteBlocks(invites: seq<Invite>, u: string, v: string): (r: bool)
    ensures r ==> PendingInviteBlocks(invites, u, v)
  {
    var existing := Single(PairInvites(invites, u, v));
    existing.Some? && existing.value.status == Pending
  }

  /** The check evidently intended: any pending invite between the pair blocks a new one. */
  predicate PendingInviteBlocks(invites: seq<Invite>, u: string, v: string) {
    exists i :: i in invites && Between(i, u, v) && i.status == Pending
  }

  /**
   * With one pending and one declined invite between the pair, the check
   * as written lets a second pending invite through.
   */
  lemma SingleCheckMissesPendingInvite(u: string, v: string)
    requires u != v
    ensures var invites := [Invite("1", u, v, Pending), Invite("2", v, u, Declined)];
      && !SingleInviteBlocks(invites, u, v)
      && PendingInviteBlocks(invites, u, v)
  {
    var invites := [Invite("1", u, v, Pending), Invite("2", v, u, Declined)];
    assert invites[1..] == [invites[1]] && invites[1..][1..] == [];
    assert PairInvites(invites[1..][1..], u, v) == [];
    assert PairInvites(invites[1..], u, v) == [invites[1]];
    assert PairInvites(invites, u, v) == invites;
    assert invites[0] in invites;
  }

  /** At most one pending invite joins any two users. */
  predicate OnePendingPerPair(invites: seq<Invite>) {
    forall i, j :: 0 <= i < j < |invites| && invites[i].status == Pending && invites[j].status == Pending
      ==> !Between(invites[j], invites[i].fromUserId, invites[i].toUserId)
  }

  /** Guarded by the intended check, appending a pending invite keeps one pending invite per pair. */
  lemma PendingCheckKeepsOnePerPair(invites: seq<Invite>, id: string, u: string, v: string)
    requires OnePendingPerPair(invites) && !PendingInviteBlocks(invites, u, v)
    ensures OnePendingPerPair(invites + [Invite(id, u, v, Pending)])
  {
    var s := invites + [Invite(id, u, v, Pending)];
    forall i, j | 0 <= i < j < |s| && s[i].status == Pending && s[j].status == Pending
      ensures !Between(s[j], s[i].fromUserId, s[i].toUserId)
    {
      if j == |invites| {
        assert s[i] in invites;
        assert !Between(s[i], u, v);
      }
    }
  }

  /** `update({ status }).eq('id', id)`. */
  function SetStatus(invites: seq<Invite>, id: string, status: InviteStatus): (r: seq<Invite>)
    ensures |r| == |invites|
    ensures forall k :: 0 <= k < |invites| ==>
      r[k] == if invites[k].id == id then invites[k].(status := status) else invites[k]
  {
    seq(|invites|, k requires 0 <= k < |invites| =>
      if invites[k].id == id then invites[k].(status := status) else invites[k])
  }

  function WithId(invites: seq<Invite>, id: string): (r: seq<Invite>)
    ensures forall i :: i in r <==> i in invites && i.id == id
  {
    if invites == [] then []
    else (if invites[0].id == id then [invites[0]] else []) + WithId(invites[1..], id)
  }

  /** The delete of `removeConnection`: both column orders. */
  function RemovePair(connections: seq<Connection>, u: string, m: string): (r: seq<Connection>)
    ensures forall c :: c in r <==> c in connections && !Links(c, u, m)
  {
    if connections == [] then []
    else (if Links(connections[0], u, m) then [] else [connections[0]]) + RemovePair(connections[1..], u, m)
  }

  /** After removal, `m` has left `u`'s circle and `u` has left `m`'s; every other member stays. */
  lemma RemovePairDropsExactlyThatMember(connections: seq<Connection>, u: string, m: string, v: string)
    ensures v in OtherEndpoints(RemovePair(connections, u, m), u) <==> v in OtherEndpoints(connections, u) && v != m
    ensures u !in OtherEndpoints(RemovePair(connections, u, m), m)
  {
    var r := RemovePair(connections, u, m);
    if v in OtherEndpoints(connections, u) && v != m {
      var c :| c in connections && Links(c, u, v);
      assert !Links(c, u, m);
      assert c in r;
    }
    assert forall c :: Links(c, m, u) ==> Links(c, u, m);
  }

  // ---------------------------------------------------------------------
  // The hook
  // ---------------------------------------------------------------------

  class CircleHook {
    /** The signed-in user, if any. */
    const userId: Option<string>
    /** The user ids that have a profile, in the store's order. */
    const profiles: seq<string>
    /** The store's `circle_invites` table. */
    var invites: seq<Invite>
    /** The store's `connections` table. */
    var connections: seq<Connection>
    /** The hook's state. */
    var members: seq<string>
    var pendingInvites: seq<Invite>
    var sentInvites: seq<Invite>

    /** The hook's lists as `fetchCircle` derives them from the store. */
    predicate Synced()
      reads this
    {
      if userId.None? then members == [] && pendingInvites == [] && sentInvites == []
      else
        && members == MembersOf(profiles, connections, userId.value)
        && pendingInvites == Received(invites, userId.value)
        && sentInvites == Sent(invites, userId.value)
    }

    constructor (userId: Option<string>, profiles: seq<string>, invites: seq<Invite>, connections: seq<Connection>)
      ensures this.userId == userId && this.profiles == profiles
      ensures this.invites == invites && this.connections == connections
      ensures Synced()
    {
      this.userId := userId;
      this.profiles := profiles;
      this.invites := invites;
      this.connections := connections;
      if userId.None? {
        members, pendingInvites, sentInvites := [], [], [];
      } else {
        members := MembersOf(profiles, connections, userId.value);
        pendingInvites := Received(invites, userId.value);
        sentInvites := Sent(invites, userId.value);
      }
    }

    /** `fetchCircle`: reload the three lists from the store. */
    method Refresh()
      modifies this
      ensures invites == old(invites) && connections == old(connections)
      ensures Synced()
    {
      if userId.None? {
        members, pendingInvites, sentInvites := [], [], [];
      } else {
        members := MembersOf(profiles, connections, userId.value);
        pendingInvites := Received(invites, userId.value);
        sentInvites := Sent(invites, userId.value);
      }
    }

    /**
     * `sendInvite`: refused with no user, for a target already among the
     * (locally held) members, or when the `.single()` check finds one
     * pending invite between the pair; otherwise one pending invite from
     * the user to the target is inserted. The check's own error is never
     * read: a failed lookup (`lookupOk` false) yields no data and blocks
     * nothing.
     */
    method SendInvite(toUserId: string, newId: string, lookupOk: bool, insertOk: bool) returns (sent: bool)
      modifies this
      ensures userId.None? || toUserId in old(members) ==> !sent
      ensures userId.Some? && lookupOk && SingleInviteBlocks(old(invites), userId.value, toUserId) ==> !sent
      ensures sent <==> userId.Some? && toUserId !in old(members)
                        && !(lookupOk && SingleInviteBlocks(old(invites), userId.value, toUserId)) && insertOk
      ensures sent ==> invites == old(invites) + [Invite(newId, userId.value, toUserId, Pending)] && Synced()
      ensures !sent ==> invites == old(invites) && members == old(members)
                        && pendingInvites == old(pendingInvites) && sentInvites == old(sentInvites)
      ensures connections == old(connections)
    {
      if userId.None? {
        return false;
      }
      if toUserId in members {
        return false;
      }
      var existing := if lookupOk then Single(PairInvites(invites, userId.value, toUserId)) else None;
      if existing.Some? && existing.value.status == Pending {
        return false;
      }
      if !insertOk {
        return false;
      }
      invites := invites + [Invite(newId, userId.value, toUserId, Pending)];
      Refresh();
      sent := true;
    }

    /**
     * `acceptInvite`: needs a user and exactly one invite with the id. The
     * invite is marked accepted, then one connection joining its two users
     * in canonical order is inserted. Nothing checks the invite's status
     * or that the user is its recipient.
     */
    method AcceptInvite(inviteId: string, updateOk: bool, newConnectionId: string, insertOk: bool) returns (accepted: bool)
      modifies this
      ensures var found := Single(WithId(old(invites), inviteId));
        accepted <==> userId.Some? && found.Some? && updateOk && insertOk
      ensures var found := Single(WithId(old(invites), inviteId));
        invites == if userId.Some? && found.Some? && updateOk then SetStatus(old(invites), inviteId, Accepted) else old(invites)
      ensures accepted ==>
        var invite := Single(WithId(old(invites), inviteId)).value;
        var (a, b) := Canonical(invite.fromUserId, invite.toUserId);
        connections == old(connections) + [Connection(newConnectionId, a, b)] && Synced()
      ensures !accepted ==> connections == old(connections) && members == old(members)
                            && pendingInvites == old(pendingInvites) && sentInvites == old(sentInvites)
    {
      if userId.None? {
        return false;
      }
      var found := Single(WithId(invites, inviteId));
      if found.None? {
        return false;
      }
      var invite := found.value;
      if !updateOk {
        return false;
      }
      invites := SetStatus(invites, inviteId, Accepted);
      var (a, b) := Canonical(invite.fromUserId, invite.toUserId);
      if !insertOk {
        return false;
      }
      connections := connections + [Connection(newConnectionId, a, b)];
      Refresh();
      accepted := true;
    }

    /** `declineInvite`: marks the invite declined; it needs no user and creates no connection. */
    method DeclineInvite(inviteId: string, updateOk: bool) returns (declined: bool)
      modifies this
      ensures declined == updateOk
      ensures invites == if updateOk then SetStatus(old(invites), inviteId, Declined) else old(invites)
      ensures connections == old(connections)
      ensures declined ==> Synced()
      ensures !declined ==> members == old(members) && pendingInvites == old(pendingInvites) && sentInvites == old(sentInvites)
    {
      if !updateOk {
        return false;
      }
      invites := SetStatus(invites, inviteId, Declined);
      Refresh();
      declined := true;
    }

    /** `removeConnection`: deletes the connections joining the user and the member, in either column order. */
    method RemoveConnection(memberId: string, deleteOk: bool) returns (removed: bool)
      modifies this
      ensures removed <==> userId.Some? && deleteOk
      ensures connections == if removed then RemovePair(old(connections), userId.value, memberId) else old(connections)
      ensures invites == old(invites)
      ensures removed ==> Synced() && memberId !in members
      ensures !removed ==> members == old(members) && pendingInvites == old(pendingInvites) && sentInvites == old(sentInvites)
    {
      if userId.None? || !deleteOk {
        return false;
      }
      connections := RemovePair(connections, userId.value, memberId);
      RemovePairDropsExactlyThatMember(old(connections), userId.value, memberId, memberId);
      Refresh();
      removed := true;
    }
  }
}
