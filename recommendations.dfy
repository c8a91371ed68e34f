/**
 * Recommendation messaging: recommendations sent between users, and
 * requests for recommendations sent to one user or broadcast to the
 * sender's circle. The store's `recommendations` and
 * `recommendation_requests` tables are sequences of records.
 */
module Recommendations {
  import opened Wrappers
  import opened Sorting
  import Circle

  datatype RecStatus = Pending | Added | Dismissed

  datatype Recommendation = Recommendation(
    id: string, fromUserId: string, toUserId: string,
    bookTitle: string, bookAuthor: string, note: Option<string>, status: RecStatus)

  datatype RequestStatus = Open | Fulfilled | Closed

  /** A request with no recipient (`toUserId == None`) is a broadcast to the sender's circle. */
  datatype Request = Request(id: string, fromUserId: string, toUserId: Option<string>, note: Option<string>, status: RequestStatus)


  /** `note || null`: a missing or empty note is stored as null. */
  function NoteOrNull(note: Option<string>): (r: Option<string>)
    ensures r.None? <==> note.None? || note.value == ""
    ensures r.Some? ==> r == note
  {
    if note.Some? && note.value != "" then note else None
  }

  // ---------------------------------------------------------------------
  // What the hook lists
  // ---------------------------------------------------------------------

  /** Recommendations addressed to `u`, whatever their status. */
  function IncomingRecommendations(recs: seq<Recommendation>, u: string): (r: seq<Recommendation>)
    ensures forall x :: x in r <==> x in recs && x.toUserId == u
  {
    if recs == [] then []
    else (if recs[0].toUserId == u then [recs[0]] else []) + IncomingRecommendations(recs[1..], u)
  }

  /** Recommendations sent by `u`. */
  function SentRecommendations(recs: seq<Recommendation>, u: string): (r: seq<Recommendation>)
    ensures forall x :: x in r <==> x in recs && x.fromUserId == u
  {
    if recs == [] then []
    else (if recs[0].fromUserId == u then [recs[0]] else []) + SentRecommendations(recs[1..], u)
  }

  /** Open requests addressed to `u` by name. */
  function DirectRequests(requests: seq<Request>, u: string): (r: seq<Request>)
    ensures forall x :: x in r <==> x in requests && x.toUserId == Some(u) && x.status == Open
    ensures Distinct(requests) ==> Distinct(r)
  {
    if requests == [] then []
    else
      var rest := DirectRequests(requests[1..], u);
      if requests[0].toUserId == Some(u) && requests[0].status == Open then
        assert Distinct(requests) ==> requests[0] !in requests[1..] by {
          assert forall j :: 0 <= j < |requests[1..]| ==> requests[1..][j] == requests[j + 1];
        }
        [requests[0]] + rest
      else rest
  }

  /** Open broadcasts from circle members; not asked for at all when the circle is empty. */
  function BroadcastRequests(requests: seq<Request>, members: seq<string>): (r: seq<Request>)
    ensures forall x :: x in r <==> x in requests && x.toUserId.None? && x.fromUserId in members && x.status == Open
    ensures Distinct(requests) ==> Distinct(r)
  {
    if members == [] then [] else OpenBroadcastsFrom(requests, members)
  }

  function OpenBroadcastsFrom(requests: seq<Request>, members: seq<string>): (r: seq<Request>)
    ensures forall x :: x in r <==> x in requests && x.toUserId.None? && x.fromUserId in members && x.status == Open
    ensures Distinct(requests) ==> Distinct(r)
  {
    if requests == [] then []
    else
      var rest := OpenBroadcastsFrom(requests[1..], members);
      var x := requests[0];
      if x.toUserId.None? && x.fromUserId in members && x.status == Open then
        assert Distinct(requests) ==> x !in requests[1..] by {
          assert forall j :: 0 <= j < |requests[1..]| ==> requests[1..][j] == requests[j + 1];
        }
        [x] + rest
      else rest
  }

  /** `allRequests`: the direct requests, then the broadcasts. */
  function IncomingRequests(requests: seq<Request>, u: string, members: seq<string>): (r: seq<Request>)
    ensures forall x :: x in r ==> x in requests && x.status == Open
  {
    DirectRequests(requests, u) + BroadcastRequests(requests, members)
  }

  /**
   * Visibility: a request is listed for `u` iff it is open and either
   * names `u` or is a broadcast from a circle member. A closed request,
   * or a broadcast from outside the circle, never is; and no request is
   * listed twice.
   */
  lemma IncomingRequestsExactly(requests: seq<Request>, u: string, members: seq<string>)
    ensures forall x :: x in IncomingRequests(requests, u, members) <==>
      x in requests && x.status == Open
      && (x.toUserId == Some(u) || (x.toUserId.None? && x.fromUserId in members))
    ensures Distinct(requests) ==> Distinct(IncomingRequests(requests, u, members))
  {
    var d := DirectRequests(requests, u);
    var b := BroadcastRequests(requests, members);
    if Distinct(requests) {
      var all := d + b;
      forall i, j | 0 <= i < j < |all| ensures all[i] != all[j] {
        if j < |d| {
          assert all[i] == d[i] && all[j] == d[j];
        } else if i >= |d| {
          assert all[i] == b[i - |d|] && all[j] == b[j - |d|];
        } else {
          assert all[i] in d && all[j] in b;
        }
      }
    }
  }

  /** The user's own requests, open or not. */
  function MyRequests(requests: seq<Request>, u: string): (r: seq<Request>)
    ensures forall x :: x in r <==> x in requests && x.fromUserId == u
  {
    if requests == [] then []
    else (if requests[0].fromUserId == u then [requests[0]] else []) + MyRequests(requests[1..], u)
  }

  /**
   * With the member list the circle derives, a broadcast from `x` (who
   * has a profile) reaches `u` exactly when `u` is in `x`'s own circle.
   */
  lemma BroadcastReachesSendersCircle(requests: seq<Request>, u: string, profiles: seq<string>,
                                      connections: seq<Circle.Connection>, q: Request)
    requires q in requests && q.toUserId.None? && q.status == Open && q.fromUserId in profiles
    ensures q in IncomingRequests(requests, u, Circle.MembersOf(profiles, connections, u))
            <==> u in Circle.OtherEndpoints(connections, q.fromUserId)
  {
    IncomingRequestsExactly(requests, u, Circle.MembersOf(profiles, connections, u));
    Circle.MembershipSymmetric(connections, u, q.fromUserId);
  }

  // ---------------------------------------------------------------------
  // Store writes
  // ---------------------------------------------------------------------

  /** `update({ status }).eq('id', id)` on recommendations: no check of the prior status. */
  function SetRecStatus(recs: seq<Recommendation>, id: string, status: RecStatus): (r: seq<Recommendation>)
    ensures |r| == |recs|
    ensures forall k :: 0 <= k < |recs| ==> r[k] == if recs[k].id == id then recs[k].(status := status) else recs[k]
  {
    seq(|recs|, k requires 0 <= k < |recs| => if recs[k].id == id then recs[k].(status := status) else recs[k])
  }

  /** `update({ status: 'closed' }).eq('id', id)` on requests. */
  function CloseWhereId(requests: seq<Request>, id: string): (r: seq<Request>)
    ensures |r| == |requests|
    ensures forall k :: 0 <= k < |requests| ==> r[k] == if requests[k].id == id then requests[k].(status := Closed) else requests[k]
  {
    seq(|requests|, k requires 0 <= k < |requests| => if requests[k].id == id then requests[k].(status := Closed) else requests[k])
  }

  /** A closed request drops out of every incoming list. */
  lemma ClosedRequestNotIncoming(requests: seq<Request>, id: string, u: string, members: seq<string>)
    ensures forall x :: x in IncomingRequests(CloseWhereId(requests, id), u, members) ==> x.id != id
  {
    IncomingRequestsExactly(CloseWhereId(requests, id), u, members);
  }

  // ---------------------------------------------------------------------
  // The hook
  // ---------------------------------------------------------------------

  class RecommendationsHook {
    /** The signed-in user, if any. */
    const userId: Option<string>
    /** The user ids of the circle members passed in by the page. */
    const circleMembers: seq<string>
    /** The store's tables. */
    var recommendations: seq<Recommendation>
    var requests: seq<Request>
    /** The hook's state. */
    var incomingRecommendations: seq<Recommendation>
    var sentRecommendations: seq<Recommendation>
    var incomingRequests: seq<Request>
    var myRequests: seq<Request>

    /** The four lists as `fetchRecommendations` derives them from the store. */
    predicate Synced()
      reads this
    {
      if userId.None? then
        incomingRecommendations == [] && sentRecommendations == [] && incomingRequests == [] && myRequests == []
      else
        && incomingRecommendations == IncomingRecommendations(recommendations, userId.value)
        && sentRecommendations == SentRecommendations(recommendations, userId.value)
        && incomingRequests == IncomingRequests(requests, userId.value, circleMembers)
        && myRequests == MyRequests(requests, userId.value)
    }

    constructor (userId: Option<string>, circleMembers: seq<string>, recommendations: seq<Recommendation>, requests: seq<Request>)
      ensures this.userId == userId && this.circleMembers == circleMembers
      ensures this.recommendations == recommendations && this.requests == requests
      ensures Synced()
    {
      this.userId := userId;
      this.circleMembers := circleMembers;
      this.recommendations := recommendations;
      this.requests := requests;
      if userId.None? {
        incomingRecommendations, sentRecommendations, incomingRequests, myRequests := [], [], [], [];
      } else {
        incomingRecommendations := IncomingRecommendations(recommendations, userId.value);
        sentRecommendations := SentRecommendations(recommendations, userId.value);
        incomingRequests := IncomingRequests(requests, userId.value, circleMembers);
        myRequests := MyRequests(requests, userId.value);
      }
    }

    /** `fetchRecommendations`. */
    method Refresh()
      modifies this
      ensures recommendations == old(recommendations) && requests == old(requests)
      ensures Synced()
    {
      if userId.None? {
        incomingRecommendations, sentRecommendations, incomingRequests, myRequests := [], [], [], [];
      } else {
        incomingRecommendations := IncomingRecommendations(recommendations, userId.value);
        sentRecommendations := SentRecommendations(recommendations, userId.value);
        incomingRequests := IncomingRequests(requests, userId.value, circleMembers);
        myRequests := MyRequests(requests, userId.value);
      }
    }

    /** `sendRecommendation`: one pending recommendation from the user, an empty note stored as null. */
    method SendRecommendation(toUserId: string, bookTitle: string, bookAuthor: string, note: Option<string>,
                              newId: string, insertOk: bool) returns (sent: bool)
      modifies this
      ensures sent <==> userId.Some? && insertOk
      ensures recommendations == if sent
        then old(recommendations) + [Recommendation(newId, userId.value, toUserId, bookTitle, bookAuthor, NoteOrNull(note), Pending)]
        else old(recommendations)
      ensures requests == old(requests)
      ensures sent ==> Synced()
      ensures !sent ==>
        && incomingRecommendations == old(incomingRecommendations) && sentRecommendations == old(sentRecommendations)
        && incomingRequests == old(incomingRequests) && myRequests == old(myRequests)
    {
      if userId.None? || !insertOk {
        return false;
      }
      recommendations := recommendations + [Recommendation(newId, userId.value, toUserId, bookTitle, bookAuthor, NoteOrNull(note), Pending)];
      Refresh();
      sent := true;
    }

    /** `markRecommendationAdded`: the recommendation(s) with the id become added, from any status. */
    method MarkRecommendationAdded(id: string, updateOk: bool) returns (marked: bool)
      modifies this
      ensures marked == updateOk
      ensures recommendations == if updateOk then SetRecStatus(old(recommendations), id, Added) else old(recommendations)
      ensures requests == old(requests)
      ensures marked ==> Synced()
      ensures !marked ==>
        && incomingRecommendations == old(incomingRecommendations) && sentRecommendations == old(sentRecommendations)
        && incomingRequests == old(incomingRequests) && myRequests == old(myRequests)
    {
      if !updateOk {
        return false;
      }
      recommendations := SetRecStatus(recommendations, id, Added);
      Refresh();
      marked := true;
    }

    /** `dismissRecommendation`: the recommendation(s) with the id become dismissed, from any status. */
    method DismissRecommendation(id: string, updateOk: bool) returns (dismissed: bool)
      modifies this
      ensures dismissed == updateOk
      ensures recommendations == if updateOk then SetRecStatus(old(recommendations), id, Dismissed) else old(recommendations)
      ensures requests == old(requests)
      ensures dismissed ==> Synced()
      ensures !dismissed ==>
        && incomingRecommendations == old(incomingRecommendations) && sentRecommendations == old(sentRecommendations)
        && incomingRequests == old(incomingRequests) && myRequests == old(myRequests)
    {
      if !updateOk {
        return false;
      }
      recommendations := SetRecStatus(recommendations, id, Dismissed);
      Refresh();
      dismissed := true;
    }

    /** `requestRecommendation`: one open request, to a user or (with no recipient) to the circle. */
    method RequestRecommendation(toUserId: Option<string>, note: Option<string>, newId: string, insertOk: bool) returns (requested: bool)
      modifies this
      ensures requested <==> userId.Some? && insertOk
      ensures requests == if requested
        then old(requests) + [Request(newId, userId.value, toUserId, NoteOrNull(note), Open)]
        else old(requests)
      ensures recommendations == old(recommendations)
      ensures requested ==> Synced()
      ensures !requested ==>
        && incomingRecommendations == old(incomingRecommendations) && sentRecommendations == old(sentRecommendations)
        && incomingRequests == old(incomingRequests) && myRequests == old(myRequests)
    {
      if userId.None? || !insertOk {
        return false;
      }
      requests := requests + [Request(newId, userId.value, toUserId, NoteOrNull(note), Open)];
      Refresh();
      requested := true;
    }

    /** `closeRequest`: the request(s) with the id become closed; no other request changes. */
    method CloseRequest(id: string, updateOk: bool) returns (closed: bool)
      modifies this
      ensures closed == updateOk
      ensures requests == if updateOk then CloseWhereId(old(requests), id) else old(requests)
      ensures recommendations == old(recommendations)
      ensures closed ==> Synced()
      ensures !closed ==>
        && incomingRecommendations == old(incomingRecommendations) && sentRecommendations == old(sentRecommendations)
        && incomingRequests == old(incomingRequests) && myRequests == old(myRequests)
    {
      if !updateOk {
        return false;
      }
      requests := CloseWhereId(requests, id);
      Refresh();
      closed := true;
    }
  }
}
