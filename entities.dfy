/**
 * The three persisted records of the mileage service, their defaults and
 * their unique indexes, and the point movements a history records.
 */
module Entities {
  import opened Wrappers

  /**
   * A review. `id` is absent until the store saves the review and assigns
   * one. `hasFirstReviewPoint` is read and written by the services although
   * the entity does not declare it; here it is a field defaulting to false.
   */
  datatype Review = Review(
    userId: string,
    placeId: string,
    content: string := "",
    photoIds: string := "",
    createdAt: nat := 0,
    hasFirstReviewPoint: bool := false,
    id: Option<string> := None)

  /** A user's point balance; a new row starts at 0. */
  datatype UserPoint = UserPoint(userId: string, point: int := 0, id: Option<string> := None)

  /**
   * One row of the point history; an amount not given is 0, and the
   * creation time not given is the earliest one, 0.
   */
  datatype UserPointHistory = UserPointHistory(
    userId: string,
    createdAt: nat := 0,
    increasedAmount: int := 0,
    decreasedAmount: int := 0,
    id: Option<string> := None)

  /** The declared width of every `user_id` and `place_id` column. */
  const IdColumnLength := 255

  /** A value a `length=255` column accepts; a longer one makes the insert fail. */
  predicate FitsColumn(s: string) {
    |s| <= IdColumnLength
  }

  /** A record built with only its required fields has the documented defaults. */
  lemma NewRecordDefaults(u: string, pl: string, amount: int)
    ensures var r := Review(u, pl); r.content == "" && r.photoIds == "" && !r.hasFirstReviewPoint && r.id.None?
    ensures UserPoint(u).point == 0 && UserPoint(u).id.None?
    ensures var h := UserPointHistory(u, increasedAmount := amount); h.decreasedAmount == 0 && h.id.None?
    ensures var h := UserPointHistory(u, decreasedAmount := amount); h.increasedAmount == 0 && h.id.None?
  {
  }

  /** The unique index on (user_id, place_id): one review per user and place. */
  ghost predicate UniqueUserPlace(reviews: map<string, Review>) {
    forall a, b ::
      a in reviews && b in reviews && reviews[a].userId == reviews[b].userId && reviews[a].placeId == reviews[b].placeId
      ==> a == b
  }

  /** The unique index on user_id: the point table is keyed by user, every row under its own user. */
  ghost predicate UniqueUser(points: map<string, UserPoint>) {
    forall u :: u in points ==> points[u].userId == u
  }

  /** What a history row says: whose points moved, and by how much each way. */
  datatype Movement = Movement(userId: string, increased: int, decreased: int)

  function MovementOf(h: UserPointHistory): Movement {
    Movement(h.userId, h.increasedAmount, h.decreasedAmount)
  }

  function Movements(hs: seq<UserPointHistory>): (ms: seq<Movement>)
    ensures |ms| == |hs|
    ensures forall j :: 0 <= j < |hs| ==> ms[j] == MovementOf(hs[j])
  {
    if hs == [] then [] else Movements(hs[..|hs| - 1]) + [MovementOf(hs[|hs| - 1])]
  }

  /** Total increase minus total decrease recorded for user `u`. */
  function Net(ms: seq<Movement>, u: string): int {
    if ms == [] then 0
    else Net(ms[..|ms| - 1], u) + (if ms[|ms| - 1].userId == u then ms[|ms| - 1].increased - ms[|ms| - 1].decreased else 0)
  }

  lemma MovementsAppend(hs: seq<UserPointHistory>, h: UserPointHistory)
    ensures Movements(hs + [h]) == Movements(hs) + [MovementOf(h)]
  {
    assert (hs + [h])[..|hs|] == hs;
  }

  lemma NetAppend(ms: seq<Movement>, m: Movement, u: string)
    ensures Net(ms + [m], u) == Net(ms, u) + (if m.userId == u then m.increased - m.decreased else 0)
  {
    assert (ms + [m])[..|ms|] == ms;
  }

  lemma NetConcat(ms: seq<Movement>, more: seq<Movement>, u: string)
    ensures Net(ms + more, u) == Net(ms, u) + Net(more, u)
    decreases |more|
  {
    if more == [] {
      assert ms + more == ms;
    } else {
      var front := more[..|more| - 1];
      var m := more[|more| - 1];
      assert ms + more == (ms + front) + [m];
      NetAppend(ms + front, m, u);
      NetConcat(ms, front, u);
      assert more == front + [m];
      NetAppend(front, m, u);
    }
  }

  /** Rows of other users leave a user's net at 0. */
  lemma {:induction false} NetWithoutRows(ms: seq<Movement>, u: string)
    requires forall j :: 0 <= j < |ms| ==> ms[j].userId != u
    ensures Net(ms, u) == 0
  {
    if ms != [] {
      NetWithoutRows(ms[..|ms| - 1], u);
    }
  }
}
