/**
 * The database behind the repositories: the review table, the user point
 * table and the point history, held in memory. Generated ids come from one
 * counter and creation times from a natural-number clock.
 */
module Repositories {
  import opened Wrappers
  import opened Entities

  /** The decimal digit for `d`. */
  function Digit(d: nat): char
    requires d < 10
  {
    (48 + d) as char
  }

  function DigitValue(c: char): nat {
    if '0' <= c <= '9' then c as int - 48 else 0
  }

  /** The id generated from counter value `n`: its decimal numeral. */
  function IdOf(n: nat): string
    decreases n
  {
    if n < 10 then [Digit(n)] else IdOf(n / 10) + [Digit(n % 10)]
  }

  /** Reads a numeral back; on other strings it still gives some number. */
  function ParseId(s: string): nat
    decreases |s|
  {
    if s == [] then 0 else ParseId(s[..|s| - 1]) * 10 + DigitValue(s[|s| - 1])
  }

  lemma {:induction false} ParseIdOf(n: nat)
    ensures ParseId(IdOf(n)) == n
    decreases n
  {
    var s := IdOf(n);
    if n < 10 {
      assert s[..|s| - 1] == [];
    } else {
      ParseIdOf(n / 10);
      assert s[..|s| - 1] == IdOf(n / 10);
    }
  }

  /** Different counter values give different ids, so a generated id is never reused. */
  lemma IdsDistinct(m: nat, n: nat)
    ensures IdOf(m) == IdOf(n) <==> m == n
  {
    ParseIdOf(m);
    ParseIdOf(n);
  }

  /** The balance of each user that has a point row. */
  function Balances(points: map<string, UserPoint>): (b: map<string, int>)
    ensures b.Keys == points.Keys
    ensures forall u :: u in points ==> b[u] == points[u].point
  {
    map u | u in points :: points[u].point
  }

  /**
   * The effect of `UPDATE ... SET point = point + delta WHERE userId = u` on
   * the balances: the row of `u` moves by `delta` if there is one, and no
   * other row changes.
   */
  function Shift(b: map<string, int>, u: string, delta: int): (r: map<string, int>)
    ensures r.Keys == b.Keys
    ensures u in b ==> r[u] == b[u] + delta
    ensures forall v :: v in b && v != u ==> r[v] == b[v]
  {
    if u in b then b[u := b[u] + delta] else b
  }

  /** Storing a row for `u` sets `u`'s balance to the row's point and leaves the others. */
  lemma BalancesOfPut(points: map<string, UserPoint>, u: string, row: UserPoint)
    ensures Balances(points[u := row]) == Balances(points)[u := row.point]
  {
  }

  /** Two moves of the same row add up, and a move by 0 changes nothing. */
  lemma ShiftTwice(b: map<string, int>, u: string, x: int, y: int)
    ensures Shift(Shift(b, u, x), u, y) == Shift(b, u, x + y)
    ensures Shift(b, u, 0) == b
  {
  }

  /** Adding and then subtracting the same amount restores every balance. */
  lemma ShiftInverse(b: map<string, int>, u: string, p: int)
    ensures Shift(Shift(b, u, p), u, -p) == b
  {
    ShiftTwice(b, u, p, -p);
  }

  /**
   * The balances after a row for `u` is ensured: the existing row, or a new
   * one at 0; no row at all when `u` is longer than the column holds.
   */
  function Opened(b: map<string, int>, u: string): (r: map<string, int>)
    ensures r.Keys == if FitsColumn(u) then b.Keys + {u} else b.Keys
    ensures u in b || !FitsColumn(u) ==> r == b
    ensures u !in b && FitsColumn(u) ==> r[u] == 0 && forall v :: v in b ==> r[v] == b[v]
  {
    if u in b || !FitsColumn(u) then b else b[u := 0]
  }

  /** `findByUserId` on the user point table: the user's row, if any. */
  function FindByUserId(points: map<string, UserPoint>, userId: string): (r: Option<UserPoint>)
    ensures r.Some? <==> userId in points
    ensures r.Some? ==> r.value == points[userId]
    ensures r.Some? && UniqueUser(points) ==> r.value.userId == userId
  {
    if userId in points then Some(points[userId]) else None
  }

  /** A review of `placeId` by `userId` exists. */
  predicate HasUserPlace(reviews: map<string, Review>, userId: string, placeId: string) {
    exists k :: k in reviews && reviews[k].userId == userId && reviews[k].placeId == placeId
  }

  /** Some review of `placeId` exists. */
  predicate PlaceReviewed(reviews: map<string, Review>, placeId: string) {
    exists k :: k in reviews && reviews[k].placeId == placeId
  }

  /**
   * Every balance is the net of its user's history rows, and every history
   * row belongs to a user with a balance row.
   */
  ghost predicate HistoryBalanced(balances: map<string, int>, ms: seq<Movement>) {
    && (forall u :: u in balances ==> balances[u] == Net(ms, u))
    && (forall j :: 0 <= j < |ms| ==> ms[j].userId in balances)
  }

  /** Every author of a review has a balance row. */
  ghost predicate AuthorsHaveRows(reviews: map<string, Review>, balances: map<string, int>) {
    forall k :: k in reviews ==> reviews[k].userId in balances
  }

  /** A balanced ledger: the history accounts for every balance, and every author has one. */
  ghost predicate LedgerBalanced(reviews: map<string, Review>, balances: map<string, int>, ms: seq<Movement>) {
    HistoryBalanced(balances, ms) && AuthorsHaveRows(reviews, balances)
  }

  /** Moving a balance and recording the same movement keeps the history accounting for it. */
  lemma BalancedAfterMovement(b: map<string, int>, ms: seq<Movement>, m: Movement)
    requires HistoryBalanced(b, ms)
    requires m.userId in b
    ensures HistoryBalanced(Shift(b, m.userId, m.increased - m.decreased), ms + [m])
  {
    var b' := Shift(b, m.userId, m.increased - m.decreased);
    forall u | u in b'
      ensures b'[u] == Net(ms + [m], u)
    {
      NetAppend(ms, m, u);
    }
  }

  /** A new row at 0 is accounted for, since a user without a row has no history rows. */
  lemma BalancedAfterOpen(b: map<string, int>, ms: seq<Movement>, u: string)
    requires HistoryBalanced(b, ms)
    ensures HistoryBalanced(Opened(b, u), ms)
  {
    if u !in b {
      NetWithoutRows(ms, u);
    }
  }

  /** Storing a review whose author has a row keeps every author with a row, as rows are never removed. */
  lemma AuthorsAfterPut(reviews: map<string, Review>, b: map<string, int>, b': map<string, int>, id: string, x: Review)
    requires AuthorsHaveRows(reviews, b)
    requires b.Keys <= b'.Keys && x.userId in b'
    ensures AuthorsHaveRows(reviews[id := x], b')
  {
  }

  /** Rows that are only added or moved keep every author with a row. */
  lemma AuthorsKept(reviews: map<string, Review>, b: map<string, int>, b': map<string, int>)
    requires AuthorsHaveRows(reviews, b)
    requires b.Keys <= b'.Keys
    ensures AuthorsHaveRows(reviews, b')
  {
  }

  /** Removing a review keeps every remaining author with a row. */
  lemma AuthorsAfterRemove(reviews: map<string, Review>, b: map<string, int>, b': map<string, int>, id: string)
    requires AuthorsHaveRows(reviews, b)
    requires b.Keys <= b'.Keys
    ensures AuthorsHaveRows(reviews - {id}, b')
  {
  }

  /** Every history row has an id generated before counter value `n`. */
  ghost predicate HistoryIdsBelow(hs: seq<UserPointHistory>, n: nat) {
    forall j :: 0 <= j < |hs| ==> hs[j].id.Some? && ParseId(hs[j].id.value) < n
  }

  /** No two history rows share an id. */
  ghost predicate HistoryIdsDistinct(hs: seq<UserPointHistory>) {
    forall i, j :: 0 <= i < j < |hs| ==> hs[i].id != hs[j].id
  }

  /** A row stamped with counter value `n` has an id no row below `n` has, so appending it keeps the ids distinct. */
  lemma AppendFreshHistory(hs: seq<UserPointHistory>, n: nat, h: UserPointHistory)
    requires HistoryIdsBelow(hs, n) && HistoryIdsDistinct(hs)
    requires h.id == Some(IdOf(n))
    ensures forall j :: 0 <= j < |hs| ==> hs[j].id != h.id
    ensures HistoryIdsBelow(hs + [h], n + 1) && HistoryIdsDistinct(hs + [h])
  {
    ParseIdOf(n);
    var hs' := hs + [h];
    forall i, j | 0 <= i < j < |hs'|
      ensures hs'[i].id != hs'[j].id
    {
      if j == |hs| {
        assert ParseId(hs[i].id.value) < n;
      }
    }
  }

  class Database {
    var reviews: map<string, Review>
    var userPoints: map<string, UserPoint>
    var histories: seq<UserPointHistory>
    var nextId: nat
    var clock: nat

    /**
     * Every review is stored under its own id, which the counter has passed,
     * and was created before the clock's current value; every history row
     * has an id the counter has passed, and no two share one; the unique
     * indexes hold.
     */
    ghost predicate Valid()
      reads this
    {
      && (forall k :: k in reviews ==> reviews[k].id == Some(k) && ParseId(k) < nextId && reviews[k].createdAt < clock)
      && HistoryIdsBelow(histories, nextId)
      && HistoryIdsDistinct(histories)
      && UniqueUserPlace(reviews)
      && UniqueUser(userPoints)
    }

    /** The ledger is balanced: see `LedgerBalanced`. */
    ghost predicate Balanced()
      reads this
    {
      LedgerBalanced(reviews, Balances(userPoints), Movements(histories))
    }

    constructor ()
      ensures Valid() && Balanced()
      ensures reviews == map[] && userPoints == map[] && histories == []
    {
      reviews, userPoints, histories := map[], map[], [];
      nextId, clock := 0, 0;
    }

    /** `findById` and `findByIdForUpdate` (the lock is not modelled): the review with that id, if any. */
    function FindById(id: string): (r: Option<Review>)
      requires Valid()
      reads this
      ensures r.Some? <==> id in reviews
      ensures r.Some? ==> r.value == reviews[id] && r.value.id == Some(id)
    {
      if id in reviews then Some(reviews[id]) else None
    }

    /** `findFirstByPlaceIdOrderByCreatedAtAsc`: a review of the place created no later than any other. */
    method FindFirstByPlaceIdOrderByCreatedAtAsc(placeId: string) returns (first: Option<Review>)
      requires Valid()
      ensures first.Some? <==> PlaceReviewed(reviews, placeId)
      ensures first.Some? ==>
                && first.value.placeId == placeId
                && first.value.id.Some? && first.value.id.value in reviews
                && reviews[first.value.id.value] == first.value
                && forall k :: k in reviews && reviews[k].placeId == placeId ==> first.value.createdAt <= reviews[k].createdAt
    {
      first := None;
      var todo := reviews.Keys;
      while todo != {}
        invariant todo <= reviews.Keys
        invariant first.None? ==> forall k :: k in reviews && k !in todo ==> reviews[k].placeId != placeId
        invariant first.Some? ==>
                    && first.value.placeId == placeId
                    && first.value.id.Some? && first.value.id.value in reviews
                    && reviews[first.value.id.value] == first.value
                    && forall k :: k in reviews && k !in todo && reviews[k].placeId == placeId ==>
                         first.value.createdAt <= reviews[k].createdAt
        decreases todo
      {
        var k :| k in todo;
        var candidate := reviews[k];
        if candidate.placeId == placeId && (first.None? || candidate.createdAt < first.value.createdAt) {
          first := Some(candidate);
        }
        todo := todo - {k};
      }
    }

    /**
     * `save` of a new review: refused by the (user_id, place_id) index when
     * the pair is taken, and by the columns when either id is longer than
     * they hold; otherwise stored under a fresh id and stamped with the clock.
     */
    method SaveReview(review: Review) returns (saved: Option<Review>)
      requires Valid()
      requires review.id.None?
      modifies this
      ensures Valid()
      ensures saved.None? <==>
                HasUserPlace(old(reviews), review.userId, review.placeId) || !FitsColumn(review.userId) || !FitsColumn(review.placeId)
      ensures saved.None? ==> reviews == old(reviews) && nextId == old(nextId) && clock == old(clock)
      ensures saved.Some? ==>
                && saved.value == review.(createdAt := old(clock), id := Some(IdOf(old(nextId))))
                && IdOf(old(nextId)) !in old(reviews)
                && reviews == old(reviews)[IdOf(old(nextId)) := saved.value]
                && nextId == old(nextId) + 1 && clock == old(clock) + 1
      ensures userPoints == old(userPoints) && histories == old(histories)
    {
      if HasUserPlace(reviews, review.userId, review.placeId) || !FitsColumn(review.userId) || !FitsColumn(review.placeId) {
        return None;
      }
      var id := IdOf(nextId);
      ParseIdOf(nextId);
      var row := review.(createdAt := clock, id := Some(id));
      reviews := reviews[id := row];
      nextId, clock := nextId + 1, clock + 1;
      saved := Some(row);
    }

    /** `save` of a review loaded from this store, with its keys and creation time untouched. */
    method UpdateReview(review: Review)
      requires Valid()
      requires review.id.Some? && review.id.value in reviews
      requires var stored := reviews[review.id.value];
               review.userId == stored.userId && review.placeId == stored.placeId && review.createdAt == stored.createdAt
      modifies this
      ensures Valid()
      ensures reviews == old(reviews)[review.id.value := review]
      ensures userPoints == old(userPoints) && histories == old(histories)
      ensures nextId == old(nextId) && clock == old(clock)
    {
      reviews := reviews[review.id.value := review];
    }

    /** `delete`: the row is removed for good. */
    method DeleteReview(id: string)
      requires Valid()
      modifies this
      ensures Valid()
      ensures reviews == old(reviews) - {id}
      ensures userPoints == old(userPoints) && histories == old(histories)
      ensures nextId == old(nextId) && clock == old(clock)
    {
      reviews := reviews - {id};
    }

    /**
     * `save` of a new point row: refused by the user_id index when the user
     * has one, and by the column when the id is longer than it holds;
     * otherwise stored under the counter's next id.
     */
    method SaveUserPoint(row: UserPoint) returns (saved: Option<UserPoint>)
      requires Valid()
      requires row.id.None?
      modifies this
      ensures Valid()
      ensures saved.None? <==> row.userId in old(userPoints) || !FitsColumn(row.userId)
      ensures saved.None? ==> userPoints == old(userPoints) && nextId == old(nextId)
      ensures saved.Some? ==>
                && saved.value == row.(id := Some(IdOf(old(nextId))))
                && userPoints == old(userPoints)[row.userId := saved.value]
                && Balances(userPoints) == Balances(old(userPoints))[row.userId := row.point]
                && nextId == old(nextId) + 1
      ensures reviews == old(reviews) && histories == old(histories) && clock == old(clock)
    {
      if row.userId in userPoints || !FitsColumn(row.userId) {
        return None;
      }
      var stored := row.(id := Some(IdOf(nextId)));
      BalancesOfPut(userPoints, row.userId, stored);
      userPoints := userPoints[row.userId := stored];
      nextId := nextId + 1;
      saved := Some(stored);
    }

    /** `incrPoint`: returns the number of rows updated. */
    method IncrPoint(userId: string, point: int) returns (updated: int)
      requires Valid()
      modifies this
      ensures Valid()
      ensures Balances(userPoints) == Shift(Balances(old(userPoints)), userId, point)
      ensures updated == if userId in old(userPoints) then 1 else 0
      ensures userId in old(userPoints) ==>
                userPoints == old(userPoints)[userId := old(userPoints)[userId].(point := old(userPoints)[userId].point + point)]
      ensures userId !in old(userPoints) ==> userPoints == old(userPoints)
      ensures reviews == old(reviews) && histories == old(histories)
      ensures nextId == old(nextId) && clock == old(clock)
    {
      updated := 0;
      if userId in userPoints {
        var row := userPoints[userId];
        userPoints := userPoints[userId := row.(point := row.point + point)];
        updated := 1;
      }
    }

    /** `decrPoint`: returns the number of rows updated. */
    method DecrPoint(userId: string, point: int) returns (updated: int)
      requires Valid()
      modifies this
      ensures Valid()
      ensures Balances(userPoints) == Shift(Balances(old(userPoints)), userId, -point)
      ensures updated == if userId in old(userPoints) then 1 else 0
      ensures userId in old(userPoints) ==>
                userPoints == old(userPoints)[userId := old(userPoints)[userId].(point := old(userPoints)[userId].point - point)]
      ensures userId !in old(userPoints) ==> userPoints == old(userPoints)
      ensures reviews == old(reviews) && histories == old(histories)
      ensures nextId == old(nextId) && clock == old(clock)
    {
      updated := 0;
      if userId in userPoints {
        var row := userPoints[userId];
        userPoints := userPoints[userId := row.(point := row.point - point)];
        updated := 1;
      }
    }

    /**
     * `save` of a history row: appended under an id no earlier row has. The
     * creation time stays as the row was built: the entity's `@CreatedDate`
     * has no auditing listener to fill it, so the default stays.
     */
    method SaveHistory(row: UserPointHistory) returns (saved: UserPointHistory)
      requires Valid()
      requires row.id.None?
      modifies this
      ensures Valid()
      ensures saved == row.(id := Some(IdOf(old(nextId))))
      ensures forall j :: 0 <= j < |old(histories)| ==> old(histories)[j].id != saved.id
      ensures histories == old(histories) + [saved]
      ensures Movements(histories) == Movements(old(histories)) + [MovementOf(row)]
      ensures reviews == old(reviews) && userPoints == old(userPoints)
      ensures nextId == old(nextId) + 1 && clock == old(clock)
    {
      saved := row.(id := Some(IdOf(nextId)));
      AppendFreshHistory(histories, nextId, saved);
      MovementsAppend(histories, saved);
      histories := histories + [saved];
      nextId := nextId + 1;
    }
  }
}
