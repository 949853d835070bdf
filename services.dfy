/**
 * Engine snapshot B: a review service that only computes each event's
 * result and touches no ledger state, and a user point service that the
 * controller calls to apply the result to the ledger.
 */
module Services {
  import opened Wrappers
  import opened Exceptions
  import opened Dtos
  import opened Entities
  import opened Scoring
  import opened Repositories
  import opened ReviewEvents
  import opened Ledger

  /** `ReviewService.addReview`: the review-table part of ADD, with no ledger effect. */
  method AddReview(db: Database, params: EventParams) returns (r: Result<ReviewEventResult>)
    requires db.Valid()
    modifies db
    ensures db.Valid()
    ensures ReviewAdded(old(db.reviews), old(db.clock), db.reviews, params, r)
    ensures db.userPoints == old(db.userPoints) && db.histories == old(db.histories)
    ensures old(db.Balanced()) && params.userId.GetOr("") in old(db.userPoints) ==> db.Balanced()
  {
    var photoIds := PhotoIdsOf(params.attachedPhotoIds);
    var userId := params.userId.GetOr("");
    var placeId := params.placeId.GetOr("");

    var saved := db.SaveReview(Review(
      userId := userId,
      placeId := placeId,
      content := params.content.GetOr(""),
      photoIds := photoIds));
    if saved.None? {
      return Err(DuplicateReview);
    }
    var created := saved.value;
    ghost var inserted := created;
    ghost var afterInsert := db.reviews;

    var point := CalculatePoint(created);
    var firstReview := db.FindFirstByPlaceIdOrderByCreatedAtAsc(placeId);

    if firstReview.value.id == created.id {
      point := point + 1;
      created := created.(hasFirstReviewPoint := true);
      db.UpdateReview(created);
    }
    r := Ok(ReviewEventResult(reviewId := created.id, increasedPoint := point));
    AddedByInsert(old(db.reviews), old(db.clock), params, inserted.id.value, inserted, afterInsert, firstReview.value, db.reviews, r);

    if old(db.Balanced()) && userId in old(db.userPoints) {
      AuthorsAfterPut(old(db.reviews), Balances(db.userPoints), Balances(db.userPoints), inserted.id.value, db.reviews[inserted.id.value]);
    }
  }

  /** `ReviewService.modifyReview`: the review-table part of MOD, with no ledger effect. */
  method ModifyReview(db: Database, params: EventParams) returns (r: Result<ReviewEventResult>)
    requires db.Valid()
    modifies db
    ensures db.Valid()
    ensures ReviewModified(old(db.reviews), db.reviews, params, r)
    ensures db.userPoints == old(db.userPoints) && db.histories == old(db.histories)
    ensures old(db.Balanced()) ==> db.Balanced()
  {
    var photoIds := PhotoIdsOf(params.attachedPhotoIds);
    var found := FindReview(db, params.reviewId.GetOr(""));
    if found.Err? {
      return Err(found.error);
    }
    var review := found.value;
    if Some(review.userId) != params.userId {
      return Err(NotReviewAuthor);
    }

    var oldPoint := CalculatePoint(review);
    review := review.(content := params.content.GetOr(""), photoIds := photoIds);
    db.UpdateReview(review);

    var newPoint := CalculatePoint(review);
    var diff := newPoint - oldPoint;
    r := Ok(DiffResult(review.id, diff));

    if old(db.Balanced()) {
      AuthorsAfterPut(old(db.reviews), Balances(db.userPoints), Balances(db.userPoints), review.id.value, review);
    }
  }

  /** `ReviewService.deleteReview`: the review-table part of DELETE, with no ledger effect. */
  method DeleteReview(db: Database, params: EventParams) returns (r: Result<ReviewEventResult>)
    requires db.Valid()
    modifies db
    ensures db.Valid()
    ensures ReviewDeleted(old(db.reviews), db.reviews, params, r)
    ensures db.userPoints == old(db.userPoints) && db.histories == old(db.histories)
    ensures old(db.Balanced()) ==> db.Balanced()
  {
    var found := FindReview(db, params.reviewId.GetOr(""));
    if found.Err? {
      return Err(found.error);
    }
    var review := found.value;
    if Some(review.userId) != params.userId {
      return Err(NotReviewAuthor);
    }

    var point := CalculatePoint(review);
    point := point + (if review.hasFirstReviewPoint then 1 else 0);
    db.DeleteReview(review.id.value);
    r := Ok(ReviewEventResult(decreasedPoint := point));

    if old(db.Balanced()) {
      AuthorsAfterRemove(old(db.reviews), Balances(db.userPoints), Balances(db.userPoints), review.id.value);
    }
  }

  /**
   * `UserPointService.getOrCreateUserPoint`: the existing row if there is
   * one; otherwise a new row at 0, or the row a concurrent insert created
   * when the store refuses the new one, which finds none when the id is
   * too long for the column.
   */
  method GetOrCreateUserPoint(db: Database, userId: string) returns (row: Option<UserPoint>)
    requires db.Valid()
    modifies db
    ensures db.Valid()
    ensures Balances(db.userPoints) == Opened(Balances(old(db.userPoints)), userId)
    ensures forall v :: v in old(db.userPoints) ==> db.userPoints[v] == old(db.userPoints)[v]
    ensures row.Some? <==> userId in db.userPoints
    ensures row.Some? ==> row.value == db.userPoints[userId]
    ensures db.reviews == old(db.reviews) && db.histories == old(db.histories) && db.clock == old(db.clock)
    ensures old(db.Balanced()) ==> db.Balanced()
  {
    row := FindByUserId(db.userPoints, userId);
    if row.Some? {
      return;
    }
    row := db.SaveUserPoint(UserPoint(userId := userId));
    var points := db.userPoints;
    if row.None? {
      row := FindByUserId(points, userId);
    }
    if old(db.Balanced()) {
      BalancedAfterOpen(Balances(old(db.userPoints)), Movements(db.histories), userId);
      AuthorsKept(db.reviews, Balances(old(db.userPoints)), Balances(db.userPoints));
    }
  }

  /** A positive amount, or 0. */
  function Positive(x: int): int {
    if x > 0 then x else 0
  }

  /** The net amount `updateUserPoint` moves a balance by for `result`: the positive parts of its two sides. */
  function Change(result: ReviewEventResult): int {
    Positive(result.increasedPoint) - Positive(result.decreasedPoint)
  }

  /**
   * The history rows `updateUserPoint` appends for `result`: an increase row
   * when the increase is positive, then a decrease row when the decrease is.
   * Together they move `u`'s net by the positive parts and no one else's.
   */
  function Moves(u: string, result: ReviewEventResult): (ms: seq<Movement>)
    ensures |ms| == (if result.increasedPoint > 0 then 1 else 0) + (if result.decreasedPoint > 0 then 1 else 0)
    ensures forall j :: 0 <= j < |ms| ==> ms[j].userId == u
    ensures forall v :: Net(ms, v) == if v == u then Change(result) else 0
  {
    var up, down := Ups(u, result), Downs(u, result);
    forall v ensures Net(up + down, v) == Net(up, v) + Net(down, v) {
      NetConcat(up, down, v);
    }
    up + down
  }

  /** Moving a balance up by the increase, then down by the decrease, moves it by `Change`. */
  lemma ShiftSteps(b0: map<string, int>, b1: map<string, int>, b2: map<string, int>, u: string, result: ReviewEventResult)
    requires b1 == Shift(b0, u, Positive(result.increasedPoint))
    requires b2 == Shift(b1, u, -Positive(result.decreasedPoint))
    ensures b2 == Shift(b0, u, Change(result))
  {
    ShiftTwice(b0, u, Positive(result.increasedPoint), -Positive(result.decreasedPoint));
  }

  /** Appending the increase rows, then the decrease rows, appends `Moves`. */
  lemma MovesSplit(ms0: seq<Movement>, ms1: seq<Movement>, ms2: seq<Movement>, u: string, result: ReviewEventResult)
    requires ms1 == if result.increasedPoint > 0 then ms0 + [Movement(u, result.increasedPoint, 0)] else ms0
    requires ms2 == if result.decreasedPoint > 0 then ms1 + [Movement(u, 0, result.decreasedPoint)] else ms1
    ensures ms2 == ms0 + Moves(u, result)
  {
    assert Moves(u, result) == Ups(u, result) + Downs(u, result);
    assert ms1 == ms0 + Ups(u, result);
  }

  /** The increase row of `Moves`, if any. */
  function Ups(u: string, result: ReviewEventResult): seq<Movement> {
    if result.increasedPoint > 0 then [Movement(u, result.increasedPoint, 0)] else []
  }

  /** The decrease row of `Moves`, if any. */
  function Downs(u: string, result: ReviewEventResult): seq<Movement> {
    if result.decreasedPoint > 0 then [Movement(u, 0, result.decreasedPoint)] else []
  }

  /** Moving a balance by the positive parts of a result and appending `Moves` keeps the history accounting for it. */
  lemma MovesKeepBalance(b: map<string, int>, ms: seq<Movement>, u: string, result: ReviewEventResult)
    requires HistoryBalanced(b, ms)
    requires u in b
    ensures HistoryBalanced(Shift(b, u, Change(result)),
                            ms + Moves(u, result))
  {
    var b' := Shift(b, u, Change(result));
    var moves := Moves(u, result);
    forall v | v in b'
      ensures b'[v] == Net(ms + moves, v)
    {
      NetConcat(ms, moves, v);
    }
    assert forall j :: 0 <= j < |moves| ==> (ms + moves)[|ms| + j] == moves[j];
  }

  /** The first step of `updateUserPoint`: a positive increase is credited with its history row. */
  method CreditIncrease(db: Database, userId: string, result: ReviewEventResult)
    requires db.Valid()
    modifies db
    ensures db.Valid()
    ensures db.reviews == old(db.reviews) && db.userPoints.Keys == old(db.userPoints).Keys
    ensures Balances(db.userPoints) == Shift(Balances(old(db.userPoints)), userId, Positive(result.increasedPoint))
    ensures Movements(db.histories) ==
              if result.increasedPoint > 0 then Movements(old(db.histories)) + [Movement(userId, result.increasedPoint, 0)]
              else Movements(old(db.histories))
    ensures result.increasedPoint <= 0 ==> db.userPoints == old(db.userPoints) && db.histories == old(db.histories)
  {
    if result.increasedPoint > 0 {
      Credit(db, userId, result.increasedPoint);
    } else {
      ShiftTwice(Balances(db.userPoints), userId, 0, 0);
    }
  }

  /** The second step of `updateUserPoint`: a positive decrease is debited with its history row. */
  method DebitDecrease(db: Database, userId: string, result: ReviewEventResult)
    requires db.Valid()
    modifies db
    ensures db.Valid()
    ensures db.reviews == old(db.reviews) && db.userPoints.Keys == old(db.userPoints).Keys
    ensures Balances(db.userPoints) == Shift(Balances(old(db.userPoints)), userId, -Positive(result.decreasedPoint))
    ensures Movements(db.histories) ==
              if result.decreasedPoint > 0 then Movements(old(db.histories)) + [Movement(userId, 0, result.decreasedPoint)]
              else Movements(old(db.histories))
    ensures result.decreasedPoint <= 0 ==> db.userPoints == old(db.userPoints) && db.histories == old(db.histories)
  {
    if result.decreasedPoint > 0 {
      Debit(db, userId, result.decreasedPoint);
    } else {
      ShiftTwice(Balances(db.userPoints), userId, 0, 0);
    }
  }

  /**
   * `UserPointService.updateUserPoint`: the user's balance moves by exactly
   * the event's result, and each non-zero side is recorded by one history
   * row; a result with nothing positive changes nothing.
   */
  method UpdateUserPoint(db: Database, userId: string, result: ReviewEventResult)
    requires db.Valid()
    modifies db
    ensures db.Valid()
    ensures db.reviews == old(db.reviews)
    ensures Balances(db.userPoints) ==
              Shift(Balances(old(db.userPoints)), userId, Change(result))
    ensures Movements(db.histories) == Movements(old(db.histories)) + Moves(userId, result)
    ensures result.increasedPoint <= 0 && result.decreasedPoint <= 0 ==>
              db.userPoints == old(db.userPoints) && db.histories == old(db.histories)
    ensures old(db.Balanced()) && userId in old(db.userPoints) ==> db.Balanced()
  {
    ghost var b0, ms0 := Balances(db.userPoints), Movements(db.histories);
    CreditIncrease(db, userId, result);
    ghost var b1, ms1 := Balances(db.userPoints), Movements(db.histories);
    DebitDecrease(db, userId, result);
    ShiftSteps(b0, b1, Balances(db.userPoints), userId, result);
    MovesSplit(ms0, ms1, Movements(db.histories), userId, result);
    if old(db.Balanced()) && userId in old(db.userPoints) {
      MovesKeepBalance(b0, ms0, userId, result);
      AuthorsKept(db.reviews, b0, Balances(db.userPoints));
    }
  }
}
