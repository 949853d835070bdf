/**
 * Engine snapshot A: the review service that updates the ledger itself.
 * Each event changes the review table, moves the author's balance and
 * appends history rows in one sequential step.
 */
module LedgerReviewService {
  import opened Wrappers
  import opened Exceptions
  import opened Dtos
  import opened Entities
  import opened Scoring
  import opened Repositories
  import opened ReviewEvents
  import opened Ledger

  /**
   * `getOrCreateUserPoint`: try to insert a row at 0; when the store
   * refuses it, read the user's row instead. The user has a row afterwards
   * unless the id is too long for the column, and existing rows are
   * untouched.
   */
  method GetOrCreateUserPoint(db: Database, userId: string) returns (row: Option<UserPoint>)
    requires db.Valid()
    modifies db
    ensures db.Valid()
    ensures Balances(db.userPoints) == Opened(Balances(old(db.userPoints)), userId)
    ensures forall v :: v in old(db.userPoints) ==> db.userPoints[v] == old(db.userPoints)[v]
    ensures row.Some? <==> userId in db.userPoints
    ensures row.Some? ==> row.value == db.userPoints[userId]
    ensures db.reviews == old(db.reviews) && db.histories == old(db.histories) && db.clock == old(db.clock)
    ensures old(db.Balanced()) ==> db.Balanced()
  {
    row := db.SaveUserPoint(UserPoint(userId));
    if row.None? {
      row := FindByUserId(db.userPoints, userId);
    }
    if old(db.Balanced()) {
      BalancedAfterOpen(Balances(old(db.userPoints)), Movements(db.histories), userId);
    }
  }

  /**
   * The middle of `addReview`, once the review is stored as `created` in
   * the table `before` seen at clock `clock`: the score, the first-review
   * bonus decided by the place's earliest review, and the author's point row.
   */
  method ScoreSaved(db: Database, params: EventParams, created: Review,
                    ghost before: map<string, Review>, ghost clock: nat) returns (point: int)
    requires db.Valid()
    requires forall k :: k in before ==> before[k].createdAt < clock
    requires Insertable(before, params)
    requires created.id.Some? && created.id.value !in before
    requires created == Submitted(params).(createdAt := clock, id := created.id)
    requires db.reviews == before[created.id.value := created]
    modifies db
    ensures db.Valid()
    ensures ReviewAdded(before, clock, db.reviews, params, Ok(ReviewEventResult(reviewId := created.id, increasedPoint := point)))
    ensures db.reviews == before[created.id.value := db.reviews[created.id.value]]
    ensures db.reviews[created.id.value].userId == params.userId.GetOr("")
    ensures Balances(db.userPoints) == Opened(Balances(old(db.userPoints)), params.userId.GetOr(""))
    ensures db.histories == old(db.histories)
  {
    var review := created;
    ghost var afterInsert := db.reviews;

    point := CalculatePoint(review);
    var firstReview := db.FindFirstByPlaceIdOrderByCreatedAtAsc(params.placeId.GetOr(""));
    var ignored := GetOrCreateUserPoint(db, params.userId.GetOr(""));

    if firstReview.value.id == review.id {
      point := point + 1;
      review := review.(hasFirstReviewPoint := true);
      db.UpdateReview(review);
    }
    AddedByInsert(before, clock, params, created.id.value, created, afterInsert, firstReview.value, db.reviews,
                  Ok(ReviewEventResult(reviewId := review.id, increasedPoint := point)));
  }

  /**
   * `addReview` once the review is stored as `created`: the score and bonus,
   * then the credit with its history row.
   */
  method AddSaved(db: Database, params: EventParams, created: Review,
                  ghost before: map<string, Review>, ghost clock: nat) returns (r: Result<ReviewEventResult>)
    requires db.Valid()
    requires forall k :: k in before ==> before[k].createdAt < clock
    requires Insertable(before, params)
    requires created.id.Some? && created.id.value !in before
    requires created == Submitted(params).(createdAt := clock, id := created.id)
    requires db.reviews == before[created.id.value := created]
    modifies db
    ensures db.Valid()
    ensures ReviewAdded(before, clock, db.reviews, params, r)
    ensures r.Ok?
    ensures Balances(db.userPoints) ==
              Shift(Opened(Balances(old(db.userPoints)), params.userId.GetOr("")), params.userId.GetOr(""), r.value.increasedPoint)
    ensures Movements(db.histories) == Movements(old(db.histories)) + [Movement(params.userId.GetOr(""), r.value.increasedPoint, 0)]
    ensures LedgerBalanced(before, Balances(old(db.userPoints)), Movements(old(db.histories))) ==> db.Balanced()
  {
    var userId := params.userId.GetOr("");
    var point := ScoreSaved(db, params, created, before, clock);
    r := Ok(ReviewEventResult(reviewId := created.id, increasedPoint := point));
    ghost var stored := db.reviews[created.id.value];

    Credit(db, userId, point);

    if LedgerBalanced(before, Balances(old(db.userPoints)), Movements(old(db.histories))) {
      BalancedAfterOpen(Balances(old(db.userPoints)), Movements(old(db.histories)), userId);
      AuthorsAfterPut(before, Balances(old(db.userPoints)), Balances(db.userPoints), created.id.value, stored);
    }
  }

  /**
   * `addReview`. Besides the review-table effect, the author's row is
   * ensured and moved up by the increase, and one history row records it,
   * even when the increase is 0.
   */
  method AddReview(db: Database, params: EventParams) returns (r: Result<ReviewEventResult>)
    requires db.Valid()
    modifies db
    ensures db.Valid()
    ensures ReviewAdded(old(db.reviews), old(db.clock), db.reviews, params, r)
    ensures r.Err? ==> db.userPoints == old(db.userPoints) && db.histories == old(db.histories)
    ensures r.Ok? ==>
              && Balances(db.userPoints) ==
                   Shift(Opened(Balances(old(db.userPoints)), params.userId.GetOr("")), params.userId.GetOr(""), r.value.increasedPoint)
              && Movements(db.histories) == Movements(old(db.histories)) + [Movement(params.userId.GetOr(""), r.value.increasedPoint, 0)]
    ensures old(db.Balanced()) ==> db.Balanced()
    ensures BonusIsEarliest(old(db.reviews)) ==> BonusIsEarliest(db.reviews)
  {
    var saved := db.SaveReview(Review(
      userId := params.userId.GetOr(""),
      placeId := params.placeId.GetOr(""),
      content := params.content.GetOr(""),
      photoIds := PhotoIdsOf(params.attachedPhotoIds)));
    if saved.None? {
      return Err(DuplicateReview);
    }
    r := AddSaved(db, params, saved.value, old(db.reviews), old(db.clock));
    if BonusIsEarliest(old(db.reviews)) {
      AddKeepsBonusEarliest(old(db.reviews), old(db.clock), db.reviews, params, r);
    }
  }

  /**
   * The locked block of `modifyReview`: re-read the review (the same one
   * that was just found), keep its score, and store it with the new content
   * and photos.
   */
  method EditLocked(db: Database, id: string, params: EventParams, photoIds: string) returns (review: Review, oldPoint: int)
    requires db.Valid() && id in db.reviews
    requires photoIds == PhotoIdsOf(params.attachedPhotoIds)
    modifies db
    ensures db.Valid()
    ensures review == Edited(old(db.reviews)[id], params) && review.id == Some(id)
    ensures oldPoint == CalculatePoint(old(db.reviews)[id])
    ensures db.reviews == old(db.reviews)[id := review]
    ensures db.userPoints == old(db.userPoints) && db.histories == old(db.histories)
  {
    review := db.FindById(id).value;
    oldPoint := CalculatePoint(review);
    review := review.(content := params.content.GetOr(""), photoIds := photoIds);
    db.UpdateReview(review);
  }

  /** The locked block of `deleteReview`: re-read the review, total its score and bonus, and delete it. */
  method DeleteLocked(db: Database, id: string) returns (point: int)
    requires db.Valid() && id in db.reviews
    modifies db
    ensures db.Valid()
    ensures point == Worth(old(db.reviews)[id])
    ensures db.reviews == old(db.reviews) - {id}
    ensures db.userPoints == old(db.userPoints) && db.histories == old(db.histories)
  {
    var review := db.FindById(id).value;
    point := CalculatePoint(review);
    point := point + (if review.hasFirstReviewPoint then 1 else 0);
    db.DeleteReview(review.id.value);
  }

  /**
   * The ledger step of `modifyReview` and its result: a positive difference
   * is credited, a negative one debited, each with its history row; no
   * difference changes nothing.
   */
  method RecordDiff(db: Database, userId: string, reviewId: Option<string>, diff: int) returns (result: ReviewEventResult)
    requires db.Valid()
    modifies db
    ensures db.Valid()
    ensures db.reviews == old(db.reviews)
    ensures result == DiffResult(reviewId, diff)
    ensures Balances(db.userPoints) == Shift(Balances(old(db.userPoints)), userId, diff)
    ensures diff == 0 ==> unchanged(db)
    ensures Movements(db.histories) ==
              if diff == 0 then Movements(old(db.histories))
              else Movements(old(db.histories)) + [Movement(userId, result.increasedPoint, result.decreasedPoint)]
    ensures HistoryBalanced(Balances(old(db.userPoints)), Movements(old(db.histories))) && userId in old(db.userPoints) ==>
              HistoryBalanced(Balances(db.userPoints), Movements(db.histories))
  {
    if diff > 0 {
      Credit(db, userId, diff);
    } else if diff < 0 {
      Debit(db, userId, -diff);
    } else {
      ShiftTwice(Balances(db.userPoints), userId, 0, 0);
    }
    result := DiffResult(reviewId, diff);
  }

  /**
   * `modifyReview` once the review is found and owned: the locked edit, the
   * score difference, and its ledger step.
   */
  method ModifyOwned(db: Database, params: EventParams, id: string, userId: string) returns (r: Result<ReviewEventResult>)
    requires db.Valid() && id in db.reviews && db.reviews[id].userId == userId
    modifies db
    ensures db.Valid()
    ensures db.reviews == old(db.reviews)[id := Edited(old(db.reviews)[id], params)]
    ensures r == Ok(DiffResult(Some(id), ScoreChange(old(db.reviews)[id], params)))
    ensures Balances(db.userPoints) == Shift(Balances(old(db.userPoints)), userId, r.value.Delta())
    ensures r.value.Delta() == 0 ==> db.userPoints == old(db.userPoints)
    ensures Movements(db.histories) ==
              if r.value.Delta() == 0 then Movements(old(db.histories))
              else Movements(old(db.histories)) + [Movement(userId, r.value.increasedPoint, r.value.decreasedPoint)]
    ensures old(db.Balanced()) ==> db.Balanced()
  {
    var photoIds := PhotoIdsOf(params.attachedPhotoIds);
    var review, oldPoint := EditLocked(db, id, params, photoIds);
    var newPoint := CalculatePoint(review);
    var diff := newPoint - oldPoint;
    assert diff == ScoreChange(old(db.reviews)[id], params);
    ghost var b0 := Balances(db.userPoints);
    var result := RecordDiff(db, userId, review.id, diff);
    assert result.Delta() == diff;
    r := Ok(result);
    if old(db.Balanced()) {
      AuthorsAfterPut(old(db.reviews), b0, Balances(db.userPoints), id, review);
    }
  }

  /**
   * `modifyReview`. When the score changes, the author's balance moves by
   * the difference and one history row records it; when it does not, the
   * ledger is untouched.
   */
  method ModifyReview(db: Database, params: EventParams) returns (r: Result<ReviewEventResult>)
    requires db.Valid()
    modifies db
    ensures db.Valid()
    ensures ReviewModified(old(db.reviews), db.reviews, params, r)
    ensures r.Err? ==> db.userPoints == old(db.userPoints) && db.histories == old(db.histories)
    ensures r.Ok? ==>
              && Balances(db.userPoints) ==
                   Shift(Balances(old(db.userPoints)), params.userId.GetOr(""), r.value.Delta())
              && (r.value.Delta() == 0 ==> db.userPoints == old(db.userPoints))
              && Movements(db.histories) ==
                   if r.value.Delta() == 0 then Movements(old(db.histories))
                   else Movements(old(db.histories)) + [Movement(params.userId.GetOr(""), r.value.increasedPoint, r.value.decreasedPoint)]
    ensures old(db.Balanced()) ==> db.Balanced()
    ensures BonusIsEarliest(old(db.reviews)) ==> BonusIsEarliest(db.reviews)
  {
    var found := FindReview(db, params.reviewId.GetOr(""));
    if found.Err? {
      return Err(found.error);
    }
    var review := found.value;
    if Some(review.userId) != params.userId {
      return Err(NotReviewAuthor);
    }
    r := ModifyOwned(db, params, review.id.value, params.userId.value);
    if BonusIsEarliest(old(db.reviews)) {
      ModifyKeepsBonusEarliest(old(db.reviews), db.reviews, params, r);
    }
  }

  /**
   * `deleteReview` once the review is found and owned: the locked delete and
   * the debit of its score and bonus.
   */
  method DeleteOwned(db: Database, id: string, userId: string) returns (r: Result<ReviewEventResult>)
    requires db.Valid() && id in db.reviews && db.reviews[id].userId == userId
    modifies db
    ensures db.Valid()
    ensures db.reviews == old(db.reviews) - {id}
    ensures r == Ok(ReviewEventResult(decreasedPoint := Worth(old(db.reviews)[id])))
    ensures Balances(db.userPoints) == Shift(Balances(old(db.userPoints)), userId, -r.value.decreasedPoint)
    ensures Movements(db.histories) == Movements(old(db.histories)) + [Movement(userId, 0, r.value.decreasedPoint)]
    ensures old(db.Balanced()) ==> db.Balanced()
  {
    var point := DeleteLocked(db, id);
    r := Ok(ReviewEventResult(decreasedPoint := point));
    Debit(db, userId, point);
    if old(db.Balanced()) {
      AuthorsAfterRemove(old(db.reviews), Balances(old(db.userPoints)), Balances(db.userPoints), id);
    }
  }

  /**
   * `deleteReview`. The author's balance goes down by the review's score
   * plus its bonus, and one history row records it, even when that is 0.
   * The bonus is not passed on to another review of the place.
   */
  method DeleteReview(db: Database, params: EventParams) returns (r: Result<ReviewEventResult>)
    requires db.Valid()
    modifies db
    ensures db.Valid()
    ensures ReviewDeleted(old(db.reviews), db.reviews, params, r)
    ensures r.Err? ==> db.userPoints == old(db.userPoints) && db.histories == old(db.histories)
    ensures r.Ok? ==>
              && Balances(db.userPoints) == Shift(Balances(old(db.userPoints)), params.userId.GetOr(""), -r.value.decreasedPoint)
              && Movements(db.histories) == Movements(old(db.histories)) + [Movement(params.userId.GetOr(""), 0, r.value.decreasedPoint)]
    ensures old(db.Balanced()) ==> db.Balanced()
    ensures BonusIsEarliest(old(db.reviews)) ==> BonusIsEarliest(db.reviews)
  {
    var found := FindReview(db, params.reviewId.GetOr(""));
    if found.Err? {
      return Err(found.error);
    }
    var review := found.value;
    if Some(review.userId) != params.userId {
      return Err(NotReviewAuthor);
    }
    r := DeleteOwned(db, review.id.value, params.userId.value);
    if BonusIsEarliest(old(db.reviews)) {
      DeleteKeepsBonusEarliest(old(db.reviews), db.reviews, params, r);
    }
  }
}
