/**
 * What an add, modify or delete event does to the review table and what it
 * returns. Both engine snapshots (the service that updates the ledger itself
 * and the service whose controller updates it) satisfy these predicates; they
 * differ only in the ledger.
 */
module ReviewEvents {
  import opened Wrappers
  import opened Exceptions
  import opened Dtos
  import opened Entities
  import opened Scoring
  import opened Repositories

  /** The review an ADD request asks to store, before the store assigns id and creation time. */
  function Submitted(p: EventParams): (r: Review)
    ensures r.id.None? && !r.hasFirstReviewPoint
  {
    Review(
      userId := p.userId.GetOr(""),
      placeId := p.placeId.GetOr(""),
      content := p.content.GetOr(""),
      photoIds := PhotoIdsOf(p.attachedPhotoIds))
  }

  /** A review after a MOD request: content and photos replaced (absent content becomes empty), all else kept. */
  function Edited(review: Review, p: EventParams): (r: Review)
    ensures r.userId == review.userId && r.placeId == review.placeId && r.id == review.id
    ensures r.createdAt == review.createdAt && r.hasFirstReviewPoint == review.hasFirstReviewPoint
    ensures p.content.None? ==> r.content == ""
  {
    review.(content := p.content.GetOr(""), photoIds := PhotoIdsOf(p.attachedPhotoIds))
  }

  /** How much a MOD request changes a review's score. */
  function ScoreChange(review: Review, p: EventParams): int {
    CalculatePoint(Edited(review, p)) - CalculatePoint(review)
  }

  /**
   * The store accepts the review an ADD request submits: the (user, place)
   * pair is free and both ids fit their columns.
   */
  predicate Insertable(before: map<string, Review>, p: EventParams) {
    var u, pl := p.userId.GetOr(""), p.placeId.GetOr("");
    !HasUserPlace(before, u, pl) && FitsColumn(u) && FitsColumn(pl)
  }

  /**
   * ADD, from table `before` and clock `clock` to table `after`. When the
   * store refuses the review (see `Insertable`) it fails with DuplicateReview
   * and the table is unchanged. Otherwise the submitted review is stored
   * under a new id with the current creation time, and it carries the
   * first-review bonus exactly when it is the place's earliest review, which
   * is when no other review of the place exists. The result names the new
   * review and increases by its score plus the bonus.
   */
  ghost predicate ReviewAdded(before: map<string, Review>, clock: nat, after: map<string, Review>,
                              p: EventParams, r: Result<ReviewEventResult>)
  {
    match r
    case Err(e) =>
      !Insertable(before, p) && e == DuplicateReview && after == before
    case Ok(v) =>
      && Insertable(before, p)
      && v.reviewId.Some?
      && v.reviewId.value !in before
      && var created := Submitted(p).(createdAt := clock,
                                       hasFirstReviewPoint := !PlaceReviewed(before, p.placeId.GetOr("")),
                                       id := v.reviewId);
         && after == before[v.reviewId.value := created]
         && v.increasedPoint == Worth(created)
         && v.decreasedPoint == 0
  }

  /**
   * `getReview` of the ledger service and `getReviewForUpdate` of the
   * service without it: the stored review, or ReviewNotFound. The row lock
   * of the latter is not modelled.
   */
  function FindReview(db: Database, id: string): (r: Result<Review>)
    requires db.Valid()
    reads db
    ensures r.Ok? <==> id in db.reviews
    ensures r.Ok? ==> r.value == db.reviews[id] && r.value.id == Some(id)
    ensures r.Err? ==> r.error == ReviewNotFound
  {
    match db.FindById(id)
    case None => Err(ReviewNotFound)
    case Some(review) => Ok(review)
  }

  /** The review `id` exists and belongs to the request's user. */
  predicate Owned(reviews: map<string, Review>, id: string, p: EventParams) {
    id in reviews && Some(reviews[id].userId) == p.userId
  }

  /** The shared errors of MOD and DELETE: an unknown id, then a user who is not the author. */
  ghost predicate LookupFailures(before: map<string, Review>, after: map<string, Review>, id: string,
                                 p: EventParams, r: Result<ReviewEventResult>)
  {
    && (r.Ok? <==> Owned(before, id, p))
    && (id !in before ==> r == Err(ReviewNotFound))
    && (id in before && Some(before[id].userId) != p.userId ==> r == Err(NotReviewAuthor))
    && (r.Err? ==> after == before)
  }

  /**
   * MOD. After the lookup checks, the review's content and photos are
   * replaced; its bonus flag is kept. The result splits the score difference
   * into an increase or a decrease.
   */
  ghost predicate ReviewModified(before: map<string, Review>, after: map<string, Review>,
                                 p: EventParams, r: Result<ReviewEventResult>)
  {
    var id := p.reviewId.GetOr("");
    && LookupFailures(before, after, id, p, r)
    && (r.Ok? && id in before ==>
          && after == before[id := Edited(before[id], p)]
          && r.value == DiffResult(Some(id), ScoreChange(before[id], p)))
  }

  /**
   * DELETE. After the lookup checks, the review is removed; the result has no
   * review id and decreases by the review's score plus its bonus.
   */
  ghost predicate ReviewDeleted(before: map<string, Review>, after: map<string, Review>,
                                p: EventParams, r: Result<ReviewEventResult>)
  {
    var id := p.reviewId.GetOr("");
    && LookupFailures(before, after, id, p, r)
    && (r.Ok? && id in before ==>
          && after == before - {id}
          && r.value == ReviewEventResult(decreasedPoint := Worth(before[id])))
  }

  /**
   * Why the bonus rule reads as it does: the new review is stamped with the
   * clock, later than every stored review, so the earliest review of its
   * place is the new one exactly when the place had no review before.
   */
  lemma EarliestIsNewIffPlaceUnreviewed(before: map<string, Review>, after: map<string, Review>, clock: nat,
                                         id: string, created: Review, first: Review)
    requires forall k :: k in before ==> before[k].createdAt < clock
    requires id !in before && created.id == Some(id) && created.createdAt == clock
    requires after == before[id := created]
    requires first.id.Some? && first.id.value in after && after[first.id.value] == first
    requires first.placeId == created.placeId
    requires forall k :: k in after && after[k].placeId == created.placeId ==> first.createdAt <= after[k].createdAt
    ensures first.id == created.id <==> !PlaceReviewed(before, created.placeId)
  {
    if PlaceReviewed(before, created.placeId) {
      var k :| k in before && before[k].placeId == created.placeId;
      assert after[k] == before[k];
      assert first.createdAt <= before[k].createdAt < clock;
    }
  }

  /**
   * The steps of an ADD that succeeds establish `ReviewAdded`: the submitted
   * review is inserted under a fresh id, the earliest review of its place is
   * looked up, and the bonus flag is set when that is the new review.
   */
  lemma AddedByInsert(before: map<string, Review>, clock: nat, p: EventParams, id: string, created: Review,
                      inserted: map<string, Review>, first: Review, after: map<string, Review>,
                      r: Result<ReviewEventResult>)
    requires forall k :: k in before ==> before[k].createdAt < clock
    requires Insertable(before, p)
    requires id !in before
    requires created == Submitted(p).(createdAt := clock, id := Some(id))
    requires inserted == before[id := created]
    requires first.id.Some? && first.id.value in inserted && inserted[first.id.value] == first
    requires first.placeId == created.placeId
    requires forall k :: k in inserted && inserted[k].placeId == created.placeId ==> first.createdAt <= inserted[k].createdAt
    requires after == if first.id == created.id then inserted[id := created.(hasFirstReviewPoint := true)] else inserted
    requires r == Ok(ReviewEventResult(reviewId := Some(id),
                                       increasedPoint := CalculatePoint(created) + (if first.id == created.id then 1 else 0)))
    ensures ReviewAdded(before, clock, after, p, r)
  {
    EarliestIsNewIffPlaceUnreviewed(before, inserted, clock, id, created, first);
    var stored := created.(hasFirstReviewPoint := !PlaceReviewed(before, p.placeId.GetOr("")));
    assert after == before[id := stored];
    assert CalculatePoint(stored) == CalculatePoint(created);
  }

  /**
   * The first-review bonus is held only by the earliest review of its place:
   * created strictly before every other review of the same place.
   */
  ghost predicate BonusIsEarliest(reviews: map<string, Review>) {
    forall a, b ::
      a in reviews && b in reviews && a != b && reviews[a].hasFirstReviewPoint && reviews[a].placeId == reviews[b].placeId
      ==> reviews[a].createdAt < reviews[b].createdAt
  }

  /** Hence a place has at most one bonus holder. */
  lemma OneBonusPerPlace(reviews: map<string, Review>, a: string, b: string)
    requires BonusIsEarliest(reviews)
    requires a in reviews && b in reviews && reviews[a].placeId == reviews[b].placeId
    requires reviews[a].hasFirstReviewPoint && reviews[b].hasFirstReviewPoint
    ensures a == b
  {
  }

  /**
   * An ADD keeps the bonus with the earliest review: the new review is later
   * than every stored one, and it gets the bonus only when its place had none.
   */
  lemma AddKeepsBonusEarliest(before: map<string, Review>, clock: nat, after: map<string, Review>,
                              p: EventParams, r: Result<ReviewEventResult>)
    requires forall k :: k in before ==> before[k].createdAt < clock
    requires BonusIsEarliest(before)
    requires ReviewAdded(before, clock, after, p, r)
    ensures BonusIsEarliest(after)
  {
    if r.Ok? {
      var id := r.value.reviewId.value;
      forall a, b | a in after && b in after && a != b && after[a].hasFirstReviewPoint && after[a].placeId == after[b].placeId
        ensures after[a].createdAt < after[b].createdAt
      {
        if a == id {
          // Then the place had no review before, so there is no such `b`.
          assert false;
        } else if b == id {
          assert after[a] == before[a];
        } else {
          assert after[a] == before[a] && after[b] == before[b];
        }
      }
    }
  }

  /** A MOD keeps every review's place, creation time and bonus flag, so the bonus stays with the earliest. */
  lemma ModifyKeepsBonusEarliest(before: map<string, Review>, after: map<string, Review>,
                                 p: EventParams, r: Result<ReviewEventResult>)
    requires BonusIsEarliest(before)
    requires ReviewModified(before, after, p, r)
    ensures BonusIsEarliest(after)
  {
    var id := p.reviewId.GetOr("");
    if r.Ok? {
      forall a, b | a in after && b in after && a != b && after[a].hasFirstReviewPoint && after[a].placeId == after[b].placeId
        ensures after[a].createdAt < after[b].createdAt
      {
        assert before[a].createdAt == after[a].createdAt && before[b].createdAt == after[b].createdAt;
      }
    }
  }

  /**
   * A DELETE only removes a review. The bonus is not handed on: when the
   * holder is deleted, the place's next review stays without it.
   */
  lemma DeleteKeepsBonusEarliest(before: map<string, Review>, after: map<string, Review>,
                                 p: EventParams, r: Result<ReviewEventResult>)
    requires BonusIsEarliest(before)
    requires ReviewDeleted(before, after, p, r)
    ensures BonusIsEarliest(after)
  {
    if r.Ok? {
      forall a, b | a in after && b in after && a != b && after[a].hasFirstReviewPoint && after[a].placeId == after[b].placeId
        ensures after[a].createdAt < after[b].createdAt
      {
        assert after[a] == before[a] && after[b] == before[b];
      }
    }
  }
}
