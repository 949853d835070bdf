/**
 * Worked examples of the mileage service: a sequence of review events on an
 * empty store through the event controller, and an add through the service
 * that updates the ledger itself on a store with a seeded point row.
 */
module Scenarios {
  import opened Wrappers
  import opened Exceptions
  import opened Dtos
  import opened Entities
  import opened Scoring
  import opened Repositories
  import opened ReviewEvents
  import opened Services
  import opened Controllers
  import LedgerReviewService

  /** A "REVIEW" event with the given action and user and no other field. */
  function ReviewEvent(action: string, userId: string): (p: EventParams)
    ensures p.eventType == Some("REVIEW") && p.action == Some(action) && p.userId == Some(userId)
    ensures p.reviewId.None? && p.placeId.None? && p.content.None? && p.attachedPhotoIds == Some([])
  {
    EventParams(eventType := Some("REVIEW"), action := Some(action), userId := Some(userId))
  }

  /**
   * On an empty store: foo reviews place bar with text (the text point and
   * the first-review bonus), baz reviews the same place (the text point
   * only), foo adds a photo (one more point), and foo deletes the review
   * (all three points back), after which the review is gone.
   */
  method AddModifyDelete() returns (added: Result<ReviewEventResult>, second: Result<ReviewEventResult>,
                                    modified: Result<ReviewEventResult>, deleted: Result<ReviewEventResult>,
                                    points: seq<int>, lookup: Result<Review>)
    ensures added.Ok? && added.value.increasedPoint == 2 && added.value.decreasedPoint == 0
    ensures second.Ok? && second.value.increasedPoint == 1 && second.value.decreasedPoint == 0
    ensures modified.Ok? && modified.value.increasedPoint == 1 && modified.value.decreasedPoint == 0
    ensures deleted.Ok? && deleted.value.increasedPoint == 0 && deleted.value.decreasedPoint == 3
    ensures points == [2, 1, 3, 0]
    ensures lookup == Err(ReviewNotFound)
  {
    var db := new Database();
    var id;
    added, id := FooReviewsBar(db);
    var foo1 := GetUserPoint(db, "foo");
    second := BazReviewsBar(db, id);
    var baz2 := GetUserPoint(db, "baz");
    modified := FooAddsPhoto(db, id);
    var foo3 := GetUserPoint(db, "foo");
    deleted := FooDeletes(db, id);
    var foo4 := GetUserPoint(db, "foo");
    points := [foo1, baz2, foo3, foo4];
    lookup := FindReview(db, id);
  }

  /** The first review of place bar: text point and bonus. */
  method FooReviewsBar(db: Database) returns (r: Result<ReviewEventResult>, id: string)
    requires db.Valid() && db.reviews == map[] && db.userPoints == map[]
    modifies db
    ensures db.Valid()
    ensures r == Ok(ReviewEventResult(Some(id), 2, 0))
    ensures db.reviews.Keys == {id}
    ensures var review := db.reviews[id];
            review.userId == "foo" && review.placeId == "bar" && review.content == "hello" && review.photoIds == ""
            && review.hasFirstReviewPoint
    ensures Balances(db.userPoints) == map["foo" := 2]
  {
    var p := ReviewEvent("ADD", "foo").(placeId := Some("bar"), content := Some("hello"));
    ghost var before, clock, b, ms := db.reviews, db.clock, Balances(db.userPoints), Movements(db.histories);
    r := HandleEvent(db, p);
    FirstReviewOfPlace(before, clock, b, ms, db.reviews, Balances(db.userPoints), Movements(db.histories), p, r);
    id := r.value.reviewId.value;
  }

  lemma FirstReviewOfPlace(before: map<string, Review>, clock: nat, b: map<string, int>, ms: seq<Movement>,
                           after: map<string, Review>, b': map<string, int>, ms': seq<Movement>,
                           p: EventParams, r: Result<ReviewEventResult>)
    requires p == ReviewEvent("ADD", "foo").(placeId := Some("bar"), content := Some("hello"))
    requires before == map[] && b == map[]
    requires ReviewEventHandled(before, clock, b, ms, after, b', ms', p, r)
    ensures r.Ok? && r.value.reviewId.Some?
    ensures var id := r.value.reviewId.value;
            && r.value == ReviewEventResult(Some(id), 2, 0)
            && after.Keys == {id}
            && var review := after[id];
               review.userId == "foo" && review.placeId == "bar" && review.content == "hello" && review.photoIds == ""
               && review.hasFirstReviewPoint
    ensures b' == map["foo" := 2]
  {
    assert ValidateForReview(p) == Pass && Dispatched(p);
    assert !HasUserPlace(before, "foo", "bar") && !PlaceReviewed(before, "bar");
    assert Opened(b, "foo") == map["foo" := 0];
    assert CalculatePoint(after[r.value.reviewId.value]) == 1;
  }

  /** A second review of place bar, by baz: the text point only, and foo's review untouched. */
  method BazReviewsBar(db: Database, id: string) returns (r: Result<ReviewEventResult>)
    requires db.Valid() && db.reviews.Keys == {id}
    requires db.reviews[id].userId == "foo" && db.reviews[id].placeId == "bar"
    requires Balances(db.userPoints) == map["foo" := 2]
    modifies db
    ensures db.Valid()
    ensures r.Ok? && r.value.increasedPoint == 1 && r.value.decreasedPoint == 0
    ensures id in db.reviews && db.reviews[id] == old(db.reviews[id])
    ensures Balances(db.userPoints) == map["foo" := 2, "baz" := 1]
  {
    var p := ReviewEvent("ADD", "baz").(placeId := Some("bar"), content := Some("hello"));
    ghost var before, clock, b, ms := db.reviews, db.clock, Balances(db.userPoints), Movements(db.histories);
    r := HandleEvent(db, p);
    LaterReviewOfPlace(before, clock, b, ms, db.reviews, Balances(db.userPoints), Movements(db.histories), p, r, id);
  }

  lemma LaterReviewOfPlace(before: map<string, Review>, clock: nat, b: map<string, int>, ms: seq<Movement>,
                           after: map<string, Review>, b': map<string, int>, ms': seq<Movement>,
                           p: EventParams, r: Result<ReviewEventResult>, id: string)
    requires p == ReviewEvent("ADD", "baz").(placeId := Some("bar"), content := Some("hello"))
    requires before.Keys == {id} && before[id].userId == "foo" && before[id].placeId == "bar"
    requires b == map["foo" := 2]
    requires ReviewEventHandled(before, clock, b, ms, after, b', ms', p, r)
    ensures r.Ok? && r.value.increasedPoint == 1 && r.value.decreasedPoint == 0
    ensures id in after && after[id] == before[id]
    ensures b' == map["foo" := 2, "baz" := 1]
  {
    assert ValidateForReview(p) == Pass && Dispatched(p);
    assert !HasUserPlace(before, "baz", "bar") && PlaceReviewed(before, "bar");
    assert Opened(b, "baz") == map["foo" := 2, "baz" := 0];
    assert CalculatePoint(after[r.value.reviewId.value]) == 1;
  }

  /** foo attaches a photo to the review: one more point. */
  method FooAddsPhoto(db: Database, id: string) returns (r: Result<ReviewEventResult>)
    requires db.Valid() && id in db.reviews
    requires var review := db.reviews[id];
             review.userId == "foo" && review.content == "hello" && review.photoIds == "" && review.hasFirstReviewPoint
    requires Balances(db.userPoints) == map["foo" := 2, "baz" := 1]
    modifies db
    ensures db.Valid()
    ensures r == Ok(ReviewEventResult(Some(id), 1, 0))
    ensures id in db.reviews
    ensures var review := db.reviews[id];
            review.userId == "foo" && CalculatePoint(review) == 2 && review.hasFirstReviewPoint
    ensures Balances(db.userPoints) == map["foo" := 3, "baz" := 1]
  {
    var p := ReviewEvent("MOD", "foo").(reviewId := Some(id), content := Some("hello"), attachedPhotoIds := Some(["p1"]));
    ghost var before, clock, b, ms := db.reviews, db.clock, Balances(db.userPoints), Movements(db.histories);
    r := HandleEvent(db, p);
    PhotoAttached(before, clock, b, ms, db.reviews, Balances(db.userPoints), Movements(db.histories), p, r, id);
  }

  lemma PhotoAttached(before: map<string, Review>, clock: nat, b: map<string, int>, ms: seq<Movement>,
                      after: map<string, Review>, b': map<string, int>, ms': seq<Movement>,
                      p: EventParams, r: Result<ReviewEventResult>, id: string)
    requires p == ReviewEvent("MOD", "foo").(reviewId := Some(id), content := Some("hello"), attachedPhotoIds := Some(["p1"]))
    requires id in before
    requires var review := before[id];
             review.userId == "foo" && review.content == "hello" && review.photoIds == "" && review.hasFirstReviewPoint
    requires b == map["foo" := 2, "baz" := 1]
    requires ReviewEventHandled(before, clock, b, ms, after, b', ms', p, r)
    ensures r == Ok(ReviewEventResult(Some(id), 1, 0))
    ensures id in after
    ensures var review := after[id];
            review.userId == "foo" && CalculatePoint(review) == 2 && review.hasFirstReviewPoint
    ensures b' == map["foo" := 3, "baz" := 1]
  {
    assert ValidateForReview(p) == Pass && Dispatched(p);
    assert Owned(before, id, p);
    assert ScoreChange(before[id], p) == 1;
  }

  /** foo deletes the review: its two points and the bonus are taken back. */
  method FooDeletes(db: Database, id: string) returns (r: Result<ReviewEventResult>)
    requires db.Valid() && id in db.reviews
    requires var review := db.reviews[id];
             review.userId == "foo" && CalculatePoint(review) == 2 && review.hasFirstReviewPoint
    requires Balances(db.userPoints) == map["foo" := 3, "baz" := 1]
    modifies db
    ensures db.Valid()
    ensures r == Ok(ReviewEventResult(decreasedPoint := 3))
    ensures id !in db.reviews
    ensures Balances(db.userPoints) == map["foo" := 0, "baz" := 1]
  {
    var p := ReviewEvent("DELETE", "foo").(reviewId := Some(id));
    ghost var before, clock, b, ms := db.reviews, db.clock, Balances(db.userPoints), Movements(db.histories);
    r := HandleEvent(db, p);
    ReviewRemoved(before, clock, b, ms, db.reviews, Balances(db.userPoints), Movements(db.histories), p, r, id);
  }

  lemma ReviewRemoved(before: map<string, Review>, clock: nat, b: map<string, int>, ms: seq<Movement>,
                      after: map<string, Review>, b': map<string, int>, ms': seq<Movement>,
                      p: EventParams, r: Result<ReviewEventResult>, id: string)
    requires p == ReviewEvent("DELETE", "foo").(reviewId := Some(id))
    requires id in before
    requires var review := before[id];
             review.userId == "foo" && CalculatePoint(review) == 2 && review.hasFirstReviewPoint
    requires b == map["foo" := 3, "baz" := 1]
    requires ReviewEventHandled(before, clock, b, ms, after, b', ms', p, r)
    ensures r == Ok(ReviewEventResult(decreasedPoint := 3))
    ensures id !in after
    ensures b' == map["foo" := 0, "baz" := 1]
  {
    assert ValidateForReview(p) == Pass && Dispatched(p);
    assert Owned(before, id, p) && Worth(before[id]) == 3;
  }

  /** An add with empty text fails validation and stores nothing. */
  method EmptyContentRejected() returns (r: Result<ReviewEventResult>, reviews: map<string, Review>, point: int)
    ensures r == Err(InvalidParam("content must not be empty"))
    ensures reviews == map[] && point == 0
  {
    var db := new Database();
    r := HandleEvent(db, ReviewEvent("ADD", "foo").(placeId := Some("bar"), content := Some("")));
    reviews := db.reviews;
    point := GetUserPoint(db, "foo");
  }

  /**
   * An add by a user whose id is longer than the 255 characters the column
   * holds: the insert fails, which the service reports as a duplicate, and
   * neither a review nor a point row is stored.
   */
  method OverlongUserRejected() returns (r: Result<ReviewEventResult>, reviews: map<string, Review>,
                                         balances: map<string, int>)
    ensures r == Err(DuplicateReview)
    ensures reviews == map[] && balances == map[]
  {
    var db := new Database();
    var p := ReviewEvent("ADD", seq(256, _ => 'u')).(placeId := Some("bar"), content := Some("hello"));
    r := HandleEvent(db, p);
    OverlongAddFails(map[], 0, map[], [], db.reviews, Balances(db.userPoints), Movements(db.histories), p, r);
    reviews, balances := db.reviews, Balances(db.userPoints);
  }

  lemma OverlongAddFails(before: map<string, Review>, clock: nat, b: map<string, int>, ms: seq<Movement>,
                         after: map<string, Review>, b': map<string, int>, ms': seq<Movement>,
                         p: EventParams, r: Result<ReviewEventResult>)
    requires p == ReviewEvent("ADD", seq(256, _ => 'u')).(placeId := Some("bar"), content := Some("hello"))
    requires before == map[] && b == map[]
    requires ReviewEventHandled(before, clock, b, ms, after, b', ms', p, r)
    ensures r == Err(DuplicateReview)
    ensures after == map[] && b' == map[] && ms' == ms
  {
    assert ValidateForReview(p) == Pass && Dispatched(p);
    assert !FitsColumn(p.userId.value);
  }

  /**
   * The service that updates the ledger itself: foo already holds 10
   * points; the first review of place bar earns the text point and the
   * bonus, so foo ends with 12.
   */
  method SeededAdd() returns (r: Result<ReviewEventResult>, bonus: bool, point: int)
    ensures r.Ok? && r.value.increasedPoint == 2
    ensures bonus
    ensures point == 12
  {
    var db := new Database();
    var row := db.SaveUserPoint(UserPoint("foo", point := 10));
    var p := EventParams(userId := Some("foo"), placeId := Some("bar"), content := Some("hello"));
    ghost var reviews0 := db.reviews;
    r := LedgerReviewService.AddReview(db, p);
    assert !HasUserPlace(reviews0, "foo", "bar") && !PlaceReviewed(reviews0, "bar");
    var id := r.value.reviewId.value;
    assert CalculatePoint(db.reviews[id]) == 1;
    bonus := db.reviews[id].hasFirstReviewPoint;
    point := GetUserPoint(db, "foo");
  }
}
