/**
 * The review score: one point for text and one for photos. Both engine
 * snapshots use the same rule (`calculatePointFromReview`).
 */
module Scoring {
  import opened Wrappers
  import opened Entities

  /** Kotlin's `joinToString(separator)`. */
  function JoinToString(xs: seq<string>, separator: string): string
    decreases |xs|
  {
    if xs == [] then ""
    else if |xs| == 1 then xs[0]
    else xs[0] + separator + JoinToString(xs[1..], separator)
  }

  /** How a request's photo list is stored: `attachedPhotoIds?.joinToString(",") ?: ""`. */
  function PhotoIdsOf(attached: Option<seq<string>>): string {
    match attached
    case None => ""
    case Some(ids) => JoinToString(ids, ",")
  }

  /** A photo list whose stored form is not empty: two or more ids, or one id that is not empty. */
  predicate HasPhotos(attached: Option<seq<string>>) {
    attached.Some? && (|attached.value| >= 2 || (|attached.value| == 1 && attached.value[0] != ""))
  }

  lemma PhotoIdsNonEmpty(attached: Option<seq<string>>)
    ensures PhotoIdsOf(attached) != "" <==> HasPhotos(attached)
  {
    if attached.Some? && |attached.value| >= 2 {
      var ids := attached.value;
      assert |PhotoIdsOf(attached)| >= |ids[0] + ","|;
    }
  }

  /** `calculatePointFromReview`. */
  function CalculatePoint(review: Review): (point: int)
    ensures 0 <= point <= 2
    ensures point == 0 <==> review.content == "" && review.photoIds == ""
    ensures point == 2 <==> review.content != "" && review.photoIds != ""
  {
    var point := if review.content != "" then 1 else 0;
    if review.photoIds != "" then point + 1 else point
  }

  /** The score of a review stored from a request's content and photo list. */
  lemma PointOfSubmission(review: Review, attached: Option<seq<string>>)
    requires review.photoIds == PhotoIdsOf(attached)
    ensures CalculatePoint(review) == (if review.content != "" then 1 else 0) + (if HasPhotos(attached) then 1 else 0)
  {
    PhotoIdsNonEmpty(attached);
  }

  /** What a review has earned its author: its score plus the first-review bonus. */
  function Worth(review: Review): (w: int)
    ensures 0 <= w <= 3
  {
    CalculatePoint(review) + (if review.hasFirstReviewPoint then 1 else 0)
  }
}
