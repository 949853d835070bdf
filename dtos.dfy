/**
 * The event request of the mileage service and its validation, and the
 * result an event returns.
 */
module Dtos {
  import opened Wrappers
  import opened Exceptions

  datatype EventAction = ADD | MOD | DELETE {
    /** The enum constant's `name`, which requests carry as a string. */
    function Name(): string {
      match this
      case ADD => "ADD"
      case MOD => "MOD"
      case DELETE => "DELETE"
    }
  }

  /**
   * An event request; every field may be absent. `eventType` is the JSON
   * field `type`. The photo list defaults to the empty list, not to null.
   */
  datatype EventParams = EventParams(
    eventType: Option<string> := None,
    action: Option<string> := None,
    reviewId: Option<string> := None,
    userId: Option<string> := None,
    placeId: Option<string> := None,
    content: Option<string> := None,
    attachedPhotoIds: Option<seq<string>> := Some([]))

  /**
   * What a request must satisfy to pass validation, stated per action:
   * an action and a user always; for ADD a place and non-empty content; for
   * MOD a review and content that is absent or non-empty; for DELETE a
   * review. Any other action needs nothing more.
   */
  ghost predicate WellFormed(p: EventParams) {
    && p.action.Some?
    && p.userId.Some?
    && (p.action == Some(ADD.Name()) ==> p.placeId.Some? && p.content.Some? && p.content.value != "")
    && (p.action == Some(MOD.Name()) ==> p.reviewId.Some? && p.content != Some(""))
    && (p.action == Some(DELETE.Name()) ==> p.reviewId.Some?)
  }

  /** `EventParams.validateForReview`: the guards in their order; a failure is the first guard that trips. */
  function ValidateForReview(p: EventParams): (r: Outcome)
    ensures r.Pass? <==> WellFormed(p)
    ensures r.Fail? ==> r.error.ParamMissing? || r.error.InvalidParam?
  {
    if p.action.None? then Fail(ParamMissing("action must be provided"))
    else if p.userId.None? then Fail(ParamMissing("userId must be provided"))
    else if p.action.value == ADD.Name() then
      if p.placeId.None? then Fail(ParamMissing("placeId must be provided"))
      else if p.content.None? then Fail(ParamMissing("content must be provided"))
      else if p.content.value == "" then Fail(InvalidParam("content must not be empty"))
      else Pass
    else if p.action.value == MOD.Name() then
      if p.reviewId.None? then Fail(ParamMissing("reviewId must be provided"))
      else if p.content == Some("") then Fail(InvalidParam("content must not be empty"))
      else Pass
    else if p.action.value == DELETE.Name() then
      if p.reviewId.None? then Fail(ParamMissing("reviewId must be provided"))
      else Pass
    else Pass
  }

  /** The action is checked first, the user second, whatever else the request holds. */
  lemma ActionThenUserChecked(p: EventParams)
    ensures p.action.None? ==> ValidateForReview(p) == Fail(ParamMissing("action must be provided"))
    ensures p.action.Some? && p.userId.None? ==> ValidateForReview(p) == Fail(ParamMissing("userId must be provided"))
  {
  }

  /** ADD: a missing place, then missing content, are missing fields; empty content is an invalid value. */
  lemma AddChecks(p: EventParams)
    requires p.action == Some(ADD.Name()) && p.userId.Some?
    ensures p.placeId.None? ==> ValidateForReview(p) == Fail(ParamMissing("placeId must be provided"))
    ensures p.placeId.Some? && p.content.None? ==> ValidateForReview(p) == Fail(ParamMissing("content must be provided"))
    ensures p.placeId.Some? && p.content == Some("") ==> ValidateForReview(p) == Fail(InvalidParam("content must not be empty"))
  {
  }

  /** MOD: a missing review is a missing field, empty content is invalid, absent content passes. */
  lemma ModChecks(p: EventParams)
    requires p.action == Some(MOD.Name()) && p.userId.Some?
    ensures p.reviewId.None? ==> ValidateForReview(p) == Fail(ParamMissing("reviewId must be provided"))
    ensures p.reviewId.Some? && p.content == Some("") ==> ValidateForReview(p) == Fail(InvalidParam("content must not be empty"))
    ensures p.reviewId.Some? && p.content.None? ==> ValidateForReview(p) == Pass
  {
  }

  /** DELETE needs only the review, and its content is never looked at. */
  lemma DeleteIgnoresContent(p: EventParams, c: Option<string>)
    requires p.action == Some(DELETE.Name())
    ensures ValidateForReview(p.(content := c)) == ValidateForReview(p)
    ensures p.userId.Some? ==> (ValidateForReview(p).Pass? <==> p.reviewId.Some?)
  {
  }

  /** An action other than ADD, MOD and DELETE passes once the action and the user are present. */
  lemma UnknownActionPasses(p: EventParams)
    requires p.action.Some? && p.userId.Some?
    requires p.action.value !in {ADD.Name(), MOD.Name(), DELETE.Name()}
    ensures ValidateForReview(p) == Pass
  {
  }

  /** The valid requests of the validation tests. */
  lemma ValidExamplesPass()
    ensures ValidateForReview(EventParams(action := Some("ADD"), userId := Some("foo"), placeId := Some("bar"), content := Some("hello"))) == Pass
    ensures ValidateForReview(EventParams(action := Some("MOD"), userId := Some("foo"), reviewId := Some("bar"), content := Some("hello"))) == Pass
    ensures ValidateForReview(EventParams(action := Some("DELETE"), userId := Some("foo"), reviewId := Some("bar"))) == Pass
  {
  }

  /** The result of an event; by default no review and no points either way. */
  datatype ReviewEventResult = ReviewEventResult(
    reviewId: Option<string> := None,
    increasedPoint: int := 0,
    decreasedPoint: int := 0)
  {
    /** The signed change the result reports. */
    function Delta(): int {
      increasedPoint - decreasedPoint
    }
  }

  /** A result built with no arguments names no review and moves no points. */
  lemma DefaultResultIsEmpty()
    ensures ReviewEventResult() == ReviewEventResult(None, 0, 0)
    ensures ReviewEventResult().Delta() == 0
  {
  }

  /**
   * The result of a modification whose score changed by `diff`: the change
   * goes to exactly one side, as a non-negative amount.
   */
  function DiffResult(reviewId: Option<string>, diff: int): (r: ReviewEventResult)
    ensures r.reviewId == reviewId
    ensures r.increasedPoint - r.decreasedPoint == diff
    ensures r.increasedPoint >= 0 && r.decreasedPoint >= 0
    ensures r.increasedPoint == 0 || r.decreasedPoint == 0
  {
    ReviewEventResult(
      reviewId := reviewId,
      increasedPoint := if diff > 0 then diff else 0,
      decreasedPoint := if diff < 0 then -diff else 0)
  }
}
