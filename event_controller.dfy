/**
 * The second copy of the event controller. Its dispatch, type check and
 * error mapping are the same text as the controller module's, so they are
 * stated with the same predicates, and the error mapping is proved to agree.
 * The two constant HTML endpoints of this copy are not modelled.
 */
module EventControllerCopy {
  import opened Wrappers
  import opened Exceptions
  import opened Dtos
  import opened Entities
  import opened Repositories
  import opened ReviewEvents
  import opened Services
  import Controllers

  /** `handleReviewEvent`: validate, then dispatch on the action and apply the result to the ledger. */
  method HandleReviewEvent(db: Database, params: EventParams) returns (r: Result<ReviewEventResult>)
    requires db.Valid()
    modifies db
    ensures db.Valid()
    ensures Controllers.ReviewEventHandled(old(db.reviews), old(db.clock), Balances(old(db.userPoints)),
                                           Movements(old(db.histories)), db.reviews, Balances(db.userPoints),
                                           Movements(db.histories), params, r)
    ensures old(db.Balanced()) ==> db.Balanced()
    ensures BonusIsEarliest(old(db.reviews)) ==> BonusIsEarliest(db.reviews)
  {
    var checked := ValidateForReview(params);
    if checked.Fail? {
      return Err(checked.error);
    }
    r := Controllers.DispatchAndApply(db, params);
    if old(db.Balanced()) {
      Controllers.HandledEventKeepsLedgerBalanced(old(db.reviews), old(db.clock), Balances(old(db.userPoints)),
                                                  Movements(old(db.histories)), db.reviews, Balances(db.userPoints),
                                                  Movements(db.histories), params, r);
    }
    if BonusIsEarliest(old(db.reviews)) {
      Controllers.HandledEventKeepsBonusEarliest(old(db.reviews), old(db.clock), Balances(old(db.userPoints)),
                                                 Movements(old(db.histories)), db.reviews, Balances(db.userPoints),
                                                 Movements(db.histories), params, r);
    }
  }

  /** `handleEvent`: a type other than "REVIEW" fails with "invalid type" and changes nothing. */
  method HandleEvent(db: Database, params: EventParams) returns (r: Result<ReviewEventResult>)
    requires db.Valid()
    modifies db
    ensures db.Valid()
    ensures params.eventType != Some("REVIEW") ==>
              && r == Err(InvalidParam("invalid type"))
              && db.reviews == old(db.reviews) && db.userPoints == old(db.userPoints) && db.histories == old(db.histories)
    ensures params.eventType == Some("REVIEW") ==>
              Controllers.ReviewEventHandled(old(db.reviews), old(db.clock), Balances(old(db.userPoints)),
                                             Movements(old(db.histories)), db.reviews, Balances(db.userPoints),
                                             Movements(db.histories), params, r)
    ensures old(db.Balanced()) ==> db.Balanced()
    ensures BonusIsEarliest(old(db.reviews)) ==> BonusIsEarliest(db.reviews)
  {
    if params.eventType == Some("REVIEW") {
      r := HandleReviewEvent(db, params);
    } else {
      r := Err(InvalidParam("invalid type"));
    }
  }

  /** `convertErrorResponse`: the status of each error kind and the message with its fallback. */
  function ConvertErrorResponse(ex: Controllers.Throwable): (reply: Controllers.ErrorReply)
    ensures reply.status == 500 <==> ex.Unclassified?
    ensures reply.status == 400 <==> ex.Raised? && (ex.error.InvalidParam? || ex.error.ParamMissing?)
    ensures ex.Raised? && ex.error.NotReviewAuthor? ==> reply.status == 403
    ensures ex.Raised? && ex.error.ReviewNotFound? ==> reply.status == 404
    ensures ex.Raised? && ex.error.DuplicateReview? ==> reply.status == 409
    ensures ex.Raised? ==> reply.message == ex.error.Message()
    ensures ex.Unclassified? ==> reply.message == ex.message.GetOr("Internal server error")
  {
    var status :=
      match ex
      case Raised(NotReviewAuthor) => 403
      case Raised(InvalidParam(_)) => 400
      case Raised(ParamMissing(_)) => 400
      case Raised(ReviewNotFound) => 404
      case Raised(DuplicateReview) => 409
      case Unclassified(_) => 500;
    var message := match ex
      case Raised(e) => Some(e.Message())
      case Unclassified(m) => m;
    Controllers.ErrorReply(status, message.GetOr("Internal server error"))
  }

  /** Both copies answer every exception with the same status and message. */
  lemma SameErrorMapping(ex: Controllers.Throwable)
    ensures ConvertErrorResponse(ex) == Controllers.ConvertErrorResponse(ex)
  {
  }
}
