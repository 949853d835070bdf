/**
 * The five business errors the mileage service throws. Each exception class
 * is a constructor; the two request errors carry the message their thrower
 * supplies, the other three have a fixed message.
 */
module Exceptions {

  datatype EventError =
    | ParamMissing(message: string)
    | InvalidParam(message: string)
    | DuplicateReview
    | ReviewNotFound
    | NotReviewAuthor
  {
    /** The exception's `message`. */
    function Message(): string {
      match this
      case ParamMissing(m) => m
      case InvalidParam(m) => m
      case DuplicateReview => "Review already exists"
      case ReviewNotFound => "Review does not exist"
      case NotReviewAuthor => "Only author of the review can modify or delete review"
    }

    /** The kinds whose message does not depend on the thrower. */
    predicate HasFixedMessage() {
      DuplicateReview? || ReviewNotFound? || NotReviewAuthor?
    }
  }

  /** A request error keeps the thrower's message unchanged; the fixed messages are never empty. */
  lemma MessagesOfKinds(e: EventError, m: string)
    ensures ParamMissing(m).Message() == m && InvalidParam(m).Message() == m
    ensures e.HasFixedMessage() ==> e.Message() != ""
  {
  }

  /** The three fixed messages tell their kinds apart. */
  lemma FixedMessagesIdentifyKind(e1: EventError, e2: EventError)
    requires e1.HasFixedMessage() && e2.HasFixedMessage()
    ensures e1.Message() == e2.Message() <==> e1 == e2
  {
  }

  /** The outcome of an operation that can throw one of the errors. */
  datatype Result<+T> = Ok(value: T) | Err(error: EventError)

  /** The outcome of a check that returns nothing or throws. */
  datatype Outcome = Pass | Fail(error: EventError)
}
