/**
 * The event controller of engine snapshot B and the user point endpoint:
 * dispatch of a review event to the services, the ledger update with the
 * event's result, and the mapping from errors to HTTP status codes.
 */
module Controllers {
  import opened Wrappers
  import opened Exceptions
  import opened Dtos
  import opened Entities
  import opened Repositories
  import opened ReviewEvents
  import opened Services

  /**
   * The ledger after `updateUserPoint` with an event's outcome: a failed
   * event leaves it as it was; a successful one moves the user's balance by
   * the positive parts of the result and appends their history rows.
   */
  ghost predicate Applied(b: map<string, int>, ms: seq<Movement>, b': map<string, int>, ms': seq<Movement>,
                          u: string, r: Result<ReviewEventResult>)
  {
    match r
    case Err(_) => b' == b && ms' == ms
    case Ok(v) => b' == Shift(b, u, Change(v)) && ms' == ms + Moves(u, v)
  }

  /** The action names that `handleReviewEvent` dispatches on. */
  predicate Dispatched(p: EventParams) {
    p.action == Some(ADD.Name()) || p.action == Some(MOD.Name()) || p.action == Some(DELETE.Name())
  }

  /** The review-table effect of the service that the action selects. */
  ghost predicate ServiceEffect(before: map<string, Review>, clock: nat, after: map<string, Review>,
                                p: EventParams, r: Result<ReviewEventResult>)
  {
    if p.action == Some(ADD.Name()) then ReviewAdded(before, clock, after, p, r)
    else if p.action == Some(MOD.Name()) then ReviewModified(before, after, p, r)
    else ReviewDeleted(before, after, p, r)
  }

  /**
   * `handleReviewEvent`, from (reviews, clock, balances, history) before to
   * (reviews, balances, history) after. A request that fails validation
   * fails with its error and changes nothing. ADD first ensures the user's
   * point row, which stays even when the add then fails; MOD and DELETE go
   * straight to the service; the ledger then takes the service's result.
   * Any other action fails with "invalid action" and changes nothing.
   */
  ghost predicate ReviewEventHandled(before: map<string, Review>, clock: nat, b: map<string, int>, ms: seq<Movement>,
                                     after: map<string, Review>, b': map<string, int>, ms': seq<Movement>,
                                     p: EventParams, r: Result<ReviewEventResult>)
  {
    match ValidateForReview(p)
    case Fail(e) => r == Err(e) && after == before && b' == b && ms' == ms
    case Pass =>
      if Dispatched(p) then
        && ServiceEffect(before, clock, after, p, r)
        && Applied(if p.action == Some(ADD.Name()) then Opened(b, p.userId.GetOr("")) else b, ms, b', ms',
                   p.userId.GetOr(""), r)
      else
        r == Err(InvalidParam("invalid action")) && after == before && b' == b && ms' == ms
  }

  /**
   * The `when (params.action)` of `handleReviewEvent`: the service call the
   * action selects (ADD ensuring the user's point row first), or
   * "invalid action" with nothing changed.
   */
  method Dispatch(db: Database, params: EventParams) returns (result: Result<ReviewEventResult>)
    requires db.Valid()
    requires ValidateForReview(params).Pass?
    modifies db
    ensures db.Valid()
    ensures Dispatched(params) ==> ServiceEffect(old(db.reviews), old(db.clock), db.reviews, params, result)
    ensures !Dispatched(params) ==>
              && result == Err(InvalidParam("invalid action"))
              && db.reviews == old(db.reviews) && db.userPoints == old(db.userPoints)
    ensures Balances(db.userPoints) ==
              if params.action == Some(ADD.Name()) then Opened(Balances(old(db.userPoints)), params.userId.GetOr(""))
              else Balances(old(db.userPoints))
    ensures db.histories == old(db.histories)
  {
    var userId := params.userId.GetOr("");
    if params.action == Some(ADD.Name()) {
      var ignored := GetOrCreateUserPoint(db, userId);
      result := AddReview(db, params);
    } else if params.action == Some(MOD.Name()) {
      result := ModifyReview(db, params);
    } else if params.action == Some(DELETE.Name()) {
      result := DeleteReview(db, params);
    } else {
      result := Err(InvalidParam("invalid action"));
    }
  }

  /**
   * `handleReviewEvent` past validation: the dispatch, then
   * `updateUserPoint` with the result when it succeeded.
   */
  method DispatchAndApply(db: Database, params: EventParams) returns (r: Result<ReviewEventResult>)
    requires db.Valid()
    requires ValidateForReview(params).Pass?
    modifies db
    ensures db.Valid()
    ensures ReviewEventHandled(old(db.reviews), old(db.clock), Balances(old(db.userPoints)), Movements(old(db.histories)),
                               db.reviews, Balances(db.userPoints), Movements(db.histories), params, r)
  {
    var userId := params.userId.GetOr("");
    r := Dispatch(db, params);
    ghost var reviews1, b1, ms1 := db.reviews, Balances(db.userPoints), Movements(db.histories);
    ApplyResult(db, userId, r);
    HandledBySteps(old(db.reviews), old(db.clock), Balances(old(db.userPoints)), Movements(old(db.histories)),
                   reviews1, b1, ms1, Balances(db.userPoints), Movements(db.histories), params, r);
  }

  /**
   * `updateUserPoint(userId, result)` runs only once the service has
   * returned; a thrown error skips it, so only a successful event reaches
   * the ledger.
   */
  method ApplyResult(db: Database, userId: string, result: Result<ReviewEventResult>)
    requires db.Valid()
    modifies db
    ensures db.Valid()
    ensures db.reviews == old(db.reviews)
    ensures Applied(Balances(old(db.userPoints)), Movements(old(db.histories)), Balances(db.userPoints),
                    Movements(db.histories), userId, result)
  {
    if result.Ok? {
      UpdateUserPoint(db, userId, result.value);
    }
  }

  /** `EventController.handleReviewEvent`. */
  method HandleReviewEvent(db: Database, params: EventParams) returns (r: Result<ReviewEventResult>)
    requires db.Valid()
    modifies db
    ensures db.Valid()
    ensures ReviewEventHandled(old(db.reviews), old(db.clock), Balances(old(db.userPoints)), Movements(old(db.histories)),
                               db.reviews, Balances(db.userPoints), Movements(db.histories), params, r)
    ensures old(db.Balanced()) ==> db.Balanced()
    ensures BonusIsEarliest(old(db.reviews)) ==> BonusIsEarliest(db.reviews)
  {
    var checked := ValidateForReview(params);
    if checked.Fail? {
      return Err(checked.error);
    }
    r := DispatchAndApply(db, params);
    if old(db.Balanced()) {
      HandledEventKeepsLedgerBalanced(old(db.reviews), old(db.clock), Balances(old(db.userPoints)),
                                      Movements(old(db.histories)), db.reviews, Balances(db.userPoints),
                                      Movements(db.histories), params, r);
    }
    if BonusIsEarliest(old(db.reviews)) {
      HandledEventKeepsBonusEarliest(old(db.reviews), old(db.clock), Balances(old(db.userPoints)),
                                     Movements(old(db.histories)), db.reviews, Balances(db.userPoints),
                                     Movements(db.histories), params, r);
    }
  }

  /**
   * A validated request whose dispatch and ledger steps took effect has been
   * handled: the steps compose to `ReviewEventHandled`.
   */
  lemma HandledBySteps(before: map<string, Review>, clock: nat, b: map<string, int>, ms: seq<Movement>,
                       after: map<string, Review>, b1: map<string, int>, ms1: seq<Movement>,
                       b': map<string, int>, ms': seq<Movement>, p: EventParams, r: Result<ReviewEventResult>)
    requires ValidateForReview(p).Pass?
    requires Dispatched(p) ==> ServiceEffect(before, clock, after, p, r)
    requires !Dispatched(p) ==> r == Err(InvalidParam("invalid action")) && after == before
    requires b1 == if p.action == Some(ADD.Name()) then Opened(b, p.userId.GetOr("")) else b
    requires ms1 == ms
    requires Applied(b1, ms1, b', ms', p.userId.GetOr(""), r)
    ensures ReviewEventHandled(before, clock, b, ms, after, b', ms', p, r)
  {
  }

  /**
   * Every handled review event keeps the ledger balanced: each balance
   * change is matched by history rows of the same amount and direction, and
   * every author keeps a point row.
   */
  lemma HandledEventKeepsLedgerBalanced(before: map<string, Review>, clock: nat, b: map<string, int>, ms: seq<Movement>,
                                        after: map<string, Review>, b': map<string, int>, ms': seq<Movement>,
                                        p: EventParams, r: Result<ReviewEventResult>)
    requires LedgerBalanced(before, b, ms)
    requires ReviewEventHandled(before, clock, b, ms, after, b', ms', p, r)
    ensures LedgerBalanced(after, b', ms')
  {
    var u := p.userId.GetOr("");
    if ValidateForReview(p).Pass? && Dispatched(p) {
      var add := p.action == Some(ADD.Name());
      var b1 := if add then Opened(b, u) else b;
      BalancedAfterOpen(b, ms, u);
      assert HistoryBalanced(b1, ms);
      if r.Err? {
        AuthorsKept(before, b, b1);
      } else {
        if add {
          var id := r.value.reviewId.value;
          assert after == before[id := after[id]];
          MovesKeepBalance(b1, ms, u, r.value);
          AuthorsAfterPut(before, b, b', id, after[id]);
        } else {
          var id := p.reviewId.GetOr("");
          assert before[id].userId == u;
          MovesKeepBalance(b1, ms, u, r.value);
          if p.action == Some(MOD.Name()) {
            AuthorsAfterPut(before, b, b', id, after[id]);
          } else {
            AuthorsAfterRemove(before, b, b', id);
          }
        }
      }
    }
  }

  /**
   * Every handled review event keeps the first-review bonus with the
   * earliest review of each place, given that every stored review predates
   * the clock, as `Database.Valid` keeps.
   */
  lemma HandledEventKeepsBonusEarliest(before: map<string, Review>, clock: nat, b: map<string, int>, ms: seq<Movement>,
                                       after: map<string, Review>, b': map<string, int>, ms': seq<Movement>,
                                       p: EventParams, r: Result<ReviewEventResult>)
    requires forall k :: k in before ==> before[k].createdAt < clock
    requires BonusIsEarliest(before)
    requires ReviewEventHandled(before, clock, b, ms, after, b', ms', p, r)
    ensures BonusIsEarliest(after)
  {
    if ValidateForReview(p).Pass? && Dispatched(p) {
      if p.action == Some(ADD.Name()) {
        AddKeepsBonusEarliest(before, clock, after, p, r);
      } else if p.action == Some(MOD.Name()) {
        ModifyKeepsBonusEarliest(before, after, p, r);
      } else {
        DeleteKeepsBonusEarliest(before, after, p, r);
      }
    }
  }

  /** `EventController.handleEvent`: only events of type "REVIEW" are handled. */
  method HandleEvent(db: Database, params: EventParams) returns (r: Result<ReviewEventResult>)
    requires db.Valid()
    modifies db
    ensures db.Valid()
    ensures params.eventType != Some("REVIEW") ==>
              && r == Err(InvalidParam("invalid type"))
              && db.reviews == old(db.reviews) && db.userPoints == old(db.userPoints) && db.histories == old(db.histories)
    ensures params.eventType == Some("REVIEW") ==>
              ReviewEventHandled(old(db.reviews), old(db.clock), Balances(old(db.userPoints)), Movements(old(db.histories)),
                                 db.reviews, Balances(db.userPoints), Movements(db.histories), params, r)
    ensures old(db.Balanced()) ==> db.Balanced()
    ensures BonusIsEarliest(old(db.reviews)) ==> BonusIsEarliest(db.reviews)
  {
    if params.eventType == Some("REVIEW") {
      r := HandleReviewEvent(db, params);
    } else {
      r := Err(InvalidParam("invalid type"));
    }
  }

  /** What a handler may catch: one of the service's errors, or any other exception with its message, if it has one. */
  datatype Throwable = Raised(error: EventError) | Unclassified(message: Option<string>)

  /** The failure response: an HTTP status code and the error message. */
  datatype ErrorReply = ErrorReply(status: int, message: string)

  /**
   * `convertErrorResponse`: 403 for a non-author, 400 for a bad or missing
   * parameter, 404 for an unknown review, 409 for a duplicate, 500 for
   * anything else; the message is the exception's own, or
   * "Internal server error" when it has none.
   */
  function ConvertErrorResponse(ex: Throwable): (reply: ErrorReply)
    ensures reply.status == 500 <==> ex.Unclassified?
    ensures reply.status == 400 <==> ex.Raised? && (ex.error.InvalidParam? || ex.error.ParamMissing?)
    ensures ex.Raised? && ex.error.NotReviewAuthor? ==> reply.status == 403
    ensures ex.Raised? && ex.error.ReviewNotFound? ==> reply.status == 404
    ensures ex.Raised? && ex.error.DuplicateReview? ==> reply.status == 409
    ensures ex.Raised? ==> reply.message == ex.error.Message()
    ensures ex.Unclassified? && ex.message.Some? ==> reply.message == ex.message.value
    ensures ex.Unclassified? && ex.message.None? ==> reply.message == "Internal server error"
  {
    var status :=
      match ex
      case Raised(NotReviewAuthor) => 403
      case Raised(InvalidParam(_)) => 400
      case Raised(ParamMissing(_)) => 400
      case Raised(ReviewNotFound) => 404
      case Raised(DuplicateReview) => 409
      case Unclassified(_) => 500;
    var message := match ex
      case Raised(e) => Some(e.Message())
      case Unclassified(m) => m;
    ErrorReply(status, message.GetOr("Internal server error"))
  }

  /** The status code of each kind of error. */
  lemma StatusOfEachError(m: string, other: Option<string>)
    ensures ConvertErrorResponse(Raised(NotReviewAuthor)).status == 403
    ensures ConvertErrorResponse(Raised(InvalidParam(m))).status == 400
    ensures ConvertErrorResponse(Raised(ParamMissing(m))).status == 400
    ensures ConvertErrorResponse(Raised(ReviewNotFound)).status == 404
    ensures ConvertErrorResponse(Raised(DuplicateReview)).status == 409
    ensures ConvertErrorResponse(Unclassified(other)).status == 500
  {
  }

  /** `UserController.getUserPoint`: the user's stored point, or 0 without a row. */
  function GetUserPoint(db: Database, userId: string): (point: int)
    reads db
    ensures userId in db.userPoints ==> point == db.userPoints[userId].point
    ensures userId !in db.userPoints ==> point == 0
  {
    match FindByUserId(db.userPoints, userId)
    case Some(row) => row.point
    case None => 0
  }

  /**
   * On a balanced ledger the reported point is the user's net history, for
   * every user: one without a row has no history rows either.
   */
  lemma {:induction false} ReportedPointIsNet(db: Database, userId: string)
    requires db.Balanced()
    ensures GetUserPoint(db, userId) == Net(Movements(db.histories), userId)
  {
    if userId !in db.userPoints {
      NetWithoutRows(Movements(db.histories), userId);
    }
  }
}
