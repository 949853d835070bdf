# Travel services: schedule recommender and review mileage

Two independent programs of one repository, modelled in Dafny and proved
against their specifications.

**Schedule recommender** (`schedule.dfy`). `find_max_score` chooses places,
each with a visit duration and a score, to maximise the total score within a
time budget (a 0/1 knapsack), memoising `(i, remain_time)` in a dictionary
that it fills in place. `MaxScore` is the plain recursion; it is proved to be
the maximum over all fitting selections (`MaxScoreIsOptimal`). `Memo` is the
dictionary as a class with a `map` field, and `Memo.FindMaxScore` is the
memoised recursion, proved to return `MaxScore` while every entry stays equal
to the un-memoised value.

**Review mileage service** (the other files). Users earn points for place
reviews: one for text, one for photos, one bonus for the first review of a
place. Each add, modify or delete event changes the review table, and the
user's point balance with an append-only history of point movements.

- `Database` (`repositories.dfy`) is a class holding the three tables as
  fields: reviews by id, point rows by user, and the history as a sequence.
  Generated ids come from a counter and creation times from a
  natural-number clock. Its methods are the repository operations. `Valid`
  holds the two unique indexes, and keeps every id the counter issued to a
  review or history row below the counter, so history ids never repeat. A
  `user_id` or `place_id` longer than its 255-character column is refused
  like a taken unique key.
- `dtos.dfy`, `exceptions.dfy`, `entities.dfy` and `scoring.dfy` hold the
  request and its validation, the five error kinds, the records and the score.
- `review_events.dfy` states what each event does to the review table and
  returns (`ReviewAdded`, `ReviewModified`, `ReviewDeleted`). Both versions of
  the event engine satisfy these predicates.
- `review_service.dfy` (module `LedgerReviewService`) is the version whose
  review service moves the balance and writes the history itself
  (`ReviewService.kt`).
- `services.dfy` and `controllers.dfy` are the other version: a review
  service that only computes results (`Services.kt`), and a controller that
  applies each result with `UserPointService.updateUserPoint`
  (`Controllers.kt`). `event_controller.dfy` is the second copy of that
  controller (`EventController.kt`). The two versions are never composed.
- The ledger invariant `LedgerBalanced` says every balance equals its user's
  total increase minus total decrease in the history, and every review author
  has a point row. Every event of either version keeps it.
- `BonusIsEarliest` says a review holding the first-review bonus was created
  before every other review of its place, so a place has at most one holder.
  Every event of either version keeps it too.
- `scenarios.dfy` states and proves the outcome of the sequence add, second
  add, modify, delete through the controller on an empty store, of an add by
  an over-long user id, and of one add through the ledger service on a seeded
  row.

Behaviour kept as the code has it:

- `hasFirstReviewPoint` is read and written by the services but not declared
  on the entity. Here it is a field defaulting to false.
- A MOD without content passes validation and stores empty content, losing
  the text point.
- The ledger service appends a history row on every add and delete, even of
  0 points. On modify it appends one only when the score changed.
- Deleting the review that holds a place's bonus does not pass the bonus on.
- Empty content raises `InvalidParam`, the code's `InvalidParamException`.
- A user or place id longer than 255 characters makes the insert fail, and
  the service reports it as `DuplicateReview`, like a taken pair.

## Model

| member | source | states |
|---|---|---|
| Schedule.MaxScore | 01_schedule_recommendation_algorithm/main.py:1-13 | the best score of `places[i..]` within `remain`; never negative |
| Schedule.MaxScoreCases | 01_schedule_recommendation_algorithm/main.py:3-11 | past the end the result is 0; otherwise it is at least the score of skipping place `i`, and at least the score of taking it (remaining time lowered by its duration) when it fits |
| Schedule.Itinerary | 01_schedule_recommendation_algorithm/main.py:7-11 | the selection the recursion makes has exactly `MaxScore` as its total score, fits the budget when the budget is non-negative, and takes a place only when its duration fits |
| Schedule.FittingSelectionBounded | 01_schedule_recommendation_algorithm/main.py:7-12 | no selection of `places[i..]` that fits `remain` scores more than `MaxScore` (durations non-negative) |
| Schedule.MaxScoreIsOptimal | 01_schedule_recommendation_algorithm/main.py:7-12 | `MaxScore` is the maximum over fitting selections: one selection reaches it and none exceeds it |
| Schedule.MaxScoreMonotone | 01_schedule_recommendation_algorithm/main.py:9-11 | more remaining time never lowers the best score |
| Schedule.Memo.constructor | 01_schedule_recommendation_algorithm/main.py:22 | the memo starts empty (`{}`) |
| Schedule.Memo.FindMaxScore | 01_schedule_recommendation_algorithm/main.py:1-13 | returns the un-memoised `MaxScore`, keeps every memo entry equal to the un-memoised value, only adds entries, and records `(i, remain)` when `i` is in range |
| Schedule.Recommend | 01_schedule_recommendation_algorithm/main.py:22 | the answer for a fresh memo from place 0 is `MaxScore`, never negative, reached by a fitting selection, and not exceeded by any fitting selection when durations are non-negative |
| Schedule.TestExamples | 01_schedule_recommendation_algorithm/main.py:26-36 | budget 5 gives 40 and budget 3 gives 30 on the places of `test()` |
| Exceptions.MessagesOfKinds | 02_travelers_club_mileage_service/src/main/kotlin/com/example/mileageservice/Exceptions.kt:3-11 | ParamMissing and InvalidParam keep the thrower's message; the three fixed messages are non-empty |
| Exceptions.FixedMessagesIdentifyKind | 02_travelers_club_mileage_service/src/main/kotlin/com/example/mileageservice/Exceptions.kt:7-11 | the three fixed messages are pairwise different, so a fixed message determines its kind |
| Dtos.ValidateForReview | 02_travelers_club_mileage_service/src/main/kotlin/com/example/mileageservice/Dtos.kt:18-36 | passes exactly the well-formed requests (per-action required fields), and every failure is a ParamMissing or InvalidParam error |
| Dtos.ActionThenUserChecked | 02_travelers_club_mileage_service/src/main/kotlin/com/example/mileageservice/Dtos.kt:19-20 | a missing action fails first, a missing user second, whatever else the request holds |
| Dtos.AddChecks | 02_travelers_club_mileage_service/src/main/kotlin/com/example/mileageservice/Dtos.kt:23-27 | ADD: missing place, then missing content, are ParamMissing; empty content is InvalidParam |
| Dtos.ModChecks | 02_travelers_club_mileage_service/src/main/kotlin/com/example/mileageservice/Dtos.kt:28-31 | MOD: missing review id is ParamMissing, empty content is InvalidParam, absent content passes |
| Dtos.DeleteIgnoresContent | 02_travelers_club_mileage_service/src/main/kotlin/com/example/mileageservice/Dtos.kt:32-34 | DELETE's outcome does not depend on content and it passes exactly when the review id is present |
| Dtos.UnknownActionPasses | 02_travelers_club_mileage_service/src/main/kotlin/com/example/mileageservice/Dtos.kt:22-35 | an action other than ADD, MOD and DELETE passes once action and user are present |
| Dtos.ValidExamplesPass | 02_travelers_club_mileage_service/src/test/kotlin/com/example/mileageservice/DtosTests.kt:90-186 | the valid ADD, MOD and DELETE requests of the tests pass |
| Dtos.DefaultResultIsEmpty | 02_travelers_club_mileage_service/src/main/kotlin/com/example/mileageservice/Dtos.kt:39-43 | a default result has no review id and 0 points either way |
| Dtos.DiffResult | 02_travelers_club_mileage_service/src/main/kotlin/com/example/mileageservice/ReviewService.kt:123-127 | the score difference goes to exactly one side as a non-negative amount: increase minus decrease is the difference and one side is 0 |
| Entities.UniqueUserPlace | 02_travelers_club_mileage_service/src/main/kotlin/com/example/mileageservice/Entities.kt:12 | the unique index on (user_id, place_id): two reviews with the same user and place are the same review |
| Entities.UniqueUser | 02_travelers_club_mileage_service/src/main/kotlin/com/example/mileageservice/Entities.kt:30 | the unique index on user_id: the point table is keyed by user, each row under its own user |
| Entities.NewRecordDefaults | 02_travelers_club_mileage_service/src/main/kotlin/com/example/mileageservice/Entities.kt:16-51 | a new review has empty content and photos, no bonus and no id; a new point row is at 0; a history row given one amount has the other at 0 |
| Entities.NetWithoutRows | 02_travelers_club_mileage_service/src/main/kotlin/com/example/mileageservice/Entities.kt:45-51 | a user with no history rows has a net of 0 |
| Scoring.CalculatePoint | 02_travelers_club_mileage_service/src/main/kotlin/com/example/mileageservice/ReviewService.kt:30-41 | the score is in 0..2; it is 0 exactly when content and photos are empty and 2 exactly when both are non-empty |
| Scoring.PhotoIdsOf | 02_travelers_club_mileage_service/src/main/kotlin/com/example/mileageservice/ReviewService.kt:53 | `attachedPhotoIds?.joinToString(",") ?: ""`: a null list is stored as empty, otherwise the ids joined by commas |
| Scoring.PhotoIdsNonEmpty | 02_travelers_club_mileage_service/src/main/kotlin/com/example/mileageservice/ReviewService.kt:53 | the stored photo string is non-empty exactly when the list holds two ids or one non-empty id; a null list is stored as empty |
| Scoring.PointOfSubmission | 02_travelers_club_mileage_service/src/main/kotlin/com/example/mileageservice/ReviewService.kt:30-41 | a submitted review scores one point for text plus one for a non-empty photo list |
| Scoring.Worth | 02_travelers_club_mileage_service/src/main/kotlin/com/example/mileageservice/ReviewService.kt:139-140 | a review's score plus its bonus is in 0..3 |
| Repositories.ParseIdOf | 02_travelers_club_mileage_service/src/main/kotlin/com/example/mileageservice/Entities.kt:24 | a generated id reads back as its counter value |
| Repositories.IdsDistinct | 02_travelers_club_mileage_service/src/main/kotlin/com/example/mileageservice/Entities.kt:24 | different counter values generate different ids |
| Repositories.Shift | 02_travelers_club_mileage_service/src/main/kotlin/com/example/mileageservice/Repositories.kt:26 | `point = point + delta WHERE userId = u` moves only that row, and nothing when there is none |
| Repositories.ShiftTwice | 02_travelers_club_mileage_service/src/main/kotlin/com/example/mileageservice/Repositories.kt:26-32 | two updates of a row add up; an update by 0 changes nothing |
| Repositories.ShiftInverse | 02_travelers_club_mileage_service/src/main/kotlin/com/example/mileageservice/Repositories.kt:26-32 | `incrPoint(u, p)` followed by `decrPoint(u, p)` restores every balance |
| Repositories.Opened | 02_travelers_club_mileage_service/src/main/kotlin/com/example/mileageservice/ReviewService.kt:43-49 | ensuring a user's row keeps an existing row, adds one at 0 for an id that fits its column, and otherwise changes nothing; other rows are left as they are |
| Repositories.FindByUserId | 02_travelers_club_mileage_service/src/main/kotlin/com/example/mileageservice/Repositories.kt:22 | the user's row if there is one, stored under that user |
| Repositories.BalancedAfterMovement | 02_travelers_club_mileage_service/src/main/kotlin/com/example/mileageservice/ReviewService.kt:80-83 | moving a balance and appending the same movement keeps every balance equal to its user's net history |
| Repositories.BalancedAfterOpen | 02_travelers_club_mileage_service/src/main/kotlin/com/example/mileageservice/ReviewService.kt:43-49 | a new row at 0 keeps the ledger accounted for |
| Repositories.Database.Valid | 02_travelers_club_mileage_service/src/main/kotlin/com/example/mileageservice/Entities.kt:8-51 | the store's invariant: each review under its own id, issued by the counter and created before the clock; history ids issued by the counter and pairwise distinct; both unique indexes hold |
| Repositories.Database.constructor | 02_travelers_club_mileage_service/src/main/kotlin/com/example/mileageservice/Repositories.kt:11-35 | the store starts empty, valid and balanced |
| Repositories.Database.FindById | 02_travelers_club_mileage_service/src/main/kotlin/com/example/mileageservice/Repositories.kt:13-15 | the review with that id, or none when absent |
| Repositories.Database.FindFirstByPlaceIdOrderByCreatedAtAsc | 02_travelers_club_mileage_service/src/main/kotlin/com/example/mileageservice/Repositories.kt:17 | a stored review of the place created no later than any other review of it; none exactly when the place has no review |
| Repositories.Database.SaveReview | 02_travelers_club_mileage_service/src/main/kotlin/com/example/mileageservice/Entities.kt:12-18 | refused exactly when the (user, place) pair is taken or either id is longer than the 255 characters its column holds; otherwise stored with the current clock under the counter's next id, which no stored review has |
| Repositories.Database.UpdateReview | 02_travelers_club_mileage_service/src/main/kotlin/com/example/mileageservice/ReviewService.kt:77 | re-saving a loaded review replaces exactly that row |
| Repositories.Database.DeleteReview | 02_travelers_club_mileage_service/src/main/kotlin/com/example/mileageservice/ReviewService.kt:141 | the row is removed and nothing else changes |
| Repositories.Database.SaveUserPoint | 02_travelers_club_mileage_service/src/main/kotlin/com/example/mileageservice/Entities.kt:30-33 | refused exactly when the user has a row or the id is longer than the 255 characters its column holds; otherwise the row is added under the counter's next id |
| Repositories.Database.IncrPoint | 02_travelers_club_mileage_service/src/main/kotlin/com/example/mileageservice/Repositories.kt:24-27 | adds to the user's row only, which keeps its id and user, and returns the number of rows updated, 0 with the store unchanged when there is no row |
| Repositories.Database.DecrPoint | 02_travelers_club_mileage_service/src/main/kotlin/com/example/mileageservice/Repositories.kt:29-32 | subtracts from the user's row only, which keeps its id and user, and returns the number of rows updated, 0 with the store unchanged when there is no row |
| Repositories.Database.SaveHistory | 02_travelers_club_mileage_service/src/main/kotlin/com/example/mileageservice/ReviewService.kt:81-83 | appends exactly one history row, with the creation time it was built with (the default, as no auditing fills it), under an id no earlier history row has; history ids stay pairwise distinct and below the counter |
| Repositories.AppendFreshHistory | 02_travelers_club_mileage_service/src/main/kotlin/com/example/mileageservice/Entities.kt:50 | a row whose id is the numeral of the counter's value has an id no earlier row has, so appending it keeps the history ids distinct and below the counter |
| Ledger.Credit | 02_travelers_club_mileage_service/src/main/kotlin/com/example/mileageservice/ReviewService.kt:80-83 | the balance rises by the amount and one increase row of that amount is appended; the ledger stays accounted for |
| Ledger.Debit | 02_travelers_club_mileage_service/src/main/kotlin/com/example/mileageservice/ReviewService.kt:145-148 | the balance falls by the amount and one decrease row of that amount is appended; the ledger stays accounted for |
| ReviewEvents.Submitted | 02_travelers_club_mileage_service/src/main/kotlin/com/example/mileageservice/ReviewService.kt:53-65 | the review built from a request has no id and no bonus yet |
| ReviewEvents.Edited | 02_travelers_club_mileage_service/src/main/kotlin/com/example/mileageservice/ReviewService.kt:102-103 | MOD keeps user, place, id, creation time and bonus flag, and stores absent content as empty |
| ReviewEvents.FindReview | 02_travelers_club_mileage_service/src/main/kotlin/com/example/mileageservice/ReviewService.kt:20-28 | the stored review with that id, or ReviewNotFound exactly when it is absent |
| ReviewEvents.EarliestIsNewIffPlaceUnreviewed | 02_travelers_club_mileage_service/src/main/kotlin/com/example/mileageservice/ReviewService.kt:71-78 | the earliest review of the place is the new one exactly when the place had no review before |
| ReviewEvents.AddedByInsert | 02_travelers_club_mileage_service/src/main/kotlin/com/example/mileageservice/ReviewService.kt:57-88 | insert, earliest-review lookup and bonus flag together give the ADD effect: bonus exactly for a place without reviews, increase = score + bonus |
| ReviewEvents.OneBonusPerPlace | 02_travelers_club_mileage_service/src/main/kotlin/com/example/mileageservice/ReviewService.kt:71-78 | when the bonus is held only by the earliest review of its place, a place has at most one bonus holder |
| ReviewEvents.AddKeepsBonusEarliest | 02_travelers_club_mileage_service/src/main/kotlin/com/example/mileageservice/ReviewService.kt:70-78 | an ADD keeps the bonus with the earliest review of each place: the new review is later than every stored one and gets it only for an unreviewed place |
| ReviewEvents.ModifyKeepsBonusEarliest | 02_travelers_club_mileage_service/src/main/kotlin/com/example/mileageservice/ReviewService.kt:99-106 | a MOD keeps the bonus with the earliest review of each place |
| ReviewEvents.DeleteKeepsBonusEarliest | 02_travelers_club_mileage_service/src/main/kotlin/com/example/mileageservice/ReviewService.kt:137-143 | a DELETE keeps the bonus with the earliest review of each place, without passing it on |
| LedgerReviewService.GetOrCreateUserPoint | 02_travelers_club_mileage_service/src/main/kotlin/com/example/mileageservice/ReviewService.kt:43-49 | the user has a row afterwards, unless the id is too long for its column, and that row is returned; existing rows, reviews and history are untouched |
| LedgerReviewService.ScoreSaved | 02_travelers_club_mileage_service/src/main/kotlin/com/example/mileageservice/ReviewService.kt:70-78 | after the insert: the ADD effect on the review table with increase = score + bonus, and the author's row ensured |
| LedgerReviewService.AddSaved | 02_travelers_club_mileage_service/src/main/kotlin/com/example/mileageservice/ReviewService.kt:70-88 | after the insert: the ADD effect, the author's row ensured and credited by the increase, and one history row of that amount |
| LedgerReviewService.AddReview | 02_travelers_club_mileage_service/src/main/kotlin/com/example/mileageservice/ReviewService.kt:51-89 | the ADD effect (DuplicateReview with nothing changed when the pair is taken or an id is too long for its column); on success the row is ensured, the balance rises by the increase and one history row is appended even when it is 0; the ledger stays balanced and the bonus stays with the earliest review of each place |
| LedgerReviewService.EditLocked | 02_travelers_club_mileage_service/src/main/kotlin/com/example/mileageservice/ReviewService.kt:99-106 | the re-read review's old score is returned and it is stored with the request's content and photos |
| LedgerReviewService.DeleteLocked | 02_travelers_club_mileage_service/src/main/kotlin/com/example/mileageservice/ReviewService.kt:137-143 | returns the review's score plus bonus and deletes it |
| LedgerReviewService.RecordDiff | 02_travelers_club_mileage_service/src/main/kotlin/com/example/mileageservice/ReviewService.kt:109-127 | a positive difference is credited, a negative one debited, each with one history row; a zero difference changes nothing; the result splits the difference |
| LedgerReviewService.ModifyOwned | 02_travelers_club_mileage_service/src/main/kotlin/com/example/mileageservice/ReviewService.kt:99-127 | the review is edited, the result is the split score difference, and the balance and history move by it only when it is non-zero |
| LedgerReviewService.ModifyReview | 02_travelers_club_mileage_service/src/main/kotlin/com/example/mileageservice/ReviewService.kt:91-128 | the MOD effect (ReviewNotFound, then NotReviewAuthor, with nothing changed); on success the balance moves by increase minus decrease and one history row is appended only when that is non-zero; the ledger stays balanced and the bonus stays with the earliest review of each place |
| LedgerReviewService.DeleteOwned | 02_travelers_club_mileage_service/src/main/kotlin/com/example/mileageservice/ReviewService.kt:137-152 | the review is removed and its score plus bonus is debited with one history row |
| LedgerReviewService.DeleteReview | 02_travelers_club_mileage_service/src/main/kotlin/com/example/mileageservice/ReviewService.kt:130-153 | the DELETE effect (lookup errors change nothing); on success the balance falls by score plus bonus and one history row is appended even when it is 0; the ledger stays balanced and the bonus stays with the earliest review of each place |
| Services.AddReview | 02_travelers_club_mileage_service/src/main/kotlin/com/example/mileageservice/Services.kt:33-65 | the same ADD effect as the ledger service, with the point table and history untouched |
| Services.ModifyReview | 02_travelers_club_mileage_service/src/main/kotlin/com/example/mileageservice/Services.kt:67-89 | the same MOD effect as the ledger service, with the point table and history untouched |
| Services.DeleteReview | 02_travelers_club_mileage_service/src/main/kotlin/com/example/mileageservice/Services.kt:91-106 | the same DELETE effect as the ledger service, with the point table and history untouched |
| Services.GetOrCreateUserPoint | 02_travelers_club_mileage_service/src/main/kotlin/com/example/mileageservice/Services.kt:115-127 | an existing row is returned unchanged; otherwise a row at 0 is inserted, or re-read when the store refuses it, which finds none for an id too long for its column |
| Services.Moves | 02_travelers_club_mileage_service/src/main/kotlin/com/example/mileageservice/Services.kt:129-143 | one row per positive side, all of the user, moving only that user's net, by the positive parts of the result |
| Services.MovesKeepBalance | 02_travelers_club_mileage_service/src/main/kotlin/com/example/mileageservice/Services.kt:129-143 | moving a balance by the positive parts and appending those rows keeps the history accounting for every balance |
| Services.CreditIncrease | 02_travelers_club_mileage_service/src/main/kotlin/com/example/mileageservice/Services.kt:130-135 | a positive increase is credited with one increase row; otherwise nothing changes |
| Services.DebitDecrease | 02_travelers_club_mileage_service/src/main/kotlin/com/example/mileageservice/Services.kt:137-142 | a positive decrease is debited with one decrease row; otherwise nothing changes |
| Services.UpdateUserPoint | 02_travelers_club_mileage_service/src/main/kotlin/com/example/mileageservice/Services.kt:129-143 | the balance moves by the positive parts of the result with one history row per positive side; a result with nothing positive changes nothing |
| Controllers.Dispatch | 02_travelers_club_mileage_service/src/main/kotlin/com/example/mileageservice/Controllers.kt:18-26 | the service the action selects runs, ADD ensuring the point row first; another action fails with "invalid action" and changes nothing |
| Controllers.ApplyResult | 02_travelers_club_mileage_service/src/main/kotlin/com/example/mileageservice/Controllers.kt:28 | only a successful result reaches the ledger, which moves by exactly that result |
| Controllers.DispatchAndApply | 02_travelers_club_mileage_service/src/main/kotlin/com/example/mileageservice/Controllers.kt:18-29 | a validated request is dispatched and its result applied to the ledger |
| Controllers.HandleReviewEvent | 02_travelers_club_mileage_service/src/main/kotlin/com/example/mileageservice/Controllers.kt:14-30 | validation first (a failure changes nothing), then dispatch, then the ledger update by exactly the result; the ledger stays balanced and the bonus stays with the earliest review of each place |
| Controllers.HandledEventKeepsLedgerBalanced | 02_travelers_club_mileage_service/src/main/kotlin/com/example/mileageservice/Controllers.kt:14-30 | every handled event keeps each balance equal to its user's net history and every author with a row |
| Controllers.HandledEventKeepsBonusEarliest | 02_travelers_club_mileage_service/src/main/kotlin/com/example/mileageservice/Controllers.kt:14-30 | every handled event keeps the bonus with the earliest review of each place |
| Controllers.HandleEvent | 02_travelers_club_mileage_service/src/main/kotlin/com/example/mileageservice/Controllers.kt:34-44 | a type other than "REVIEW" fails with "invalid type" before validation and changes nothing |
| Controllers.ConvertErrorResponse | 02_travelers_club_mileage_service/src/main/kotlin/com/example/mileageservice/Controllers.kt:48-65 | 403 for NotReviewAuthor, 404 for ReviewNotFound, 409 for DuplicateReview, 400 exactly for parameter errors, 500 exactly for unclassified exceptions; the message is the exception's own, else "Internal server error" |
| Controllers.StatusOfEachError | 02_travelers_club_mileage_service/src/main/kotlin/com/example/mileageservice/Controllers.kt:49-56 | 403, 400, 400, 404, 409 and 500 for the six cases |
| Controllers.GetUserPoint | 02_travelers_club_mileage_service/src/main/kotlin/com/example/mileageservice/Controllers.kt:75-82 | the stored point, or 0 without a row |
| Controllers.ReportedPointIsNet | 02_travelers_club_mileage_service/src/main/kotlin/com/example/mileageservice/Controllers.kt:75-77 | on a balanced ledger the reported point is the user's total increase minus total decrease |
| EventControllerCopy.HandleReviewEvent | 02_travelers_club_mileage_service/src/main/kotlin/com/example/mileageservice/EventController.kt:14-30 | the same handling as the controller module's; the ledger stays balanced and the bonus stays with the earliest review of each place |
| EventControllerCopy.HandleEvent | 02_travelers_club_mileage_service/src/main/kotlin/com/example/mileageservice/EventController.kt:34-44 | a type other than "REVIEW" fails with "invalid type" and changes nothing; a "REVIEW" event is handled as above |
| EventControllerCopy.ConvertErrorResponse | 02_travelers_club_mileage_service/src/main/kotlin/com/example/mileageservice/EventController.kt:48-65 | 403 for NotReviewAuthor, 404 for ReviewNotFound, 409 for DuplicateReview, 400 exactly for parameter errors, 500 exactly for unclassified exceptions; the message is the exception's own, else "Internal server error" |
| EventControllerCopy.SameErrorMapping | 02_travelers_club_mileage_service/src/main/kotlin/com/example/mileageservice/EventController.kt:48-65 | both copies answer every exception with the same status and message |
| Scenarios.FirstReviewOfPlace | 02_travelers_club_mileage_service/src/main/kotlin/com/example/mileageservice/Services.kt:52-59 | foo's review of an unreviewed place earns 2 (text and bonus) and foo's balance becomes 2 |
| Scenarios.LaterReviewOfPlace | 02_travelers_club_mileage_service/src/main/kotlin/com/example/mileageservice/Services.kt:52-59 | baz's review of the same place earns 1 (no bonus); foo's review and balance are untouched |
| Scenarios.PhotoAttached | 02_travelers_club_mileage_service/src/main/kotlin/com/example/mileageservice/Services.kt:76-88 | adding a photo to foo's review earns 1 and foo's balance becomes 3 |
| Scenarios.ReviewRemoved | 02_travelers_club_mileage_service/src/main/kotlin/com/example/mileageservice/Services.kt:99-105 | deleting foo's review takes back 3 (text, photo, bonus); foo's balance becomes 0 and the review is gone |
| Scenarios.FooReviewsBar | 02_travelers_club_mileage_service/src/main/kotlin/com/example/mileageservice/Controllers.kt:14-30 | the first event through the controller on an empty store |
| Scenarios.BazReviewsBar | 02_travelers_club_mileage_service/src/main/kotlin/com/example/mileageservice/Controllers.kt:14-30 | the second event through the controller |
| Scenarios.FooAddsPhoto | 02_travelers_club_mileage_service/src/main/kotlin/com/example/mileageservice/Controllers.kt:14-30 | the modification through the controller |
| Scenarios.FooDeletes | 02_travelers_club_mileage_service/src/main/kotlin/com/example/mileageservice/Controllers.kt:14-30 | the deletion through the controller |
| Scenarios.AddModifyDelete | 02_travelers_club_mileage_service/src/main/kotlin/com/example/mileageservice/Controllers.kt:14-44 | the four events give results 2, 1, 1 and 3, balances 2, 1, 3 and 0, and the review is then ReviewNotFound |
| Scenarios.EmptyContentRejected | 02_travelers_club_mileage_service/src/main/kotlin/com/example/mileageservice/Dtos.kt:26 | an ADD with empty content fails with "content must not be empty" and stores nothing |
| Scenarios.OverlongUserRejected | 02_travelers_club_mileage_service/src/main/kotlin/com/example/mileageservice/Entities.kt:17 | an ADD by a 256-character user id fails with DuplicateReview and stores neither a review nor a point row |
| Scenarios.OverlongAddFails | 02_travelers_club_mileage_service/src/main/kotlin/com/example/mileageservice/Services.kt:40-49 | the event that scenario handles is DuplicateReview and changes no table |
| Scenarios.SeededAdd | 02_travelers_club_mileage_service/src/test/kotlin/com/example/mileageservice/ReviewServiceTests.kt:50-83 | with the ledger service, a user holding 10 who writes a place's first review gets 2 and ends with 12, the review carrying the bonus |

## Left out

- Concurrency, row locks and transactions: each event is one atomic sequential step. The locked re-read is a plain read of the review that was just found, so its null case and the `?: 0` fallback after `transactionTemplate.execute` do not arise. Races on the first-review bonus and on point-row creation are not modelled.
- `DataIntegrityViolationException` comes from the unique indexes and from the 255-character `user_id` and `place_id` columns. Both are modelled as `SaveReview` or `SaveUserPoint` refusing the row, checked against the current tables. A null column, and any other constraint of the database engine, is not modelled.
- Repositories.Database.SaveUserPoint: the new row gets the counter's next id, but `Valid` does not track point-row ids, so the model does not prove that id differs from the other point rows' ids.
- Repositories.Database.SaveHistory: the 255-character `user_id` column of the history is not checked, so an over-long id is stored rather than making the save throw. Every history row the services write belongs to the author of a stored review, whose id already fits.
- Wall-clock timestamps (`LocalDateTime.now()`, `CURRENT_TIMESTAMP`, `modifiedAt`) are replaced by the natural-number clock. JPA id generation is replaced by the decimal numeral of a counter. The point row has no creation or modification time.
- Repositories.Database.SaveReview: creation times are strictly increasing, one clock tick per saved review. The code uses `LocalDateTime.now()`, local wall time, which can repeat or go back (a daylight-saving fall-back, a clock step) and can tie. Then `findFirstByPlaceIdOrderByCreatedAtAsc` can return a later review, or either of two with the same time, and the code would give a second review of the same place the bonus. `ReviewEvents.BonusIsEarliest`, `ReviewEvents.OneBonusPerPlace`, `ReviewEvents.EarliestIsNewIffPlaceUnreviewed` and the bonus-keeping lemmas hold only under this increasing clock.
- The `isActive` (`is_deleted`) column is not read by any operation, so it is not modelled.
- Entities are values in the tables, not shared objects. Aliasing between a loaded entity and its stored row is not captured; every change is written back explicitly.
- Kotlin `Int` and the integer `point` column are modelled as unbounded integers. Scores stay in 0..3, but a balance could in principle exceed 32 bits; the database would then reject `point = point + :point` with an overflow error, and that error is not modelled.
- `findFirstByPlaceIdOrderByCreatedAtAsc` is declared to return a non-null review. It returns an `Option`, always present where the services call it, because the new review has just been stored.
- HTTP and JSON: `ResponseEntity`, `BaseResponseBody` and `ErrorResponse` are not modelled; only the status code and message are kept. The constant HTML endpoints of both controllers are also left out.
- `UserPointStatus` is not part of this model; `GetUserPoint` returns the integer it wraps.
- The application bootstrap (`MileageserviceApplication.kt`) is not modelled.
- `main()` of the schedule recommender reads standard input and prints, so it is not modelled; `Recommend` takes the parsed places and budget.
- Schedule.MaxScoreIsOptimal: the upper bound is proved only for non-negative durations. With a negative duration, a place that "fits" can raise the remaining time, and the recursion is no longer the subset-sum maximum.
- ReviewEvents.ReviewAdded: states that the new review gets an id not in the table before, not which one. `Repositories.Database.SaveReview` pins it to the counter's numeral.
