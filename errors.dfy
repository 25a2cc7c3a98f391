/** The error kinds the leaderboard and the record store raise, with the HTTP status each carries. */
module Errors {

  datatype Error =
    | AlreadyExistingPlayer      // 400: the id to create is already stored
    | NotFoundPlayer             // 404: no player with the given id
    | PlayerIdValidation         // 422: the payload's id is not a positive integer
    | PlayerMmrValidation        // 422: the payload's mmr is not a non-negative integer
    | GetStrategyValidation      // 422: `strategy` is neither "around_player" nor "rank"
    | GetOffsetValidation        // 422: `offset` is not a non-negative number
    | GetLimitValidation         // 422: `limit` is not a number in [0, 100]
    | GetRangeValidation         // 422: `range` is not a number in [0, 50]
    | GetPlayerIdValidation      // 422: `player_id` is not a number
    | Internal                   // 500: a consistency assertion of the leaderboard failed

  /** The validation errors are exactly the kinds derived from the 422 base class. */
  predicate IsValidation(e: Error) {
    e.PlayerIdValidation? || e.PlayerMmrValidation? || e.GetStrategyValidation? ||
    e.GetOffsetValidation? || e.GetLimitValidation? || e.GetRangeValidation? ||
    e.GetPlayerIdValidation?
  }

  /** The HTTP status code an error carries. */
  function Code(e: Error): (code: int)
    ensures code == 422 <==> IsValidation(e)
    ensures code == 400 <==> e.AlreadyExistingPlayer?
    ensures code == 404 <==> e.NotFoundPlayer?
    ensures code == 500 <==> e.Internal?
  {
    match e
    case AlreadyExistingPlayer => 400
    case NotFoundPlayer => 404
    case Internal => 500
    case _ => 422
  }

  /** The outcome of an operation that returns a value or throws. */
  datatype Result<T> = Ok(value: T) | Err(error: Error)

  /** The outcome of an operation that returns nothing or throws. */
  datatype Outcome = Pass | Fail(error: Error)

  /** The outcome of a lookup that may find nothing (`null` or `undefined`). */
  datatype Option<T> = None | Some(value: T)
}
