/** The exceptions the services throw, and the store-plus-result pair a write returns. */
module Errors {
  import opened Wrappers

  /** Why a `BadRequestException` was raised. */
  datatype BadRequestReason =
    | MalformedToken        // the header does not split into the expected number of parts
    | AlreadyRegistered     // register: the email already has an account
    | WrongLoginInfo        // authenticate: unknown email or wrong password (one message for both)
    | RefreshTokenExpected  // parseBearerToken: payload type is not 'refresh'
    | AccessTokenExpected   // parseBearerToken: payload type is not 'access'
    | ValidationFailed      // a request body violates its DTO's validation rules

  /** Which lookup raised a `NotFoundException`. */
  datatype Missing = MovieMissing | DirectorMissing | GenreMissing

  /** A constraint of the relational schema that rejected a write. */
  datatype Constraint =
    | UniqueTitle           // movie.title is declared unique
    | TitleRequired         // movie.title is not nullable
    | DirectorReferenced    // movie.directorId is a non-nullable foreign key

  /** What the JWT library reports when it refuses a token. */
  datatype TokenFailure = TokenExpired | TokenInvalid

  datatype Error =
    | BadRequest(reason: BadRequestReason)   // HTTP 400
    | NotFound(what: Missing)                // HTTP 404
    | Unauthorized(cause: TokenFailure)      // HTTP 401, raised by the bearer-token middleware
    | TokenRejected(failure: TokenFailure)   // an error of the JWT library escaping to the caller
    | QueryFailed(constraint: Constraint)    // an error of the database escaping to the caller

  /** The state a service leaves behind, together with what it returned or threw. */
  datatype Outcome<S, T> = Outcome(store: S, result: Result<T, Error>)
}
