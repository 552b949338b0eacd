/** Optional values and the outcome of a request that can be refused. */
module Wrappers {

  datatype Option<T> = None | Some(value: T) {
    /** The value, or `default` when there is none. */
    function GetOr(default: T): T {
      match this
      case Some(v) => v
      case None => default
    }
  }

  /** Why a request was refused.
      - AppError: an error the controllers raise themselves, with its HTTP status.
      - ValidationError: the document store's schema validation refused a
        document; `paths` names every field that failed.
      - QueryError: the document store refused the query itself. */
  datatype Failure =
    | AppError(message: string, statusCode: nat)
    | ValidationError(paths: set<string>)
    | QueryError(reason: string)

  datatype Result<T> = Ok(value: T) | Fail(failure: Failure)
}
