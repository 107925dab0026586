/**
 * The error outcomes of the route handlers: an HTTPException with its status code and
 * detail, or the MultipleResultsFound exception that SQLAlchemy's `scalar_one_or_none`
 * raises when a query matches more than one row (FastAPI turns that into a 500).
 */
module Http {
  datatype ApiError =
    | HttpError(status: nat, detail: string)
    | MultipleResultsFound

  /** What a handler either returns or raises. */
  datatype Result<+T> = Ok(value: T) | Err(error: ApiError)

  datatype Unit = Unit
}
