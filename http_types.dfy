/**
 * The vocabulary the request and response code is written against.
 * `Method` and `StatusCode` are closed enumerations; how a method is
 * spelled on the wire and how a status is printed (its numeric code and its
 * reason phrase) are defined in method.rs and status_code.rs, which are not
 * part of this model, so every member that needs them takes them as
 * function parameters of the types below.
 */
module HttpTypes {
  import opened Wrappers

  datatype Method = GET | POST | DELETE | PUT | HEAD | CONNECT | OPTIONS | TRACE | PATCH

  datatype StatusCode = Ok | Created | BadRequest | Unauthorized | NotFound
                      | MethodNotAllowed | InternalServerError

  /** `Method::from_str`: the recognised verb for a token, or None (a `MethodError`). */
  type MethodParser = string -> Option<Method>

  /** `StatusCode`'s `Display` (the numeric code) or its `reason_phrase`. */
  type StatusText = StatusCode -> string
}
