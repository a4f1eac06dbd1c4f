/** Shared wrappers: optional values, the three recoverable error kinds of the
    helpdesk back end, and the two ways a JavaScript request or update record
    can leave a key out. */
module Common {

  datatype Option<+T> = None | Some(value: T)

  /** The error classes thrown by the services: ValidationError (400),
      NotFoundError (404) and ForbiddenError (403), each with its message. */
  datatype Error =
    | Validation(msg: string)
    | NotFound(msg: string)
    | Forbidden(msg: string)

  datatype Result<+T> = Ok(value: T) | Err(error: Error)

  /** The outcome of a check that returns nothing or throws. */
  datatype Outcome = Pass | Fail(error: Error)

  /** A key of a JavaScript request body: missing (`undefined`), an explicit
      `null`, or a value. */
  datatype Input<+T> = Undefined | Null | Given(value: T)

  /** A key of a partial update record handed to a storage model: `Keep` is
      a key whose value is `undefined`, so the column is left untouched. */
  datatype Patch<+T> = Keep | Set(value: T)

  /** `x || null` on a string that may be null: the empty string is falsy. */
  function NullIfEmpty(s: Option<string>): (r: Option<string>)
    ensures r.Some? <==> s.Some? && s.value != ""
    ensures r.Some? ==> r == s
  {
    if s == Some("") then None else s
  }

  /** `x || null` on an id that may be null: 0 is falsy. */
  function NullIfZero(d: Option<int>): (r: Option<int>)
    ensures r.Some? <==> d.Some? && d.value != 0
    ensures r.Some? ==> r == d
  {
    if d == Some(0) then None else d
  }
}
