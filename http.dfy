/**
 * The responses the handlers write with `res.status(code).json(body)` and
 * `res.send(buffer)`, and the middleware outcome "answer now" or "call next()".
 */
module Http {
  import opened Db

  newtype Byte = b: int | 0 <= b < 256

  /** One entry of express-validator's `errors.array()`: the offending field and its message. */
  datatype FieldError = FieldError(path: string, msg: string)

  datatype Body =
    | Error(error: string)                // { error: msg }
    | Errors(errors: seq<FieldError>)     // { errors: [...] }
    | Content(bytes: seq<Byte>)           // res.send(buffer)
    | Created                             // { success: true }
    | SignedIn(user: Row)                 // { success: true, user }

  datatype Response = Response(status: int, body: Body)

  /** The one message every 500 carries, whatever error caused it. */
  const InternalError := Response(500, Error("Internal server error"))
}
