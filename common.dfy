/** Shared shapes of the backend's handlers: optional values (JavaScript's
    `undefined`), the JSON error envelope every handler answers with, and numbers
    as JavaScript's `Number(...)` leaves them. */
module Common {

  datatype Option<+T> = None | Some(value: T)

  /** What a handler sends: the success payload, or the HTTP status with the
      envelope's dotted `message` and its `detail.code` ("" when there is none). */
  datatype Result<+T> = Ok(value: T) | Err(status: nat, message: string, detail: string)

  /** A JavaScript number after `Number(...)`: a finite value, or NaN/Infinity. */
  datatype Num = Finite(x: real) | NonFinite

  function Abs(x: int): (r: int)
    ensures r >= 0 && (r == x || r == -x)
  {
    if x < 0 then -x else x
  }

  /** `s.startsWith(prefix)` */
  predicate StartsWith(s: string, prefix: string)
  {
    |prefix| <= |s| && s[..|prefix|] == prefix
  }
}
