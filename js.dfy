/** Values of the JavaScript runtime the services work with: absent values,
    thrown errors, promises and truthiness. */
module Js {

  /** `undefined`/`null` versus a present value. The services only ever test
      these for truthiness, so `null` and `undefined` are one case here. */
  datatype Option<+T> = None | Some(value: T)

  /** How a service call ends: with a value, or with a thrown error. */
  datatype Result<+T> = Ok(value: T) | Err(error: Error)

  /** The errors a service call can throw. The first four are the
      `HttpException`s the services raise; `TypeError` is the runtime error of
      reading a property of `undefined`; `DatabaseError` is a write the
      database rejects. The framework answers the last two with status 500. */
  datatype Error =
    | NotFound
    | Forbidden
    | Conflict
    | UnprocessableEntity
    | TypeError
    | DatabaseError

  /** The HTTP status each error is answered with. */
  function StatusCode(e: Error): (code: nat)
    ensures 400 <= code < 600
    ensures code < 500 <==> !(e == TypeError || e == DatabaseError)
    ensures code == 500 <==> (e == TypeError || e == DatabaseError)
  {
    match e
    case NotFound => 404
    case Forbidden => 403
    case Conflict => 409
    case UnprocessableEntity => 422
    case TypeError => 500
    case DatabaseError => 500
  }

  /** A promise that was never awaited: an object, whatever it settles to. */
  datatype Promise<+T> = Promise(settlesTo: T)

  /** Every object, and so every promise, is truthy in JavaScript. */
  predicate PromiseTruthy<T>(p: Promise<T>)
  {
    match p
    case Promise(_) => true
  }

  /** A string that is present and not empty. */
  predicate TruthyString(s: Option<string>)
  {
    s.Some? && s.value != ""
  }

  /** A number that is present and not zero. */
  predicate TruthyNumber(n: Option<nat>)
  {
    n.Some? && n.value != 0
  }
}
