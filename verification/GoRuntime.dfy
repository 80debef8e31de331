/** What the modelled code takes from the Go language: pointers that may be nil, the three ways a call
    can end, and 64-bit integers whose conversions wrap around. */
module GoRuntime {

  /** A pointer to a value, or nil; also the answer of a remote call, `None` being a failed call. */
  datatype Option<+T> = None | Some(value: T)

  datatype Error =
    | CouldNotGetBlock
    | CouldNotGetTransfers
    | InvalidBlockIdentifier
    | CouldNotGetDeploy
    | InvalidDeploy
    | NoSignerPurse
    | NoValidatorPurse
    | NoPaymentAmount
    | NullTransactionIdentifier
    | CouldNotGetStateItem
    | InvalidAccount
    | CouldNotGetBalance
    | UnavailableOffline
    | UnableToParse

  /** How a Go call ends: with a value, with an error, or with a run-time panic (a slice out of range,
      a nil dereference, a failed type assertion). */
  datatype Outcome<+T> = Ok(value: T) | Err(error: Error) | Panic {
    predicate IsFailure() {
      !Ok?
    }

    function PropagateFailure<U>(): (r: Outcome<U>)
      requires !Ok?
    {
      match this
      case Err(e) => Err(e)
      case Panic => Panic
    }

    function Extract(): T
      requires Ok?
    {
      value
    }

    /** `if err != nil { return e }`: the error is replaced, a panic goes through. */
    function WithError(e: Error): (r: Outcome<T>)
    {
      if Err? then Err(e) else this
    }
  }

  /** A remote call whose failure is reported as `e`. */
  function Require<T>(answer: Option<T>, e: Error): (r: Outcome<T>)
  {
    if answer.Some? then Ok(answer.value) else Err(e)
  }

  const TWO_63: int := 0x8000_0000_0000_0000
  const TWO_64: int := 0x1_0000_0000_0000_0000

  type int64 = x: int | -0x8000_0000_0000_0000 <= x < 0x8000_0000_0000_0000
  type uint64 = x: int | 0 <= x < 0x1_0000_0000_0000_0000

  /** The int64 with the same low 64 bits as `x`: the conversion `int64(x)` and every int64 sum. */
  function WrapInt64(x: int): (r: int64)
    ensures r == x <==> -TWO_63 <= x < TWO_63
  {
    if -TWO_63 <= x < TWO_63 then x else (x + TWO_63) % TWO_64 - TWO_63
  }

  /** The uint64 with the same low 64 bits as `x`: the conversion `uint64(x)`. */
  function WrapUint64(x: int): (r: uint64)
    ensures r == x <==> 0 <= x < TWO_64
  {
    if 0 <= x < TWO_64 then x else x % TWO_64
  }

  /** Converting a uint64 to int64 and back loses nothing, although the int64 may be negative. */
  lemma Int64RoundTrip(u: uint64)
    ensures WrapUint64(WrapInt64(u)) == u
    ensures WrapInt64(u) < 0 <==> u >= TWO_63
  {
  }

  /** Wrapping keeps the low 64 bits, whatever the integer. */
  lemma WrapsAround(x: int)
    ensures (WrapInt64(x) - x) % TWO_64 == 0
    ensures (WrapUint64(x) - x) % TWO_64 == 0
  {
  }
}
