/** Failure-carrying values shared by the cipher models. */
module Results {

  /** A value that may be absent, as a JavaScript `T | null`. */
  datatype Option<+T> = None | Some(value: T)

  /** The outcome of an encrypt or decrypt action: a result text, or the
      message a component writes to its `error` field. */
  datatype Result<+T> = Ok(value: T) | Err(message: string)

  /**
    A numeric input's `parseInt(value) || d`: `NaN` (here `None`) and 0 are
    both falsy, so either gives the default d; any other number is kept.
  */
  function ParsedOr(parsed: Option<int>, d: int): (v: int)
    ensures parsed.Some? && parsed.value != 0 ==> v == parsed.value
    ensures parsed.None? || parsed.value == 0 ==> v == d
  {
    match parsed
    case Some(n) => if n == 0 then d else n
    case None => d
  }
}
