/** Option, Result and Outcome: the stand-ins for Java's null and for
    methods that either return a value or throw. */
module Base {

  datatype Option<+T> = None | Some(value: T)

  datatype Result<+T, +E> = Success(value: T) | Failure(error: E)

  /** The outcome of a `void` Java method: it returns, or it throws. */
  datatype Outcome<+E> = Pass | Fail(error: E)

  /** A Java `String` that may be null, rendered as `String.valueOf` and
      `StringBuffer.append` render it. */
  function JavaText(s: Option<string>): (r: string)
    ensures s.Some? ==> r == s.value
    ensures s.None? ==> r == "null"
  {
    match s
    case None => "null"
    case Some(t) => t
  }

  /** The `null || isEmpty()` test every guard of the DAO applies. */
  predicate Present(s: Option<string>)
    ensures Present(s) ==> s.Some? && JavaText(s) == s.value != ""
    ensures s.None? ==> !Present(s)
  {
    s.Some? && s.value != ""
  }
}
