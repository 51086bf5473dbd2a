/** The exceptions that cross the accessor and the DAO, and the two rules
    that decide which one a caller finally sees: an exception thrown by a
    `finally` block replaces the pending one, and the DAO re-wraps what it
    catches into `DbAccessException`. */
module Faults {
  import opened Base

  datatype Fault =
    | IllegalArgument(msg: Option<string>)
    | ClassNotFound(msg: Option<string>)
    | SqlFailure(msg: Option<string>)
    /** Raised by the JVM itself; its message is not modelled. */
    | NullPointer
    /** `String.substring(0, -1)`; its message is not modelled. */
    | IndexOutOfBounds
    /** Any other exception a driver or an accessor may throw. */
    | OtherException(msg: Option<string>)
    /** `DbAccessException(ex.getMessage(), ex)`. */
    | DbAccess(msg: Option<string>, cause: Fault)

  /** `Throwable.getMessage()`. */
  function Message(f: Fault): (r: Option<string>)
    ensures f.NullPointer? || f.IndexOutOfBounds? ==> r.None?
    ensures !(f.NullPointer? || f.IndexOutOfBounds?) ==> r == f.msg
  {
    match f
    case IllegalArgument(m) => m
    case ClassNotFound(m) => m
    case SqlFailure(m) => m
    case NullPointer => None
    case IndexOutOfBounds => None
    case OtherException(m) => m
    case DbAccess(m, _) => m
  }

  /** What a DAO method throws for an exception `f` raised inside its `try`.
      With `catchAll` the method has a `catch (Exception ex)` clause; without
      it only `SQLException` and `ClassNotFoundException` are caught and
      anything else leaves the method unchanged. */
  function Caught(f: Fault, catchAll: bool): (r: Fault)
    ensures catchAll || f.SqlFailure? || f.ClassNotFound? ==> r.DbAccess? && r.cause == f && r.msg == Message(f)
    ensures !(catchAll || f.SqlFailure? || f.ClassNotFound?) ==> r == f
  {
    if catchAll || f.SqlFailure? || f.ClassNotFound? then DbAccess(Message(f), f) else f
  }

  /** The result of `try { ... } finally { cleanup }`: an exception thrown
      by the cleanup replaces whatever the `try` returned or threw. */
  function Finish<T>(primary: Result<T, Fault>, cleanup: Outcome<Fault>): (r: Result<T, Fault>)
    ensures cleanup.Pass? ==> r == primary
    ensures cleanup.Fail? ==> r == Failure(cleanup.error)
  {
    if cleanup.Fail? then Failure(cleanup.error) else primary
  }
}
