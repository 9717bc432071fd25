/** The parts of the .NET runtime that the modelled library leans on:
    references that may be null, the exceptions it raises, and the
    exception objects a failed Result keeps. */
module Runtime {

  /** A C# reference that may be null. Parameters marked [AllowNull] take
      one of these; every other reference in the library is non-null. */
  datatype Nullable<+T> = Null | Ref(target: T)

  /** The value type of the plain (untyped) Result, which carries no data. */
  datatype Unit = Unit

  /** The exceptions the modelled members raise. */
  datatype Thrown =
    | InvalidOperationException
    | InvalidCastException(message: string)
    | IndexOutOfRangeException

  /** What a member that may throw does: return a value or raise an exception. */
  datatype Outcome<+T> = Returns(value: T) | Throws(thrown: Thrown)

  /** An exception object as a Result stores it: its type name and its message. */
  datatype ExceptionInfo = ExceptionInfo(typeName: string, message: string)
}
