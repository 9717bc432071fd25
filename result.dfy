/** Result and Result<T>: a success-or-failure record with an error text,
    an optional exception, an append-only list of notes and, for the typed
    form, a stored value. The untyped C# `Result` is modelled as
    `Result<Unit>`; the calling method found by walking the stack is an
    ordinary `caller` argument. */
module Results {
  import opened Runtime
  import opened Text
  import opened MayBes

  /** The invariant the protected flag/text constructor enforces: a success
      has a blank error text and a failure a non-blank one. */
  predicate Consistent(isSuccess: bool, error: string) {
    isSuccess == IsBlank(error)
  }

  /** The Error text of a failure caused by an exception. */
  function ExceptionError(callingMethod: string, exception: ExceptionInfo): string {
    "Exception thrown by  " + callingMethod + ". It threw exception '" + exception.typeName
      + "', with error message '" + exception.message + "'"
  }

  /** Everything a Result holds, as a value. */
  datatype ResultValue<T> = ResultValue(
    isSuccess: bool,
    error: string,
    exception: MayBe<ExceptionInfo>,
    notes: seq<string>,
    hasNotes: bool,
    callingMethod: string,
    value: Nullable<T>)
  {
    /** What every Result built by this library satisfies: the constructor
        invariant, HasNotes tracking whether a note was added, a value
        exactly on success, and an exception only on failure. */
    predicate WellFormed() {
      && Consistent(isSuccess, error)
      && (hasNotes <==> |notes| > 0)
      && (isSuccess <==> value.Ref?)
      && (exception.HasValue() ==> !isSuccess)
    }

    /** Result<T>.Value: the stored value on success, InvalidOperationException
        on failure. */
    function Value(): (o: Outcome<Nullable<T>>)
      ensures o.Throws? <==> !isSuccess
      ensures o.Throws? ==> o.thrown == InvalidOperationException
      ensures WellFormed() && isSuccess ==> o.Returns? && o.value.Ref?
    {
      if !isSuccess then Throws(InvalidOperationException) else Returns(value)
    }

    /** AddNote on the value view. */
    function WithNote(note: string): (r: ResultValue<T>)
      ensures r.notes == notes + [note] && r.hasNotes
      ensures r == this.(notes := r.notes, hasNotes := true)
      ensures WellFormed() ==> r.WellFormed()
    {
      this.(notes := notes + [note], hasNotes := true)
    }
  }

  /** The protected constructor Result(isSuccess, error, callingMethod) and
      its typed form with a value: InvalidOperationException when the flag
      and the error text disagree, otherwise a result with no notes and no
      exception. */
  function Construct<T>(isSuccess: bool, error: string, callingMethod: string, value: Nullable<T>)
    : (o: Outcome<ResultValue<T>>)
    ensures o.Throws? <==> !Consistent(isSuccess, error)
    ensures o.Throws? ==> o.thrown == InvalidOperationException
    ensures o.Returns? ==>
      && o.value.isSuccess == isSuccess && o.value.error == error
      && o.value.notes == [] && !o.value.hasNotes && o.value.exception.HasNoValue()
      && o.value.callingMethod == callingMethod && o.value.value == value
    ensures o.Returns? && (isSuccess <==> value.Ref?) ==> o.value.WellFormed()
  {
    if isSuccess && !IsBlank(error) then Throws(InvalidOperationException)
    else if !isSuccess && IsBlank(error) then Throws(InvalidOperationException)
    else Returns(ResultValue(isSuccess, error, MayBe(Null), [], false, callingMethod, value))
  }

  /** The protected constructor Result(exception, callingMethod): always a
      failure, with the exception stored and an error text naming the
      calling method, the exception's type and its message. */
  function ConstructFromException<T>(exception: ExceptionInfo, callingMethod: string): (r: ResultValue<T>)
    ensures r.WellFormed()
    ensures !r.isSuccess && r.exception == MayBe(Ref(exception)) && r.notes == []
    ensures r.callingMethod == callingMethod
    ensures Contains(r.error, callingMethod)
    ensures Contains(r.error, exception.typeName) && Contains(r.error, exception.message)
  {
    var e := ExceptionError(callingMethod, exception);
    var k1 := |"Exception thrown by  "|;
    var k2 := k1 + |callingMethod| + |". It threw exception '"|;
    var k3 := k2 + |exception.typeName| + |"', with error message '"|;
    assert OccursAt(e, callingMethod, k1);
    assert OccursAt(e, exception.typeName, k2);
    assert OccursAt(e, exception.message, k3);
    NotBlank(e, 0);
    ResultValue(false, e, MayBe(Ref(exception)), [], false, callingMethod, Null)
  }

  /** Ok / Ok<T>(value): the checked constructor applied to success and an
      empty error text. */
  function OkValue<T>(value: T, callingMethod: string): (r: ResultValue<T>)
    ensures Construct(true, "", callingMethod, Ref(value)) == Returns(r)
    ensures r.WellFormed() && r.Value() == Returns(Ref(value))
  {
    ResultValue(true, "", MayBe(Null), [], false, callingMethod, Ref(value))
  }

  /** Fail / Fail<T>(message): the checked constructor applied to failure and
      the message, which must not be blank. */
  function FailValue<T>(message: string, callingMethod: string): (r: ResultValue<T>)
    requires !IsBlank(message)
    ensures Construct(false, message, callingMethod, Null) == Returns(r)
    ensures r.WellFormed() && r.error == message && r.Value() == Throws(InvalidOperationException)
  {
    ResultValue(false, message, MayBe(Null), [], false, callingMethod, Null)
  }

  /** The Result object. Get-only properties are constants; Notes and
      HasNotes are the two fields AddNote changes. */
  class Result<T> {
    const IsSuccess: bool
    const Error: string
    const Exception: MayBe<ExceptionInfo>
    const CallingMethod: string
    const StoredValue: Nullable<T>
    var Notes: seq<string>
    var HasNotes: bool

    /** The object's current contents as a value. */
    function View(): ResultValue<T>
      reads this
    {
      ResultValue(IsSuccess, Error, Exception, Notes, HasNotes, CallingMethod, StoredValue)
    }

    ghost predicate Valid()
      reads this
    {
      View().WellFormed()
    }

    predicate IsFailure() {
      !IsSuccess
    }

    /** The checked constructors, given a consistent flag and text: the new
        object holds the value the checked construction describes. */
    constructor FromFlag(value: Nullable<T>, isSuccess: bool, error: string, callingMethod: string)
      requires Consistent(isSuccess, error)
      ensures View() == Construct(isSuccess, error, callingMethod, value).value
    {
      IsSuccess := isSuccess;
      Error := error;
      Exception := MayBe(Null);
      CallingMethod := callingMethod;
      StoredValue := value;
      Notes := [];
      HasNotes := false;
    }

    /** The exception constructor. */
    constructor FromException(exception: ExceptionInfo, callingMethod: string)
      ensures View() == ConstructFromException(exception, callingMethod)
      ensures Valid()
    {
      var v := ConstructFromException<T>(exception, callingMethod);
      IsSuccess := false;
      Error := v.error;
      Exception := v.exception;
      CallingMethod := callingMethod;
      StoredValue := Null;
      Notes := [];
      HasNotes := false;
    }

    /** The copy constructor: every property, and the notes copied one by
        one into a new list. */
    constructor Copy(result: Result<T>)
      ensures View() == result.View()
    {
      var notes: seq<string> := [];
      var i := 0;
      while i < |result.Notes|
        invariant 0 <= i <= |result.Notes|
        invariant notes == result.Notes[..i]
      {
        notes := notes + [result.Notes[i]];
        i := i + 1;
      }
      CallingMethod := result.CallingMethod;
      Error := result.Error;
      Exception := result.Exception;
      HasNotes := result.HasNotes;
      IsSuccess := result.IsSuccess;
      StoredValue := result.StoredValue;
      Notes := notes;
    }

    /** Result<T>.Value. */
    function Value(): (o: Outcome<Nullable<T>>)
      reads this
      ensures o == View().Value()
    {
      if !IsSuccess then Throws(InvalidOperationException) else Returns(StoredValue)
    }

    /** AddNote appends the note and sets HasNotes; nothing else changes. */
    method AddNote(note: string)
      modifies this
      ensures View() == old(View()).WithNote(note)
      ensures old(Valid()) ==> Valid()
    {
      Notes := Notes + [note];
      HasNotes := true;
    }
  }

  /** Ok() and Ok<T>(value). */
  method Ok<T>(value: T, callingMethod: string) returns (r: Result<T>)
    ensures fresh(r) && r.View() == OkValue(value, callingMethod)
  {
    r := new Result.FromFlag(Ref(value), true, "", callingMethod);
  }

  /** Fail(message) and Fail<T>(message); a blank message would make the
      constructor throw. */
  method Fail<T>(message: string, callingMethod: string) returns (r: Result<T>)
    requires !IsBlank(message)
    ensures fresh(r) && r.View() == FailValue(message, callingMethod)
  {
    r := new Result.FromFlag(Null, false, message, callingMethod);
  }

  /** Fail(exception) and Fail<T>(exception). */
  method FailException<T>(exception: ExceptionInfo, callingMethod: string) returns (r: Result<T>)
    ensures fresh(r) && r.View() == ConstructFromException(exception, callingMethod)
  {
    r := new Result.FromException(exception, callingMethod);
  }

  /** Initialize<T>(value, error): Ok when the value is present (the error
      text is then discarded), otherwise a failure with the error text. */
  function InitializeValue<T>(value: Nullable<T>, error: string, callingMethod: string): (r: ResultValue<T>)
    requires value.Null? ==> !IsBlank(error)
    ensures r.WellFormed()
    ensures r.isSuccess <==> value.Ref?
    ensures r.isSuccess ==> r.error == "" && r.value == value
    ensures !r.isSuccess ==> r.error == error
  {
    match value
    case Ref(v) => OkValue(v, callingMethod)
    case Null => FailValue(error, callingMethod)
  }

  /** Initialize<T>(T value, error) and Result<T>.Initialize(value, error). */
  method Initialize<T>(value: Nullable<T>, error: string, callingMethod: string) returns (r: Result<T>)
    requires value.Null? ==> !IsBlank(error)
    ensures fresh(r) && r.View() == InitializeValue(value, error, callingMethod)
  {
    var e := if value.Ref? then "" else error;
    r := new Result.FromFlag(value, value.Ref?, e, callingMethod);
  }

  /** Initialize<T>(MayBe<T> value, error): the same decision on the MayBe's
      content. */
  method InitializeMayBe<T>(value: MayBe<T>, error: string, callingMethod: string) returns (r: Result<T>)
    requires value.HasNoValue() ==> !IsBlank(error)
    ensures fresh(r) && r.View() == InitializeValue(value.slot, error, callingMethod)
  {
    if value.HasValue() {
      r := new Result.FromFlag(value.slot, true, "", callingMethod);
    } else {
      r := new Result.FromFlag(Null, false, error, callingMethod);
    }
  }

  /** Initialize(bool predicate, errorMessage): Ok iff the condition holds. */
  function InitializeBool(condition: bool, errorMessage: string, callingMethod: string): (r: ResultValue<Unit>)
    requires !condition ==> !IsBlank(errorMessage)
    ensures r.WellFormed()
    ensures r.isSuccess <==> condition
    ensures !condition ==> r.error == errorMessage
  {
    if condition then OkValue(Unit, callingMethod) else FailValue(errorMessage, callingMethod)
  }

  /** The message of a failed implicit cast to Result<T>. */
  function CastError(typeName: string): string {
    "Result<" + typeName + "> invalid implicit cast."
  }

  /** Result<T>.ToResult(value) and the implicit cast from T: Ok when the
      value is present, otherwise a failure naming the type. */
  function CastValue<T>(value: Nullable<T>, typeName: string, callingMethod: string): (r: ResultValue<T>)
    ensures r.WellFormed()
    ensures r.isSuccess <==> value.Ref?
    ensures r.isSuccess ==> r.value == value
    ensures !r.isSuccess ==> r.error == CastError(typeName)
  {
    NotBlank(CastError(typeName), 0);
    InitializeValue(value, CastError(typeName), callingMethod)
  }

  /** A Result built by Ok or Fail has no notes, and Ok has an empty error
      text and no exception. */
  lemma FactoriesStartWithoutNotes<T>(value: T, message: string, callingMethod: string)
    requires !IsBlank(message)
    ensures OkValue(value, callingMethod).notes == [] && !OkValue(value, callingMethod).hasNotes
    ensures OkValue(value, callingMethod).error == "" && OkValue(value, callingMethod).exception.HasNoValue()
    ensures FailValue<T>(message, callingMethod).notes == [] && !FailValue<T>(message, callingMethod).hasNotes
  {
  }
}
