/** The extension methods of ResultExtensions over Result objects. A method
    that hands back its input returns the very same object; one that builds
    a new Result returns a fresh object whose contents are those the
    matching function of ResultAlgebra describes. Callbacks are pure
    functions; an Action is recorded by returning the arguments it was
    called with. The untyped and typed overloads that differ only in the
    static type of the Result are modelled once, generically. */
module ResultExtensions {
  import opened Runtime
  import opened Text
  import opened MayBes
  import opened Results
  import ResultAlgebra

  /** MayBe<T>.ToResult(errorMessage). */
  method ToResult<T>(nullable: MayBe<T>, errorMessage: string, callingMethod: string) returns (r: Result<T>)
    requires nullable.HasNoValue() ==> !IsBlank(errorMessage)
    ensures fresh(r) && r.View() == ResultAlgebra.ToResult(nullable, errorMessage, callingMethod)
  {
    if nullable.HasNoValue() {
      r := Fail(errorMessage, callingMethod);
      return;
    }
    r := Ok(nullable.slot.target, callingMethod);
  }

  /** Initialize(MayBe<T> data, errorMessage): the same as ToResult. */
  method Initialize<T>(data: MayBe<T>, errorMessage: string, callingMethod: string) returns (r: Result<T>)
    requires data.HasNoValue() ==> !IsBlank(errorMessage)
    ensures fresh(r) && r.View() == ResultAlgebra.ToResult(data, errorMessage, callingMethod)
  {
    if data.HasValue() {
      r := Ok(data.slot.target, callingMethod);
    } else {
      r := Fail(errorMessage, callingMethod);
    }
  }

  /** OnSuccess(Action), for Result and Result<T>: the action runs only on
      success, and the input is returned. */
  method OnSuccessAction<T>(result: Result<T>) returns (r: Result<T>, invoked: bool)
    ensures r == result
    ensures invoked <==> result.IsSuccess
  {
    if result.IsFailure() {
      return result, false;
    }
    invoked := true;
    r := result;
  }

  /** OnSuccess(Action<T>): the action receives the value, only on success. */
  method OnSuccessActionWithValue<T>(result: Result<T>) returns (r: Result<T>, received: seq<T>)
    requires result.Valid()
    ensures r == result
    ensures !result.IsSuccess ==> received == []
    ensures result.IsSuccess ==> |received| == 1 && result.Value() == Returns(Ref(received[0]))
  {
    if result.IsFailure() {
      return result, [];
    }
    received := [result.StoredValue.target];
    r := result;
  }

  /** OnSuccess(Func<T, T>): a failure is returned as is; a success gives a
      new Ok around the function's value. */
  method OnSuccessMap<T>(result: Result<T>, func: T -> T, callingMethod: string) returns (r: Result<T>)
    requires result.Valid()
    ensures !result.IsSuccess ==> r == result
    ensures result.IsSuccess ==> fresh(r)
    ensures r.View() == ResultAlgebra.OnSuccessMap(result.View(), func, callingMethod)
  {
    if result.IsFailure() {
      return result;
    }
    r := Ok(func(result.StoredValue.target), callingMethod);
  }

  /** OnSuccess(Func<T, Result<T>>): the function's result replaces a
      successful input. */
  method OnSuccessBind<T>(result: Result<T>, func: T -> Result<T>) returns (r: Result<T>)
    requires result.Valid()
    ensures !result.IsSuccess ==> r == result
    ensures result.IsSuccess ==> r == func(result.StoredValue.target)
  {
    if result.IsFailure() {
      return result;
    }
    r := func(result.StoredValue.target);
  }

  /** OnSuccess(Func<T, Result>): on success the function checks the value;
      if the check fails, the closure passed to OnFailure replaces the
      result by a failure with the check's error text. */
  method OnSuccessCheck<T>(result: Result<T>, func: T -> Result<Unit>, callingMethod: string) returns (r: Result<T>)
    requires result.Valid()
    requires result.IsSuccess ==> func(result.StoredValue.target).Valid()
    ensures !result.IsSuccess ==> r == result
    ensures result.IsSuccess && func(result.StoredValue.target).IsSuccess ==> r == result
    ensures result.IsSuccess && !func(result.StoredValue.target).IsSuccess ==> fresh(r)
    ensures result.IsSuccess && !func(result.StoredValue.target).IsSuccess ==>
      r.View() == FailValue(func(result.StoredValue.target).Error, callingMethod)
  {
    r := result;
    if result.IsFailure() {
      return;
    }
    var internalResult := func(result.StoredValue.target);
    if internalResult.IsFailure() {
      r := Fail(internalResult.Error, callingMethod);
    }
  }

  /** OnSuccess<TIn, TOut>(Func<TIn, TOut>): builds the new result, then adds
      every note of the input to it when the input has notes. */
  method OnSuccessConvert<TIn, TOut>(result: Result<TIn>, func: TIn -> TOut, callingMethod: string)
    returns (newResult: Result<TOut>)
    requires result.Valid()
    ensures fresh(newResult)
    ensures newResult.View() == ResultAlgebra.OnSuccessConvert(result.View(), func, callingMethod)
  {
    if result.IsFailure() {
      if result.Exception.HasValue() {
        newResult := FailException(result.Exception.slot.target, callingMethod);
      } else {
        newResult := Fail(result.Error, callingMethod);
      }
    } else {
      newResult := Ok(func(result.StoredValue.target), callingMethod);
    }
    assert newResult.View() == ResultAlgebra.Converted(result.View(), func, callingMethod);
    if result.HasNotes {
      AddNotes(newResult, result.Notes);
    }
  }

  /** The foreach loop of OnSuccess<TIn, TOut>: AddNote for each note, in
      order. */
  method AddNotes<T>(target: Result<T>, notes: seq<string>)
    modifies target
    ensures target.View() == old(target.View()).(notes := old(target.Notes) + notes,
                                                 hasNotes := old(target.HasNotes) || |notes| > 0)
  {
    ghost var start := target.View();
    var i := 0;
    while i < |notes|
      invariant 0 <= i <= |notes|
      invariant target.View() == start.(notes := start.notes + notes[..i], hasNotes := start.hasNotes || i > 0)
    {
      target.AddNote(notes[i]);
      assert notes[..i + 1] == notes[..i] + [notes[i]];
      i := i + 1;
    }
    assert notes[..i] == notes;
  }

  /** OnSuccess<TIn, TOut>(Func<TIn, Result<TOut>>): a failure becomes a new
      failure with the same error text; a success is replaced by the
      function's result. */
  method OnSuccessBindConvert<TIn, TOut>(result: Result<TIn>, func: TIn -> Result<TOut>, callingMethod: string)
    returns (r: Result<TOut>)
    requires result.Valid()
    ensures !result.IsSuccess ==> fresh(r) && r.View() == FailValue(result.Error, callingMethod)
    ensures result.IsSuccess ==> r == func(result.StoredValue.target)
  {
    if result.IsFailure() {
      r := Fail(result.Error, callingMethod);
      return;
    }
    r := func(result.StoredValue.target);
  }

  /** OnSuccess(Func<Result>): the function's result replaces a successful
      input; the function is not called on a failure. */
  method OnSuccessThen(result: Result<Unit>, func: () -> Result<Unit>) returns (r: Result<Unit>, invoked: bool)
    ensures invoked <==> result.IsSuccess
    ensures r == if result.IsSuccess then func() else result
  {
    if result.IsFailure() {
      return result, false;
    }
    r, invoked := func(), true;
  }

  /** OnFailure(Action), for Result and Result<T>: the action runs only on
      failure, and the input is returned. */
  method OnFailureAction<T>(result: Result<T>) returns (r: Result<T>, invoked: bool)
    ensures r == result
    ensures invoked <==> !result.IsSuccess
  {
    invoked := false;
    if result.IsFailure() {
      invoked := true;
    }
    r := result;
  }

  /** OnFailure(Action<string>), for Result and Result<T>: the action
      receives the error text, only on failure. */
  method OnFailureWithError<T>(result: Result<T>) returns (r: Result<T>, received: seq<string>)
    ensures r == result
    ensures received == if result.IsSuccess then [] else [result.Error]
  {
    received := [];
    if result.IsFailure() {
      received := [result.Error];
    }
    r := result;
  }

  /** OnFailureGeneratedDefault(Func<Result<T>>): a failure is replaced by
      the generated result; a success is returned. */
  method OnFailureGeneratedDefault<T>(result: Result<T>, func: () -> Result<T>) returns (r: Result<T>, invoked: bool)
    ensures invoked <==> !result.IsSuccess
    ensures r == if result.IsSuccess then result else func()
  {
    if result.IsFailure() {
      return func(), true;
    }
    return result, false;
  }

  /** OnBoth(Action<Result>) and OnBoth(Action): the action runs once, with
      the result, whatever the result; the input is returned. */
  method OnBoth<T>(result: Result<T>) returns (r: Result<T>, received: seq<Result<T>>)
    ensures r == result
    ensures received == [result]
  {
    received := [result];
    r := result;
  }

  /** OnBoth<U>(Func<Result, U>): the function's value on the result. */
  method OnBothFunc<T, U>(result: Result<T>, func: Result<T> -> U) returns (u: U)
    ensures u == func(result)
  {
    u := func(result);
  }

  /** Ensure(bool, errorMessage) and the Func<bool> overloads, which call the
      function before deciding: a failure or a true condition returns the
      input, a false condition on a success gives a new failure. */
  method Ensure<T>(result: Result<T>, condition: bool, errorMessage: string, callingMethod: string)
    returns (r: Result<T>)
    requires result.IsSuccess && !condition ==> !IsBlank(errorMessage)
    ensures !result.IsSuccess || condition ==> r == result
    ensures result.IsSuccess && !condition ==> fresh(r)
    ensures r.View() == ResultAlgebra.Ensure(result.View(), condition, errorMessage, callingMethod)
  {
    if result.IsFailure() {
      return result;
    }
    if !condition {
      r := Fail(errorMessage, callingMethod);
      return;
    }
    r := result;
  }

  /** Ensure(Func<T, bool>, errorMessage). */
  method EnsureWith<T>(result: Result<T>, test: T -> bool, errorMessage: string, callingMethod: string)
    returns (r: Result<T>)
    requires result.Valid()
    requires result.IsSuccess && !test(result.StoredValue.target) ==> !IsBlank(errorMessage)
    ensures !result.IsSuccess || test(result.StoredValue.target) ==> r == result
    ensures result.IsSuccess && !test(result.StoredValue.target) ==> fresh(r)
    ensures r.View() == ResultAlgebra.EnsureWith(result.View(), test, errorMessage, callingMethod)
  {
    if result.IsFailure() {
      return result;
    }
    if !test(result.StoredValue.target) {
      r := Fail(errorMessage, callingMethod);
      return;
    }
    r := result;
  }

  /** The ICollection<string> the out-variant of Ensure may add to. */
  class ErrorCollection {
    var Items: seq<string>

    constructor ()
      ensures Items == []
    {
      Items := [];
    }
  }

  /** Ensure(bool, errorMessage, out storedResult, errors): the condition is
      always handed back; the message is added to the collection exactly
      when the input succeeded and the condition is false. */
  method EnsureCollecting<T>(result: Result<T>, condition: bool, errorMessage: string, errors: ErrorCollection?,
                             callingMethod: string)
    returns (r: Result<T>, storedResult: bool)
    requires result.IsSuccess && !condition ==> !IsBlank(errorMessage)
    modifies errors
    ensures storedResult == condition
    ensures r.View() == ResultAlgebra.Ensure(result.View(), condition, errorMessage, callingMethod)
    ensures !result.IsSuccess || condition ==> r == result
    ensures errors != null ==>
      errors.Items == old(errors.Items) + if result.IsSuccess && !condition then [errorMessage] else []
  {
    storedResult := condition;
    if result.IsFailure() {
      return result, storedResult;
    }
    if !storedResult {
      if errors != null {
        errors.Items := errors.Items + [errorMessage];
      }
      r := Fail(errorMessage, callingMethod);
      return;
    }
    r := result;
  }

  /** The contents of a possibly-absent array. */
  function Contents<E>(a: MayBe<array<E>>): (m: MayBe<seq<E>>)
    reads if a.HasValue() then {a.slot.target} else {}
    ensures m.HasValue() <==> a.HasValue()
    ensures a.HasValue() ==> m.slot.target == a.slot.target[..]
  {
    if a.HasNoValue() then MayBe(Null) else MayBe(Ref(a.slot.target[..]))
  }

  /** The paired-array Ensure: absence, then lengths, then the elements in
      order, returning at the first pair the test rejects. */
  method EnsurePairwise<E(!new)>(
    result: Result<Unit>,
    firstArray: MayBe<array<E>>,
    secondArray: MayBe<array<E>>,
    test: (E, E) -> bool,
    nullErrorMessage: int -> string,
    wrongLengthErrorMessage: (int, int) -> string,
    predicateErrorMessage: (int, E, E) -> string,
    callingMethod: string)
    returns (r: Result<Unit>)
    requires result.IsSuccess ==>
      ResultAlgebra.PairwiseMessageAllowed(Contents(firstArray), Contents(secondArray), test,
                                           nullErrorMessage, wrongLengthErrorMessage, predicateErrorMessage)
    ensures r == result || fresh(r)
    ensures r.View() == ResultAlgebra.EnsurePairwise(result.View(), Contents(firstArray), Contents(secondArray), test,
                                                     nullErrorMessage, wrongLengthErrorMessage, predicateErrorMessage,
                                                     callingMethod)
  {
    if result.IsFailure() {
      return result;
    }
    if firstArray.HasNoValue() {
      if secondArray.HasNoValue() {
        return result;
      }
      r := Fail(nullErrorMessage(1), callingMethod);
      return;
    }
    if secondArray.HasNoValue() {
      r := Fail(nullErrorMessage(2), callingMethod);
      return;
    }
    var a, b := firstArray.slot.target, secondArray.slot.target;
    if a.Length != b.Length {
      r := Fail(wrongLengthErrorMessage(a.Length, b.Length), callingMethod);
      return;
    }
    for i := 0 to a.Length
      invariant forall j | 0 <= j < i :: test(a[j], b[j])
    {
      if !test(a[i], b[i]) {
        FirstMismatchIsFirstRejected(a[..], b[..], test, i);
        r := Fail(predicateErrorMessage(i, a[i], b[i]), callingMethod);
        return;
      }
    }
    FirstMismatchIsFirstRejected(a[..], b[..], test, a.Length);
    r := result;
  }

  /** FirstMismatch is the index of the first rejected pair, or the length
      when none is rejected. */
  lemma FirstMismatchIsFirstRejected<E>(first: seq<E>, second: seq<E>, test: (E, E) -> bool, k: nat)
    requires |first| == |second| && k <= |first|
    requires forall j | 0 <= j < k :: test(first[j], second[j])
    requires k < |first| ==> !test(first[k], second[k])
    ensures ResultAlgebra.FirstMismatch(first, second, test) == k
  {
  }

  /** StripData: a new untyped Result, Ok or Fail with the same error text. */
  method StripData<T>(result: Result<T>, callingMethod: string) returns (r: Result<Unit>)
    requires result.Valid()
    ensures fresh(r) && r.View() == ResultAlgebra.StripData(result.View(), callingMethod)
  {
    if result.IsFailure() {
      r := Fail(result.Error, callingMethod);
    } else {
      r := Ok(Unit, callingMethod);
    }
  }
}
