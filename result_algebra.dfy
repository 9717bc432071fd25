/** The combinators of ResultExtensions as functions on result values: what
    each returns, given what it receives. The methods in ResultExtensions
    that operate on Result objects are proved to agree with these, and the
    laws below (failure short-circuits, first failing check wins, notes are
    copied or dropped) are stated here once. */
module ResultAlgebra {
  import opened Runtime
  import opened Text
  import opened MayBes
  import opened Results

  /** MayBe<T>.ToResult(errorMessage) and ResultExtensions.Initialize(data,
      errorMessage): Ok with the content, or a failure with the message. */
  function ToResult<T>(nullable: MayBe<T>, errorMessage: string, callingMethod: string): (r: ResultValue<T>)
    requires nullable.HasNoValue() ==> !IsBlank(errorMessage)
    ensures r.WellFormed()
    ensures r.isSuccess <==> nullable.HasValue()
    ensures nullable.HasNoValue() ==> r.error == errorMessage
    ensures nullable.HasValue() ==> r.Value() == Returns(nullable.slot)
    ensures r == InitializeValue(nullable.slot, errorMessage, callingMethod)
  {
    if nullable.HasNoValue() then FailValue(errorMessage, callingMethod)
    else OkValue(nullable.slot.target, callingMethod)
  }

  /** Ensure(bool predicate, errorMessage), and the Func<bool> forms, which
      evaluate the predicate before deciding: a failure passes through, a
      false condition fails with the message, a true one passes the input
      on. */
  function Ensure<T>(result: ResultValue<T>, condition: bool, errorMessage: string, callingMethod: string)
    : (r: ResultValue<T>)
    requires result.isSuccess && !condition ==> !IsBlank(errorMessage)
    ensures r.isSuccess <==> result.isSuccess && condition
    ensures r.isSuccess || !result.isSuccess ==> r == result
    ensures result.isSuccess && !condition ==> r == FailValue(errorMessage, callingMethod)
    ensures result.WellFormed() ==> r.WellFormed()
  {
    if !result.isSuccess then result
    else if !condition then FailValue(errorMessage, callingMethod)
    else result
  }

  /** Ensure(Func<T, bool> predicate, errorMessage): the predicate is asked
      about the value only when the input succeeded. */
  function EnsureWith<T>(result: ResultValue<T>, test: T -> bool, errorMessage: string, callingMethod: string)
    : (r: ResultValue<T>)
    requires result.WellFormed()
    requires result.isSuccess && !test(result.value.target) ==> !IsBlank(errorMessage)
    ensures r.WellFormed()
    ensures r.isSuccess <==> result.isSuccess && test(result.value.target)
    ensures r.isSuccess || !result.isSuccess ==> r == result
    ensures !r.isSuccess && result.isSuccess ==> r.error == errorMessage && r.notes == []
  {
    if !result.isSuccess then result
    else if !test(result.value.target) then FailValue(errorMessage, callingMethod)
    else result
  }

  /** OnSuccess(Func<T, T>): a new Ok around the function's value; the
      input's notes are not carried over. */
  function OnSuccessMap<T>(result: ResultValue<T>, func: T -> T, callingMethod: string): (r: ResultValue<T>)
    requires result.WellFormed()
    ensures r.WellFormed() && r.isSuccess == result.isSuccess
    ensures !result.isSuccess ==> r == result
    ensures result.isSuccess ==> r.Value() == Returns(Ref(func(result.value.target))) && r.notes == []
  {
    if !result.isSuccess then result else OkValue(func(result.value.target), callingMethod)
  }

  /** OnSuccess(Func<T, Result<T>>): the function's result replaces a
      successful input. */
  function OnSuccessBind<T>(result: ResultValue<T>, func: T -> ResultValue<T>): (r: ResultValue<T>)
    requires result.WellFormed()
    ensures !result.isSuccess ==> r == result
    ensures result.isSuccess ==> r == func(result.value.target)
  {
    if !result.isSuccess then result else func(result.value.target)
  }

  /** OnSuccess(Func<T, Result>): the function checks the value; the input is
      kept when the check succeeds, and replaced by a failure carrying the
      check's error text when it fails. */
  function OnSuccessCheck<T>(result: ResultValue<T>, func: T -> ResultValue<Unit>, callingMethod: string)
    : (r: ResultValue<T>)
    requires result.WellFormed()
    requires result.isSuccess ==> func(result.value.target).WellFormed()
    ensures r.WellFormed()
    ensures r.isSuccess <==> result.isSuccess && func(result.value.target).isSuccess
    ensures r.isSuccess || !result.isSuccess ==> r == result
    ensures !r.isSuccess && result.isSuccess ==> r.error == func(result.value.target).error
  {
    if !result.isSuccess then result
    else
      var check := func(result.value.target);
      if !check.isSuccess then FailValue(check.error, callingMethod) else result
  }

  /** The notes OnSuccess<TIn, TOut>(Func<TIn, TOut>) copies: all of them
      when HasNotes is set, none otherwise. */
  function CopiedNotes<T>(result: ResultValue<T>): seq<string> {
    if result.hasNotes then result.notes else []
  }

  /** The result OnSuccess<TIn, TOut>(Func<TIn, TOut>) builds before it
      copies the notes: Fail<TOut>(exception) when the failure carries one,
      Fail<TOut>(error) for any other failure, Ok(func(value)) on success. */
  function Converted<TIn, TOut>(result: ResultValue<TIn>, func: TIn -> TOut, callingMethod: string)
    : (r: ResultValue<TOut>)
    requires result.WellFormed()
    ensures r.WellFormed() && r.notes == [] && !r.hasNotes
    ensures r.isSuccess == result.isSuccess
  {
    if !result.isSuccess then
      if result.exception.HasValue() then ConstructFromException(result.exception.slot.target, callingMethod)
      else FailValue(result.error, callingMethod)
    else OkValue(func(result.value.target), callingMethod)
  }

  /** OnSuccess<TIn, TOut>(Func<TIn, TOut>): a failure becomes a failure of
      the new type (through the exception when there is one, else through
      the error text), a success becomes Ok of the converted value, and the
      notes are copied in order either way. */
  function OnSuccessConvert<TIn, TOut>(result: ResultValue<TIn>, func: TIn -> TOut, callingMethod: string)
    : (r: ResultValue<TOut>)
    requires result.WellFormed()
    ensures r.WellFormed()
    ensures r.isSuccess == result.isSuccess
    ensures r.notes == result.notes && r.hasNotes == result.hasNotes
    ensures result.isSuccess ==> r.value == Ref(func(result.value.target))
    ensures !result.isSuccess && result.exception.HasValue() ==>
      r.exception == result.exception && r.error == ExceptionError(callingMethod, result.exception.slot.target)
    ensures !result.isSuccess && result.exception.HasNoValue() ==>
      r.exception.HasNoValue() && r.error == result.error
  {
    var notes := CopiedNotes(result);
    Converted(result, func, callingMethod).(notes := notes, hasNotes := |notes| > 0)
  }

  /** OnSuccess<TIn, TOut>(Func<TIn, Result<TOut>>): a failure becomes a new
      failure with the same error text; a success is replaced by the
      function's result. */
  function OnSuccessBindConvert<TIn, TOut>(result: ResultValue<TIn>, func: TIn -> ResultValue<TOut>, callingMethod: string)
    : (r: ResultValue<TOut>)
    requires result.WellFormed()
    ensures !result.isSuccess ==> r == FailValue(result.error, callingMethod)
    ensures result.isSuccess ==> r == func(result.value.target)
  {
    if !result.isSuccess then FailValue(result.error, callingMethod) else func(result.value.target)
  }

  /** OnSuccess(Func<Result>): the next result replaces a successful input. */
  function OnSuccessThen(result: ResultValue<Unit>, next: ResultValue<Unit>): (r: ResultValue<Unit>)
    ensures r == if result.isSuccess then next else result
  {
    if !result.isSuccess then result else next
  }

  /** OnFailureGeneratedDefault(Func<Result<T>>): the generated result
      replaces a failed input. */
  function OnFailureGeneratedDefault<T>(result: ResultValue<T>, generated: ResultValue<T>): (r: ResultValue<T>)
    ensures r == if result.isSuccess then result else generated
  {
    if !result.isSuccess then generated else result
  }

  /** StripData: a Result without the value, keeping success or failure and
      the error text of a failure. */
  function StripData<T>(result: ResultValue<T>, callingMethod: string): (r: ResultValue<Unit>)
    requires result.WellFormed()
    ensures r.WellFormed()
    ensures r.isSuccess == result.isSuccess
    ensures !result.isSuccess ==> r.error == result.error
    ensures r.notes == [] && r.exception.HasNoValue()
  {
    if !result.isSuccess then FailValue(result.error, callingMethod) else OkValue(Unit, callingMethod)
  }

  /** The lowest index at which the test rejects the pair of elements,
      or the common length when it rejects none. */
  function FirstMismatch<E>(first: seq<E>, second: seq<E>, test: (E, E) -> bool): (k: nat)
    requires |first| == |second|
    ensures k <= |first|
    ensures forall i | 0 <= i < k :: test(first[i], second[i])
    ensures k < |first| ==> !test(first[k], second[k])
  {
    if |first| == 0 then 0
    else if !test(first[0], second[0]) then 0
    else 1 + FirstMismatch(first[1..], second[1..], test)
  }

  /** The message the paired-array Ensure fails with on a success, if any,
      is not blank: only that one message is ever built. */
  predicate PairwiseMessageAllowed<E>(
    firstArray: MayBe<seq<E>>,
    secondArray: MayBe<seq<E>>,
    test: (E, E) -> bool,
    nullErrorMessage: int -> string,
    wrongLengthErrorMessage: (int, int) -> string,
    predicateErrorMessage: (int, E, E) -> string)
  {
    if firstArray.HasNoValue() then secondArray.HasValue() ==> !IsBlank(nullErrorMessage(1))
    else if secondArray.HasNoValue() then !IsBlank(nullErrorMessage(2))
    else
      var a, b := firstArray.slot.target, secondArray.slot.target;
      if |a| != |b| then !IsBlank(wrongLengthErrorMessage(|a|, |b|))
      else
        var k := FirstMismatch(a, b, test);
        k < |a| ==> !IsBlank(predicateErrorMessage(k, a[k], b[k]))
  }

  /** The paired-array Ensure: both arrays absent passes the input on; one
      absent fails with NullErrorMessage of its position; different lengths
      fail with the wrong-length message; otherwise the first pair the
      predicate rejects fails with the predicate message, and none passes
      the input on. */
  function EnsurePairwise<E(!new)>(
    result: ResultValue<Unit>,
    firstArray: MayBe<seq<E>>,
    secondArray: MayBe<seq<E>>,
    test: (E, E) -> bool,
    nullErrorMessage: int -> string,
    wrongLengthErrorMessage: (int, int) -> string,
    predicateErrorMessage: (int, E, E) -> string,
    callingMethod: string): (r: ResultValue<Unit>)
    requires result.isSuccess ==>
      PairwiseMessageAllowed(firstArray, secondArray, test, nullErrorMessage, wrongLengthErrorMessage, predicateErrorMessage)
    ensures !result.isSuccess ==> r == result
    ensures result.isSuccess && firstArray.HasNoValue() && secondArray.HasNoValue() ==> r == result
    ensures result.isSuccess && firstArray.HasNoValue() && secondArray.HasValue() ==>
      r == FailValue(nullErrorMessage(1), callingMethod)
    ensures result.isSuccess && firstArray.HasValue() && secondArray.HasNoValue() ==>
      r == FailValue(nullErrorMessage(2), callingMethod)
    ensures result.isSuccess && firstArray.HasValue() && secondArray.HasValue() ==>
      var a, b := firstArray.slot.target, secondArray.slot.target;
      if |a| != |b| then r == FailValue(wrongLengthErrorMessage(|a|, |b|), callingMethod)
      else
        (r == result <==> forall i | 0 <= i < |a| :: test(a[i], b[i])) &&
        (forall k | 0 <= k < |a| && !test(a[k], b[k]) && (forall i | 0 <= i < k :: test(a[i], b[i])) ::
           r == FailValue(predicateErrorMessage(k, a[k], b[k]), callingMethod))
  {
    if !result.isSuccess then result
    else if firstArray.HasNoValue() then
      if secondArray.HasNoValue() then result else FailValue(nullErrorMessage(1), callingMethod)
    else if secondArray.HasNoValue() then FailValue(nullErrorMessage(2), callingMethod)
    else
      var a, b := firstArray.slot.target, secondArray.slot.target;
      if |a| != |b| then FailValue(wrongLengthErrorMessage(|a|, |b|), callingMethod)
      else
        var k := FirstMismatch(a, b, test);
        if k == |a| then result
        else FailValue(predicateErrorMessage(k, a[k], b[k]), callingMethod)
  }

  /** Every same-type OnSuccess and Ensure returns a failed input unchanged,
      whatever its callback would have done. */
  lemma FailureShortCircuits<T>(result: ResultValue<T>, condition: bool, test: T -> bool, mapping: T -> T,
                                bind: T -> ResultValue<T>, check: T -> ResultValue<Unit>,
                                errorMessage: string, callingMethod: string)
    requires result.WellFormed() && !result.isSuccess
    ensures Ensure(result, condition, errorMessage, callingMethod) == result
    ensures EnsureWith(result, test, errorMessage, callingMethod) == result
    ensures OnSuccessMap(result, mapping, callingMethod) == result
    ensures OnSuccessBind(result, bind) == result
    ensures OnSuccessCheck(result, check, callingMethod) == result
  {
  }

  /** A chain of Ensure calls over conditions and messages, in order. */
  function EnsureAll<T>(result: ResultValue<T>, conditions: seq<bool>, messages: seq<string>, callingMethod: string)
    : (r: ResultValue<T>)
    requires |conditions| == |messages|
    requires forall i | 0 <= i < |messages| :: !IsBlank(messages[i])
    ensures result.WellFormed() ==> r.WellFormed()
    decreases |conditions|
  {
    if |conditions| == 0 then result
    else
      var last := |conditions| - 1;
      Ensure(EnsureAll(result, conditions[..last], messages[..last], callingMethod), conditions[last], messages[last], callingMethod)
  }

  /** The index of the first false condition, or the length when all hold. */
  function FirstFalse(conditions: seq<bool>): (k: nat)
    ensures k <= |conditions|
    ensures forall i | 0 <= i < k :: conditions[i]
    ensures k < |conditions| ==> !conditions[k]
  {
    if |conditions| == 0 then 0
    else if !conditions[0] then 0
    else 1 + FirstFalse(conditions[1..])
  }

  /** FirstFalse of a prefix extended by one condition. */
  lemma {:induction false} FirstFalseSnoc(conditions: seq<bool>, c: bool)
    ensures FirstFalse(conditions + [c]) ==
      if FirstFalse(conditions) < |conditions| then FirstFalse(conditions)
      else if c then |conditions| + 1 else |conditions|
  {
    var k := FirstFalse(conditions + [c]);
    var j := FirstFalse(conditions);
    assert forall i | 0 <= i < k && i < |conditions| :: conditions[i] by {
      forall i | 0 <= i < k && i < |conditions| ensures conditions[i] {
        assert (conditions + [c])[i] == conditions[i];
      }
    }
    if j < |conditions| {
      assert (conditions + [c])[j] == conditions[j];
    } else if k == |conditions| {
      assert (conditions + [c])[k] == c;
    } else {
      assert (conditions + [c])[|conditions|] == c;
    }
  }

  /** In a chain of Ensure calls on a successful input, the result succeeds
      iff every condition holds, and otherwise fails with the message of the
      first condition that does not. */
  lemma {:induction false} EnsureAllFirstFailure<T>(result: ResultValue<T>, conditions: seq<bool>, messages: seq<string>,
                                                   callingMethod: string)
    requires |conditions| == |messages|
    requires forall i | 0 <= i < |messages| :: !IsBlank(messages[i])
    requires result.isSuccess
    ensures var r := EnsureAll(result, conditions, messages, callingMethod);
      && (r.isSuccess <==> FirstFalse(conditions) == |conditions|)
      && (r.isSuccess ==> r == result)
      && (!r.isSuccess ==> r == FailValue(messages[FirstFalse(conditions)], callingMethod))
    decreases |conditions|
  {
    if |conditions| > 0 {
      var last := |conditions| - 1;
      var prefix, prefixMessages := conditions[..last], messages[..last];
      EnsureAllFirstFailure(result, prefix, prefixMessages, callingMethod);
      var inner := EnsureAll(result, prefix, prefixMessages, callingMethod);
      assert EnsureAll(result, conditions, messages, callingMethod) == Ensure(inner, conditions[last], messages[last], callingMethod);
      assert conditions == prefix + [conditions[last]];
      FirstFalseSnoc(prefix, conditions[last]);
      var k := FirstFalse(prefix);
      if k < last {
        assert FirstFalse(conditions) == k;
        assert prefixMessages[k] == messages[k];
      } else {
        assert inner == result;
      }
    }
  }

  /** OnSuccess<TIn, TOut>(Func<TIn, Result<TOut>>) on a failure keeps only
      the error text: the exception and the notes are dropped, unlike the
      Func<TIn, TOut> overload, which keeps both. */
  lemma BindConvertDropsExceptionAndNotes<TIn, TOut>(result: ResultValue<TIn>, bind: TIn -> ResultValue<TOut>,
                                                    func: TIn -> TOut, callingMethod: string)
    requires result.WellFormed() && !result.isSuccess
    ensures OnSuccessBindConvert(result, bind, callingMethod).exception.HasNoValue()
    ensures OnSuccessBindConvert(result, bind, callingMethod).notes == []
    ensures OnSuccessBindConvert(result, bind, callingMethod).error == result.error
    ensures OnSuccessConvert(result, func, callingMethod).notes == result.notes
    ensures result.exception.HasValue() ==> OnSuccessConvert(result, func, callingMethod).exception == result.exception
  {
  }

  /** OnSuccess(Func<T, Result<T>>) chains associatively. */
  lemma BindAssociative<T>(result: ResultValue<T>, f: T -> ResultValue<T>, g: T -> ResultValue<T>)
    requires result.WellFormed()
    requires forall v :: f(v).WellFormed()
    ensures OnSuccessBind(OnSuccessBind(result, f), g)
         == OnSuccessBind(result, v => if f(v).WellFormed() then OnSuccessBind(f(v), g) else f(v))
  {
  }
}
