/** EmailAddress: a ValueProperty over a string, valid when it passes an
    ordered chain of Ensure checks; the first failing check's message is
    the error. */
module EmailAddresses {
  import opened Runtime
  import opened Text
  import opened MayBes
  import opened Results
  import opened ValueProperties
  import ResultAlgebra

  /** The EmailAddress class adds no state to its ValueProperty base. */
  type EmailAddress = ValueProperty<string>

  const NullMessage := "Null email Address"
  const TrimMessage := "Email Address needs trimming"
  const TooShortMessage := "The email address is too short"
  const NoNameMessage := "No preceding name before @ sign in EmailAddress"
  const NoDomainMessage := "No domain name after @ sign in EmailAddress"
  /** A verbatim string, not an interpolated one: the braces are literal. */
  const AtCountMessage := "There are {ema.Split('@').Length - 1} @ signs. Should be 1."

  /** None of the messages is blank, so each Fail below is allowed. */
  lemma MessagesNotBlank()
    ensures !IsBlank(NullMessage) && !IsBlank(TrimMessage) && !IsBlank(TooShortMessage)
    ensures !IsBlank(NoNameMessage) && !IsBlank(NoDomainMessage) && !IsBlank(AtCountMessage)
  {
    NotBlank(NullMessage, |NullMessage| - 1);
    NotBlank(TrimMessage, |TrimMessage| - 1);
    NotBlank(TooShortMessage, |TooShortMessage| - 1);
    NotBlank(NoNameMessage, |NoNameMessage| - 1);
    NotBlank(NoDomainMessage, |NoDomainMessage| - 1);
    NotBlank(AtCountMessage, |AtCountMessage| - 1);
  }

  /** The outcome of the checks as one if-chain: the first check that does
      not hold names the failure, and an address passing all of them is
      Ok. */
  function FirstFailingCheck(ema: string, callingMethod: string): (r: ResultValue<string>)
    ensures r.WellFormed()
  {
    MessagesNotBlank();
    if |ema| != |Trim(ema)| then FailValue(TrimMessage, callingMethod)
    else if !(3 <= |ema|) then FailValue(TooShortMessage, callingMethod)
    else if !(0 < IndexOf(ema, '@')) then FailValue(NoNameMessage, callingMethod)
    else if IndexOf(ema, '@') == |ema| - 1 then FailValue(NoDomainMessage, callingMethod)
    else if |Split(ema, '@')| != 2 then FailValue(AtCountMessage, callingMethod)
    else OkValue(ema, callingMethod)
  }

  /** ValidateEmailAddress: Ok of the string, or Fail("Null email Address")
      for an absent one, followed by the five Ensure checks; the error is
      that of the first check that fails. */
  function ValidateEmailAddress(emailAddressValue: MayBe<string>, callingMethod: string): (r: ResultValue<string>)
    ensures r.WellFormed()
    ensures emailAddressValue.HasNoValue() ==> !r.isSuccess && r.error == NullMessage && r.notes == []
    ensures emailAddressValue.HasValue() ==> r == FirstFailingCheck(emailAddressValue.slot.target, callingMethod)
  {
    MessagesNotBlank();
    var start := if emailAddressValue.HasValue() then OkValue(emailAddressValue.slot.target, callingMethod)
                 else FailValue(NullMessage, callingMethod);
    var r1 := ResultAlgebra.EnsureWith(start, ema => |ema| == |Trim(ema)|, TrimMessage, callingMethod);
    var r2 := ResultAlgebra.EnsureWith(r1, ema => 3 <= |ema|, TooShortMessage, callingMethod);
    var r3 := ResultAlgebra.EnsureWith(r2, ema => 0 < IndexOf(ema, '@'), NoNameMessage, callingMethod);
    var r4 := ResultAlgebra.EnsureWith(r3, ema => IndexOf(ema, '@') != |ema| - 1, NoDomainMessage, callingMethod);
    ResultAlgebra.EnsureWith(r4, ema => |Split(ema, '@')| == 2, AtCountMessage, callingMethod)
  }

  /** The plain meaning of the chain: no white space at either end, at least
      three characters, exactly one '@', and it is neither first nor last. */
  predicate IsValidEmail(ema: string) {
    && !NeedsTrimming(ema)
    && |ema| >= 3
    && Count(ema, '@') == 1
    && ema[0] != '@'
    && ema[|ema| - 1] != '@'
  }

  /** Validation succeeds exactly for a present, valid address, and then
      holds the address unchanged. */
  lemma ValidationMeansValid(emailAddressValue: MayBe<string>, callingMethod: string)
    ensures var r := ValidateEmailAddress(emailAddressValue, callingMethod);
      && (r.isSuccess <==> emailAddressValue.HasValue() && IsValidEmail(emailAddressValue.slot.target))
      && (r.isSuccess ==> r.value == emailAddressValue.slot)
  {
    if emailAddressValue.HasValue() {
      ChecksMeanValid(emailAddressValue.slot.target);
    }
  }

  /** The five checks all hold exactly when the string is a valid address in
      the plain sense. */
  lemma ChecksMeanValid(ema: string)
    ensures (&& |ema| == |Trim(ema)| && 3 <= |ema| && 0 < IndexOf(ema, '@')
             && IndexOf(ema, '@') != |ema| - 1 && |Split(ema, '@')| == 2)
        <==> IsValidEmail(ema)
  {
    TrimKeepsLength(ema);
    if |ema| > 0 && Count(ema, '@') == 1 {
      LastAtIsOnlyAt(ema);
    }
  }

  /** With exactly one '@', it is not last unless IndexOf finds it last. */
  lemma LastAtIsOnlyAt(ema: string)
    requires Count(ema, '@') == 1 && |ema| > 0
    ensures '@' in ema
    ensures ema[|ema| - 1] == '@' <==> IndexOf(ema, '@') == |ema| - 1
  {
    var k := IndexOf(ema, '@');
    assert k != -1;
    if ema[|ema| - 1] == '@' && k != |ema| - 1 {
      CountTwo(ema, k, |ema| - 1);
    }
  }

  /** Two positions holding c make the count at least two. */
  lemma {:induction false} CountTwo(s: string, i: int, j: int)
    requires 0 <= i < j < |s| && s[i] == s[j]
    ensures Count(s, s[i]) >= 2
  {
    CountSplit(s, j, s[i]);
    assert s[i] in s[..j];
    assert s[j..][0] == s[j];
  }

  lemma {:induction false} CountSplit(s: string, j: int, c: char)
    requires 0 <= j <= |s|
    ensures Count(s, c) == Count(s[..j], c) + Count(s[j..], c)
    decreases |s|
  {
    if |s| > 0 && j > 0 {
      CountSplit(s[1..], j - 1, c);
      assert s[1..][..j - 1] == s[..j][1..];
      assert s[1..][j - 1..] == s[j..];
    } else if j == 0 {
      assert s[..j] == [];
      assert s[j..] == s;
    }
  }

  /** CreateEmailAddress: the validation result converted, on success, to an
      EmailAddress built without validating again. */
  function CreateEmailAddress(emailAddressValue: MayBe<string>, callingMethod: string): (r: ResultValue<EmailAddress>)
    ensures r.WellFormed()
    ensures r.isSuccess <==> emailAddressValue.HasValue() && IsValidEmail(emailAddressValue.slot.target)
    ensures r.isSuccess ==> r.value == Ref(ValueProperty(emailAddressValue))
    ensures !r.isSuccess ==> r.error == ValidateEmailAddress(emailAddressValue, callingMethod).error
  {
    ValidationMeansValid(emailAddressValue, callingMethod);
    ResultAlgebra.OnSuccessConvert(ValidateEmailAddress(emailAddressValue, callingMethod),
                                   (v: string) => ValueProperty(MayBe(Ref(v))), callingMethod)
  }

  /** The private constructor EmailAddress(value, validateAndThrowOnFailure):
      with validation on, a failed validation raises InvalidCastException
      carrying the validation error; the value is stored as given. */
  function NewEmailAddress(emailAddressValue: MayBe<string>, validateAndThrowOnFailure: bool, callingMethod: string)
    : (o: Outcome<EmailAddress>)
    ensures o.Throws? <==> validateAndThrowOnFailure && !(emailAddressValue.HasValue() && IsValidEmail(emailAddressValue.slot.target))
    ensures o.Throws? ==> o.thrown == InvalidCastException(ValidateEmailAddress(emailAddressValue, callingMethod).error)
    ensures o.Returns? ==> o.value == ValueProperty(emailAddressValue)
  {
    ValidationMeansValid(emailAddressValue, callingMethod);
    var validation := ValidateEmailAddress(emailAddressValue, callingMethod);
    if validateAndThrowOnFailure && !validation.isSuccess then Throws(InvalidCastException(validation.error))
    else Returns(ValueProperty(emailAddressValue))
  }

  /** The implicit cast from a possibly-null string. */
  function FromString(possibleEmail: Nullable<string>, callingMethod: string): (o: Outcome<EmailAddress>)
    ensures o.Returns? <==> possibleEmail.Ref? && IsValidEmail(possibleEmail.target)
    ensures o.Returns? ==> o.value.Value == MayBe(possibleEmail)
    ensures o.Throws? ==> o.thrown.InvalidCastException? && !IsBlank(o.thrown.message)
    ensures o.Throws? ==> o.thrown == InvalidCastException(ValidateEmailAddress(MayBe(possibleEmail), callingMethod).error)
  {
    NewEmailAddress(MayBe(possibleEmail), true, callingMethod)
  }

  /** The implicit cast from MayBe<string>. */
  function FromMayBe(possibleEmail: MayBe<string>, callingMethod: string): (o: Outcome<EmailAddress>)
    ensures o.Returns? <==> possibleEmail.HasValue() && IsValidEmail(possibleEmail.slot.target)
    ensures o.Returns? ==> o.value.Value == possibleEmail
    ensures o.Throws? ==> o.thrown.InvalidCastException? && !IsBlank(o.thrown.message)
    ensures o.Throws? ==> o.thrown == InvalidCastException(ValidateEmailAddress(possibleEmail, callingMethod).error)
  {
    NewEmailAddress(possibleEmail, true, callingMethod)
  }

  /** The two ways of obtaining an EmailAddress agree: the cast returns one
      exactly when CreateEmailAddress succeeds, and then the same one, and
      the cast's exception carries CreateEmailAddress's error. */
  lemma CastAgreesWithCreate(possibleEmail: MayBe<string>, callingMethod: string)
    ensures var created := CreateEmailAddress(possibleEmail, callingMethod);
      match FromMayBe(possibleEmail, callingMethod)
      case Returns(e) => created.isSuccess && created.value == Ref(e)
      case Throws(ex) => !created.isSuccess && ex == InvalidCastException(created.error)
  {
  }

  /** EmailAddressValue: Value.Value, so an EmailAddress built around an
      absent string raises InvalidOperationException. */
  function EmailAddressValue(e: EmailAddress): (o: Outcome<string>)
    ensures o.Throws? <==> e.Value.HasNoValue()
    ensures o.Returns? ==> e.Value == MayBe(Ref(o.value))
  {
    e.Value.Value()
  }

  /** The EqualsCore override compares the held MayBe with other through
      MayBe.Equals; it answers exactly as the base EqualsCore does. */
  function EqualsCore(e: EmailAddress, other: Nullable<string>): (r: bool)
    ensures r == ValueProperties.EqualsCore(e, other)
  {
    MayBes.Equals(e.Value, MayBe(other))
  }
}
