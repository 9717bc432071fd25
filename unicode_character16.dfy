/** UnicodeCharacter16: a ValueProperty over a string of one or two UTF-16
    code units forming one Unicode character, with its scalar value in
    Utf32 (surrogate pairs decoded as section 2.2 of RFC 2781 describes),
    and the separate validator ValidateUnicodeCharacter16. */
module UnicodeCharacters {
  import opened Runtime
  import opened Text
  import opened MayBes
  import opened Results
  import ResultAlgebra

  /** A UTF-16 code unit: a C# char. */
  newtype CodeUnit = x: int | 0 <= x < 0x1_0000

  /** A C# string as the code units it holds. */
  type Utf16 = seq<CodeUnit>

  predicate IsHighSurrogate(u: CodeUnit) {
    0xD800 <= u <= 0xDBFF
  }

  predicate IsLowSurrogate(u: CodeUnit) {
    0xDC00 <= u <= 0xDFFF
  }

  predicate IsSurrogate(u: CodeUnit) {
    IsHighSurrogate(u) || IsLowSurrogate(u)
  }

  /** U+FFFE and U+FFFF, the two code points the constructor disallows. */
  predicate IsDisallowedEnd(u: CodeUnit) {
    u == 0xFFFE || u == 0xFFFF
  }

  /** A Unicode scalar value: a code point that is not a surrogate. */
  predicate IsScalarValue(v: int) {
    0 <= v <= 0x10_FFFF && !(0xD800 <= v <= 0xDFFF)
  }

  /** Char.ConvertToUtf32(high, low), the decoding of section 2.2 of RFC 2781. */
  function ConvertToUtf32(high: CodeUnit, low: CodeUnit): (v: int)
    requires IsHighSurrogate(high) && IsLowSurrogate(low)
    ensures IsScalarValue(v) && 0x1_0000 <= v
  {
    0x1_0000 + (high as int - 0xD800) * 0x400 + (low as int - 0xDC00)
  }

  /** The encoding of section 2.1 of RFC 2781: one code unit below U+10000,
      a high and a low surrogate above. */
  function EncodeUtf16(v: int): (units: Utf16)
    requires IsScalarValue(v)
    ensures |units| == 1 <==> v < 0x1_0000
    ensures |units| == 1 ==> units[0] as int == v && !IsSurrogate(units[0])
    ensures |units| == 2 ==> IsHighSurrogate(units[0]) && IsLowSurrogate(units[1])
    ensures |units| == 1 || |units| == 2
  {
    if v < 0x1_0000 then [v as CodeUnit]
    else
      var w := v - 0x1_0000;
      [(0xD800 + w / 0x400) as CodeUnit, (0xDC00 + w % 0x400) as CodeUnit]
  }

  /** Decoding a surrogate pair and encoding the value again gives the pair
      back. */
  lemma EncodeDecodedPair(high: CodeUnit, low: CodeUnit)
    requires IsHighSurrogate(high) && IsLowSurrogate(low)
    ensures EncodeUtf16(ConvertToUtf32(high, low)) == [high, low]
  {
    var h, l := high as int - 0xD800, low as int - 0xDC00;
    var w := ConvertToUtf32(high, low) - 0x1_0000;
    assert w == h * 0x400 + l;
    assert w / 0x400 == h && w % 0x400 == l;
  }

  /** Encoding a value above U+FFFF and decoding the pair gives the value
      back. */
  lemma DecodeEncodedValue(v: int)
    requires IsScalarValue(v) && 0x1_0000 <= v
    ensures ConvertToUtf32(EncodeUtf16(v)[0], EncodeUtf16(v)[1]) == v
  {
    var w := v - 0x1_0000;
    assert w == (w / 0x400) * 0x400 + w % 0x400;
  }

  /** The value properties of the class: the held string, and Utf32. */
  datatype UnicodeCharacter16 = UnicodeCharacter16(Value: MayBe<Utf16>, Utf32: int)

  const HighMessage := "Invalid single high surrogate code point."
  const LowMessage := "Invalid single low surrogate code point."
  const NullMessage := "Null string is not Unicode Character"

  /** The message for a string of the wrong length (with its double space). */
  function LengthMessage(n: nat): (m: string)
    ensures !IsBlank(m)
  {
    var m := "A Unicode 16 character should contain  1 or 2 code points. This has " + NatToDecimal(n) + ".";
    NotBlank(m, |m| - 1);
    m
  }

  /** The message for U+FFFE or U+FFFF, the code point in upper-case hexadecimal. */
  function DisallowedMessage(u: CodeUnit): (m: string)
    ensures !IsBlank(m)
  {
    var prefix := "Disallowed end code point ";
    NotBlank(prefix, |prefix| - 2);
    NotBlankPrefix(prefix, NatToHex(u as nat));
    prefix + NatToHex(u as nat)
  }

  lemma MessagesNotBlank()
    ensures !IsBlank(HighMessage) && !IsBlank(LowMessage) && !IsBlank(NullMessage)
  {
    NotBlank(HighMessage, |HighMessage| - 1);
    NotBlank(LowMessage, |LowMessage| - 1);
    NotBlank(NullMessage, |NullMessage| - 1);
  }

  /** One Unicode character other than U+FFFE and U+FFFF, as UTF-16: a
      single unit that is no surrogate, or a high surrogate followed by a
      low one. */
  predicate IsCharacter(units: Utf16) {
    || (|units| == 1 && !IsSurrogate(units[0]) && !IsDisallowedEnd(units[0]))
    || (|units| == 2 && IsHighSurrogate(units[0]) && IsLowSurrogate(units[1]))
  }

  /** The constructor UnicodeCharacter16(MayBe<string> input). An absent
      input is kept without any check and Utf32 stays 0. A present one must
      hold one or two units; a single unit must not be U+FFFE, U+FFFF or a
      surrogate and is its own Utf32; a pair must be a high then a low
      surrogate and Utf32 is the decoded value. Anything else raises
      InvalidCastException. */
  function NewUnicodeCharacter16(input: MayBe<Utf16>): (o: Outcome<UnicodeCharacter16>)
    ensures o.Returns? <==> input.HasNoValue() || IsCharacter(input.slot.target)
    ensures o.Returns? ==> o.value.Value == input
    ensures input.HasNoValue() ==> o == Returns(UnicodeCharacter16(input, 0))
    ensures o.Returns? && input.HasValue() ==>
      IsScalarValue(o.value.Utf32) && EncodeUtf16(o.value.Utf32) == input.slot.target
    ensures o.Throws? ==> o.thrown.InvalidCastException? && !IsBlank(o.thrown.message)
  {
    MessagesNotBlank();
    if input.HasNoValue() then Returns(UnicodeCharacter16(input, 0))
    else
      var value := input.slot.target;
      if |value| < 1 || 2 < |value| then Throws(InvalidCastException(LengthMessage(|value|)))
      else if |value| == 1 then
        if IsDisallowedEnd(value[0]) then Throws(InvalidCastException(DisallowedMessage(value[0])))
        else if IsHighSurrogate(value[0]) then Throws(InvalidCastException(HighMessage))
        else if IsLowSurrogate(value[0]) then Throws(InvalidCastException(LowMessage))
        else Returns(UnicodeCharacter16(input, value[0] as int))
      else if IsHighSurrogate(value[0]) then
        if IsLowSurrogate(value[1]) then
          EncodeDecodedPair(value[0], value[1]);
          Returns(UnicodeCharacter16(input, ConvertToUtf32(value[0], value[1])))
        else Throws(InvalidCastException(LowMessage))
      else Throws(InvalidCastException(HighMessage))
  }

  /** The message of each refusal, in the order the constructor checks: the
      length, then for one unit U+FFFE/U+FFFF, a high and a low surrogate,
      and for two units a first unit that is no high surrogate and a second
      that is no low surrogate. */
  lemma ConstructorMessages(v: Utf16)
    ensures var o := NewUnicodeCharacter16(MayBe(Ref(v)));
      !(1 <= |v| <= 2) ==> o == Throws(InvalidCastException(LengthMessage(|v|)))
    ensures var o := NewUnicodeCharacter16(MayBe(Ref(v)));
      |v| == 1 ==>
      && (IsDisallowedEnd(v[0]) ==> o == Throws(InvalidCastException(DisallowedMessage(v[0]))))
      && (!IsDisallowedEnd(v[0]) && IsHighSurrogate(v[0]) ==> o == Throws(InvalidCastException(HighMessage)))
      && (!IsDisallowedEnd(v[0]) && IsLowSurrogate(v[0]) ==> o == Throws(InvalidCastException(LowMessage)))
    ensures var o := NewUnicodeCharacter16(MayBe(Ref(v)));
      |v| == 2 ==>
      && (!IsHighSurrogate(v[0]) ==> o == Throws(InvalidCastException(HighMessage)))
      && (IsHighSurrogate(v[0]) && !IsLowSurrogate(v[1]) ==> o == Throws(InvalidCastException(LowMessage)))
  {
  }

  /** Every scalar value other than U+FFFE and U+FFFF, encoded, is accepted
      and decoded back to itself. */
  lemma ConstructorDecodesEncoding(v: int)
    requires IsScalarValue(v) && v != 0xFFFE && v != 0xFFFF
    ensures NewUnicodeCharacter16(MayBe(Ref(EncodeUtf16(v)))) == Returns(UnicodeCharacter16(MayBe(Ref(EncodeUtf16(v))), v))
  {
    if 0x1_0000 <= v {
      DecodeEncodedValue(v);
    }
  }

  /** ValidateUnicodeCharacter16 as written. The length message reads
      input.Value while the Ensure arguments are evaluated, so an absent
      input raises InvalidOperationException. For a present one: the length
      check, then "the first unit is not a high surrogate", then for one
      unit the U+FFFE/U+FFFF and low-surrogate checks, and for two units
      "the second unit is not a low surrogate". */
  function ValidateUnicodeCharacter16(input: MayBe<Utf16>, callingMethod: string): (o: Outcome<ResultValue<Utf16>>)
    ensures o.Throws? <==> input.HasNoValue()
    ensures o.Throws? ==> o.thrown == InvalidOperationException
    ensures o.Returns? ==> o.value.WellFormed()
    ensures o.Returns? && o.value.isSuccess ==> o.value.value == input.slot
  {
    if input.HasNoValue() then Throws(InvalidOperationException)
    else
      var v := input.slot.target;
      var result := LengthAndHighChecks(v, callingMethod);
      if result.isSuccess then
        if |v| == 1 then Returns(SingleUnitChecks(result, v, callingMethod))
        else Returns(SecondUnitCheck(result, v, callingMethod))
      else Returns(result)
  }

  /** Initialize over a present input, then the length check and "the first
      unit is not a high surrogate". */
  function LengthAndHighChecks(v: Utf16, callingMethod: string): (r: ResultValue<Utf16>)
    ensures r.WellFormed()
    ensures r.isSuccess <==> 1 <= |v| <= 2 && !IsHighSurrogate(v[0])
    ensures r.isSuccess ==> r.value == Ref(v)
    ensures !r.isSuccess ==> r.error == if 1 <= |v| <= 2 then HighMessage else LengthMessage(|v|)
  {
    MessagesNotBlank();
    var result0 := InitializeValue(Ref(v), NullMessage, callingMethod);
    var result1 := ResultAlgebra.EnsureWith(result0, (value: Utf16) => 1 <= |value| <= 2, LengthMessage(|v|), callingMethod);
    ResultAlgebra.EnsureWith(result1, (value: Utf16) => !(|value| > 0 && IsHighSurrogate(value[0])),
                             HighMessage, callingMethod)
  }

  /** The checks on a single unit: not U+FFFE or U+FFFF, then not a low
      surrogate. */
  function SingleUnitChecks(result: ResultValue<Utf16>, v: Utf16, callingMethod: string): (r: ResultValue<Utf16>)
    requires result.WellFormed() && result.isSuccess && result.value == Ref(v) && |v| == 1
    ensures r.WellFormed()
    ensures r.isSuccess <==> !IsDisallowedEnd(v[0]) && !IsLowSurrogate(v[0])
    ensures r.isSuccess ==> r == result
    ensures !r.isSuccess ==> r.error == if IsDisallowedEnd(v[0]) then DisallowedMessage(v[0]) else LowMessage
  {
    MessagesNotBlank();
    var result2 := ResultAlgebra.EnsureWith(result, (value: Utf16) => !(|value| > 0 && IsDisallowedEnd(value[0])),
                                            DisallowedMessage(v[0]), callingMethod);
    ResultAlgebra.EnsureWith(result2, (value: Utf16) => !(|value| > 0 && IsLowSurrogate(value[0])),
                             LowMessage, callingMethod)
  }

  /** The check on the second of two units: not a low surrogate. */
  function SecondUnitCheck(result: ResultValue<Utf16>, v: Utf16, callingMethod: string): (r: ResultValue<Utf16>)
    requires result.WellFormed() && result.isSuccess && result.value == Ref(v) && |v| == 2
    ensures r.WellFormed()
    ensures r.isSuccess <==> !IsLowSurrogate(v[1])
    ensures r.isSuccess ==> r == result
    ensures !r.isSuccess ==> r.error == LowMessage
  {
    MessagesNotBlank();
    ResultAlgebra.EnsureWith(result, (value: Utf16) => !(|value| > 1 && IsLowSurrogate(value[1])),
                             LowMessage, callingMethod)
  }

  /** On a single code unit the validator and the constructor agree: the
      validator succeeds exactly when the constructor returns, and otherwise
      fails with the message the constructor's exception carries. */
  lemma ValidatorAgreesOnSingleUnits(v: Utf16, callingMethod: string)
    requires |v| == 1
    ensures var o := ValidateUnicodeCharacter16(MayBe(Ref(v)), callingMethod);
      var c := NewUnicodeCharacter16(MayBe(Ref(v)));
      && o.Returns?
      && (o.value.isSuccess <==> c.Returns?)
      && (c.Throws? ==> c.thrown == InvalidCastException(o.value.error))
  {
  }

  /** On two code units they never both accept: the validator refuses a
      high surrogate first and a low surrogate second, which is exactly a
      valid pair. */
  lemma ValidatorAndConstructorDisagreeOnPairs(v: Utf16, callingMethod: string)
    requires |v| == 2
    ensures var o := ValidateUnicodeCharacter16(MayBe(Ref(v)), callingMethod);
      !(o.Returns? && o.value.isSuccess && NewUnicodeCharacter16(MayBe(Ref(v))).Returns?)
  {
  }

  /** U+1F600 as a pair: the constructor accepts it, the validator refuses
      it with the high-surrogate message; "ab" the other way round. */
  lemma ValidatorCounterexamples(callingMethod: string)
    ensures NewUnicodeCharacter16(MayBe(Ref([0xD83D, 0xDE00]))).Returns?
    ensures ValidateUnicodeCharacter16(MayBe(Ref([0xD83D, 0xDE00])), callingMethod).value.error == HighMessage
    ensures NewUnicodeCharacter16(MayBe(Ref([0x61, 0x62]))).Throws?
    ensures ValidateUnicodeCharacter16(MayBe(Ref([0x61, 0x62])), callingMethod).value.isSuccess
  {
  }

  /** The validator as evidently intended: an absent input fails with its
      message instead of raising, and the checks are those of the
      constructor, in the constructor's order. */
  function ValidateUnicodeCharacter16Corrected(input: MayBe<Utf16>, callingMethod: string): (r: ResultValue<Utf16>)
    ensures r.WellFormed()
    ensures input.HasNoValue() ==> !r.isSuccess && r.error == NullMessage
    ensures r.isSuccess ==> r.value == input.slot
  {
    MessagesNotBlank();
    var result := InitializeValue(input.slot, NullMessage, callingMethod);
    if input.HasNoValue() then result
    else
      var v := input.slot.target;
      var result1 := ResultAlgebra.Ensure(result, 1 <= |v| <= 2, LengthMessage(|v|), callingMethod);
      if |v| == 1 then
        var result2 := ResultAlgebra.Ensure(result1, !IsDisallowedEnd(v[0]), DisallowedMessage(v[0]), callingMethod);
        var result3 := ResultAlgebra.Ensure(result2, !IsHighSurrogate(v[0]), HighMessage, callingMethod);
        ResultAlgebra.Ensure(result3, !IsLowSurrogate(v[0]), LowMessage, callingMethod)
      else if |v| == 2 then
        var result2 := ResultAlgebra.Ensure(result1, IsHighSurrogate(v[0]), HighMessage, callingMethod);
        ResultAlgebra.Ensure(result2, IsLowSurrogate(v[1]), LowMessage, callingMethod)
      else result1
  }

  /** The corrected validator agrees with the constructor on every present
      input: it succeeds exactly when the constructor returns, and its error
      is the message of the constructor's exception. */
  lemma CorrectedValidatorAgreesWithConstructor(v: Utf16, callingMethod: string)
    ensures var r := ValidateUnicodeCharacter16Corrected(MayBe(Ref(v)), callingMethod);
      var c := NewUnicodeCharacter16(MayBe(Ref(v)));
      && (r.isSuccess <==> c.Returns?)
      && (c.Throws? ==> c.thrown == InvalidCastException(r.error))
  {
  }
}
