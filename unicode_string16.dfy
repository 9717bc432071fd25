/** UnicodeString16: a ValueProperty over a string that the constructor
    checks, character by character, for valid UTF-16, filling Utf32String
    with the scalar value of each character. The iterator
    GetUnicodeCharacter is folded into the constructor's loop. */
module UnicodeStrings {
  import opened Runtime
  import opened MayBes
  import opened UnicodeCharacters

  /** The outcome of a scan with the values already collected put in front. */
  function Prepend(prefix: seq<int>, o: Outcome<seq<int>>): (r: Outcome<seq<int>>)
    ensures r.Throws? <==> o.Throws?
    ensures r.Throws? ==> r.thrown == o.thrown
    ensures r.Returns? ==> r.value == prefix + o.value
  {
    if o.Returns? then Returns(prefix + o.value) else o
  }

  lemma PrependTwice(a: seq<int>, b: seq<int>, o: Outcome<seq<int>>)
    ensures Prepend(a, Prepend(b, o)) == Prepend(a + b, o)
  {
    if o.Returns? {
      assert a + (b + o.value) == (a + b) + o.value;
    }
  }

  /** What the iterator yields from offset on, as the constructor collects it.
      A low surrogate where a character starts is refused. A high surrogate
      is refused too: when a low surrogate follows, the pair is yielded and
      resuming the iterator then raises the high-surrogate exception all the
      same; when none follows, that exception is raised at once. Any other
      unit goes through the UnicodeCharacter16 constructor, which refuses
      U+FFFE and U+FFFF. */
  function ScanFrom(s: Utf16, offset: nat): (o: Outcome<seq<int>>)
    requires offset <= |s|
    ensures o.Throws? ==> o.thrown.InvalidCastException?
    ensures o.Returns? ==> |o.value| == |s| - offset
    decreases |s| - offset
  {
    if offset == |s| then Returns([])
    else
      var u := s[offset];
      if IsLowSurrogate(u) then Throws(InvalidCastException(LowMessage))
      else if IsHighSurrogate(u) then Throws(InvalidCastException(HighMessage))
      else
        match NewUnicodeCharacter16(MayBe(Ref([u])))
        case Throws(e) => Throws(e)
        case Returns(c) => Prepend([c.Utf32], ScanFrom(s, offset + 1))
  }

  /** The whole scan of a present string. The loop tests its first unit
      before any length check, so the empty string raises
      IndexOutOfRangeException. */
  function ScanOutcome(s: Utf16): (o: Outcome<seq<int>>)
    ensures |s| == 0 ==> o == Throws(IndexOutOfRangeException)
  {
    if |s| == 0 then Throws(IndexOutOfRangeException) else ScanFrom(s, 0)
  }

  /** A unit that stands for a character by itself. */
  predicate IsPlain(u: CodeUnit) {
    !IsSurrogate(u) && !IsDisallowedEnd(u)
  }

  /** The code units, each as an int. */
  function Widen(units: Utf16): (values: seq<int>)
    ensures |values| == |units|
    ensures forall i | 0 <= i < |units| :: values[i] == units[i] as int
  {
    seq(|units|, i requires 0 <= i < |units| => units[i] as int)
  }

  lemma {:induction false} ScanFromAccepts(s: Utf16, offset: nat)
    requires offset <= |s|
    ensures ScanFrom(s, offset).Returns? <==> forall i | offset <= i < |s| :: IsPlain(s[i])
    ensures ScanFrom(s, offset).Returns? ==> ScanFrom(s, offset).value == Widen(s[offset..])
    decreases |s| - offset
  {
    if offset < |s| {
      ScanFromAccepts(s, offset + 1);
      var u := s[offset];
      if IsPlain(u) {
        assert Widen(s[offset..]) == [u as int] + Widen(s[offset + 1..]);
      }
    }
  }

  /** The scan of a present string succeeds exactly when the string is not
      empty and holds no surrogate and neither U+FFFE nor U+FFFF; the scalar
      values are then the code units themselves. */
  lemma ScanAcceptsPlainUnitsOnly(s: Utf16)
    ensures ScanOutcome(s).Returns? <==> |s| > 0 && forall i | 0 <= i < |s| :: IsPlain(s[i])
    ensures ScanOutcome(s).Returns? ==> ScanOutcome(s).value == Widen(s)
  {
    if |s| > 0 {
      ScanFromAccepts(s, 0);
      assert s[0..] == s;
    }
  }

  /** The message of the exception raised at a unit that is not plain: the
      low-surrogate message where a character starts with a low surrogate,
      the high-surrogate message for any high surrogate, and the
      disallowed-end message for U+FFFE and U+FFFF. */
  function RefusalMessage(u: CodeUnit): (m: string)
    requires !IsPlain(u)
    ensures IsLowSurrogate(u) ==> m == LowMessage
    ensures IsHighSurrogate(u) ==> m == HighMessage
    ensures !IsSurrogate(u) ==> m == DisallowedMessage(u)
  {
    if IsLowSurrogate(u) then LowMessage
    else if IsHighSurrogate(u) then HighMessage
    else DisallowedMessage(u)
  }

  /** The scan from an offset raises the exception that the first unit at or
      after the offset that is not plain calls for. */
  lemma {:induction false} ScanFromRefuses(s: Utf16, offset: nat, k: nat)
    requires offset <= k < |s| && !IsPlain(s[k])
    requires forall j | offset <= j < k :: IsPlain(s[j])
    ensures ScanFrom(s, offset) == Throws(InvalidCastException(RefusalMessage(s[k])))
    decreases k - offset
  {
    var u := s[offset];
    if offset < k {
      assert IsPlain(u);
      ScanFromRefuses(s, offset + 1, k);
      assert IsCharacter([u]);
    } else if !IsSurrogate(u) {
      ConstructorMessages([u]);
    }
  }

  /** The scan of a present string raises the exception its first unit that
      is not plain calls for. */
  lemma ScanRefuses(s: Utf16, k: nat)
    requires k < |s| && !IsPlain(s[k])
    requires forall j | 0 <= j < k :: IsPlain(s[j])
    ensures ScanOutcome(s) == Throws(InvalidCastException(RefusalMessage(s[k])))
  {
    ScanFromRefuses(s, 0, k);
  }

  /** A string holding a surrogate pair anywhere is refused, though the pair
      is a valid character. */
  lemma ScanRefusesEveryPair(s: Utf16, i: nat)
    requires i + 1 < |s| && IsHighSurrogate(s[i]) && IsLowSurrogate(s[i + 1])
    ensures ScanOutcome(s).Throws?
  {
    ScanAcceptsPlainUnitsOnly(s);
  }

  /** U+1F600 alone raises the high-surrogate exception; the empty string
      raises IndexOutOfRangeException. */
  lemma ScanCounterexamples()
    ensures ScanOutcome([0xD83D, 0xDE00]) == Throws(InvalidCastException(HighMessage))
    ensures ScanOutcome([]) == Throws(IndexOutOfRangeException)
  {
  }

  /** A scalar value the UnicodeCharacter16 constructor accepts. */
  predicate IsCharacterValue(v: int) {
    IsScalarValue(v) && v != 0xFFFE && v != 0xFFFF
  }

  /** Encodes a sequence of scalar values as UTF-16. */
  function EncodeAll(values: seq<int>): (s: Utf16)
    requires forall i | 0 <= i < |values| :: IsCharacterValue(values[i])
    ensures |values| <= |s| <= 2 * |values|
  {
    if values == [] then []
    else
      assert IsCharacterValue(values[0]);
      EncodeUtf16(values[0]) + EncodeAll(values[1..])
  }

  /** The scan as evidently intended: a high surrogate followed by a low one
      is decoded as one character, and the empty string holds no character. */
  function Decode(s: Utf16): (o: Outcome<seq<int>>)
    ensures o.Throws? ==> o.thrown.InvalidCastException?
    ensures o.Returns? ==> forall i | 0 <= i < |o.value| :: IsCharacterValue(o.value[i])
  {
    if s == [] then Returns([])
    else if |s| >= 2 && IsHighSurrogate(s[0]) && IsLowSurrogate(s[1]) then
      Prepend([ConvertToUtf32(s[0], s[1])], Decode(s[2..]))
    else
      match NewUnicodeCharacter16(MayBe(Ref([s[0]])))
      case Throws(e) => Throws(e)
      case Returns(c) =>
        assert IsCharacterValue(c.Utf32);
        Prepend([c.Utf32], Decode(s[1..]))
  }

  /** Decoding what was encoded gives the values back. */
  lemma {:induction false} DecodeEncodeAll(values: seq<int>)
    requires forall i | 0 <= i < |values| :: IsCharacterValue(values[i])
    ensures Decode(EncodeAll(values)) == Returns(values)
  {
    if values != [] {
      var v := values[0];
      var head, rest := EncodeUtf16(v), EncodeAll(values[1..]);
      var s := head + rest;
      DecodeEncodeAll(values[1..]);
      if v < 0x1_0000 {
        assert s[0] == head[0] && s[1..] == rest;
        ConstructorDecodesEncoding(v);
      } else {
        assert s[0] == head[0] && s[1] == head[1] && s[2..] == rest;
        DecodeEncodedValue(v);
      }
      assert [v] + values[1..] == values;
    }
  }

  /** Whatever Decode accepts is the encoding of the values it returns. */
  lemma {:induction false} EncodeAllDecode(s: Utf16)
    requires Decode(s).Returns?
    ensures EncodeAll(Decode(s).value) == s
  {
    if s != [] {
      var values := Decode(s).value;
      if |s| >= 2 && IsHighSurrogate(s[0]) && IsLowSurrogate(s[1]) {
        EncodeAllDecode(s[2..]);
        EncodeDecodedPair(s[0], s[1]);
        assert values[1..] == Decode(s[2..]).value;
        assert s == [s[0], s[1]] + s[2..];
      } else {
        EncodeAllDecode(s[1..]);
        assert values[1..] == Decode(s[1..]).value;
        assert s == [s[0]] + s[1..];
      }
    }
  }

  lemma {:induction false} ScanFromMatchesDecode(s: Utf16, offset: nat)
    requires offset <= |s|
    requires forall i | offset <= i < |s| :: !IsHighSurrogate(s[i])
    ensures ScanFrom(s, offset) == Decode(s[offset..])
    decreases |s| - offset
  {
    if offset < |s| {
      ScanFromMatchesDecode(s, offset + 1);
      assert s[offset..][1..] == s[offset + 1..];
    }
  }

  /** On a non-empty string without high surrogates the scan as written and
      the corrected one agree, errors included. */
  lemma ScanMatchesDecodeWithoutPairs(s: Utf16)
    requires |s| > 0
    requires forall i | 0 <= i < |s| :: !IsHighSurrogate(s[i])
    ensures ScanOutcome(s) == Decode(s)
  {
    ScanFromMatchesDecode(s, 0);
    assert s[0..] == s;
  }

  /** The corrected scan accepts U+1F600 and the empty string. */
  lemma DecodeExamples()
    ensures Decode([0xD83D, 0xDE00]) == Returns([0x1F600])
    ensures Decode([]) == Returns([])
  {
    var s: Utf16 := [0xD83D, 0xDE00];
    assert s[2..] == [];
    assert ConvertToUtf32(s[0], s[1]) == 0x1F600;
    assert Decode(s[2..]) == Returns([]);
    assert [0x1F600] + [] == [0x1F600];
  }

  class UnicodeString16 {
    /** The string, as ValueProperty keeps it. */
    const Value: MayBe<Utf16>
    /** The scalar values of the characters; null for an absent string. */
    var Utf32String: array?<int>

    constructor (value: MayBe<Utf16>)
      ensures Value == value && Utf32String == null
    {
      Value := value;
      Utf32String := null;
    }
  }

  /** One step of the scan, by the kind of unit at the offset. */
  lemma ScanFromStep(s: Utf16, offset: nat)
    requires offset < |s|
    ensures IsLowSurrogate(s[offset]) ==> ScanFrom(s, offset) == Throws(InvalidCastException(LowMessage))
    ensures IsHighSurrogate(s[offset]) ==> ScanFrom(s, offset) == Throws(InvalidCastException(HighMessage))
    ensures !IsSurrogate(s[offset]) ==>
      var c := NewUnicodeCharacter16(MayBe(Ref([s[offset]])));
      ScanFrom(s, offset) == if c.Throws? then Throws(c.thrown) else Prepend([c.value.Utf32], ScanFrom(s, offset + 1))
  {
  }

  /** The foreach over GetUnicodeCharacter: each character yielded is stored
      at the next free slot of utf32, and an exception of the iterator ends
      the scan. On success, the count of characters stored and the stored
      values are those of ScanOutcome. */
  method ScanInto(s: Utf16, utf32: array<int>) returns (o: Outcome<nat>)
    requires 0 < |s| && utf32.Length == |s| + 1
    modifies utf32
    ensures o.Throws? <==> ScanOutcome(s).Throws?
    ensures o.Throws? ==> o.thrown == ScanOutcome(s).thrown
    ensures o.Returns? ==> o.value <= |s| && utf32[..o.value] == ScanOutcome(s).value
  {
    var characterCount := 0;
    var offset := 0;
    assert utf32[..0] == [];
    if ScanFrom(s, 0).Returns? {
      assert [] + ScanFrom(s, 0).value == ScanFrom(s, 0).value;
    }
    while offset < |s|
      invariant characterCount <= offset <= |s|
      invariant ScanOutcome(s) == Prepend(utf32[..characterCount], ScanFrom(s, offset))
      decreases |s| - offset
    {
      var u := s[offset];
      ScanFromStep(s, offset);
      if IsLowSurrogate(u) {
        return Throws(InvalidCastException(LowMessage));
      }
      if IsHighSurrogate(u) {
        if offset < |s| - 1 && IsLowSurrogate(s[offset + 1]) {
          // The pair is yielded and stored; resuming the iterator then throws.
          offset := offset + 2;
          var pair := NewUnicodeCharacter16(MayBe(Ref(s[offset - 2..offset])));
          if pair.Returns? {
            utf32[characterCount] := pair.value.Utf32;
            characterCount := characterCount + 1;
          }
        }
        return Throws(InvalidCastException(HighMessage));
      }
      offset := offset + 1;
      var c := NewUnicodeCharacter16(MayBe(Ref([u])));
      if c.Throws? {
        return Throws(c.thrown);
      }
      ghost var prefix := utf32[..characterCount];
      assert ScanOutcome(s) == Prepend(prefix, Prepend([c.value.Utf32], ScanFrom(s, offset)));
      PrependTwice(prefix, [c.value.Utf32], ScanFrom(s, offset));
      utf32[characterCount] := c.value.Utf32;
      assert utf32[..characterCount + 1] == prefix + [c.value.Utf32];
      characterCount := characterCount + 1;
    }
    return Returns(characterCount);
  }

  /** The constructor UnicodeString16(MayBe<string> value). An absent value
      leaves Utf32String null. A present one is scanned into a buffer one
      longer than the string, then the values found are copied into a fresh
      Utf32String; an exception of the scan ends the construction. */
  method New(value: MayBe<Utf16>) returns (o: Outcome<UnicodeString16>)
    ensures value.HasNoValue() ==> o.Returns? && o.value.Value == value && o.value.Utf32String == null
    ensures value.HasValue() ==> (o.Returns? <==> ScanOutcome(value.slot.target).Returns?)
    ensures value.HasValue() && o.Throws? ==> o.thrown == ScanOutcome(value.slot.target).thrown
    ensures value.HasValue() && o.Returns? ==>
      && o.value.Value == value
      && o.value.Utf32String != null
      && o.value.Utf32String[..] == ScanOutcome(value.slot.target).value
    ensures o.Returns? ==> fresh(o.value)
    ensures o.Returns? && value.HasValue() ==> fresh(o.value.Utf32String)
  {
    var result := new UnicodeString16(value);
    if value.HasNoValue() {
      return Returns(result);
    }
    var s := value.slot.target;
    if |s| == 0 {
      return Throws(IndexOutOfRangeException);
    }
    var utf32 := new int[|s| + 1];
    var scanned := ScanInto(s, utf32);
    if scanned.Throws? {
      return Throws(scanned.thrown);
    }
    var characterCount := scanned.value;
    var values := new int[characterCount];
    forall i | 0 <= i < characterCount {
      values[i] := utf32[i];
    }
    assert values[..] == utf32[..characterCount];
    result.Utf32String := values;
    return Returns(result);
  }
}
