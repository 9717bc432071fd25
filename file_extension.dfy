/** FileExtension: a ValueProperty over a string whose constructor
    validates the text, strips one leading "*." and raises
    InvalidCastException on the first check that fails. */
module FileExtensions {
  import opened Runtime
  import opened Text
  import opened MayBes
  import opened Results
  import ResultExtensions

  const BlankMessage := "File extensions cannot be blank or null"
  const BackslashMessage := "File extensions cannot contain '\\'"
  const SlashMessage := "File extensions cannot contain '/'"
  const ColonMessage := "File extensions cannot contain colons."
  const FullStopMessage := "The extension should not contain full stops."
  const CastPrefix := "Input string is not a valid file extension. Error: "

  /** None of the messages is blank, so each Fail below is allowed. */
  lemma MessagesNotBlank()
    ensures !IsBlank(BlankMessage) && !IsBlank(BackslashMessage) && !IsBlank(SlashMessage)
    ensures !IsBlank(ColonMessage) && !IsBlank(FullStopMessage)
  {
    NotBlank(BlankMessage, |BlankMessage| - 1);
    NotBlank(BackslashMessage, |BackslashMessage| - 1);
    NotBlank(SlashMessage, |SlashMessage| - 1);
    NotBlank(ColonMessage, |ColonMessage| - 1);
    NotBlank(FullStopMessage, |FullStopMessage| - 1);
  }

  /** The text with one leading "*." removed, when it starts with one. */
  function StripWildcardPrefix(s: string): (t: string)
    ensures StartsWith(s, "*.") ==> s == "*." + t
    ensures !StartsWith(s, "*.") ==> t == s
  {
    if StartsWith(s, "*.") then s[2..] else s
  }

  /** What the constructor does with its argument: the stored text, or the
      InvalidCastException it raises. Null counts as the empty string; the
      blank and character checks come first and in this order, the "*."
      prefix is stripped only after they all pass, and the full-stop check
      looks at the stripped text. */
  function FileExtensionOutcome(extension: Nullable<string>): (o: Outcome<string>)
    ensures o.Throws? ==> o.thrown.InvalidCastException? && StartsWith(o.thrown.message, CastPrefix)
    ensures o.Returns? ==> '\\' !in o.value && '/' !in o.value && ':' !in o.value && '.' !in o.value
    ensures var s := if extension.Ref? then extension.target else "";
      IsBlank(s) ==> o == Throws(InvalidCastException(CastPrefix + BlankMessage))
    ensures var s := if extension.Ref? then extension.target else "";
      !IsBlank(s) && '\\' in s ==> o == Throws(InvalidCastException(CastPrefix + BackslashMessage))
    ensures var s := if extension.Ref? then extension.target else "";
      !IsBlank(s) && '\\' !in s && '/' in s ==> o == Throws(InvalidCastException(CastPrefix + SlashMessage))
    ensures var s := if extension.Ref? then extension.target else "";
      !IsBlank(s) && '\\' !in s && '/' !in s && ':' in s ==> o == Throws(InvalidCastException(CastPrefix + ColonMessage))
    ensures var s := if extension.Ref? then extension.target else "";
      !IsBlank(s) && '\\' !in s && '/' !in s && ':' !in s && '.' in StripWildcardPrefix(s)
      ==> o == Throws(InvalidCastException(CastPrefix + FullStopMessage))
  {
    var s := if extension.Ref? then extension.target else "";
    var message :=
      if IsBlank(s) then BlankMessage
      else if '\\' in s then BackslashMessage
      else if '/' in s then SlashMessage
      else if ':' in s then ColonMessage
      else if '.' in StripWildcardPrefix(s) then FullStopMessage
      else "";
    if message != "" then
      assert (CastPrefix + message)[..|CastPrefix|] == CastPrefix;
      Throws(InvalidCastException(CastPrefix + message))
    else
      var t := StripWildcardPrefix(s);
      assert forall c | c in t :: c in s by {
        if StartsWith(s, "*.") {
          assert forall i | 0 <= i < |t| :: t[i] == s[i + 2];
        }
      }
      Returns(t)
  }

  /** The FileExtension object: the Value property of its ValueProperty
      base, which the constructor overwrites when it strips the prefix. */
  class FileExtension {
    var Value: MayBe<string>

    /** base(extension ?? string.Empty). */
    constructor (extension: Nullable<string>)
      ensures Value == MayBe(Ref(if extension.Ref? then extension.target else ""))
    {
      Value := MayBe(Ref(if extension.Ref? then extension.target else ""));
    }

    /** The OnSuccess action: a leading "*." is cut off the stored value. */
    method StripWildcard()
      requires Value.HasValue()
      modifies this
      ensures Value == MayBe(Ref(StripWildcardPrefix(old(Value.slot.target))))
    {
      if StartsWith(Value.slot.target, "*.") {
        Value := MayBe(Ref(Value.slot.target[2..]));
      }
    }
  }

  /** new FileExtension(extension): the Ensure chain run over the object's
      Value, the OnSuccess action that strips the prefix, the last Ensure
      over the updated Value, and OnFailure turning the error into the
      exception. */
  method New(extension: Nullable<string>, callingMethod: string) returns (o: Outcome<FileExtension>)
    ensures o.Returns? <==> FileExtensionOutcome(extension).Returns?
    ensures o.Throws? ==> o.thrown == FileExtensionOutcome(extension).thrown
    ensures o.Returns? ==> fresh(o.value) && o.value.Value == MayBe(Ref(FileExtensionOutcome(extension).value))
  {
    MessagesNotBlank();
    var fe := new FileExtension(extension);
    var result := Ok(Unit, callingMethod);
    result := ResultExtensions.Ensure(result, !IsBlank(fe.Value.slot.target), BlankMessage, callingMethod);
    result := ResultExtensions.Ensure(result, '\\' !in fe.Value.slot.target, BackslashMessage, callingMethod);
    result := ResultExtensions.Ensure(result, '/' !in fe.Value.slot.target, SlashMessage, callingMethod);
    result := ResultExtensions.Ensure(result, ':' !in fe.Value.slot.target, ColonMessage, callingMethod);
    var invoked;
    result, invoked := ResultExtensions.OnSuccessAction(result);
    if invoked {
      fe.StripWildcard();
    }
    result := ResultExtensions.Ensure(result, '.' !in fe.Value.slot.target, FullStopMessage, callingMethod);
    var received;
    result, received := ResultExtensions.OnFailureWithError(result);
    if received != [] {
      return Throws(InvalidCastException(CastPrefix + received[0]));
    }
    return Returns(fe);
  }

  /** "*." passes the blank check before it is stripped, so it is accepted
      and the stored extension is empty. */
  lemma StarDotIsAccepted()
    ensures FileExtensionOutcome(Ref("*.")) == Returns("")
  {
    assert !IsWhiteSpace("*."[0]);
    NotBlank("*.", 0);
    assert StartsWith("*.", "*.");
  }

  /** A text with none of the refused characters and no "*." prefix is
      stored exactly as given, whatever the case of its letters. */
  lemma PlainExtensionIsKept(s: string)
    requires !IsBlank(s) && !StartsWith(s, "*.")
    requires '\\' !in s && '/' !in s && ':' !in s && '.' !in s
    ensures FileExtensionOutcome(Ref(s)) == Returns(s)
  {
  }

  /** "*." followed by a text with none of the refused characters is stored
      as that text, whatever the case of its letters. */
  lemma WildcardExtensionIsStripped(t: string)
    requires '\\' !in t && '/' !in t && ':' !in t && '.' !in t
    ensures FileExtensionOutcome(Ref("*." + t)) == Returns(t)
  {
    var s := "*." + t;
    NotBlank(s, 0);
    assert s[..2] == "*.";
    assert s[2..] == t;
    assert forall c | c in t :: c in s;
  }

  /** The constructor keeps the letters' case: "Jpeg" and "*.jPeg" are stored
      as "Jpeg" and "jPeg", not upper-cased. */
  lemma CaseIsKept()
    ensures FileExtensionOutcome(Ref("Jpeg")) == Returns("Jpeg")
    ensures FileExtensionOutcome(Ref("*.jPeg")) == Returns("jPeg")
  {
    NotBlank("Jpeg", 0);
    assert "Jpeg"[..2] != "*.";
    PlainExtensionIsKept("Jpeg");
    WildcardExtensionIsStripped("jPeg");
    assert "*." + "jPeg" == "*.jPeg";
  }

  /** An accepted extension is the argument with at most one leading "*."
      removed, and the argument was neither null nor blank. */
  lemma AcceptedIsArgumentLessPrefix(extension: Nullable<string>)
    requires FileExtensionOutcome(extension).Returns?
    ensures extension.Ref? && !IsBlank(extension.target)
    ensures extension.target == FileExtensionOutcome(extension).value
         || extension.target == "*." + FileExtensionOutcome(extension).value
  {
  }

  /** A null or blank argument is refused with the blank message. */
  lemma NullOrBlankIsRefused(extension: Nullable<string>)
    requires extension.Null? || IsBlank(extension.target)
    ensures FileExtensionOutcome(extension) == Throws(InvalidCastException(CastPrefix + BlankMessage))
  {
  }
}
