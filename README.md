# WithUnity.Tools core, modelled in Dafny

This project models the functional error-handling core of the WithUnity.Tools
C# library and the validated value types built on it:

- `MayBe<T>`, a struct wrapping a reference that may be null, with a guarded
  `Value`, structural equality and `Unwrap` (module `MayBes`);
- `Result` / `Result<T>`, a success-or-failure record whose constructors tie
  `IsSuccess` to a blank or non-blank `Error`, with an optional exception, an
  append-only `Notes` list and a guarded `Value` (module `Results`, a class
  with `Notes` and `HasNotes` as its mutable fields);
- the `ResultExtensions` combinators (`ToResult`, `OnSuccess`, `OnFailure`,
  `OnFailureGeneratedDefault`, `OnBoth`, `Ensure`, `Initialize`,
  `StripData`), once as functions on result values (module `ResultAlgebra`,
  where the laws are proved) and once as methods on `Result` objects proved
  equal to those functions (module `ResultExtensions`), including the loop
  that copies notes, the out/collection `Ensure` and the paired-array
  `Ensure` loop;
- the equality members and operators of `ValueProperty<T, HeldType>`
  (module `ValueProperties`);
- the validators `EmailAddress`, `FileExtension`, `UnicodeCharacter16` and
  `UnicodeString16` (modules `EmailAddresses`, `FileExtensions`,
  `UnicodeCharacters`, `UnicodeStrings`);
- `ReflectiveTools.ShortName` (module `ReflectiveTools`).

Supporting modules: `Runtime` (null references as `Nullable<T>`, .NET
exceptions as `Outcome<T> = Returns | Throws`, a stored exception as its type
name and message) and `Text` (the .NET white-space table, `Trim`,
`IsNullOrWhiteSpace`, `IndexOf`, `LastIndexOf`, `Split` and their laws).

Strings are `seq<char>`, except in the two UTF-16 validators: Dafny's `char`
cannot hold a lone surrogate, so there a string is a sequence of 16-bit code
units (`newtype CodeUnit`). Surrogate pairs are decoded and encoded as
section 2.2 and section 2.1 of RFC 2781 describe.

The calling method, which the library finds by walking the stack, is an
ordinary `callingMethod` argument. Callbacks (`Func`, `Action`) are pure
functions; an `Action` is observed through what the method reports it was
called with.

Where the library's own tests or documentation disagree with its code, the
model follows the code. The `FileExtension` tests expect the stored extension
to be upper-cased, but the constructor never changes case
(`FileExtensions.CaseIsKept`). The `UnicodeCharacter16` constructor's
documentation promises an exception for a null string
(WithUnity.Tools/ValueProperties/UnicodeCharacter16.cs:65 and 72), but the
constructor accepts an absent input unchecked, with Utf32 0 (line 78;
`UnicodeCharacters.NewUnicodeCharacter16`). The `Ensure(Func<bool>)` overloads
(WithUnity.Tools/ResultExtensions.cs:383-386 and 413-416) call the predicate
before testing `IsFailure`, so the callback of a later stage runs even after
the result has failed; the model follows the code
(`ResultExtensions.Ensure` takes the predicate's value), and because callbacks
are pure functions here, that early call has no effect the model can show.

## Model

| member | source | states |
|---|---|---|
| MayBes.MayBe.Value | WithUnity.Tools/MayBe.cs:30-39 | raises InvalidOperationException exactly when the MayBe is empty, otherwise returns the wrapped value |
| MayBes.MayBe.Unwrap | WithUnity.Tools/MayBe.cs:207-213 | the wrapped value when there is one, the default otherwise |
| MayBes.ToMayBe | WithUnity.Tools/MayBe.cs:68-81 | ToMayBe and the implicit cast wrap the argument itself, so the MayBe has a value exactly when the argument is not null |
| MayBes.Equals | WithUnity.Tools/MayBe.cs:182-191 | two empties are equal, an empty and a full one are not, otherwise the values are compared: exactly structural equality |
| MayBes.EqualsValue | WithUnity.Tools/MayBe.cs:89-95 | an empty MayBe equals only null; a full one equals exactly its own value |
| MayBes.NotEqualsValue | WithUnity.Tools/MayBe.cs:103-106 | the negation of `==` against a value |
| MayBes.EqualsMayBe | WithUnity.Tools/MayBe.cs:114-117 | `==` between MayBes is structural equality |
| MayBes.NotEqualsMayBe | WithUnity.Tools/MayBe.cs:125-128 | the negation of `==` between MayBes |
| MayBes.EqualsObject | WithUnity.Tools/MayBe.cs:135-163 | false for null even when empty; a held value compares as a MayBe wrapping it; a boxed MayBe compares structurally (two empties are equal); any other object is unequal |
| MayBes.EqualsIsEquivalence | WithUnity.Tools/MayBe.cs:182-191 | Equals(MayBe) is reflexive, symmetric and transitive |
| MayBes.EqualsOverloadsAgree | WithUnity.Tools/MayBe.cs:89-163 | Equals(object) on a boxed MayBe or a held value agrees with Equals(MayBe) and `==` |
| Results.ResultValue.Value | WithUnity.Tools/Result.cs:334-343 | raises InvalidOperationException exactly on failure; on a well-formed success returns the stored value |
| Results.ResultValue.WithNote | WithUnity.Tools/Result.cs:315-319 | the note is appended at the end, HasNotes is set, nothing else changes, and well-formedness is kept |
| Results.Construct | WithUnity.Tools/Result.cs:124-145 | raises InvalidOperationException exactly when success comes with a non-blank error or failure with a blank one; otherwise the flag, text, caller and value are stored, with no notes and no exception |
| Results.ConstructFromException | WithUnity.Tools/Result.cs:152-162 | always a failure storing the exception, with no notes, and an error text that contains the calling method, the exception's type name and its message |
| Results.OkValue | WithUnity.Tools/Result.cs:225-244 | Ok is the checked construction of a success with an empty error; its Value returns the value |
| Results.FailValue | WithUnity.Tools/Result.cs:195-202 | Fail(message) is the checked construction of a failure whose Error is the message; its Value raises InvalidOperationException |
| Results.Result.FromFlag | WithUnity.Tools/Result.cs:362-366 | the new object holds what the checked construction describes |
| Results.Result.FromException | WithUnity.Tools/Result.cs:374-378 | the new object holds the exception failure and is well formed |
| Results.Result.Copy | WithUnity.Tools/Result.cs:95-116 | the copy has every property of the original, the notes copied in order by the loop |
| Results.Result.Value | WithUnity.Tools/Result.cs:334-343 | the object's Value is the value view's Value |
| Results.Result.AddNote | WithUnity.Tools/Result.cs:315-319 | appends the note, sets HasNotes, changes nothing else, keeps the invariant |
| Results.Ok | WithUnity.Tools/Result.cs:237-244 | a fresh Result holding OkValue |
| Results.Fail | WithUnity.Tools/Result.cs:195-202 | a fresh Result holding FailValue |
| Results.FailException | WithUnity.Tools/Result.cs:212-219 | a fresh Result holding the exception failure |
| Results.InitializeValue | WithUnity.Tools/Result.cs:255-266 | succeeds exactly when the value is not null, then with an empty error and the value; otherwise fails with the given error |
| Results.Initialize | WithUnity.Tools/Result.cs:255-266 | a fresh Result holding InitializeValue (also Result<T>.Initialize, lines 425-429) |
| Results.InitializeMayBe | WithUnity.Tools/Result.cs:277-294 | a fresh Result holding InitializeValue of the MayBe's content |
| Results.InitializeBool | WithUnity.Tools/Result.cs:304-307 | Ok exactly when the condition holds, otherwise a failure with the message |
| Results.CastValue | WithUnity.Tools/Result.cs:389-412 | ToResult and the implicit cast: success with the value when it is not null, otherwise a failure "Result<T> invalid implicit cast." |
| Results.FactoriesStartWithoutNotes | WithUnity.Tools/Result.cs:141-144 | Ok and Fail results have no notes; Ok has an empty error and no exception |
| ResultAlgebra.ToResult | WithUnity.Tools/ResultExtensions.cs:34-40 | an absent MayBe fails with the message, a present one succeeds with its content; equal to InitializeValue |
| ResultAlgebra.Ensure | WithUnity.Tools/ResultExtensions.cs:396-404 | a failure passes through; a false condition fails with the message; a true one returns the input |
| ResultAlgebra.EnsureWith | WithUnity.Tools/ResultExtensions.cs:365-373 | as Ensure, the predicate applied to the value only on success |
| ResultAlgebra.OnSuccessMap | WithUnity.Tools/ResultExtensions.cs:98-103 | a failure passes through; a success becomes Ok(func(value)) without notes |
| ResultAlgebra.OnSuccessBind | WithUnity.Tools/ResultExtensions.cs:114-119 | a failure passes through; a success is replaced by func's result |
| ResultAlgebra.OnSuccessCheck | WithUnity.Tools/ResultExtensions.cs:132-144 | the input is kept when the check succeeds, replaced by a failure with the check's error when it fails |
| ResultAlgebra.Converted | WithUnity.Tools/ResultExtensions.cs:159-176 | the converted result before notes: same success flag, well formed, no notes |
| ResultAlgebra.OnSuccessConvert | WithUnity.Tools/ResultExtensions.cs:159-185 | a failure keeps its exception (with a new error text) or its error text; a success holds func(value); the notes are copied in order |
| ResultAlgebra.OnSuccessBindConvert | WithUnity.Tools/ResultExtensions.cs:200-205 | a failure becomes Fail(error); a success is func's result |
| ResultAlgebra.OnSuccessThen | WithUnity.Tools/ResultExtensions.cs:215-221 | the next result replaces a success; a failure passes through |
| ResultAlgebra.OnFailureGeneratedDefault | WithUnity.Tools/ResultExtensions.cs:250-258 | the generated result replaces only a failure |
| ResultAlgebra.StripData | WithUnity.Tools/ResultExtensions.cs:532-535 | keeps success or failure and the failure's error text, drops value, notes and exception |
| ResultAlgebra.FirstMismatch | WithUnity.Tools/ResultExtensions.cs:504-508 | the lowest index the predicate rejects, every earlier pair accepted, or the length when none is rejected |
| ResultAlgebra.EnsurePairwise | WithUnity.Tools/ResultExtensions.cs:479-510 | both absent passes; one absent fails with NullErrorMessage(1) or (2); lengths differ fails with the length message; otherwise fails at the lowest rejected index and passes exactly when every pair is accepted |
| ResultAlgebra.FailureShortCircuits | WithUnity.Tools/ResultExtensions.cs:98-144 | every same-type OnSuccess and Ensure returns a failed input unchanged |
| ResultAlgebra.EnsureAll | WithUnity.Tools/ResultExtensions.cs:396-404 | a chain of Ensure calls keeps well-formedness |
| ResultAlgebra.EnsureAllFirstFailure | WithUnity.Tools/ResultExtensions.cs:396-404 | a chain of Ensure calls on a success succeeds iff every condition holds, and otherwise fails with the message of the first false one |
| ResultAlgebra.BindConvertDropsExceptionAndNotes | WithUnity.Tools/ResultExtensions.cs:159-205 | on a failure the Func<TIn, Result<TOut>> overload drops the exception and the notes, the Func<TIn, TOut> overload keeps both |
| ResultAlgebra.BindAssociative | WithUnity.Tools/ResultExtensions.cs:114-119 | OnSuccess(Func<T, Result<T>>) chains associatively |
| ResultExtensions.ToResult | WithUnity.Tools/ResultExtensions.cs:34-40 | a fresh Result holding ResultAlgebra.ToResult |
| ResultExtensions.Initialize | WithUnity.Tools/ResultExtensions.cs:521-524 | a fresh Result holding ResultAlgebra.ToResult |
| ResultExtensions.OnSuccessAction | WithUnity.Tools/ResultExtensions.cs:49-73 | returns the input; the action runs exactly on success |
| ResultExtensions.OnSuccessActionWithValue | WithUnity.Tools/ResultExtensions.cs:82-88 | returns the input; the action receives the value once on success and is not called on failure |
| ResultExtensions.OnSuccessMap | WithUnity.Tools/ResultExtensions.cs:98-103 | the same object on failure, a fresh one otherwise, holding ResultAlgebra.OnSuccessMap |
| ResultExtensions.OnSuccessBind | WithUnity.Tools/ResultExtensions.cs:114-119 | the input on failure, func's object on success |
| ResultExtensions.OnSuccessCheck | WithUnity.Tools/ResultExtensions.cs:132-144 | the input unless the check fails, then a fresh failure with the check's error |
| ResultExtensions.OnSuccessConvert | WithUnity.Tools/ResultExtensions.cs:159-185 | a fresh Result holding ResultAlgebra.OnSuccessConvert |
| ResultExtensions.AddNotes | WithUnity.Tools/ResultExtensions.cs:177-183 | the loop appends every note in order and sets HasNotes when there is one |
| ResultExtensions.OnSuccessBindConvert | WithUnity.Tools/ResultExtensions.cs:200-205 | a fresh Fail(error) on failure, func's object on success |
| ResultExtensions.OnSuccessThen | WithUnity.Tools/ResultExtensions.cs:215-221 | func's result on success (func called exactly then), the input on failure |
| ResultExtensions.OnFailureAction | WithUnity.Tools/ResultExtensions.cs:231-277 | returns the input; the action runs exactly on failure |
| ResultExtensions.OnFailureWithError | WithUnity.Tools/ResultExtensions.cs:286-312 | returns the input; the action receives the error text once on failure and is not called on success |
| ResultExtensions.OnFailureGeneratedDefault | WithUnity.Tools/ResultExtensions.cs:250-258 | func's result on failure (func called exactly then), the input on success |
| ResultExtensions.OnBoth | WithUnity.Tools/ResultExtensions.cs:321-341 | returns the input; the action runs once with it |
| ResultExtensions.OnBothFunc | WithUnity.Tools/ResultExtensions.cs:352-355 | the function's value on the result |
| ResultExtensions.Ensure | WithUnity.Tools/ResultExtensions.cs:383-433 | the input unless a success meets a false condition, then a fresh failure; holds ResultAlgebra.Ensure |
| ResultExtensions.EnsureWith | WithUnity.Tools/ResultExtensions.cs:365-373 | the input unless the predicate rejects the value, then a fresh failure; holds ResultAlgebra.EnsureWith |
| ResultExtensions.EnsureCollecting | WithUnity.Tools/ResultExtensions.cs:447-461 | storedResult is always the condition; the message is appended to the collection exactly when a success meets a false condition; the result is ResultAlgebra.Ensure |
| ResultExtensions.EnsurePairwise | WithUnity.Tools/ResultExtensions.cs:479-510 | the index loop with early return gives exactly ResultAlgebra.EnsurePairwise of the arrays' contents |
| ResultExtensions.StripData | WithUnity.Tools/ResultExtensions.cs:532-535 | a fresh Result holding ResultAlgebra.StripData |
| ValueProperties.FromHeld | WithUnity.Tools/ValueProperties/ValueProperty.cs:77-91 | a property holding the value |
| ValueProperties.FromMayBe | WithUnity.Tools/ValueProperties/ValueProperty.cs:111-114 | the implicit cast keeps the MayBe as it is, empty or not |
| ValueProperties.ToValueProperty | WithUnity.Tools/ValueProperties/ValueProperty.cs:100-104 | raises InvalidOperationException exactly for an empty MayBe, otherwise equals the implicit cast |
| ValueProperties.Extract | WithUnity.Tools/ValueProperties/ValueProperty.cs:130-150 | the "other" value: a held value itself, the content of a MayBe or of a property, null for anything else |
| ValueProperties.EqualsCore | WithUnity.Tools/ValueProperties/ValueProperty.cs:162-170 | true exactly when the held MayBe wraps other (an empty one only null) |
| ValueProperties.Equals | WithUnity.Tools/ValueProperties/ValueProperty.cs:125-155 | an empty property equals null; in general true exactly when the extracted value is the held one |
| ValueProperties.EqualsProperty | WithUnity.Tools/ValueProperties/ValueProperty.cs:187-196 | both null true, one null false, otherwise exactly equality of the held MayBes |
| ValueProperties.NotEqualsProperty | WithUnity.Tools/ValueProperties/ValueProperty.cs:204-207 | the negation of `==` |
| ValueProperties.EqualsMayBe | WithUnity.Tools/ValueProperties/ValueProperty.cs:215-227 | true exactly when the property is not null and holds that MayBe |
| ValueProperties.NotEqualsMayBe | WithUnity.Tools/ValueProperties/ValueProperty.cs:235-238 | the negation of `==` |
| ValueProperties.MayBeEquals | WithUnity.Tools/ValueProperties/ValueProperty.cs:246-249 | the reversed operator equals the forward one |
| ValueProperties.MayBeNotEquals | WithUnity.Tools/ValueProperties/ValueProperty.cs:257-260 | the negation of the reversed `==` |
| ValueProperties.EqualsHeld | WithUnity.Tools/ValueProperties/ValueProperty.cs:268-277 | true exactly when the property is not null and holds that value (an empty one only null) |
| ValueProperties.NotEqualsHeld | WithUnity.Tools/ValueProperties/ValueProperty.cs:285-288 | the negation of `==` |
| ValueProperties.HeldEquals | WithUnity.Tools/ValueProperties/ValueProperty.cs:296-299 | the reversed operator equals the forward one |
| ValueProperties.HeldNotEquals | WithUnity.Tools/ValueProperties/ValueProperty.cs:307-310 | the negation of the reversed `==` |
| ValueProperties.EmptyPropertyEqualsAnythingWithoutValue | WithUnity.Tools/ValueProperties/ValueProperty.cs:125-155 | an empty property equals null, an unrelated object, an empty MayBe and an empty property |
| ValueProperties.OperatorsAgree | WithUnity.Tools/ValueProperties/ValueProperty.cs:187-310 | the `==` operators against a property, its MayBe and its held value agree, in either argument order |
| EmailAddresses.FirstFailingCheck | WithUnity.Tools/ValueProperties/EmailAddress.cs:36-40 | the checks as one if-chain, the first failing one naming the error; always well formed |
| EmailAddresses.ValidateEmailAddress | WithUnity.Tools/ValueProperties/EmailAddress.cs:33-41 | an absent address fails with "Null email Address"; a present one gives exactly the first failing check's message, or Ok |
| EmailAddresses.ValidationMeansValid | WithUnity.Tools/ValueProperties/EmailAddress.cs:33-41 | validation succeeds exactly for a present address with no white space at its ends, at least three characters and exactly one '@' that is neither first nor last; the value is then unchanged |
| EmailAddresses.ChecksMeanValid | WithUnity.Tools/ValueProperties/EmailAddress.cs:36-40 | the five checks together are equivalent to that plain description |
| EmailAddresses.LastAtIsOnlyAt | WithUnity.Tools/ValueProperties/EmailAddress.cs:38-40 | with exactly one '@', the last character is '@' exactly when IndexOf finds it last |
| EmailAddresses.CreateEmailAddress | WithUnity.Tools/ValueProperties/EmailAddress.cs:78-81 | succeeds exactly when validation does, holding the input unchanged; otherwise fails with the validation error |
| EmailAddresses.NewEmailAddress | WithUnity.Tools/ValueProperties/EmailAddress.cs:57-63 | with validation on, raises InvalidCastException carrying the validation error exactly when the address is invalid; stores the value as given |
| EmailAddresses.FromString | WithUnity.Tools/ValueProperties/EmailAddress.cs:90-93 | the cast from a string returns exactly for a valid address, holding it; otherwise it raises InvalidCastException carrying the validation error |
| EmailAddresses.FromMayBe | WithUnity.Tools/ValueProperties/EmailAddress.cs:100-103 | the same for a MayBe<string> |
| EmailAddresses.CastAgreesWithCreate | WithUnity.Tools/ValueProperties/EmailAddress.cs:78-103 | the cast returns exactly when CreateEmailAddress succeeds, the same address, and otherwise raises with its error |
| EmailAddresses.EmailAddressValue | WithUnity.Tools/ValueProperties/EmailAddress.cs:108-114 | raises exactly for an absent address, otherwise the held string |
| EmailAddresses.EqualsCore | WithUnity.Tools/ValueProperties/EmailAddress.cs:122-125 | the override answers exactly as the base EqualsCore |
| FileExtensions.StripWildcardPrefix | WithUnity.Tools/ValueProperties/FileExtensions.cs:43-46 | one leading "*." is removed when present, nothing otherwise |
| FileExtensions.FileExtensionOutcome | WithUnity.Tools/ValueProperties/FileExtensions.cs:34-49 | null or blank raises the blank message; then, each only when the earlier checks passed, a '\\' raises the backslash message, a '/' the slash message, a ':' the colon message, and a '.' left after stripping "*." the full-stop message; every message carries the cast prefix; an accepted extension has no '\\', '/', ':' or '.' |
| FileExtensions.FileExtension.constructor | WithUnity.Tools/ValueProperties/FileExtensions.cs:34 | null is stored as the empty string |
| FileExtensions.FileExtension.StripWildcard | WithUnity.Tools/ValueProperties/FileExtensions.cs:41-46 | the OnSuccess action overwrites Value with the prefix removed |
| FileExtensions.New | WithUnity.Tools/ValueProperties/FileExtensions.cs:34-49 | the Ensure chain over the object, the stripping action and the last check raise or store exactly what FileExtensionOutcome says |
| FileExtensions.StarDotIsAccepted | WithUnity.Tools/ValueProperties/FileExtensions.cs:37-47 | "*." passes the blank check before it is stripped and stores "" |
| FileExtensions.PlainExtensionIsKept | WithUnity.Tools/ValueProperties/FileExtensions.cs:34-47 | a non-blank text with no '\\', '/', ':' or '.' and no "*." prefix is stored unchanged |
| FileExtensions.WildcardExtensionIsStripped | WithUnity.Tools/ValueProperties/FileExtensions.cs:34-47 | "*." followed by a text with no '\\', '/', ':' or '.' is stored as that text |
| FileExtensions.CaseIsKept | WithUnity.Tools/ValueProperties/FileExtensions.cs:41-46 | "Jpeg" and "*.jPeg" are stored as "Jpeg" and "jPeg": case is not changed |
| FileExtensions.AcceptedIsArgumentLessPrefix | WithUnity.Tools/ValueProperties/FileExtensions.cs:34-47 | an accepted argument was neither null nor blank, and is the stored value with at most one "*." in front |
| FileExtensions.NullOrBlankIsRefused | WithUnity.Tools/ValueProperties/FileExtensions.cs:34-37 | null or blank raises with the blank message |
| UnicodeCharacters.ConvertToUtf32 | WithUnity.Tools/ValueProperties/UnicodeCharacter16.cs:111 | a high and a low surrogate decode to a scalar value of at least 0x10000 |
| UnicodeCharacters.EncodeUtf16 | WithUnity.Tools/ValueProperties/UnicodeCharacter16.cs:99-113 | one non-surrogate unit below 0x10000, a high then a low surrogate above |
| UnicodeCharacters.EncodeDecodedPair | WithUnity.Tools/ValueProperties/UnicodeCharacter16.cs:104-114 | encoding a decoded pair gives the pair back |
| UnicodeCharacters.DecodeEncodedValue | WithUnity.Tools/ValueProperties/UnicodeCharacter16.cs:111 | decoding an encoded value above 0xFFFF gives the value back |
| UnicodeCharacters.LengthMessage | WithUnity.Tools/ValueProperties/UnicodeCharacter16.cs:83 | the length message is not blank |
| UnicodeCharacters.DisallowedMessage | WithUnity.Tools/ValueProperties/UnicodeCharacter16.cs:89 | the end-code-point message is not blank |
| UnicodeCharacters.NewUnicodeCharacter16 | WithUnity.Tools/ValueProperties/UnicodeCharacter16.cs:73-121 | an absent input is kept unchecked with Utf32 0; a present one is accepted exactly when it is one non-surrogate unit other than U+FFFE/U+FFFF or a high then a low surrogate, and then Utf32 is a scalar value whose encoding is the input; otherwise InvalidCastException, whose message ConstructorMessages gives |
| UnicodeCharacters.ConstructorDecodesEncoding | WithUnity.Tools/ValueProperties/UnicodeCharacter16.cs:73-121 | every scalar value other than U+FFFE/U+FFFF, encoded, is accepted with that Utf32 |
| UnicodeCharacters.ConstructorMessages | WithUnity.Tools/ValueProperties/UnicodeCharacter16.cs:81-118 | each refusal's message: the length message outside one or two units; for one unit the disallowed-end, high- and low-surrogate messages in that order; for two units the high-surrogate message when the first is no high surrogate and the low-surrogate message when the second is no low surrogate |
| UnicodeCharacters.ValidateUnicodeCharacter16 | WithUnity.Tools/ValueProperties/UnicodeCharacter16.cs:35-58 | raises InvalidOperationException exactly for an absent input; a success holds the input |
| UnicodeCharacters.LengthAndHighChecks | WithUnity.Tools/ValueProperties/UnicodeCharacter16.cs:40-42 | succeeds exactly for one or two units not starting with a high surrogate, holding the input; otherwise fails with the length message or the high-surrogate message |
| UnicodeCharacters.SingleUnitChecks | WithUnity.Tools/ValueProperties/UnicodeCharacter16.cs:47-48 | a single unit passes exactly when it is neither U+FFFE/U+FFFF nor a low surrogate; the error is the first check that fails |
| UnicodeCharacters.SecondUnitCheck | WithUnity.Tools/ValueProperties/UnicodeCharacter16.cs:52 | two units pass exactly when the second is not a low surrogate; otherwise the low-surrogate message |
| UnicodeCharacters.ValidatorAgreesOnSingleUnits | WithUnity.Tools/ValueProperties/UnicodeCharacter16.cs:35-58 | on one unit the validator succeeds exactly when the constructor returns, else fails with the constructor's message |
| UnicodeCharacters.ValidatorAndConstructorDisagreeOnPairs | WithUnity.Tools/ValueProperties/UnicodeCharacter16.cs:42-53 | on two units the validator and the constructor never both accept |
| UnicodeCharacters.ValidatorCounterexamples | WithUnity.Tools/ValueProperties/UnicodeCharacter16.cs:42-53 | U+1F600 is accepted by the constructor and refused by the validator; "ab" the other way round |
| UnicodeCharacters.ValidateUnicodeCharacter16Corrected | WithUnity.Tools/ValueProperties/UnicodeCharacter16.cs:35-58 | the intended validator: an absent input fails with its message; a success holds the input |
| UnicodeCharacters.CorrectedValidatorAgreesWithConstructor | WithUnity.Tools/ValueProperties/UnicodeCharacter16.cs:35-121 | the corrected validator succeeds exactly when the constructor returns, else fails with the constructor's message |
| UnicodeStrings.ScanFrom | WithUnity.Tools/ValueProperties/UnicodeString16.cs:58-105 | what the iterator yields from an offset: one value per remaining unit, or InvalidCastException |
| UnicodeStrings.ScanOutcome | WithUnity.Tools/ValueProperties/UnicodeString16.cs:64-67 | the empty string raises IndexOutOfRangeException |
| UnicodeStrings.ScanFromAccepts | WithUnity.Tools/ValueProperties/UnicodeString16.cs:58-105 | the scan from an offset succeeds exactly when no later unit is a surrogate, U+FFFE or U+FFFF, and then yields the units |
| UnicodeStrings.ScanAcceptsPlainUnitsOnly | WithUnity.Tools/ValueProperties/UnicodeString16.cs:36-105 | a present string is accepted exactly when it is non-empty with no surrogate and no U+FFFE/U+FFFF, and Utf32String is then the units, one for one |
| UnicodeStrings.ScanRefusesEveryPair | WithUnity.Tools/ValueProperties/UnicodeString16.cs:74-80 | a string holding a surrogate pair anywhere is refused |
| UnicodeStrings.ScanCounterexamples | WithUnity.Tools/ValueProperties/UnicodeString16.cs:64-80 | U+1F600 raises the high-surrogate exception; the empty string raises IndexOutOfRangeException |
| UnicodeStrings.RefusalMessage | WithUnity.Tools/ValueProperties/UnicodeString16.cs:67-101 | the message for a unit that is not plain: low surrogate, high surrogate, or the disallowed-end message of U+FFFE/U+FFFF |
| UnicodeStrings.ScanFromRefuses | WithUnity.Tools/ValueProperties/UnicodeString16.cs:64-103 | the scan from an offset raises InvalidCastException with the message of the first unit at or after the offset that is not plain |
| UnicodeStrings.ScanRefuses | WithUnity.Tools/ValueProperties/UnicodeString16.cs:43-46 | the constructor's scan of a present string raises the message of its first unit that is not plain |
| UnicodeStrings.EncodeAll | WithUnity.Tools/ValueProperties/UnicodeString16.cs:58-105 | the UTF-16 encoding of a sequence of characters: between one and two units per character |
| UnicodeStrings.Decode | WithUnity.Tools/ValueProperties/UnicodeString16.cs:58-105 | the intended scan: pairs decoded, empty string accepted; what it returns are characters the constructor accepts |
| UnicodeStrings.DecodeEncodeAll | WithUnity.Tools/ValueProperties/UnicodeString16.cs:58-105 | decoding the encoding of any sequence of characters gives it back |
| UnicodeStrings.EncodeAllDecode | WithUnity.Tools/ValueProperties/UnicodeString16.cs:58-105 | whatever the intended scan accepts is the encoding of what it returns |
| UnicodeStrings.ScanMatchesDecodeWithoutPairs | WithUnity.Tools/ValueProperties/UnicodeString16.cs:58-105 | on a non-empty string without high surrogates the scan as written and the intended one agree, errors included |
| UnicodeStrings.DecodeExamples | WithUnity.Tools/ValueProperties/UnicodeString16.cs:58-105 | the intended scan accepts U+1F600 and the empty string |
| UnicodeStrings.UnicodeString16.constructor | WithUnity.Tools/ValueProperties/UnicodeString16.cs:36 | the base stores the value; Utf32String starts unset |
| UnicodeStrings.New | WithUnity.Tools/ValueProperties/UnicodeString16.cs:36-50 | an absent value leaves Utf32String null; for a present one the constructor returns or raises exactly as ScanOutcome says, and Utf32String is a fresh array of exactly its values |
| UnicodeStrings.ScanInto | WithUnity.Tools/ValueProperties/UnicodeString16.cs:40-46 | the foreach stores each yielded character at the next slot of the buffer; it raises exactly ScanOutcome's exception, and otherwise the filled prefix is ScanOutcome's values |
| ReflectiveTools.BeforeFirstComma | WithUnity.Tools/ReflectiveTools.cs:279 | the text before the first comma is a prefix without commas |
| ReflectiveTools.FullClassName | WithUnity.Tools/ReflectiveTools.cs:279 | the first piece of the split on ',' is the text before the first comma |
| ReflectiveTools.LastPart | WithUnity.Tools/ReflectiveTools.cs:280-281 | the last piece of a split is the text after the last separator and holds no separator |
| ReflectiveTools.ShortName | WithUnity.Tools/ReflectiveTools.cs:277-282 | the text after the last '.' of the text before the first ','; it holds neither ',' nor '.' |
| ReflectiveTools.ShortNameOfSimpleName | WithUnity.Tools/ReflectiveTools.cs:277-282 | a name with no ',' and no '.' is returned unchanged |
| ReflectiveTools.ShortNameIdempotent | WithUnity.Tools/ReflectiveTools.cs:277-282 | ShortName(ShortName(s)) == ShortName(s) |
| ReflectiveTools.ShortNameIsSuffix | WithUnity.Tools/ReflectiveTools.cs:277-282 | the result is a suffix of the text before the first ',' |
| ReflectiveTools.ShortNameOfQualifiedName | WithUnity.Tools/ReflectiveTools.cs:277-282 | the short name of "Namespace.Name,Assembly" is "Name" when Name holds no '.' and neither part before the comma holds a ',' |
| ReflectiveTools.ShortNameExample | WithUnity.Tools/ReflectiveTools.cs:277-282 | "N.T, A" gives "T" |

## Left out

- Logging: the `Log.Error`, `Log.VerboseOk` and `Log.Information` calls in the `Result` constructors are I/O with no effect on the result; `Log.cs` is not part of this model.
- The stack walk of `ReflectiveTools.CallingMethod` is replaced by a `callingMethod` argument; the factories' fallback from a blank `callingMethod` to the stack is therefore not modelled. The rest of `ReflectiveTools.cs` (reflection calls, assembly loading) is not part of this model.
- `SecureStringExtensions.cs` (unmanaged memory, hashing) is not part of this model.
- `GetHashCode` and `ToString` overrides depend on runtime hash codes and formatting and are not modelled.
- The UTF-8 bytes of `UnicodeCharacter16` (`Encoding.UTF8.GetBytes`) are a library call; `UnicodeString16.Utf8String` is never assigned by the source.
- Callbacks are pure functions: an exception thrown by a callback, or a side effect other than the one reported (invoked flag, arguments received), is not modelled.
- The `Notes` list is a public mutable `IList`; the model changes it only through `AddNote`.
- The untyped `Result` is `Result<Unit>`; overloads that differ only in the static type of the `Result` (for example `OnFailure(Action)` for `Result` and `Result<T>`, `Ensure` for `Result` and `Result<T>`) are modelled once, and `OnBoth(Action)` and `OnBoth(Action<Result>)` share one method.
- `OnSuccess(Func<Result>)` exists only for the untyped `Result`, and is modelled on `Result<Unit>` only.
- The paired-array `Ensure` takes `object[]` arrays; the model takes arrays of any element type and reads them only, so callbacks that change the arrays are not modelled.
- .NET `IndexOf(string, StringComparison.InvariantCulture)` in `EmailAddress` and `FileExtension` is modelled as an ordinal character search; culture-aware comparison differs only for ignorable characters.
- `ReflectiveTools.ShortName`: a null argument (a `NullReferenceException`) is not modelled; the argument is a string.
- `ValueProperty<T, HeldType>`: the subclass type parameter `T` plays no part in equality and is dropped; the `obj is ValueProperty<T, HeldType>` test is modelled as "is a property over the same held type".
- `UnicodeString16.GetUnicodeCharacter` is a lazy iterator; it is modelled by what its only consumer, the constructor, collects (`ScanFrom`), and the laziness itself is not modelled.
- `FileExtension`: the library's tests expect the stored extension in upper case; the constructor never changes case, and the model follows the constructor.
- Results.Result.FromFlag: requires a consistent flag and text; the InvalidOperationException for an inconsistent pair is modelled by Results.Construct.
- Results.FailValue: requires a non-blank message, because the source then raises InvalidOperationException from the constructor (modelled by Results.Construct).
- Results.Fail: requires a non-blank message, for the same reason.
- Results.InitializeValue: requires a non-blank error when the value is null, for the same reason.
- Results.Initialize: requires a non-blank error when the value is null, for the same reason.
- Results.InitializeMayBe: requires a non-blank error when the MayBe is empty, for the same reason.
- Results.InitializeBool: requires a non-blank message when the condition is false, for the same reason.
- ResultAlgebra.ToResult: requires a non-blank message for an absent MayBe, for the same reason.
- ResultAlgebra.Ensure: requires a non-blank message when a success meets a false condition, for the same reason.
- ResultAlgebra.EnsureWith: requires a non-blank message when the predicate rejects the value, for the same reason.
- ResultAlgebra.EnsurePairwise: requires, on a success, that the one message it fails with (PairwiseMessageAllowed) is not blank, for the same reason.
- ResultExtensions.ToResult: requires a non-blank message for an absent MayBe, for the same reason.
- ResultExtensions.Initialize: requires a non-blank message for an absent MayBe, for the same reason.
- ResultExtensions.Ensure: requires a non-blank message when a success meets a false condition, for the same reason.
- ResultExtensions.EnsureWith: requires a non-blank message when the predicate rejects the value, for the same reason.
- ResultExtensions.EnsureCollecting: requires a non-blank message when a success meets a false condition, for the same reason.
- ResultExtensions.EnsurePairwise: requires, on a success, that the one message it fails with (ResultAlgebra.PairwiseMessageAllowed) is not blank, for the same reason.
- MayBes.EqualsObject: a held value and a boxed MayBe are distinct kinds of object in `Boxed`; for `MayBe<object>` the source's `obj is T` test (WithUnity.Tools/MayBe.cs:143) also catches a boxed MayBe, which the model then compares structurally instead of as a held value.
- MayBes.Equals: T's own `Equals` is read as Dafny's `==`; a T whose `Equals` is not structural equality is not modelled.

## Findings

| source | as written | input that shows it | evidently intended | confidence | as-written member | corrected member |
|---|---|---|---|---|---|---|
| WithUnity.Tools/ValueProperties/UnicodeString16.cs:74-80 | after yielding a well-formed surrogate pair the iterator falls through to the high-surrogate throw | the string U+1F600 (units D83D DE00) | the pair is decoded and the scan goes on | high, not executed | UnicodeStrings.ScanCounterexamples | UnicodeStrings.DecodeEncodeAll |
| WithUnity.Tools/ValueProperties/UnicodeString16.cs:64-67 | the do-while loop reads `value[0]` before testing the length | the empty string | an empty Utf32String | medium, not executed | UnicodeStrings.ScanCounterexamples | UnicodeStrings.DecodeExamples |
| WithUnity.Tools/ValueProperties/UnicodeCharacter16.cs:42-53 | the high-surrogate check on the first unit also applies to two units, and the two-unit branch only checks that the second unit is not a low surrogate | U+1F600 (D83D DE00) is refused; "ab" is accepted | the constructor's checks | high, not executed | UnicodeCharacters.ValidatorCounterexamples | UnicodeCharacters.CorrectedValidatorAgreesWithConstructor |
| WithUnity.Tools/ValueProperties/UnicodeCharacter16.cs:40-41 | the length message reads `input.Value` while the arguments are evaluated | an absent input | a failure with "Null string is not Unicode Character" | high, not executed | UnicodeCharacters.ValidateUnicodeCharacter16 | UnicodeCharacters.ValidateUnicodeCharacter16Corrected |
