/** The .NET string operations the validators use, written out over
    `string` (a sequence of characters): white-space tests, Trim, IndexOf,
    Split and the decimal and hexadecimal formatting used in messages. */
module Text {

  /** Char.IsWhiteSpace: the Unicode space, line and paragraph separators,
      plus the control characters U+0009 to U+000D and U+0085. */
  predicate IsWhiteSpace(c: char) {
    || ('\t' <= c <= '\r')
    || c == ' ' || c == '\U{85}' || c == '\U{A0}' || c == '\U{1680}'
    || ('\U{2000}' <= c <= '\U{200A}')
    || c == '\U{2028}' || c == '\U{2029}' || c == '\U{202F}' || c == '\U{205F}' || c == '\U{3000}'
  }

  /** string.IsNullOrWhiteSpace for a non-null string: empty or white space only. */
  predicate IsBlank(s: string) {
    forall i | 0 <= i < |s| :: IsWhiteSpace(s[i])
  }

  /** A string with a character other than white space is not blank. */
  lemma NotBlank(s: string, i: int)
    requires 0 <= i < |s| && !IsWhiteSpace(s[i])
    ensures !IsBlank(s)
  {
  }

  /** Appending text to a string that is not blank keeps it not blank. */
  lemma NotBlankPrefix(s: string, t: string)
    requires !IsBlank(s)
    ensures !IsBlank(s + t)
  {
    var i :| 0 <= i < |s| && !IsWhiteSpace(s[i]);
    assert (s + t)[i] == s[i];
  }

  /** Leading white space removed. */
  function TrimStart(s: string): (t: string)
    ensures |t| <= |s| && t == s[|s| - |t|..]
    ensures |t| == |s| <==> (|s| == 0 || !IsWhiteSpace(s[0]))
  {
    if |s| > 0 && IsWhiteSpace(s[0]) then TrimStart(s[1..]) else s
  }

  /** Trailing white space removed. */
  function TrimEnd(s: string): (t: string)
    ensures |t| <= |s| && t == s[..|t|]
    ensures |t| == |s| <==> (|s| == 0 || !IsWhiteSpace(s[|s| - 1]))
  {
    if |s| > 0 && IsWhiteSpace(s[|s| - 1]) then TrimEnd(s[..|s| - 1]) else s
  }

  /** string.Trim(): leading and trailing white space removed. */
  function Trim(s: string): string {
    TrimEnd(TrimStart(s))
  }

  /** The string has white space at its start or at its end. */
  predicate NeedsTrimming(s: string) {
    |s| > 0 && (IsWhiteSpace(s[0]) || IsWhiteSpace(s[|s| - 1]))
  }

  /** Trim leaves the length alone exactly when there is nothing to trim. */
  lemma TrimKeepsLength(s: string)
    ensures |Trim(s)| == |s| <==> !NeedsTrimming(s)
  {
    var t := TrimStart(s);
    if |t| == |s| {
      assert t == s;
    }
  }

  /** string.IndexOf(c): the first index of c, or -1. */
  function IndexOf(s: string, c: char): (k: int)
    ensures -1 <= k < |s|
    ensures k == -1 <==> c !in s
    ensures 0 <= k ==> s[k] == c && c !in s[..k]
  {
    if |s| == 0 then -1
    else if s[0] == c then 0
    else
      var k := IndexOf(s[1..], c);
      assert s == [s[0]] + s[1..];
      if k == -1 then -1
      else
        assert s[..k + 1] == [s[0]] + s[1..][..k];
        k + 1
  }

  /** The last index of c, or -1. */
  function LastIndexOf(s: string, c: char): (k: int)
    ensures -1 <= k < |s|
    ensures k == -1 <==> c !in s
    ensures 0 <= k ==> s[k] == c && c !in s[k + 1..]
  {
    if |s| == 0 then -1
    else
      var k := LastIndexOf(s[1..], c);
      assert s == [s[0]] + s[1..];
      if 0 <= k then
        assert s[k + 2..] == s[1..][k + 1..];
        k + 1
      else if s[0] == c then
        assert s[1..] == s[0 + 1..];
        0
      else -1
  }

  /** How many times c occurs in s. */
  function Count(s: string, c: char): (n: nat)
    ensures n == 0 <==> c !in s
  {
    if |s| == 0 then 0
    else
      assert s == [s[0]] + s[1..];
      (if s[0] == c then 1 else 0) + Count(s[1..], c)
  }

  /** string.Split(sep): the pieces between the separators, in order;
      there is always at least one piece. */
  function Split(s: string, sep: char): (parts: seq<string>)
    ensures |parts| == Count(s, sep) + 1
  {
    if |s| == 0 then [""]
    else
      var rest := Split(s[1..], sep);
      if s[0] == sep then [""] + rest
      else [[s[0]] + rest[0]] + rest[1..]
  }

  /** No piece of a split contains the separator. */
  lemma {:induction false} SplitPiecesHaveNoSeparator(s: string, sep: char)
    ensures forall i | 0 <= i < |Split(s, sep)| :: sep !in Split(s, sep)[i]
  {
    if |s| > 0 {
      SplitPiecesHaveNoSeparator(s[1..], sep);
      var rest := Split(s[1..], sep);
      if s[0] != sep {
        assert sep !in [s[0]] + rest[0];
        var parts := Split(s, sep);
        forall i | 0 <= i < |parts| ensures sep !in parts[i] {
          if i > 0 {
            assert parts[i] == rest[i];
          }
        }
      }
    }
  }

  /** Splitting a string with no separator in it gives the string itself. */
  lemma {:induction false} SplitWithoutSeparator(s: string, sep: char)
    requires sep !in s
    ensures Split(s, sep) == [s]
  {
    if |s| > 0 {
      assert sep !in s[1..];
      SplitWithoutSeparator(s[1..], sep);
      assert [s[0]] + s[1..] == s;
    }
  }

  /** The first piece of a split is the text before the first separator. */
  lemma {:induction false} SplitFirst(s: string, sep: char)
    ensures Split(s, sep)[0] == s[..if sep in s then IndexOf(s, sep) else |s|]
  {
    if |s| > 0 && s[0] != sep {
      SplitFirst(s[1..], sep);
      assert sep in s <==> sep in s[1..] by {
        assert s == [s[0]] + s[1..];
      }
      if sep in s {
        assert s[..IndexOf(s, sep)] == [s[0]] + s[1..][..IndexOf(s[1..], sep)];
      } else {
        assert s == [s[0]] + s[1..];
      }
    }
  }

  /** The last piece of a split is the text after the last separator. */
  lemma {:induction false} SplitLast(s: string, sep: char)
    ensures var parts := Split(s, sep); parts[|parts| - 1] == s[LastIndexOf(s, sep) + 1..]
  {
    if |s| > 0 {
      SplitLast(s[1..], sep);
      var rest := Split(s[1..], sep);
      if s[0] == sep {
        SplitLastAtSeparator(s, sep);
      } else if |rest| == 1 {
        SplitLastSinglePiece(s, sep);
      } else {
        SplitLastLaterPiece(s, sep);
      }
    }
  }

  lemma {:induction false} SplitLastAtSeparator(s: string, sep: char)
    requires |s| > 0 && s[0] == sep
    requires var rest := Split(s[1..], sep); rest[|rest| - 1] == s[1..][LastIndexOf(s[1..], sep) + 1..]
    ensures var parts := Split(s, sep); parts[|parts| - 1] == s[LastIndexOf(s, sep) + 1..]
  {
    var rest := Split(s[1..], sep);
    var parts := Split(s, sep);
    assert parts == [""] + rest;
    assert parts[|parts| - 1] == rest[|rest| - 1];
    var k := LastIndexOf(s[1..], sep);
    assert LastIndexOf(s, sep) == k + 1;
    assert s[1..][k + 1..] == s[k + 2..];
  }

  lemma {:induction false} SplitLastSinglePiece(s: string, sep: char)
    requires |s| > 0 && s[0] != sep && |Split(s[1..], sep)| == 1
    requires var rest := Split(s[1..], sep); rest[|rest| - 1] == s[1..][LastIndexOf(s[1..], sep) + 1..]
    ensures var parts := Split(s, sep); parts[|parts| - 1] == s[LastIndexOf(s, sep) + 1..]
  {
    assert sep !in s[1..];
    assert [s[0]] + s[1..] == s;
  }

  lemma {:induction false} SplitLastLaterPiece(s: string, sep: char)
    requires |s| > 0 && s[0] != sep && |Split(s[1..], sep)| > 1
    requires var rest := Split(s[1..], sep); rest[|rest| - 1] == s[1..][LastIndexOf(s[1..], sep) + 1..]
    ensures var parts := Split(s, sep); parts[|parts| - 1] == s[LastIndexOf(s, sep) + 1..]
  {
    var k := LastIndexOf(s[1..], sep);
    assert sep in s[1..];
    assert s[1..][k + 1..] == s[k + 2..];
  }

  /** `part` occurs in `s` starting at index i. */
  predicate OccursAt(s: string, part: string, i: int) {
    0 <= i <= |s| - |part| && s[i..i + |part|] == part
  }

  /** string.Contains(part). */
  predicate Contains(s: string, part: string) {
    exists i | 0 <= i <= |s| :: OccursAt(s, part, i)
  }

  /** s begins with prefix. */
  predicate StartsWith(s: string, prefix: string) {
    |prefix| <= |s| && s[..|prefix|] == prefix
  }

  /** The decimal digits of n, as int.ToString() writes them. */
  function NatToDecimal(n: nat): (s: string)
    ensures |s| >= 1
  {
    if n < 10 then ["0123456789"[n]] else NatToDecimal(n / 10) + ["0123456789"[n % 10]]
  }

  /** The upper-case hexadecimal digits of n, as the format "X" writes them. */
  function NatToHex(n: nat): (s: string)
    ensures |s| >= 1
  {
    if n < 16 then ["0123456789ABCDEF"[n]] else NatToHex(n / 16) + ["0123456789ABCDEF"[n % 16]]
  }
}
