/** ReflectiveTools.ShortName: the class name alone, from an
    assembly-qualified, namespace-qualified type name. */
module ReflectiveTools {
  import opened Text

  /** The text before the first comma: the full class name without the
      assembly, version and key information. */
  function BeforeFirstComma(fullName: string): (head: string)
    ensures ',' !in head
    ensures StartsWith(fullName, head)
  {
    fullName[..if ',' in fullName then IndexOf(fullName, ',') else |fullName|]
  }

  /** `fullName.Split(',')[0]`: the first piece of the split on ',' is the
      text before the first comma. */
  function FullClassName(fullName: string): (fullClassName: string)
    ensures fullClassName == BeforeFirstComma(fullName)
  {
    SplitFirst(fullName, ',');
    Split(fullName, ',')[0]
  }

  /** The last piece of a split: the text after the last separator, which
      holds no separator. */
  function LastPart(s: string, sep: char): (part: string)
    ensures part == s[LastIndexOf(s, sep) + 1..]
    ensures sep !in part
  {
    SplitLast(s, sep);
    NothingAfterLast(s, sep);
    var parts := Split(s, sep);
    parts[|parts| - 1]
  }

  /** The last piece of the split on '.' of the first piece of the split on
      ','. It is the text after the last full stop of the text before the
      first comma, and it holds neither separator. */
  function ShortName(fullName: string): (name: string)
    ensures var head := BeforeFirstComma(fullName); name == head[LastIndexOf(head, '.') + 1..]
    ensures ',' !in name && '.' !in name
  {
    var fullClassName := FullClassName(fullName);
    NotInSuffix(fullClassName, ',', LastIndexOf(fullClassName, '.') + 1);
    LastPart(fullClassName, '.')
  }

  /** A character absent from a string is absent from each of its suffixes. */
  lemma NotInSuffix(s: string, c: char, i: int)
    requires c !in s && 0 <= i <= |s|
    ensures c !in s[i..]
  {
    assert forall j | 0 <= j < |s| - i :: s[i..][j] == s[i + j];
  }

  /** No separator follows the last one. */
  lemma NothingAfterLast(s: string, c: char)
    ensures c !in s[LastIndexOf(s, c) + 1..]
  {
    if LastIndexOf(s, c) == -1 {
      assert s[0..] == s;
    }
  }

  /** A name with no comma and no full stop is its own short name. */
  lemma ShortNameOfSimpleName(name: string)
    requires ',' !in name && '.' !in name
    ensures ShortName(name) == name
  {
    assert BeforeFirstComma(name) == name;
  }

  /** Taking the short name twice changes nothing. */
  lemma ShortNameIdempotent(fullName: string)
    ensures ShortName(ShortName(fullName)) == ShortName(fullName)
  {
    ShortNameOfSimpleName(ShortName(fullName));
  }

  /** The short name is a suffix of the text before the first comma. */
  lemma ShortNameIsSuffix(fullName: string)
    ensures var head := BeforeFirstComma(fullName);
      |ShortName(fullName)| <= |head| && head[|head| - |ShortName(fullName)|..] == ShortName(fullName)
  {
  }

  /** The first occurrence of c in p + [c] + q, when p holds no c, is at |p|. */
  lemma IndexOfAfter(p: string, c: char, q: string)
    requires c !in p
    ensures IndexOf(p + [c] + q, c) == |p|
  {
    var s := p + [c] + q;
    assert s[|p|] == c;
  }

  /** The last occurrence of c in p + [c] + q, when q holds no c, is at |p|. */
  lemma LastIndexOfBefore(p: string, c: char, q: string)
    requires c !in q
    ensures LastIndexOf(p + [c] + q, c) == |p|
  {
    var s := p + [c] + q;
    assert s[|p|] == c;
  }

  /** An assembly-qualified name loses its assembly and its namespace: the
      short name of "Namespace.Name,Assembly" is "Name". */
  lemma ShortNameOfQualifiedName(namespace: string, name: string, assembly: string)
    requires ',' !in namespace && ',' !in name && '.' !in name
    ensures ShortName(namespace + "." + name + "," + assembly) == name
  {
    var head := namespace + "." + name;
    var fullName := head + "," + assembly;
    assert ',' !in head;
    IndexOfAfter(head, ',', assembly);
    assert BeforeFirstComma(fullName) == head;
    LastIndexOfBefore(namespace, '.', name);
    assert head[|namespace| + 1..] == name;
  }

  /** A concrete assembly-qualified name. */
  lemma ShortNameExample()
    ensures ShortName("N.T, A") == "T"
  {
    ShortNameOfQualifiedName("N", "T", " A");
    assert "N" + "." + "T" + "," + " A" == "N.T, A";
  }
}
