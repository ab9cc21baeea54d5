/** File identifiers and paths as `Search` builds and compares them
    (UMDReplaceK/Program.cs:192-199 and 434-464). */
module Names {
  import opened Bytes

  /** One identifier byte as a character (code points 0..255). */
  function ByteChar(b: byte): char {
    (b as int) as char
  }

  /** The identifier bytes of a record as the string `Search` accumulates. */
  function NameString(bs: seq<byte>): (r: string)
    ensures |r| == |bs|
    ensures forall i :: 0 <= i < |bs| ==> r[i] as int == bs[i] as int
  {
    seq(|bs|, i requires 0 <= i < |bs| => ByteChar(bs[i]))
  }

  /** The "." and ".." records: an identifier of one byte, 0 or 1
      (section 6.8.2.2 of ECMA-119). */
  predicate IsDotEntry(name: string) {
    |name| == 1 && (name[0] == 0 as char || name[0] == 1 as char)
  }

  /** Drops the version suffix ";1" of a file identifier (section 7.5 of ECMA-119). */
  function StripVersion(name: string): (r: string)
    ensures |name| > 2 && name[|name| - 2..] == ";1" ==> r + ";1" == name
    ensures !(|name| > 2 && name[|name| - 2..] == ";1") ==> r == name
  {
    if |name| > 2 && name[|name| - 2..] == ";1" then name[..|name| - 2] else name
  }

  /** `string.Format("{0}/{1}", path, name)`. */
  function ChildPath(parent: string, name: string): (p: string)
    ensures |p| == |parent| + 1 + |name|
    ensures p[..|parent|] == parent && p[|parent|] == '/' && p[|parent| + 1..] == name
  {
    parent + "/" + name
  }

  /** ASCII upper case; other characters are left alone. */
  function Upper(c: char): char {
    if 'a' <= c <= 'z' then (c as int - 32) as char else c
  }

  /** The string with every ASCII letter in upper case. */
  function UpperAll(s: string): (r: string)
    ensures |r| == |s|
    ensures forall i :: 0 <= i < |s| ==> r[i] == Upper(s[i])
  {
    if s == [] then [] else [Upper(s[0])] + UpperAll(s[1..])
  }

  /** Equality of two paths ignoring the case of ASCII letters. */
  predicate EqualsIgnoreCase(a: string, b: string) {
    |a| == |b| && forall i :: 0 <= i < |a| ==> Upper(a[i]) == Upper(b[i])
  }

  /** Two paths are equal ignoring case exactly when they are equal once
      both are put in upper case. */
  lemma EqualsIgnoreCaseIsUpperEqual(a: string, b: string)
    ensures EqualsIgnoreCase(a, b) <==> UpperAll(a) == UpperAll(b)
  {
    if UpperAll(a) == UpperAll(b) {
      assert |a| == |b|;
      forall i | 0 <= i < |a| ensures Upper(a[i]) == Upper(b[i]) {
        assert UpperAll(a)[i] == UpperAll(b)[i];
      }
    }
  }

  /** The records skipped as "." and ".." are exactly those whose identifier
      is the single byte 0 or the single byte 1. */
  lemma DotEntries(name: string)
    ensures IsDotEntry(name) <==> name == [0 as char] || name == [1 as char]
  {
  }

  /** Case-insensitive equality is an equivalence relation. */
  lemma EqualsIgnoreCaseEquivalence(a: string, b: string, c: string)
    ensures EqualsIgnoreCase(a, a)
    ensures EqualsIgnoreCase(a, b) ==> EqualsIgnoreCase(b, a)
    ensures EqualsIgnoreCase(a, b) && EqualsIgnoreCase(b, c) ==> EqualsIgnoreCase(a, c)
  {
  }

  /** Every backslash replaced by a slash. */
  function Slashes(s: string): (r: string)
    ensures |r| == |s|
    ensures forall i :: 0 <= i < |s| ==> r[i] == (if s[i] == '\\' then '/' else s[i])
  {
    seq(|s|, i requires 0 <= i < |s| => if s[i] == '\\' then '/' else s[i])
  }

  /** The requested name as the path `Search` compares against: a leading
      separator is added when there is none, then backslashes become slashes. */
  function NormalizeTarget(name: string): (r: string)
    requires |name| > 0
    ensures |r| > 0 && r[0] == '/'
    ensures forall i :: 0 <= i < |r| ==> r[i] != '\\'
    ensures name[0] == '/' || name[0] == '\\' ==> r == Slashes(name)
    ensures name[0] != '/' && name[0] != '\\' ==> r == "/" + Slashes(name)
  {
    var lead := if name[0] != '/' && name[0] != '\\' then "/" + name else name;
    assert name[0] != '/' && name[0] != '\\' ==> Slashes(lead) == "/" + Slashes(name);
    Slashes(lead)
  }

  /** Writing a name with or without a leading separator, and with slashes or
      backslashes, gives the same target path. */
  lemma {:induction false} SeparatorsEquivalent(name: string)
    requires |name| > 0 && name[0] != '/' && name[0] != '\\'
    ensures NormalizeTarget("/" + name) == NormalizeTarget(name)
    ensures NormalizeTarget("\\" + name) == NormalizeTarget(name)
    ensures NormalizeTarget(Slashes(name)) == NormalizeTarget(name)
  {
    assert Slashes("/" + name) == "/" + Slashes(name);
    assert Slashes("\\" + name) == "/" + Slashes(name);
    assert Slashes(Slashes(name)) == Slashes(name);
  }
}
