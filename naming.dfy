/** `generateAlias` and `capitalize`, the two naming helpers of the text rewriter. */
module Naming {
  import opened Text

  function Min(a: nat, b: nat): nat { if a < b then a else b }

  /**
   * `generateAlias`: the first (at most) three characters of the trimmed name,
   * lower-cased; an empty name is returned as it is.
   */
  function GenerateAlias(tableName: string): (r: string)
    ensures |r| == if tableName == "" then 0 else Min(3, |JavaTrim(tableName)|)
    ensures forall i :: 0 <= i < |r| ==> !IsAsciiUpper(r[i])
    ensures tableName != "" ==> EqualsIgnoreCase(r, JavaTrim(tableName)[..|r|])
  {
    if tableName == "" then tableName
    else
      var cleaned := JavaTrim(tableName);
      var length := Min(3, |cleaned|);
      Lower(cleaned[..length])
  }

  /** A name with nothing to trim gives its first three characters, lower-cased. */
  lemma GenerateAliasOfName(name: string)
    requires |name| >= 3
    requires forall i :: 0 <= i < |name| ==> name[i] > ' '
    ensures GenerateAlias(name) == Lower(name[..3])
    ensures EqualsIgnoreCase(GenerateAlias(name), name[..3])
  {
    NothingToTrim(name);
  }

  /** Trimming a string whose characters are all above U+0020 leaves it unchanged. */
  lemma NothingToTrim(s: string)
    requires forall i :: 0 <= i < |s| ==> s[i] > ' '
    ensures JavaTrim(s) == s
  {
    assert TrimStart(s, 0) == 0;
    assert TrimEnd(s, 0, |s|) == |s|;
  }

  /** `capitalize`: the first character upper-cased and the rest lower-cased; "" stays "". */
  function Capitalize(str: string): (r: string)
    ensures |r| == |str|
    ensures EqualsIgnoreCase(r, str)
    ensures |r| > 0 ==> !IsAsciiLower(r[0])
    ensures forall i :: 1 <= i < |r| ==> !IsAsciiUpper(r[i])
  {
    if str == "" then str
    else
      var r := [UpperChar(str[0])] + Lower(str[1..]);
      assert Lower(r) == Lower(str) by {
        forall i | 0 <= i < |r| ensures Lower(r)[i] == Lower(str)[i] {
          if i > 0 { assert r[i] == LowerChar(str[i]); }
        }
      }
      r
  }

  /** Capitalisation ignores the case the string is written in. */
  lemma CapitalizeIgnoresCase(a: string, b: string)
    requires EqualsIgnoreCase(a, b)
    ensures Capitalize(a) == Capitalize(b)
  {
    if a != "" {
      assert |a| == |Lower(a)| == |Lower(b)| == |b|;
      assert LowerChar(a[0]) == Lower(a)[0] == Lower(b)[0] == LowerChar(b[0]);
      assert Lower(a[1..]) == Lower(a)[1..] == Lower(b)[1..] == Lower(b[1..]);
    }
  }

  /** Capitalising twice is capitalising once. */
  lemma CapitalizeIdempotent(s: string)
    ensures Capitalize(Capitalize(s)) == Capitalize(s)
  {
    CapitalizeIgnoresCase(Capitalize(s), s);
  }
}
