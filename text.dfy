/**
 * Character classes and string helpers with the exact meaning the Java code
 * relies on: ASCII case folding (Pattern.CASE_INSENSITIVE without UNICODE_CASE),
 * the `\s` class of java.util.regex, `\w` and an ASCII reading of `\b`,
 * Java line terminators, String.trim and String.split("\\.", 2).
 */
module Text {

  datatype Option<+T> = None | Some(value: T)

  predicate IsAsciiUpper(c: char) { 'A' <= c <= 'Z' }
  predicate IsAsciiLower(c: char) { 'a' <= c <= 'z' }
  predicate IsAsciiLetter(c: char) { IsAsciiUpper(c) || IsAsciiLower(c) }
  predicate IsDigit(c: char) { '0' <= c <= '9' }

  /** `[a-zA-Z_]`: the first character of an identifier in the rewriter's patterns. */
  predicate IsIdentStart(c: char) { IsAsciiLetter(c) || c == '_' }

  /**
   * `[a-zA-Z0-9_]`: Java's `\w`. The model also decides `\b` with it, which is
   * what Java 19 and later do; earlier releases use Character.isLetterOrDigit,
   * which agrees on ASCII text.
   */
  predicate IsWordChar(c: char) { IsIdentStart(c) || IsDigit(c) }

  /** Java's `\s`: `[ \t\n\x0B\f\r]`. */
  predicate IsJavaSpace(c: char) {
    c == ' ' || c == '\t' || c == '\n' || c as int == 0x0B || c as int == 0x0C || c == '\r'
  }

  /** The line terminators that `(?m)^` and `(?m)$` recognise. */
  predicate IsLineTerminator(c: char) {
    c == '\n' || c == '\r' || c as int == 0x85 || c as int == 0x2028 || c as int == 0x2029
  }

  function LowerChar(c: char): char {
    if IsAsciiUpper(c) then (c as int + 32) as char else c
  }

  function UpperChar(c: char): char {
    if IsAsciiLower(c) then (c as int - 32) as char else c
  }

  function Lower(s: string): (r: string)
    ensures |r| == |s|
  {
    seq(|s|, i requires 0 <= i < |s| => LowerChar(s[i]))
  }

  function Upper(s: string): (r: string)
    ensures |r| == |s|
  {
    seq(|s|, i requires 0 <= i < |s| => UpperChar(s[i]))
  }

  lemma LowerAppend(a: string, b: string)
    ensures Lower(a + b) == Lower(a) + Lower(b)
  {
  }

  predicate EqualsIgnoreCase(a: string, b: string) { Lower(a) == Lower(b) }

  /** Java's string concatenation of a possibly-null string. */
  function JavaStr(o: Option<string>): string {
    match o
    case Some(s) => s
    case None => "null"
  }

  /** `s` holds the literal `lit` at position `p`, compared with ASCII case folding. */
  predicate LiteralAt(s: string, p: nat, lit: string) {
    p + |lit| <= |s| && Lower(s[p..p + |lit|]) == Lower(lit)
  }

  /** `s` holds the literal `lit` at position `p`, compared exactly. */
  predicate ExactAt(s: string, p: nat, lit: string) {
    p + |lit| <= |s| && s[p..p + |lit|] == lit
  }

  /** Whether position `i` (possibly outside `s`) holds a word character. */
  predicate WordAt(s: string, i: int) {
    0 <= i < |s| && IsWordChar(s[i])
  }

  /** `\b`: a word character on exactly one side of position `i`. */
  predicate Boundary(s: string, i: nat) {
    WordAt(s, i - 1) != WordAt(s, i)
  }

  /** End of the longest run of `\s` characters starting at `i`. */
  function WsRunEnd(s: string, i: nat): (j: nat)
    requires i <= |s|
    ensures i <= j <= |s|
    ensures forall k :: i <= k < j ==> IsJavaSpace(s[k])
    ensures j < |s| ==> !IsJavaSpace(s[j])
    decreases |s| - i
  {
    if i == |s| || !IsJavaSpace(s[i]) then i else WsRunEnd(s, i + 1)
  }

  /** End of the longest run of `\w` characters starting at `i`. */
  function WordRunEnd(s: string, i: nat): (j: nat)
    requires i <= |s|
    ensures i <= j <= |s|
    ensures forall k :: i <= k < j ==> IsWordChar(s[k])
    ensures j < |s| ==> !IsWordChar(s[j])
    decreases |s| - i
  {
    if i == |s| || !IsWordChar(s[i]) then i else WordRunEnd(s, i + 1)
  }

  /** A run of `\s` characters that a non-space (or the end) closes is the longest one. */
  lemma {:induction false} WsRunEndIs(s: string, i: nat, j: nat)
    requires i <= j <= |s|
    requires forall k :: i <= k < j ==> IsJavaSpace(s[k])
    requires j < |s| ==> !IsJavaSpace(s[j])
    ensures WsRunEnd(s, i) == j
    decreases j - i
  {
    if i < j {
      WsRunEndIs(s, i + 1, j);
    }
  }

  /** A run of `\w` characters that a non-word character (or the end) closes is the longest one. */
  lemma {:induction false} WordRunEndIs(s: string, i: nat, j: nat)
    requires i <= j <= |s|
    requires forall k :: i <= k < j ==> IsWordChar(s[k])
    requires j < |s| ==> !IsWordChar(s[j])
    ensures WordRunEnd(s, i) == j
    decreases j - i
  {
    if i < j {
      WordRunEndIs(s, i + 1, j);
    }
  }

  /** End of the longest run of blanks (' ') starting at `i`. */
  function SpaceRunEnd(s: string, i: nat): (j: nat)
    requires i <= |s|
    ensures i <= j <= |s|
    ensures forall k :: i <= k < j ==> s[k] == ' '
    ensures j < |s| ==> s[j] != ' '
    decreases |s| - i
  {
    if i == |s| || s[i] != ' ' then i else SpaceRunEnd(s, i + 1)
  }

  /** Index of the first occurrence of `c` in `s`, or |s| when there is none. */
  function IndexOf(s: string, c: char): (i: nat)
    ensures i <= |s|
    ensures i < |s| ==> s[i] == c
    ensures forall k :: 0 <= k < i ==> s[k] != c
    ensures c in s <==> i < |s|
  {
    if s == [] then 0
    else if s[0] == c then 0
    else 1 + IndexOf(s[1..], c)
  }

  /** `s.split("\\.", 2)` for an `s` that contains a dot: the text before the first dot and everything after it. */
  function SplitFirstDot(s: string): (parts: (string, string))
    requires '.' in s
    ensures parts.0 + "." + parts.1 == s
    ensures '.' !in parts.0
  {
    var i := IndexOf(s, '.');
    assert s == s[..i] + "." + s[i + 1..];
    (s[..i], s[i + 1..])
  }

  /** Splitting at the first dot is determined by the dot-free head. */
  lemma {:induction false} SplitFirstDotOf(t: string, f: string)
    requires '.' !in t
    ensures SplitFirstDot(t + "." + f) == (t, f)
  {
    var s := t + "." + f;
    var parts := SplitFirstDot(s);
    var i := IndexOf(s, '.');
    assert s[|t|] == '.';
    assert forall k :: 0 <= k < |t| ==> s[k] == t[k];
    assert i == |t|;
    assert parts.0 == s[..i] == t;
    assert parts.1 == s[i + 1..] == f;
  }

  /** Java's `String.trim()`: drops every character up to U+0020 from both ends. */
  function JavaTrim(s: string): (r: string)
    ensures exists i, j ::
              && 0 <= i <= j <= |s| && r == s[i..j]
              && (forall k :: 0 <= k < i ==> s[k] <= ' ')
              && (forall k :: j <= k < |s| ==> s[k] <= ' ')
    ensures r == [] || (r[0] > ' ' && r[|r| - 1] > ' ')
  {
    var i := TrimStart(s, 0);
    var j := TrimEnd(s, i, |s|);
    s[i..j]
  }

  function TrimStart(s: string, i: nat): (k: nat)
    requires i <= |s|
    ensures i <= k <= |s|
    ensures forall m :: i <= m < k ==> s[m] <= ' '
    ensures k < |s| ==> s[k] > ' '
    decreases |s| - i
  {
    if i == |s| || s[i] > ' ' then i else TrimStart(s, i + 1)
  }

  function TrimEnd(s: string, lo: nat, j: nat): (k: nat)
    requires lo <= j <= |s|
    ensures lo <= k <= j
    ensures forall m :: k <= m < j ==> s[m] <= ' '
    ensures k > lo ==> s[k - 1] > ' '
    decreases j
  {
    if j == lo || s[j - 1] > ' ' then j else TrimEnd(s, lo, j - 1)
  }

  /** A string is blank in Java's sense (`trim().isEmpty()`) exactly when every character is at most U+0020. */
  lemma {:induction false} BlankMeansAllControl(s: string)
    ensures JavaTrim(s) == [] <==> forall k :: 0 <= k < |s| ==> s[k] <= ' '
  {
    var i := TrimStart(s, 0);
    var j := TrimEnd(s, i, |s|);
    if i == j {
    } else {
      assert s[i] > ' ';
    }
  }

  /** `f` applied to every element of `s`, the results concatenated in order. */
  function FlatMap<A, B>(f: A -> seq<B>, s: seq<A>): seq<B>
  {
    if s == [] then [] else FlatMap(f, s[..|s| - 1]) + f(s[|s| - 1])
  }

  lemma FlatMapSingle<A, B>(f: A -> seq<B>, x: A)
    ensures FlatMap(f, [x]) == f(x)
  {
    assert [x][..0] == [];
    assert FlatMap(f, [x]) == FlatMap(f, []) + f(x);
  }

  lemma {:induction false} FlatMapAppend<A, B>(f: A -> seq<B>, a: seq<A>, b: seq<A>)
    ensures FlatMap(f, a + b) == FlatMap(f, a) + FlatMap(f, b)
    decreases |b|
  {
    if b == [] {
      assert a + b == a;
    } else {
      var n := |b| - 1;
      var ab := a + b;
      assert ab[..|ab| - 1] == a + b[..n];
      assert ab[|ab| - 1] == b[n];
      calc {
        FlatMap(f, ab);
        FlatMap(f, ab[..|ab| - 1]) + f(ab[|ab| - 1]);
        FlatMap(f, a + b[..n]) + f(b[n]);
        { FlatMapAppend(f, a, b[..n]); }
        FlatMap(f, a) + FlatMap(f, b[..n]) + f(b[n]);
        FlatMap(f, a) + FlatMap(f, b);
      }
    }
  }
}
