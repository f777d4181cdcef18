/**
 * `sanitizeSQL`: eight rewrites applied in a fixed order, each a single
 * left-to-right pass like `String.replaceAll`. Each rewrite is a scanner
 * `F(s, p)` that produces the rewritten text of `s[p..]`; matches are
 * decided on the input text `s`, as a regex matcher does.
 */
module Sanitizer {
  import opened Text

  /** The class `[\x00-\x08\x0B\x0C\x0E-\x1F\x7F]` removed by the first rewrite. */
  predicate IsUnprintable(c: char) {
    c as int <= 0x08 || c as int == 0x0B || c as int == 0x0C || (0x0E <= c as int <= 0x1F) || c as int == 0x7F
  }

  /** A character that may appear once line endings are normalised. */
  predicate Allowed(c: char) { !IsUnprintable(c) && c != '\r' }

  predicate AllAllowed(s: string) { forall i :: 0 <= i < |s| ==> Allowed(s[i]) }

  predicate NoDoubleSpace(s: string) { forall i :: 0 <= i < |s| - 1 ==> !(s[i] == ' ' && s[i + 1] == ' ') }

  /** Rewrite 1: drop every unprintable character. */
  function StripUnprintable(s: string, p: nat): (r: string)
    requires p <= |s|
    ensures forall i :: 0 <= i < |r| ==> !IsUnprintable(r[i])
    ensures (forall i :: p <= i < |s| ==> s[i] != '\r') ==> forall i :: 0 <= i < |r| ==> r[i] != '\r'
    decreases |s| - p
  {
    if p == |s| then []
    else if IsUnprintable(s[p]) then StripUnprintable(s, p + 1)
    else [s[p]] + StripUnprintable(s, p + 1)
  }

  /** Rewrite 2a: `\r\n` becomes `\n`. */
  function JoinCrLf(s: string, p: nat): (r: string)
    requires p <= |s|
    ensures (forall i :: p <= i < |s| ==> !IsUnprintable(s[i])) ==> forall i :: 0 <= i < |r| ==> !IsUnprintable(r[i])
    decreases |s| - p
  {
    if p == |s| then []
    else if s[p] == '\r' && p + 1 < |s| && s[p + 1] == '\n' then "\n" + JoinCrLf(s, p + 2)
    else [s[p]] + JoinCrLf(s, p + 1)
  }

  /** Rewrite 2b: every remaining `\r` becomes `\n`. */
  function CrToLf(s: string, p: nat): (r: string)
    requires p <= |s|
    ensures forall i :: 0 <= i < |r| ==> r[i] != '\r'
    ensures (forall i :: p <= i < |s| ==> !IsUnprintable(s[i])) ==> AllAllowed(r)
    decreases |s| - p
  {
    if p == |s| then []
    else [if s[p] == '\r' then '\n' else s[p]] + CrToLf(s, p + 1)
  }

  /** The end of `FROM|WHERE|GROUP\s+BY|ORDER\s+BY|LIMIT|HAVING|UNION` at `w`, matched case-sensitively. */
  function KeywordEnd(s: string, w: nat): (e: Option<nat>)
    requires w <= |s|
    ensures e.Some? ==> w < e.value <= |s|
  {
    if ExactAt(s, w, "FROM") then Some(w + 4)
    else if ExactAt(s, w, "WHERE") then Some(w + 5)
    else if ExactAt(s, w, "LIMIT") then Some(w + 5)
    else if ExactAt(s, w, "HAVING") then Some(w + 6)
    else if ExactAt(s, w, "UNION") then Some(w + 5)
    else if ExactAt(s, w, "GROUP") || ExactAt(s, w, "ORDER") then
      var b := WsRunEnd(s, w + 5);
      if b > w + 5 && ExactAt(s, b, "BY") then Some(b + 2) else None
    else None
  }

  /** Rewrite 3: `,\s*\n?\s*(keyword)` becomes a line break and the keyword as written. */
  function DropCommaBeforeKeyword(s: string, p: nat): (r: string)
    requires p <= |s|
    ensures AllAllowed(s) ==> AllAllowed(r)
    decreases |s| - p
  {
    if p == |s| then []
    else if s[p] == ',' && KeywordEnd(s, WsRunEnd(s, p + 1)).Some? then
      var w := WsRunEnd(s, p + 1);
      var e := KeywordEnd(s, w).value;
      "\n" + s[w..e] + DropCommaBeforeKeyword(s, e)
    else [s[p]] + DropCommaBeforeKeyword(s, p + 1)
  }

  /** Rewrite 4: `,\s*\)` becomes `)`. */
  function DropCommaBeforeParen(s: string, p: nat): (r: string)
    requires p <= |s|
    ensures AllAllowed(s) ==> AllAllowed(r)
    decreases |s| - p
  {
    if p == |s| then []
    else if s[p] == ',' && WsRunEnd(s, p + 1) < |s| && s[WsRunEnd(s, p + 1)] == ')' then
      ")" + DropCommaBeforeParen(s, WsRunEnd(s, p + 1) + 1)
    else [s[p]] + DropCommaBeforeParen(s, p + 1)
  }

  /** `(?m)^` at `p`: the start of the text or of a line, but not between `\r` and `\n`, and never at the very end. */
  predicate LineStart(s: string, p: nat) {
    p < |s| && (p == 0 || (IsLineTerminator(s[p - 1]) && !(s[p - 1] == '\r' && s[p] == '\n')))
  }

  /** Rewrite 5: `(?m)^\s+` becomes four spaces. */
  function IndentLines(s: string, p: nat): (r: string)
    requires p <= |s|
    ensures AllAllowed(s) ==> AllAllowed(r)
    decreases |s| - p
  {
    if p == |s| then []
    else if LineStart(s, p) && IsJavaSpace(s[p]) then "    " + IndentLines(s, WsRunEnd(s, p))
    else [s[p]] + IndentLines(s, p + 1)
  }

  /** Rewrite 6: ` {2,}` becomes one space. Its result has no two spaces in a row. */
  function CollapseSpaces(s: string, p: nat): (r: string)
    requires p <= |s|
    ensures AllAllowed(s) ==> AllAllowed(r)
    ensures NoDoubleSpace(r)
    ensures r != [] ==> p < |s| && (r[0] == ' ' <==> s[p] == ' ')
    decreases |s| - p
  {
    if p == |s| then []
    else if s[p] == ' ' && p + 1 < |s| && s[p + 1] == ' ' then
      var rest := CollapseSpaces(s, SpaceRunEnd(s, p));
      assert rest != [] ==> rest[0] != ' ';
      " " + rest
    else
      var rest := CollapseSpaces(s, p + 1);
      assert s[p] == ' ' && rest != [] ==> rest[0] != ' ';
      [s[p]] + rest
  }

  /** `(?m)$` at `i`: the end of the text or just before a line terminator, but not between `\r` and `\n`. */
  predicate LineEnd(s: string, i: nat) {
    i == |s| || (i < |s| && IsLineTerminator(s[i]) && !(s[i] == '\n' && i > 0 && s[i - 1] == '\r'))
  }

  /** The largest `k` with `lo <= k <= hi` at which `(?m)$` holds: where greedy `\s+$` stops after backtracking. */
  function LastLineEnd(s: string, lo: nat, hi: nat): (k: Option<nat>)
    requires hi <= |s|
    ensures k.Some? ==> lo <= k.value <= hi && LineEnd(s, k.value)
    ensures k.Some? ==> forall j :: k.value < j <= hi ==> !LineEnd(s, j)
    ensures k.None? ==> forall j :: lo <= j <= hi ==> !LineEnd(s, j)
    decreases hi
  {
    if hi < lo then None
    else if LineEnd(s, hi) then Some(hi)
    else if hi == 0 then None
    else LastLineEnd(s, lo, hi - 1)
  }

  /** Rewrite 7: `(?m)\s+$` is removed. */
  function StripTrailingSpace(s: string, p: nat): (r: string)
    requires p <= |s|
    ensures AllAllowed(s) ==> AllAllowed(r)
    ensures NoDoubleSpace(s) ==> NoDoubleSpace(r)
    ensures r != [] && r[0] == ' ' ==> p < |s| && s[p] == ' '
    decreases |s| - p
  {
    if p == |s| then []
    else if IsJavaSpace(s[p]) && LastLineEnd(s, p + 1, WsRunEnd(s, p)).Some? then
      StripTrailingSpace(s, LastLineEnd(s, p + 1, WsRunEnd(s, p)).value)
    else
      var rest := StripTrailingSpace(s, p + 1);
      assert NoDoubleSpace(s) && s[p] == ' ' && rest != [] ==> rest[0] != ' ';
      [s[p]] + rest
  }

  /** Text without unprintable characters passes rewrite 1 unchanged. */
  lemma {:induction false} StripUnprintableNone(s: string, p: nat)
    requires p <= |s| && forall i :: p <= i < |s| ==> !IsUnprintable(s[i])
    ensures StripUnprintable(s, p) == s[p..]
    decreases |s| - p
  {
    if p < |s| {
      StripUnprintableNone(s, p + 1);
      assert s[p..] == [s[p]] + s[p + 1..];
    }
  }

  /** Text without `\r` passes rewrites 2a and 2b unchanged. */
  lemma {:induction false} LineEndingsNone(s: string, p: nat)
    requires p <= |s| && forall i :: p <= i < |s| ==> s[i] != '\r'
    ensures JoinCrLf(s, p) == s[p..] && CrToLf(s, p) == s[p..]
    decreases |s| - p
  {
    if p < |s| {
      LineEndingsNone(s, p + 1);
      assert s[p..] == [s[p]] + s[p + 1..];
    }
  }

  /** Text without commas passes rewrites 3 and 4 unchanged. */
  lemma {:induction false} CommasNone(s: string, p: nat)
    requires p <= |s| && forall i :: p <= i < |s| ==> s[i] != ','
    ensures DropCommaBeforeKeyword(s, p) == s[p..] && DropCommaBeforeParen(s, p) == s[p..]
    decreases |s| - p
  {
    if p < |s| {
      CommasNone(s, p + 1);
      assert s[p..] == [s[p]] + s[p + 1..];
    }
  }

  /** The keyword of rewrite 3 is matched case-sensitively: `, FROM` loses its comma, `, from` keeps it. */
  lemma KeywordCaseSensitive()
    ensures DropCommaBeforeKeyword(", FROM", 0) == "\nFROM"
    ensures DropCommaBeforeKeyword(", from", 0) == ", from"
  {
    var up := ", FROM";
    assert WsRunEnd(up, 1) == 2 by { WsRunEndIs(up, 1, 2); }
    assert ExactAt(up, 2, "FROM") by { assert up[2..6] == "FROM"; }
    CommasNone(up, 6);
    assert up[2..6] == "FROM";
    var low := ", from";
    assert WsRunEnd(low, 1) == 2 by { WsRunEndIs(low, 1, 2); }
    assert KeywordEnd(low, 2).None? by {
      assert low[2..6] == "from";
      assert !ExactAt(low, 2, "GROUP") && !ExactAt(low, 2, "ORDER") by { assert |low| - 2 < 5; }
    }
    CommasNone(low, 1);
    assert low == [low[0]] + low[1..];
  }

  /** The four-space indent of rewrite 5 is collapsed to one space by rewrite 6. */
  lemma IndentCollapsed()
    ensures SanitizeSql(Some("a\n  b")) == Some("a\n b")
  {
    var s := "a\n  b";
    StripUnprintableNone(s, 0);
    LineEndingsNone(s, 0);
    CommasNone(s, 0);
    assert s[0..] == s;
    assert StripUnprintable(s, 0) == s && JoinCrLf(s, 0) == s && CrToLf(s, 0) == s;
    assert DropCommaBeforeKeyword(s, 0) == s && DropCommaBeforeParen(s, 0) == s;
    IndentExample();
    CollapseExample();
    TrailingExample();
    var r := "a\n b";
    assert TrimStart(r, 0) == 0;
    assert TrimEnd(r, 0, 4) == 4;
    assert JavaTrim(r) == r[0..4] == r;
  }

  lemma IndentExample()
    ensures IndentLines("a\n  b", 0) == "a\n    b"
  {
    var s := "a\n  b";
    assert WsRunEnd(s, 2) == 4 by { WsRunEndIs(s, 2, 4); }
    assert !LineStart(s, 0) || !IsJavaSpace(s[0]);
    assert !LineStart(s, 1) && LineStart(s, 2) && !LineStart(s, 4);
    assert IndentLines(s, 4) == "b";
    assert IndentLines(s, 2) == "    b";
  }

  lemma CollapseExample()
    ensures CollapseSpaces("a\n    b", 0) == "a\n b"
  {
    var s := "a\n    b";
    assert SpaceRunEnd(s, 6) == 6;
    assert SpaceRunEnd(s, 4) == 6;
    assert SpaceRunEnd(s, 2) == 6;
    assert CollapseSpaces(s, 6) == "b";
    assert CollapseSpaces(s, 2) == " b";
  }

  lemma TrailingExample()
    ensures StripTrailingSpace("a\n b", 0) == "a\n b"
  {
    var s := "a\n b";
    assert WsRunEnd(s, 2) == 3 by { WsRunEndIs(s, 2, 3); }
    assert WsRunEnd(s, 1) == 3 by { WsRunEndIs(s, 1, 3); }
    assert LastLineEnd(s, 2, 3).None? by { assert !LineEnd(s, 2) && !LineEnd(s, 3); }
    assert LastLineEnd(s, 3, 3).None?;
    assert StripTrailingSpace(s, 3) == "b";
    assert StripTrailingSpace(s, 2) == " b";
    assert StripTrailingSpace(s, 1) == "\n b";
  }

  /** What `sanitizeSQL` returns is clean: normalised line endings, no unprintable characters, single spaces, trimmed. */
  predicate Clean(r: string) {
    && AllAllowed(r)
    && NoDoubleSpace(r)
    && (r == [] || (r[0] > ' ' && r[|r| - 1] > ' '))
  }

  /** `sanitizeSQL`: null stays null; any text comes back clean. */
  function SanitizeSql(sql: Option<string>): (r: Option<string>)
    ensures r.None? <==> sql.None?
    ensures r.Some? ==> Clean(r.value)
  {
    match sql
    case None => None
    case Some(s) =>
      var s1 := StripUnprintable(s, 0);
      var s2 := JoinCrLf(s1, 0);
      var s3 := CrToLf(s2, 0);
      var s4 := DropCommaBeforeKeyword(s3, 0);
      var s5 := DropCommaBeforeParen(s4, 0);
      var s6 := IndentLines(s5, 0);
      var s7 := CollapseSpaces(s6, 0);
      var s8 := StripTrailingSpace(s7, 0);
      var r := JavaTrim(s8);
      TrimKeepsClean(s8);
      Some(r)
  }

  /** Trimming keeps every character property and the absence of double spaces. */
  lemma TrimKeepsClean(s: string)
    requires AllAllowed(s) && NoDoubleSpace(s)
    ensures AllAllowed(JavaTrim(s)) && NoDoubleSpace(JavaTrim(s))
  {
    var r := JavaTrim(s);
    var i, j :| 0 <= i <= j <= |s| && r == s[i..j];
    forall k | 0 <= k < |r| - 1 ensures !(r[k] == ' ' && r[k + 1] == ' ') {
      assert r[k] == s[i + k] && r[k + 1] == s[i + k + 1];
    }
  }
}
