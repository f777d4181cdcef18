/**
 * The regular expressions of the text rewriter, each decided by a scanner
 * at one position of the input, and `String.replaceAll` over them. A match
 * is always decided on the input string (Java matches against the original text,
 * not the output), and the scan resumes after the end of each match.
 *
 * Table names are taken to be non-empty and not to start with `\s`; for them the
 * greedy `\s+` before the name can match in exactly one way.
 */
module Patterns {
  import opened Text
  import opened Naming

  /** A non-empty run of `\s` characters. */
  predicate Spaces(w: string) {
    |w| > 0 && forall i :: 0 <= i < |w| ==> IsJavaSpace(w[i])
  }

  /** `[a-zA-Z_][a-zA-Z0-9_]*`. */
  predicate Identifier(w: string) {
    |w| > 0 && IsIdentStart(w[0]) && forall i :: 0 <= i < |w| ==> IsWordChar(w[i])
  }

  /** `FROM` or `JOIN` at `p`, in any case. */
  predicate KeywordAt(s: string, p: nat) {
    LiteralAt(s, p, "FROM") || LiteralAt(s, p, "JOIN")
  }

  /** `\s+[a-zA-Z]` at `i`. */
  predicate LetterAfterSpace(s: string, i: nat)
    requires i <= |s|
  {
    var w := WsRunEnd(s, i);
    w > i && w < |s| && IsAsciiLetter(s[w])
  }

  /** `(FROM|JOIN)\s+<table>` at `p`: where the table name ends. */
  function TableClauseEnd(s: string, p: nat, table: string): (r: Option<nat>)
    ensures r.Some? ==> p + 4 < r.value <= |s|
    ensures r.Some? ==> KeywordAt(s, p)
    ensures r.Some? ==> p + 4 < r.value - |table| && LiteralAt(s, r.value - |table|, table)
    ensures r.Some? ==> forall k :: p + 4 <= k < r.value - |table| ==> IsJavaSpace(s[k])
  {
    if !KeywordAt(s, p) then None
    else
      var w := WsRunEnd(s, p + 4);
      if w > p + 4 && LiteralAt(s, w, table) then Some(w + |table|) else None
  }

  /** Where group 2 (the alias) of a FROM/JOIN match starts, and where the match ends. */
  datatype AliasMatch = AliasMatch(aliasStart: nat, end: nat)

  /** `\s+(?:AS\s+)?([a-zA-Z_][a-zA-Z0-9_]*)\b` at `te`: where group 2 (the alias) starts, and where the match ends. */
  function AliasAfter(s: string, te: nat): (r: Option<AliasMatch>)
    requires te <= |s|
    ensures r.Some? ==> te < r.value.aliasStart < r.value.end <= |s|
  {
    var v := WsRunEnd(s, te);
    if v == te then None
    else if LiteralAt(s, v, "AS") && WsRunEnd(s, v + 2) > v + 2
            && WsRunEnd(s, v + 2) < |s| && IsIdentStart(s[WsRunEnd(s, v + 2)]) then
      var x := WsRunEnd(s, v + 2);
      Some(AliasMatch(x, WordRunEnd(s, x + 1)))
    else if v < |s| && IsIdentStart(s[v]) then
      Some(AliasMatch(v, WordRunEnd(s, v + 1)))
    else None
  }

  /** `(?i)(FROM|JOIN)\s+<table>\s+(?:AS\s+)?([a-zA-Z_][a-zA-Z0-9_]*)\b` at `p`. */
  function AliasedMatch(s: string, p: nat, table: string): (r: Option<AliasMatch>)
    ensures r.Some? ==> p + 4 < r.value.aliasStart < r.value.end <= |s|
  {
    match TableClauseEnd(s, p, table)
    case None => None
    case Some(te) => AliasAfter(s, te)
  }

  /** `(?i)(FROM|JOIN)\s+<table>\b(?!\s+[a-zA-Z])` at `p`: where the match ends. */
  function BareMatch(s: string, p: nat, table: string): (r: Option<nat>)
    ensures r.Some? ==> p + 4 < r.value <= |s|
  {
    match TableClauseEnd(s, p, table)
    case None => None
    case Some(te) => if Boundary(s, te) && !LetterAfterSpace(s, te) then Some(te) else None
  }

  /** `(?i)\b<prefix>\.<column>\b` at `p`: where the match ends. */
  function QualifiedMatch(s: string, p: nat, prefix: string, column: string): (r: Option<nat>)
    ensures r.Some? ==> r.value == p + |prefix| + 1 + |column| <= |s|
    ensures r.Some? ==> EqualsIgnoreCase(s[p..r.value], prefix + "." + column)
  {
    var lit := prefix + "." + column;
    if Boundary(s, p) && LiteralAt(s, p, lit) && Boundary(s, p + |lit|) then Some(p + |lit|) else None
  }

  /** The three patterns `replaceAll` is called with. */
  datatype Pattern =
    | FromJoinAliased(table: string)
    | FromJoinBare(table: string)
    | QualifiedColumn(prefix: string, column: string)

  function MatchEnd(pat: Pattern, s: string, p: nat): (r: Option<nat>)
    ensures r.Some? ==> p < r.value <= |s|
  {
    match pat
    case FromJoinAliased(t) =>
      (match AliasedMatch(s, p, t) case None => None case Some(m) => Some(m.end))
    case FromJoinBare(t) => BareMatch(s, p, t)
    case QualifiedColumn(q, c) => QualifiedMatch(s, p, q, c)
  }

  /** `m` maps each position of a string of length `n` to the end of the non-empty match there, if any. */
  ghost predicate Advances(m: nat -> Option<nat>, n: nat) {
    forall k: nat :: m(k).Some? ==> k < m(k).value <= n
  }

  /**
   * The loop behind `replaceAll` and behind find / appendReplacement /
   * appendTail, from position `p`: at a match the substitute `sub(p)` is written
   * and the scan resumes after the match; elsewhere one character is copied.
   */
  function Scan(m: nat -> Option<nat>, sub: nat -> string, s: string, p: nat): string
    requires p <= |s| && Advances(m, |s|)
    decreases |s| - p
  {
    if p == |s| then []
    else
      match m(p)
      case Some(e) => sub(p) + Scan(m, sub, s, e)
      case None => [s[p]] + Scan(m, sub, s, p + 1)
  }

  /** Text up to the next match is copied unchanged. */
  lemma {:induction false} ScanSkip(m: nat -> Option<nat>, sub: nat -> string, s: string, p: nat, q: nat)
    requires Advances(m, |s|) && p <= q <= |s|
    requires forall k: nat :: p <= k < q ==> m(k).None?
    ensures Scan(m, sub, s, p) == s[p..q] + Scan(m, sub, s, q)
    decreases q - p
  {
    if p < q {
      assert m(p).None?;
      var r := Scan(m, sub, s, p + 1);
      assert Scan(m, sub, s, p) == [s[p]] + r;
      ScanSkip(m, sub, s, p + 1, q);
      calc {
        Scan(m, sub, s, p);
        [s[p]] + (s[p + 1..q] + Scan(m, sub, s, q));
        { assert [s[p]] + s[p + 1..q] == s[p..q]; }
        s[p..q] + Scan(m, sub, s, q);
      }
    }
  }

  /** At a match the substitute is written and the scan resumes after the match. */
  lemma ScanAt(m: nat -> Option<nat>, sub: nat -> string, s: string, p: nat, e: nat)
    requires Advances(m, |s|) && p <= |s| && m(p) == Some(e)
    ensures Scan(m, sub, s, p) == sub(p) + Scan(m, sub, s, e)
  {
  }

  /** When every match is replaced by its own text, the scan returns its input. */
  lemma {:induction false} ScanCopies(m: nat -> Option<nat>, sub: nat -> string, s: string, p: nat)
    requires Advances(m, |s|) && p <= |s|
    requires forall k: nat :: p <= k < |s| && m(k).Some? ==> sub(k) == s[k..m(k).value]
    ensures Scan(m, sub, s, p) == s[p..]
    decreases |s| - p
  {
    if p < |s| {
      match m(p)
      case Some(e) =>
        assert Scan(m, sub, s, p) == s[p..e] + Scan(m, sub, s, e);
        ScanCopies(m, sub, s, e);
        assert s[p..e] + s[e..] == s[p..];
      case None =>
        assert Scan(m, sub, s, p) == [s[p]] + Scan(m, sub, s, p + 1);
        ScanCopies(m, sub, s, p + 1);
        assert [s[p]] + s[p + 1..] == s[p..];
    }
  }

  /** The matches of `pat` in `s`. */
  function Matcher(pat: Pattern, s: string): (m: nat -> Option<nat>)
    ensures Advances(m, |s|)
  {
    (k: nat) => MatchEnd(pat, s, k)
  }

  /**
   * What `replaceAll(pat, rep)` writes for a match at `k`: the FROM/JOIN patterns
   * are replaced by `$1<rep>`, the keyword as written followed by `rep`; a
   * qualified column by `rep` itself.
   */
  function Substitution(pat: Pattern, s: string, rep: string): nat -> string {
    (k: nat) => if pat.QualifiedColumn? || k + 4 > |s| then rep else s[k..k + 4] + rep
  }

  /** `s.replaceAll(pat, rep)` continued from position `p`, the matches being decided on the whole of `s`. */
  function ReplaceAllFrom(pat: Pattern, rep: string, s: string, p: nat): string
    requires p <= |s|
  {
    Scan(Matcher(pat, s), Substitution(pat, s, rep), s, p)
  }

  /** `s.replaceAll(pat, rep)`. */
  function ReplaceAll(pat: Pattern, rep: string, s: string): string {
    ReplaceAllFrom(pat, rep, s, 0)
  }

  /** Text up to the next match is copied unchanged. */
  lemma ReplaceAllSkip(pat: Pattern, rep: string, s: string, p: nat, q: nat)
    requires p <= q <= |s|
    requires forall k :: p <= k < q ==> MatchEnd(pat, s, k).None?
    ensures ReplaceAllFrom(pat, rep, s, p) == s[p..q] + ReplaceAllFrom(pat, rep, s, q)
  {
    ScanSkip(Matcher(pat, s), Substitution(pat, s, rep), s, p, q);
  }

  /** Without a match, `replaceAll` returns its input. */
  lemma ReplaceAllNoMatch(pat: Pattern, rep: string, s: string)
    requires forall k :: 0 <= k < |s| ==> MatchEnd(pat, s, k).None?
    ensures ReplaceAll(pat, rep, s) == s
  {
    ScanSkip(Matcher(pat, s), Substitution(pat, s, rep), s, 0, |s|);
  }

  /** At a match, `replaceAll` writes the substitute and resumes after the match. */
  lemma ReplaceAllAt(pat: Pattern, rep: string, s: string, p: nat, e: nat)
    requires p <= |s| && MatchEnd(pat, s, p) == Some(e)
    ensures ReplaceAllFrom(pat, rep, s, p) == Substitution(pat, s, rep)(p) + ReplaceAllFrom(pat, rep, s, e)
  {
    ScanAt(Matcher(pat, s), Substitution(pat, s, rep), s, p, e);
  }

  /** Case folding leaves the `\s` and `\w` classes alone. */
  lemma FoldKeepsClasses(a: char, b: char)
    requires LowerChar(a) == LowerChar(b)
    ensures IsJavaSpace(a) == IsJavaSpace(b)
    ensures IsWordChar(a) == IsWordChar(b)
  {
  }

  /** The first character of a string equal to `table` up to case is not a space. */
  lemma FirstNotSpace(t: string, table: string)
    requires EqualsIgnoreCase(t, table)
    requires table != [] && !IsJavaSpace(table[0])
    ensures |t| == |table| && !IsJavaSpace(t[0])
  {
    assert |t| == |Lower(t)| == |Lower(table)| == |table|;
    assert LowerChar(t[0]) == Lower(t)[0] == Lower(table)[0] == LowerChar(table[0]);
    FoldKeepsClasses(t[0], table[0]);
  }

  /** A two-letter word equal to `AS` up to case starts with a letter and ends with a word character. */
  lemma AsWordFacts(asWord: string)
    requires EqualsIgnoreCase(asWord, "AS")
    ensures |asWord| == 2 && !IsJavaSpace(asWord[0]) && IsWordChar(asWord[1])
  {
    assert |asWord| == |Lower(asWord)| == 2;
    assert LowerChar(asWord[0]) == Lower(asWord)[0] == 'a';
    assert LowerChar(asWord[1]) == Lower(asWord)[1] == 's';
    FoldKeepsClasses(asWord[0], 'a');
    FoldKeepsClasses(asWord[1], 's');
  }

  /** `Spaces(s[i..j])` and `Identifier(s[i..j])`, read off as character facts. */
  lemma SliceFacts(s: string, i: nat, j: nat)
    requires i <= j <= |s|
    ensures Spaces(s[i..j]) ==> i < j && forall k :: i <= k < j ==> IsJavaSpace(s[k])
    ensures Identifier(s[i..j]) ==> i < j && IsIdentStart(s[i]) && forall k :: i <= k < j ==> IsWordChar(s[k])
  {
    if Spaces(s[i..j]) {
      forall k | i <= k < j ensures IsJavaSpace(s[k]) { assert s[k] == s[i..j][k - i]; }
    }
    if Identifier(s[i..j]) {
      assert s[i] == s[i..j][0];
      forall k | i <= k < j ensures IsWordChar(s[k]) { assert s[k] == s[i..j][k - i]; }
    }
  }

  /** A spelled-out run of `\s` that a non-space (or the end) closes is what `WsRunEnd` finds. */
  lemma SpacesRun(s: string, i: nat, j: nat)
    requires i <= j <= |s| && Spaces(s[i..j])
    requires j < |s| ==> !IsJavaSpace(s[j])
    ensures i < j && WsRunEnd(s, i) == j
  {
    SliceFacts(s, i, j);
    WsRunEndIs(s, i, j);
  }

  /** A spelled-out identifier that a non-word character (or the end) closes is what `WordRunEnd` finds. */
  lemma IdentifierRun(s: string, i: nat, j: nat)
    requires i <= j <= |s| && Identifier(s[i..j])
    requires j < |s| ==> !IsWordChar(s[j])
    ensures i < j && IsIdentStart(s[i]) && WordRunEnd(s, i + 1) == j
  {
    SliceFacts(s, i, j);
    WordRunEndIs(s, i + 1, j);
  }

  /**
   * The text at `p` reads `(FROM|JOIN)\s+<table>`, in any case: the keyword
   * is `s[p..p+4]`, the spaces `s[p+4..w]`, the table name `s[w..te]`.
   */
  predicate TableClauseSpelled(s: string, p: nat, w: nat, te: nat, table: string) {
    && p + 4 < w <= te <= |s|
    && (EqualsIgnoreCase(s[p..p + 4], "FROM") || EqualsIgnoreCase(s[p..p + 4], "JOIN"))
    && Spaces(s[p + 4..w]) && EqualsIgnoreCase(s[w..te], table)
  }

  /** A spelled-out `(FROM|JOIN)\s+<table>` is recognised, up to the end of the table name. */
  lemma TableClauseAt(s: string, p: nat, w: nat, te: nat, table: string)
    requires TableClauseSpelled(s, p, w, te, table)
    requires table != [] && !IsJavaSpace(table[0])
    ensures TableClauseEnd(s, p, table) == Some(te)
  {
    FirstNotSpace(s[w..te], table);
    assert s[w] == s[w..te][0];
    SliceFacts(s, p + 4, w);
    WsRunEndIs(s, p + 4, w);
    assert KeywordAt(s, p);
  }

  /**
   * `FROM|JOIN <table> <alias>` at `p` (the alias `s[v..e]`): the keyword, the
   * table name, matched in any case, and the identifier after it, whatever it
   * is, SQL keyword or not, are replaced by the keyword as written and `rep`.
   */
  lemma AliasedClause(table: string, rep: string, s: string, p: nat, w: nat, te: nat, v: nat, e: nat)
    requires table != [] && !IsJavaSpace(table[0])
    requires TableClauseSpelled(s, p, w, te, table)
    requires te <= v <= e <= |s|
    requires Spaces(s[te..v]) && Identifier(s[v..e]) && !EqualsIgnoreCase(s[v..e], "AS")
    requires e == |s| || !IsWordChar(s[e])
    ensures ReplaceAllFrom(FromJoinAliased(table), rep, s, p)
            == s[p..p + 4] + rep + ReplaceAllFrom(FromJoinAliased(table), rep, s, e)
  {
    TableClauseAt(s, p, w, te, table);
    AliasAfterIs(s, te, v, e);
    ReplaceAllAt(FromJoinAliased(table), rep, s, p, e);
  }

  /** An identifier other than `AS` does not start the `AS\s+` branch of the alias pattern. */
  lemma NotAsBranch(s: string, v: nat, e: nat)
    requires v < e <= |s|
    requires Identifier(s[v..e]) && !EqualsIgnoreCase(s[v..e], "AS")
    requires e == |s| || !IsWordChar(s[e])
    ensures !(LiteralAt(s, v, "AS") && WsRunEnd(s, v + 2) > v + 2)
  {
    if LiteralAt(s, v, "AS") {
      AsWordFacts(s[v..v + 2]);
      if e > v + 2 {
        SliceFacts(s, v, e);
        assert IsWordChar(s[v + 2]);
      }
    }
  }

  /** A spelled-out `\s+alias` at `te` is recognised, with the alias `s[v..e]`. */
  lemma AliasAfterIs(s: string, te: nat, v: nat, e: nat)
    requires te <= v <= e <= |s|
    requires Spaces(s[te..v]) && Identifier(s[v..e]) && !EqualsIgnoreCase(s[v..e], "AS")
    requires e == |s| || !IsWordChar(s[e])
    ensures AliasAfter(s, te) == Some(AliasMatch(v, e))
  {
    IdentifierRun(s, v, e);
    SpacesRun(s, te, v);
    NotAsBranch(s, v, e);
  }

  /** A spelled-out `\s+AS\s+alias` at `te` is recognised, with the alias `s[x..e]`. */
  lemma AliasAfterAsIs(s: string, te: nat, v: nat, x: nat, e: nat)
    requires te <= v && v + 2 <= x <= e <= |s|
    requires Spaces(s[te..v]) && EqualsIgnoreCase(s[v..v + 2], "AS") && Spaces(s[v + 2..x])
    requires Identifier(s[x..e])
    requires e == |s| || !IsWordChar(s[e])
    ensures AliasAfter(s, te) == Some(AliasMatch(x, e))
  {
    AsWordFacts(s[v..v + 2]);
    assert s[v] == s[v..v + 2][0];
    SpacesRun(s, te, v);
    IdentifierRun(s, x, e);
    SpacesRun(s, v + 2, x);
  }

  /** `FROM|JOIN <table> AS <alias>` at `p` (the alias `s[x..e]`): rewritten like the clause without `AS`. */
  lemma AliasedClauseWithAs(table: string, rep: string, s: string, p: nat, w: nat, te: nat, v: nat, x: nat, e: nat)
    requires table != [] && !IsJavaSpace(table[0])
    requires TableClauseSpelled(s, p, w, te, table)
    requires te <= v && v + 2 <= x <= e <= |s|
    requires Spaces(s[te..v]) && EqualsIgnoreCase(s[v..v + 2], "AS") && Spaces(s[v + 2..x])
    requires Identifier(s[x..e])
    requires e == |s| || !IsWordChar(s[e])
    ensures ReplaceAllFrom(FromJoinAliased(table), rep, s, p)
            == s[p..p + 4] + rep + ReplaceAllFrom(FromJoinAliased(table), rep, s, e)
  {
    TableClauseAt(s, p, w, te, table);
    AliasAfterAsIs(s, te, v, x, e);
    ReplaceAllAt(FromJoinAliased(table), rep, s, p, e);
  }

  /** The swallowed keyword: `FROM T WHERE x` with `rep` = " New new" becomes `FROM New new x`. */
  lemma FromTableWhereSwallowed(s: string)
    requires s == "FROM T WHERE x"
    ensures ReplaceAll(FromJoinAliased("T"), " New new", s) == "FROM New new x"
  {
    var pat := FromJoinAliased("T");
    WhereClauseSpelled(s);
    AliasedClause("T", " New new", s, 0, 5, 6, 7, 12);
    NoMatchInTail(s);
    calc {
      ReplaceAll(pat, " New new", s);
      ReplaceAllFrom(pat, " New new", s, 0);
      s[0..4] + " New new" + ReplaceAllFrom(pat, " New new", s, 12);
      "FROM" + " New new" + " x";
    }
  }

  lemma WhereClauseSpelled(s: string)
    requires s == "FROM T WHERE x"
    ensures TableClauseSpelled(s, 0, 5, 6, "T")
    ensures Spaces(s[6..7]) && Identifier(s[7..12]) && !EqualsIgnoreCase(s[7..12], "AS")
    ensures s[0..4] == "FROM" && IsJavaSpace(s[12])
  {
    assert s[0..4] == "FROM";
    assert s[5..6] == "T";
    assert s[4..5] == " " == s[6..7];
    assert s[7..12] == "WHERE";
    assert |Lower("WHERE")| == 5;
  }

  lemma NoMatchInTail(s: string)
    requires s == "FROM T WHERE x"
    ensures ReplaceAllFrom(FromJoinAliased("T"), " New new", s, 12) == " x"
  {
    ReplaceAllSkip(FromJoinAliased("T"), " New new", s, 12, 14);
    assert s[12..14] == " x";
  }

  /**
   * `FROM|JOIN <table>` at `p` not followed by another word: the keyword and the
   * table name are replaced by the keyword as written and `rep`.
   */
  lemma BareClause(table: string, rep: string, s: string, p: nat, w: nat, te: nat)
    requires table != [] && !IsJavaSpace(table[0])
    requires TableClauseSpelled(s, p, w, te, table)
    requires Boundary(s, te) && !LetterAfterSpace(s, te)
    ensures ReplaceAllFrom(FromJoinBare(table), rep, s, p)
            == s[p..p + 4] + rep + ReplaceAllFrom(FromJoinBare(table), rep, s, te)
  {
    TableClauseAt(s, p, w, te, table);
    ReplaceAllAt(FromJoinBare(table), rep, s, p, te);
  }

  /** A reference `s[p..e]` equal to `prefix.column` up to case and delimited by `\b` is replaced by `rep`. */
  lemma QualifiedReference(prefix: string, column: string, rep: string, s: string, p: nat, e: nat)
    requires p <= e <= |s|
    requires EqualsIgnoreCase(s[p..e], prefix + "." + column)
    requires Boundary(s, p) && Boundary(s, e)
    ensures ReplaceAllFrom(QualifiedColumn(prefix, column), rep, s, p)
            == rep + ReplaceAllFrom(QualifiedColumn(prefix, column), rep, s, e)
  {
    assert |s[p..e]| == |Lower(s[p..e])|;
    ReplaceAllAt(QualifiedColumn(prefix, column), rep, s, p, e);
  }

  /** Where the groups of an `alias.column AS name` match end. */
  datatype AsMatch = AsMatch(aliasEnd: nat, columnEnd: nat, end: nat)

  /** `\b([a-zA-Z_][a-zA-Z0-9_]*)\.([a-zA-Z_][a-zA-Z0-9_]*)` at `p`: where the alias and the column end. */
  function QualifiedNameAt(s: string, p: nat): (r: Option<(nat, nat)>)
    ensures r.Some? ==> p < r.value.0 && r.value.0 + 1 < r.value.1 <= |s|
  {
    if !(p < |s| && Boundary(s, p) && IsIdentStart(s[p])) then None
    else
      var a := WordRunEnd(s, p + 1);
      if !(a + 1 < |s| && s[a] == '.' && IsIdentStart(s[a + 1])) then None
      else Some((a, WordRunEnd(s, a + 2)))
  }

  /** `\s+AS\s+([a-zA-Z_][a-zA-Z0-9_]*)\b` at `b`: where the match ends. */
  function AsNameAt(s: string, b: nat): (r: Option<nat>)
    requires b <= |s|
    ensures r.Some? ==> b < r.value <= |s|
  {
    var w := WsRunEnd(s, b);
    if !(w > b && LiteralAt(s, w, "AS")) then None
    else
      var x := WsRunEnd(s, w + 2);
      if !(x > w + 2 && x < |s| && IsIdentStart(s[x])) then None
      else Some(WordRunEnd(s, x + 1))
  }

  /** `(?i)\b([a-zA-Z_][a-zA-Z0-9_]*)\.([a-zA-Z_][a-zA-Z0-9_]*)\s+AS\s+([a-zA-Z_][a-zA-Z0-9_]*)\b` at `p`. */
  function AsClauseAt(s: string, p: nat): (r: Option<AsMatch>)
    ensures r.Some? ==> p < r.value.aliasEnd < r.value.columnEnd < r.value.end <= |s|
  {
    match QualifiedNameAt(s, p)
    case None => None
    case Some((a, b)) =>
      match AsNameAt(s, b)
      case None => None
      case Some(e) => Some(AsMatch(a, b, e))
  }

  /**
   * The replacement of one `alias.column AS name` match: when the lower-cased
   * alias is a generated alias, `alias.column AS <NewTable><Column>` with both
   * parts capitalised; otherwise the match as written.
   */
  function AsReplacement(s: string, p: nat, m: AsMatch, newToTable: map<string, string>): string
    requires p < m.aliasEnd < m.columnEnd < m.end <= |s|
  {
    var alias := s[p..m.aliasEnd];
    var column := s[m.aliasEnd + 1..m.columnEnd];
    if Lower(alias) in newToTable then
      alias + "." + column + " AS " + Capitalize(newToTable[Lower(alias)]) + Capitalize(column)
    else s[p..m.end]
  }

  /** The matches of the AS pattern in `s`. */
  function AsMatcher(s: string): (m: nat -> Option<nat>)
    ensures Advances(m, |s|)
  {
    (k: nat) => match AsClauseAt(s, k) case Some(c) => Some(c.end) case None => None
  }

  /** What step 4 appends for a match at `k`. */
  function AsSubstitution(s: string, newToTable: map<string, string>): nat -> string {
    (k: nat) => match AsClauseAt(s, k) case Some(c) => AsReplacement(s, k, c, newToTable) case None => []
  }

  /** The find / appendReplacement / appendTail loop of step 4, continued from position `p`. */
  function AsRewriteFrom(s: string, p: nat, newToTable: map<string, string>): string
    requires p <= |s|
  {
    Scan(AsMatcher(s), AsSubstitution(s, newToTable), s, p)
  }

  /** Step 4 over the whole string. */
  function AsRewrite(s: string, newToTable: map<string, string>): string {
    AsRewriteFrom(s, 0, newToTable)
  }

  /** Matches whose alias was not generated are copied unchanged, so only generated aliases change the text. */
  lemma AsRewriteUnmapped(s: string, newToTable: map<string, string>)
    requires forall q :: 0 <= q < |s| && AsClauseAt(s, q).Some? ==> Lower(s[q..AsClauseAt(s, q).value.aliasEnd]) !in newToTable
    ensures AsRewrite(s, newToTable) == s
  {
    var m := AsMatcher(s);
    var sub := AsSubstitution(s, newToTable);
    forall k: nat | k < |s| && m(k).Some? ensures sub(k) == s[k..m(k).value] {
      assert AsClauseAt(s, k).Some?;
    }
    ScanCopies(m, sub, s, 0);
  }

  /** With no generated alias, step 4 returns its input. */
  lemma AsRewriteNoAliases(s: string)
    ensures AsRewrite(s, map[]) == s
  {
    AsRewriteUnmapped(s, map[]);
  }

  /** No `alias.column AS name` match starts in `[lo, hi)`. */
  ghost predicate NoAsClauseIn(s: string, lo: nat, hi: nat) {
    forall k: nat :: lo <= k < hi ==> AsClauseAt(s, k).None?
  }

  lemma NoAsClauseExtend(s: string, lo: nat, hi: nat)
    requires NoAsClauseIn(s, lo, hi) && AsClauseAt(s, hi).None?
    ensures NoAsClauseIn(s, lo, hi + 1)
  {
  }

  /** One round of the step-4 loop: the text up to the match at `q` is copied, the match is replaced, and the loop goes on after it. */
  lemma AsRewriteFromMatch(s: string, p: nat, q: nat, newToTable: map<string, string>)
    requires p <= q < |s|
    requires NoAsClauseIn(s, p, q)
    requires AsClauseAt(s, q).Some?
    ensures var c := AsClauseAt(s, q).value;
            AsRewriteFrom(s, p, newToTable)
            == s[p..q] + AsReplacement(s, q, c, newToTable) + AsRewriteFrom(s, c.end, newToTable)
  {
    var m := AsMatcher(s);
    var sub := AsSubstitution(s, newToTable);
    forall k: nat | p <= k < q ensures m(k).None? {
      assert AsClauseAt(s, k).None?;
    }
    ScanSkip(m, sub, s, p, q);
    var c := AsClauseAt(s, q).value;
    assert m(q) == Some(c.end);
    ScanAt(m, sub, s, q, c.end);
    assert sub(q) == AsReplacement(s, q, c, newToTable);
  }

  /** The step-4 loop keeps its invariant across a match at `q`: `sb` grows by the copied text and the replacement. */
  lemma AsStepMatch(s: string, sb: string, p: nat, q: nat, newToTable: map<string, string>)
    requires p <= q < |s|
    requires NoAsClauseIn(s, p, q)
    requires AsClauseAt(s, q).Some?
    requires sb + AsRewriteFrom(s, p, newToTable) == AsRewrite(s, newToTable)
    ensures var c := AsClauseAt(s, q).value;
            && NoAsClauseIn(s, c.end, c.end)
            && (sb + (s[p..q] + AsReplacement(s, q, c, newToTable))) + AsRewriteFrom(s, c.end, newToTable) == AsRewrite(s, newToTable)
  {
    var c := AsClauseAt(s, q).value;
    AsRewriteFromMatch(s, p, q, newToTable);
    var piece := s[p..q] + AsReplacement(s, q, c, newToTable);
    assert AsRewriteFrom(s, p, newToTable) == piece + AsRewriteFrom(s, c.end, newToTable);
  }

  /** After the last match the rest of the text is copied (`appendTail`). */
  lemma AsRewriteFromTail(s: string, p: nat, newToTable: map<string, string>)
    requires p <= |s|
    requires NoAsClauseIn(s, p, |s|)
    ensures AsRewriteFrom(s, p, newToTable) == s[p..]
  {
    var m := AsMatcher(s);
    var sub := AsSubstitution(s, newToTable);
    forall k: nat | p <= k < |s| ensures m(k).None? {
      assert AsClauseAt(s, k).None?;
    }
    ScanSkip(m, sub, s, p, |s|);
  }

  /**
   * `alias.column AS name` at `p`, delimited by non-word characters (alias
   * `s[p..a]`, column `s[a+1..b]`, `AS` at `w`, name `s[x..e]`): when the
   * lower-cased alias was generated for a new table the clause becomes
   * `alias.column AS <NewTable><Column>`; otherwise it is kept as written.
   */
  lemma AsClauseRewritten(s: string, p: nat, a: nat, b: nat, w: nat, x: nat, e: nat, newToTable: map<string, string>)
    requires p <= a && a + 1 <= b <= w && w + 2 <= x <= e <= |s|
    requires p == 0 || !IsWordChar(s[p - 1])
    requires Identifier(s[p..a]) && s[a] == '.' && Identifier(s[a + 1..b])
    requires Spaces(s[b..w]) && EqualsIgnoreCase(s[w..w + 2], "AS") && Spaces(s[w + 2..x])
    requires Identifier(s[x..e])
    requires e == |s| || !IsWordChar(s[e])
    ensures Lower(s[p..a]) in newToTable ==>
              AsRewriteFrom(s, p, newToTable)
              == s[p..a] + "." + s[a + 1..b] + " AS " + Capitalize(newToTable[Lower(s[p..a])]) + Capitalize(s[a + 1..b])
                 + AsRewriteFrom(s, e, newToTable)
    ensures Lower(s[p..a]) !in newToTable ==>
              AsRewriteFrom(s, p, newToTable) == s[p..e] + AsRewriteFrom(s, e, newToTable)
  {
    AsClauseAtIs(s, p, a, b, w, x, e);
    AsRewriteAt(s, p, AsMatch(a, b, e), newToTable);
  }

  /** At a match of the AS pattern its replacement is written and the scan resumes after it. */
  lemma AsRewriteAt(s: string, p: nat, m: AsMatch, newToTable: map<string, string>)
    requires AsClauseAt(s, p) == Some(m)
    ensures AsRewriteFrom(s, p, newToTable) == AsReplacement(s, p, m, newToTable) + AsRewriteFrom(s, m.end, newToTable)
  {
    ScanAt(AsMatcher(s), AsSubstitution(s, newToTable), s, p, m.end);
  }

  /** A spelled-out `alias.column AS name` at `p` is recognised. */
  lemma AsClauseAtIs(s: string, p: nat, a: nat, b: nat, w: nat, x: nat, e: nat)
    requires p <= a && a + 1 <= b <= w && w + 2 <= x <= e <= |s|
    requires p == 0 || !IsWordChar(s[p - 1])
    requires Identifier(s[p..a]) && s[a] == '.' && Identifier(s[a + 1..b])
    requires Spaces(s[b..w]) && EqualsIgnoreCase(s[w..w + 2], "AS") && Spaces(s[w + 2..x])
    requires Identifier(s[x..e])
    requires e == |s| || !IsWordChar(s[e])
    ensures AsClauseAt(s, p) == Some(AsMatch(a, b, e))
  {
    assert s[b] == s[b..w][0];
    QualifiedNameIs(s, p, a, b);
    AsNameIs(s, b, w, x, e);
  }

  /** A spelled-out `alias.column` at `p` is recognised. */
  lemma QualifiedNameIs(s: string, p: nat, a: nat, b: nat)
    requires p <= a && a + 1 <= b <= |s|
    requires p == 0 || !IsWordChar(s[p - 1])
    requires Identifier(s[p..a]) && s[a] == '.' && Identifier(s[a + 1..b])
    requires b == |s| || !IsWordChar(s[b])
    ensures QualifiedNameAt(s, p) == Some((a, b))
  {
    IdentifierRun(s, p, a);
    IdentifierRun(s, a + 1, b);
  }

  /** A spelled-out `\s+AS\s+name` at `b` is recognised. */
  lemma AsNameIs(s: string, b: nat, w: nat, x: nat, e: nat)
    requires b <= w && w + 2 <= x <= e <= |s|
    requires Spaces(s[b..w]) && EqualsIgnoreCase(s[w..w + 2], "AS") && Spaces(s[w + 2..x])
    requires Identifier(s[x..e])
    requires e == |s| || !IsWordChar(s[e])
    ensures AsNameAt(s, b) == Some(e)
  {
    AsWordFacts(s[w..w + 2]);
    assert s[w] == s[w..w + 2][0];
    SpacesRun(s, b, w);
    IdentifierRun(s, x, e);
    SpacesRun(s, w + 2, x);
  }
}
