/** The definitions-file parser (`loadConstants`). The file content is a
    parameter: `None` stands for a read that failed, after which both
    variants report the error and return an empty list.

    Both variants use the pattern `define_ex\s*\(\s*['"]([A-Za-z0-9_]+)['"]`.
    Current splits the content into lines on `\r?\n`, takes the first match
    of each line and records its 1-based line; Legacy runs the pattern
    globally over the whole content and keeps names only. */
module Loader {
  import opened Lexical
  import opened Definitions

  // ---------------------------------------------------------------------
  // The `define_ex` pattern

  predicate IsDefineQuote(c: char) {
    c == '\'' || c == '"'
  }

  /** A non-empty run of name characters. */
  predicate IsName(w: string) {
    |w| > 0 && forall i :: 0 <= i < |w| ==> IsWordChar(w[i])
  }

  /** What `\s*\(\s*` may match: blanks around exactly one parenthesis. */
  predicate IsCallGap(g: string) {
    multiset(g)['('] == 1 && forall i :: 0 <= i < |g| ==> g[i] == '(' || IsSpace(g[i])
  }

  /** Greedy `\s*` from `i`. */
  function SkipSpaces(s: string, i: nat): (e: nat)
    requires i <= |s|
    ensures i <= e <= |s|
    decreases |s| - i
  {
    if i == |s| || !IsSpace(s[i]) then i else SkipSpaces(s, i + 1)
  }

  /** `\s*` takes every blank and stops at the first non-blank. */
  lemma {:induction false} SkipSpacesSpec(s: string, i: nat)
    requires i <= |s|
    ensures forall j :: i <= j < SkipSpaces(s, i) ==> IsSpace(s[j])
    ensures SkipSpaces(s, i) == |s| || !IsSpace(s[SkipSpaces(s, i)])
    decreases |s| - i
  {
    if i < |s| && IsSpace(s[i]) {
      SkipSpacesSpec(s, i + 1);
    }
  }

  /** Greedy `[A-Za-z0-9_]+` from `i` (its end; `i` itself if empty). */
  function NameEnd(s: string, i: nat): (e: nat)
    requires i <= |s|
    ensures i <= e <= |s|
    decreases |s| - i
  {
    if i == |s| || !IsWordChar(s[i]) then i else NameEnd(s, i + 1)
  }

  /** `[A-Za-z0-9_]*` takes the longest run of name characters. */
  lemma {:induction false} NameEndSpec(s: string, i: nat)
    requires i <= |s|
    ensures forall j :: i <= j < NameEnd(s, i) ==> IsWordChar(s[j])
    ensures NameEnd(s, i) == |s| || !IsWordChar(s[NameEnd(s, i)])
    decreases |s| - i
  {
    if i < |s| && IsWordChar(s[i]) {
      NameEndSpec(s, i + 1);
    }
  }

  /** `define_ex` at `p`. */
  predicate KeywordAt(s: string, p: nat) {
    p + 9 <= |s| && s[p] == 'd' && s[p + 1] == 'e' && s[p + 2] == 'f' && s[p + 3] == 'i' && s[p + 4] == 'n' &&
    s[p + 5] == 'e' && s[p + 6] == '_' && s[p + 7] == 'e' && s[p + 8] == 'x'
  }

  /** A match: where it starts, the captured name, and where it ends. */
  datatype DefineMatch = DefineMatch(start: nat, name: string, end: nat)

  /** The pattern anchored at `p`. Backtracking cannot help: the greedy runs
      are followed by characters they cannot contain, so the match, if any,
      uses the longest runs. */
  function DefineAt(s: string, p: nat): (r: Option<DefineMatch>)
    requires p <= |s|
    ensures r.Some? ==> r.value.start == p && p + 12 <= r.value.end <= |s|
    ensures r.Some? ==> KeywordAt(s, p) && IsName(r.value.name)
  {
    if !KeywordAt(s, p) then None
    else
      var a := SkipSpaces(s, p + 9);
      if a == |s| || s[a] != '(' then None
      else QuotedName(s, p, SkipSpaces(s, a + 1))
  }

  /** The `['"]([A-Za-z0-9_]+)['"]` tail of the pattern, at `b`. The closing
      quote need not equal the opening one. */
  function QuotedName(s: string, p: nat, b: nat): (r: Option<DefineMatch>)
    requires p + 9 < b <= |s|
    ensures r.Some? ==> r.value.start == p && b + 3 <= r.value.end <= |s|
    ensures r.Some? ==> IsName(r.value.name) && r.value.end == b + |r.value.name| + 2
  {
    if b == |s| || !IsDefineQuote(s[b]) then None
    else
      var c := NameEnd(s, b + 1);
      if c == b + 1 || c == |s| || !IsDefineQuote(s[c]) then None
      else
        NameEndSpec(s, b + 1);
        Some(DefineMatch(p, s[b + 1..c], c + 1))
  }

  /** Text of the `define_ex` shape at `p`: the keyword, blanks around one
      parenthesis up to `b`, a quote at `b`, the name and a quote that ends
      the match at `end`. */
  predicate DefineShape(s: string, p: nat, b: nat, name: string, end: nat) {
    p + 9 <= b && end == b + |name| + 2 && end <= |s| &&
    IsCallGap(s[p + 9..b]) && IsDefineQuote(s[b]) && s[b + 1..end - 1] == name && IsDefineQuote(s[end - 1])
  }

  /** A match is `define_ex`, blanks around one parenthesis, a quote, the
      name and a quote. */
  lemma DefineAtSound(s: string, p: nat)
    requires p <= |s| && DefineAt(s, p).Some?
    ensures DefineShape(s, p, DefineAt(s, p).value.end - 2 - |DefineAt(s, p).value.name|,
                        DefineAt(s, p).value.name, DefineAt(s, p).value.end)
  {
    var a := SkipSpaces(s, p + 9);
    var b := SkipSpaces(s, a + 1);
    DefineAtParts(s, p, a, b);
    SkipSpacesSpec(s, p + 9);
    SkipSpacesSpec(s, a + 1);
    CallShape(s, p, a, b, DefineAt(s, p).value);
  }

  /** A match at `p` is the quoted tail after the parenthesis at `a`. */
  lemma DefineAtParts(s: string, p: nat, a: nat, b: nat)
    requires p <= |s| && DefineAt(s, p).Some?
    requires a == SkipSpaces(s, p + 9) && b == SkipSpaces(s, a + 1)
    ensures p + 9 <= a < b <= |s| && s[a] == '('
    ensures DefineAt(s, p) == QuotedName(s, p, b)
    ensures DefineAt(s, p).value.end - 2 - |DefineAt(s, p).value.name| == b
  {
  }

  /** The gap and the quoted tail together make the `define_ex` shape. */
  lemma CallShape(s: string, p: nat, a: nat, b: nat, m: DefineMatch)
    requires p + 9 <= a < b <= |s| && s[a] == '('
    requires forall j :: p + 9 <= j < a ==> IsSpace(s[j])
    requires forall j :: a < j < b ==> IsSpace(s[j])
    requires QuotedName(s, p, b) == Some(m)
    ensures DefineShape(s, p, b, m.name, m.end)
  {
    QuotedNameSound(s, p, b);
    GapShape(s, p + 9, a, b);
  }

  /** A match of the quoted tail at `b` is a quote, the name and a quote. */
  lemma QuotedNameSound(s: string, p: nat, b: nat)
    requires p + 9 < b <= |s| && QuotedName(s, p, b).Some?
    ensures var m := QuotedName(s, p, b).value;
      IsDefineQuote(s[b]) && s[b + 1..m.end - 1] == m.name && IsDefineQuote(s[m.end - 1])
  {
  }

  lemma GapShape(s: string, i: nat, a: nat, b: nat)
    requires i <= a < b <= |s| && s[a] == '('
    requires forall j :: i <= j < a ==> IsSpace(s[j])
    requires forall j :: a < j < b ==> IsSpace(s[j])
    ensures IsCallGap(s[i..b])
  {
    var g := s[i..b];
    assert g == s[i..a] + [s[a]] + s[a + 1..b];
    BlanksHaveNoParen(s, i, a);
    BlanksHaveNoParen(s, a + 1, b);
    assert multiset(g) == multiset(s[i..a]) + multiset{'('} + multiset(s[a + 1..b]);
    forall j | 0 <= j < |g| ensures g[j] == '(' || IsSpace(g[j]) {
      assert g[j] == s[i + j];
    }
  }

  lemma BlanksHaveNoParen(s: string, i: nat, j: nat)
    requires i <= j <= |s| && forall k :: i <= k < j ==> IsSpace(s[k])
    ensures '(' !in multiset(s[i..j])
  {
    forall k | 0 <= k < j - i ensures s[i..j][k] != '(' {
      assert s[i..j][k] == s[i + k];
    }
  }

  /** The converse of `DefineAt`'s contract: text of the `define_ex` shape,
      with a name that is a whole run, is matched. */
  lemma DefineAtComplete(s: string, p: nat, b: nat, c: nat)
    requires KeywordAt(s, p) && p + 9 <= b && b + 1 < c < |s|
    requires IsCallGap(s[p + 9..b]) && IsDefineQuote(s[b]) && IsDefineQuote(s[c])
    requires c == NameEnd(s, b + 1)
    ensures DefineAt(s, p).Some?
    ensures DefineAt(s, p).value.name == s[b + 1..c] && DefineAt(s, p).value.end == c + 1
  {
    DefineAtGap(s, p, b);
    var r := QuotedName(s, p, b);
    assert r.Some? && r.value.end == c + 1 && r.value.name == s[b + 1..c];
  }

  /** After `define_ex` and a call gap, matching goes on with the quoted name. */
  lemma DefineAtGap(s: string, p: nat, b: nat)
    requires KeywordAt(s, p) && p + 9 <= b < |s| && IsCallGap(s[p + 9..b]) && !IsSpace(s[b])
    ensures p + 9 < b && DefineAt(s, p) == QuotedName(s, p, b)
  {
    var a := SkipSpaces(s, p + 9);
    SkipSpacesSpec(s, p + 9);
    GapParen(s, p + 9, b);
    GapRest(s, p + 9, a, b);
    SkipSpacesStops(s, a + 1, b);
  }

  /** Greedy `\s*` over a run of blanks stops at the first non-blank. */
  lemma {:induction false} SkipSpacesStops(s: string, i: nat, b: nat)
    requires i <= b < |s| && !IsSpace(s[b])
    requires forall j :: i <= j < b ==> IsSpace(s[j])
    ensures SkipSpaces(s, i) == b
    decreases b - i
  {
    if i < b {
      SkipSpacesStops(s, i + 1, b);
    }
  }

  /** The blanks a call gap starts with stop at its parenthesis. */
  lemma GapParen(s: string, i: nat, b: nat)
    requires i <= b <= |s| && IsCallGap(s[i..b])
    ensures SkipSpaces(s, i) < b && s[SkipSpaces(s, i)] == '('
  {
    var a := SkipSpaces(s, i);
    SkipSpacesSpec(s, i);
    var g := s[i..b];
    assert '(' in multiset(g);
    assert '(' in g;
    var k :| 0 <= k < |g| && g[k] == '(';
    assert s[i + k] == '(';
    assert a <= i + k;
    assert s[a] == g[a - i];
  }

  /** After the parenthesis of a call gap only blanks follow. */
  lemma GapRest(s: string, i: nat, a: nat, b: nat)
    requires i <= a < b <= |s| && IsCallGap(s[i..b]) && s[a] == '('
    ensures forall j :: a < j < b ==> IsSpace(s[j])
  {
    var g := s[i..b];
    assert g == g[..a - i + 1] + g[a - i + 1..];
    assert g[a - i] == '(';
    assert multiset(g[..a - i + 1])['('] >= 1 by {
      assert g[..a - i + 1][a - i] == '(';
    }
    assert multiset(g)['('] == multiset(g[..a - i + 1])['('] + multiset(g[a - i + 1..])['('];
    assert '(' !in multiset(g[a - i + 1..]);
    forall j | a < j < b ensures IsSpace(s[j]) {
      assert s[j] == g[j - i];
      assert g[a - i + 1..][j - a - 1] == g[j - i];
      assert g[j - i] in multiset(g[a - i + 1..]);
    }
  }

  /** One `exec` from `from`: the leftmost match at or after `from`. */
  function FirstDefine(s: string, from: nat): (r: Option<DefineMatch>)
    requires from <= |s|
    ensures r.Some? ==> from <= r.value.start <= |s| && DefineAt(s, r.value.start) == r
    decreases |s| - from
  {
    if DefineAt(s, from).Some? then DefineAt(s, from)
    else if from == |s| then None
    else FirstDefine(s, from + 1)
  }

  /** The search finds the leftmost match, and finds none only when there
      is none. */
  lemma {:induction false} FirstDefineLeftmost(s: string, from: nat)
    requires from <= |s|
    ensures FirstDefine(s, from).Some? ==>
      forall p :: from <= p < FirstDefine(s, from).value.start ==> DefineAt(s, p).None?
    ensures FirstDefine(s, from).None? ==> forall p :: from <= p <= |s| ==> DefineAt(s, p).None?
    decreases |s| - from
  {
    if DefineAt(s, from).None? && from < |s| {
      FirstDefineLeftmost(s, from + 1);
    }
  }

  // ---------------------------------------------------------------------
  // Current: one record per line

  /** Drop one carriage return before a line feed. */
  function StripCr(l: string): string {
    if |l| > 0 && l[|l| - 1] == '\r' then l[..|l| - 1] else l
  }

  /** The first line feed in `s`. */
  function NewlineIndex(s: string): (j: nat)
    requires '\n' in s
    ensures j < |s| && s[j] == '\n' && '\n' !in s[..j]
  {
    if s[0] == '\n' then 0
    else
      var j := NewlineIndex(s[1..]);
      assert s[..j + 1] == [s[0]] + s[1..][..j];
      j + 1
  }

  /** `content.split(/\r?\n/)`. */
  function SplitLines(s: string): (lines: seq<string>)
    ensures |lines| >= 1
    ensures forall i :: 0 <= i < |lines| ==> '\n' !in lines[i]
    decreases |s|
  {
    if '\n' !in s then [s]
    else
      var j := NewlineIndex(s);
      assert '\n' !in StripCr(s[..j]);
      [StripCr(s[..j])] + SplitLines(s[j + 1..])
  }

  /** Joining the pieces with line feeds again. */
  function JoinLines(lines: seq<string>): string
    requires |lines| >= 1
  {
    if |lines| == 1 then lines[0] else lines[0] + "\n" + JoinLines(lines[1..])
  }

  /** `s` with each carriage return that precedes a line feed removed. */
  function CrlfToLf(s: string): (t: string)
    ensures |t| <= |s|
    decreases |s|
  {
    if |s| < 2 then s
    else if s[0] == '\r' && s[1] == '\n' then "\n" + CrlfToLf(s[2..])
    else [s[0]] + CrlfToLf(s[1..])
  }

  /** Splitting loses nothing but the carriage returns before line feeds:
      joining the lines with line feeds rebuilds the text with each `\r\n`
      turned into `\n`. */
  lemma {:induction false} SplitJoin(s: string)
    ensures JoinLines(SplitLines(s)) == CrlfToLf(s)
    decreases |s|
  {
    if '\n' !in s {
      CrlfToLfUnchanged(s);
    } else {
      var j := NewlineIndex(s);
      SplitJoin(s[j + 1..]);
      SplitJoinAt(s, j);
    }
  }

  /** The step of `SplitJoin` at the first line feed `j`. */
  lemma SplitJoinAt(s: string, j: nat)
    requires '\n' in s && j == NewlineIndex(s)
    requires JoinLines(SplitLines(s[j + 1..])) == CrlfToLf(s[j + 1..])
    ensures JoinLines(SplitLines(s)) == CrlfToLf(s)
  {
    var line, rest := StripCr(s[..j]), SplitLines(s[j + 1..]);
    SplitLinesFirst(s);
    JoinCons(line, rest);
    CrlfToLfFirst(s, j);
  }

  /** `split` takes the line before the first line feed off the front. */
  lemma SplitLinesFirst(s: string)
    requires '\n' in s
    ensures SplitLines(s) == [StripCr(s[..NewlineIndex(s)])] + SplitLines(s[NewlineIndex(s) + 1..])
  {
  }

  /** Conversion up to the first line feed `j` only touches a carriage
      return just before it. */
  lemma CrlfToLfFirst(s: string, j: nat)
    requires '\n' in s && j == NewlineIndex(s)
    ensures CrlfToLf(s) == StripCr(s[..j]) + "\n" + CrlfToLf(s[j + 1..])
  {
    assert s == s[..j] + "\n" + s[j + 1..];
    CrlfToLfAtLf(s[..j], s[j + 1..]);
  }

  /** Joining puts one line feed after the first line. */
  lemma JoinCons(x: string, rest: seq<string>)
    requires |rest| >= 1
    ensures JoinLines([x] + rest) == x + "\n" + JoinLines(rest)
  {
    assert ([x] + rest)[1..] == rest;
  }

  /** Text without carriage returns comes back from `split` and `join`
      exactly. */
  lemma SplitJoinNoCr(s: string)
    requires '\r' !in s
    ensures JoinLines(SplitLines(s)) == s
  {
    SplitJoin(s);
    CrlfToLfUnchanged(s);
  }

  /** A line ended by `\r\n` is split off without its carriage return. */
  lemma SplitCrlf(a: string, b: string)
    requires '\n' !in a
    ensures SplitLines(a + "\r\n" + b) == [a] + SplitLines(b)
  {
    var s := a + "\r\n" + b;
    assert s[..|a| + 1] == a + "\r";
    assert s[|a| + 2..] == b;
    assert '\n' !in s[..|a| + 1];
    assert NewlineIndex(s) == |a| + 1;
  }

  /** Nothing changes in text without line feeds or without carriage
      returns: there is no `\r\n` to convert. */
  lemma {:induction false} CrlfToLfUnchanged(s: string)
    requires '\n' !in s || '\r' !in s
    ensures CrlfToLf(s) == s
    decreases |s|
  {
    if |s| >= 2 {
      CrlfToLfUnchanged(s[1..]);
    }
  }

  /** At the first line feed, the line before it loses one trailing
      carriage return and the rest is converted on its own. */
  lemma {:induction false} CrlfToLfAtLf(a: string, b: string)
    requires '\n' !in a
    ensures CrlfToLf(a + "\n" + b) == StripCr(a) + "\n" + CrlfToLf(b)
    decreases |a|
  {
    var s := a + "\n" + b;
    if a == [] {
      assert s == "\n" + b && s[1..] == b;
      CrlfToLfKeep(s);
    } else if a == "\r" {
      assert s[2..] == b;
    } else {
      assert s[0] == a[0] && s[1] == (a + "\n")[1];
      assert s[1..] == a[1..] + "\n" + b;
      CrlfToLfKeep(s);
      CrlfToLfAtLf(a[1..], b);
      StripCrCons(a);
    }
  }

  /** A character that does not start `\r\n` is kept. */
  lemma CrlfToLfKeep(s: string)
    requires |s| >= 1 && !(|s| >= 2 && s[0] == '\r' && s[1] == '\n')
    ensures CrlfToLf(s) == [s[0]] + CrlfToLf(s[1..])
  {
  }

  /** Dropping a trailing carriage return leaves the first character of a
      longer line, or of a line that is not a lone carriage return. */
  lemma StripCrCons(a: string)
    requires |a| >= 1 && a != "\r"
    ensures StripCr(a) == [a[0]] + StripCr(a[1..])
  {
    if |a| >= 2 {
      assert a[1..][|a| - 2] == a[|a| - 1];
      assert a[1..][..|a| - 2] == a[1..|a| - 1];
    }
  }

  /** The record a line contributes, if its first match exists. */
  function LineRecord(lines: seq<string>, i: nat): seq<Definition>
    requires i < |lines|
  {
    match FirstDefine(lines[i], 0)
    case Some(m) => [Definition(m.name, i + 1)]
    case None => []
  }

  /** Records of the first `n` lines, in line order. */
  function LineDefinitions(lines: seq<string>, n: nat): seq<Definition>
    requires n <= |lines|
  {
    if n == 0 then [] else LineDefinitions(lines, n - 1) + LineRecord(lines, n - 1)
  }

  /** The record of line `i` (0-based) says line `i + 1` and carries the
      name of the first match in that line. */
  predicate RecordOfLine(lines: seq<string>, d: Definition) {
    1 <= d.line <= |lines| &&
    FirstDefine(lines[d.line - 1], 0).Some? && FirstDefine(lines[d.line - 1], 0).value.name == d.name
  }

  /** Records of the first `n` lines name one of those lines. */
  lemma {:induction false} LineDefinitionsBounded(lines: seq<string>, n: nat)
    requires n <= |lines|
    ensures forall k :: 0 <= k < |LineDefinitions(lines, n)| ==> LineDefinitions(lines, n)[k].line <= n
  {
    if n > 0 {
      LineDefinitionsBounded(lines, n - 1);
      var prev := LineDefinitions(lines, n - 1);
      var last := LineRecord(lines, n - 1);
      var cs := LineDefinitions(lines, n);
      assert cs == prev + last;
      forall k | 0 <= k < |cs| ensures cs[k].line <= n {
        if k >= |prev| {
          assert cs[k] == last[k - |prev|];
        } else {
          assert cs[k] == prev[k];
        }
      }
    }
  }

  /** Each record is the first match of the line it names. */
  lemma {:induction false} LineDefinitionsSound(lines: seq<string>, n: nat)
    requires n <= |lines|
    ensures forall k :: 0 <= k < |LineDefinitions(lines, n)| ==> RecordOfLine(lines, LineDefinitions(lines, n)[k])
  {
    if n > 0 {
      LineDefinitionsSound(lines, n - 1);
      LineRecordSound(lines, n - 1);
      RecordsAppend(lines, LineDefinitions(lines, n - 1), LineRecord(lines, n - 1));
    }
  }

  /** The record of line `i`, if any, is the first match of that line. */
  lemma LineRecordSound(lines: seq<string>, i: nat)
    requires i < |lines|
    ensures forall k :: 0 <= k < |LineRecord(lines, i)| ==> RecordOfLine(lines, LineRecord(lines, i)[k])
  {
  }

  /** Two lists of records of `lines` make one. */
  lemma RecordsAppend(lines: seq<string>, a: seq<Definition>, b: seq<Definition>)
    requires forall k :: 0 <= k < |a| ==> RecordOfLine(lines, a[k])
    requires forall k :: 0 <= k < |b| ==> RecordOfLine(lines, b[k])
    ensures forall k :: 0 <= k < |a + b| ==> RecordOfLine(lines, (a + b)[k])
  {
    forall k | 0 <= k < |a + b| ensures RecordOfLine(lines, (a + b)[k]) {
      if k >= |a| {
        assert (a + b)[k] == b[k - |a|];
      } else {
        assert (a + b)[k] == a[k];
      }
    }
  }

  /** Records come in strictly increasing line order: at most one per line. */
  lemma {:induction false} LineDefinitionsOrdered(lines: seq<string>, n: nat)
    requires n <= |lines|
    ensures forall k, l :: 0 <= k < l < |LineDefinitions(lines, n)| ==>
      LineDefinitions(lines, n)[k].line < LineDefinitions(lines, n)[l].line
  {
    if n > 0 {
      LineDefinitionsOrdered(lines, n - 1);
      LineDefinitionsBounded(lines, n - 1);
      var prev := LineDefinitions(lines, n - 1);
      var last := LineRecord(lines, n - 1);
      assert |last| <= 1 && forall k :: 0 <= k < |last| ==> last[k].line == n;
      RecordsOrderedAppend(prev, last, n, LineDefinitions(lines, n));
    }
  }

  /** Records of earlier lines followed by at most one record of line `n`
      stay in increasing line order. */
  lemma RecordsOrderedAppend(prev: seq<Definition>, last: seq<Definition>, n: nat, cs: seq<Definition>)
    requires cs == prev + last && |last| <= 1
    requires forall k, l :: 0 <= k < l < |prev| ==> prev[k].line < prev[l].line
    requires forall k :: 0 <= k < |prev| ==> prev[k].line < n
    requires forall k :: 0 <= k < |last| ==> last[k].line == n
    ensures forall k, l :: 0 <= k < l < |cs| ==> cs[k].line < cs[l].line
  {
    forall k, l | 0 <= k < l < |cs| ensures cs[k].line < cs[l].line {
      if l >= |prev| {
        assert cs[l] == last[l - |prev|];
        assert cs[k] == prev[k];
      } else {
        assert cs[k] == prev[k] && cs[l] == prev[l];
      }
    }
  }

  /** Every line that holds a match contributes its record. */
  lemma {:induction false} LineDefinitionsComplete(lines: seq<string>, n: nat, i: nat)
    requires i < n <= |lines| && FirstDefine(lines[i], 0).Some?
    ensures Definition(FirstDefine(lines[i], 0).value.name, i + 1) in LineDefinitions(lines, n)
  {
    if i < n - 1 {
      LineDefinitionsComplete(lines, n - 1, i);
    } else {
      assert LineRecord(lines, i) == [Definition(FirstDefine(lines[i], 0).value.name, i + 1)];
    }
  }

  /** What the Current `loadConstants` returns for the given content. */
  function LoadedDefinitions(content: Option<string>): seq<Definition> {
    match content
    case None => []
    case Some(c) => LineDefinitions(SplitLines(c), |SplitLines(c)|)
  }

  /** Current `loadConstants`: a loop over the lines, pushing the first
      match of each with its 1-based line. */
  method LoadConstants(content: Option<string>) returns (constants: seq<Definition>)
    ensures constants == LoadedDefinitions(content)
    ensures content.None? ==> constants == []
    ensures content.Some? ==> forall k :: 0 <= k < |constants| ==>
      IsName(constants[k].name) && RecordOfLine(SplitLines(content.value), constants[k])
    ensures forall k, l :: 0 <= k < l < |constants| ==> constants[k].line < constants[l].line
  {
    constants := [];
    if content.Some? {
      var lines := SplitLines(content.value);
      var i := 0;
      while i < |lines|
        invariant 0 <= i <= |lines|
        invariant constants == LineDefinitions(lines, i)
      {
        var m := FirstDefine(lines[i], 0);
        if m.Some? {
          constants := constants + [Definition(m.value.name, i + 1)];
        }
        i := i + 1;
      }
      LineDefinitionsSound(lines, i);
      LineDefinitionsOrdered(lines, i);
    }
  }

  // ---------------------------------------------------------------------
  // Legacy: every match in the whole content

  /** Names of all matches found by repeated `exec` from `from`; each search
      resumes after the closing quote of the previous match. */
  function AllDefines(s: string, from: nat): (names: seq<string>)
    requires from <= |s|
    ensures forall k :: 0 <= k < |names| ==> IsName(names[k])
    decreases |s| - from
  {
    match FirstDefine(s, from)
    case None => []
    case Some(m) => [m.name] + AllDefines(s, m.end)
  }

  /** The matches repeated `exec` finds from `from`, in the order found. */
  ghost function DefineMatches(s: string, from: nat): (ms: seq<DefineMatch>)
    requires from <= |s|
    ensures forall k :: 0 <= k < |ms| ==> IsName(ms[k].name)
    decreases |s| - from
  {
    match FirstDefine(s, from)
    case None => []
    case Some(m) => [m] + DefineMatches(s, m.end)
  }

  /** The captured names of a list of matches. */
  function CapturedNames(ms: seq<DefineMatch>): (names: seq<string>)
    ensures |names| == |ms| && forall k :: 0 <= k < |ms| ==> names[k] == ms[k].name
  {
    if ms == [] then [] else [ms[0].name] + CapturedNames(ms[1..])
  }

  /** The names the scan collects are those of the matches it finds. */
  lemma {:induction false} AllDefinesCaptures(s: string, from: nat)
    requires from <= |s|
    ensures AllDefines(s, from) == CapturedNames(DefineMatches(s, from))
    decreases |s| - from
  {
    match FirstDefine(s, from)
    case None =>
    case Some(m) =>
      AllDefinesCaptures(s, m.end);
      var ms := DefineMatches(s, from);
      assert ms == [m] + DefineMatches(s, m.end);
      assert ms[1..] == DefineMatches(s, m.end);
  }

  /** Where the search for match `k` of `ms` begins: `from` for the first,
      the end of the previous match otherwise. */
  function SearchFrom(from: nat, ms: seq<DefineMatch>, k: nat): (p: nat)
    requires k <= |ms|
    ensures k > 0 ==> p == ms[k - 1].end
  {
    if k == 0 then from else ms[k - 1].end
  }

  /** The pattern matches at no position of `[lo, hi)`. */
  predicate NoDefineIn(s: string, lo: nat, hi: nat) {
    forall p :: lo <= p < hi && p <= |s| ==> DefineAt(s, p).None?
  }

  /** `m` is the leftmost match at or after `lo`. */
  predicate LeftmostFrom(s: string, lo: nat, m: DefineMatch) {
    lo <= m.start <= |s| && DefineAt(s, m.start) == Some(m) && NoDefineIn(s, lo, m.start)
  }

  /** `ms` is what a global scan from `from` finds: its first match is the
      leftmost one from `from`, the rest is what the scan finds from the
      end of that match, and an empty list means no match from `from` on. */
  predicate Covers(s: string, from: nat, ms: seq<DefineMatch>)
    decreases |ms|
  {
    from <= |s| &&
    if ms == [] then NoDefineIn(s, from, |s| + 1)
    else LeftmostFrom(s, from, ms[0]) && Covers(s, ms[0].end, ms[1..])
  }

  /** The matches found cover the text. */
  lemma {:induction false} DefineMatchesCover(s: string, from: nat)
    requires from <= |s|
    ensures Covers(s, from, DefineMatches(s, from))
    decreases |s| - from
  {
    FirstDefineLeftmost(s, from);
    match FirstDefine(s, from)
    case None =>
    case Some(m) =>
      DefineMatchesCover(s, m.end);
      var ms := DefineMatches(s, from);
      assert ms == [m] + DefineMatches(s, m.end);
      assert ms[0] == m && ms[1..] == DefineMatches(s, m.end);
      assert LeftmostFrom(s, from, m);
  }

  /** ... and nothing else does: a cover is the list of matches found. */
  lemma {:induction false} CoversFound(s: string, from: nat, ms: seq<DefineMatch>)
    requires Covers(s, from, ms)
    ensures ms == DefineMatches(s, from)
    decreases |ms|
  {
    FirstDefineLeftmost(s, from);
    if ms == [] {
      assert NoDefineIn(s, from, |s| + 1);
      assert FirstDefine(s, from).None?;
    } else {
      var m := ms[0];
      LeftmostUnique(s, from, m, FirstDefine(s, from));
      CoversFound(s, m.end, ms[1..]);
      assert ms == [m] + ms[1..];
    }
  }

  /** The leftmost match from `lo` is the one the search finds. */
  lemma LeftmostUnique(s: string, lo: nat, m: DefineMatch, f: Option<DefineMatch>)
    requires LeftmostFrom(s, lo, m) && lo <= |s| && f == FirstDefine(s, lo)
    ensures f == Some(m)
  {
    FirstDefineLeftmost(s, lo);
    assert f.Some?;
    assert f.value.start == m.start;
  }

  /** Match `k` of a cover is the pattern at its start, and no match starts
      between the end of the previous one (`from` for the first) and it. */
  lemma {:induction false} CoversMatch(s: string, from: nat, ms: seq<DefineMatch>, k: nat)
    requires Covers(s, from, ms) && k < |ms|
    ensures LeftmostFrom(s, SearchFrom(from, ms, k), ms[k])
    decreases k
  {
    if k > 0 {
      CoversMatch(s, ms[0].end, ms[1..], k - 1);
      assert ms[1..][k - 1] == ms[k];
      assert SearchFrom(ms[0].end, ms[1..], k - 1) == SearchFrom(from, ms, k);
    }
  }

  /** No match starts after the end of the last match of a cover (after
      `from` when there is none). */
  lemma {:induction false} CoversLast(s: string, from: nat, ms: seq<DefineMatch>)
    requires Covers(s, from, ms)
    ensures NoDefineIn(s, SearchFrom(from, ms, |ms|), |s| + 1)
    decreases |ms|
  {
    if ms != [] {
      CoversLast(s, ms[0].end, ms[1..]);
      assert SearchFrom(ms[0].end, ms[1..], |ms| - 1) == SearchFrom(from, ms, |ms|);
    }
  }

  /** Consecutive matches of a cover do not overlap. */
  lemma CoversOrdered(s: string, from: nat, ms: seq<DefineMatch>, k: nat)
    requires Covers(s, from, ms) && k + 1 < |ms|
    ensures ms[k].start < ms[k].end <= ms[k + 1].start
  {
    CoversMatch(s, from, ms, k);
    CoversMatch(s, from, ms, k + 1);
    LeftmostSpan(s, SearchFrom(from, ms, k), ms[k]);
    LeftmostSpan(s, SearchFrom(from, ms, k + 1), ms[k + 1]);
  }

  /** A leftmost match lies after where the search began and is not empty. */
  lemma LeftmostSpan(s: string, lo: nat, m: DefineMatch)
    requires LeftmostFrom(s, lo, m)
    ensures lo <= m.start < m.end <= |s|
  {
    assert DefineAt(s, m.start).Some?;
  }

  /** What the Legacy `loadConstants` returns for the given content. */
  function LegacyNames(content: Option<string>): seq<string> {
    match content
    case None => []
    case Some(c) => AllDefines(c, 0)
  }

  /** Legacy `loadConstants`: a `while (regex.exec(...))` loop. */
  method LoadConstantsLegacy(content: Option<string>) returns (constants: seq<string>)
    ensures constants == LegacyNames(content)
    ensures content.None? ==> constants == []
    ensures content.Some? ==>
      constants == CapturedNames(DefineMatches(content.value, 0)) && Covers(content.value, 0, DefineMatches(content.value, 0))
    ensures forall k :: 0 <= k < |constants| ==> IsName(constants[k])
  {
    constants := [];
    if content.Some? {
      var s := content.value;
      ghost var todo := AllDefines(s, 0);
      var lastIndex := 0;
      while FirstDefine(s, lastIndex).Some?
        invariant lastIndex <= |s|
        invariant todo == AllDefines(s, lastIndex)
        invariant constants + todo == AllDefines(s, 0)
        decreases |s| - lastIndex
      {
        var match_ := FirstDefine(s, lastIndex).value;
        AllDefinesStep(s, lastIndex, constants, todo);
        constants := constants + [match_.name];
        lastIndex := match_.end;
        todo := AllDefines(s, lastIndex);
      }
      AllDefinesCaptures(s, 0);
      DefineMatchesCover(s, 0);
    }
  }

  /** One `exec` of the loop moves the name it finds from the pending names
      to the collected ones. */
  lemma AllDefinesStep(s: string, from: nat, done: seq<string>, todo: seq<string>)
    requires from <= |s| && FirstDefine(s, from).Some?
    requires todo == AllDefines(s, from)
    ensures var m := FirstDefine(s, from).value;
      m.end <= |s| && done + todo == (done + [m.name]) + AllDefines(s, m.end)
  {
    var m := FirstDefine(s, from).value;
    assert todo == [m.name] + AllDefines(s, m.end);
  }

  /** On a single line, Current keeps the first name Legacy finds, on line 1. */
  lemma SingleLineAgreement(c: string)
    requires '\n' !in c
    ensures LoadedDefinitions(Some(c)) ==
      if AllDefines(c, 0) == [] then [] else [Definition(AllDefines(c, 0)[0], 1)]
  {
    assert SplitLines(c) == [c];
    assert LineDefinitions([c], 1) == LineDefinitions([c], 0) + LineRecord([c], 0);
  }

  /** The Legacy names are those of any cover of the whole content. */
  lemma LegacyNamesOfCover(s: string, ms: seq<DefineMatch>)
    requires Covers(s, 0, ms)
    ensures LegacyNames(Some(s)) == CapturedNames(ms)
  {
    CoversFound(s, 0, ms);
    AllDefinesCaptures(s, 0);
  }

  /** The blanks of the pattern include line feeds: a call whose
      parenthesis opens on the next line is matched. */
  lemma CallAcrossLines(s: string, p: nat)
    requires KeywordAt(s, p) && p + 14 <= |s| && s[p + 9] == '\n' && s[p + 10] == '('
    requires IsDefineQuote(s[p + 11]) && IsWordChar(s[p + 12]) && IsDefineQuote(s[p + 13])
    ensures DefineAt(s, p) == Some(DefineMatch(p, [s[p + 12]], p + 14))
  {
    assert s[p + 9..p + 11] == "\n(";
    assert multiset(s[p + 9..p + 11])['('] == 1;
    assert NameEnd(s, p + 13) == p + 13;
    assert NameEnd(s, p + 12) == p + 13;
    DefineAtComplete(s, p, p + 11, p + 13);
    assert s[p + 12..p + 13] == [s[p + 12]];
  }

  /** Legacy finds the name of such a call that opens the content. */
  lemma LegacyFindsCallAcrossLines(s: string)
    requires KeywordAt(s, 0) && 14 <= |s| && s[9] == '\n' && s[10] == '('
    requires IsDefineQuote(s[11]) && IsWordChar(s[12]) && IsDefineQuote(s[13])
    ensures |LegacyNames(Some(s))| > 0 && LegacyNames(Some(s))[0] == [s[12]]
  {
    CallAcrossLines(s, 0);
  }

  /** Current finds nothing in `define_ex`, a line feed and `('A')`. */
  lemma CurrentMissesCallAcrossLines()
    ensures LoadedDefinitions(Some("define_ex\n('A')")) == []
  {
    var s := "define_ex\n('A')";
    SplitLinesAt(s, 9);
    var lines := SplitLines(s);
    assert |lines| == 2 && |lines[0]| == 9 && |lines[1]| == 5;
    NoDefineInShort(lines[0], 0);
    NoDefineInShort(lines[1], 0);
    assert LineRecord(lines, 0) == [] && LineRecord(lines, 1) == [];
    assert LineDefinitions(lines, 1) == LineDefinitions(lines, 0) + LineRecord(lines, 0) == [];
    assert LineDefinitions(lines, 2) == LineDefinitions(lines, 1) + LineRecord(lines, 1) == [];
  }

  /** Text shorter than the shortest match holds none. */
  lemma {:induction false} NoDefineInShort(s: string, from: nat)
    requires from <= |s| < 12
    ensures FirstDefine(s, from).None?
  {
  }

  /** Splitting at the first line feed of text. */
  lemma SplitLinesAt(s: string, j: nat)
    requires j < |s| && s[j] == '\n' && '\n' !in s[..j] && '\n' !in s[j + 1..]
    ensures SplitLines(s) == [StripCr(s[..j]), s[j + 1..]]
  {
  }
}
