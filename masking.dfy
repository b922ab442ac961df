/** The comment and string masker (`maskCommentsAndStrings`).

    The pattern `//.* | /*[\s\S]*?*/ | #.* | (['"`])(?:\\.|[^\\])*?\1`
    applied with a global replace is modelled as a scanner: at each position
    the alternatives are tried in that order; a match is replaced by as many
    blanks as it is long and scanning resumes after it; otherwise the
    character is copied and scanning moves on by one. The Legacy variant
    knows only the quotes ' and ". */
module Masking {
  import opened Lexical

  /** The quote characters the string alternative accepts. */
  function Quotes(v: Variant): set<char> {
    match v
    case Current => {'\'', '"', '`'}
    case Legacy => {'\'', '"'}
  }

  /** Where `.*` started at `i` stops: the first line terminator, or the end. */
  function LineEnd(s: string, i: nat): (e: nat)
    requires i <= |s|
    ensures i <= e <= |s|
    ensures e == |s| || IsLineTerminator(s[e])
    ensures forall j :: i <= j < e ==> !IsLineTerminator(s[j])
    decreases |s| - i
  {
    if i == |s| || IsLineTerminator(s[i]) then i else LineEnd(s, i + 1)
  }

  /** A block-comment closer at `j`. */
  predicate ClosesAt(s: string, j: nat) {
    j + 1 < |s| && s[j] == '*' && s[j + 1] == '/'
  }

  /** The lazy `[\s\S]*?\*\/` started at `i`: just past the first closer, if any. */
  function BlockEnd(s: string, i: nat): (r: Option<nat>)
    requires i <= |s|
    ensures r.Some? ==> i + 2 <= r.value <= |s| && ClosesAt(s, r.value - 2)
    ensures r.Some? ==> forall j :: i <= j < r.value - 2 ==> !ClosesAt(s, j)
    ensures r.None? <==> forall j :: i <= j < |s| ==> !ClosesAt(s, j)
    decreases |s| - i
  {
    if i + 1 >= |s| then None
    else if ClosesAt(s, i) then Some(i + 2)
    else BlockEnd(s, i + 1)
  }

  /** The lazy `(?:\\.|[^\\])*?\1` started at `i` for quote `q`: just past the
      first quote that is not escaped. A backslash followed by a line
      terminator or by the end of the text makes the string fail. */
  function QuoteEnd(s: string, q: char, i: nat): (r: Option<nat>)
    requires i <= |s|
    ensures r.Some? ==> i < r.value <= |s| && s[r.value - 1] == q
    decreases |s| - i
  {
    if i == |s| then None
    else if s[i] == q then Some(i + 1)
    else if s[i] == '\\' then
      if i + 1 < |s| && !IsLineTerminator(s[i + 1]) then QuoteEnd(s, q, i + 2) else None
    else QuoteEnd(s, q, i + 1)
  }

  /** An escaped quote does not end the string: scanning resumes after it. */
  lemma EscapedQuoteSkipped(s: string, q: char, i: nat)
    requires i + 1 < |s| && s[i] == '\\' && s[i + 1] == q
    requires q != '\\' && !IsLineTerminator(q)
    ensures QuoteEnd(s, q, i) == QuoteEnd(s, q, i + 2)
  {
  }

  /** The string body scan from `i` for quote `q` gets to `j`: every step
      starts on a character other than `q`, and moves over `\x` (where `x`
      is no line terminator) as one unit, and over any other character
      alone. */
  ghost predicate QuoteScan(s: string, q: char, i: nat, j: nat)
    decreases |s| - i
  {
    i == j ||
    (i < j && i < |s| && s[i] != q &&
     if s[i] == '\\' then i + 1 < |s| && !IsLineTerminator(s[i + 1]) && QuoteScan(s, q, i + 2, j)
     else QuoteScan(s, q, i + 1, j))
  }

  /** The body scan is stuck at `j`: the text ends, or a backslash is
      followed by a line terminator or by the end. */
  predicate QuoteFails(s: string, q: char, j: nat) {
    j == |s| || (j < |s| && s[j] == '\\' && s[j] != q && (j + 1 == |s| || IsLineTerminator(s[j + 1])))
  }

  /** The string ends just past the quote the body scan stops at, and fails
      exactly when the scan gets stuck. */
  lemma QuoteEndSpec(s: string, q: char, i: nat, e: nat)
    requires i <= |s|
    ensures QuoteEnd(s, q, i) == Some(e) <==> i < e <= |s| && QuoteScan(s, q, i, e - 1) && s[e - 1] == q
    ensures QuoteEnd(s, q, i).None? <==> exists j :: i <= j <= |s| && QuoteScan(s, q, i, j) && QuoteFails(s, q, j)
  {
    QuoteEndFound(s, q, i);
    if i < e <= |s| && QuoteScan(s, q, i, e - 1) && s[e - 1] == q {
      QuoteEndAlong(s, q, i, e - 1);
    }
    QuoteEndFails(s, q, i);
    if exists j :: i <= j <= |s| && QuoteScan(s, q, i, j) && QuoteFails(s, q, j) {
      var j :| i <= j <= |s| && QuoteScan(s, q, i, j) && QuoteFails(s, q, j);
      QuoteEndAlong(s, q, i, j);
    }
  }

  /** No position the scan passes before the end quote holds `q`: the
      string ends at the first quote that is not escaped. */
  lemma QuoteEndFirst(s: string, q: char, i: nat, x: nat)
    requires i <= |s| && QuoteEnd(s, q, i).Some?
    requires i <= x < QuoteEnd(s, q, i).value - 1 && QuoteScan(s, q, i, x)
    ensures s[x] != q
  {
    QuoteEndFound(s, q, i);
    ScanPassesNoQuote(s, q, i, x, QuoteEnd(s, q, i).value - 1);
  }

  /** A position the scan passes on its way to `j` does not hold `q`. */
  lemma {:induction false} ScanPassesNoQuote(s: string, q: char, i: nat, x: nat, j: nat)
    requires i <= x < j && QuoteScan(s, q, i, x) && QuoteScan(s, q, i, j)
    ensures x < |s| && s[x] != q
    decreases x - i
  {
    if i < x {
      if s[i] == '\\' {
        ScanPassesNoQuote(s, q, i + 2, x, j);
      } else {
        ScanPassesNoQuote(s, q, i + 1, x, j);
      }
    }
  }

  /** Where the scan gets to, the string ends as it would from there. */
  lemma {:induction false} QuoteEndAlong(s: string, q: char, i: nat, j: nat)
    requires i <= j <= |s| && QuoteScan(s, q, i, j)
    ensures QuoteEnd(s, q, i) == QuoteEnd(s, q, j)
    decreases j - i
  {
    if i < j {
      if s[i] == '\\' {
        QuoteEndAlong(s, q, i + 2, j);
      } else {
        QuoteEndAlong(s, q, i + 1, j);
      }
    }
  }

  lemma {:induction false} QuoteEndFound(s: string, q: char, i: nat)
    requires i <= |s|
    ensures QuoteEnd(s, q, i).Some? ==> QuoteScan(s, q, i, QuoteEnd(s, q, i).value - 1)
    decreases |s| - i
  {
    if i < |s| && s[i] != q {
      if s[i] == '\\' {
        if i + 1 < |s| && !IsLineTerminator(s[i + 1]) {
          QuoteEndFound(s, q, i + 2);
        }
      } else {
        QuoteEndFound(s, q, i + 1);
      }
    }
  }

  lemma {:induction false} QuoteEndFails(s: string, q: char, i: nat)
    requires i <= |s|
    ensures QuoteEnd(s, q, i).None? ==> exists j :: i <= j <= |s| && QuoteScan(s, q, i, j) && QuoteFails(s, q, j)
    decreases |s| - i
  {
    if i == |s| {
      assert QuoteScan(s, q, i, i) && QuoteFails(s, q, i);
    } else if s[i] != q {
      if s[i] == '\\' {
        if i + 1 < |s| && !IsLineTerminator(s[i + 1]) {
          QuoteEndFails(s, q, i + 2);
          if QuoteEnd(s, q, i).None? {
            var j :| i + 2 <= j <= |s| && QuoteScan(s, q, i + 2, j) && QuoteFails(s, q, j);
            assert QuoteScan(s, q, i, j);
          }
        } else {
          assert QuoteScan(s, q, i, i) && QuoteFails(s, q, i);
        }
      } else {
        QuoteEndFails(s, q, i + 1);
        if QuoteEnd(s, q, i).None? {
          var j :| i + 1 <= j <= |s| && QuoteScan(s, q, i + 1, j) && QuoteFails(s, q, j);
          assert QuoteScan(s, q, i, j);
        }
      }
    }
  }

  /** End of the comment or string the masking pattern matches at `p`,
      alternatives tried in the order of the pattern; None if none matches. */
  function MatchAt(s: string, v: Variant, p: nat): (r: Option<nat>)
    requires p < |s|
    ensures r.Some? ==> p < r.value <= |s|
  {
    if StartsAt(s, p, "//") then Some(LineEnd(s, p + 2))
    else if StartsAt(s, p, "/*") && BlockEnd(s, p + 2).Some? then BlockEnd(s, p + 2)
    else if s[p] == '#' then Some(LineEnd(s, p + 1))
    else if s[p] in Quotes(v) then QuoteEnd(s, s[p], p + 1)
    else None
  }

  /** Where the masking scan goes next after position `p`. */
  function Step(s: string, v: Variant, p: nat): (n: nat)
    requires p < |s|
    ensures p < n <= |s|
  {
    match MatchAt(s, v, p)
    case Some(e) => e
    case None => p + 1
  }

  /** The masking scan started at `p` stops at `q` on its way. */
  ghost predicate Reaches(s: string, v: Variant, p: nat, q: nat)
    requires p <= |s|
    decreases |s| - p
  {
    p == q || (p < q && p < |s| && Reaches(s, v, Step(s, v, p), q))
  }

  /** The masked text of `s[p..]`. */
  function MaskFrom(s: string, v: Variant, p: nat): (r: string)
    requires p <= |s|
    ensures |r| == |s| - p
    ensures forall i :: 0 <= i < |r| ==> r[i] == s[p + i] || r[i] == ' '
    decreases |s| - p
  {
    if p == |s| then []
    else match MatchAt(s, v, p)
      case Some(e) => Spaces(e - p) + MaskFrom(s, v, e)
      case None => [s[p]] + MaskFrom(s, v, p + 1)
  }

  /** `maskCommentsAndStrings`: same length, and every character is either
      the original one or a blank, so offsets into the result are offsets
      into the input. */
  function Mask(s: string, v: Variant): (r: string)
    ensures |r| == |s|
    ensures forall i :: 0 <= i < |s| ==> r[i] == s[i] || r[i] == ' '
  {
    MaskFrom(s, v, 0)
  }

  lemma {:induction false} ReachesStep(s: string, v: Variant, p: nat, q: nat)
    requires q < |s| && p <= q && Reaches(s, v, p, q)
    ensures Reaches(s, v, p, Step(s, v, q))
    decreases |s| - p
  {
    if p < q {
      ReachesStep(s, v, Step(s, v, p), q);
    }
  }

  /** From a position the scan reaches, the masked text is the masking of
      the rest. */
  lemma {:induction false} MaskSuffix(s: string, v: Variant, p: nat, q: nat)
    requires p <= q <= |s| && Reaches(s, v, p, q)
    ensures MaskFrom(s, v, p)[q - p..] == MaskFrom(s, v, q)
    decreases |s| - p
  {
    if p < q {
      var n := Step(s, v, p);
      MaskSuffix(s, v, n, q);
      var whole := MaskFrom(s, v, p);
      assert whole[n - p..] == MaskFrom(s, v, n);
      assert whole[q - p..] == whole[n - p..][q - n..];
    }
  }

  /** At a reached position where a comment or string matches, the whole
      match is blank in the output. */
  lemma MaskedMatch(s: string, v: Variant, p: nat, e: nat)
    requires p < |s| && Reaches(s, v, 0, p) && MatchAt(s, v, p) == Some(e)
    ensures forall i :: p <= i < e ==> Mask(s, v)[i] == ' '
  {
    MaskFromMatch(s, v, p, e);
    MaskedSpan(s, v, p, e);
  }

  lemma MaskedSpan(s: string, v: Variant, p: nat, e: nat)
    requires p <= e <= |s| && Reaches(s, v, 0, p) && MaskFrom(s, v, p) == Spaces(e - p) + MaskFrom(s, v, e)
    ensures forall i :: p <= i < e ==> Mask(s, v)[i] == ' '
  {
    MaskSuffix(s, v, 0, p);
    BlankPrefix(Mask(s, v), MaskFrom(s, v, p), p, e - p, MaskFrom(s, v, e));
  }

  /** A match at `p` is replaced by as many blanks as it is long. */
  lemma MaskFromMatch(s: string, v: Variant, p: nat, e: nat)
    requires p < |s| && MatchAt(s, v, p) == Some(e)
    ensures MaskFrom(s, v, p) == Spaces(e - p) + MaskFrom(s, v, e)
  {
  }

  /** A text whose part from `p` on starts with `n` blanks is blank on
      `[p, p + n)`. */
  lemma BlankPrefix(whole: string, rest: string, p: nat, n: nat, tail: string)
    requires p <= |whole| && whole[p..] == rest && rest == Spaces(n) + tail
    ensures forall i :: p <= i < p + n ==> whole[i] == ' '
  {
    forall i | p <= i < p + n
      ensures whole[i] == ' '
    {
      assert whole[i] == whole[p..][i - p];
    }
  }

  /** At a reached position where nothing matches, the character is kept. */
  lemma KeptChar(s: string, v: Variant, p: nat)
    requires p < |s| && Reaches(s, v, 0, p) && MatchAt(s, v, p).None?
    ensures Mask(s, v)[p] == s[p]
  {
    MaskSuffix(s, v, 0, p);
    assert Mask(s, v)[p] == MaskFrom(s, v, p)[0];
  }

  /** A line terminator never starts a match. */
  lemma TerminatorKept(s: string, v: Variant, p: nat)
    requires p < |s| && Reaches(s, v, 0, p) && IsLineTerminator(s[p])
    ensures Mask(s, v)[p] == s[p]
  {
    NoCommentOpener(s, p);
    assert MatchAt(s, v, p).None?;
    KeptChar(s, v, p);
  }

  /** No comment opener starts at a character other than `/`. */
  lemma NoCommentOpener(s: string, p: nat)
    requires p < |s| && s[p] != '/'
    ensures !StartsAt(s, p, "//") && !StartsAt(s, p, "/*")
  {
    if p + 2 <= |s| {
      assert s[p..p + 2][0] == s[p];
    }
  }

  /** `//` comments are blanked up to, but not including, the next line
      terminator, which itself is kept. */
  lemma LineCommentMasked(s: string, v: Variant, p: nat)
    requires p < |s| && Reaches(s, v, 0, p) && StartsAt(s, p, "//")
    ensures forall i :: p <= i < LineEnd(s, p + 2) ==> Mask(s, v)[i] == ' '
    ensures LineEnd(s, p + 2) < |s| ==> Mask(s, v)[LineEnd(s, p + 2)] == s[LineEnd(s, p + 2)]
  {
    var e := LineEnd(s, p + 2);
    MaskedMatch(s, v, p, e);
    if e < |s| {
      ReachesStep(s, v, 0, p);
      TerminatorKept(s, v, e);
    }
  }

  /** `#` comments are blanked up to, but not including, the next line
      terminator, which itself is kept. */
  lemma HashCommentMasked(s: string, v: Variant, p: nat)
    requires p < |s| && Reaches(s, v, 0, p) && s[p] == '#'
    ensures forall i :: p <= i < LineEnd(s, p + 1) ==> Mask(s, v)[i] == ' '
    ensures LineEnd(s, p + 1) < |s| ==> Mask(s, v)[LineEnd(s, p + 1)] == s[LineEnd(s, p + 1)]
  {
    var e := LineEnd(s, p + 1);
    NoCommentOpener(s, p);
    assert MatchAt(s, v, p) == Some(e);
    MaskedMatch(s, v, p, e);
    if e < |s| {
      ReachesStep(s, v, 0, p);
      TerminatorKept(s, v, e);
    }
  }

  /** A block comment with a closer is blanked through the first closer. */
  lemma BlockCommentMasked(s: string, v: Variant, p: nat, j: nat)
    requires p < |s| && Reaches(s, v, 0, p) && StartsAt(s, p, "/*")
    requires p + 2 <= j && ClosesAt(s, j)
    requires forall k :: p + 2 <= k < j ==> !ClosesAt(s, k)
    ensures forall i :: p <= i < j + 2 ==> Mask(s, v)[i] == ' '
  {
    var b := BlockEnd(s, p + 2);
    assert b.Some?;
    assert b.value == j + 2;
    MaskedMatch(s, v, p, j + 2);
  }

  /** A block comment without a closer is not masked: its opener is kept
      and scanning continues inside it. */
  lemma UnclosedBlockKept(s: string, v: Variant, p: nat)
    requires p < |s| && Reaches(s, v, 0, p) && StartsAt(s, p, "/*")
    requires forall k :: p + 2 <= k < |s| ==> !ClosesAt(s, k)
    ensures Mask(s, v)[p] == '/' && Mask(s, v)[p + 1] == '*'
    ensures Reaches(s, v, 0, p + 2)
  {
    assert s[p] == '/' && s[p + 1] == '*' by {
      assert s[p..p + 2][0] == s[p] && s[p..p + 2][1] == s[p + 1];
    }
    UnclosedOpenerNoMatch(s, v, p);
    KeptAndNext(s, v, p);
    StarNoMatch(s, v, p + 1);
    KeptAndNext(s, v, p + 1);
  }

  /** Where nothing matches, the character is kept and the scan moves on
      by one. */
  lemma KeptAndNext(s: string, v: Variant, p: nat)
    requires p < |s| && Reaches(s, v, 0, p) && MatchAt(s, v, p).None?
    ensures Mask(s, v)[p] == s[p]
    ensures Reaches(s, v, 0, p + 1)
  {
    KeptChar(s, v, p);
    ReachesStep(s, v, 0, p);
  }

  lemma UnclosedOpenerNoMatch(s: string, v: Variant, p: nat)
    requires p + 1 < |s| && s[p] == '/' && s[p + 1] == '*'
    requires forall k :: p + 2 <= k < |s| ==> !ClosesAt(s, k)
    ensures MatchAt(s, v, p).None?
  {
    assert !StartsAt(s, p, "//") by { assert s[p..p + 2][1] == s[p + 1]; }
    assert BlockEnd(s, p + 2).None?;
    assert s[p] !in Quotes(v);
  }

  lemma StarNoMatch(s: string, v: Variant, p: nat)
    requires p < |s| && s[p] == '*'
    ensures MatchAt(s, v, p).None?
  {
    assert !StartsAt(s, p, "//") && !StartsAt(s, p, "/*") by {
      if p + 2 <= |s| { assert s[p..p + 2][0] == s[p]; }
    }
    assert s[p] !in Quotes(v);
  }

  /** A string literal is blanked through its closing quote. */
  lemma StringMasked(s: string, v: Variant, p: nat)
    requires p < |s| && Reaches(s, v, 0, p) && s[p] in Quotes(v)
    requires QuoteEnd(s, s[p], p + 1).Some?
    ensures forall i :: p <= i < QuoteEnd(s, s[p], p + 1).value ==> Mask(s, v)[i] == ' '
  {
    assert s[p] != '/' && s[p] != '#';
    NoCommentOpener(s, p);
    assert MatchAt(s, v, p) == QuoteEnd(s, s[p], p + 1);
    MaskedMatch(s, v, p, QuoteEnd(s, s[p], p + 1).value);
  }

  /** A quote that starts no complete string is kept, and scanning goes on
      with the next character. */
  lemma UnmatchedQuoteKept(s: string, v: Variant, p: nat)
    requires p < |s| && Reaches(s, v, 0, p) && s[p] in Quotes(v)
    requires QuoteEnd(s, s[p], p + 1).None?
    ensures Mask(s, v)[p] == s[p]
    ensures Reaches(s, v, 0, p + 1)
  {
    assert s[p] != '/' && s[p] != '#';
    NoCommentOpener(s, p);
    assert MatchAt(s, v, p) == QuoteEnd(s, s[p], p + 1);
    KeptAndNext(s, v, p);
  }

  /** The Legacy masker does not know backtick strings. */
  lemma BacktickKeptByLegacy(s: string, p: nat)
    requires p < |s| && Reaches(s, Legacy, 0, p) && s[p] == '`'
    ensures Mask(s, Legacy)[p] == '`'
  {
    NoCommentOpener(s, p);
    assert s[p] !in Quotes(Legacy);
    KeptChar(s, Legacy, p);
  }

  /** Text without comment openers or quotes comes out unchanged. */
  lemma {:induction false} PlainTextUnchanged(s: string, v: Variant, p: nat)
    requires p <= |s|
    requires forall i :: p <= i < |s| ==> s[i] != '/' && s[i] != '#' && s[i] !in Quotes(v)
    ensures MaskFrom(s, v, p) == s[p..]
    decreases |s| - p
  {
    if p < |s| {
      assert !StartsAt(s, p, "//") && !StartsAt(s, p, "/*") by {
        if p + 2 <= |s| { assert s[p..p + 2][0] == s[p]; }
      }
      assert MatchAt(s, v, p).None?;
      PlainTextUnchanged(s, v, p + 1);
    }
  }
}
