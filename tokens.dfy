/** Candidate constants: the pattern `\b[A-Z][A-Z0-9_]*\b` run with `exec`
    over a masked region. Because `[A-Z0-9_]*` is greedy and both ends need
    a word boundary, a match is exactly a whole word (a maximal run of
    `[A-Za-z0-9_]`) that starts with `A-Z` and holds only `[A-Z0-9_]`. */
module Tokens {
  import opened Lexical

  /** A candidate at offset `start` of the scanned text. */
  datatype Token = Token(start: nat, name: string)

  /** End of the run of word characters starting at `k`. */
  function WordEnd(s: string, k: nat): (e: nat)
    requires k <= |s|
    ensures k <= e <= |s|
    ensures forall j :: k <= j < e ==> IsWordChar(s[j])
    ensures e == |s| || !IsWordChar(s[e])
    decreases |s| - k
  {
    if k == |s| || !IsWordChar(s[k]) then k else WordEnd(s, k + 1)
  }

  /** A match of the pattern starts at `k`. */
  predicate IsTokenStart(s: string, k: nat) {
    k < |s| && (k == 0 || !IsWordChar(s[k - 1])) && IsUpper(s[k]) &&
    forall j :: k <= j < WordEnd(s, k) ==> IsConstantChar(s[j])
  }

  /** One `exec` from `from`: the first match at or after `from`. */
  function NextToken(s: string, from: nat): (r: Option<Token>)
    requires from <= |s|
    ensures r.Some? ==> from <= r.value.start < r.value.start + |r.value.name| <= |s|
    decreases |s| - from
  {
    if from == |s| then None
    else if IsTokenStart(s, from) then Some(Token(from, s[from..WordEnd(s, from)]))
    else NextToken(s, from + 1)
  }

  /** `exec` reports a match with its whole word. */
  lemma {:induction false} NextTokenFound(s: string, from: nat)
    requires from <= |s|
    ensures var r := NextToken(s, from);
      r.Some? ==> IsTokenStart(s, r.value.start) && r.value.name == s[r.value.start..WordEnd(s, r.value.start)]
    decreases |s| - from
  {
    if from < |s| && !IsTokenStart(s, from) {
      NextTokenFound(s, from + 1);
    }
  }

  /** `exec` finds the leftmost match at or after `from`, and finds none
      exactly when there is none. */
  lemma {:induction false} NextTokenLeftmost(s: string, from: nat)
    requires from <= |s|
    ensures var r := NextToken(s, from);
      r.Some? ==> forall k :: from <= k < r.value.start ==> !IsTokenStart(s, k)
    ensures NextToken(s, from).None? ==> forall k :: from <= k < |s| ==> !IsTokenStart(s, k)
    decreases |s| - from
  {
    if from < |s| && !IsTokenStart(s, from) {
      NextTokenLeftmost(s, from + 1);
    }
  }

  /** A match at `k` stops the search from any earlier position at or
      before `k`. */
  lemma {:induction false} NextTokenAtMost(s: string, from: nat, k: nat)
    requires from <= k && IsTokenStart(s, k)
    ensures NextToken(s, from).Some? && NextToken(s, from).value.start <= k
    decreases k - from
  {
    if from < k && !IsTokenStart(s, from) {
      NextTokenAtMost(s, from + 1, k);
    }
  }

  /** A token is a whole word of the constant shape. */
  lemma TokenIsWholeWord(s: string, k: nat)
    requires IsTokenStart(s, k)
    ensures IsConstantName(s[k..WordEnd(s, k)])
    ensures k == 0 || !IsWordChar(s[k - 1])
    ensures WordEnd(s, k) == |s| || !IsWordChar(s[WordEnd(s, k)])
  {
    var w := s[k..WordEnd(s, k)];
    forall i | 0 <= i < |w| ensures IsConstantChar(w[i]) {
      assert w[i] == s[k + i];
    }
  }

  /** Matches do not overlap: a match that `exec` passes over ends before
      the next match starts. */
  lemma NextWordAfter(s: string, p: nat, k: nat)
    requires p < k && IsTokenStart(s, p) && IsTokenStart(s, k)
    ensures WordEnd(s, p) <= k
  {
  }
}
