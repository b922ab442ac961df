/** Character classes and small string helpers shared by the scanners.

    The checker's regular expressions are modelled as explicit left-to-right
    scanners; the character classes they use are defined here once.
    Only '\n' and '\r' are treated as line terminators, and `\s` is the
    ASCII whitespace set. */
module Lexical {

  datatype Option<T> = None | Some(value: T)

  /** The two source revisions of the checker. `Current` is the compiled
      out/extension.js, `Legacy` the older src/extension.ts. */
  datatype Variant = Current | Legacy

  /** Characters that end `.` in a JavaScript pattern (restricted to ASCII). */
  predicate IsLineTerminator(c: char) {
    c == '\n' || c == '\r'
  }

  /** `\w`: the characters `\b` considers part of a word. */
  predicate IsWordChar(c: char) {
    'A' <= c <= 'Z' || 'a' <= c <= 'z' || '0' <= c <= '9' || c == '_'
  }

  predicate IsUpper(c: char) {
    'A' <= c <= 'Z'
  }

  /** `[A-Z0-9_]`: what may follow the first letter of a constant name. */
  predicate IsConstantChar(c: char) {
    IsUpper(c) || '0' <= c <= '9' || c == '_'
  }

  /** `\s`, restricted to ASCII whitespace. */
  predicate IsSpace(c: char) {
    c == ' ' || c == '\t' || c == '\n' || c == '\r' || c == '\U{000B}' || c == '\U{000C}'
  }

  /** `[A-Z][A-Z0-9_]*`: the shape of a constant reference. */
  predicate IsConstantName(w: string) {
    |w| > 0 && IsUpper(w[0]) && forall i :: 0 <= i < |w| ==> IsConstantChar(w[i])
  }

  /** `w` occurs in `s` at offset `p`. */
  predicate StartsAt(s: string, p: nat, w: string) {
    p + |w| <= |s| && s[p..p + |w|] == w
  }

  /** `n` blanks: what a masked span is replaced by. */
  function Spaces(n: nat): (r: string)
    ensures |r| == n
    ensures forall i :: 0 <= i < n ==> r[i] == ' '
  {
    if n == 0 then [] else [' '] + Spaces(n - 1)
  }
}
