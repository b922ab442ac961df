/** The scan-and-classify pass of `applyDecorations`, without the editor
    calls: find the regions, mask each one, find the candidate constants in
    the masked text, drop the excluded ones, and sort the rest into the
    defined and the undefined list as offset ranges of the document.

    `Scan` is the specification: every reported candidate in discovery
    order, flagged defined or not. `Classify` is the nested loop of the
    source, proved to produce exactly the two filtered views of `Scan`. */
module Scanner {
  import opened Lexical
  import opened Masking
  import opened Regions
  import opened Tokens
  import opened Definitions

  /** Offsets `[start, end)` of the document (a `vscode.Range` before it is
      converted to line and column). */
  datatype Range = Range(start: nat, end: nat)

  /** A reported candidate and whether its name is defined. */
  datatype Hit = Hit(range: Range, defined: bool)

  // ---------------------------------------------------------------------
  // Exclusion rules

  /** The candidate at `k` is a variable (`$NAME`), a static member
      (`::NAME`) or an object member (`->NAME`). */
  predicate PrecededByAccess(text: string, k: nat) {
    k <= |text| && ((k >= 1 && text[k - 1] == '$') ||
    (k >= 2 && text[k - 2] == ':' && text[k - 1] == ':') ||
    (k >= 2 && text[k - 2] == '-' && text[k - 1] == '>'))
  }

  /** Names starting with `TXT_CHAR` or `TEXT` are never reported. The two
      prefix tests are spelled out character by character. */
  predicate HasIgnoredPrefix(name: string) {
    (|name| >= 8 && name[0] == 'T' && name[1] == 'X' && name[2] == 'T' && name[3] == '_' &&
     name[4] == 'C' && name[5] == 'H' && name[6] == 'A' && name[7] == 'R') ||
    (|name| >= 4 && name[0] == 'T' && name[1] == 'E' && name[2] == 'X' && name[3] == 'T')
  }

  /** The spelled-out test is `startsWith("TXT_CHAR") || startsWith("TEXT")`. */
  lemma IgnoredPrefixIsStartsWith(name: string)
    ensures HasIgnoredPrefix(name) <==> "TXT_CHAR" <= name || "TEXT" <= name
  {
    if |name| >= 8 && "TXT_CHAR" == name[..8] {
      assert name[..8][7] == name[7];
    }
    if |name| >= 4 && "TEXT" == name[..4] {
      assert name[..4][3] == name[3];
    }
  }

  /** One of the three rules drops the candidate `name` found at `k`. */
  predicate Skipped(text: string, k: nat, name: string, excluded: set<string>) {
    PrecededByAccess(text, k) || HasIgnoredPrefix(name) || name in excluded
  }

  // ---------------------------------------------------------------------
  // Specification of the pass

  /** The masked text of a region. */
  function MaskedRegion(text: string, v: Variant, r: Region): (m: string)
    requires r.start <= r.end <= |text|
    ensures |m| == r.end - r.start
    ensures forall i :: 0 <= i < |m| ==> m[i] == text[r.start + i] || m[i] == ' '
  {
    Mask(text[r.start..r.end], v)
  }

  /** The hit a token of a region starting at `base` yields, if any. */
  function TokenHit(text: string, base: nat, t: Token, defined: set<string>, excluded: set<string>): seq<Hit> {
    if Skipped(text, base + t.start, t.name, excluded) then []
    else [Hit(Range(base + t.start, base + t.start + |t.name|), t.name in defined)]
  }

  /** The hits repeated `exec` yields from `index` of the masked code `m`
      of a region starting at `base`. */
  function HitsFrom(text: string, base: nat, m: string, index: nat, defined: set<string>, excluded: set<string>): seq<Hit>
    requires index <= |m|
    decreases |m| - index
  {
    match NextToken(m, index)
    case None => []
    case Some(t) => TokenHit(text, base, t, defined, excluded) + HitsFrom(text, base, m, t.start + |t.name|, defined, excluded)
  }

  /** What one region contributes. */
  function RegionHits(text: string, v: Variant, r: Region, defined: set<string>, excluded: set<string>): seq<Hit>
    requires r.start <= r.end <= |text|
  {
    HitsFrom(text, r.start, MaskedRegion(text, v, r), 0, defined, excluded)
  }

  predicate RegionsFit(text: string, rs: seq<Region>) {
    forall i :: 0 <= i < |rs| ==> rs[i].start <= rs[i].end <= |text|
  }

  /** The regions found lie within the document. */
  lemma RegionsFromFit(text: string, from: nat)
    requires from <= |text|
    ensures RegionsFit(text, RegionsFrom(text, from))
  {
    RegionsFromMatched(text, from);
  }

  function RegionsHits(text: string, v: Variant, rs: seq<Region>, defined: set<string>, excluded: set<string>): seq<Hit>
    requires RegionsFit(text, rs)
    decreases |rs|
  {
    if |rs| == 0 then []
    else RegionHits(text, v, rs[0], defined, excluded) + RegionsHits(text, v, rs[1..], defined, excluded)
  }

  /** Every reported candidate of the document, in discovery order. */
  function Scan(text: string, v: Variant, defined: set<string>, excluded: set<string>): seq<Hit> {
    RegionsFromFit(text, 0);
    RegionsHits(text, v, RegionsFrom(text, 0), defined, excluded)
  }

  function DefinedOf(hs: seq<Hit>): seq<Range>
    decreases |hs|
  {
    if |hs| == 0 then []
    else (if hs[0].defined then [hs[0].range] else []) + DefinedOf(hs[1..])
  }

  function UndefinedOf(hs: seq<Hit>): seq<Range>
    decreases |hs|
  {
    if |hs| == 0 then []
    else (if hs[0].defined then [] else [hs[0].range]) + UndefinedOf(hs[1..])
  }

  lemma {:induction false} FilterAppend(a: seq<Hit>, b: seq<Hit>)
    ensures DefinedOf(a + b) == DefinedOf(a) + DefinedOf(b)
    ensures UndefinedOf(a + b) == UndefinedOf(a) + UndefinedOf(b)
    decreases |a|
  {
    if a != [] {
      assert (a + b)[0] == a[0];
      assert (a + b)[1..] == a[1..] + b;
      FilterAppend(a[1..], b);
    } else {
      assert a + b == b;
    }
  }

  /** The token loop of one region run from `index` onto the ranges
      collected so far: each match that no rule drops adds its range to the
      defined or the undefined ones. */
  function ClassifyFrom(text: string, base: nat, m: string, index: nat, defined: set<string>, excluded: set<string>,
                        definedRanges: seq<Range>, undefinedRanges: seq<Range>): (seq<Range>, seq<Range>)
    requires index <= |m|
    decreases |m| - index
  {
    match NextToken(m, index)
    case None => (definedRanges, undefinedRanges)
    case Some(t) =>
      var k := base + t.start;
      var r := Range(k, k + |t.name|);
      var keep := !Skipped(text, k, t.name, excluded);
      ClassifyFrom(text, base, m, t.start + |t.name|, defined, excluded,
                   if keep && t.name in defined then definedRanges + [r] else definedRanges,
                   if keep && t.name !in defined then undefinedRanges + [r] else undefinedRanges)
  }


  /** One `exec` of the loop run from `index` adds the filters of the hit
      of the match found. */
  lemma ClassifyFromStep(text: string, base: nat, m: string, index: nat, t: Token, defined: set<string>, excluded: set<string>,
                         definedRanges: seq<Range>, undefinedRanges: seq<Range>)
    requires index <= |m| && NextToken(m, index) == Some(t)
    ensures ClassifyFrom(text, base, m, index, defined, excluded, definedRanges, undefinedRanges) ==
      ClassifyFrom(text, base, m, t.start + |t.name|, defined, excluded,
                   definedRanges + DefinedOf(TokenHit(text, base, t, defined, excluded)),
                   undefinedRanges + UndefinedOf(TokenHit(text, base, t, defined, excluded)))
  {
    var here := TokenHit(text, base, t, defined, excluded);
    var r := Range(base + t.start, base + t.start + |t.name|);
    var keep := !Skipped(text, base + t.start, t.name, excluded);
    FiltersOfTokenHit(text, base, t, defined, excluded);
    PushIf(definedRanges, r, keep && t.name in defined, DefinedOf(here));
    PushIf(undefinedRanges, r, keep && t.name !in defined, UndefinedOf(here));
    ClassifyFromUnfold(text, base, m, index, t, defined, excluded, definedRanges, undefinedRanges);
  }

  lemma ClassifyFromUnfold(text: string, base: nat, m: string, index: nat, t: Token, defined: set<string>, excluded: set<string>,
                           definedRanges: seq<Range>, undefinedRanges: seq<Range>)
    requires index <= |m| && NextToken(m, index) == Some(t)
    ensures var r := Range(base + t.start, base + t.start + |t.name|);
      var keep := !Skipped(text, base + t.start, t.name, excluded);
      ClassifyFrom(text, base, m, index, defined, excluded, definedRanges, undefinedRanges) ==
      ClassifyFrom(text, base, m, t.start + |t.name|, defined, excluded,
                   if keep && t.name in defined then definedRanges + [r] else definedRanges,
                   if keep && t.name !in defined then undefinedRanges + [r] else undefinedRanges)
  {
  }

  /** The filters of the hit a match yields: its range on the side its
      definedness selects, unless a rule drops it. */
  lemma FiltersOfTokenHit(text: string, base: nat, t: Token, defined: set<string>, excluded: set<string>)
    ensures var r := Range(base + t.start, base + t.start + |t.name|);
      var keep := !Skipped(text, base + t.start, t.name, excluded);
      DefinedOf(TokenHit(text, base, t, defined, excluded)) == (if keep && t.name in defined then [r] else []) &&
      UndefinedOf(TokenHit(text, base, t, defined, excluded)) == (if keep && t.name !in defined then [r] else [])
  {
    var here := TokenHit(text, base, t, defined, excluded);
    if Skipped(text, base + t.start, t.name, excluded) {
      assert here == [];
    } else {
      var h := Hit(Range(base + t.start, base + t.start + |t.name|), t.name in defined);
      assert here == [h];
      FiltersOfHit(h);
    }
  }

  /** Appending `r` only when `push` holds is appending the list that holds
      `r` exactly when `push` does. */
  lemma PushIf(rs: seq<Range>, r: Range, push: bool, added: seq<Range>)
    requires added == (if push then [r] else [])
    ensures (if push then rs + [r] else rs) == rs + added
  {
    if !push {
      assert rs + [] == rs;
    }
  }


  /** The filters of a single hit. */
  lemma FiltersOfHit(h: Hit)
    ensures DefinedOf([h]) == (if h.defined then [h.range] else [])
    ensures UndefinedOf([h]) == (if h.defined then [] else [h.range])
  {
    assert [h][1..] == [];
  }


  /** The loop run from `index` appends exactly the two filters of the hits
      found from `index` to what it has collected. */
  lemma {:induction false} ClassifyFromFilters(text: string, base: nat, m: string, index: nat, defined: set<string>,
                                               excluded: set<string>, definedRanges: seq<Range>, undefinedRanges: seq<Range>)
    requires index <= |m|
    ensures ClassifyFrom(text, base, m, index, defined, excluded, definedRanges, undefinedRanges) ==
      (definedRanges + DefinedOf(HitsFrom(text, base, m, index, defined, excluded)),
       undefinedRanges + UndefinedOf(HitsFrom(text, base, m, index, defined, excluded)))
    decreases |m| - index
  {
    match NextToken(m, index)
    case None =>
      var now := HitsFrom(text, base, m, index, defined, excluded);
      assert ClassifyFrom(text, base, m, index, defined, excluded, definedRanges, undefinedRanges) == (definedRanges, undefinedRanges);
      assert now == [];
      assert DefinedOf(now) == [] && UndefinedOf(now) == [];
      assert definedRanges + DefinedOf(now) == definedRanges && undefinedRanges + UndefinedOf(now) == undefinedRanges;
    case Some(t) =>
      var here := TokenHit(text, base, t, defined, excluded);
      ClassifyFromFilters(text, base, m, t.start + |t.name|, defined, excluded,
                          definedRanges + DefinedOf(here), undefinedRanges + UndefinedOf(here));
      ClassifyFromFiltersStep(text, base, m, index, t, defined, excluded, definedRanges, undefinedRanges);
  }

  /** The step of `ClassifyFromFilters` for a match `t`, given the claim
      for the rest of the region. */
  lemma ClassifyFromFiltersStep(text: string, base: nat, m: string, index: nat, t: Token, defined: set<string>,
                                excluded: set<string>, definedRanges: seq<Range>, undefinedRanges: seq<Range>)
    requires index <= |m| && NextToken(m, index) == Some(t)
    requires var here := TokenHit(text, base, t, defined, excluded);
      var later := HitsFrom(text, base, m, t.start + |t.name|, defined, excluded);
      ClassifyFrom(text, base, m, t.start + |t.name|, defined, excluded,
                   definedRanges + DefinedOf(here), undefinedRanges + UndefinedOf(here)) ==
        ((definedRanges + DefinedOf(here)) + DefinedOf(later), (undefinedRanges + UndefinedOf(here)) + UndefinedOf(later))
    ensures ClassifyFrom(text, base, m, index, defined, excluded, definedRanges, undefinedRanges) ==
      (definedRanges + DefinedOf(HitsFrom(text, base, m, index, defined, excluded)),
       undefinedRanges + UndefinedOf(HitsFrom(text, base, m, index, defined, excluded)))
  {
    var here := TokenHit(text, base, t, defined, excluded);
    var later := HitsFrom(text, base, m, t.start + |t.name|, defined, excluded);
    var now := HitsFrom(text, base, m, index, defined, excluded);
    ClassifyFromStep(text, base, m, index, t, defined, excluded, definedRanges, undefinedRanges);
    HitsFromStep(text, base, m, index, t, defined, excluded);
    FilterAppend(here, later);
    RegroupPair(ClassifyFrom(text, base, m, index, defined, excluded, definedRanges, undefinedRanges),
                definedRanges, undefinedRanges, DefinedOf(here), UndefinedOf(here),
                DefinedOf(later), UndefinedOf(later), DefinedOf(now), UndefinedOf(now));
  }

  /** Regrouping the two concatenations of a pair of range lists. */
  lemma RegroupPair(c: (seq<Range>, seq<Range>), definedRanges: seq<Range>, undefinedRanges: seq<Range>,
                    definedHere: seq<Range>, undefinedHere: seq<Range>, definedLater: seq<Range>, undefinedLater: seq<Range>,
                    definedNow: seq<Range>, undefinedNow: seq<Range>)
    requires c == ((definedRanges + definedHere) + definedLater, (undefinedRanges + undefinedHere) + undefinedLater)
    requires definedNow == definedHere + definedLater && undefinedNow == undefinedHere + undefinedLater
    ensures c == (definedRanges + definedNow, undefinedRanges + undefinedNow)
  {
    assert (definedRanges + definedHere) + definedLater == definedRanges + (definedHere + definedLater);
    assert (undefinedRanges + undefinedHere) + undefinedLater == undefinedRanges + (undefinedHere + undefinedLater);
  }



  /** The filters of the done hits grow by those of a region's hits. */
  lemma RegionAdvance(done: seq<Hit>, here: seq<Hit>, later: seq<Hit>, all: seq<Hit>, todo: seq<Hit>)
    requires done + todo == all && todo == here + later
    ensures (done + here) + later == all
    ensures DefinedOf(done + here) == DefinedOf(done) + DefinedOf(here)
    ensures UndefinedOf(done + here) == UndefinedOf(done) + UndefinedOf(here)
  {
    assert (done + here) + later == done + (here + later);
    FilterAppend(done, here);
  }

  /** One `exec` of the region loop. */
  lemma RegionStep(text: string, v: Variant, from: nat, defined: set<string>, excluded: set<string>)
    requires from <= |text| && NextRegion(text, from).Some?
    ensures var r := NextRegion(text, from).value;
      RegionsFit(text, RegionsFrom(text, from)) && RegionsFit(text, RegionsFrom(text, r.end)) &&
      RegionsHits(text, v, RegionsFrom(text, from), defined, excluded)
        == RegionHits(text, v, r, defined, excluded) + RegionsHits(text, v, RegionsFrom(text, r.end), defined, excluded)
  {
    var r := NextRegion(text, from).value;
    RegionsFromFit(text, from);
    RegionsFromFit(text, r.end);
    var rs := RegionsFrom(text, from);
    assert rs == [r] + RegionsFrom(text, r.end);
    assert rs[0] == r && rs[1..] == RegionsFrom(text, r.end);
  }

  // ---------------------------------------------------------------------
  // The pass

  /** The outer loop of `applyDecorations`: regions found by `exec`, each
      masked and handed to the token loop, results appended in order. */
  method Classify(text: string, v: Variant, defined: set<string>, excluded: set<string>)
    returns (definedRanges: seq<Range>, undefinedRanges: seq<Range>)
    ensures definedRanges == DefinedOf(Scan(text, v, defined, excluded))
    ensures undefinedRanges == UndefinedOf(Scan(text, v, defined, excluded))
  {
    RegionsFromFit(text, 0);
    ghost var all := Scan(text, v, defined, excluded);
    ghost var done: seq<Hit> := [];
    ghost var todo := all;
    definedRanges, undefinedRanges := [], [];
    var lastIndex := 0;
    while NextRegion(text, lastIndex).Some?
      invariant lastIndex <= |text|
      invariant RegionsFit(text, RegionsFrom(text, lastIndex))
      invariant todo == RegionsHits(text, v, RegionsFrom(text, lastIndex), defined, excluded)
      invariant done + todo == all
      invariant definedRanges == DefinedOf(done) && undefinedRanges == UndefinedOf(done)
      decreases |text| - lastIndex
    {
      var phpMatch := NextRegion(text, lastIndex).value;
      RegionStep(text, v, lastIndex, defined, excluded);
      ghost var here := RegionHits(text, v, phpMatch, defined, excluded);
      ghost var later := RegionsHits(text, v, RegionsFrom(text, phpMatch.end), defined, excluded);
      RegionAdvance(done, here, later, all, todo);
      lastIndex := phpMatch.end;

      var phpStartIndex := phpMatch.start;
      var maskedPhpCode := Mask(text[phpMatch.start..phpMatch.end], v);
      var d, u := ClassifyTokens(text, phpStartIndex, maskedPhpCode, defined, excluded);
      definedRanges := definedRanges + d;
      undefinedRanges := undefinedRanges + u;
      done, todo := done + here, later;
    }
    assert todo == [];
    assert done == all;
  }

  /** The inner loop of `applyDecorations` over the masked code of one
      region that starts at `phpStartIndex`: tokens found by `exec`, each
      dropped by the filters or pushed onto one of the two lists. */
  method ClassifyTokens(text: string, phpStartIndex: nat, maskedPhpCode: string, defined: set<string>, excluded: set<string>)
    returns (definedRanges: seq<Range>, undefinedRanges: seq<Range>)
    requires phpStartIndex + |maskedPhpCode| <= |text|
    ensures definedRanges == DefinedOf(HitsFrom(text, phpStartIndex, maskedPhpCode, 0, defined, excluded))
    ensures undefinedRanges == UndefinedOf(HitsFrom(text, phpStartIndex, maskedPhpCode, 0, defined, excluded))
  {
    definedRanges, undefinedRanges := [], [];
    ghost var result := ClassifyFrom(text, phpStartIndex, maskedPhpCode, 0, defined, excluded, [], []);
    var index := 0;
    while NextToken(maskedPhpCode, index).Some?
      invariant index <= |maskedPhpCode|
      invariant ClassifyFrom(text, phpStartIndex, maskedPhpCode, index, defined, excluded, definedRanges, undefinedRanges) == result
      decreases |maskedPhpCode| - index
    {
      var match_ := NextToken(maskedPhpCode, index).value;
      index := match_.start + |match_.name|;

      var constant := match_.name;
      var constantStartIndex := phpStartIndex + match_.start;
      var constantEndIndex := constantStartIndex + |constant|;
      var exclude := IsExcluded(text, constantStartIndex, constant, excluded);
      if exclude {
        continue;
      }
      var range := Range(constantStartIndex, constantEndIndex);
      if constant in defined {
        definedRanges := definedRanges + [range];
      } else {
        undefinedRanges := undefinedRanges + [range];
      }
    }
    ClassifyFromFilters(text, phpStartIndex, maskedPhpCode, 0, defined, excluded, [], []);
  }

  /** The three filters of the token loop, in source order: the `exclude`
      flag set by a preceding `$`, `::` or `->`, then the ignored prefixes,
      then the exclusion list. */
  method IsExcluded(text: string, constantStartIndex: nat, constant: string, excluded: set<string>)
    returns (skip: bool)
    requires constantStartIndex <= |text|
    ensures skip <==> Skipped(text, constantStartIndex, constant, excluded)
  {
    var exclude := false;
    if constantStartIndex >= 1 && text[constantStartIndex - 1] == '$' {
      exclude := true;
    } else if constantStartIndex >= 2 && text[constantStartIndex - 2] == ':' && text[constantStartIndex - 1] == ':' {
      exclude := true;
    } else if constantStartIndex >= 2 && text[constantStartIndex - 2] == '-' && text[constantStartIndex - 1] == '>' {
      exclude := true;
    }
    if exclude {
      return true;
    }
    IgnoredPrefixIsStartsWith(constant);
    if "TXT_CHAR" <= constant || "TEXT" <= constant {
      return true;
    }
    if constant in excluded {
      return true;
    }
    return false;
  }

  /** Current variant: the defined names are the keys of `constantMap`,
      built from the loaded records; exclusions come from the settings. */
  method ApplyDecorations(text: string, constants: seq<Definition>, excludedConstants: seq<string>)
    returns (definedRanges: seq<Range>, undefinedRanges: seq<Range>)
    ensures definedRanges == DefinedOf(Scan(text, Current, Names(constants), set c | c in excludedConstants))
    ensures undefinedRanges == UndefinedOf(Scan(text, Current, Names(constants), set c | c in excludedConstants))
  {
    var constantMap := BuildIndex(constants);
    definedRanges, undefinedRanges := Classify(text, Current, constantMap.Keys, set c | c in excludedConstants);
  }

  /** The built-in names the Legacy variant never reports. */
  const PhpBuiltInConstants: seq<string> := [
    "E_ERROR", "E_WARNING", "E_PARSE", "E_NOTICE", "E_CORE_ERROR", "E_CORE_WARNING",
    "E_COMPILE_ERROR", "E_COMPILE_WARNING", "E_USER_ERROR", "E_USER_WARNING",
    "E_USER_NOTICE", "E_STRICT", "E_RECOVERABLE_ERROR", "E_DEPRECATED",
    "E_USER_DEPRECATED", "E_ALL", "PHP_VERSION", "PHP_OS", "PHP_EOL", "PHP_INT_MAX",
    "PHP_INT_MIN", "PHP_FLOAT_MAX", "PHP_FLOAT_MIN", "PHP_SAPI", "_SERVER", "_POST",
    "_GET", "_FILES", "_COOKIE", "_SESSION", "_REQUEST", "_ENV", "REQUEST_METHOD"
  ]

  /** Legacy variant: defined means present in the list of loaded names;
      exclusions are the fixed built-in list. */
  method ApplyDecorationsLegacy(text: string, constants: seq<string>)
    returns (definedRanges: seq<Range>, undefinedRanges: seq<Range>)
    ensures definedRanges == DefinedOf(Scan(text, Legacy, set c | c in constants, set c | c in PhpBuiltInConstants))
    ensures undefinedRanges == UndefinedOf(Scan(text, Legacy, set c | c in constants, set c | c in PhpBuiltInConstants))
  {
    definedRanges, undefinedRanges := Classify(text, Legacy, set c | c in constants, set c | c in PhpBuiltInConstants);
  }

  /** The Legacy pass reports no built-in constant: every range in either
      list covers a name of the document that `phpBuiltInConstants` does not
      hold. */
  lemma LegacyBuiltInsNeverReported(text: string, constants: seq<string>, r: Range)
    ensures var hs := Scan(text, Legacy, (set c | c in constants), (set c | c in PhpBuiltInConstants));
      r in DefinedOf(hs) || r in UndefinedOf(hs) ==>
        r.start < r.end <= |text| && text[r.start..r.end] !in PhpBuiltInConstants
  {
    var defined := set c | c in constants;
    var excluded := set c | c in PhpBuiltInConstants;
    var hs := Scan(text, Legacy, defined, excluded);
    FilterMembers(hs, r);
    ScanSpells(text, Legacy, defined, excluded);
    if r in DefinedOf(hs) || r in UndefinedOf(hs) {
      var i :| 0 <= i < |hs| && hs[i].range == r;
      assert Spells(text, defined, excluded, hs[i]);
    }
  }

  // ---------------------------------------------------------------------
  // Properties of the pass

  /** `h` is the hit of a match in the masked code `m` of a region that
      starts at `base`: the match starts a whole word of the constant shape,
      the range covers that word, no rule drops it, and the flag says
      whether the word is defined. */
  predicate FoundIn(text: string, base: nat, m: string, defined: set<string>, excluded: set<string>, h: Hit) {
    base <= h.range.start && h.range.start - base < |m| &&
    IsTokenStart(m, h.range.start - base) &&
    h.range.end == base + WordEnd(m, h.range.start - base) &&
    !Skipped(text, h.range.start, m[h.range.start - base..h.range.end - base], excluded) &&
    (h.defined <==> m[h.range.start - base..h.range.end - base] in defined)
  }

  /** Every hit found from `index` is a kept match at or after `index`. */
  lemma {:induction false} HitsFromSound(text: string, base: nat, m: string, index: nat, defined: set<string>, excluded: set<string>)
    requires index <= |m|
    ensures forall i :: 0 <= i < |HitsFrom(text, base, m, index, defined, excluded)| ==>
      base + index <= HitsFrom(text, base, m, index, defined, excluded)[i].range.start &&
      FoundIn(text, base, m, defined, excluded, HitsFrom(text, base, m, index, defined, excluded)[i])
    decreases |m| - index
  {
    match NextToken(m, index)
    case None =>
    case Some(t) =>
      NextTokenFound(m, index);
      var next := t.start + |t.name|;
      HitsFromSound(text, base, m, next, defined, excluded);
      var hs := HitsFrom(text, base, m, index, defined, excluded);
      var head := TokenHit(text, base, t, defined, excluded);
      var tail := HitsFrom(text, base, m, next, defined, excluded);
      assert hs == head + tail;
      TokenHitFound(text, base, m, t, defined, excluded);
      FoundAppend(text, base, m, defined, excluded, base + index, head, tail);
  }

  /** Two lists of hits found at or after `lo` make one. */
  lemma FoundAppend(text: string, base: nat, m: string, defined: set<string>, excluded: set<string>, lo: nat,
                    a: seq<Hit>, b: seq<Hit>)
    requires forall i :: 0 <= i < |a| ==> lo <= a[i].range.start && FoundIn(text, base, m, defined, excluded, a[i])
    requires forall i :: 0 <= i < |b| ==> lo <= b[i].range.start && FoundIn(text, base, m, defined, excluded, b[i])
    ensures forall i :: 0 <= i < |a + b| ==> lo <= (a + b)[i].range.start && FoundIn(text, base, m, defined, excluded, (a + b)[i])
  {
    forall i | 0 <= i < |a + b|
      ensures lo <= (a + b)[i].range.start && FoundIn(text, base, m, defined, excluded, (a + b)[i])
    {
      if i < |a| {
        assert (a + b)[i] == a[i];
      } else {
        assert (a + b)[i] == b[i - |a|];
      }
    }
  }

  /** The hit of a match, if kept, is found at the match. */
  lemma TokenHitFound(text: string, base: nat, m: string, t: Token, defined: set<string>, excluded: set<string>)
    requires IsTokenStart(m, t.start) && t.name == m[t.start..WordEnd(m, t.start)]
    ensures forall i :: 0 <= i < |TokenHit(text, base, t, defined, excluded)| ==>
      TokenHit(text, base, t, defined, excluded)[i].range.start == base + t.start &&
      FoundIn(text, base, m, defined, excluded, TokenHit(text, base, t, defined, excluded)[i])
  {
    if !Skipped(text, base + t.start, t.name, excluded) {
      var h := Hit(Range(base + t.start, base + t.start + |t.name|), t.name in defined);
      assert TokenHit(text, base, t, defined, excluded) == [h];
      FoundAtMatch(text, base, m, t, defined, excluded, h);
    } else {
      assert TokenHit(text, base, t, defined, excluded) == [];
    }
  }

  /** The hit of a kept match is found at the match. */
  lemma FoundAtMatch(text: string, base: nat, m: string, t: Token, defined: set<string>, excluded: set<string>, h: Hit)
    requires IsTokenStart(m, t.start) && t.name == m[t.start..WordEnd(m, t.start)]
    requires !Skipped(text, base + t.start, t.name, excluded)
    requires h == Hit(Range(base + t.start, base + t.start + |t.name|), t.name in defined)
    ensures FoundIn(text, base, m, defined, excluded, h)
  {
    assert h.range.start - base == t.start;
    assert h.range.end == base + WordEnd(m, t.start);
    assert m[h.range.start - base..h.range.end - base] == t.name;
  }

  /** Hits found from `index` come in document order without overlapping. */
  lemma {:induction false} HitsFromOrdered(text: string, base: nat, m: string, index: nat, defined: set<string>, excluded: set<string>)
    requires index <= |m|
    ensures Ordered(HitsFrom(text, base, m, index, defined, excluded))
    decreases |m| - index
  {
    match NextToken(m, index)
    case None =>
    case Some(t) =>
      var next := t.start + |t.name|;
      HitsFromOrdered(text, base, m, next, defined, excluded);
      HitsFromSound(text, base, m, next, defined, excluded);
      var hs := HitsFrom(text, base, m, index, defined, excluded);
      var head := TokenHit(text, base, t, defined, excluded);
      var tail := HitsFrom(text, base, m, next, defined, excluded);
      assert hs == head + tail;
      forall i, j | 0 <= i < j < |hs| ensures hs[i].range.end <= hs[j].range.start {
        assert hs[j] == tail[j - |head|];
        if i >= |head| {
          assert hs[i] == tail[i - |head|];
        }
      }
  }

  /** The hit of the whole word at `k` of the masked code `m` of a region
      starting at `base`. */
  function WordHit(base: nat, m: string, k: nat, defined: set<string>): Hit
    requires k <= |m|
  {
    Hit(Range(base + k, base + WordEnd(m, k)), m[k..WordEnd(m, k)] in defined)
  }

  /** One `exec` of the token loop: the hits from `index` are those of the
      match found there followed by those after it. */
  lemma HitsFromStep(text: string, base: nat, m: string, index: nat, t: Token, defined: set<string>, excluded: set<string>)
    requires index <= |m| && NextToken(m, index) == Some(t)
    ensures HitsFrom(text, base, m, index, defined, excluded)
      == TokenHit(text, base, t, defined, excluded) + HitsFrom(text, base, m, t.start + |t.name|, defined, excluded)
  {
  }

  /** A match at `k`, at or after `index`, that no rule drops yields its hit. */
  lemma {:induction false} HitsComplete(text: string, base: nat, m: string, index: nat, k: nat,
                                         defined: set<string>, excluded: set<string>)
    requires index <= k && IsTokenStart(m, k)
    requires !Skipped(text, base + k, m[k..WordEnd(m, k)], excluded)
    ensures WordHit(base, m, k, defined) in HitsFrom(text, base, m, index, defined, excluded)
    decreases |m| - index
  {
    NextTokenAtMost(m, index, k);
    NextTokenFound(m, index);
    var t := NextToken(m, index).value;
    if t.start == k {
      HitAtMatch(text, base, m, index, k, defined, excluded);
    } else {
      NextWordAfter(m, t.start, k);
      var next := t.start + |t.name|;
      var h := WordHit(base, m, k, defined);
      HitsComplete(text, base, m, next, k, defined, excluded);
      assert h in HitsFrom(text, base, m, next, defined, excluded);
      HitKeptLater(text, base, m, index, t, next, defined, excluded, h);
    }
  }

  /** A hit found after the next match is also found from `index`. */
  lemma HitKeptLater(text: string, base: nat, m: string, index: nat, t: Token, next: nat,
                     defined: set<string>, excluded: set<string>, h: Hit)
    requires index <= |m| && NextToken(m, index) == Some(t) && next == t.start + |t.name|
    requires h in HitsFrom(text, base, m, next, defined, excluded)
    ensures h in HitsFrom(text, base, m, index, defined, excluded)
  {
    HitsFromStep(text, base, m, index, t, defined, excluded);
  }

  /** The match `exec` finds next, if no rule drops it, yields its hit. */
  lemma HitAtMatch(text: string, base: nat, m: string, index: nat, k: nat, defined: set<string>, excluded: set<string>)
    requires k < |m| && index <= |m| && NextToken(m, index) == Some(Token(k, m[k..WordEnd(m, k)]))
    requires !Skipped(text, base + k, m[k..WordEnd(m, k)], excluded)
    ensures WordHit(base, m, k, defined) in HitsFrom(text, base, m, index, defined, excluded)
  {
    var t := Token(k, m[k..WordEnd(m, k)]);
    HitsFromStep(text, base, m, index, t, defined, excluded);
    assert TokenHit(text, base, t, defined, excluded) == [WordHit(base, m, k, defined)];
  }

  /** Ranges in document order, each ending before the next begins. */
  predicate Ordered(hs: seq<Hit>) {
    forall i, j :: 0 <= i < j < |hs| ==> hs[i].range.end <= hs[j].range.start
  }

  /** `h` is a hit of the region `r` of the document. */
  predicate ReportedIn(text: string, v: Variant, r: Region, defined: set<string>, excluded: set<string>, h: Hit) {
    r.start <= r.end <= |text| && FoundIn(text, r.start, MaskedRegion(text, v, r), defined, excluded, h)
  }

  /** A hit found in text `m` masked from `text[a..b]` lies inside `a..b`
      and names a constant that appears in the document itself, untouched by
      masking; no rule drops it and its flag is whether that name is
      defined. */
  lemma FoundInSpells(text: string, a: nat, b: nat, m: string, defined: set<string>, excluded: set<string>, h: Hit)
    requires a <= b <= |text| && |m| == b - a
    requires forall i :: 0 <= i < |m| ==> m[i] == text[a + i] || m[i] == ' '
    requires FoundIn(text, a, m, defined, excluded, h)
    ensures a <= h.range.start < h.range.end <= b
    ensures IsConstantName(text[h.range.start..h.range.end])
    ensures m[h.range.start - a..h.range.end - a] == text[h.range.start..h.range.end]
    ensures !Skipped(text, h.range.start, text[h.range.start..h.range.end], excluded)
    ensures h.defined <==> text[h.range.start..h.range.end] in defined
  {
    var k: nat := h.range.start - a;
    MaskedWord(text, a, b, m, k);
  }

  /** A match in text masked from `text[a..b]` is the original text there:
      masking blanks characters and keeps the rest, and a blank is never part
      of a word. */
  lemma MaskedWord(text: string, a: nat, b: nat, m: string, k: nat)
    requires a <= b <= |text| && |m| == b - a
    requires forall i :: 0 <= i < |m| ==> m[i] == text[a + i] || m[i] == ' '
    requires IsTokenStart(m, k)
    ensures k < WordEnd(m, k) && a + WordEnd(m, k) <= b
    ensures m[k..WordEnd(m, k)] == text[a + k..a + WordEnd(m, k)]
    ensures IsConstantName(text[a + k..a + WordEnd(m, k)])
  {
    var e := WordEnd(m, k);
    TokenIsWholeWord(m, k);
    forall i | k <= i < e ensures m[i] == text[a + i] {
      assert IsConstantChar(m[i]);
    }
    assert m[k..e] == text[a + k..a + e];
  }

  /** The hits of a list of regions come from those regions. */
  lemma {:induction false} RegionsHitsSound(text: string, v: Variant, rs: seq<Region>, defined: set<string>, excluded: set<string>)
    requires RegionsFit(text, rs)
    ensures forall i :: 0 <= i < |RegionsHits(text, v, rs, defined, excluded)| ==>
      exists j :: 0 <= j < |rs| && ReportedIn(text, v, rs[j], defined, excluded, RegionsHits(text, v, rs, defined, excluded)[i])
    decreases |rs|
  {
    if |rs| > 0 {
      var hs := RegionsHits(text, v, rs, defined, excluded);
      var head := RegionHits(text, v, rs[0], defined, excluded);
      var tail := RegionsHits(text, v, rs[1..], defined, excluded);
      assert hs == head + tail;
      RegionsHitsSound(text, v, rs[1..], defined, excluded);
      HitsFromSound(text, rs[0].start, MaskedRegion(text, v, rs[0]), 0, defined, excluded);
      forall i | 0 <= i < |hs|
        ensures exists j :: 0 <= j < |rs| && ReportedIn(text, v, rs[j], defined, excluded, hs[i])
      {
        if i < |head| {
          assert hs[i] == head[i];
          assert ReportedIn(text, v, rs[0], defined, excluded, hs[i]);
        } else {
          assert hs[i] == tail[i - |head|];
          var j :| 0 <= j < |rs[1..]| && ReportedIn(text, v, rs[1..][j], defined, excluded, tail[i - |head|]);
          assert rs[1..][j] == rs[j + 1];
          assert ReportedIn(text, v, rs[j + 1], defined, excluded, hs[i]);
        }
      }
    } else {
      assert RegionsHits(text, v, rs, defined, excluded) == [];
    }
  }

  /** Every hit of the document belongs to one of its regions. */
  lemma ScanSound(text: string, v: Variant, defined: set<string>, excluded: set<string>)
    ensures forall i :: 0 <= i < |Scan(text, v, defined, excluded)| ==>
      exists j :: 0 <= j < |RegionsFrom(text, 0)| &&
        ReportedIn(text, v, RegionsFrom(text, 0)[j], defined, excluded, Scan(text, v, defined, excluded)[i])
  {
    RegionsFromFit(text, 0);
    RegionsHitsSound(text, v, RegionsFrom(text, 0), defined, excluded);
    assert Scan(text, v, defined, excluded) == RegionsHits(text, v, RegionsFrom(text, 0), defined, excluded);
  }

  /** The hits of ordered regions, all starting at or after `lo`, are
      ordered and start at or after `lo`. */
  lemma {:induction false} RegionsHitsOrdered(text: string, v: Variant, rs: seq<Region>, lo: nat,
                                               defined: set<string>, excluded: set<string>)
    requires RegionsFit(text, rs)
    requires forall i :: 0 <= i < |rs| ==> lo <= rs[i].start
    requires forall i, j :: 0 <= i < j < |rs| ==> rs[i].end <= rs[j].start
    ensures forall i :: 0 <= i < |RegionsHits(text, v, rs, defined, excluded)| ==>
      lo <= RegionsHits(text, v, rs, defined, excluded)[i].range.start
    ensures Ordered(RegionsHits(text, v, rs, defined, excluded))
    decreases |rs|
  {
    if |rs| > 0 {
      var r := rs[0];
      var head := RegionHits(text, v, r, defined, excluded);
      var tail := RegionsHits(text, v, rs[1..], defined, excluded);
      assert RegionsHits(text, v, rs, defined, excluded) == head + tail;
      assert forall i :: 0 <= i < |rs[1..]| ==> rs[1..][i] == rs[i + 1];
      RegionsHitsOrdered(text, v, rs[1..], r.end, defined, excluded);
      RegionHitsWithin(text, v, r, defined, excluded);
      OrderedAppend(head, tail, lo, r.end);
    } else {
      assert RegionsHits(text, v, rs, defined, excluded) == [];
    }
  }

  /** The hits of a region lie inside it, in order. */
  lemma RegionHitsWithin(text: string, v: Variant, r: Region, defined: set<string>, excluded: set<string>)
    requires r.start <= r.end <= |text|
    ensures forall i :: 0 <= i < |RegionHits(text, v, r, defined, excluded)| ==>
      r.start <= RegionHits(text, v, r, defined, excluded)[i].range.start &&
      RegionHits(text, v, r, defined, excluded)[i].range.end <= r.end
    ensures Ordered(RegionHits(text, v, r, defined, excluded))
  {
    var m := MaskedRegion(text, v, r);
    HitsFromSound(text, r.start, m, 0, defined, excluded);
    HitsFromOrdered(text, r.start, m, 0, defined, excluded);
  }

  /** Two ordered runs of hits, the first ending by `mid` and the second
      starting there, make one ordered run. */
  lemma OrderedAppend(a: seq<Hit>, b: seq<Hit>, lo: nat, mid: nat)
    requires Ordered(a) && Ordered(b)
    requires forall i :: 0 <= i < |a| ==> lo <= a[i].range.start && a[i].range.end <= mid
    requires forall i :: 0 <= i < |b| ==> mid <= b[i].range.start
    requires lo <= mid
    ensures Ordered(a + b)
    ensures forall i :: 0 <= i < |a + b| ==> lo <= (a + b)[i].range.start
  {
    var c := a + b;
    forall i, j | 0 <= i < j < |c| ensures c[i].range.end <= c[j].range.start {
      if j < |a| {
        assert c[i] == a[i] && c[j] == a[j];
      } else if i < |a| {
        assert c[i] == a[i] && c[j] == b[j - |a|];
      } else {
        assert c[i] == b[i - |a|] && c[j] == b[j - |a|];
      }
    }
    forall i | 0 <= i < |c| ensures lo <= c[i].range.start {
      if i < |a| { assert c[i] == a[i]; } else { assert c[i] == b[i - |a|]; }
    }
  }

  /** The hits of the document come in document order without overlapping. */
  lemma ScanOrdered(text: string, v: Variant, defined: set<string>, excluded: set<string>)
    ensures Ordered(Scan(text, v, defined, excluded))
  {
    RegionsFromMatched(text, 0);
    RegionsFromOrdered(text, 0);
    RegionsHitsOrdered(text, v, RegionsFrom(text, 0), 0, defined, excluded);
  }

  /** A range is in the defined list exactly when a defined hit covers it,
      and in the undefined list exactly when an undefined hit does. */
  lemma {:induction false} FilterMembers(hs: seq<Hit>, r: Range)
    ensures r in DefinedOf(hs) <==> Hit(r, true) in hs
    ensures r in UndefinedOf(hs) <==> Hit(r, false) in hs
    decreases |hs|
  {
    if |hs| > 0 {
      FilterMembers(hs[1..], r);
      assert hs == [hs[0]] + hs[1..];
    }
  }

  /** Every hit lands in exactly one of the two lists. */
  lemma {:induction false} FilterSizes(hs: seq<Hit>)
    ensures |DefinedOf(hs)| + |UndefinedOf(hs)| == |hs|
    decreases |hs|
  {
    if |hs| > 0 {
      FilterSizes(hs[1..]);
    }
  }

  /** Ordered hits over non-empty ranges never cover one range twice, so no
      range is both defined and undefined. */
  lemma OrderedDisjoint(hs: seq<Hit>, r: Range)
    requires Ordered(hs)
    requires forall i :: 0 <= i < |hs| ==> hs[i].range.start < hs[i].range.end
    ensures !(r in DefinedOf(hs) && r in UndefinedOf(hs))
  {
    FilterMembers(hs, r);
  }

  /** What a reported range holds in the document: a whole constant name
      that no rule drops, flagged by whether it is defined. */
  predicate Spells(text: string, defined: set<string>, excluded: set<string>, h: Hit) {
    h.range.start < h.range.end <= |text| &&
    IsConstantName(text[h.range.start..h.range.end]) &&
    !Skipped(text, h.range.start, text[h.range.start..h.range.end], excluded) &&
    (h.defined <==> text[h.range.start..h.range.end] in defined)
  }

  /** Every hit found in text `m` masked from the document spells a constant. */
  lemma HitsFromSpell(text: string, base: nat, m: string, index: nat, defined: set<string>, excluded: set<string>)
    requires index <= |m| && base + |m| <= |text|
    requires forall i :: 0 <= i < |m| ==> m[i] == text[base + i] || m[i] == ' '
    ensures forall i :: 0 <= i < |HitsFrom(text, base, m, index, defined, excluded)| ==>
      Spells(text, defined, excluded, HitsFrom(text, base, m, index, defined, excluded)[i])
  {
    var hs := HitsFrom(text, base, m, index, defined, excluded);
    HitsFromSound(text, base, m, index, defined, excluded);
    forall i | 0 <= i < |hs| ensures Spells(text, defined, excluded, hs[i]) {
      FoundInSpells(text, base, base + |m|, m, defined, excluded, hs[i]);
    }
  }

  /** Every hit of a list of regions spells a constant. */
  lemma {:induction false} RegionsHitsSpell(text: string, v: Variant, rs: seq<Region>, defined: set<string>, excluded: set<string>)
    requires RegionsFit(text, rs)
    ensures forall i :: 0 <= i < |RegionsHits(text, v, rs, defined, excluded)| ==>
      Spells(text, defined, excluded, RegionsHits(text, v, rs, defined, excluded)[i])
    decreases |rs|
  {
    if |rs| > 0 {
      var hs := RegionsHits(text, v, rs, defined, excluded);
      var head := RegionHits(text, v, rs[0], defined, excluded);
      var tail := RegionsHits(text, v, rs[1..], defined, excluded);
      assert hs == head + tail;
      RegionsHitsSpell(text, v, rs[1..], defined, excluded);
      HitsFromSpell(text, rs[0].start, MaskedRegion(text, v, rs[0]), 0, defined, excluded);
      SpellsAppend(text, defined, excluded, head, tail);
    } else {
      assert RegionsHits(text, v, rs, defined, excluded) == [];
    }
  }

  /** Two lists of hits that spell constants make one. */
  lemma SpellsAppend(text: string, defined: set<string>, excluded: set<string>, a: seq<Hit>, b: seq<Hit>)
    requires forall i :: 0 <= i < |a| ==> Spells(text, defined, excluded, a[i])
    requires forall i :: 0 <= i < |b| ==> Spells(text, defined, excluded, b[i])
    ensures forall i :: 0 <= i < |a + b| ==> Spells(text, defined, excluded, (a + b)[i])
  {
    forall i | 0 <= i < |a + b| ensures Spells(text, defined, excluded, (a + b)[i]) {
      if i < |a| {
        assert (a + b)[i] == a[i];
      } else {
        assert (a + b)[i] == b[i - |a|];
      }
    }
  }

  /** Every reported range of the document spells a constant name that is
      not excluded, flagged by whether it is defined. */
  lemma ScanSpells(text: string, v: Variant, defined: set<string>, excluded: set<string>)
    ensures forall i :: 0 <= i < |Scan(text, v, defined, excluded)| ==>
      Spells(text, defined, excluded, Scan(text, v, defined, excluded)[i])
  {
    RegionsFromFit(text, 0);
    RegionsHitsSpell(text, v, RegionsFrom(text, 0), defined, excluded);
    assert Scan(text, v, defined, excluded) == RegionsHits(text, v, RegionsFrom(text, 0), defined, excluded);
  }

  /** The two lists split the hits: together they are as long as the hits,
      and no range is reported both defined and undefined. */
  lemma ScanPartition(text: string, v: Variant, defined: set<string>, excluded: set<string>, r: Range)
    ensures |DefinedOf(Scan(text, v, defined, excluded))| + |UndefinedOf(Scan(text, v, defined, excluded))|
      == |Scan(text, v, defined, excluded)|
    ensures !(r in DefinedOf(Scan(text, v, defined, excluded)) && r in UndefinedOf(Scan(text, v, defined, excluded)))
  {
    FilterSizes(Scan(text, v, defined, excluded));
    ScanOrdered(text, v, defined, excluded);
    ScanSpells(text, v, defined, excluded);
    OrderedDisjoint(Scan(text, v, defined, excluded), r);
  }

  /** The hits of a region are among those of any list of regions holding it. */
  lemma {:induction false} RegionsHitsContain(text: string, v: Variant, rs: seq<Region>, j: nat, h: Hit,
                                               defined: set<string>, excluded: set<string>)
    requires RegionsFit(text, rs) && j < |rs|
    requires h in RegionHits(text, v, rs[j], defined, excluded)
    ensures h in RegionsHits(text, v, rs, defined, excluded)
    decreases |rs|
  {
    var head := RegionHits(text, v, rs[0], defined, excluded);
    var tail := RegionsHits(text, v, rs[1..], defined, excluded);
    assert RegionsHits(text, v, rs, defined, excluded) == head + tail;
    if j > 0 {
      assert rs[1..][j - 1] == rs[j];
      RegionsHitsContain(text, v, rs[1..], j - 1, h, defined, excluded);
    }
    HitInAppend(h, head, tail, RegionsHits(text, v, rs, defined, excluded));
  }

  /** A hit of either part is a hit of the concatenation. */
  lemma HitInAppend(h: Hit, a: seq<Hit>, b: seq<Hit>, all: seq<Hit>)
    requires all == a + b && (h in a || h in b)
    ensures h in all
  {
  }

  /** Every match in the masked text of a region that no rule drops is
      among the region's hits. */
  lemma RegionComplete(text: string, v: Variant, r: Region, k: nat, defined: set<string>, excluded: set<string>)
    requires r.start <= r.end <= |text|
    requires IsTokenStart(MaskedRegion(text, v, r), k)
    requires !Skipped(text, r.start + k, MaskedRegion(text, v, r)[k..WordEnd(MaskedRegion(text, v, r), k)], excluded)
    ensures WordHit(r.start, MaskedRegion(text, v, r), k, defined) in RegionHits(text, v, r, defined, excluded)
  {
    HitsComplete(text, r.start, MaskedRegion(text, v, r), 0, k, defined, excluded);
  }

  /** Every whole word of the constant shape in the masked text of a region
      that no rule drops is reported, in the list its definedness selects. */
  lemma ScanComplete(text: string, v: Variant, defined: set<string>, excluded: set<string>, r: Region, m: string, k: nat)
    requires r in RegionsFrom(text, 0) && r.start <= r.end <= |text|
    requires m == MaskedRegion(text, v, r)
    requires IsTokenStart(m, k) && !Skipped(text, r.start + k, m[k..WordEnd(m, k)], excluded)
    ensures m[k..WordEnd(m, k)] in defined ==>
      Range(r.start + k, r.start + WordEnd(m, k)) in DefinedOf(Scan(text, v, defined, excluded))
    ensures m[k..WordEnd(m, k)] !in defined ==>
      Range(r.start + k, r.start + WordEnd(m, k)) in UndefinedOf(Scan(text, v, defined, excluded))
  {
    var h := WordHit(r.start, m, k, defined);
    RegionComplete(text, v, r, k, defined, excluded);
    RegionsFromFit(text, 0);
    var rs := RegionsFrom(text, 0);
    var j :| 0 <= j < |rs| && rs[j] == r;
    RegionsHitsContain(text, v, rs, j, h, defined, excluded);
    var hs := Scan(text, v, defined, excluded);
    assert hs == RegionsHits(text, v, rs, defined, excluded);
    assert h in hs;
    FilterMembers(hs, h.range);
    assert h.range == Range(r.start + k, r.start + WordEnd(m, k));
    assert h.defined == (m[k..WordEnd(m, k)] in defined);
    if h.defined {
      assert h == Hit(h.range, true);
      assert h.range in DefinedOf(hs);
    } else {
      assert h == Hit(h.range, false);
      assert h.range in UndefinedOf(hs);
    }
  }
}
