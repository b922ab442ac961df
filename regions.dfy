/** Embedded-code regions: the pattern
    `<\?php[\s\S]*?(?:\?>|$)|<\?=([\s\S]*?)(?:\?>|$)` run with `exec` over
    the whole document. A region opens at `<?php` or `<?=` and ends just
    after the first `?>` following the opener, or at the end of the text
    when there is none. Searching resumes where the previous region ended. */
module Regions {
  import opened Lexical

  /** A region as the offsets `[start, end)` of the document. */
  datatype Region = Region(start: nat, end: nat)

  predicate Inside(r: Region, p: nat) {
    r.start <= p < r.end
  }

  predicate OpensAt(s: string, p: nat) {
    StartsAt(s, p, "<?php") || StartsAt(s, p, "<?=")
  }

  predicate ClosingAt(s: string, j: nat) {
    StartsAt(s, j, "?>")
  }

  /** First offset after the opener at `p`. */
  function BodyStart(s: string, p: nat): (b: nat)
    requires OpensAt(s, p)
    ensures p < b <= |s|
  {
    if StartsAt(s, p, "<?php") then p + 5 else p + 3
  }

  /** The lazy `[\s\S]*?(?:\?>|$)` started at `j`: just past the first `?>`,
      or the end of the text. */
  function CloseFrom(s: string, j: nat): (e: nat)
    requires j <= |s|
    ensures j <= e <= |s|
    decreases |s| - j
  {
    if j == |s| then j
    else if ClosingAt(s, j) then j + 2
    else CloseFrom(s, j + 1)
  }

  /** The region ends at the end of the text when no `?>` follows, and just
      past the first `?>` otherwise. */
  lemma {:induction false} CloseFromSpec(s: string, j: nat)
    requires j <= |s|
    ensures var e := CloseFrom(s, j);
      (e == |s| && forall k :: j <= k < |s| ==> !ClosingAt(s, k)) ||
      (j + 2 <= e && ClosingAt(s, e - 2) && forall k :: j <= k < e - 2 ==> !ClosingAt(s, k))
    decreases |s| - j
  {
    if j < |s| && !ClosingAt(s, j) {
      CloseFromSpec(s, j + 1);
    }
  }

  /** The region the pattern matches at an opener. */
  function RegionAt(s: string, p: nat): (r: Region)
    requires OpensAt(s, p)
    ensures r.start == p < r.end <= |s|
  {
    Region(p, CloseFrom(s, BodyStart(s, p)))
  }

  /** One `exec` from `from`: the region at the first opener at or after `from`. */
  function NextRegion(s: string, from: nat): (r: Option<Region>)
    requires from <= |s|
    ensures r.Some? ==> from <= r.value.start < r.value.end <= |s|
    decreases |s| - from
  {
    if from == |s| then None
    else if OpensAt(s, from) then Some(RegionAt(s, from))
    else NextRegion(s, from + 1)
  }

  /** `exec` finds the region of the leftmost opener at or after `from`, and
      none exactly when there is no opener left. */
  lemma {:induction false} NextRegionSpec(s: string, from: nat)
    requires from <= |s|
    ensures var r := NextRegion(s, from);
      r.Some? ==> OpensAt(s, r.value.start) && r.value == RegionAt(s, r.value.start)
    ensures var r := NextRegion(s, from);
      r.Some? ==> forall p :: from <= p < r.value.start ==> !OpensAt(s, p)
    ensures NextRegion(s, from).None? ==> forall p :: from <= p < |s| ==> !OpensAt(s, p)
    decreases |s| - from
  {
    if from < |s| && !OpensAt(s, from) {
      NextRegionSpec(s, from + 1);
    }
  }

  /** All regions found by repeated `exec` starting at `from`. */
  function RegionsFrom(s: string, from: nat): seq<Region>
    requires from <= |s|
    decreases |s| - from
  {
    match NextRegion(s, from)
    case None => []
    case Some(r) => [r] + RegionsFrom(s, r.end)
  }

  /** `r` lies in the text after `from`, starts at an opener and is the
      region matched there. */
  predicate Matched(s: string, from: nat, r: Region) {
    from <= r.start < r.end <= |s| && OpensAt(s, r.start) && r == RegionAt(s, r.start)
  }

  /** Every region is matched at an opener after `from`. */
  lemma {:induction false} RegionsFromMatched(s: string, from: nat)
    requires from <= |s|
    ensures forall i :: 0 <= i < |RegionsFrom(s, from)| ==> Matched(s, from, RegionsFrom(s, from)[i])
    decreases |s| - from
  {
    match NextRegion(s, from)
    case None =>
    case Some(r) =>
      NextRegionSpec(s, from);
      RegionsFromMatched(s, r.end);
      var tail := RegionsFrom(s, r.end);
      assert RegionsFrom(s, from) == [r] + tail;
      MatchedPrepend(s, from, r, tail);
  }

  /** A region matched after `from`, followed by regions matched after its
      end, are all matched after `from`. */
  lemma MatchedPrepend(s: string, from: nat, r: Region, tail: seq<Region>)
    requires Matched(s, from, r)
    requires forall i :: 0 <= i < |tail| ==> Matched(s, r.end, tail[i])
    ensures forall i :: 0 <= i < |[r] + tail| ==> Matched(s, from, ([r] + tail)[i])
  {
    forall i | 0 <= i < |[r] + tail| ensures Matched(s, from, ([r] + tail)[i]) {
      if i > 0 {
        assert ([r] + tail)[i] == tail[i - 1];
      }
    }
  }

  /** Regions come in document order without overlapping. */
  lemma {:induction false} RegionsFromOrdered(s: string, from: nat)
    requires from <= |s|
    ensures forall i, j :: 0 <= i < j < |RegionsFrom(s, from)| ==>
      RegionsFrom(s, from)[i].end <= RegionsFrom(s, from)[j].start
    decreases |s| - from
  {
    match NextRegion(s, from)
    case None =>
    case Some(r) =>
      RegionsFromOrdered(s, r.end);
      RegionsFromMatched(s, r.end);
      var rs := RegionsFrom(s, from);
      var tail := RegionsFrom(s, r.end);
      assert rs == [r] + tail;
      forall i, j | 0 <= i < j < |rs| ensures rs[i].end <= rs[j].start {
        assert rs[j] == tail[j - 1];
        assert Matched(s, r.end, tail[j - 1]);
        if i == 0 { assert rs[0] == r; } else { assert rs[i] == tail[i - 1]; }
      }
  }

  /** Every opener lies in some region: an opener inside a region is part of
      it, every other one starts a region. */
  lemma {:induction false} OpenersCovered(s: string, from: nat, p: nat)
    requires from <= p < |s| && OpensAt(s, p)
    ensures exists i :: 0 <= i < |RegionsFrom(s, from)| && Inside(RegionsFrom(s, from)[i], p)
    decreases |s| - from
  {
    NextRegionSpec(s, from);
    var rs := RegionsFrom(s, from);
    var r := NextRegion(s, from).value;
    assert rs[0] == r;
    if p >= r.end {
      OpenersCovered(s, r.end, p);
      var i :| 0 <= i < |RegionsFrom(s, r.end)| && Inside(RegionsFrom(s, r.end)[i], p);
      assert rs[i + 1] == RegionsFrom(s, r.end)[i];
    }
  }

  /** No text outside the regions opens one: between two consecutive regions,
      and before the first, there is no opener. */
  lemma {:induction false} GapsHaveNoOpener(s: string, from: nat, i: nat, p: nat)
    requires from <= |s|
    requires i < |RegionsFrom(s, from)|
    requires (if i == 0 then from else RegionsFrom(s, from)[i - 1].end) <= p < RegionsFrom(s, from)[i].start
    ensures !OpensAt(s, p)
    decreases |s| - from
  {
    NextRegionSpec(s, from);
    var r := NextRegion(s, from).value;
    if i > 0 {
      GapsHaveNoOpener(s, r.end, i - 1, p);
    }
  }
}
