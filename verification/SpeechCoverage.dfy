/**
  How much of a window is covered by speech intervals.

  `Covered` is the sum the program computes.  For pairwise disjoint intervals it is shown to be the one
  measure that is additive over windows, full inside an interval and zero between intervals.
 */
module SpeechCoverage {
  import opened Numbers

  datatype Interval = Interval(s: real, e: real)

  function Overlap(i: Interval, a: real, b: real): real {
    Max(0.0, Min(b, i.e) - Max(a, i.s))
  }

  function Covered(ivs: seq<Interval>, a: real, b: real): real {
    if ivs == [] then 0.0 else Overlap(ivs[0], a, b) + Covered(ivs[1..], a, b)
  }

  /** Intervals given start-first that meet at most in end points, in any order. */
  ghost predicate Disjoint(ivs: seq<Interval>) {
    && (forall i :: 0 <= i < |ivs| ==> ivs[i].s <= ivs[i].e)
    && (forall i, j :: 0 <= i < |ivs| && 0 <= j < |ivs| && i != j ==> ivs[i].e <= ivs[j].s || ivs[j].e <= ivs[i].s)
  }

  lemma {:induction false} CoveredSnoc(ivs: seq<Interval>, i: Interval, a: real, b: real)
    ensures Covered(ivs + [i], a, b) == Covered(ivs, a, b) + Overlap(i, a, b)
  {
    if ivs == [] {
      assert [] + [i] == [i];
    } else {
      assert (ivs + [i])[1..] == ivs[1..] + [i];
      CoveredSnoc(ivs[1..], i, a, b);
    }
  }

  function Clamped(tot: real, len: real): real
    requires 0.0 < len
  {
    Max(0.0, Min(1.0, Fraction(tot, len)))
  }

  function Fraction(tot: real, len: real): real
    requires 0.0 < len
  {
    tot / len
  }

  function Ratio(ivs: seq<Interval>, start: real, end: real): real {
    if end <= start then 0.0 else Clamped(Covered(ivs, start, end), end - start)
  }

  method CoverageRatio(ivs: seq<Interval>, start: real, end: real) returns (r: real)
    ensures r == Ratio(ivs, start, end) && 0.0 <= r <= 1.0 && (end <= start ==> r == 0.0)
  {
    if end <= start {
      return 0.0;
    }
    var tot := 0.0;
    for k := 0 to |ivs|
      invariant tot == Covered(ivs[..k], start, end)
    {
      CoveredSnoc(ivs[..k], ivs[k], start, end);
      assert ivs[..k + 1] == ivs[..k] + [ivs[k]];
      tot := tot + Max(0.0, Min(end, ivs[k].e) - Max(start, ivs[k].s));
    }
    assert ivs[..|ivs|] == ivs;
    r := Max(0.0, Min(1.0, tot / (end - start)));
  }

  /** Intervals may overlap: what they cover more than once counts more than once, up to the whole window. */
  lemma {:induction false} RatioClamps(ivs: seq<Interval>, a: real, b: real)
    requires a < b
    ensures Ratio(ivs, a, b) == if Covered(ivs, a, b) <= b - a then Covered(ivs, a, b) / (b - a) else 1.0
  {
    CoveredNotNegative(ivs, a, b);
    ClampedIs(Covered(ivs, a, b), b - a);
  }

  lemma {:induction false} CoveredNotNegative(ivs: seq<Interval>, a: real, b: real)
    ensures Covered(ivs, a, b) >= 0.0
  {
    if ivs != [] {
      CoveredNotNegative(ivs[1..], a, b);
    }
  }

  lemma {:induction false} ClampedIs(tot: real, len: real)
    requires 0.0 <= tot && 0.0 < len
    ensures Clamped(tot, len) == if tot <= len then tot / len else 1.0
  {
  }

  lemma {:induction false} ClampDoesNothing(tot: real, len: real)
    requires 0.0 <= tot <= len && 0.0 < len
    ensures Clamped(tot, len) == Fraction(tot, len)
  {
  }

  /** Coverage is additive when a window is split, for intervals of any kind. */
  lemma {:induction false} CoveredSplits(ivs: seq<Interval>, a: real, m: real, b: real)
    requires a <= m <= b
    ensures Covered(ivs, a, b) == Covered(ivs, a, m) + Covered(ivs, m, b)
  {
    if ivs != [] {
      CoveredSplits(ivs[1..], a, m, b);
    }
  }

  /** The parts of a window before, inside and after an interval. */
  function LeftEnd(i: Interval, a: real, b: real): real {
    Max(a, Min(b, i.s))
  }

  function RightEnd(i: Interval, a: real, b: real): real {
    Max(LeftEnd(i, a, b), Min(b, i.e))
  }

  lemma {:induction false} SplitAround(ivs: seq<Interval>, a: real, b: real)
    requires a <= b && ivs != [] && Disjoint(ivs)
    ensures var i := ivs[0];
            var l, r := LeftEnd(i, a, b), RightEnd(i, a, b);
            && a <= l <= r <= b && Overlap(i, a, b) == r - l
            && Covered(ivs[1..], a, b) == Covered(ivs[1..], a, l) + Covered(ivs[1..], r, b)
  {
    var i := ivs[0];
    var l, r := LeftEnd(i, a, b), RightEnd(i, a, b);
    CoveredSplits(ivs[1..], a, l, b);
    CoveredSplits(ivs[1..], l, r, b);
    forall k | 1 <= k < |ivs|
      ensures ivs[k].e <= l || r <= ivs[k].s || l == r
    {
    }
    NothingBetween(ivs[1..], l, r);
  }

  lemma {:induction false} NothingBetween(ivs: seq<Interval>, a: real, b: real)
    requires a <= b && (a == b || forall k :: 0 <= k < |ivs| ==> ivs[k].e <= a || b <= ivs[k].s)
    ensures a == b && (forall k :: 0 <= k < |ivs| ==> ivs[k].s <= ivs[k].e) ==> Covered(ivs, a, b) == 0.0
    ensures a < b ==> Covered(ivs, a, b) == 0.0
  {
    if ivs != [] {
      NothingBetween(ivs[1..], a, b);
    }
  }

  /** Disjoint intervals never cover more than the window, so the clamp to [0, 1] changes nothing. */
  lemma {:induction false} CoveredBounds(ivs: seq<Interval>, a: real, b: real)
    requires a <= b && Disjoint(ivs)
    ensures 0.0 <= Covered(ivs, a, b) <= b - a
  {
    if ivs != [] {
      var l, r := LeftEnd(ivs[0], a, b), RightEnd(ivs[0], a, b);
      SplitAround(ivs, a, b);
      CoveredBounds(ivs[1..], a, l);
      CoveredBounds(ivs[1..], r, b);
    }
  }

  /** For disjoint intervals the clamp changes nothing: the ratio is the covered fraction of the window. */
  lemma {:induction false} RatioIsCoveredFraction(ivs: seq<Interval>, a: real, b: real)
    requires a < b && Disjoint(ivs)
    ensures Ratio(ivs, a, b) == Fraction(Covered(ivs, a, b), b - a)
  {
    CoveredBounds(ivs, a, b);
    ClampDoesNothing(Covered(ivs, a, b), b - a);
  }

  function Scale(x: real, len: real): real {
    x * len
  }

  lemma {:induction false} ScaleFraction(tot: real, len: real)
    requires len > 0.0
    ensures Scale(Fraction(tot, len), len) == tot
  {
  }

  /** Ratio times length. */
  function RatioSeconds(ivs: seq<Interval>, a: real, b: real): real {
    Scale(Ratio(ivs, a, b), b - a)
  }

  lemma {:induction false} RatioSecondsIsCovered(ivs: seq<Interval>, a: real, b: real)
    requires a < b && Disjoint(ivs)
    ensures RatioSeconds(ivs, a, b) == Covered(ivs, a, b)
  {
    RatioIsCoveredFraction(ivs, a, b);
    ScaleFraction(Covered(ivs, a, b), b - a);
  }

  /** Ratio times length is additive: the covered time of a window is that of its two parts together. */
  lemma {:induction false} RatioSecondsSplit(ivs: seq<Interval>, a: real, m: real, b: real)
    requires a < m < b && Disjoint(ivs)
    ensures RatioSeconds(ivs, a, b) == RatioSeconds(ivs, a, m) + RatioSeconds(ivs, m, b)
  {
    CoveredSplits(ivs, a, m, b);
    RatioSecondsIsCovered(ivs, a, b);
    RatioSecondsIsCovered(ivs, a, m);
    RatioSecondsIsCovered(ivs, m, b);
  }

  // ----- the true covered length -----

  ghost predicate Additive(F: (real, real) -> real, lo: real, hi: real) {
    forall a, m, b :: lo <= a <= m <= b <= hi ==> F(a, b) == F(a, m) + F(m, b)
  }

  ghost predicate FullWithin(F: (real, real) -> real, ivs: seq<Interval>, lo: real, hi: real) {
    forall a, b, k :: lo <= a <= b <= hi && 0 <= k < |ivs| && ivs[k].s <= a && b <= ivs[k].e ==> F(a, b) == b - a
  }

  predicate Misses(ivs: seq<Interval>, a: real, b: real) {
    forall k :: 0 <= k < |ivs| ==> ivs[k].e <= a || b <= ivs[k].s
  }

  ghost predicate NullBetween(F: (real, real) -> real, ivs: seq<Interval>, lo: real, hi: real) {
    forall a, b :: lo <= a <= b <= hi && Misses(ivs, a, b) ==> F(a, b) == 0.0
  }

  /** F measures, on every part of the window [lo, hi], how much of it the intervals cover. */
  ghost predicate Measures(F: (real, real) -> real, ivs: seq<Interval>, lo: real, hi: real) {
    Additive(F, lo, hi) && FullWithin(F, ivs, lo, hi) && NullBetween(F, ivs, lo, hi)
  }

  /** A measure on a window, restricted to a part that the first interval misses, measures the other intervals. */
  lemma {:induction false} MeasuresRest(F: (real, real) -> real, ivs: seq<Interval>, lo: real, hi: real, a: real,
                                        b: real)
    requires Measures(F, ivs, lo, hi) && ivs != [] && lo <= a <= b <= hi
    requires ivs[0].e <= a || b <= ivs[0].s
    ensures Measures(F, ivs[1..], a, b)
  {
  }

  /** The program's sum is the true covered length: no other function measures disjoint intervals. */
  lemma {:induction false} CoveredIsTheMeasure(F: (real, real) -> real, ivs: seq<Interval>, a: real, b: real)
    requires a <= b && Disjoint(ivs) && Measures(F, ivs, a, b)
    ensures F(a, b) == Covered(ivs, a, b)
    decreases |ivs|, 1
  {
    if ivs != [] {
      var l, r := LeftEnd(ivs[0], a, b), RightEnd(ivs[0], a, b);
      SplitAround(ivs, a, b);
      SplitThrice(F, ivs, a, b, l, r);
      PartIsMeasure(F, ivs, a, b, a, l);
      PartIsMeasure(F, ivs, a, b, r, b);
    } else {
      assert Misses(ivs, a, b);
    }
  }

  /** A part of the window that the first interval misses is covered by the others alone. */
  lemma {:induction false} PartIsMeasure(
    F: (real, real) -> real, ivs: seq<Interval>, a: real, b: real, x: real, y: real)
    requires a <= x <= y <= b && ivs != [] && Disjoint(ivs) && Measures(F, ivs, a, b)
    requires x == y || ivs[0].e <= x || y <= ivs[0].s
    ensures F(x, y) == Covered(ivs[1..], x, y)
    decreases |ivs|, 0
  {
    if x == y {
      PointIsNothing(F, ivs, a, b, x);
    } else {
      MeasuresRest(F, ivs, a, b, x, y);
      CoveredIsTheMeasure(F, ivs[1..], x, y);
    }
  }

  lemma {:induction false} SplitThrice(F: (real, real) -> real, ivs: seq<Interval>, a: real, b: real, l: real, r: real)
    requires a <= b && ivs != [] && Disjoint(ivs) && Measures(F, ivs, a, b)
    requires l == LeftEnd(ivs[0], a, b) && r == RightEnd(ivs[0], a, b)
    ensures F(a, b) == F(a, l) + (r - l) + F(r, b)
  {
    assert a <= l <= r <= b;
    assert F(a, b) == F(a, l) + F(l, b);
    assert F(l, b) == F(l, r) + F(r, b);
    if l == r {
      assert F(l, l) == F(l, l) + F(l, l);
    } else {
      assert ivs[0].s <= l && r <= ivs[0].e;
    }
  }

  lemma {:induction false} PointIsNothing(F: (real, real) -> real, ivs: seq<Interval>, a: real, b: real, x: real)
    requires Measures(F, ivs, a, b) && a <= x <= b && ivs != [] && Disjoint(ivs)
    ensures F(x, x) == 0.0 && Covered(ivs[1..], x, x) == 0.0
  {
    assert F(x, x) == F(x, x) + F(x, x);
    NothingBetween(ivs[1..], x, x);
  }

  /** The sum itself is such a measure, so "the covered length" is not an empty notion. */
  lemma {:induction false} CoveredMeasures(ivs: seq<Interval>, lo: real, hi: real)
    requires lo <= hi && Disjoint(ivs)
    ensures Measures((a, b) => Covered(ivs, a, b), ivs, lo, hi)
  {
    forall a, m, b | lo <= a <= m <= b <= hi
      ensures Covered(ivs, a, b) == Covered(ivs, a, m) + Covered(ivs, m, b)
    {
      CoveredSplits(ivs, a, m, b);
    }
    forall a, b, k | lo <= a <= b <= hi && 0 <= k < |ivs| && ivs[k].s <= a && b <= ivs[k].e
      ensures Covered(ivs, a, b) == b - a
    {
      FullInside(ivs, k, a, b);
    }
    forall a, b | lo <= a <= b <= hi && Misses(ivs, a, b)
      ensures Covered(ivs, a, b) == 0.0
    {
      NothingBetween(ivs, a, b);
    }
  }

  lemma {:induction false} FullInside(ivs: seq<Interval>, k: nat, a: real, b: real)
    requires a <= b && Disjoint(ivs) && k < |ivs| && ivs[k].s <= a && b <= ivs[k].e
    ensures Covered(ivs, a, b) == b - a
  {
    if k > 0 {
      assert ivs[0].e <= ivs[k].s || ivs[k].e <= ivs[0].s;
      FullInside(ivs[1..], k - 1, a, b);
    } else {
      NothingElseInside(ivs, a, b);
    }
  }

  lemma {:induction false} NothingElseInside(ivs: seq<Interval>, a: real, b: real)
    requires a <= b && Disjoint(ivs) && ivs != [] && ivs[0].s <= a && b <= ivs[0].e
    ensures Covered(ivs[1..], a, b) == 0.0
  {
    forall k | 0 <= k < |ivs[1..]|
      ensures ivs[1..][k].e <= a || b <= ivs[1..][k].s
    {
      assert ivs[0].e <= ivs[k + 1].s || ivs[k + 1].e <= ivs[0].s;
    }
    NothingBetween(ivs[1..], a, b);
  }
}
