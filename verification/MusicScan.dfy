/**
  The sliding-window scan for music.  Whether a window sounds like music is an arbitrary verdict per window
  index; the scan decides which windows are looked at and what regions they become.
 */
module MusicScan {
  import opened Numbers
  import opened MusicMerge

  /** The detector's answer for window k: whether its score reaches the threshold, the score, and why. */
  datatype Verdict = Verdict(hit: bool, score: real, reason: string)

  function WindowLength(window: real): real {
    Max(0.5, window)
  }

  function HopLength(hop: real): real {
    Max(0.2, hop)
  }

  /** The time span of window k. */
  function Start(k: nat, h: real): real {
    k as real * h
  }

  function End(k: nat, h: real, w: real, dur: real): real {
    Min(dur, Start(k, h) + w)
  }

  function RegionOf(k: nat, h: real, w: real, dur: real, v: Verdict): Region {
    Region(Start(k, h), End(k, h, w, dur), "music", v.score, v.reason)
  }

  /** A window is long enough to be scored when at least a quarter of a second of it lies in the file. */
  predicate Scored(k: nat, h: real, dur: real) {
    Start(k, h) + 0.25 <= dur
  }

  /** The hits among the first n windows, in order. */
  function Hits(n: nat, verdicts: nat -> Verdict, h: real, w: real, dur: real): seq<Region> {
    if n == 0 then []
    else
      Hits(n - 1, verdicts, h, w, dur) +
      if verdicts(n - 1).hit then [RegionOf(n - 1, h, w, dur, verdicts(n - 1))] else []
  }

  function Ceil(x: real): int {
    -(-x).Floor
  }

  lemma {:induction false} CeilBounds(dur: real, h: real)
    requires h > 0.0 && dur > 0.0
    ensures forall k: nat :: k < Ceil(dur / h) <==> Start(k, h) < dur
  {
    var q := dur / h;
    forall k: nat
      ensures k < Ceil(q) <==> Start(k, h) < dur
    {
      assert k < Ceil(q) <==> k as real < q;
      assert q * h == dur;
      if k as real < q {
        Scale(k as real, q, h);
      }
      if q <= k as real {
        Scale'(q, k as real, h);
      }
    }
  }

  lemma {:induction false} Scale(a: real, b: real, h: real)
    requires a < b && h > 0.0
    ensures a * h < b * h
  {
  }

  lemma {:induction false} Scale'(a: real, b: real, h: real)
    requires a <= b && h > 0.0
    ensures a * h <= b * h
  {
  }

  lemma {:induction false} StartMonotone(j: nat, k: nat, h: real)
    requires j <= k && h > 0.0
    ensures Start(j, h) <= Start(k, h) && Start(k, h) - Start(j, h) == (k - j) as real * h
  {
  }

  /** How many windows have at least a quarter second in the file. */
  function Evaluated(h: real, dur: real): nat
    requires h > 0.0
  {
    if dur < 0.25 then 0 else CeilOfPositive((dur - 0.25) / h, dur, h)
  }

  function CeilOfPositive(q: real, dur: real, h: real): nat
    requires h > 0.0 && dur >= 0.25 && q == (dur - 0.25) / h
  {
    NonNegativeQuotient(dur - 0.25, h);
    q.Floor + 1
  }

  lemma {:induction false} NonNegativeQuotient(x: real, h: real)
    requires x >= 0.0 && h > 0.0
    ensures x / h >= 0.0
  {
  }

  /** The windows counted are exactly the windows k with k*h + 0.25 <= dur. */
  lemma {:induction false} EvaluatedAreScored(k: nat, h: real, dur: real)
    requires h > 0.0
    ensures k < Evaluated(h, dur) <==> Scored(k, h, dur)
  {
    if dur < 0.25 {
      StartMonotone(0, k, h);
      assert Start(0, h) == 0.0;
    } else {
      var q := (dur - 0.25) / h;
      NonNegativeQuotient(dur - 0.25, h);
      assert q * h == dur - 0.25;
      if k as real <= q {
        Scale'(k as real, q, h);
      } else {
        Scale(q, k as real, h);
      }
    }
  }

  /** The region that window k gives: its span cut off at the end of the file, and the detector's score and reason. */
  ghost predicate FromWindow(r: Region, k: nat, v: Verdict, h: real, w: real, dur: real) {
    && r.start == k as real * h && r.end == (if k as real * h + w < dur then k as real * h + w else dur)
    && r.kind == "music" && r.confidence == v.score && r.reason == v.reason
  }

  /** One region for each hit among the windows with a quarter second in the file, in order. */
  ghost predicate HitRegions(regs: seq<Region>, ks: seq<nat>, verdicts: nat -> Verdict, h: real, w: real, dur: real) {
    && |regs| == |ks| && (forall i, j :: 0 <= i < j < |ks| ==> ks[i] < ks[j])
    && (forall i :: 0 <= i < |ks| ==> FromWindow(regs[i], ks[i], verdicts(ks[i]), h, w, dur))
    && (forall k: nat :: k in ks <==> verdicts(k).hit && k as real * h + 0.25 <= dur)
  }

  lemma {:induction false} HitsAreHitRegions(n: nat, verdicts: nat -> Verdict, h: real, w: real, dur: real)
    returns (ks: seq<nat>)
    requires forall k: nat :: k < n <==> Scored(k, h, dur)
    ensures HitRegions(Hits(n, verdicts, h, w, dur), ks, verdicts, h, w, dur)
  {
    ks := HitsBefore(n, verdicts, h, w, dur);
    forall k: nat
      ensures k in ks <==> verdicts(k).hit && k as real * h + 0.25 <= dur
    {
      assert k < n <==> Scored(k, h, dur);
    }
  }

  /** The same, for the windows before window n. */
  ghost predicate HitRegionsBefore(n: nat, regs: seq<Region>, ks: seq<nat>, verdicts: nat -> Verdict,
                                   h: real, w: real, dur: real) {
    && |regs| == |ks| && (forall i, j :: 0 <= i < j < |ks| ==> ks[i] < ks[j])
    && (forall i :: 0 <= i < |ks| ==> ks[i] < n && FromWindow(regs[i], ks[i], verdicts(ks[i]), h, w, dur))
    && (forall k: nat :: k < n && verdicts(k).hit ==> k in ks)
    && (forall i :: 0 <= i < |ks| ==> verdicts(ks[i]).hit)
  }

  lemma {:induction false} HitsBefore(n: nat, verdicts: nat -> Verdict, h: real, w: real, dur: real)
    returns (ks: seq<nat>)
    ensures HitRegionsBefore(n, Hits(n, verdicts, h, w, dur), ks, verdicts, h, w, dur)
  {
    if n == 0 {
      ks := [];
    } else {
      ks := HitsBefore(n - 1, verdicts, h, w, dur);
      var regs, r := Hits(n - 1, verdicts, h, w, dur), RegionOf(n - 1, h, w, dur, verdicts(n - 1));
      if verdicts(n - 1).hit {
        OneHitMore(n - 1, regs, ks, r, verdicts, h, w, dur);
        ks := ks + [n - 1];
      } else {
        assert regs + [] == regs;
        NoHitMore(n - 1, regs, ks, verdicts, h, w, dur);
      }
    }
  }

  lemma {:induction false} OneHitMore(n: nat, regs: seq<Region>, ks: seq<nat>, r: Region, verdicts: nat -> Verdict,
                                      h: real, w: real, dur: real)
    requires HitRegionsBefore(n, regs, ks, verdicts, h, w, dur)
    requires verdicts(n).hit && FromWindow(r, n, verdicts(n), h, w, dur)
    ensures HitRegionsBefore(n + 1, regs + [r], ks + [n], verdicts, h, w, dur)
  {
  }

  lemma {:induction false} NoHitMore(n: nat, regs: seq<Region>, ks: seq<nat>, verdicts: nat -> Verdict,
                                     h: real, w: real, dur: real)
    requires HitRegionsBefore(n, regs, ks, verdicts, h, w, dur) && !verdicts(n).hit
    ensures HitRegionsBefore(n + 1, regs, ks, verdicts, h, w, dur)
  {
  }

  /** The window loop: its result is the hits among the evaluated windows, merged with the hop as gap. */
  method AnalyzeAudio(dur: real, window: real, hop: real, verdicts: nat -> Verdict) returns (regions: seq<Region>)
    ensures var h, w := if hop > 0.2 then hop else 0.2, if window > 0.5 then window else 0.5;
            && regions == Merge(Hits(Evaluated(h, dur), verdicts, h, w, dur), h)
            && exists ks :: HitRegions(Hits(Evaluated(h, dur), verdicts, h, w, dur), ks, verdicts, h, w, dur)
  {
    ghost var h0, w0 := HopLength(hop), WindowLength(window);
    forall k: nat
      ensures k < Evaluated(h0, dur) <==> Scored(k, h0, dur)
    {
      EvaluatedAreScored(k, h0, dur);
    }
    ghost var ks := HitsAreHitRegions(Evaluated(h0, dur), verdicts, h0, w0, dur);
    if dur <= 0.0 {
      return [];
    }
    var w := WindowLength(window);
    var h := HopLength(hop);
    var regs: seq<Region> := [];
    var bound := Ceil(dur / h);
    if bound < 1 {
      bound := 1;
    }
    CeilBounds(dur, h);
    var k := 0;
    while k < bound
      invariant 0 <= k <= bound
      invariant regs == Hits(k, verdicts, h, w, dur)
      invariant forall j: nat :: j < k ==> Scored(j, h, dur)
    {
      var start := k as real * h;
      var end := Min(dur, start + w);
      if end - start < 0.25 {
        break;
      }
      var v := verdicts(k);
      if v.hit {
        var r := Region(start, end, "music", v.score, v.reason);
        assert start == Start(k, h) && end == End(k, h, w, dur);
        assert r == RegionOf(k, h, w, dur, v);
        regs := regs + [r];
        assert regs == Hits(k, verdicts, h, w, dur) + [RegionOf(k, h, w, dur, v)];
      } else {
        assert regs == regs + [];
      }
      k := k + 1;
    }
    EvaluatedAreScored(k, h, dur);
    if k > 0 {
      EvaluatedAreScored(k - 1, h, dur);
    }
    assert k == Evaluated(h, dur);
    regions := MergeRegions(regs, Max(0.2, h));
  }

  // ----- coverage of the file -----

  /** Some evaluated window contains the instant. */
  ghost predicate Seen(t: real, h: real, w: real, dur: real) {
    exists k: nat :: Scored(k, h, dur) && Start(k, h) <= t <= End(k, h, w, dur)
  }

  /** The last evaluated window. */
  lemma {:induction false} LastScored(h: real, dur: real) returns (k: nat)
    requires h > 0.0 && dur >= 0.25
    ensures Scored(k, h, dur) && !Scored(k + 1, h, dur)
  {
    k := ((dur - 0.25) / h).Floor;
    var q := (dur - 0.25) / h;
    assert q * h == dur - 0.25;
    assert q >= 0.0;
    Scale'(k as real, q, h);
    Scale(q, (k + 1) as real, h);
    assert Start(k + 1, h) == (k + 1) as real * h > dur - 0.25;
  }

  /** The evaluated windows cover the whole file when the hop is at least a quarter second shorter than the window. */
  lemma {:induction false} WindowsCoverFile(t: real, k: nat, h: real, w: real, dur: real)
    requires h > 0.0 && h + 0.25 <= w && Scored(k, h, dur)
    requires 0.0 <= t <= End(k, h, w, dur)
    ensures Seen(t, h, w, dur)
  {
    if Start(k, h) <= t {
      assert Scored(k, h, dur) && Start(k, h) <= t <= End(k, h, w, dur);
    } else {
      assert Start(0, h) == 0.0;
      StartMonotone(k - 1, k, h);
      WindowsCoverFile(t, k - 1, h, w, dur);
    }
  }

  /** Every file of at least a quarter second is covered if and only if the hop is a quarter second below the window. */
  lemma {:induction false} CoverageIffHopShort(h: real, w: real)
    requires h >= 0.2 && w >= 0.5
    ensures h + 0.25 <= w <==> forall dur, t :: dur >= 0.25 && 0.0 <= t <= dur ==> Seen(t, h, w, dur)
  {
    if h + 0.25 <= w {
      forall dur, t | dur >= 0.25 && 0.0 <= t <= dur
        ensures Seen(t, h, w, dur)
      {
        var k := LastScored(h, dur);
        StartMonotone(k, k + 1, h);
        WindowsCoverFile(t, k, h, w, dur);
      }
    } else {
      var dur := (w + h + 0.25) / 2.0;
      assert w < dur < h + 0.25;
      assert Start(0, h) == 0.0 && Start(1, h) == h;
      assert !Seen(dur, h, w, dur) by {
        forall k: nat | Scored(k, h, dur)
          ensures End(k, h, w, dur) < dur
        {
          if k > 0 {
            StartMonotone(1, k, h);
          }
        }
      }
    }
  }

  // ----- which hits share a region -----

  lemma {:induction false} HitsAreWindows(n: nat, verdicts: nat -> Verdict, h: real, w: real, dur: real)
    ensures forall r :: r in Hits(n, verdicts, h, w, dur) <==>
              exists k: nat :: k < n && verdicts(k).hit && r == RegionOf(k, h, w, dur, verdicts(k))
  {
    if n > 0 {
      HitsAreWindows(n - 1, verdicts, h, w, dur);
      forall r
        ensures r in Hits(n, verdicts, h, w, dur) <==>
                exists k: nat :: k < n && verdicts(k).hit && r == RegionOf(k, h, w, dur, verdicts(k))
      {
        if r in Hits(n, verdicts, h, w, dur) && r !in Hits(n - 1, verdicts, h, w, dur) {
          assert verdicts(n - 1).hit && r == RegionOf(n - 1, h, w, dur, verdicts(n - 1));
        }
      }
    }
  }

  /** No link crosses a cut of the regions into two sides, so no path does. */
  lemma {:induction false} PathStaysLeft(regs: seq<Region>, gap: real, p: seq<Region>, cut: real)
    requires Path(regs, gap, p) && p[0].start < cut
    requires forall x, y :: x in regs && y in regs && x.start < cut <= y.start ==> !Linked(x, y, gap)
    ensures p[|p| - 1].start < cut
  {
    var n := |p| - 1;
    if n > 0 {
      var q := p[..n];
      assert forall i :: 0 <= i < |q| - 1 ==> Linked(p[i], p[i + 1], gap);
      PathStaysLeft(regs, gap, q, cut);
      assert Linked(p[n - 1], p[n - 1 + 1], gap);
      assert p[n - 1] in regs && p[n] in regs;
    }
  }

  ghost predicate SameRegion(out: seq<Region>, x: Region, y: Region) {
    exists o :: o in out && Holds(o, x) && Holds(o, y)
  }

  /** Two windows that both hit, with no hit between them. */
  ghost predicate SuccessiveHits(verdicts: nat -> Verdict, j: nat, k: nat) {
    j < k && verdicts(j).hit && verdicts(k).hit && forall i: nat :: j < i < k ==> !verdicts(i).hit
  }

  lemma {:induction false} HitsWellFormed(n: nat, verdicts: nat -> Verdict, h: real, w: real, dur: real)
    requires w > 0.0 && forall k: nat :: k < n ==> Scored(k, h, dur)
    ensures WellFormed(Hits(n, verdicts, h, w, dur))
  {
    HitsAreWindows(n, verdicts, h, w, dur);
    forall r | r in Hits(n, verdicts, h, w, dur)
      ensures r.start <= r.end
    {
      var k: nat :| k < n && verdicts(k).hit && r == RegionOf(k, h, w, dur, verdicts(k));
      assert Scored(k, h, dur);
    }
  }

  lemma {:induction false} WindowLinked(j: nat, k: nat, verdicts: nat -> Verdict, h: real, w: real, dur: real)
    requires h >= 0.2 && w >= 0.5 && j < k && Scored(k, h, dur)
    ensures Linked(RegionOf(j, h, w, dur, verdicts(j)), RegionOf(k, h, w, dur, verdicts(k)), h) <==>
            (k - j) as real * h <= w + h
  {
    StartMonotone(j, k, h);
  }

  /**
    After the merge two successive hits belong to the same region if and only if the later window starts no
    more than one hop after the earlier one ends.
   */
  lemma {:induction false} SuccessiveHitsShareRegion(verdicts: nat -> Verdict, j: nat, k: nat, h: real, w: real,
                                                     dur: real)
    requires h >= 0.2 && w >= 0.5 && k < Evaluated(h, dur) && SuccessiveHits(verdicts, j, k)
    ensures SameRegion(Merge(Hits(Evaluated(h, dur), verdicts, h, w, dur), h),
                       RegionOf(j, h, w, dur, verdicts(j)), RegionOf(k, h, w, dur, verdicts(k)))
            <==> (k - j) as real * h <= w + h
  {
    var n := Evaluated(h, dur);
    forall i: nat
      ensures i < n <==> Scored(i, h, dur)
    {
      EvaluatedAreScored(i, h, dur);
    }
    var regs := Hits(n, verdicts, h, w, dur);
    var x, y := RegionOf(j, h, w, dur, verdicts(j)), RegionOf(k, h, w, dur, verdicts(k));
    HitsAreWindows(n, verdicts, h, w, dur);
    HitsWellFormed(n, verdicts, h, w, dur);
    WindowLinked(j, k, verdicts, h, w, dur);
    assert x in regs && y in regs;
    if Linked(x, y, h) {
      LinkedShareRegion(regs, h, x, y);
    } else {
      NoLinkAcross(n, verdicts, j, k, h, w, dur);
      StartMonotone(j, k, h);
      CutSeparates(regs, h, x, y);
    }
  }

  lemma {:induction false} LinkedShareRegion(regs: seq<Region>, gap: real, x: Region, y: Region)
    requires gap >= 0.0 && WellFormed(regs) && x in regs && y in regs && Linked(x, y, gap)
    ensures SameRegion(Merge(regs, gap), x, y)
  {
    MergeIsMerged(regs, gap);
    var m := CoveredBy(regs, Merge(regs, gap), x);
    LinkStays(regs, gap, Merge(regs, gap), m, x, y);
  }

  lemma {:induction false} CutSeparates(regs: seq<Region>, gap: real, x: Region, y: Region)
    requires gap >= 0.0 && WellFormed(regs) && x in regs && y in regs && x.start < y.start
    requires forall a, b :: a in regs && b in regs && a.start < y.start <= b.start ==> !Linked(a, b, gap)
    ensures !SameRegion(Merge(regs, gap), x, y)
  {
    if SameRegion(Merge(regs, gap), x, y) {
      SharedIsConnected(regs, gap, x, y);
      var p :| PathBetween(regs, gap, p, x, y);
      PathStaysLeft(regs, gap, p, y.start);
    }
  }

  lemma {:induction false} SharedIsConnected(regs: seq<Region>, gap: real, x: Region, y: Region)
    requires gap >= 0.0 && WellFormed(regs) && x in regs && y in regs && SameRegion(Merge(regs, gap), x, y)
    ensures Connected(regs, gap, x, y)
  {
    MergeIsMerged(regs, gap);
    var o :| o in Merge(regs, gap) && Holds(o, x) && Holds(o, y);
    assert Component(regs, gap, o);
  }

  lemma {:induction false} NoLinkAcross(n: nat, verdicts: nat -> Verdict, j: nat, k: nat, h: real, w: real, dur: real)
    requires h >= 0.2 && w >= 0.5 && k < n && SuccessiveHits(verdicts, j, k) && (k - j) as real * h > w + h
    requires forall i: nat :: i < n ==> Scored(i, h, dur)
    ensures var regs := Hits(n, verdicts, h, w, dur);
            forall a, b :: a in regs && b in regs && a.start < Start(k, h) <= b.start ==> !Linked(a, b, h)
  {
    var regs := Hits(n, verdicts, h, w, dur);
    HitsAreWindows(n, verdicts, h, w, dur);
    forall a, b | a in regs && b in regs && a.start < Start(k, h) <= b.start
      ensures !Linked(a, b, h)
    {
      var i: nat :| i < n && verdicts(i).hit && a == RegionOf(i, h, w, dur, verdicts(i));
      if k <= i {
        StartMonotone(k, i, h);
      }
      assert i <= j;
      StartMonotone(i, j, h);
      StartMonotone(j, k, h);
    }
  }
}
