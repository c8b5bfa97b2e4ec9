/**
  What is done with music regions: dubbing is suppressed in segments that overlap one, and the bed plays
  the original audio inside them and the separated background outside.
 */
module MusicBed {
  import opened Numbers
  import opened MusicMerge

  /** A region as a caller passes it: a pair of numbers, or a dict whose fields do not read as numbers. */
  datatype Entry = Entry(start: real, end: real) | Unreadable

  function Entries(regs: seq<Region>): seq<Entry> {
    seq(|regs|, i requires 0 <= i < |regs| => Entry(regs[i].start, regs[i].end))
  }

  // ----- suppression -----

  predicate Overlaps(r: Entry, s: real, e: real) {
    r.Entry? && r.end > s && r.start < e
  }

  ghost predicate Suppressed(s: real, e: real, regions: seq<Entry>) {
    s < e && exists i :: 0 <= i < |regions| && Overlaps(regions[i], s, e)
  }

  method ShouldSuppressSegment(s: real, e: real, regions: seq<Entry>) returns (b: bool)
    ensures b <==> Suppressed(s, e, regions)
  {
    if e <= s {
      return false;
    }
    for i := 0 to |regions|
      invariant forall j :: 0 <= j < i ==> !Overlaps(regions[j], s, e)
    {
      match regions[i]
      case Unreadable =>
      case Entry(rs, re) =>
        if !(re <= s || rs >= e) {
          return true;
        }
    }
    b := false;
  }

  // ----- suppression and merging -----

  predicate Meets(r: Region, s: real, e: real) {
    r.end > s && r.start < e
  }

  lemma {:induction false} SuppressedByRegion(s: real, e: real, regs: seq<Region>)
    ensures Suppressed(s, e, Entries(regs)) <==> s < e && exists r :: r in regs && Meets(r, s, e)
  {
    if s < e {
      forall i | 0 <= i < |regs|
        ensures Overlaps(Entries(regs)[i], s, e) <==> Meets(regs[i], s, e)
      {
      }
      if Suppressed(s, e, Entries(regs)) {
        var i :| 0 <= i < |regs| && Overlaps(Entries(regs)[i], s, e);
        assert regs[i] in regs && Meets(regs[i], s, e);
      }
      if r :| r in regs && Meets(r, s, e) {
        var i :| 0 <= i < |regs| && regs[i] == r;
        assert Overlaps(Entries(regs)[i], s, e);
      }
    }
  }

  /** The segment lies in a hole, no wider than the gap, that the merge bridges between two regions. */
  ghost predicate InBridgedHole(s: real, e: real, regs: seq<Region>, gap: real) {
    exists x, y :: x in regs && y in regs && x.end <= s && e <= y.start && y.start <= x.end + gap
  }

  /** Along a path that starts before a segment and ends after it without meeting it, one link jumps over it. */
  lemma {:induction false} PathJumps(regs: seq<Region>, gap: real, p: seq<Region>, s: real, e: real)
    requires s < e && WellFormed(regs) && Path(regs, gap, p)
    requires forall x :: x in regs ==> !Meets(x, s, e)
    requires p[0].end <= s && e <= p[|p| - 1].start
    ensures InBridgedHole(s, e, regs, gap)
  {
    var n := |p| - 1;
    assert p[0] in regs && p[n] in regs;
    if p[1].end <= s {
      var q := p[1..];
      forall i | 0 <= i < |q| - 1
        ensures Linked(q[i], q[i + 1], gap)
      {
        assert Linked(p[i + 1], p[i + 1 + 1], gap);
      }
      PathJumps(regs, gap, q, s, e);
    } else {
      assert p[1] in regs && !Meets(p[1], s, e);
      assert Linked(p[0], p[0 + 1], gap);
      assert p[0].end <= s && e <= p[1].start && p[1].start <= p[0].end + gap;
    }
  }

  /** Merging never loses a suppression. */
  lemma {:induction false} MergeKeepsSuppression(regs: seq<Region>, gap: real, s: real, e: real)
    requires gap >= 0.0 && WellFormed(regs)
    ensures Suppressed(s, e, Entries(regs)) ==> Suppressed(s, e, Entries(Merge(regs, gap)))
  {
    var out := Merge(regs, gap);
    SuppressedByRegion(s, e, regs);
    SuppressedByRegion(s, e, out);
    if Suppressed(s, e, Entries(regs)) {
      var r :| r in regs && Meets(r, s, e);
      MergeIsMerged(regs, gap);
      var k := CoveredBy(regs, out, r);
      assert Meets(out[k], s, e);
    }
  }

  lemma {:induction false} HoleIsSuppressed(regs: seq<Region>, gap: real, s: real, e: real)
    requires gap >= 0.0 && WellFormed(regs) && s < e && InBridgedHole(s, e, regs, gap)
    ensures Suppressed(s, e, Entries(Merge(regs, gap)))
  {
    var out := Merge(regs, gap);
    var x, y :| x in regs && y in regs && x.end <= s && e <= y.start && y.start <= x.end + gap;
    MergeIsMerged(regs, gap);
    var k := CoveredBy(regs, out, x);
    LinkStays(regs, gap, out, k, x, y);
    assert Meets(out[k], s, e);
    SuppressedByRegion(s, e, out);
  }

  /**
    The verdict on the merged list, exactly: the segment overlaps an original region, or it lies in a hole
    that the merge bridged.
   */
  lemma {:induction false} MergedSuppressionExactly(regs: seq<Region>, gap: real, s: real, e: real)
    requires gap >= 0.0 && WellFormed(regs) && s < e
    ensures Suppressed(s, e, Entries(Merge(regs, gap))) <==>
            Suppressed(s, e, Entries(regs)) || InBridgedHole(s, e, regs, gap)
  {
    var out := Merge(regs, gap);
    MergeKeepsSuppression(regs, gap, s, e);
    if InBridgedHole(s, e, regs, gap) {
      HoleIsSuppressed(regs, gap, s, e);
    }
    SuppressedByRegion(s, e, regs);
    SuppressedByRegion(s, e, out);
    if Suppressed(s, e, Entries(out)) && !Suppressed(s, e, Entries(regs)) {
      var o :| o in out && Meets(o, s, e);
      MergeIsMerged(regs, gap);
      assert Component(regs, gap, o);
      var x :| x in regs && Holds(o, x) && x.start == o.start;
      var y :| y in regs && Holds(o, y) && y.end == o.end;
      assert !Meets(x, s, e) && !Meets(y, s, e);
      assert Connected(regs, gap, x, y);
      var p :| PathBetween(regs, gap, p, x, y);
      PathJumps(regs, gap, p, s, e);
    }
  }

  /** For a segment longer than the merge gap the verdicts on the merged and on the raw list agree. */
  lemma {:induction false} LongSegmentsUnaffectedByMerge(regs: seq<Region>, gap: real, s: real, e: real)
    requires gap >= 0.0 && WellFormed(regs) && e - s > gap
    ensures Suppressed(s, e, Entries(Merge(regs, gap))) <==> Suppressed(s, e, Entries(regs))
  {
    MergedSuppressionExactly(regs, gap, s, e);
  }

  // ----- the bed -----

  /** `between(t,a,b)` with both ends printed to the millisecond. */
  datatype Between = Between(a: int, b: int)

  function Seconds(ms: int): real {
    ms as real / 1000.0
  }

  /** Printing with three decimals rounds to the nearest millisecond, ties to even. */
  function Millis(x: real): int {
    var f := (x * 1000.0).Floor;
    var d := x * 1000.0 - f as real;
    if d < 0.5 then f else if d > 0.5 then f + 1 else if f % 2 == 0 then f else f + 1
  }

  function Part(start: real, end: real): Between {
    var a := Max(0.0, start);
    var b := Max(a, end);
    Between(Millis(a), Millis(b))
  }

  predicate Inside(p: Between, t: real) {
    Seconds(p.a) <= t <= Seconds(p.b)
  }

  /** The value of the sum of `between` terms at an instant. */
  function Cond(parts: seq<Between>, t: real): nat {
    if parts == [] then 0 else Cond(parts[..|parts| - 1], t) + if Inside(parts[|parts| - 1], t) then 1 else 0
  }

  /** How the bed is made: a copy of the background, or a mix switched by the sum of the parts. */
  datatype Bed = CopyBackground | Switch(parts: seq<Between>)

  function BackgroundGain(bed: Bed, t: real): int {
    match bed
    case CopyBackground => 1
    case Switch(parts) => if Cond(parts, t) != 0 then 0 else 1
  }

  function OriginalGain(bed: Bed, t: real): int {
    match bed
    case CopyBackground => 0
    case Switch(parts) => if Cond(parts, t) != 0 then 1 else 0
  }

  /** The original plays at t: some readable region, as printed, contains t. */
  ghost predicate Plays(regions: seq<Entry>, t: real) {
    exists i :: 0 <= i < |regions| && regions[i].Entry? && Inside(Part(regions[i].start, regions[i].end), t)
  }

  ghost predicate InSome(parts: seq<Between>, t: real) {
    exists i :: 0 <= i < |parts| && Inside(parts[i], t)
  }

  lemma {:induction false} InSomeSnoc(parts: seq<Between>, p: Between, t: real)
    ensures InSome(parts + [p], t) <==> InSome(parts, t) || Inside(p, t)
  {
    if InSome(parts, t) {
      var i :| 0 <= i < |parts| && Inside(parts[i], t);
      assert (parts + [p])[i] == parts[i];
    }
    assert (parts + [p])[|parts|] == p;
  }

  lemma {:induction false} CondPositive(parts: seq<Between>, t: real)
    ensures Cond(parts, t) != 0 <==> InSome(parts, t)
  {
    if parts != [] {
      var n := |parts| - 1;
      CondPositive(parts[..n], t);
      InSomeSnoc(parts[..n], parts[n], t);
      assert parts[..n] + [parts[n]] == parts;
    }
  }

  method BuildMusicPreservingBed(regions: seq<Entry>) returns (bed: Bed)
    ensures forall t :: OriginalGain(bed, t) == 1 <==> Plays(regions, t)
    ensures forall t :: BackgroundGain(bed, t) == 1 <==> !Plays(regions, t)
    ensures forall t :: OriginalGain(bed, t) + BackgroundGain(bed, t) == 1
    ensures bed.CopyBackground? <==> regions == []
  {
    if regions == [] {
      return CopyBackground;
    }
    var parts: seq<Between> := [];
    for i := 0 to |regions|
      invariant forall t :: InSome(parts, t) <==> Plays(regions[..i], t)
    {
      match regions[i]
      case Unreadable =>
        PlaysSnoc(regions, i);
      case Entry(a0, b0) =>
        var a := Max(0.0, a0);
        var b := Max(a, b0);
        PlaysSnoc(regions, i);
        forall t
          ensures InSome(parts + [Between(Millis(a), Millis(b))], t) <==> Plays(regions[..i + 1], t)
        {
          InSomeSnoc(parts, Between(Millis(a), Millis(b)), t);
        }
        parts := parts + [Between(Millis(a), Millis(b))];
    }
    assert regions[..|regions|] == regions;
    forall t
      ensures Cond(parts, t) != 0 <==> Plays(regions, t)
    {
      CondPositive(parts, t);
    }
    bed := Switch(parts);
  }

  lemma {:induction false} PlaysSnoc(regions: seq<Entry>, i: nat)
    requires i < |regions|
    ensures forall t :: Plays(regions[..i + 1], t) <==>
              Plays(regions[..i], t) || (regions[i].Entry? && Inside(Part(regions[i].start, regions[i].end), t))
  {
  }

  // ----- suppression and the bed -----

  /** Some instant strictly inside the segment plays the original. */
  ghost predicate PlaysWithin(regions: seq<Entry>, s: real, e: real) {
    exists t :: s < t < e && Plays(regions, t)
  }

  function Printed(r: Entry): Entry {
    match r
    case Unreadable => Unreadable
    case Entry(start, end) => Entry(Seconds(Part(start, end).a), Seconds(Part(start, end).b))
  }

  function AllPrinted(regions: seq<Entry>): seq<Entry> {
    seq(|regions|, i requires 0 <= i < |regions| => Printed(regions[i]))
  }

  lemma {:induction false} MillisBounds(x: real)
    ensures -0.0005 <= Seconds(Millis(x)) - x <= 0.0005
  {
  }

  lemma {:induction false} MillisMonotone(x: real, y: real)
    requires x <= y
    ensures Millis(x) <= Millis(y)
  {
  }

  /** An open segment meets a closed printed region in some instant exactly when the overlap test says so. */
  lemma {:induction false} InstantInOverlap(p: Between, s: real, e: real)
    requires p.a <= p.b && s < e
    ensures Seconds(p.b) > s && Seconds(p.a) < e <==> exists t :: s < t < e && Inside(p, t)
  {
    var a, b := Seconds(p.a), Seconds(p.b);
    if b > s && a < e {
      var lo, hi := Max(a, s), if b < e then b else e;
      var t := if lo == hi then lo else (lo + hi) / 2.0;
      assert s < t < e && Inside(p, t);
    }
  }

  /** For all regions and segments the bed agrees with the suppression verdict on the regions as printed. */
  lemma {:induction false} BedAgreesWithPrintedRegions(regions: seq<Entry>, s: real, e: real)
    requires s < e
    ensures PlaysWithin(regions, s, e) <==> Suppressed(s, e, AllPrinted(regions))
  {
    forall i | 0 <= i < |regions| && regions[i].Entry?
      ensures Overlaps(AllPrinted(regions)[i], s, e) <==>
              exists t :: s < t < e && Inside(Part(regions[i].start, regions[i].end), t)
    {
      var r := regions[i];
      MillisMonotone(Max(0.0, r.start), Max(Max(0.0, r.start), r.end));
      InstantInOverlap(Part(r.start, r.end), s, e);
    }
    if PlaysWithin(regions, s, e) {
      var t :| s < t < e && Plays(regions, t);
      var i :| 0 <= i < |regions| && regions[i].Entry? && Inside(Part(regions[i].start, regions[i].end), t);
      assert Overlaps(AllPrinted(regions)[i], s, e);
    }
    if Suppressed(s, e, AllPrinted(regions)) {
      var i :| 0 <= i < |regions| && Overlaps(AllPrinted(regions)[i], s, e);
      var t :| s < t < e && Inside(Part(regions[i].start, regions[i].end), t);
      assert Plays(regions, t);
    }
  }

  ghost predicate OnGrid(x: real) {
    exists ms: int :: x == Seconds(ms)
  }

  /**
    What the bed plays for the region, from no earlier than zero, is what the suppression test reads: a
    region that ends by zero is printed as the instant zero, any other one runs forwards between instants
    on the grid.
   */
  ghost predicate Exact(r: Entry) {
    r.Entry? ==>
      var a := Max(0.0, r.start);
      if r.end <= 0.0 then Millis(a) == 0 else a <= r.end && OnGrid(a) && OnGrid(r.end)
  }

  lemma {:induction false} MillisOfGrid(x: real)
    ensures OnGrid(x) <==> Seconds(Millis(x)) == x
  {
  }

  /** An exact region overlaps a non-negative segment exactly when its printed form does. */
  lemma {:induction false} ExactOverlap(r: Entry, s: real, e: real)
    requires Exact(r) && 0.0 <= s < e
    ensures Overlaps(r, s, e) <==> Overlaps(Printed(r), s, e)
  {
    if r.Entry? {
      MillisOfGrid(Max(0.0, r.start));
      MillisOfGrid(r.end);
    }
  }

  /**
    On exact regions a segment is suppressed if and only if some instant strictly inside it plays the
    original, so the inside of every dubbed segment is pure background.
   */
  lemma {:induction false} SuppressedIffOriginalPlays(regions: seq<Entry>, s: real, e: real)
    requires 0.0 <= s < e && forall r :: r in regions ==> Exact(r)
    ensures Suppressed(s, e, regions) <==> PlaysWithin(regions, s, e)
  {
    BedAgreesWithPrintedRegions(regions, s, e);
    forall i | 0 <= i < |regions|
      ensures Overlaps(regions[i], s, e) <==> Overlaps(AllPrinted(regions)[i], s, e)
    {
      assert regions[i] in regions;
      ExactOverlap(regions[i], s, e);
    }
  }

  /** Regions given start-first on the millisecond grid are exact. */
  lemma {:induction false} GridRegionIsExact(r: Entry)
    requires r.Entry? ==> OnGrid(r.start) && OnGrid(r.end) && r.start <= r.end
    ensures Exact(r)
  {
    assert Seconds(0) == 0.0;
    assert OnGrid(0.0);
    assert Millis(0.0) == 0;
  }

  /** So on the printed grid suppression and bed agree for every list of regions given start-first. */
  lemma {:induction false} GridSuppressedIffOriginalPlays(regions: seq<Entry>, s: real, e: real)
    requires 0.0 <= s < e
    requires forall r: Entry :: r in regions && r.Entry? ==> OnGrid(r.start) && OnGrid(r.end) && r.start <= r.end
    ensures Suppressed(s, e, regions) <==> PlaysWithin(regions, s, e)
  {
    forall r | r in regions
      ensures Exact(r)
    {
      GridRegionIsExact(r);
    }
    SuppressedIffOriginalPlays(regions, s, e);
  }

  ghost predicate Agree(regions: seq<Entry>, s: real, e: real) {
    Suppressed(s, e, regions) <==> PlaysWithin(regions, s, e)
  }

  lemma {:induction false} AgreeOnOne(r: Entry, s: real, e: real)
    requires 0.0 <= s < e
    ensures Agree([r], s, e) <==> (Overlaps(r, s, e) <==> Overlaps(Printed(r), s, e))
  {
    BedAgreesWithPrintedRegions([r], s, e);
    assert [r][0] == r && AllPrinted([r])[0] == Printed(r);
  }

  /** A segment on which an inexact region and its printed form differ. */
  lemma {:induction false} Differs(r: Entry) returns (s: real, e: real)
    requires !Exact(r)
    ensures 0.0 <= s < e && !(Overlaps(r, s, e) <==> Overlaps(Printed(r), s, e))
  {
    var a := Max(0.0, r.start);
    var b := Max(a, r.end);
    var first, last := Seconds(Millis(a)), Seconds(Millis(b));
    MillisMonotone(0.0, a);
    MillisMonotone(a, b);
    assert Millis(0.0) == 0;
    MillisOfGrid(a);
    MillisOfGrid(b);
    if r.end <= 0.0 {
      s, e := 0.0, first + 1.0;
    } else if last == 0.0 {
      s, e := 0.0, a + 1.0;
    } else if last > r.end {
      s, e := r.end, Max(last, a) + 1.0;
    } else if first < a {
      s, e := 0.0, a;
    } else if first > a {
      s, e := 0.0, first;
    } else {
      s, e := last, r.end + 1.0;
    }
  }

  /** Exactly when suppression and bed agree on every segment, for one region: when it is exact. */
  lemma {:induction false} AgreeIffExact(r: Entry)
    ensures Exact(r) <==> forall s, e :: 0.0 <= s < e ==> Agree([r], s, e)
  {
    if Exact(r) {
      forall s, e | 0.0 <= s < e
        ensures Agree([r], s, e)
      {
        ExactOverlap(r, s, e);
        AgreeOnOne(r, s, e);
      }
    } else {
      var s, e := Differs(r);
      AgreeOnOne(r, s, e);
    }
  }

  /**
    Off the grid the two agree up to half a millisecond at each end: suppression of the shortened segment
    means the original plays in the whole one, and the original playing in the shortened one means that the
    whole one is suppressed.
   */
  lemma {:induction false} OffGridWithinHalfMillisecond(regions: seq<Entry>, s: real, e: real)
    requires 0.0 <= s && s + 0.001 < e
    requires forall r :: r in regions && r.Entry? ==> r.start <= r.end
    ensures Suppressed(s + 0.0005, e - 0.0005, regions) ==> PlaysWithin(regions, s, e)
    ensures PlaysWithin(regions, s + 0.0005, e - 0.0005) ==> Suppressed(s, e, regions)
  {
    BedAgreesWithPrintedRegions(regions, s, e);
    BedAgreesWithPrintedRegions(regions, s + 0.0005, e - 0.0005);
    forall i | 0 <= i < |regions| && regions[i].Entry?
      ensures Overlaps(regions[i], s + 0.0005, e - 0.0005) ==> Overlaps(AllPrinted(regions)[i], s, e)
      ensures Overlaps(AllPrinted(regions)[i], s + 0.0005, e - 0.0005) ==> Overlaps(regions[i], s, e)
    {
      var r := regions[i];
      assert r in regions;
      MillisBounds(Max(0.0, r.start));
      MillisBounds(Max(Max(0.0, r.start), r.end));
      assert Millis(0.0) == 0;
    }
    if Suppressed(s + 0.0005, e - 0.0005, regions) {
      var i :| 0 <= i < |regions| && Overlaps(regions[i], s + 0.0005, e - 0.0005);
      assert Overlaps(AllPrinted(regions)[i], s, e);
    }
    if PlaysWithin(regions, s + 0.0005, e - 0.0005) {
      var i :| 0 <= i < |regions| && Overlaps(AllPrinted(regions)[i], s + 0.0005, e - 0.0005);
      assert Overlaps(regions[i], s, e);
    }
  }

  /** A region given end-first: the bed plays the instant of its start inside a segment that is not suppressed. */
  lemma {:induction false} ReversedRegionDisagrees()
    ensures !Suppressed(4.0, 10.0, [Entry(5.0, 2.0)]) && PlaysWithin([Entry(5.0, 2.0)], 4.0, 10.0)
  {
    assert (5.0 * 1000.0).Floor == 5000;
    assert Inside(Part(5.0, 2.0), 5.0);
    assert Plays([Entry(5.0, 2.0)], 5.0) by {
      assert [Entry(5.0, 2.0)][0] == Entry(5.0, 2.0);
    }
  }

  /** Off the grid, rounding makes the bed play the original inside a segment that is not suppressed. */
  lemma {:induction false} OffGridRegionDisagrees()
    ensures !Suppressed(0.0, 0.0003, [Entry(0.0004, 1.0)]) && PlaysWithin([Entry(0.0004, 1.0)], 0.0, 0.0003)
  {
    assert (0.0004 * 1000.0).Floor == 0 && (1.0 * 1000.0).Floor == 1000;
    assert Inside(Part(0.0004, 1.0), 0.0002);
    assert Plays([Entry(0.0004, 1.0)], 0.0002) by {
      assert [Entry(0.0004, 1.0)][0] == Entry(0.0004, 1.0);
    }
  }
}
