/**
  Merging detected music regions: sort by start, then sweep, joining each region to the current one when
  the gap between them is small enough.

  The declarative reading is a graph: two regions are linked when they are within the gap of one another,
  and the merged regions are the connected components.
 */
module MusicMerge {
  import opened Numbers

  datatype Region = Region(start: real, end: real, kind: string, confidence: real, reason: string)

  // ----- the program -----

  /** The sort key order: by start, then by end. */
  predicate KeyLeq(a: Region, b: Region) {
    a.start < b.start || (a.start == b.start && a.end <= b.end)
  }

  predicate Sorted(s: seq<Region>) {
    forall i, j :: 0 <= i < j < |s| ==> KeyLeq(s[i], s[j])
  }

  function Insert(r: Region, s: seq<Region>): seq<Region> {
    if s == [] || KeyLeq(r, s[0]) then [r] + s else [s[0]] + Insert(r, s[1..])
  }

  /** `sorted(regs, key=…)`: a stable sort. */
  function Sort(s: seq<Region>): seq<Region> {
    if s == [] then [] else Insert(s[0], Sort(s[1..]))
  }

  function Join(cur: Region, r: Region): Region {
    Region(cur.start, Max(cur.end, r.end), cur.kind, Max(cur.confidence, r.confidence), cur.reason + ";" + r.reason)
  }

  predicate Near(cur: Region, r: Region, gap: real) {
    r.start <= cur.end + gap
  }

  /** The sweep over the first n regions of a sorted list: the closed regions followed by the current one. */
  function Sweep(s: seq<Region>, n: nat, gap: real): (out: seq<Region>)
    requires 1 <= n <= |s|
    ensures out != []
  {
    if n == 1 then [s[0]]
    else
      var out := Sweep(s, n - 1, gap);
      var cur := out[|out| - 1];
      if Near(cur, s[n - 1], gap) then out[..|out| - 1] + [Join(cur, s[n - 1])] else out + [s[n - 1]]
  }

  function Merge(regs: seq<Region>, gap: real): seq<Region> {
    if regs == [] then [] else SortLength(regs); Sweep(Sort(regs), |regs|, gap)
  }

  method MergeRegions(regs: seq<Region>, gap: real) returns (out: seq<Region>)
    ensures out == Merge(regs, gap)
  {
    if regs == [] {
      return [];
    }
    var sorted := Sort(regs);
    SortLength(regs);
    out := [];
    var cur := sorted[0];
    for i := 1 to |sorted|
      invariant out + [cur] == Sweep(sorted, i, gap)
    {
      var r := sorted[i];
      assert Sweep(sorted, i, gap)[..|out|] == out && Sweep(sorted, i, gap)[|out|] == cur;
      if Near(cur, r, gap) {
        cur := Join(cur, r);
      } else {
        out := out + [cur];
        cur := r;
      }
    }
    out := out + [cur];
  }

  // ----- sorting -----

  lemma {:induction false} InsertSorts(r: Region, s: seq<Region>)
    requires Sorted(s)
    ensures Sorted(Insert(r, s)) && multiset(Insert(r, s)) == multiset(s) + multiset{r}
    ensures |Insert(r, s)| == |s| + 1
  {
    if s == [] || KeyLeq(r, s[0]) {
    } else {
      InsertSorts(r, s[1..]);
      assert s == [s[0]] + s[1..];
      var t := Insert(r, s[1..]);
      forall x | x in t
        ensures KeyLeq(s[0], x)
      {
        assert x in multiset(t);
        assert x == r || x in s[1..];
      }
      SortedCons(s[0], t);
    }
  }

  lemma {:induction false} SortedCons(r: Region, s: seq<Region>)
    requires Sorted(s) && forall x :: x in s ==> KeyLeq(r, x)
    ensures Sorted([r] + s)
  {
  }

  /** The regions with one sort key, in their order. */
  function WithKey(s: seq<Region>, start: real, end: real): seq<Region> {
    if s == [] then []
    else (if s[0].start == start && s[0].end == end then [s[0]] else []) + WithKey(s[1..], start, end)
  }

  lemma {:induction false} InsertIsStable(r: Region, s: seq<Region>, start: real, end: real)
    ensures WithKey(Insert(r, s), start, end) == WithKey([r] + s, start, end)
  {
    assert ([r] + s)[1..] == s;
    if s != [] && !KeyLeq(r, s[0]) {
      InsertIsStable(r, s[1..], start, end);
      assert ([s[0]] + Insert(r, s[1..]))[1..] == Insert(r, s[1..]);
      assert ([r] + s[1..])[1..] == s[1..];
    }
  }

  /** Sorting is stable: regions with the same start and end keep their order. */
  lemma {:induction false} SortIsStable(s: seq<Region>, start: real, end: real)
    ensures WithKey(Sort(s), start, end) == WithKey(s, start, end)
  {
    if s != [] {
      SortIsStable(s[1..], start, end);
      InsertIsStable(s[0], Sort(s[1..]), start, end);
      assert ([s[0]] + Sort(s[1..]))[1..] == Sort(s[1..]);
    }
  }

  lemma {:induction false} SortSorts(s: seq<Region>)
    ensures Sorted(Sort(s)) && multiset(Sort(s)) == multiset(s) && |Sort(s)| == |s|
  {
    if s != [] {
      SortSorts(s[1..]);
      InsertSorts(s[0], Sort(s[1..]));
      assert s == [s[0]] + s[1..];
    }
  }

  lemma {:induction false} SortLength(s: seq<Region>)
    ensures |Sort(s)| == |s|
  {
    SortSorts(s);
  }

  lemma {:induction false} SortKeepsMembers(s: seq<Region>)
    ensures forall x :: x in Sort(s) <==> x in s
  {
    SortSorts(s);
    assert forall x :: x in Sort(s) <==> x in multiset(Sort(s));
    assert forall x :: x in s <==> x in multiset(s);
  }

  /** The sort is stable and does nothing to a list already in order. */
  lemma {:induction false} SortOfSorted(s: seq<Region>)
    requires Sorted(s)
    ensures Sort(s) == s
  {
    if s != [] {
      SortOfSorted(s[1..]);
      assert s == [s[0]] + s[1..];
    }
  }

  // ----- the gap graph -----

  predicate WellFormed(regs: seq<Region>) {
    forall x :: x in regs ==> x.start <= x.end
  }

  predicate Linked(x: Region, y: Region, gap: real) {
    x.start <= y.end + gap && y.start <= x.end + gap
  }

  ghost predicate Path(regs: seq<Region>, gap: real, p: seq<Region>) {
    && p != [] && (forall i :: 0 <= i < |p| ==> p[i] in regs)
    && forall i :: 0 <= i < |p| - 1 ==> Linked(p[i], p[i + 1], gap)
  }

  ghost predicate PathBetween(regs: seq<Region>, gap: real, p: seq<Region>, x: Region, y: Region) {
    Path(regs, gap, p) && p[0] == x && p[|p| - 1] == y
  }

  /** In the same component of the gap graph. */
  ghost predicate Connected(regs: seq<Region>, gap: real, x: Region, y: Region) {
    exists p :: PathBetween(regs, gap, p, x, y)
  }

  lemma {:induction false} ConnectedSelf(regs: seq<Region>, gap: real, x: Region)
    requires x in regs
    ensures Connected(regs, gap, x, x)
  {
    assert PathBetween(regs, gap, [x], x, x);
  }

  lemma {:induction false} ConnectedStep(regs: seq<Region>, gap: real, x: Region, y: Region, z: Region)
    requires Connected(regs, gap, x, y) && z in regs && Linked(y, z, gap)
    ensures Connected(regs, gap, x, z)
  {
    var p :| PathBetween(regs, gap, p, x, y);
    assert PathBetween(regs, gap, p + [z], x, z);
  }

  lemma {:induction false} ConnectedSymmetric(regs: seq<Region>, gap: real, x: Region, y: Region)
    requires Connected(regs, gap, x, y)
    ensures Connected(regs, gap, y, x)
  {
    var p :| PathBetween(regs, gap, p, x, y);
    var q := seq(|p|, i requires 0 <= i < |p| => p[|p| - 1 - i]);
    forall i | 0 <= i < |q| - 1
      ensures Linked(q[i], q[i + 1], gap)
    {
      assert Linked(p[|p| - 2 - i], p[|p| - 2 - i + 1], gap);
    }
    assert PathBetween(regs, gap, q, y, x);
  }

  lemma {:induction false} ConnectedTransitive(regs: seq<Region>, gap: real, x: Region, y: Region, z: Region)
    requires Connected(regs, gap, x, y) && Connected(regs, gap, y, z)
    ensures Connected(regs, gap, x, z)
  {
    var p :| PathBetween(regs, gap, p, x, y);
    var q :| PathBetween(regs, gap, q, y, z);
    var pq := p + q[1..];
    forall i | 0 <= i < |pq| - 1
      ensures Linked(pq[i], pq[i + 1], gap)
    {
      if i >= |p| - 1 {
        assert Linked(q[i - (|p| - 1)], q[i - (|p| - 1) + 1], gap);
      }
    }
    assert PathBetween(regs, gap, pq, x, z);
  }

  lemma {:induction false} ConnectedMono(regs: seq<Region>, more: seq<Region>, gap: real, x: Region, y: Region)
    requires Connected(regs, gap, x, y) && forall r :: r in regs ==> r in more
    ensures Connected(more, gap, x, y)
  {
    var p :| PathBetween(regs, gap, p, x, y);
    assert PathBetween(more, gap, p, x, y);
  }

  // ----- what a merged list is -----

  /** The inputs that a merged region stands for. */
  predicate Holds(o: Region, x: Region) {
    o.start <= x.start && x.end <= o.end
  }

  ghost predicate Apart(out: seq<Region>, gap: real) {
    forall i, j :: 0 <= i < j < |out| ==> out[i].end + gap < out[j].start
  }

  /** A merged region's start, end and confidence are attained by inputs it holds, and none has a higher confidence. */
  ghost predicate Tight(regs: seq<Region>, o: Region) {
    && (exists x :: x in regs && Holds(o, x) && x.start == o.start)
    && (exists x :: x in regs && Holds(o, x) && x.end == o.end)
    && (exists x :: x in regs && Holds(o, x) && x.confidence == o.confidence)
    && (forall x :: x in regs && Holds(o, x) ==> x.confidence <= o.confidence)
  }

  ghost predicate Covered(out: seq<Region>, x: Region) {
    exists k :: 0 <= k < |out| && Holds(out[k], x)
  }

  /** The inputs that a merged region holds are connected to one another. */
  ghost predicate OneComponent(regs: seq<Region>, gap: real, o: Region) {
    forall x, y :: x in regs && y in regs && Holds(o, x) && Holds(o, y) ==> Connected(regs, gap, x, y)
  }

  /** A merged region that stands for one component of the inputs. */
  ghost predicate Component(regs: seq<Region>, gap: real, o: Region) {
    o.start <= o.end && Tight(regs, o) && OneComponent(regs, gap, o)
  }

  ghost predicate AllCovered(regs: seq<Region>, out: seq<Region>) {
    forall x :: x in regs ==> Covered(out, x)
  }

  /** What the sweep has established about the regions it has read. */
  ghost predicate Merged(regs: seq<Region>, gap: real, out: seq<Region>) {
    Apart(out, gap) && AllCovered(regs, out) && forall o :: o in out ==> Component(regs, gap, o)
  }

  lemma {:induction false} TightMore(regs: seq<Region>, r: Region, o: Region)
    requires Tight(regs, o) && !Holds(o, r)
    ensures Tight(regs + [r], o)
  {
  }

  lemma {:induction false} OneComponentMore(regs: seq<Region>, gap: real, r: Region, o: Region)
    requires OneComponent(regs, gap, o) && !Holds(o, r)
    ensures OneComponent(regs + [r], gap, o)
  {
    forall x, y | x in regs + [r] && y in regs + [r] && Holds(o, x) && Holds(o, y)
      ensures Connected(regs + [r], gap, x, y)
    {
      ConnectedMono(regs, regs + [r], gap, x, y);
    }
  }

  lemma {:induction false} ComponentMore(regs: seq<Region>, gap: real, r: Region, o: Region)
    requires Component(regs, gap, o) && r.start <= r.end && o.end < r.start
    ensures Component(regs + [r], gap, o)
  {
    TightMore(regs, r, o);
    OneComponentMore(regs, gap, r, o);
  }

  /** A region that starts after every other one ends is a component by itself. */
  lemma {:induction false} Alone(regs: seq<Region>, gap: real, r: Region)
    requires r.start <= r.end && forall x :: x in regs ==> x.start < r.start
    ensures Component(regs + [r], gap, r)
  {
    ConnectedSelf(regs + [r], gap, r);
    assert r in regs + [r] && Holds(r, r);
    assert forall x :: x in regs + [r] && Holds(r, x) ==> x == r;
  }

  lemma {:induction false} CoveredBy(regs: seq<Region>, out: seq<Region>, x: Region) returns (k: nat)
    requires AllCovered(regs, out) && x in regs
    ensures k < |out| && out[k] in out && Holds(out[k], x)
  {
    assert Covered(out, x);
    k :| 0 <= k < |out| && Holds(out[k], x);
  }

  lemma {:induction false} LastIsGreatest(regs: seq<Region>, gap: real, out: seq<Region>)
    requires gap >= 0.0 && out != [] && Merged(regs, gap, out)
    ensures forall i :: 0 <= i < |out| - 1 ==> out[i].end < out[|out| - 1].start <= out[|out| - 1].end
  {
    assert out[|out| - 1] in out && Component(regs, gap, out[|out| - 1]);
  }

  /** An input belongs to the last region of a merged list when it starts no earlier than that region. */
  lemma {:induction false} HeldByLast(regs: seq<Region>, gap: real, out: seq<Region>, x: Region)
    requires gap >= 0.0 && out != [] && Merged(regs, gap, out) && WellFormed(regs)
    requires x in regs && out[|out| - 1].start <= x.start
    ensures Holds(out[|out| - 1], x)
  {
  }

  /** The sweep opens a new region. */
  lemma {:induction false} OpenKeepsMerged(regs: seq<Region>, gap: real, out: seq<Region>, r: Region)
    requires gap >= 0.0 && out != [] && Merged(regs, gap, out) && WellFormed(regs) && r.start <= r.end
    requires !Near(out[|out| - 1], r, gap)
    ensures Merged(regs + [r], gap, out + [r])
  {
    LastIsGreatest(regs, gap, out);
    assert forall i :: 0 <= i < |out| ==> out[i].end + gap < r.start;
    OpenIsApart(out, gap, r);
    OpenCovers(regs, out, r);
    InputsStartBefore(regs, out, r);
    OpenKeepsComponents(regs, gap, out, r);
  }

  lemma {:induction false} OpenIsApart(out: seq<Region>, gap: real, r: Region)
    requires Apart(out, gap) && forall i :: 0 <= i < |out| ==> out[i].end + gap < r.start
    ensures Apart(out + [r], gap)
  {
  }

  lemma {:induction false} OpenCovers(regs: seq<Region>, out: seq<Region>, r: Region)
    requires AllCovered(regs, out) && r.start <= r.end
    ensures AllCovered(regs + [r], out + [r])
  {
    var out' := out + [r];
    forall x | x in regs + [r]
      ensures Covered(out', x)
    {
      if x in regs {
        var k := CoveredBy(regs, out, x);
        assert Holds(out'[k], x);
      } else {
        assert Holds(out'[|out|], x);
      }
    }
  }

  lemma {:induction false} InputsStartBefore(regs: seq<Region>, out: seq<Region>, r: Region)
    requires AllCovered(regs, out) && WellFormed(regs) && forall i :: 0 <= i < |out| ==> out[i].end < r.start
    ensures forall x :: x in regs ==> x.start < r.start
  {
    forall x | x in regs
      ensures x.start < r.start
    {
      var k := CoveredBy(regs, out, x);
    }
  }

  lemma {:induction false} OpenKeepsComponents(regs: seq<Region>, gap: real, out: seq<Region>, r: Region)
    requires r.start <= r.end && forall o :: o in out ==> Component(regs, gap, o)
    requires forall i :: 0 <= i < |out| ==> out[i].end < r.start
    requires forall x :: x in regs ==> x.start < r.start
    ensures forall o :: o in out + [r] ==> Component(regs + [r], gap, o)
  {
    Alone(regs, gap, r);
    forall o | o in out + [r]
      ensures Component(regs + [r], gap, o)
    {
      if o in out {
        ComponentMore(regs, gap, r, o);
      }
    }
  }

  /** The sweep joins a region to the current one. */
  lemma {:induction false} JoinKeepsMerged(regs: seq<Region>, gap: real, out: seq<Region>, r: Region)
    requires gap >= 0.0 && out != [] && Merged(regs, gap, out) && WellFormed(regs) && r.start <= r.end
    requires forall x :: x in regs ==> x.start <= r.start
    requires Near(out[|out| - 1], r, gap)
    ensures Merged(regs + [r], gap, out[..|out| - 1] + [Join(out[|out| - 1], r)])
  {
    var more, n := regs + [r], |out| - 1;
    var out' := out[..n] + [Join(out[n], r)];
    assert out[n] in out;
    CurrentStartsBefore(regs, gap, out[n], r);
    JoinIsTight(regs, gap, out, r);
    JoinIsOneComponent(regs, gap, out, r);
    JoinCovers(regs, gap, out, r);
    JoinIsApart(out, gap, r);
    forall o | o in out'
      ensures Component(more, gap, o)
    {
      if o != Join(out[n], r) {
        ClosedStayComponents(regs, gap, out, r, o);
      }
    }
  }

  lemma {:induction false} JoinIsApart(out: seq<Region>, gap: real, r: Region)
    requires out != [] && Apart(out, gap)
    ensures Apart(out[..|out| - 1] + [Join(out[|out| - 1], r)], gap)
  {
    var out' := out[..|out| - 1] + [Join(out[|out| - 1], r)];
    forall i, j | 0 <= i < j < |out'|
      ensures out'[i].end + gap < out'[j].start
    {
      assert out[i].end + gap < out[j].start;
    }
  }

  /** The regions before the current one are done. */
  lemma {:induction false} ClosedStayComponents(regs: seq<Region>, gap: real, out: seq<Region>, r: Region, o: Region)
    requires gap >= 0.0 && out != [] && Apart(out, gap) && o in out[..|out| - 1] && Component(regs, gap, o)
    requires out[|out| - 1].start <= r.start <= r.end
    ensures Component(regs + [r], gap, o)
  {
    var n := |out| - 1;
    var i :| 0 <= i < n && out[i] == o;
    assert out[i].end + gap < out[n].start;
    ComponentMore(regs, gap, r, o);
  }

  lemma {:induction false} JoinCovers(regs: seq<Region>, gap: real, out: seq<Region>, r: Region)
    requires out != [] && AllCovered(regs, out) && out[|out| - 1].start <= r.start
    ensures AllCovered(regs + [r], out[..|out| - 1] + [Join(out[|out| - 1], r)])
  {
    var n := |out| - 1;
    var out' := out[..n] + [Join(out[n], r)];
    forall x | x in regs + [r]
      ensures Covered(out', x)
    {
      if x in regs {
        var k := CoveredBy(regs, out, x);
        assert Holds(out'[k], x);
      } else {
        assert Holds(out'[n], x);
      }
    }
  }

  lemma {:induction false} CurrentStartsBefore(regs: seq<Region>, gap: real, cur: Region, r: Region)
    requires Component(regs, gap, cur) && forall x :: x in regs ==> x.start <= r.start
    ensures cur.start <= r.start
  {
  }

  lemma {:induction false} JoinIsTight(regs: seq<Region>, gap: real, out: seq<Region>, r: Region)
    requires gap >= 0.0 && out != [] && Merged(regs, gap, out) && WellFormed(regs) && r.start <= r.end
    requires out[|out| - 1].start <= r.start
    ensures Tight(regs + [r], Join(out[|out| - 1], r))
  {
    var cur := out[|out| - 1];
    assert cur in out && Component(regs, gap, cur);
    JoinAttains(regs, cur, r);
    JoinConfidence(regs, gap, out, r);
  }

  lemma {:induction false} JoinAttains(regs: seq<Region>, cur: Region, r: Region)
    requires Tight(regs, cur) && r.start <= r.end && cur.start <= r.start
    ensures var more, cur' := regs + [r], Join(cur, r);
            && (exists x :: x in more && Holds(cur', x) && x.start == cur'.start)
            && (exists x :: x in more && Holds(cur', x) && x.end == cur'.end)
            && (exists x :: x in more && Holds(cur', x) && x.confidence == cur'.confidence)
  {
    var more, cur' := regs + [r], Join(cur, r);
    var x :| x in regs && Holds(cur, x) && x.start == cur.start;
    var y :| y in regs && Holds(cur, y) && y.end == cur.end;
    var z :| z in regs && Holds(cur, z) && z.confidence == cur.confidence;
    assert r in more && Holds(cur', r);
    assert x in more && Holds(cur', x) && y in more && Holds(cur', y) && z in more && Holds(cur', z);
    assert cur'.end == y.end || cur'.end == r.end;
    assert cur'.confidence == z.confidence || cur'.confidence == r.confidence;
  }

  lemma {:induction false} JoinConfidence(regs: seq<Region>, gap: real, out: seq<Region>, r: Region)
    requires gap >= 0.0 && out != [] && Merged(regs, gap, out) && WellFormed(regs) && r.start <= r.end
    requires out[|out| - 1].start <= r.start
    ensures var cur' := Join(out[|out| - 1], r);
            forall v :: v in regs + [r] && Holds(cur', v) ==> v.confidence <= cur'.confidence
  {
    var cur := out[|out| - 1];
    assert cur in out && Component(regs, gap, cur);
    forall v | v in regs + [r] && Holds(Join(cur, r), v)
      ensures v.confidence <= Join(cur, r).confidence
    {
      if v in regs {
        HeldByLast(regs, gap, out, v);
      }
    }
  }

  lemma {:induction false} JoinIsOneComponent(regs: seq<Region>, gap: real, out: seq<Region>, r: Region)
    requires gap >= 0.0 && out != [] && Merged(regs, gap, out) && WellFormed(regs) && r.start <= r.end
    requires forall x :: x in regs ==> x.start <= r.start
    requires Near(out[|out| - 1], r, gap)
    ensures OneComponent(regs + [r], gap, Join(out[|out| - 1], r))
  {
    var more, cur := regs + [r], out[|out| - 1];
    assert cur in out && Component(regs, gap, cur);
    var last :| last in regs && Holds(cur, last) && last.end == cur.end;
    assert Linked(last, r, gap);
    forall x | x in more && Holds(Join(cur, r), x)
      ensures Connected(more, gap, x, r)
    {
      if x in regs {
        HeldByLast(regs, gap, out, x);
        ConnectedMono(regs, more, gap, x, last);
        ConnectedStep(more, gap, x, last, r);
      } else {
        ConnectedSelf(more, gap, r);
      }
    }
    forall x, y | x in more && y in more && Holds(Join(cur, r), x) && Holds(Join(cur, r), y)
      ensures Connected(more, gap, x, y)
    {
      ConnectedSymmetric(more, gap, y, r);
      ConnectedTransitive(more, gap, x, r, y);
    }
  }

  lemma {:induction false} SweepMerges(s: seq<Region>, n: nat, gap: real)
    requires gap >= 0.0 && Sorted(s) && WellFormed(s) && 1 <= n <= |s|
    ensures Merged(s[..n], gap, Sweep(s, n, gap))
  {
    if n == 1 {
      Alone([], gap, s[0]);
      assert s[..1] == [] + [s[0]] && Holds([s[0]][0], s[0]);
    } else {
      SweepMerges(s, n - 1, gap);
      var out, r := Sweep(s, n - 1, gap), s[n - 1];
      assert s[..n] == s[..n - 1] + [r];
      if Near(out[|out| - 1], r, gap) {
        JoinKeepsMerged(s[..n - 1], gap, out, r);
      } else {
        OpenKeepsMerged(s[..n - 1], gap, out, r);
      }
    }
  }

  // ----- theorems about the merge -----

  lemma {:induction false} ComponentSameMembers(regs: seq<Region>, same: seq<Region>, gap: real, o: Region)
    requires Component(regs, gap, o) && forall x :: x in regs <==> x in same
    ensures Component(same, gap, o)
  {
    forall x, y | x in same && y in same && Holds(o, x) && Holds(o, y)
      ensures Connected(same, gap, x, y)
    {
      ConnectedMono(regs, same, gap, x, y);
    }
  }

  lemma {:induction false} MergeIsMerged(regs: seq<Region>, gap: real)
    requires gap >= 0.0 && WellFormed(regs)
    ensures Merged(regs, gap, Merge(regs, gap))
  {
    if regs != [] {
      var s, out := Sort(regs), Merge(regs, gap);
      SortSorts(regs);
      SortKeepsMembers(regs);
      assert s[..|regs|] == s;
      SweepMerges(s, |regs|, gap);
      forall o | o in out
        ensures Component(regs, gap, o)
      {
        ComponentSameMembers(s, regs, gap, o);
      }
    }
  }

  lemma {:induction false} ApartAt(out: seq<Region>, gap: real, i: nat, j: nat)
    requires Apart(out, gap) && i < |out| && j < |out|
    ensures i == j || out[i].end + gap < out[j].start || out[j].end + gap < out[i].start
  {
  }

  /** A link never leads out of a merged region. */
  lemma {:induction false} LinkStays(regs: seq<Region>, gap: real, out: seq<Region>, k: nat, x: Region, y: Region)
    requires gap >= 0.0 && WellFormed(regs) && Merged(regs, gap, out) && k < |out|
    requires x in regs && y in regs && Holds(out[k], x) && Linked(x, y, gap)
    ensures Holds(out[k], y)
  {
  }

  lemma {:induction false} PathStays(regs: seq<Region>, gap: real, out: seq<Region>, k: nat, p: seq<Region>)
    requires gap >= 0.0 && WellFormed(regs) && Merged(regs, gap, out) && k < |out|
    requires Path(regs, gap, p) && Holds(out[k], p[0])
    ensures Holds(out[k], p[|p| - 1])
  {
    var n := |p| - 1;
    if n > 0 {
      var q := p[..n];
      assert forall i :: 0 <= i < |q| - 1 ==> Linked(p[i], p[i + 1], gap);
      PathStays(regs, gap, out, k, q);
      assert Linked(p[n - 1], p[n - 1 + 1], gap);
      LinkStays(regs, gap, out, k, p[n - 1], p[n]);
    }
  }

  /** Two inputs belong to the same merged region if and only if they are connected. */
  lemma {:induction false} SameRegionIffConnected(regs: seq<Region>, gap: real, out: seq<Region>, k: nat, x: Region,
                                                  y: Region)
    requires gap >= 0.0 && WellFormed(regs) && Merged(regs, gap, out) && k < |out|
    requires x in regs && y in regs && Holds(out[k], x)
    ensures Holds(out[k], y) <==> Connected(regs, gap, x, y)
  {
    if Holds(out[k], y) {
      assert Component(regs, gap, out[k]);
    }
    if Connected(regs, gap, x, y) {
      var p :| PathBetween(regs, gap, p, x, y);
      PathStays(regs, gap, out, k, p);
    }
  }

  /**
    The merged regions are exactly the connected components of the gap graph: every input lies in one and
    only one of them, two inputs share one if and only if they are connected, each one's start, end and
    confidence are the least start, greatest end and greatest confidence of its inputs, and successive ones
    are more than the gap apart.
   */
  lemma {:induction false} MergeIsComponents(regs: seq<Region>, gap: real)
    requires gap >= 0.0 && WellFormed(regs)
    ensures var out := Merge(regs, gap);
            && Apart(out, gap)
            && (forall x :: x in regs ==> Covered(out, x))
            && (forall x, i, j ::
                  0 <= i < |out| && 0 <= j < |out| && x in regs && Holds(out[i], x) && Holds(out[j], x) ==> i == j)
            && (forall x, y, k :: 0 <= k < |out| && x in regs && y in regs && Holds(out[k], x) ==>
                  (Holds(out[k], y) <==> Connected(regs, gap, x, y)))
            && (forall o :: o in out ==> Tight(regs, o))
  {
    var out := Merge(regs, gap);
    MergeIsMerged(regs, gap);
    forall x, i, j | 0 <= i < |out| && 0 <= j < |out| && x in regs && Holds(out[i], x) && Holds(out[j], x)
      ensures i == j
    {
      ApartAt(out, gap, i, j);
    }
    forall x, y, k | 0 <= k < |out| && x in regs && y in regs && Holds(out[k], x)
      ensures Holds(out[k], y) <==> Connected(regs, gap, x, y)
    {
      SameRegionIffConnected(regs, gap, out, k, x, y);
    }
  }

  // ----- order does not matter -----

  datatype Span = Span(start: real, end: real, confidence: real)

  function SpanOf(o: Region): Span {
    Span(o.start, o.end, o.confidence)
  }

  function Spans(out: seq<Region>): seq<Span> {
    seq(|out|, i requires 0 <= i < |out| => SpanOf(out[i]))
  }

  ghost predicate Increasing(s: seq<Span>) {
    forall i, j :: 0 <= i < j < |s| ==> s[i].start < s[j].start
  }

  lemma {:induction false} IncreasingUnique(a: seq<Span>, b: seq<Span>)
    requires Increasing(a) && Increasing(b) && forall x :: x in a <==> x in b
    ensures a == b
  {
    assert a != [] ==> a[0] in a;
    assert b != [] ==> b[0] in b;
    if a != [] && b != [] {
      assert a[0] in b && b[0] in a;
      assert a[0] == b[0];
      forall x
        ensures x in a[1..] <==> x in b[1..]
      {
        assert x in a[1..] ==> x in a && x != a[0];
        assert x in b[1..] ==> x in b && x != b[0];
        assert x in a && x != a[0] ==> x in a[1..];
        assert x in b && x != b[0] ==> x in b[1..];
      }
      IncreasingUnique(a[1..], b[1..]);
      assert a == [a[0]] + a[1..] && b == [b[0]] + b[1..];
    }
  }

  /** Every merged region of one order has the span of a merged region of the other. */
  lemma {:induction false} SpanOccurs(regs: seq<Region>, same: seq<Region>, gap: real, out: seq<Region>,
                                      out': seq<Region>, o: Region)
    requires gap >= 0.0 && WellFormed(regs) && forall x :: x in regs <==> x in same
    requires Merged(regs, gap, out) && Merged(same, gap, out') && o in out
    ensures exists k :: 0 <= k < |out'| && SpanOf(out'[k]) == SpanOf(o)
  {
    assert Component(regs, gap, o);
    var i :| 0 <= i < |out| && out[i] == o;
    var x :| x in regs && Holds(o, x) && x.start == o.start;
    var k := CoveredBy(same, out', x);
    assert Component(same, gap, out'[k]);
    forall y | y in regs
      ensures Holds(o, y) <==> Holds(out'[k], y)
    {
      SameRegionIffConnected(regs, gap, out, i, x, y);
      SameRegionIffConnected(same, gap, out', k, x, y);
      if Connected(regs, gap, x, y) {
        ConnectedMono(regs, same, gap, x, y);
      }
      if Connected(same, gap, x, y) {
        ConnectedMono(same, regs, gap, x, y);
      }
    }
    SameHeldSameSpan(regs, same, o, out'[k]);
  }

  lemma {:induction false} SpansOccur(regs: seq<Region>, same: seq<Region>, gap: real, out: seq<Region>,
                                      out': seq<Region>)
    requires gap >= 0.0 && WellFormed(regs) && forall x :: x in regs <==> x in same
    requires Merged(regs, gap, out) && Merged(same, gap, out')
    ensures forall x :: x in Spans(out) ==> x in Spans(out')
  {
    forall x | x in Spans(out)
      ensures x in Spans(out')
    {
      var i :| 0 <= i < |out| && Spans(out)[i] == x;
      SpanOccurs(regs, same, gap, out, out', out[i]);
      var k :| 0 <= k < |out'| && SpanOf(out'[k]) == SpanOf(out[i]);
      assert Spans(out')[k] == x;
    }
  }

  lemma {:induction false} SameHeldSameSpan(regs: seq<Region>, same: seq<Region>, o: Region, o': Region)
    requires forall x :: x in regs <==> x in same
    requires Tight(regs, o) && Tight(same, o') && forall y :: y in regs ==> (Holds(o, y) <==> Holds(o', y))
    ensures SpanOf(o) == SpanOf(o')
  {
  }

  /** Start, end and confidence of the merged regions do not depend on the order of the inputs. */
  lemma {:induction false} MergeIgnoresOrder(regs: seq<Region>, same: seq<Region>, gap: real)
    requires gap >= 0.0 && WellFormed(regs) && multiset(regs) == multiset(same)
    ensures Spans(Merge(regs, gap)) == Spans(Merge(same, gap))
  {
    assert forall x :: x in regs <==> x in multiset(regs);
    assert forall x :: x in same <==> x in multiset(same);
    var out, out' := Merge(regs, gap), Merge(same, gap);
    MergeIsMerged(regs, gap);
    MergeIsMerged(same, gap);
    SpansIncrease(regs, gap, out);
    SpansIncrease(same, gap, out');
    SpansOccur(regs, same, gap, out, out');
    SpansOccur(same, regs, gap, out', out);
    IncreasingUnique(Spans(out), Spans(out'));
  }

  lemma {:induction false} SpansIncrease(regs: seq<Region>, gap: real, out: seq<Region>)
    requires gap >= 0.0 && Merged(regs, gap, out)
    ensures Increasing(Spans(out))
  {
    forall i, j | 0 <= i < j < |out|
      ensures out[i].start < out[j].start
    {
      assert out[i] in out && out[i].end + gap < out[j].start;
    }
  }

  // ----- merging twice -----

  lemma {:induction false} SweepOfApart(s: seq<Region>, n: nat, gap: real)
    requires Apart(s, gap) && 1 <= n <= |s|
    ensures Sweep(s, n, gap) == s[..n]
  {
    if n > 1 {
      SweepOfApart(s, n - 1, gap);
      assert s[n - 2].end + gap < s[n - 1].start;
      SweepOpens(s, n, gap, s[..n - 1]);
      assert s[..n] == s[..n - 1] + [s[n - 1]];
    }
  }

  lemma {:induction false} SweepOpens(s: seq<Region>, n: nat, gap: real, out: seq<Region>)
    requires 1 < n <= |s| && Sweep(s, n - 1, gap) == out && out != [] && !Near(out[|out| - 1], s[n - 1], gap)
    ensures Sweep(s, n, gap) == out + [s[n - 1]]
  {
  }

  /** Merging a merged list changes nothing at all. */
  lemma {:induction false} MergeIsIdempotent(regs: seq<Region>, gap: real)
    requires gap >= 0.0 && WellFormed(regs)
    ensures Merge(Merge(regs, gap), gap) == Merge(regs, gap)
  {
    var out := Merge(regs, gap);
    MergeIsMerged(regs, gap);
    forall i, j | 0 <= i < j < |out|
      ensures KeyLeq(out[i], out[j])
    {
      assert out[i] in out && out[i].end + gap < out[j].start;
    }
    SortOfSorted(out);
    if out != [] {
      SweepOfApart(out, |out|, gap);
      assert out[..|out|] == out;
    }
  }

  // ----- labels -----

  /** The reasons of a list, joined by semicolons. */
  function Reasons(s: seq<Region>): string {
    if s == [] then "" else if |s| == 1 then s[0].reason else Reasons(s[..|s| - 1]) + ";" + s[|s| - 1].reason
  }

  lemma {:induction false} ReasonsSnoc(s: seq<Region>, r: Region)
    requires s != []
    ensures Reasons(s + [r]) == Reasons(s) + ";" + r.reason
  {
  }

  /** No reason is lost, repeated or moved: read in order, the merged regions give the sorted inputs' reasons. */
  lemma {:induction false} SweepKeepsReasons(s: seq<Region>, n: nat, gap: real)
    requires 1 <= n <= |s|
    ensures Reasons(Sweep(s, n, gap)) == Reasons(s[..n])
  {
    if n > 1 {
      SweepKeepsReasons(s, n - 1, gap);
      SweepStepKeepsReasons(s, n, gap, Sweep(s, n - 1, gap), s[..n - 1], s[..n]);
    } else {
      assert s[..1] == [s[0]];
    }
  }

  lemma {:induction false} SweepStepKeepsReasons(s: seq<Region>, n: nat, gap: real, out: seq<Region>,
                                                 read: seq<Region>, more: seq<Region>)
    requires 1 < n <= |s| && out == Sweep(s, n - 1, gap) && read == s[..n - 1] && more == s[..n]
    requires Reasons(out) == Reasons(read)
    ensures Reasons(Sweep(s, n, gap)) == Reasons(more)
  {
    var pre, cur := SweepShape(s, n, gap);
    ReasonsOfStep(out, pre, cur, s[n - 1], Sweep(s, n, gap), read, more);
  }

  /** One step of the sweep: the current region, after the closed ones, is joined or closed. */
  lemma {:induction false} SweepShape(s: seq<Region>, n: nat, gap: real) returns (pre: seq<Region>, cur: Region)
    requires 1 < n <= |s|
    ensures Sweep(s, n - 1, gap) == pre + [cur]
    ensures Sweep(s, n, gap) == pre + [Join(cur, s[n - 1])] || Sweep(s, n, gap) == pre + [cur] + [s[n - 1]]
  {
    var out := Sweep(s, n - 1, gap);
    pre, cur := out[..|out| - 1], out[|out| - 1];
  }

  lemma {:induction false} ReasonsOfStep(out: seq<Region>, pre: seq<Region>, cur: Region, r: Region,
                                         next: seq<Region>, read: seq<Region>, more: seq<Region>)
    requires out == pre + [cur] && Reasons(out) == Reasons(read) && read != [] && more == read + [r]
    requires next == pre + [Join(cur, r)] || next == pre + [cur] + [r]
    ensures Reasons(next) == Reasons(more)
  {
    ReasonsSnoc(read, r);
    ReasonsSweepStep(out, pre, cur, r);
  }

  /** Opening or joining, one step of the sweep adds the next region's reason at the end. */
  lemma {:induction false} ReasonsSweepStep(out: seq<Region>, pre: seq<Region>, cur: Region, r: Region)
    requires out == pre + [cur]
    ensures Reasons(pre + [Join(cur, r)]) == Reasons(out) + ";" + r.reason
    ensures Reasons(out + [r]) == Reasons(out) + ";" + r.reason
  {
  }

  lemma {:induction false} MergeKeepsReasons(regs: seq<Region>, gap: real)
    ensures Reasons(Merge(regs, gap)) == Reasons(Sort(regs))
  {
    if regs != [] {
      SortLength(regs);
      SweepKeepsReasons(Sort(regs), |regs|, gap);
      assert Sort(regs)[..|regs|] == Sort(regs);
    }
  }

  /** A merged region carries the kind of an input it holds that starts where it starts. */
  ghost predicate KindFromFirst(regs: seq<Region>, o: Region) {
    exists x :: x in regs && x.start == o.start && x.kind == o.kind
  }

  lemma {:induction false} SweepKeepsKinds(s: seq<Region>, n: nat, gap: real)
    requires 1 <= n <= |s|
    ensures forall o :: o in Sweep(s, n, gap) ==> KindFromFirst(s, o)
  {
    if n > 1 {
      SweepKeepsKinds(s, n - 1, gap);
      var out, r := Sweep(s, n - 1, gap), s[n - 1];
      var cur := out[|out| - 1];
      assert KindFromFirst(s, cur);
      var x :| x in s && x.start == cur.start && x.kind == cur.kind;
      assert KindFromFirst(s, Join(cur, r)) && KindFromFirst(s, r);
    } else {
      assert s[0] in s && KindFromFirst(s, s[0]);
    }
  }

  lemma {:induction false} MergeKeepsKinds(regs: seq<Region>, gap: real)
    ensures forall o :: o in Merge(regs, gap) ==> KindFromFirst(regs, o)
  {
    if regs != [] {
      SortLength(regs);
      SortKeepsMembers(regs);
      SweepKeepsKinds(Sort(regs), |regs|, gap);
      forall o | o in Merge(regs, gap)
        ensures KindFromFirst(regs, o)
      {
        assert KindFromFirst(Sort(regs), o);
      }
    }
  }
}
