/**
  The tail of the audit log: the last lines of a file, read from its last bytes only, and the recent audit
  records of one user.
 */
module AuditTail {
  import opened Wrappers
  import opened Numbers
  import opened Utf8Replace

  type Line = seq<Codepoint>

  // ----- lines of a text -----

  /** Characters at which `str.splitlines` ends a line. */
  predicate LineBreak(c: Codepoint) {
    0x0A <= c <= 0x0D || 0x1C <= c <= 0x1E || c == 0x85 || c == 0x2028 || c == 0x2029
  }

  /** Characters that `str.strip` removes. */
  predicate Space(c: Codepoint) {
    0x09 <= c <= 0x0D || 0x1C <= c <= 0x20 || c == 0x85 || c == 0xA0 || c == 0x1680 || 0x2000 <= c <= 0x200A ||
    c == 0x2028 || c == 0x2029 || c == 0x202F || c == 0x205F || c == 0x3000
  }

  /** Index of the first line break, or the length of the text. */
  function FirstBreak(t: Line): (n: nat)
    ensures n <= |t|
  {
    if t == [] || LineBreak(t[0]) then 0 else 1 + FirstBreak(t[1..])
  }

  /** Where the text after the first line begins: CR LF counts as one break. */
  function AfterBreak(t: Line): (n: nat)
    requires FirstBreak(t) < |t|
    ensures FirstBreak(t) < n <= |t|
  {
    var n := FirstBreak(t);
    if t[n] == 0x0D && n + 1 < |t| && t[n + 1] == 0x0A then n + 2 else n + 1
  }

  function SplitLines(t: Line): seq<Line> {
    if t == [] then []
    else if FirstBreak(t) == |t| then [t]
    else [t[..FirstBreak(t)]] + SplitLines(t[AfterBreak(t)..])
  }

  predicate Blank(l: Line) {
    forall i :: 0 <= i < |l| ==> Space(l[i])
  }

  function NonBlank(ls: seq<Line>): seq<Line> {
    if ls == [] then [] else (if Blank(ls[0]) then [] else [ls[0]]) + NonBlank(ls[1..])
  }

  /** The non-blank lines of a file. */
  function LinesOf(bytes: seq<byte>): seq<Line> {
    NonBlank(SplitLines(Decode(bytes)))
  }

  /** `xs[-n:]`, which for n = 0 is the whole list. */
  function Last<T>(xs: seq<T>, n: nat): seq<T> {
    if n == 0 || |xs| <= n then xs else xs[|xs| - n..]
  }

  // ----- what splitting means -----

  /** One line break: a break character by itself, or CR LF. */
  predicate Terminator(b: Line) {
    (|b| == 1 && LineBreak(b[0])) || b == [0x0D, 0x0A]
  }

  function Rejoined(lines: seq<Line>, ends: seq<Line>): Line
    requires |lines| == |ends|
  {
    if lines == [] then [] else lines[0] + ends[0] + Rejoined(lines[1..], ends[1..])
  }

  ghost predicate NoBreaks(l: Line) {
    forall j :: 0 <= j < |l| ==> !LineBreak(l[j])
  }

  /** A line without breaks and what ends it; only the last line of a text may lack its end. */
  ghost predicate Ended(line: Line, end: Line, last: bool) {
    NoBreaks(line) && (Terminator(end) || (last && end == [] && line != []))
  }

  /** Lines with their ends, each end taken as long as possible. */
  ghost predicate Proper(lines: seq<Line>, ends: seq<Line>) {
    && |lines| == |ends|
    && (forall i :: 0 <= i < |lines| ==> Ended(lines[i], ends[i], i == |lines| - 1))
    && (forall i :: 0 <= i < |lines| - 1 && ends[i] == [0x0D] ==> (lines[i + 1] + ends[i + 1])[..1] != [0x0A])
  }

  lemma {:induction false} ProperCons(line: Line, end: Line, lines: seq<Line>, ends: seq<Line>)
    requires Proper(lines, ends) && NoBreaks(line) && Terminator(end)
    requires end == [0x0D] ==> Rejoined(lines, ends)[..MinInt(1, |Rejoined(lines, ends)|)] != [0x0A]
    ensures Proper([line] + lines, [end] + ends)
    ensures Rejoined([line] + lines, [end] + ends) == line + end + Rejoined(lines, ends)
  {
    var ls, es := [line] + lines, [end] + ends;
    assert ls[1..] == lines && es[1..] == ends;
    forall i | 0 <= i < |ls|
      ensures Ended(ls[i], es[i], i == |ls| - 1)
    {
      assert i > 0 ==> Ended(lines[i - 1], ends[i - 1], i - 1 == |lines| - 1);
    }
    if lines != [] && end == [0x0D] {
      var first := lines[0] + ends[0];
      assert Ended(lines[0], ends[0], 0 == |lines| - 1);
      assert first != [] && Rejoined(lines, ends)[0] == first[0];
    }
    forall i | 0 <= i < |ls| - 1 && es[i] == [0x0D]
      ensures (ls[i + 1] + es[i + 1])[..1] != [0x0A]
    {
      assert i > 0 ==> ends[i - 1] == [0x0D];
    }
  }

  /**
    Splitting cuts the text at its line breaks and nowhere else: put together with one break after each line,
    which only the last may lack, the lines are the text, and no line contains a break.
   */
  lemma {:induction false} LinesRejoin(t: Line) returns (ends: seq<Line>)
    ensures Proper(SplitLines(t), ends) && Rejoined(SplitLines(t), ends) == t
    decreases |t|
  {
    if t == [] {
      ends := [];
    } else if FirstBreak(t) == |t| {
      ends := OnlyLine(t);
    } else {
      var line, end, rest := FirstLine(t);
      ends := LinesRejoin(rest);
      ProperCons(line, end, SplitLines(rest), ends);
      ends := [end] + ends;
    }
  }

  lemma {:induction false} OnlyLine(t: Line) returns (ends: seq<Line>)
    requires t != [] && FirstBreak(t) == |t|
    ensures Proper(SplitLines(t), ends) && Rejoined(SplitLines(t), ends) == t
  {
    FirstBreakIsFirst(t);
    ends := [[]];
    assert [t][1..] == [] && ends[1..] == [];
  }

  lemma {:induction false} FirstLine(t: Line) returns (line: Line, end: Line, rest: Line)
    requires FirstBreak(t) < |t|
    ensures t == line + end + rest && |rest| < |t| && SplitLines(t) == [line] + SplitLines(rest)
    ensures NoBreaks(line) && Terminator(end)
    ensures end == [0x0D] ==> rest[..MinInt(1, |rest|)] != [0x0A]
  {
    FirstBreakIsFirst(t);
    var n, e := FirstBreak(t), AfterBreak(t);
    line, end, rest := t[..n], t[n..e], t[e..];
  }

  lemma {:induction false} FirstBreakIsFirst(t: Line)
    ensures forall i :: 0 <= i < FirstBreak(t) ==> !LineBreak(t[i])
    ensures FirstBreak(t) < |t| ==> LineBreak(t[FirstBreak(t)])
  {
    if t != [] && !LineBreak(t[0]) {
      FirstBreakIsFirst(t[1..]);
    }
  }

  /** The non-blank lines, in order, are exactly the lines with a visible character. */
  lemma {:induction false} NonBlankMeaning(ls: seq<Line>) returns (at: seq<nat>)
    ensures |at| == |NonBlank(ls)| && forall i, j :: 0 <= i < j < |at| ==> at[i] < at[j]
    ensures forall i :: 0 <= i < |at| ==> at[i] < |ls| && NonBlank(ls)[i] == ls[at[i]]
    ensures forall p :: 0 <= p < |ls| ==> (p in at <==> exists j :: 0 <= j < |ls[p]| && !Space(ls[p][j]))
  {
    if ls == [] {
      at := [];
    } else {
      var n := |ls| - 1;
      at := NonBlankMeaning(ls[..n]);
      assert ls == ls[..n] + [ls[n]] && NonBlank([]) == [];
      NonBlankOfSum(ls[..n], [ls[n]]);
      if !Blank(ls[n]) {
        at := at + [n];
      }
    }
  }

  // ----- the tail -----

  /** Where the bytes that are read begin. */
  function TailStart(size: nat, maxBytes: nat): (start: nat)
    ensures start <= size
  {
    if maxBytes < size then size - maxBytes else 0
  }

  function TailLines(file: Option<seq<byte>>, maxLines: nat, maxBytes: nat): seq<Line> {
    if file.None? || file.value == [] then []
    else
      var start := TailStart(|file.value|, maxBytes);
      var lines := LinesOf(file.value[start..]);
      Last(if start > 0 then DropFirst(lines) else lines, maxLines)
  }

  function DropFirst(lines: seq<Line>): seq<Line> {
    if lines != [] then lines[1..] else lines
  }

  predicate IsSuffix<T(==)>(xs: seq<T>, ys: seq<T>) {
    |xs| <= |ys| && ys[|ys| - |xs|..] == xs
  }

  lemma {:induction false} SuffixTransitive<T>(xs: seq<T>, ys: seq<T>, zs: seq<T>)
    requires IsSuffix(xs, ys) && IsSuffix(ys, zs)
    ensures IsSuffix(xs, zs)
  {
  }

  lemma {:induction false} SuffixOfSum<T>(xs: seq<T>, ys: seq<T>)
    ensures IsSuffix(ys, xs + ys)
  {
  }

  lemma {:induction false} SuffixSplits<T>(xs: seq<T>, ys: seq<T>)
    requires IsSuffix(xs, ys)
    ensures ys == ys[..|ys| - |xs|] + xs
  {
  }

  lemma {:induction false} LastIsSuffix<T>(xs: seq<T>, n: nat)
    ensures IsSuffix(Last(xs, n), xs) && (n > 0 ==> |Last(xs, n)| <= n)
  {
  }

  // ----- cutting a text -----

  lemma {:induction false} FirstBreakOfSum(a: Line, b: Line)
    ensures FirstBreak(a) < |a| ==> FirstBreak(a + b) == FirstBreak(a)
    ensures FirstBreak(a) == |a| ==> FirstBreak(a + b) == |a| + FirstBreak(b)
  {
    if a == [] {
      assert a + b == b;
    } else if !LineBreak(a[0]) {
      assert (a + b)[1..] == a[1..] + b;
      FirstBreakOfSum(a[1..], b);
    }
  }

  lemma {:induction false} NoBreak(r: Line)
    requires forall i :: 0 <= i < |r| ==> !LineBreak(r[i])
    ensures FirstBreak(r) == |r|
  {
    if r != [] {
      NoBreak(r[1..]);
    }
  }

  /** Wherever a text is cut, the lines after the first line of the second part end the lines of the whole. */
  lemma {:induction false} LinesAfterCut(a: Line, b: Line)
    requires b != []
    ensures SplitLines(b) != [] && IsSuffix(SplitLines(b)[1..], SplitLines(a + b))
    decreases |a|
  {
    var s := a + b;
    FirstBreakOfSum(a, b);
    if a == [] {
      assert s == b;
    } else if FirstBreak(a) == |a| {
      CutInsideLine(a, b);
    } else if AfterBreak(s) <= |a| {
      var e := AfterBreak(s);
      assert s[e..] == a[e..] + b;
      LinesAfterCut(a[e..], b);
      SuffixOfSum([s[..FirstBreak(s)]], SplitLines(s[e..]));
      SuffixTransitive(SplitLines(b)[1..], SplitLines(s[e..]), SplitLines(s));
    } else {
      assert FirstBreak(b) == 0 && AfterBreak(b) == 1;
      assert s[AfterBreak(s)..] == b[1..];
      SuffixOfSum([s[..FirstBreak(s)]], SplitLines(b[1..]));
      assert SplitLines(b)[1..] == SplitLines(b[1..]);
    }
  }

  lemma {:induction false} SplitStep(t: Line)
    requires FirstBreak(t) < |t|
    ensures SplitLines(t) == [t[..FirstBreak(t)]] + SplitLines(t[AfterBreak(t)..])
  {
  }

  lemma {:induction false} SplitOnly(t: Line)
    requires t != [] && FirstBreak(t) == |t|
    ensures SplitLines(t) == [t]
  {
  }

  /** The cut falls inside the first line. */
  lemma {:induction false} CutInsideLine(a: Line, b: Line)
    requires b != [] && FirstBreak(a) == |a|
    ensures SplitLines(b) != [] && SplitLines(a + b) == [a + SplitLines(b)[0]] + SplitLines(b)[1..]
  {
    FirstBreakOfSum(a, b);
    if FirstBreak(b) < |b| {
      CutBeforeBreak(a, b);
    } else {
      SplitOnly(a + b);
      SplitOnly(b);
      assert [b][1..] == [];
    }
  }

  lemma {:induction false} BreakOfSum(a: Line, b: Line)
    requires FirstBreak(b) < |b| && FirstBreak(a + b) == |a| + FirstBreak(b)
    ensures AfterBreak(a + b) == |a| + AfterBreak(b)
    ensures (a + b)[AfterBreak(a + b)..] == b[AfterBreak(b)..]
    ensures (a + b)[..FirstBreak(a + b)] == a + b[..FirstBreak(b)]
  {
    var s, n := a + b, FirstBreak(b);
    assert s[|a| + n] == b[n] && (n + 1 < |b| ==> s[|a| + n + 1] == b[n + 1]);
    SliceBeyond(a, b, n);
    SliceBeyond(a, b, AfterBreak(b));
  }

  lemma {:induction false} SliceWithin(a: Line, b: Line, k: nat)
    requires k <= |a|
    ensures (a + b)[..k] == a[..k] && (a + b)[k..] == a[k..] + b
  {
  }

  lemma {:induction false} SliceBeyond(a: Line, b: Line, k: nat)
    requires k <= |b|
    ensures (a + b)[..|a| + k] == a + b[..k] && (a + b)[|a| + k..] == b[k..]
  {
  }

  lemma {:induction false} CutBeforeBreak(a: Line, b: Line)
    requires FirstBreak(a) == |a| && FirstBreak(b) < |b| && FirstBreak(a + b) == |a| + FirstBreak(b)
    ensures SplitLines(b) != [] && SplitLines(a + b) == [a + SplitLines(b)[0]] + SplitLines(b)[1..]
  {
    BreakOfSum(a, b);
    SplitStep(a + b);
    SplitStep(b);
    var first, rest := b[..FirstBreak(b)], SplitLines(b[AfterBreak(b)..]);
    assert ([first] + rest)[1..] == rest;
  }

  lemma {:induction false} NonBlankOfSum(xs: seq<Line>, ys: seq<Line>)
    ensures NonBlank(xs + ys) == NonBlank(xs) + NonBlank(ys)
  {
    if xs == [] {
      assert xs + ys == ys;
    } else {
      assert (xs + ys)[1..] == xs[1..] + ys;
      NonBlankOfSum(xs[1..], ys);
    }
  }

  lemma {:induction false} NonBlankOfSuffix(xs: seq<Line>, ys: seq<Line>)
    requires IsSuffix(xs, ys)
    ensures IsSuffix(NonBlank(xs), NonBlank(ys))
  {
    SuffixSplits(xs, ys);
    NonBlankOfSum(ys[..|ys| - |xs|], xs);
    SuffixOfSum(NonBlank(ys[..|ys| - |xs|]), NonBlank(xs));
  }

  /** What is left of the tail's lines when the first non-blank one is dropped. */
  function Rest(t: Line): seq<Line> {
    DropFirst(NonBlank(SplitLines(t)))
  }

  /** Dropping one line is enough: what remains ends the non-blank lines of the whole text. */
  lemma {:induction false} RestIsSuffix(a: Line, b: Line)
    ensures IsSuffix(Rest(b), NonBlank(SplitLines(a + b)))
  {
    if b != [] {
      LinesAfterCut(a, b);
      NonBlankOfSuffix(SplitLines(b)[1..], SplitLines(a + b));
      DropFirstWithin(SplitLines(b));
      SuffixTransitive(Rest(b), NonBlank(SplitLines(b)[1..]), NonBlank(SplitLines(a + b)));
    }
  }

  lemma {:induction false} DropFirstWithin(ls: seq<Line>)
    requires ls != []
    ensures IsSuffix(DropFirst(NonBlank(ls)), NonBlank(ls[1..]))
  {
  }

  /** Bytes of a broken character at the start of the tail spoil its first line only. */
  lemma {:induction false} SpoiltFirstLine(a: Line, r: Line, t: Line)
    requires r != [] && forall i :: 0 <= i < |r| ==> r[i] == REPLACEMENT
    ensures IsSuffix(Rest(r + t), NonBlank(SplitLines(a + t)))
  {
    NoBreak(r);
    if t == [] {
      assert r + t == r && SplitLines(r) == [r];
      assert [r][1..] == [] && NonBlank([r]) == if Blank(r) then [] else [r];
    } else {
      CutInsideLine(r, t);
      var first := r + SplitLines(t)[0];
      assert first[0] == REPLACEMENT && !Blank(first);
      NonBlankOfSum([first], SplitLines(t)[1..]);
      assert NonBlank([first]) == [first];
      assert Rest(r + t) == NonBlank(SplitLines(t)[1..]);
      LinesAfterCut(a, t);
      NonBlankOfSuffix(SplitLines(t)[1..], SplitLines(a + t));
    }
  }

  /** The decoded tail: replacements for a broken first character, then a true end of the decoded file. */
  lemma {:induction false} DecodedTail(bytes: seq<byte>, cut: nat) returns (a: Line, r: Line, t: Line)
    requires cut <= |bytes|
    ensures Decode(bytes) == a + t && Decode(bytes[cut..]) == r + t
    ensures forall i :: 0 <= i < |r| ==> r[i] == REPLACEMENT
  {
    var data := bytes[cut..];
    var q := SyncPoint(data);
    SyncPointIs(data);
    CutAtSync(bytes, cut, q);
    a, r, t := Decode(bytes[..cut + q]), Decode(data[..q]), Decode(bytes[cut + q..]);
    StrayContinuations(data[..q]);
  }

  lemma {:induction false} CutAtSync(bytes: seq<byte>, cut: nat, q: nat)
    requires cut + q <= |bytes| && (cut + q == |bytes| || !Continuation(bytes[cut + q]))
    ensures Decode(bytes) == Decode(bytes[..cut + q]) + Decode(bytes[cut + q..])
    ensures Decode(bytes[cut..]) == Decode(bytes[cut..][..q]) + Decode(bytes[cut + q..])
  {
    DecodeSplits(bytes, cut + q);
    DecodeSplits(bytes[cut..], q);
    assert bytes[cut..][q..] == bytes[cut + q..];
  }

  /** Cutting the bytes anywhere, even inside a character or between CR and LF, spoils at most one line. */
  lemma {:induction false} RestOfBytesIsSuffix(bytes: seq<byte>, cut: nat)
    requires cut <= |bytes|
    ensures IsSuffix(DropFirst(LinesOf(bytes[cut..])), LinesOf(bytes))
  {
    var a, r, t := DecodedTail(bytes, cut);
    if r == [] {
      assert r + t == t;
      RestIsSuffix(a, t);
    } else {
      SpoiltFirstLine(a, r, t);
    }
  }

  /**
    For every file the tail is a suffix of the file's non-blank lines, of at most `maxLines` lines, and when
    the file fits into `maxBytes` it is exactly the last `maxLines` of them.
   */
  lemma {:induction false} TailIsSuffix(bytes: seq<byte>, maxLines: nat, maxBytes: nat)
    ensures IsSuffix(TailLines(Some(bytes), maxLines, maxBytes), LinesOf(bytes))
    ensures maxLines >= 1 ==> |TailLines(Some(bytes), maxLines, maxBytes)| <= maxLines
    ensures |bytes| <= maxBytes ==> TailLines(Some(bytes), maxLines, maxBytes) == Last(LinesOf(bytes), maxLines)
  {
    var start := TailStart(|bytes|, maxBytes);
    var lines := LinesOf(bytes[start..]);
    if start > 0 {
      RestOfBytesIsSuffix(bytes, start);
      LastIsSuffix(DropFirst(lines), maxLines);
      SuffixTransitive(Last(DropFirst(lines), maxLines), DropFirst(lines), LinesOf(bytes));
    } else {
      assert bytes[0..] == bytes;
      LastIsSuffix(lines, maxLines);
    }
  }

  /** A file of one letter has one line. */
  lemma {:induction false} OneLetterFile() returns (bytes: seq<byte>)
    ensures |LinesOf(bytes)| == 1
  {
    bytes := [0x41];
    var line: Line := [0x41];
    assert bytes[1..] == [] && Consumed(bytes) == 1 && Decode(bytes) == line;
    NoBreak(line);
    SplitOnly(line);
    assert !Space(line[0]) && !Blank(line) && [line][1..] == [];
  }

  /** With `maxLines` = 0 the slice is the whole list: the bound holds for every file exactly from 1 on. */
  lemma {:induction false} ZeroLinesMeansAll(maxLines: nat)
    ensures maxLines >= 1 <==> forall bytes, maxBytes: nat :: |TailLines(Some(bytes), maxLines, maxBytes)| <= maxLines
  {
    if maxLines == 0 {
      var bytes := OneLetterFile();
      TailIsSuffix(bytes, 0, |bytes|);
    } else {
      forall bytes, maxBytes: nat
        ensures |TailLines(Some(bytes), maxLines, maxBytes)| <= maxLines
      {
        TailIsSuffix(bytes, maxLines, maxBytes);
      }
    }
  }

  // ----- nothing but the first line is dropped -----

  /** A text that ends in a line feed can be continued without changing its lines. */
  lemma {:induction false} LinesAfterFeed(a: Line, b: Line)
    ensures SplitLines(a + [0x0A] + b) == SplitLines(a + [0x0A]) + SplitLines(b)
    decreases |a|
  {
    var first, rest, e := FeedFirstLine(a, b);
    if e == |a| + 1 {
      assert rest == [] && rest + b == b;
    } else {
      assert rest == a[e..] + [0x0A];
      LinesAfterFeed(a[e..], b);
    }
    Regroup([first], SplitLines(rest), SplitLines(b));
  }

  lemma {:induction false} Regroup(xs: seq<Line>, ys: seq<Line>, zs: seq<Line>)
    ensures xs + ys + zs == xs + (ys + zs)
  {
  }

  /** The first line of such a text is the first line of its continuation. */
  lemma {:induction false} FeedFirstLine(a: Line, b: Line) returns (first: Line, rest: Line, e: nat)
    ensures 0 < e <= |a| + 1 && rest == (a + [0x0A])[e..]
    ensures SplitLines(a + [0x0A]) == [first] + SplitLines(rest)
    ensures SplitLines(a + [0x0A] + b) == [first] + SplitLines(rest + b)
  {
    var f := a + [0x0A];
    FeedHasBreak(a);
    FirstBreakOfSum(f, b);
    FeedBreakEnd(a, b);
    e := AfterBreak(f);
    first, rest := f[..FirstBreak(f)], f[e..];
    SplitStep(f);
    SplitStep(f + b);
    SliceWithin(f, b, FirstBreak(f));
    SliceWithin(f, b, e);
  }

  lemma {:induction false} FeedHasBreak(a: Line)
    ensures FirstBreak(a + [0x0A]) < |a + [0x0A]|
  {
    FirstBreakOfSum(a, [0x0A]);
    assert LineBreak([0x0A][0]);
  }

  lemma {:induction false} FeedBreakEnd(a: Line, b: Line)
    requires FirstBreak(a + [0x0A]) < |a| + 1 && FirstBreak(a + [0x0A] + b) == FirstBreak(a + [0x0A])
    ensures AfterBreak(a + [0x0A] + b) == AfterBreak(a + [0x0A])
  {
    var f, n := a + [0x0A], FirstBreak(a + [0x0A]);
    assert (f + b)[n] == f[n] && (n + 1 < |f| ==> (f + b)[n + 1] == f[n + 1]);
    assert f[|a|] == 0x0A;
  }

  const LF: byte := 0x0A

  /** The lines of a file are those of its parts when it is cut after a line feed. */
  lemma {:induction false} LinesOfParts(a: seq<byte>, b: seq<byte>)
    ensures LinesOf(a + [LF] + b) == LinesOf(a + [LF]) + LinesOf(b)
  {
    DecodeFeed(a, b);
    DecodeFeed(a, []);
    assert a + [LF] + [] == a + [LF] && Decode(a) + [0x0A] + Decode([]) == Decode(a) + [0x0A];
    LinesAfterFeed(Decode(a), Decode(b));
    NonBlankOfSum(SplitLines(Decode(a) + [0x0A]), SplitLines(Decode(b)));
  }

  lemma {:induction false} DecodeFeed(a: seq<byte>, b: seq<byte>)
    ensures Decode(a + [LF] + b) == Decode(a) + [0x0A] + Decode(b)
  {
    var s, t := a + [LF] + b, [LF] + b;
    DecodeSplits(s, |a|);
    assert s[..|a|] == a && s[|a|..] == t;
    assert t[0] == LF && Consumed(t) == 1 && FirstChar(t) == 0x0A && t[1..] == b;
  }

  /**
    Lines are not lost for any other reason than the two limits: when something non-blank precedes a line feed
    among the bytes that are read, the lines after that feed are all shown, up to `maxLines` of them.
   */
  lemma {:induction false} TailShowsWholeLines(bytes: seq<byte>, maxLines: nat, maxBytes: nat, a: seq<byte>,
                                               b: seq<byte>)
    requires maxLines >= 1 && bytes[if |bytes| > maxBytes then |bytes| - maxBytes else 0..] == a + [LF] + b
    requires LinesOf(a + [LF]) != []
    ensures IsSuffix(Last(LinesOf(b), maxLines), TailLines(Some(bytes), maxLines, maxBytes))
  {
    LinesOfParts(a, b);
    var before, after := LinesOf(a + [LF]), LinesOf(b);
    assert (before + after)[1..] == before[1..] + after;
    LastKeepsEnd(before, after, maxLines);
    LastKeepsEnd(before[1..], after, maxLines);
  }

  lemma {:induction false} LastKeepsEnd(xs: seq<Line>, ys: seq<Line>, n: nat)
    requires n >= 1
    ensures IsSuffix(Last(ys, n), Last(xs + ys, n))
  {
    if |ys| >= n {
      LastOfLong(xs, ys, n);
    } else {
      LastOfShort(xs, ys, n);
      SuffixOfSum(Last(xs, n - |ys|), ys);
    }
  }

  lemma {:induction false} LastOfLong<T>(xs: seq<T>, ys: seq<T>, n: nat)
    requires 1 <= n <= |ys|
    ensures Last(xs + ys, n) == Last(ys, n)
  {
  }

  lemma {:induction false} LastOfShort<T>(xs: seq<T>, ys: seq<T>, n: nat)
    requires |ys| < n
    ensures Last(xs + ys, n) == Last(xs, n - |ys|) + ys && Last(ys, n) == ys
  {
  }

  // ----- the recent records of a user -----

  datatype Item = Item(ts: string, event: string, requestId: string, meta: string)

  /** How a line reads: as no JSON at all, as JSON but no object, or as an object. */
  datatype Parsed = NotJson | NotObject | Record(userId: string, item: Item)

  function OwnItems(lines: seq<Line>, uid: string, parse: Line -> Parsed): seq<Item> {
    if lines == [] then []
    else
      var n := |lines| - 1;
      OwnItems(lines[..n], uid, parse) +
      match parse(lines[n])
      case Record(u, item) => if u == uid then [item] else []
      case _ => []
  }

  lemma {:induction false} OwnItemsOfSum(xs: seq<Line>, ys: seq<Line>, uid: string, parse: Line -> Parsed)
    ensures OwnItems(xs + ys, uid, parse) == OwnItems(xs, uid, parse) + OwnItems(ys, uid, parse)
  {
    if ys == [] {
      assert xs + ys == xs;
    } else {
      var n := |ys| - 1;
      assert (xs + ys)[..|xs + ys| - 1] == xs + ys[..n];
      OwnItemsOfSum(xs, ys[..n], uid, parse);
    }
  }

  ghost predicate IsOwn(l: Line, uid: string, parse: Line -> Parsed) {
    exists item :: parse(l) == Record(uid, item)
  }

  /** The items are the user's records at these lines, in order. */
  ghost predicate Picks(items: seq<Item>, lines: seq<Line>, at: seq<nat>, uid: string, parse: Line -> Parsed) {
    && |at| == |items| && Ascending(at)
    && (forall i :: 0 <= i < |at| ==> at[i] < |lines| && parse(lines[at[i]]) == Record(uid, items[i]))
  }

  predicate Ascending(at: seq<nat>) {
    forall i, j :: 0 <= i < j < |at| ==> at[i] < at[j]
  }

  /** From a line on, no record of the user is left out. */
  ghost predicate AllFrom(lines: seq<Line>, from: nat, at: seq<nat>, uid: string, parse: Line -> Parsed) {
    forall p :: from <= p < |lines| && IsOwn(lines[p], uid, parse) ==> p in at
  }

  /**
    The shown items are the user's records at these lines, in order, and from the first of the lines on no
    record of the user is left out.
   */
  ghost predicate Shown(items: seq<Item>, lines: seq<Line>, at: seq<nat>, uid: string, parse: Line -> Parsed) {
    Picks(items, lines, at, uid, parse) && (at != [] ==> AllFrom(lines, at[0], at, uid, parse))
  }

  /** Every record of the user is among the shown ones. */
  ghost predicate AllShown(lines: seq<Line>, at: seq<nat>, uid: string, parse: Line -> Parsed) {
    AllFrom(lines, 0, at, uid, parse)
  }

  lemma {:induction false} PicksOneMore(items: seq<Item>, lines: seq<Line>, at: seq<nat>, uid: string,
                                        parse: Line -> Parsed, l: Line, item: Item)
    requires Picks(items, lines, at, uid, parse) && parse(l) == Record(uid, item)
    ensures Picks(items + [item], lines + [l], at + [|lines|], uid, parse)
  {
  }

  lemma {:induction false} PicksStay(items: seq<Item>, lines: seq<Line>, at: seq<nat>, uid: string,
                                     parse: Line -> Parsed, l: Line)
    requires Picks(items, lines, at, uid, parse)
    ensures Picks(items, lines + [l], at, uid, parse)
  {
  }

  lemma {:induction false} AllOneMore(lines: seq<Line>, at: seq<nat>, more: seq<nat>, uid: string,
                                      parse: Line -> Parsed, l: Line)
    requires AllShown(lines, at, uid, parse) && (forall p :: p in at ==> p in more)
    requires IsOwn(l, uid, parse) ==> |lines| in more
    ensures AllShown(lines + [l], more, uid, parse)
  {
    forall p | 0 <= p < |lines + [l]| && IsOwn((lines + [l])[p], uid, parse)
      ensures p in more
    {
      assert p < |lines| ==> (lines + [l])[p] == lines[p];
    }
  }

  lemma {:induction false} OwnAreShown(lines: seq<Line>, uid: string, parse: Line -> Parsed) returns (at: seq<nat>)
    ensures Picks(OwnItems(lines, uid, parse), lines, at, uid, parse) && AllShown(lines, at, uid, parse)
  {
    if lines == [] {
      at := [];
    } else {
      var before, l := lines[..|lines| - 1], lines[|lines| - 1];
      var was := OwnAreShown(before, uid, parse);
      assert lines == before + [l];
      if IsOwn(l, uid, parse) {
        at := was + [|before|];
        PicksOneMore(OwnItems(before, uid, parse), before, was, uid, parse, l, parse(l).item);
      } else {
        at := was;
        PicksStay(OwnItems(before, uid, parse), before, was, uid, parse, l);
        NotOwnAddsNothing(before, l, uid, parse);
      }
      AllOneMore(before, was, at, uid, parse, l);
    }
  }

  lemma {:induction false} NotOwnAddsNothing(before: seq<Line>, l: Line, uid: string, parse: Line -> Parsed)
    requires !IsOwn(l, uid, parse)
    ensures OwnItems(before + [l], uid, parse) == OwnItems(before, uid, parse)
  {
    assert (before + [l])[..|before|] == before;
    assert parse(l).Record? ==> parse(l) == Record(parse(l).userId, parse(l).item);
  }

  /** Showing only the last items leaves out the first lines. */
  lemma {:induction false} LastAreShown(items: seq<Item>, lines: seq<Line>, at: seq<nat>, uid: string,
                                        parse: Line -> Parsed, n: nat)
    requires n >= 1 && Picks(items, lines, at, uid, parse) && AllShown(lines, at, uid, parse)
    ensures Shown(Last(items, n), lines, Last(at, n), uid, parse)
  {
    if |items| > n {
      var d := |items| - n;
      forall p | at[d] <= p < |lines| && IsOwn(lines[p], uid, parse)
        ensures p in at[d..]
      {
        NotBefore(at, d, p);
      }
    }
  }

  /** In an ascending list a number that is not below the d-th occurs from there on, if at all. */
  lemma {:induction false} NotBefore(at: seq<nat>, d: nat, p: nat)
    requires Ascending(at) && d < |at| && at[d] <= p && p in at
    ensures p in at[d..]
  {
    var i :| 0 <= i < |at| && at[i] == p;
    assert i >= d;
    assert at[d..][i - d] == p;
  }

  function Shifted(at: seq<nat>, n: nat): seq<nat> {
    seq(|at|, i requires 0 <= i < |at| => n + at[i])
  }

  /** The same items, shown from the end of a longer list of lines. */
  lemma {:induction false} ShownLater(items: seq<Item>, before: seq<Line>, lines: seq<Line>, at: seq<nat>,
                                      uid: string, parse: Line -> Parsed)
    requires Shown(items, lines, at, uid, parse)
    ensures Shown(items, before + lines, Shifted(at, |before|), uid, parse)
  {
    PicksLater(items, before, lines, at, uid, parse);
    if at != [] {
      AllLater(before, lines, at[0], at, uid, parse);
    }
  }

  lemma {:induction false} AllLater(before: seq<Line>, lines: seq<Line>, from: nat, at: seq<nat>, uid: string,
                                    parse: Line -> Parsed)
    requires AllFrom(lines, from, at, uid, parse)
    ensures AllFrom(before + lines, |before| + from, Shifted(at, |before|), uid, parse)
  {
    forall p | |before| + from <= p < |before + lines| && IsOwn((before + lines)[p], uid, parse)
      ensures p in Shifted(at, |before|)
    {
      assert lines[p - |before|] == (before + lines)[p];
      ShiftedHas(at, |before|, p - |before|);
    }
  }

  lemma {:induction false} ShiftedHas(at: seq<nat>, n: nat, p: nat)
    requires p in at
    ensures n + p in Shifted(at, n)
  {
    var i :| 0 <= i < |at| && at[i] == p;
    assert Shifted(at, n)[i] == n + p;
  }

  lemma {:induction false} PicksLater(items: seq<Item>, before: seq<Line>, lines: seq<Line>, at: seq<nat>,
                                      uid: string, parse: Line -> Parsed)
    requires Picks(items, lines, at, uid, parse)
    ensures Picks(items, before + lines, Shifted(at, |before|), uid, parse)
  {
  }

  const MAX_LINES := 2000
  const MAX_BYTES := 512 * 1024

  method AuditRecent(file: Option<seq<byte>>, limit: int, uid: string, parse: Line -> Parsed)
    returns (items: seq<Item>, lim: nat)
    ensures lim == if limit < 1 then 1 else if limit > 200 then 200 else limit
    ensures |items| <= lim && (file.None? ==> items == [])
    ensures exists at ::
              && Shown(items, TailLines(file, MAX_LINES, MAX_BYTES), at, uid, parse)
              && (|items| < lim ==> AllShown(TailLines(file, MAX_LINES, MAX_BYTES), at, uid, parse))
    ensures file.Some? ==>
              exists at ::
                && Shown(items, LinesOf(file.value), at, uid, parse)
                && (|file.value| <= MAX_BYTES && |LinesOf(file.value)| <= MAX_LINES && |items| < lim ==>
                      AllShown(LinesOf(file.value), at, uid, parse))
    ensures items == Last(OwnItems(TailLines(file, MAX_LINES, MAX_BYTES), uid, parse), lim)
  {
    lim := if limit < 1 then 1 else if limit > 200 then 200 else limit;
    var raw := TailLines(file, MAX_LINES, MAX_BYTES);
    items := [];
    for i := 0 to |raw|
      invariant items == OwnItems(raw[..i], uid, parse)
    {
      assert raw[..i + 1][..i] == raw[..i];
      match parse(raw[i])
      case NotJson =>
      case NotObject =>
      case Record(u, item) =>
        if u == uid {
          items := items + [item];
        }
    }
    assert raw[..|raw|] == raw;
    ghost var at := LastOwnAreShown(raw, lim, uid, parse);
    items := Last(items, lim);
    if file.Some? {
      RecentAreOwn(file.value, lim, uid, parse);
    }
  }

  lemma {:induction false} LastOwnAreShown(lines: seq<Line>, lim: nat, uid: string, parse: Line -> Parsed)
    returns (at: seq<nat>)
    requires lim >= 1
    ensures var shown := Last(OwnItems(lines, uid, parse), lim);
            && Shown(shown, lines, at, uid, parse) && |shown| <= lim
            && (|shown| < lim ==> AllShown(lines, at, uid, parse))
  {
    var all := OwnAreShown(lines, uid, parse);
    LastAreShown(OwnItems(lines, uid, parse), lines, all, uid, parse, lim);
    at := Last(all, lim);
  }

  /**
    Whose records are shown: items that are records of this user, at increasing lines of the file, with none of
    the user's left out after the first; and none at all left out when the file fits and there is room.
   */
  lemma {:induction false} RecentAreOwn(bytes: seq<byte>, lim: nat, uid: string, parse: Line -> Parsed)
    requires lim >= 1
    ensures var items := Last(OwnItems(TailLines(Some(bytes), MAX_LINES, MAX_BYTES), uid, parse), lim);
            exists at ::
              && Shown(items, LinesOf(bytes), at, uid, parse)
              && (|bytes| <= MAX_BYTES && |LinesOf(bytes)| <= MAX_LINES && |items| < lim ==>
                    AllShown(LinesOf(bytes), at, uid, parse))
  {
    var tail, all := TailLines(Some(bytes), MAX_LINES, MAX_BYTES), LinesOf(bytes);
    var at := LastOwnAreShown(tail, lim, uid, parse);
    TailIsSuffix(bytes, MAX_LINES, MAX_BYTES);
    if |bytes| <= MAX_BYTES && |all| <= MAX_LINES {
      assert tail == all;
    } else {
      SuffixSplits(tail, all);
      var before := all[..|all| - |tail|];
      ShownLater(Last(OwnItems(tail, uid, parse), lim), before, tail, at, uid, parse);
      assert before + tail == all;
    }
  }

  /** What a user is shown is a suffix of that user's own records in the file, of at most the clamped limit. */
  lemma {:induction false} RecentIsSuffixOfOwn(bytes: seq<byte>, lim: nat, uid: string, parse: Line -> Parsed)
    requires lim >= 1
    ensures var shown := Last(OwnItems(TailLines(Some(bytes), MAX_LINES, MAX_BYTES), uid, parse), lim);
            && IsSuffix(shown, OwnItems(LinesOf(bytes), uid, parse)) && |shown| <= lim
            && (|bytes| <= MAX_BYTES && |LinesOf(bytes)| <= MAX_LINES ==>
                  shown == Last(OwnItems(LinesOf(bytes), uid, parse), lim))
  {
    var tail, all := TailLines(Some(bytes), MAX_LINES, MAX_BYTES), LinesOf(bytes);
    TailIsSuffix(bytes, MAX_LINES, MAX_BYTES);
    SuffixSplits(tail, all);
    var before := all[..|all| - |tail|];
    OwnItemsOfSum(before, tail, uid, parse);
    SuffixOfSum(OwnItems(before, uid, parse), OwnItems(tail, uid, parse));
    LastIsSuffix(OwnItems(tail, uid, parse), lim);
    SuffixTransitive(Last(OwnItems(tail, uid, parse), lim), OwnItems(tail, uid, parse), OwnItems(all, uid, parse));
  }
}
