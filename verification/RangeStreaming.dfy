/**
  Byte-range streaming of a file: the header is parsed and clamped, a generator reads the range in chunks,
  and a client reassembles the file from successive ranges (sections 14.1.2 and 14.4 of RFC 9110).
 */
module RangeStreaming {
  import opened Wrappers
  import opened Text
  import opened Numbers

  const CHUNK := 1024 * 1024

  // ----- decimal numbers -----

  predicate Digit(c: char) {
    '0' <= c <= '9'
  }

  predicate Digits(s: string) {
    forall i :: 0 <= i < |s| ==> Digit(s[i])
  }

  function Value(s: string): nat
    requires Digits(s)
  {
    if s == "" then 0 else Value(s[..|s| - 1]) * 10 + (s[|s| - 1] as int - '0' as int)
  }

  /** `int(text)`: surrounding white space and one sign are allowed. */
  function ParseInt(text: string): Option<int> {
    var s := Strip(text);
    if s != "" && Digits(s) then Some(Value(s))
    else if |s| > 1 && s[0] == '-' && Digits(s[1..]) then Some(-(Value(s[1..]) as int))
    else if |s| > 1 && s[0] == '+' && Digits(s[1..]) then Some(Value(s[1..]))
    else None
  }

  function DigitOf(n: nat): char
    requires n < 10
  {
    '0' + n as char
  }

  /** A natural number as it is printed. */
  function Dec(n: nat): (s: string)
    ensures s != "" && Digits(s)
  {
    if n < 10 then [DigitOf(n)] else Dec(n / 10) + [DigitOf(n % 10)]
  }

  lemma {:induction false} ValueOfDec(n: nat)
    ensures Value(Dec(n)) == n
  {
    if n < 10 {
      assert Dec(n)[..0] == "";
    } else {
      ValueOfDec(n / 10);
      assert Dec(n)[..|Dec(n)| - 1] == Dec(n / 10);
    }
  }

  lemma {:induction false} StripDigits(s: string)
    requires s != "" && Digits(s)
    ensures Strip(s) == s
  {
  }

  /** Reading a printed number gives it back. */
  lemma {:induction false} ParseDec(n: nat)
    ensures ParseInt(Dec(n)) == Some(n) && '-' !in Dec(n) && Strip(Dec(n)) != ""
  {
    StripDigits(Dec(n));
    ValueOfDec(n);
  }

  /** So does reading it with a sign, or with white space around it. */
  lemma {:induction false} ParseSigned(n: nat)
    ensures ParseInt("-" + Dec(n)) == Some(-(n as int)) && ParseInt("+" + Dec(n)) == Some(n)
    ensures ParseInt(" " + Dec(n) + " ") == Some(n)
  {
    ValueOfDec(n);
    SignedText("-", Dec(n));
    SignedText("+", Dec(n));
    SpacedText(Dec(n));
  }

  lemma {:induction false} SignedText(sign: string, d: string)
    requires (sign == "-" || sign == "+") && d != "" && Digits(d)
    ensures Strip(sign + d) == sign + d && (sign + d)[1..] == d && !Digits(sign + d)
  {
    StripFixed(sign + d);
    assert !Digit((sign + d)[0]);
  }

  lemma {:induction false} SpacedText(d: string)
    requires d != "" && Digits(d)
    ensures Strip(" " + d + " ") == d
  {
    assert (" " + d + " ")[1..] == d + " " && StripLeft(d + " ") == d + " ";
    assert (d + " ")[..|d|] == d && StripRight(d) == d;
  }

  // ----- the header -----

  datatype Range = Range(start: int, end: int)

  function ClampInt(x: int, lo: int, hi: int): int {
    var m := if x < hi then x else hi;
    if m < lo then lo else m
  }

  /** The clamping at the end of the header logic. */
  function Clamp(size: nat, r: Range): Range {
    var start := ClampInt(r.start, 0, size - 1);
    Range(start, ClampInt(r.end, start, size - 1))
  }

  const UNIT := "bytes="

  /** One bound of the header: absent when blank, an error when it is not a number. */
  function Bound(text: string, default: int): Option<int> {
    if Strip(text) == "" then Some(default) else ParseInt(text)
  }

  /** The range the header asks for, before clamping; None when a bound raises ValueError. */
  function Requested(size: nat, header: Option<string>): Option<Range> {
    var all := Range(0, size - 1);
    if header.None? || !(UNIT <= header.value) then Some(all)
    else
      match SplitFirst(header.value[|UNIT|..], '-')
      case None => Some(all)
      case Some((a, b)) =>
        if Bound(a, 0).None? || Bound(b, size - 1).None? then None
        else Some(Range(Bound(a, 0).value, Bound(b, size - 1).value))
  }

  function Resolve(size: nat, header: Option<string>): Option<Range> {
    match Requested(size, header)
    case None => None
    case Some(r) => Some(Clamp(size, r))
  }

  function FromTo(a: nat, b: nat): string {
    UNIT + Dec(a) + "-" + Dec(b)
  }

  function From(a: nat): string {
    UNIT + Dec(a) + "-"
  }

  /** Every header that is read at all, whatever numbers it holds, resolves to a range inside a non-empty file. */
  lemma {:induction false} ResolvedInsideFile(size: nat, header: Option<string>)
    requires size > 0 && Resolve(size, header).Some?
    ensures var r := Resolve(size, header).value; 0 <= r.start <= r.end < size
  {
  }

  lemma {:induction false} ResolveFromTo(size: nat, a: nat, b: nat)
    ensures Resolve(size, Some(FromTo(a, b))) == Some(Clamp(size, Range(a, b)))
  {
    ParseDec(a);
    ParseDec(b);
    assert FromTo(a, b)[|UNIT|..] == Dec(a) + ['-'] + Dec(b);
    SplitJoin(Dec(a), '-', Dec(b));
  }

  lemma {:induction false} ResolveFrom(size: nat, a: nat)
    ensures Resolve(size, Some(From(a))) == Some(Clamp(size, Range(a, size - 1)))
  {
    ParseDec(a);
    assert From(a)[|UNIT|..] == Dec(a) + ['-'] + "";
    SplitJoin(Dec(a), '-', "");
  }

  /**
    `bytes=a-b` and `bytes=a-` with natural numbers: a is moved back into the file, b is moved into the file
    and not before a, and bounds that already form a range of the file are left as they are.
   */
  lemma {:induction false} NaturalRanges(size: nat, a: nat, b: nat)
    requires size > 0
    ensures Resolve(size, Some(FromTo(a, b))).Some? && Resolve(size, Some(From(a))).Some?
    ensures var r := Resolve(size, Some(FromTo(a, b))).value;
            && 0 <= r.start <= r.end < size
            && (a < size ==> r.start == a) && (a >= size ==> r.start == size - 1)
            && (a <= b < size ==> r.end == b) && (b >= size ==> r.end == size - 1) && (b < a ==> r.end == r.start)
    ensures Resolve(size, Some(From(a))).value.end == size - 1
    ensures a < size ==> Resolve(size, Some(From(a))).value.start == a
  {
    ResolveFromTo(size, a, b);
    ResolveFrom(size, a);
  }

  /** A missing first position is read as zero, so `bytes=-b` asks for the first b + 1 bytes. */
  lemma {:induction false} MissingStartIsZero(size: nat, b: nat)
    ensures Resolve(size, Some(UNIT + "-" + Dec(b))) == Resolve(size, Some(FromTo(0, b)))
  {
    ResolveFromTo(size, 0, b);
    ParseDec(b);
    assert (UNIT + "-" + Dec(b))[|UNIT|..] == "" + ['-'] + Dec(b);
    SplitJoin("", '-', Dec(b));
  }

  /** A header is refused exactly when one of its bounds is neither blank nor a number. */
  lemma {:induction false} RefusedIff(size: nat, a: string, b: string)
    requires '-' !in a
    ensures Resolve(size, Some(UNIT + a + "-" + b)).None? <==>
            (Strip(a) != "" && ParseInt(a).None?) || (Strip(b) != "" && ParseInt(b).None?)
  {
    assert (UNIT + a + "-" + b)[|UNIT|..] == a + ['-'] + b;
    SplitJoin(a, '-', b);
  }

  /** Asking again for a range that was reported gives the same range. */
  lemma {:induction false} ReportedRangeIsStable(size: nat, header: Option<string>)
    requires size > 0 && Resolve(size, header).Some?
    ensures var r := Resolve(size, header).value; Resolve(size, Some(FromTo(r.start, r.end))) == Some(r)
  {
    ResolvedInsideFile(size, header);
    var r := Resolve(size, header).value;
    ResolveFromTo(size, r.start, r.end);
  }

  // ----- the generator -----

  /** An open file; a read may return fewer bytes than asked, but none only at the end. */
  class File {
    const content: seq<byte>
    var pos: nat

    constructor (content: seq<byte>)
      ensures this.content == content && pos == 0
    {
      this.content := content;
      pos := 0;
    }

    method Seek(to: nat)
      modifies this
      ensures pos == to
    {
      pos := to;
    }

    /** `most` is what the operating system is willing to deliver this time. */
    method Read(n: nat, most: nat) returns (chunk: seq<byte>)
      requires n > 0 && most > 0
      modifies this
      ensures |chunk| <= n
      ensures chunk == [] <==> old(pos) >= |content|
      ensures chunk != [] ==> old(pos) + |chunk| <= |content| && chunk == content[old(pos)..old(pos) + |chunk|]
      ensures pos == old(pos) + |chunk|
    {
      if pos >= |content| {
        return [];
      }
      var k := if most < n then most else n;
      if k > |content| - pos {
        k := |content| - pos;
      }
      chunk := content[pos..pos + k];
      pos := pos + k;
    }
  }

  function Join(chunks: seq<seq<byte>>): seq<byte> {
    if chunks == [] then [] else Join(chunks[..|chunks| - 1]) + chunks[|chunks| - 1]
  }

  /** The bytes of a file from start to end inclusive, as far as the file has them. */
  function Slice(content: seq<byte>, r: Range): seq<byte>
    requires 0 <= r.start <= r.end + 1
  {
    content[MinInt(r.start, |content|)..MinInt(r.end + 1, |content|)]
  }

  /**
    The generator.  `short(i)` says how much the i-th read may deliver, any positive amount.  The chunks are
    non-empty, of at most a mebibyte each, and together they are exactly the bytes of the range.
   */
  method Generate(content: seq<byte>, r: Range, short: nat -> nat) returns (chunks: seq<seq<byte>>)
    requires 0 <= r.start <= r.end
    requires forall i :: short(i) > 0
    ensures Pieces(chunks) && Join(chunks) == Slice(content, r)
  {
    var f := new File(content);
    f.Seek(r.start);
    var remaining := r.end - r.start + 1;
    chunks := [];
    while remaining > 0
      invariant 0 <= remaining <= r.end - r.start + 1
      invariant f.content == content && f.pos == r.end + 1 - remaining
      invariant Pieces(chunks)
      invariant Join(chunks) == content[MinInt(r.start, |content|)..MinInt(f.pos, |content|)]
    {
      var chunk := f.Read(MinInt(CHUNK, remaining), short(|chunks|));
      if chunk == [] {
        break;
      }
      remaining := remaining - |chunk|;
      ReadExtends(content, r.start, f.pos - |chunk|, chunks, chunk);
      OnePieceMore(chunks, chunk);
      chunks := chunks + [chunk];
    }
  }

  /** Non-empty chunks of at most a mebibyte each. */
  predicate Pieces(chunks: seq<seq<byte>>) {
    forall i :: 0 <= i < |chunks| ==> 0 < |chunks[i]| <= CHUNK
  }

  lemma {:induction false} OnePieceMore(chunks: seq<seq<byte>>, chunk: seq<byte>)
    requires Pieces(chunks) && 0 < |chunk| <= CHUNK
    ensures Pieces(chunks + [chunk])
  {
  }

  lemma {:induction false} JoinSnoc(chunks: seq<seq<byte>>, chunk: seq<byte>)
    ensures Join(chunks + [chunk]) == Join(chunks) + chunk
  {
    assert (chunks + [chunk])[..|chunks|] == chunks;
  }

  lemma {:induction false} ReadExtends(content: seq<byte>, start: nat, pos: nat, chunks: seq<seq<byte>>,
                                       chunk: seq<byte>)
    requires start <= pos && pos + |chunk| <= |content| && chunk == content[pos..pos + |chunk|]
    requires Join(chunks) == content[MinInt(start, |content|)..MinInt(pos, |content|)]
    ensures Join(chunks + [chunk]) == content[MinInt(start, |content|)..MinInt(pos + |chunk|, |content|)]
  {
    JoinSnoc(chunks, chunk);
    assert content[start..pos] + chunk == content[start..pos + |chunk|];
  }

  // ----- the response -----

  datatype Response = Response(
    status: int, contentLength: int, contentRange: Option<string>, range: Range, body: seq<seq<byte>>)

  function ContentRange(r: Range, size: nat): string
    requires 0 <= r.start && 0 <= r.end
  {
    "bytes " + Dec(r.start) + "-" + Dec(r.end) + "/" + Dec(size)
  }

  /** What a client reads in a Content-Range, cut at its space, its dash and its slash. */
  ghost predicate Reports(text: string, start: int, end: int, size: nat) {
    exists a, b, n ::
      && text == "bytes " + a + "-" + b + "/" + n && '-' !in a && '/' !in b
      && ParseInt(a) == Some(start) && ParseInt(b) == Some(end) && ParseInt(n) == Some(size)
  }

  lemma {:induction false} ContentRangeReports(r: Range, size: nat)
    requires 0 <= r.start && 0 <= r.end
    ensures Reports(ContentRange(r, size), r.start, r.end, size)
  {
    ParseDec(r.start);
    ParseDec(r.end);
    ParseDec(size);
    assert '/' !in Dec(r.end);
  }

  /** No header, an empty one, one of another unit, or one without a dash. */
  predicate AsksForAll(header: Option<string>) {
    header.None? || !(UNIT <= header.value) || '-' !in header.value
  }

  lemma {:induction false} AllOfIt(size: nat, header: Option<string>)
    requires AsksForAll(header)
    ensures Resolve(size, header) == Some(Range(0, if size == 0 then 0 else size - 1))
  {
    if header.Some? && UNIT <= header.value {
      SplitNone(header.value[|UNIT|..], '-');
    }
  }

  method Serve(content: seq<byte>, header: Option<string>, short: nat -> nat) returns (res: Option<Response>)
    requires forall i :: short(i) > 0
    ensures res.None? <==> Resolve(|content|, header).None?
    ensures (header.None? || !("bytes=" <= header.value) || '-' !in header.value) ==>
              && res.Some? && Join(res.value.body) == content
              && (content != [] ==> res.value.contentLength == |content|)
    ensures res.Some? && res.value.contentRange.Some? ==>
              var x := res.value;
              && Reports(x.contentRange.value, x.range.start, x.range.end, |content|)
              && (content != [] ==>
                    && 0 <= x.range.start <= x.range.end < |content|
                    && Join(x.body) == content[x.range.start..x.range.end + 1])
    ensures res.Some? ==>
              var r, x := Resolve(|content|, header).value, res.value;
              && x.range == r && 0 <= r.start <= r.end
              && Join(x.body) == Slice(content, r)
              && (forall i :: 0 <= i < |x.body| ==> 0 < |x.body[i]| <= CHUNK)
              && x.contentLength == r.end - r.start + 1
              && (content != [] ==> |Join(x.body)| == x.contentLength)
              && x.status == (if header.Some? && header.value != "" then 206 else 200)
              && x.contentRange == if x.status == 206 then Some(ContentRange(r, |content|)) else None
  {
    var r := Resolve(|content|, header);
    if AsksForAll(header) {
      AllOfIt(|content|, header);
    }
    if r.None? {
      return None;
    }
    if content != [] {
      ResolvedInsideFile(|content|, header);
    }
    ContentRangeReports(r.value, |content|);
    var body := Generate(content, r.value, short);
    var partial := header.Some? && header.value != "";
    res := Some(Response(if partial then 206 else 200, r.value.end - r.value.start + 1,
                         if partial then Some(ContentRange(r.value, |content|)) else None, r.value, body));
  }

  /** Content-Length is the number of bytes sent if and only if the file is not empty. */
  lemma {:induction false} LengthMatchesIffNonEmpty(content: seq<byte>, header: Option<string>)
    requires Resolve(|content|, header).Some?
    ensures var r := Resolve(|content|, header).value;
            |Slice(content, r)| == r.end - r.start + 1 <==> content != []
  {
  }

  // ----- a client that asks for the file piece by piece -----

  /** The next k bytes of a file, asked for by their numbers, extend what has been read by at least one byte. */
  lemma {:induction false} NextPiece(content: seq<byte>, next: nat, k: nat)
    requires next < |content| && k > 0
    ensures var r := Range(next, MinInt(next + k - 1, |content| - 1));
            && Resolve(|content|, Some(FromTo(next, next + k - 1))) == Some(r)
            && next <= r.end < |content|
            && content[..next] + Slice(content, r) == content[..r.end + 1]
  {
    ResolveFromTo(|content|, next, next + k - 1);
  }

  /**
    Asks for the next k bytes after the last reported end, for any k >= 1 chosen per request, until the
    reported end is the end of the file.
   */
  method Reassemble(content: seq<byte>, ks: nat -> nat, short: nat -> nat)
    returns (file: seq<byte>, requests: nat)
    requires content != []
    requires (forall i :: short(i) > 0) && forall i :: ks(i) > 0
    ensures file == content
    ensures requests <= |content|
  {
    file, requests := [], 0;
    var next := 0;
    while next < |content|
      invariant next <= |content| && file == content[..next] && requests <= next
      decreases |content| - next
    {
      var k := ks(requests);
      var header := FromTo(next, next + k - 1);
      NextPiece(content, next, k);
      var res := Serve(content, Some(header), short);
      var r := res.value.range;
      file := file + Join(res.value.body);
      next := r.end + 1;
      requests := requests + 1;
    }
  }
}
