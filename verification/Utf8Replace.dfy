/**
  Decoding bytes as UTF-8 with replacement of malformed parts, as `bytes.decode("utf-8", errors="replace")`
  does: a maximal well-formed beginning of a sequence that is cut short becomes one U+FFFD, and decoding
  resumes after it (Unicode 15, section 3.9, "U+FFFD Substitution of Maximal Subparts").
 */
module Utf8Replace {
  import opened Numbers

  type Codepoint = nat

  const REPLACEMENT: Codepoint := 0xFFFD

  predicate Continuation(b: byte) {
    0x80 <= b <= 0xBF
  }

  /** How many bytes a sequence with this first byte has; 0 for a byte that cannot begin one. */
  function Length(b: byte): nat {
    if b < 0x80 then 1
    else if b < 0xC2 then 0
    else if b < 0xE0 then 2
    else if b < 0xF0 then 3
    else if b < 0xF5 then 4
    else 0
  }

  /** The second byte has a narrower range after some first bytes. */
  predicate SecondOk(first: byte, b: byte) {
    && Continuation(b)
    && (first == 0xE0 ==> b >= 0xA0)
    && (first == 0xED ==> b <= 0x9F)
    && (first == 0xF0 ==> b >= 0x90)
    && (first == 0xF4 ==> b <= 0x8F)
  }

  /** Number of bytes, from the first on, that may begin or make up one character. */
  function Wellformed(s: seq<byte>): (n: nat)
    requires s != []
    ensures n <= Length(s[0]) && n <= |s|
  {
    var len := Length(s[0]);
    if len == 0 then 0
    else if len == 1 || |s| == 1 || !SecondOk(s[0], s[1]) then 1
    else if len == 2 || |s| == 2 || !Continuation(s[2]) then 2
    else if len == 3 || |s| == 3 || !Continuation(s[3]) then 3
    else 4
  }

  /** Number of bytes that the first character, or the first replacement, stands for. */
  function Consumed(s: seq<byte>): (n: nat)
    requires s != []
    ensures 1 <= n <= |s|
  {
    if Wellformed(s) == 0 then 1 else Wellformed(s)
  }

  function FirstChar(s: seq<byte>): Codepoint
    requires s != []
  {
    var len := Length(s[0]);
    if len == 0 || Wellformed(s) < len then REPLACEMENT
    else if len == 1 then s[0] as int
    else if len == 2 then (s[0] as int - 0xC0) * 64 + (s[1] as int - 0x80)
    else if len == 3 then ((s[0] as int - 0xE0) * 64 + (s[1] as int - 0x80)) * 64 + (s[2] as int - 0x80)
    else (((s[0] as int - 0xF0) * 64 + (s[1] as int - 0x80)) * 64 + (s[2] as int - 0x80)) * 64 + (s[3] as int - 0x80)
  }

  function Decode(s: seq<byte>): seq<Codepoint> {
    if s == [] then [] else [FirstChar(s)] + Decode(s[Consumed(s)..])
  }

  /** Only continuation bytes follow the first byte of a character or of a replaced part. */
  lemma {:induction false} ConsumedContinues(s: seq<byte>, i: nat)
    requires s != [] && 1 <= i < Consumed(s)
    ensures Continuation(s[i])
  {
  }

  /** What the first character is does not depend on bytes from a non-continuation byte on. */
  lemma {:induction false} ConsumedStopsAt(s: seq<byte>, q: nat)
    requires 0 < q <= |s| && (q == |s| || !Continuation(s[q]))
    ensures Consumed(s) <= q && Consumed(s[..q]) == Consumed(s) && FirstChar(s[..q]) == FirstChar(s)
  {
    if q < Consumed(s) {
      ConsumedContinues(s, q);
    }
    var p := s[..q];
    assert p[0] == s[0];
    assert |p| > 1 ==> p[1] == s[1];
    assert |p| > 2 ==> p[2] == s[2];
    assert |p| > 3 ==> p[3] == s[3];
  }

  lemma {:induction false} DecodeStep(s: seq<byte>, n: nat)
    requires s != [] && Consumed(s) == n
    ensures Decode(s) == [FirstChar(s)] + Decode(s[n..])
  {
  }

  /** Decoding synchronises at every byte that is not a continuation byte: the text can be cut there. */
  lemma {:induction false} DecodeSplits(s: seq<byte>, q: nat)
    requires q <= |s| && (q == |s| || !Continuation(s[q]))
    ensures Decode(s) == Decode(s[..q]) + Decode(s[q..])
  {
    assert s == s[..q] + s[q..];
    DecodeSum(s[..q], s[q..]);
  }

  lemma {:induction false} DecodeSum(a: seq<byte>, b: seq<byte>)
    requires b == [] || !Continuation(b[0])
    ensures Decode(a + b) == Decode(a) + Decode(b)
    decreases |a|
  {
    if a == [] {
      assert a + b == b;
    } else {
      var rest := a[Consumed(a)..];
      DecodeSum(rest, b);
      DecodeMore(a, b, Consumed(a), rest);
    }
  }

  lemma {:induction false} DecodeMore(a: seq<byte>, b: seq<byte>, n: nat, rest: seq<byte>)
    requires a != [] && (b == [] || !Continuation(b[0])) && n == Consumed(a) && rest == a[n..]
    requires Decode(rest + b) == Decode(rest) + Decode(b)
    ensures Decode(a + b) == Decode(a) + Decode(b)
  {
    FirstOfSum(a, b);
    assert (a + b)[n..] == rest + b;
    FirstDecoded(a, rest, a + b, rest + b, b, n);
  }

  /** Two texts with the same first character, whose rests differ by an end, differ by that end. */
  lemma {:induction false} FirstDecoded(a: seq<byte>, x: seq<byte>, s: seq<byte>, y: seq<byte>, b: seq<byte>, n: nat)
    requires a != [] && s != [] && Consumed(a) == n && Consumed(s) == n && FirstChar(a) == FirstChar(s)
    requires a[n..] == x && s[n..] == y && Decode(y) == Decode(x) + Decode(b)
    ensures Decode(s) == Decode(a) + Decode(b)
  {
    DecodeStep(a, n);
    DecodeStep(s, n);
  }

  lemma {:induction false} FirstOfSum(a: seq<byte>, b: seq<byte>)
    requires a != [] && (b == [] || !Continuation(b[0]))
    ensures Consumed(a + b) == Consumed(a) && FirstChar(a + b) == FirstChar(a)
  {
    assert (a + b)[..|a|] == a;
    ConsumedStopsAt(a + b, |a|);
  }

  // ----- encoding -----

  /** A Unicode scalar value. */
  predicate Scalar(c: Codepoint) {
    c < 0xD800 || 0xE000 <= c <= 0x10FFFF
  }

  function Tail(x: nat): byte {
    (0x80 + x % 64) as byte
  }

  /** The UTF-8 bytes of a character (RFC 3629, section 3). */
  function EncodeChar(c: Codepoint): seq<byte>
    requires Scalar(c)
  {
    if c < 0x80 then [c as byte]
    else if c < 0x800 then [(0xC0 + c / 64) as byte, Tail(c)]
    else if c < 0x10000 then [(0xE0 + c / 4096) as byte, Tail(c / 64), Tail(c)]
    else [(0xF0 + c / 262144) as byte, Tail(c / 4096), Tail(c / 64), Tail(c)]
  }

  function Encode(cs: seq<Codepoint>): seq<byte>
    requires forall i :: 0 <= i < |cs| ==> Scalar(cs[i])
  {
    if cs == [] then [] else EncodeChar(cs[0]) + Encode(cs[1..])
  }

  lemma {:induction false} Quotients(c: nat)
    ensures c / 4096 == c / 64 / 64 && c / 262144 == c / 64 / 64 / 64
    ensures c == c / 64 * 64 + c % 64
  {
  }

  /** A sequence whose first byte announces two bytes and whose second byte continues it. */
  lemma {:induction false} ReadTwo(s: seq<byte>)
    requires |s| >= 2 && Length(s[0]) == 2 && Continuation(s[1])
    ensures Consumed(s) == 2 && FirstChar(s) == (s[0] as int - 0xC0) * 64 + (s[1] as int - 0x80)
  {
  }

  lemma {:induction false} ReadThree(s: seq<byte>)
    requires |s| >= 3 && Length(s[0]) == 3 && SecondOk(s[0], s[1]) && Continuation(s[2])
    ensures Consumed(s) == 3
    ensures FirstChar(s) == ((s[0] as int - 0xE0) * 64 + (s[1] as int - 0x80)) * 64 + (s[2] as int - 0x80)
  {
  }

  lemma {:induction false} ReadFour(s: seq<byte>)
    requires |s| >= 4 && Length(s[0]) == 4 && SecondOk(s[0], s[1]) && Continuation(s[2]) && Continuation(s[3])
    ensures Consumed(s) == 4
    ensures FirstChar(s) ==
            (((s[0] as int - 0xF0) * 64 + (s[1] as int - 0x80)) * 64 + (s[2] as int - 0x80)) * 64 + (s[3] as int - 0x80)
  {
  }

  /** An encoded character is read back, and no more than its bytes, whatever follows. */
  lemma {:induction false} EncodedIsRead(c: Codepoint, rest: seq<byte>)
    requires Scalar(c)
    ensures var s := EncodeChar(c) + rest; Consumed(s) == |EncodeChar(c)| && FirstChar(s) == c
  {
    Quotients(c);
    if c < 0x80 {
    } else if c < 0x800 {
      ReadTwo(EncodeChar(c) + rest);
    } else if c < 0x10000 {
      Quotients(c / 64);
      ThreeBytesOk(c);
      ReadThree(EncodeChar(c) + rest);
    } else {
      Quotients(c / 64);
      Quotients(c / 64 / 64);
      FourBytesOk(c);
      ReadFour(EncodeChar(c) + rest);
    }
  }

  /** Neither overlong nor a surrogate. */
  lemma {:induction false} ThreeBytesOk(c: Codepoint)
    requires Scalar(c) && 0x800 <= c < 0x10000
    ensures var s := EncodeChar(c); |s| == 3 && Length(s[0]) == 3 && SecondOk(s[0], s[1])
  {
    Quotients(c);
    Quotients(c / 64);
  }

  lemma {:induction false} FourBytesOk(c: Codepoint)
    requires Scalar(c) && 0x10000 <= c
    ensures var s := EncodeChar(c); |s| == 4 && Length(s[0]) == 4 && SecondOk(s[0], s[1])
  {
    Quotients(c);
    Quotients(c / 64);
    Quotients(c / 64 / 64);
  }

  /** Decoding is inverse to encoding. */
  lemma {:induction false} DecodeEncode(cs: seq<Codepoint>)
    requires forall i :: 0 <= i < |cs| ==> Scalar(cs[i])
    ensures Decode(Encode(cs)) == cs
  {
    if cs != [] {
      var first, rest := EncodeChar(cs[0]), Encode(cs[1..]);
      DecodeEncode(cs[1..]);
      EncodedIsRead(cs[0], rest);
      DecodeStep(first + rest, |first|);
      assert (first + rest)[|first|..] == rest;
    }
  }

  /** What is decoded at each place: the character whose encoding stands there or, if none does, a replacement. */
  lemma {:induction false} FirstCharMeaning(s: seq<byte>)
    requires s != []
    ensures || (Scalar(FirstChar(s)) && EncodeChar(FirstChar(s)) == s[..Consumed(s)])
            || (FirstChar(s) == REPLACEMENT && forall c: Codepoint :: Scalar(c) ==> !(EncodeChar(c) <= s))
  {
    var len := Length(s[0]);
    if len == 0 || Wellformed(s) < len {
      forall c: Codepoint | Scalar(c)
        ensures !(EncodeChar(c) <= s)
      {
        if EncodeChar(c) <= s {
          NotEncoded(c, s);
        }
      }
    } else {
      CompleteIsEncoded(s);
    }
  }

  lemma {:induction false} NotEncoded(c: Codepoint, s: seq<byte>)
    requires Scalar(c) && s != [] && EncodeChar(c) <= s
    ensures Length(s[0]) != 0 && Wellformed(s) >= Length(s[0])
  {
    EncodedIsRead(c, s[|EncodeChar(c)|..]);
  }

  lemma {:induction false} CompleteIsEncoded(s: seq<byte>)
    requires s != [] && Length(s[0]) != 0 && Wellformed(s) >= Length(s[0])
    ensures Scalar(FirstChar(s)) && EncodeChar(FirstChar(s)) == s[..Consumed(s)]
  {
    var len := Length(s[0]);
    if len == 2 {
      ReadTwo(s);
      EncodeTwo(s[0] as int - 0xC0, s[1] as int - 0x80);
    } else if len == 3 {
      ReadThree(s);
      EncodeThree(s[0] as int - 0xE0, s[1] as int - 0x80, s[2] as int - 0x80);
    } else if len == 4 {
      ReadFour(s);
      EncodeFour(s[0] as int - 0xF0, s[1] as int - 0x80, s[2] as int - 0x80, s[3] as int - 0x80);
    }
  }

  lemma {:induction false} EncodeTwo(a: nat, b: nat)
    requires 2 <= a < 32 && b < 64
    ensures var c := a * 64 + b; Scalar(c) && EncodeChar(c) == [(0xC0 + a) as byte, (0x80 + b) as byte]
  {
  }

  lemma {:induction false} EncodeThree(a: nat, b: nat, d: nat)
    requires a < 16 && b < 64 && d < 64 && (a == 0 ==> b >= 32) && (a == 13 ==> b < 32)
    ensures var c := (a * 64 + b) * 64 + d;
            Scalar(c) && EncodeChar(c) == [(0xE0 + a) as byte, (0x80 + b) as byte, (0x80 + d) as byte]
  {
    var c := (a * 64 + b) * 64 + d;
    Quotients(c);
    assert c / 64 == a * 64 + b;
  }

  lemma {:induction false} EncodeFour(a: nat, b: nat, d: nat, e: nat)
    requires a < 5 && b < 64 && d < 64 && e < 64 && (a == 0 ==> b >= 16) && (a == 4 ==> b < 16)
    ensures var c := ((a * 64 + b) * 64 + d) * 64 + e;
            && Scalar(c)
            && EncodeChar(c) == [(0xF0 + a) as byte, (0x80 + b) as byte, (0x80 + d) as byte, (0x80 + e) as byte]
  {
    var c := ((a * 64 + b) * 64 + d) * 64 + e;
    Quotients(c);
    assert c / 64 == (a * 64 + b) * 64 + d;
    assert c / 64 / 64 == a * 64 + b;
  }

  /** Continuation bytes by themselves decode to replacement characters. */
  lemma {:induction false} StrayContinuations(s: seq<byte>)
    requires forall i :: 0 <= i < |s| ==> Continuation(s[i])
    ensures |Decode(s)| == |s| && forall i :: 0 <= i < |s| ==> Decode(s)[i] == REPLACEMENT
  {
    if s != [] {
      assert Length(s[0]) == 0 && Consumed(s) == 1;
      StrayContinuations(s[1..]);
    }
  }

  /** Index of the first byte that is not a continuation byte. */
  function SyncPoint(s: seq<byte>): (q: nat)
    ensures q <= |s|
  {
    if s == [] || !Continuation(s[0]) then 0 else 1 + SyncPoint(s[1..])
  }

  lemma {:induction false} SyncPointIs(s: seq<byte>)
    ensures SyncPoint(s) < |s| ==> !Continuation(s[SyncPoint(s)])
    ensures forall i :: 0 <= i < SyncPoint(s) ==> Continuation(s[i])
  {
    if s != [] && Continuation(s[0]) {
      SyncPointIs(s[1..]);
      forall i | 0 <= i < SyncPoint(s)
        ensures Continuation(s[i])
      {
        assert i > 0 ==> s[i] == s[1..][i - 1];
      }
    }
  }
}
