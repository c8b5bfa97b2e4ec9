/** The string operations the program uses, on ASCII text. */
module Text {
  import opened Wrappers

  predicate IsSpace(c: char) {
    c == ' ' || '\t' <= c <= '\r' || '\U{1c}' <= c <= '\U{1f}'
  }

  function StripLeft(s: string): (r: string) {
    if s != "" && IsSpace(s[0]) then StripLeft(s[1..]) else s
  }

  function StripRight(s: string): (r: string) {
    if s != "" && IsSpace(s[|s| - 1]) then StripRight(s[..|s| - 1]) else s
  }

  function Strip(s: string): string {
    StripRight(StripLeft(s))
  }

  predicate Stripped(s: string) {
    s == "" || (!IsSpace(s[0]) && !IsSpace(s[|s| - 1]))
  }

  lemma {:induction false} StripRightKeepsFirst(s: string)
    ensures StripRight(s) != "" ==> s != "" && StripRight(s)[0] == s[0] && !IsSpace(StripRight(s)[|StripRight(s)| - 1])
  {
    if s != "" && IsSpace(s[|s| - 1]) {
      StripRightKeepsFirst(s[..|s| - 1]);
    }
  }

  lemma {:induction false} StripLeftFirst(s: string)
    ensures StripLeft(s) != "" ==> !IsSpace(StripLeft(s)[0])
  {
    if s != "" && IsSpace(s[0]) {
      StripLeftFirst(s[1..]);
    }
  }

  lemma {:induction false} StripStrips(s: string)
    ensures Stripped(Strip(s))
  {
    StripLeftFirst(s);
    StripRightKeepsFirst(StripLeft(s));
  }

  /** The part before the first `c` and the part after it. */
  function SplitFirst(s: string, c: char): (r: Option<(string, string)>)
  {
    if s == "" then None
    else if s[0] == c then Some(("", s[1..]))
    else
      match SplitFirst(s[1..], c)
      case None => None
      case Some(p) => Some(([s[0]] + p.0, p.1))
  }

  /** Splitting is inverse to joining, whatever follows the separator. */
  lemma {:induction false} SplitJoin(a: string, c: char, b: string)
    requires c !in a
    ensures SplitFirst(a + [c] + b, c) == Some((a, b))
  {
    if a == "" {
      assert a + [c] + b == [c] + b;
    } else {
      assert (a + [c] + b)[1..] == a[1..] + [c] + b;
      SplitJoin(a[1..], c, b);
      assert [a[0]] + a[1..] == a;
    }
  }

  lemma {:induction false} SplitInverse(s: string, c: char)
    ensures match SplitFirst(s, c)
            case None => c !in s
            case Some(p) => c !in p.0 && s == p.0 + [c] + p.1
  {
    if s != "" && s[0] != c {
      SplitInverse(s[1..], c);
      assert s == [s[0]] + s[1..];
    }
  }

  lemma {:induction false} SplitNone(s: string, c: char)
    requires c !in s
    ensures SplitFirst(s, c) == None
  {
    if s != "" {
      SplitNone(s[1..], c);
    }
  }

  predicate AllSpace(s: string) {
    forall i :: 0 <= i < |s| ==> IsSpace(s[i])
  }

  lemma {:induction false} StripLeftRemoves(s: string) returns (pre: string)
    ensures AllSpace(pre) && s == pre + StripLeft(s)
  {
    if s != "" && IsSpace(s[0]) {
      pre := StripLeftRemoves(s[1..]);
      pre := [s[0]] + pre;
    } else {
      pre := "";
    }
  }

  lemma {:induction false} StripRightRemoves(s: string) returns (post: string)
    ensures AllSpace(post) && s == StripRight(s) + post
  {
    if s != "" && IsSpace(s[|s| - 1]) {
      post := StripRightRemoves(s[..|s| - 1]);
      post := post + [s[|s| - 1]];
    } else {
      post := "";
    }
  }

  /** Stripping removes white space at both ends and nothing else. */
  lemma {:induction false} StripRemovesSpace(s: string) returns (pre: string, post: string)
    ensures s == pre + Strip(s) + post && AllSpace(pre) && AllSpace(post) && Stripped(Strip(s))
  {
    pre := StripLeftRemoves(s);
    post := StripRightRemoves(StripLeft(s));
    StripStrips(s);
  }

  /** Text without outer white space is left as it is. */
  lemma {:induction false} StripFixed(s: string)
    requires Stripped(s)
    ensures Strip(s) == s
  {
  }

  function LowerChar(c: char): char {
    if 'A' <= c <= 'Z' then c - 'A' + 'a' else c
  }

  function Lower(s: string): string {
    seq(|s|, i requires 0 <= i < |s| => LowerChar(s[i]))
  }

  /** Lower-casing moves each capital letter by the distance of the two alphabets and leaves other characters. */
  lemma {:induction false} LowerMeaning(s: string)
    ensures |Lower(s)| == |s|
    ensures forall i :: 0 <= i < |s| ==>
              if 'A' <= s[i] <= 'Z' then Lower(s)[i] as int == s[i] as int + 32 else Lower(s)[i] == s[i]
  {
  }

  lemma {:induction false} LowerOfLower(s: string)
    ensures Lower(Lower(s)) == Lower(s)
  {
  }

  lemma {:induction false} LowerKeepsStripped(s: string)
    requires Stripped(s)
    ensures Stripped(Lower(s))
  {
  }
}
