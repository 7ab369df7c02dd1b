/** Splitting and joining text on a separator, the two library operations the
    path grammar and the OID comparison are written with. */
module Text {
  import opened Wrappers

  /** The pieces of `s` between occurrences of `sep`; the empty text has one empty piece. */
  function Split(s: string, sep: char): (parts: seq<string>)
    ensures |parts| >= 1
  {
    if s == "" then [""] else PutFront(s[0], Split(s[1..], sep), sep)
  }

  /** Puts one character in front of a split text: a separator opens a new piece. */
  function PutFront(c: char, rest: seq<string>, sep: char): (parts: seq<string>)
    requires |rest| >= 1
    ensures |parts| >= 1
  {
    if c == sep then [""] + rest else [[c] + rest[0]] + rest[1..]
  }

  function Join(parts: seq<string>, sep: char): string {
    if |parts| == 0 then ""
    else if |parts| == 1 then parts[0]
    else parts[0] + [sep] + Join(parts[1..], sep)
  }

  lemma {:induction false} JoinSplit(s: string, sep: char)
    ensures Join(Split(s, sep), sep) == s
  {
    if s != "" {
      JoinSplit(s[1..], sep);
      JoinPutFront(s[0], Split(s[1..], sep), sep);
      assert s == [s[0]] + s[1..];
    }
  }

  lemma JoinPutFront(c: char, rest: seq<string>, sep: char)
    requires |rest| >= 1
    ensures Join(PutFront(c, rest, sep), sep) == [c] + Join(rest, sep)
  {
    var parts := PutFront(c, rest, sep);
    if c == sep {
      assert parts[1..] == rest;
    } else {
      assert parts[1..] == rest[1..];
    }
  }

  lemma {:induction false} SplitPieces(s: string, sep: char)
    ensures forall part <- Split(s, sep) :: sep !in part
  {
    if s != "" { SplitPieces(s[1..], sep); }
  }

  /** A piece without the separator is split off whole. */
  lemma {:induction false} SplitPiece(a: string, sep: char)
    requires sep !in a
    ensures Split(a, sep) == [a]
  {
    if a != "" {
      SplitPiece(a[1..], sep);
      assert a == [a[0]] + a[1..];
    }
  }

  lemma PutFrontConcat(c: char, a: seq<string>, b: seq<string>, sep: char)
    requires |a| >= 1
    ensures PutFront(c, a + b, sep) == PutFront(c, a, sep) + b
  {
    assert (a + b)[1..] == a[1..] + b;
  }

  lemma {:induction false} SplitConcat(a: string, t: string, sep: char)
    ensures Split(a + [sep] + t, sep) == Split(a, sep) + Split(t, sep)
  {
    var whole := a + [sep] + t;
    if a == "" {
      assert whole[1..] == t;
    } else {
      assert whole[1..] == a[1..] + [sep] + t;
      SplitConcat(a[1..], t, sep);
      PutFrontConcat(a[0], Split(a[1..], sep), Split(t, sep), sep);
    }
  }

  lemma {:induction false} SplitJoin(parts: seq<string>, sep: char)
    requires |parts| >= 1
    requires forall part <- parts :: sep !in part
    ensures Split(Join(parts, sep), sep) == parts
  {
    SplitPiece(parts[0], sep);
    if |parts| > 1 {
      SplitJoin(parts[1..], sep);
      SplitConcat(parts[0], Join(parts[1..], sep), sep);
      assert parts == [parts[0]] + parts[1..];
    }
  }

  lemma {:induction false} JoinConcat(a: seq<string>, b: seq<string>, sep: char)
    requires |a| >= 1 && |b| >= 1
    ensures Join(a + b, sep) == Join(a, sep) + [sep] + Join(b, sep)
  {
    assert (a + b)[1..] == a[1..] + b;
    if |a| > 1 { JoinConcat(a[1..], b, sep); }
  }

  /** The first position of `c` in `s`, or -1. */
  function IndexOf(s: string, c: char): (i: int)
    ensures i == -1 <==> c !in s
    ensures i >= 0 ==> i < |s| && s[i] == c && c !in s[..i]
    ensures i >= -1
  {
    if s == "" then -1
    else if s[0] == c then 0
    else
      var rest := IndexOf(s[1..], c);
      if rest < 0 then -1 else rest + 1
  }

  /** How often `c` occurs in `s`. */
  function Count(s: string, c: char): (n: nat) {
    if s == "" then 0 else (if s[0] == c then 1 else 0) + Count(s[1..], c)
  }

  lemma {:induction false} CountConcat(a: string, b: string, c: char)
    ensures Count(a + b, c) == Count(a, c) + Count(b, c)
  {
    if a == "" {
      assert a + b == b;
    } else {
      CountConcat(a[1..], b, c);
      assert (a + b)[1..] == a[1..] + b;
    }
  }

  lemma {:induction false} CountZero(a: string, c: char)
    ensures Count(a, c) == 0 <==> c !in a
  {
    if a != "" {
      CountZero(a[1..], c);
      assert a == [a[0]] + a[1..];
    }
  }

  predicate HasPrefix(s: string, prefix: string) {
    prefix <= s
  }

  predicate HasSuffix(s: string, suffix: string) {
    |suffix| <= |s| && s[|s| - |suffix|..] == suffix
  }

  /** White space as Go's unicode.IsSpace sees it. */
  predicate IsSpace(c: char) {
    var u := c as int;
    || 9 <= u <= 13 || u == 32 || u == 0x85 || u == 0xA0 || u == 0x1680
    || 0x2000 <= u <= 0x200a || u == 0x2028 || u == 0x2029 || u == 0x202f || u == 0x205f || u == 0x3000
  }

  /** `strings.TrimSpace`. */
  function Trim(s: string): (r: string)
    ensures r != "" ==> !IsSpace(r[0]) && !IsSpace(r[|r| - 1])
    ensures forall c <- r :: c in s
  {
    if s == "" then ""
    else if IsSpace(s[0]) then Trim(s[1..])
    else if IsSpace(s[|s| - 1]) then Trim(s[..|s| - 1])
    else s
  }

  /** Trimming cuts white space off both ends, all of it and nothing else. */
  lemma {:induction false} TrimIs(s: string) returns (i: nat, j: nat)
    ensures i <= j <= |s| && Trim(s) == s[i..j]
    ensures forall k :: 0 <= k < i || j <= k < |s| ==> IsSpace(s[k])
    ensures Trim(s) != "" ==> !IsSpace(Trim(s)[0]) && !IsSpace(Trim(s)[|Trim(s)| - 1])
    decreases |s|
  {
    hide IsSpace;
    if s == "" {
      i, j := 0, 0;
    } else if IsSpace(s[0]) {
      i, j := TrimIs(s[1..]);
      assert s[1..][i..j] == s[i + 1..j + 1];
      forall k | 0 <= k < i + 1 || j + 1 <= k < |s| ensures IsSpace(s[k]) {
        if k > 0 { assert s[k] == s[1..][k - 1]; }
      }
      i, j := i + 1, j + 1;
    } else if IsSpace(s[|s| - 1]) {
      var n := |s| - 1;
      i, j := TrimIs(s[..n]);
      assert s[..n][i..j] == s[i..j];
      forall k | 0 <= k < i || j <= k < |s| ensures IsSpace(s[k]) {
        if k < n { assert s[k] == s[..n][k]; }
      }
    } else {
      i, j := 0, |s|;
    }
  }

  // ---------------------------------------------------------------------- decimal digits

  predicate IsDigit(c: char) { '0' <= c <= '9' }

  /** The number a non-empty text of decimal digits spells. */
  function Digits(s: string): (r: Option<nat>)
    ensures r.Some? <==> s != "" && forall c <- s :: IsDigit(c)
  {
    if s == "" then None
    else
      var k := |s| - 1;
      if !IsDigit(s[k]) then None
      else if k == 0 then Some((s[k] - '0') as nat)
      else
        match Digits(s[..k])
        case None => None
        case Some(high) => assert s == s[..k] + [s[k]]; Some(10 * high + (s[k] - '0') as nat)
  }
}
