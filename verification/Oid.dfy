/** internal/router/oid.go, `CompareOID`: the order of object identifiers. */
module Oid {
  import opened Wrappers
  import opened Text
  import Leaves

  // --------------------------------------------------------------------- the code

  function TrimDot(s: string): string {
    if HasPrefix(s, ".") then s[1..] else s
  }

  function Components(oid: string): seq<string> {
    Split(TrimDot(oid), '.')
  }

  const INT_BOUND: int := 0x8000_0000_0000_0000

  /** `strconv.Atoi` on a 64-bit platform. */
  function Atoi(s: string): Option<int> {
    var negative := HasPrefix(s, "-");
    match Digits(if negative || HasPrefix(s, "+") then s[1..] else s)
    case None => None
    case Some(n) =>
      var i := if negative then 0 - n else n + 0;
      if -INT_BOUND <= i < INT_BOUND then Some(i) else None
  }

  /** `strings.Compare`. */
  function CompareText(a: string, b: string): int {
    if a == b then 0 else if Leaves.Less(a, b) then -1 else 1
  }

  function CompareInt(a: int, b: int): int {
    if a < b then -1 else if a > b then 1 else 0
  }

  function CompareComponent(a: string, b: string): int {
    if Atoi(a).None? || Atoi(b).None? then CompareText(a, b) else CompareInt(Atoi(a).value, Atoi(b).value)
  }

  function CompareComponents(a: seq<string>, b: seq<string>): int {
    if a == [] || b == [] then CompareInt(|a|, |b|)
    else
      var c := CompareComponent(a[0], b[0]);
      if c != 0 then c else CompareComponents(a[1..], b[1..])
  }

  function CompareOid(a: string, b: string): int {
    CompareComponents(Components(a), Components(b))
  }

  // ---------------------------------------------------------------- numeric identifiers

  predicate AllNumeric(components: seq<string>) {
    forall c <- components :: Atoi(c).Some?
  }

  predicate Numeric(oid: string) {
    AllNumeric(Components(oid))
  }

  function Numbers(components: seq<string>): (n: seq<int>)
    requires AllNumeric(components)
    ensures |n| == |components| && forall i :: 0 <= i < |n| ==> Some(n[i]) == Atoi(components[i])
  {
    if components == [] then [] else [Atoi(components[0]).value] + Numbers(components[1..])
  }

  /** The identifier as a sequence of numbers. */
  function Key(oid: string): seq<int>
    requires Numeric(oid)
  {
    Numbers(Components(oid))
  }

  /** The lexicographic order of number sequences, given by the first difference. */
  ghost predicate Precedes(a: seq<int>, b: seq<int>) {
    a < b || exists i :: 0 <= i < |a| && i < |b| && a[..i] == b[..i] && a[i] < b[i]
  }

  lemma {:induction false} CompareIsLexicographic(a: seq<string>, b: seq<string>)
    requires AllNumeric(a) && AllNumeric(b)
    ensures CompareComponents(a, b) in {-1, 0, 1}
    ensures CompareComponents(a, b) == 0 <==> Numbers(a) == Numbers(b)
    ensures CompareComponents(a, b) == -1 <==> Precedes(Numbers(a), Numbers(b))
    ensures CompareComponents(a, b) == 1 <==> Precedes(Numbers(b), Numbers(a))
    decreases |a|
  {
    var x, y := Numbers(a), Numbers(b);
    if a != [] && b != [] {
      if x[0] == y[0] {
        CompareIsLexicographic(a[1..], b[1..]);
        PrecedesTail(x, y);
        PrecedesTail(y, x);
        assert x == [x[0]] + x[1..] && y == [y[0]] + y[1..];
      } else if x[0] < y[0] {
        assert x[..0] == y[..0];
        PrecedesHead(y, x);
      } else {
        assert x[..0] == y[..0];
        PrecedesHead(x, y);
      }
    } else {
      assert x == [] || y == [];
    }
  }

  lemma PrecedesTail(x: seq<int>, y: seq<int>)
    requires x != [] && y != [] && x[0] == y[0]
    ensures Precedes(x, y) <==> Precedes(x[1..], y[1..])
  {
    if Precedes(x, y) && !(x < y) {
      var i :| 0 <= i < |x| && i < |y| && x[..i] == y[..i] && x[i] < y[i];
      assert x[1..][..i - 1] == x[..i][1..] && y[1..][..i - 1] == y[..i][1..];
    }
    if Precedes(x[1..], y[1..]) {
      assert x == [x[0]] + x[1..] && y == [y[0]] + y[1..];
      if !(x[1..] < y[1..]) {
        var i :| 0 <= i < |x[1..]| && i < |y[1..]| && x[1..][..i] == y[1..][..i] && x[1..][i] < y[1..][i];
        assert x[..i + 1] == [x[0]] + x[1..][..i] && y[..i + 1] == [y[0]] + y[1..][..i];
      }
    }
  }

  lemma PrecedesHead(x: seq<int>, y: seq<int>)
    requires x != [] && y != [] && x[0] > y[0]
    ensures !Precedes(x, y)
  {
    forall i | 0 <= i < |x| && i < |y| ensures !(x[..i] == y[..i] && x[i] < y[i]) {
      if i > 0 { assert x[..i][0] == x[0] && y[..i][0] == y[0]; }
    }
  }

  /** The order of keys is total, irreflexive and asymmetric. */
  lemma {:induction false} PrecedesTotal(a: seq<int>, b: seq<int>)
    ensures Precedes(a, b) || a == b || Precedes(b, a)
    ensures !(Precedes(a, b) && Precedes(b, a)) && !Precedes(a, a)
    decreases |a|
  {
    if a != [] {
      PrecedesTail(a, a);
      PrecedesTotal(a[1..], a[1..]);
      if b != [] {
        if a[0] == b[0] {
          PrecedesTail(a, b);
          PrecedesTail(b, a);
          PrecedesTotal(a[1..], b[1..]);
          assert a == [a[0]] + a[1..] && b == [b[0]] + b[1..];
        } else {
          assert a[..0] == b[..0];
          if a[0] < b[0] { PrecedesHead(b, a); } else { PrecedesHead(a, b); }
        }
      }
    }
  }

  lemma {:induction false} PrecedesTransitive(a: seq<int>, b: seq<int>, c: seq<int>)
    requires Precedes(a, b) && Precedes(b, c)
    ensures Precedes(a, c)
    decreases |a|
  {
    if a == [] {
      assert a < c;
    } else {
      if a[0] > b[0] { PrecedesHead(a, b); }
      if b[0] > c[0] { PrecedesHead(b, c); }
      if a[0] == b[0] == c[0] {
        PrecedesTail(a, b);
        PrecedesTail(b, c);
        PrecedesTransitive(a[1..], b[1..], c[1..]);
        PrecedesTail(a, c);
      } else {
        assert a[..0] == c[..0];
      }
    }
  }

  // ------------------------------------------------------------- what the order is

  /** On numeric identifiers the comparison is the lexicographic order of the numbers. */
  lemma {:induction false} CompareOidIsOrder(a: string, b: string)
    requires Numeric(a) && Numeric(b)
    ensures CompareOid(a, b) == 0 <==> Key(a) == Key(b)
    ensures CompareOid(a, b) == -1 <==> Precedes(Key(a), Key(b))
    ensures CompareOid(a, b) == 1 <==> Precedes(Key(b), Key(a))
    ensures CompareOid(a, b) in {-1, 0, 1} && CompareOid(b, a) == -CompareOid(a, b)
  {
    CompareIsLexicographic(Components(a), Components(b));
    CompareIsLexicographic(Components(b), Components(a));
    PrecedesTotal(Key(a), Key(b));
  }

  lemma {:induction false} CompareOidTransitive(a: string, b: string, c: string)
    requires Numeric(a) && Numeric(b) && Numeric(c)
    requires CompareOid(a, b) <= 0 && CompareOid(b, c) <= 0
    ensures CompareOid(a, c) <= 0
    ensures CompareOid(a, c) == 0 <==> CompareOid(a, b) == 0 && CompareOid(b, c) == 0
  {
    CompareOidIsOrder(a, b);
    CompareOidIsOrder(b, c);
    CompareOidIsOrder(a, c);
    if Precedes(Key(a), Key(b)) && Precedes(Key(b), Key(c)) {
      PrecedesTransitive(Key(a), Key(b), Key(c));
    }
  }

  /** A number written without sign and without leading zeros. */
  predicate Numeral(s: string) {
    s != "" && (forall c <- s :: IsDigit(c)) && (s[0] == '0' ==> |s| == 1) && Atoi(s).Some?
  }

  predicate Canonical(oid: string) {
    !HasPrefix(oid, ".") && forall c <- Components(oid) :: Numeral(c)
  }

  lemma {:induction false} DigitsInjective(a: string, b: string)
    requires a != "" && b != "" && (forall c <- a :: IsDigit(c)) && (forall c <- b :: IsDigit(c))
    requires a[0] == '0' ==> |a| == 1
    requires b[0] == '0' ==> |b| == 1
    requires Digits(a) == Digits(b)
    ensures a == b
    decreases |a|
  {
    hide Digits;
    var i, j := |a| - 1, |b| - 1;
    LastDigit(a);
    LastDigit(b);
    if i > 0 { DigitsPositive(a[..i]); }
    if j > 0 { DigitsPositive(b[..j]); }
    var x, y := if i > 0 then Digits(a[..i]).value else 0, if j > 0 then Digits(b[..j]).value else 0;
    SameLastDigit(x, y, a[i], b[j]);
    hide IsDigit;
    if i > 0 && j > 0 { DigitsInjective(a[..i], b[..j]); }
    SameText(a, b);
  }

  lemma SameText(a: string, b: string)
    requires a != "" && b != "" && a[..|a| - 1] == b[..|b| - 1] && a[|a| - 1] == b[|b| - 1]
    ensures a == b
  {
    assert a == a[..|a| - 1] + [a[|a| - 1]] && b == b[..|b| - 1] + [b[|b| - 1]];
  }

  lemma SameLastDigit(x: nat, y: nat, c: char, d: char)
    requires IsDigit(c) && IsDigit(d) && 10 * x + (c - '0') as int == 10 * y + (d - '0') as int
    ensures x == y && c == d
  {
  }

  /** The last digit and the number before it. */
  lemma LastDigit(a: string)
    requires a != "" && forall c <- a :: IsDigit(c)
    ensures var i := |a| - 1;
            && Digits(a).Some? && (i > 0 ==> Digits(a[..i]).Some?)
            && 0 <= (a[i] - '0') as int < 10
            && Digits(a).value == (if i > 0 then 10 * Digits(a[..i]).value else 0) + (a[i] - '0') as int
  {
    assert a[|a| - 1] in a;
  }

  lemma {:induction false} DigitsPositive(a: string)
    requires a != "" && (forall c <- a :: IsDigit(c)) && a[0] != '0'
    ensures Digits(a).Some? && Digits(a).value > 0
    decreases |a|
  {
    var i := |a| - 1;
    if i > 0 { DigitsPositive(a[..i]); }
  }

  lemma NumeralInjective(a: string, b: string)
    requires Numeral(a) && Numeral(b) && Atoi(a) == Atoi(b)
    ensures a == b
  {
    assert IsDigit(a[0]) && IsDigit(b[0]);
    DigitsInjective(a, b);
  }

  lemma {:induction false} NumeralsInjective(x: seq<string>, y: seq<string>)
    requires AllNumeric(x) && AllNumeric(y) && Numbers(x) == Numbers(y)
    requires (forall c <- x :: Numeral(c)) && (forall c <- y :: Numeral(c))
    ensures x == y
  {
    assert |x| == |Numbers(x)| == |y|;
    forall i | 0 <= i < |x| ensures x[i] == y[i] {
      assert Atoi(x[i]) == Some(Numbers(x)[i]) && Atoi(y[i]) == Some(Numbers(y)[i]);
      NumeralInjective(x[i], y[i]);
    }
  }

  /** Canonical identifiers compare equal only if they are the same text. */
  lemma {:induction false} CanonicalEqual(a: string, b: string)
    requires Canonical(a) && Canonical(b)
    ensures Numeric(a) && Numeric(b)
    ensures CompareOid(a, b) == 0 <==> a == b
  {
    CompareOidIsOrder(a, b);
    if Key(a) == Key(b) {
      NumeralsInjective(Components(a), Components(b));
      JoinSplit(a, '.');
      JoinSplit(b, '.');
    }
  }

  // ------------------------------------------------------- components that are no numbers

  lemma CompareComponentTotal(a: string, b: string)
    ensures CompareComponent(a, b) in {-1, 0, 1} && CompareComponent(b, a) == -CompareComponent(a, b)
    ensures CompareComponent(a, a) == 0
  {
    Leaves.LessTotal(a, b);
  }

  /** The comparison is transitive on these components. */
  ghost predicate Transitive(cs: set<string>) {
    forall a, b, c :: a in cs && b in cs && c in cs && CompareComponent(a, b) <= 0 && CompareComponent(b, c) <= 0 ==>
      CompareComponent(a, c) <= 0
  }

  /** No component that is not a number stands, as text, between two numbers that are in the other
      order as numbers. */
  ghost predicate Coherent(cs: set<string>) {
    forall a, b, c :: a in cs && b in cs && c in cs ==> !Crossed(a, b, c)
  }

  predicate Crossed(a: string, b: string, c: string) {
    && Atoi(a).Some? && Atoi(b).Some? && Atoi(c).None?
    && Atoi(a).value <= Atoi(b).value && Leaves.Less(b, c) && Leaves.Less(c, a)
  }

  lemma TransitiveAt(cs: set<string>, a: string, b: string, c: string)
    requires Coherent(cs) && a in cs && b in cs && c in cs
    requires CompareComponent(a, b) <= 0 && CompareComponent(b, c) <= 0
    ensures CompareComponent(a, c) <= 0
  {
    hide Atoi, Leaves.Less;
    Leaves.LessTotal(a, b);
    Leaves.LessTotal(b, c);
    Leaves.LessTotal(a, c);
    if Leaves.Less(a, b) && Leaves.Less(b, c) { Leaves.LessTransitive(a, b, c); }
    assert !Crossed(a, b, c) && !Crossed(b, c, a) && !Crossed(c, a, b);
  }

  /** The comparison orders a set of components if and only if the set is coherent. */
  lemma OrdersIffCoherent(cs: set<string>)
    ensures Transitive(cs) <==> Coherent(cs)
  {
    hide Atoi, Leaves.Less;
    if Coherent(cs) {
      forall a, b, c | a in cs && b in cs && c in cs && CompareComponent(a, b) <= 0 && CompareComponent(b, c) <= 0
        ensures CompareComponent(a, c) <= 0
      {
        TransitiveAt(cs, a, b, c);
      }
    }
    if Transitive(cs) {
      forall a, b, c | a in cs && b in cs && c in cs ensures !Crossed(a, b, c) {
        Leaves.LessTotal(b, c);
        Leaves.LessTotal(a, c);
        assert CompareComponent(a, b) <= 0 && CompareComponent(b, c) <= 0 ==> CompareComponent(a, c) <= 0;
      }
    }
  }

  /** So identifiers whose components are coherent are ordered, numbers or not. */
  lemma {:induction false} CoherentOrders(cs: set<string>, a: seq<string>, b: seq<string>, c: seq<string>)
    requires Coherent(cs) && (forall x <- a + b + c :: x in cs)
    requires CompareComponents(a, b) <= 0 && CompareComponents(b, c) <= 0
    ensures CompareComponents(a, c) <= 0
    decreases |a|
  {
    hide CompareComponent;
    if a != [] && b != [] && c != [] {
      assert a[0] in a + b + c && b[0] in a + b + c && c[0] in a + b + c;
      ThreeHeads(cs, a[0], b[0], c[0]);
      if CompareComponent(a[0], b[0]) == 0 == CompareComponent(b[0], c[0]) {
        assert forall x <- a[1..] + b[1..] + c[1..] :: x in a + b + c;
        CoherentOrders(cs, a[1..], b[1..], c[1..]);
      }
    }
  }

  lemma ThreeHeads(cs: set<string>, x: string, y: string, z: string)
    requires Coherent(cs) && x in cs && y in cs && z in cs
    ensures CompareComponent(x, y) <= 0 && CompareComponent(y, z) <= 0 ==>
              && CompareComponent(x, z) <= 0
              && (CompareComponent(x, z) == 0 <==> CompareComponent(x, y) == 0 && CompareComponent(y, z) == 0)
  {
    hide CompareComponent, Coherent;
    CompareComponentTotal(x, y);
    CompareComponentTotal(y, z);
    CompareComponentTotal(x, z);
    if CompareComponent(x, y) <= 0 && CompareComponent(y, z) <= 0 {
      TransitiveAt(cs, x, y, z);
      if CompareComponent(x, z) == 0 {
        TransitiveAt(cs, y, z, x);
        TransitiveAt(cs, z, x, y);
      }
      if CompareComponent(x, y) == 0 && CompareComponent(y, z) == 0 { TransitiveAt(cs, z, y, x); }
    }
  }

  /** A set that is not coherent: 9, 10 and 1a go round in a circle. */
  lemma {:induction false} MixedIsNoOrder()
    ensures CompareOid("9", "10") == -1 && CompareOid("10", "1a") == -1 && CompareOid("1a", "9") == -1
  {
    SplitPiece("9", '.');
    SplitPiece("10", '.');
    SplitPiece("1a", '.');
    assert Digits("9") == Some(9) && Digits("10") == Some(10) by {
      assert "10"[..1] == "1";
      assert Digits("1") == Some(1);
    }
    assert Digits("1a").None?;
    assert Leaves.Less("0", "a") && "10"[1..] == "0" && "1a"[1..] == "a";
  }
}
