/** How object identifiers are spelled (internal/router/oid.go): what a component reads as, and the
    order of identifiers written out as numbers with dots between them. */
module OidText {
  import opened Wrappers
  import opened Text
  import opened Oid

  // --------------------------------------------------------------------- one component

  function Decimal(n: nat): (s: string)
    ensures s != "" && forall c <- s :: IsDigit(c)
    decreases n
  {
    var low := ['0' + (n % 10) as char];
    if n < 10 then low else Decimal(n / 10) + low
  }

  function Zeros(k: nat): (s: string)
    ensures |s| == k && forall i :: 0 <= i < k ==> s[i] == '0'
  {
    if k == 0 then "" else Zeros(k - 1) + "0"
  }

  lemma DigitsSnoc(s: string, c: char)
    requires s != "" && Digits(s).Some? && IsDigit(c)
    ensures Digits(s + [c]) == Some(10 * Digits(s).value + (c - '0') as nat)
  {
    assert (s + [c])[..|s|] == s;
  }

  lemma {:induction false} DecimalReads(n: nat)
    ensures Digits(Decimal(n)) == Some(n)
    decreases n
  {
    if n >= 10 {
      DecimalReads(n / 10);
      DigitsSnoc(Decimal(n / 10), '0' + (n % 10) as char);
    } else {
      assert Decimal(n)[..0] == "";
    }
  }

  lemma {:induction false} ZerosRead(k: nat, s: string)
    requires s != "" && Digits(s).Some?
    ensures Digits(Zeros(k) + s) == Digits(s)
    decreases |s|
  {
    hide Digits, Zeros;
    var n := |s| - 1;
    assert s == s[..n] + [s[n]];
    DigitsUnfold(s);
    if n == 0 {
      assert Zeros(k) + s == Zeros(k) + [s[0]];
      ZerosAlone(k);
      if k > 0 { DigitsSnoc(Zeros(k), s[0]); } else { assert Zeros(0) + s == s; }
    } else {
      ZerosRead(k, s[..n]);
      assert Zeros(k) + s == (Zeros(k) + s[..n]) + [s[n]];
      DigitsSnoc(Zeros(k) + s[..n], s[n]);
      DigitsSnoc(s[..n], s[n]);
    }
  }

  lemma {:induction false} ZerosAlone(k: nat)
    ensures k > 0 ==> Digits(Zeros(k)) == Some(0)
  {
    if k > 1 {
      ZerosAlone(k - 1);
      DigitsSnoc(Zeros(k - 1), '0');
    } else if k == 1 {
      assert Zeros(1) == "0" && Zeros(1)[..0] == "";
    }
  }

  /** The digits of a number, with zeros in front. */
  ghost predicate Padded(s: string, n: nat) {
    exists k: nat :: s == Zeros(k) + Decimal(n)
  }

  /** One more digit. */
  lemma PaddedSnoc(s: string, h: nat, c: char)
    requires Padded(s, h) && IsDigit(c)
    ensures Padded(s + [c], 10 * h + (c - '0') as nat)
  {
    var k: nat :| s == Zeros(k) + Decimal(h);
    var n := 10 * h + (c - '0') as nat;
    assert n / 10 == h && n % 10 == (c - '0') as nat;
    if h > 0 {
      assert Decimal(n) == Decimal(h) + [c];
      assert s + [c] == Zeros(k) + Decimal(n);
    } else {
      assert Decimal(0) == "0" && Decimal(n) == [c];
      assert s + [c] == Zeros(k + 1) + Decimal(n);
    }
  }

  lemma DigitsUnfold(s: string)
    requires s != ""
    ensures var m := |s| - 1;
            Digits(s) ==
              if !IsDigit(s[m]) then None
              else if m == 0 then Some((s[m] - '0') as nat)
              else if Digits(s[..m]).None? then None
              else Some(10 * Digits(s[..m]).value + (s[m] - '0') as nat)
  {
  }

  /** A text of digits is a number with any number of zeros in front. */
  lemma {:induction false} DigitsIff(s: string, n: nat)
    ensures Digits(s) == Some(n) <==> Padded(s, n)
    decreases |s|
  {
    if Padded(s, n) {
      var k: nat :| s == Zeros(k) + Decimal(n);
      DecimalReads(n);
      ZerosRead(k, Decimal(n));
    }
    if Digits(s) == Some(n) { DigitsPadded(s); }
  }

  lemma PaddedOne(s: string, n: nat)
    requires |s| == 1 && IsDigit(s[0]) && n == (s[0] - '0') as nat
    ensures Padded(s, n)
  {
    assert Decimal(n) == s;
    assert s == Zeros(0) + Decimal(n);
  }

  lemma {:induction false} DigitsPadded(s: string)
    requires Digits(s).Some?
    ensures Padded(s, Digits(s).value)
    decreases |s|
  {
    hide Digits, Padded, Zeros, Decimal;
    var m := |s| - 1;
    DigitsUnfold(s);
    if m == 0 {
      PaddedOne(s, Digits(s).value);
    } else {
      DigitsPadded(s[..m]);
      PaddedSnoc(s[..m], Digits(s[..m]).value, s[m]);
      assert s[..m] + [s[m]] == s;
    }
  }

  /** The spellings of an integer: a sign, zeros and its digits. */
  ghost predicate Spells(s: string, i: int) {
    exists sign, k: nat :: s == sign + Zeros(k) + Decimal(if i < 0 then -i else i)
                      && (sign == "" || sign == "+" || sign == "-") && (i < 0 ==> sign == "-")
                         && (i > 0 ==> sign != "-")
  }

  /** A component is a number exactly when it spells one of 64 bits. */
  lemma AtoiIff(s: string, i: int)
    ensures Atoi(s) == Some(i) <==> -INT_BOUND <= i < INT_BOUND && Spells(s, i)
  {
    hide Atoi, Spells;
    if Atoi(s) == Some(i) { AtoiSpells(s, i); }
    if -INT_BOUND <= i < INT_BOUND && Spells(s, i) { SpellsReads(s, i); }
  }

  lemma AtoiSpells(s: string, i: int)
    requires Atoi(s) == Some(i)
    ensures -INT_BOUND <= i < INT_BOUND && Spells(s, i)
  {
    hide Digits, Decimal, Zeros, Padded;
    var n: nat := if i < 0 then -i else i;
    var sign := if HasPrefix(s, "-") then "-" else if HasPrefix(s, "+") then "+" else "";
    var body := s[|sign|..];
    assert s == sign + body;
    DigitsIff(body, n);
    SignSpells(sign, body, n, i);
  }

  lemma SignSpells(sign: string, body: string, n: nat, i: int)
    requires Padded(body, n) && n == (if i < 0 then -i else i) && (sign == "" || sign == "+" || sign == "-")
    requires (i < 0 ==> sign == "-") && (i > 0 ==> sign != "-")
    ensures Spells(sign + body, i)
  {
    hide Decimal, Zeros;
    var k: nat :| body == Zeros(k) + Decimal(n);
    assert sign + body == sign + Zeros(k) + Decimal(n);
  }

  lemma SpellsReads(s: string, i: int)
    requires -INT_BOUND <= i < INT_BOUND && Spells(s, i)
    ensures Atoi(s) == Some(i)
  {
    hide Digits, Decimal, Zeros, Atoi;
    var n: nat := if i < 0 then -i else i;
    var sign, k: nat :| s == sign + Zeros(k) + Decimal(n) && (sign == "" || sign == "+" || sign == "-")
                        && (i < 0 ==> sign == "-") && (i > 0 ==> sign != "-");
    DecimalReads(n);
    ZerosRead(k, Decimal(n));
    assert s == sign + (Zeros(k) + Decimal(n));
    SignReads(sign, Zeros(k) + Decimal(n));
  }

  /** A sign in front of digits. */
  lemma SignReads(sign: string, body: string)
    requires sign == "" || sign == "+" || sign == "-"
    requires Digits(body).Some?
    ensures var n: int := Digits(body).value;
            var i := if sign == "-" then -n else n;
            Atoi(sign + body) == if -INT_BOUND <= i < INT_BOUND then Some(i) else None
  {
    hide Digits;
    var s := sign + body;
    assert body[0] in body;
    if sign == "" { assert s == body; } else { assert s[0] == sign[0] && s[1..] == body; }
  }

  // ------------------------------------------------------------------- whole identifiers

  /** Numbers a component can spell without a sign. */
  predicate Whole(ns: seq<int>) {
    forall i :: 0 <= i < |ns| ==> 0 <= ns[i] < INT_BOUND
  }

  function Spelled(ns: seq<int>): (parts: seq<string>)
    requires Whole(ns)
    ensures |parts| == |ns| && forall i :: 0 <= i < |ns| ==> parts[i] == Decimal(ns[i])
  {
    if ns == [] then [] else [Decimal(ns[0])] + Spelled(ns[1..])
  }

  /** Numbers with dots between them, and one in front if asked for. */
  function Dotted(ns: seq<int>, dot: bool): string
    requires Whole(ns)
  {
    (if dot then "." else "") + Join(Spelled(ns), '.')
  }

  /** Such an identifier is the sequence of its numbers. */
  lemma DottedKey(ns: seq<int>, dot: bool)
    requires ns != [] && Whole(ns)
    ensures Numeric(Dotted(ns, dot)) && Key(Dotted(ns, dot)) == ns
  {
    var parts := Spelled(ns);
    forall i | 0 <= i < |ns| ensures Atoi(parts[i]) == Some(ns[i]) && '.' !in parts[i] { DecimalAtoi(ns[i]); }
    forall part | part in parts ensures '.' !in part && Atoi(part).Some? {
      var i :| 0 <= i < |parts| && parts[i] == part;
    }
    SplitJoin(parts, '.');
    DottedStart(ns);
    var text := Join(parts, '.');
    assert dot ==> Dotted(ns, dot)[1..] == text;
    assert !dot ==> Dotted(ns, dot) == text;
    assert Components(Dotted(ns, dot)) == parts;
  }

  lemma DecimalAtoi(n: int)
    requires 0 <= n < INT_BOUND
    ensures Atoi(Decimal(n)) == Some(n) && '.' !in Decimal(n)
  {
    assert Decimal(n) == "" + Zeros(0) + Decimal(n);
    SpellsReads(Decimal(n), n);
  }

  lemma DottedStart(ns: seq<int>)
    requires ns != [] && Whole(ns)
    ensures Join(Spelled(ns), '.') != "" && Join(Spelled(ns), '.')[0] != '.'
  {
    var parts := Spelled(ns);
    assert parts[0][0] in parts[0];
    assert Join(parts, '.')[0] == parts[0][0];
  }

  /** So identifiers written out compare as their numbers do, whether they begin with a dot or not. */
  lemma DottedOrder(x: seq<int>, y: seq<int>, dotX: bool, dotY: bool)
    requires x != [] && y != [] && Whole(x) && Whole(y)
    ensures var order := CompareOid(Dotted(x, dotX), Dotted(y, dotY));
            && order == (if x == y then 0 else if Precedes(x, y) then -1 else 1)
  {
    DottedKey(x, dotX);
    DottedKey(y, dotY);
    CompareOidIsOrder(Dotted(x, dotX), Dotted(y, dotY));
    PrecedesTotal(x, y);
  }
}
