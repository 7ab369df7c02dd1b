/** Chunk sizes between this implementation, which writes and reads them in base 16
    (internal/netconf/framing.go), and a peer that keeps to the decimal sizes of section 4.2 of
    RFC 6242. */
module DecimalPeer {
  import opened Wrappers
  import opened Text
  import opened Framing
  import opened FramingLaws

  /** The size line as such a peer reads it, and what follows the line. */
  function DecimalSize(input: Bytes): Option<(nat, Bytes)> {
    var end := IndexOf(input, '\n');
    if end < 0 || Digits(input[..end]).None? then None
    else Some((Digits(input[..end]).value, input[end + 1..]))
  }

  lemma DecimalLine(digits: Bytes, rest: Bytes)
    requires '\n' !in digits
    ensures DecimalSize(digits + "\n" + rest) ==
            if Digits(digits).None? then None else Some((Digits(digits).value, rest))
  {
    var input := digits + "\n" + rest;
    var end := IndexOf(input, '\n');
    assert input[|digits|] == '\n';
    assert forall i :: 0 <= i < |digits| ==> input[i] == digits[i];
    assert end == |digits|;
    assert input[..end] == digits && input[end + 1..] == rest;
  }

  /** A text of decimal digits has the same value in both bases if and only if it is below ten. */
  lemma {:induction false} BasesAgreeIff(digits: Bytes)
    requires Digits(digits).Some?
    ensures HexValue(digits).Some? && HexValue(digits).value >= Digits(digits).value
    ensures HexValue(digits) == Digits(digits) <==> Digits(digits).value < 10
    decreases |digits|
  {
    var k := |digits| - 1;
    if k > 0 { BasesAgreeIff(digits[..k]); }
  }

  lemma {:induction false} HexTextPlain(n: nat)
    ensures '\n' !in HexText(n)
    decreases n
  {
    if n >= 16 { HexTextPlain(n / 16); }
  }

  /** The peer reads a size written here as that size if and only if it is below ten. */
  lemma {:induction false} PeerReadsSizeIff(n: nat, rest: Bytes)
    ensures DecimalSize(HexText(n) + "\n" + rest) == Some((n, rest)) <==> n < 10
  {
    HexTextPlain(n);
    DecimalLine(HexText(n), rest);
    HexRoundTrip(n);
    if Digits(HexText(n)).Some? {
      BasesAgreeIff(HexText(n));
    } else if n < 10 {
      assert IsDigit(HexText(n)[0]);
    }
  }

  /** A size the peer writes, of any length and without leading zeros, is read here as that size if
      and only if it is below ten. */
  lemma {:induction false} PeerSizeIsReadIff(lf: bool, digits: Bytes, rest: Bytes)
    requires Digits(digits).Some? && digits[0] != '0'
    ensures Head(Lead(lf) + "#" + digits + "\n" + rest) == Read(Ok(Size(Digits(digits).value)), rest) <==>
            Digits(digits).value < 10
  {
    hide Head;
    var input := Lead(lf) + "#" + digits + "\n" + rest;
    BasesAgreeIff(digits);
    AtLeastTen(digits);
    assert digits[0] in digits && IsDigit(digits[0]);
    assert input[|Lead(lf)|] == '#' && input[|Lead(lf)| + 1] == digits[0];
    if |digits| <= 8 {
      HeadReads(lf, digits, rest);
    } else if Head(input) == Read(Ok(Size(Digits(digits).value)), rest) {
      var other, spelt := HeadSound(input);
      assert false;
    }
  }

  lemma {:induction false} AtLeastTen(digits: Bytes)
    requires Digits(digits).Some? && digits[0] != '0'
    ensures Digits(digits).value > 0 && (|digits| > 1 ==> Digits(digits).value >= 10)
    decreases |digits|
  {
    var k := |digits| - 1;
    if k > 0 { AtLeastTen(digits[..k]); }
  }

  /** Sixteen octets are announced as ten, and ten octets in a line the peer cannot read. */
  lemma PeerMisreads(rest: Bytes)
    ensures DecimalSize(HexText(16) + "\n" + rest) == Some((10, rest))
    ensures DecimalSize(HexText(10) + "\n" + rest) == None
  {
    assert HexText(16) == "10" && HexText(10) == "a";
    assert "10"[..1] == "1" && Digits("1") == Some(1);
    assert Digits("10") == Some(10) && Digits("a") == None;
    hide DecimalSize, HexText, Digits;
    DecimalLine("10", rest);
    DecimalLine("a", rest);
  }
}
