/** How a chunked stream fails (internal/netconf/framing.go): every input is whole chunks followed
    by what ends the reading, and that decides between end of stream, malformed and too big. */
module ChunkErrors {
  import opened Wrappers
  import opened Text
  import opened Framing
  import opened FramingLaws

  // --------------------------------------------------------------------- hexadecimal

  const HEX_DIGITS: string := "0123456789abcdefABCDEF"

  /** The digits of base 16, in either case. */
  lemma HexDigitIff(c: char)
    ensures HexDigit(c).Some? <==> c in HEX_DIGITS
    ensures HexDigit(c).Some? ==>
              HEX_DIGITS[HexDigit(c).value] == c || (HexDigit(c).value >= 10 && HEX_DIGITS[HexDigit(c).value + 6] == c)
  {
    if HexDigit(c).Some? {
      var i := HexDigit(c).value + if 'A' <= c <= 'F' then 6 else 0;
      HexDigitAt(i);
      assert HEX_DIGITS[i] == c;
    }
    if c in HEX_DIGITS {
      var i :| 0 <= i < |HEX_DIGITS| && HEX_DIGITS[i] == c;
      HexDigitAt(i);
    }
  }

  lemma HexDigitAt(i: nat)
    requires i < 22
    ensures |HEX_DIGITS| == 22
    ensures HEX_DIGITS[i] ==
            if i < 10 then '0' + i as char else if i < 16 then 'a' + (i - 10) as char else 'A' + (i - 16) as char
  {
  }

  /** A size is a non-empty text of such digits, and reads by position. */
  lemma {:induction false} HexValueIff(digits: Bytes)
    ensures HexValue(digits).Some? <==> digits != "" && forall c <- digits :: c in HEX_DIGITS
    decreases |digits|
  {
    if digits != "" {
      var k := |digits| - 1;
      HexDigitIff(digits[k]);
      assert digits == digits[..k] + [digits[k]];
      if k > 0 { HexValueIff(digits[..k]); } else { assert digits[..k] == ""; }
    }
  }

  lemma {:induction false} HexByPosition(a: Bytes, b: Bytes)
    requires HexValue(a).Some? && HexValue(b).Some?
    ensures HexValue(a + b) == Some(HexValue(a).value * Power16(|b|) + HexValue(b).value)
    decreases |b|
  {
    hide HexValue, HexDigit;
    var k := |b| - 1;
    HexNone();
    assert b == b[..k] + [b[k]] && a + b == (a + b[..k]) + [b[k]];
    HexSnoc(b[..k], b[k]);
    if k == 0 {
      assert b[..0] == "" && a + b[..0] == a && Power16(1) == 16 * Power16(0);
      HexSnoc(a, b[k]);
    } else {
      HexByPosition(a, b[..k]);
      HexSnoc(a + b[..k], b[k]);
      Shift(HexValue(a).value, Power16(k), HexValue(b[..k]).value, HexDigit(b[k]).value);
    }
  }

  lemma HexNone()
    ensures HexValue("") == None
  {
  }

  lemma HexSnoc(digits: Bytes, c: char)
    ensures HexValue(digits + [c]) ==
            if HexDigit(c).None? then None
            else if digits == "" then HexDigit(c)
            else if HexValue(digits).None? then None
            else Some(16 * HexValue(digits).value + HexDigit(c).value)
  {
    assert (digits + [c])[..|digits|] == digits;
  }

  lemma Shift(x: nat, p: nat, y: nat, z: nat)
    ensures 16 * (x * p + y) + z == x * (16 * p) + (16 * y + z)
  {
  }

  // ------------------------------------------------------------------------ one header

  /** The size line is what stands before the next line feed; it has at most eight characters. */
  function SizeLine(read: Bytes, input: Bytes): Read<Header>
    requires 1 <= |read| <= 8
  {
    var j, room := IndexOf(input, '\n'), 8 - |read|;
    if 0 <= j <= room then
      Read(match HexValue(read + input[..j]) { case None => Err(Malformed) case Some(n) => Ok(Size(n)) },
        input[j + 1..])
    else if |input| <= room then Read(Err(Eof), "")
    else Read(Err(Malformed), input[room + 1..])
  }

  lemma {:induction false} SizeIs(read: Bytes, input: Bytes)
    requires 1 <= |read| <= 8
    ensures SizeFrom(read, input) == SizeLine(read, input)
    decreases |input|
  {
    hide HexValue;
    if input == "" || input[0] == '\n' || |read| == 8 {
      assert read + [] == read;
    } else {
      SizeIs(read + [input[0]], input[1..]);
      hide SizeFrom;
      SizeLineStep(read, input);
    }
  }

  lemma SizeLineStep(read: Bytes, input: Bytes)
    requires 1 <= |read| < 8 && input != "" && input[0] != '\n'
    ensures SizeLine(read, input) == SizeLine(read + [input[0]], input[1..])
  {
    hide HexValue;
    var j := IndexOf(input[1..], '\n');
    assert IndexOf(input, '\n') == if j < 0 then -1 else j + 1;
    hide IndexOf;
    if j >= 0 {
      assert read + [input[0]] + input[1..][..j] == read + input[..j + 1];
      assert input[1..][j + 1..] == input[j + 2..];
    }
    if |input| > 8 - |read| { assert input[1..][8 - |read|..] == input[9 - |read|..]; }
  }

  /** A header behind its line feed and number sign. */
  function HeaderLine(line: Bytes): Read<Header> {
    if line == "" then Read(Err(Eof), "")
    else if line[0] == '#' then
      if |line| == 1 then Read(Err(Eof), "")
      else Read(if line[1] == '\n' then Ok(End) else Err(Malformed), line[2..])
    else
      var j := IndexOf(line[1..], '\n');
      if 0 <= j <= 7 then
        Read(match HexValue(line[..j + 1]) { case None => Err(Malformed) case Some(n) => Ok(Size(n)) }, line[j + 2..])
      else if |line| <= 8 then Read(Err(Eof), "")
      else Read(Err(Malformed), line[9..])
  }

  lemma HeadIs(lf: bool, line: Bytes)
    ensures Head(Lead(lf) + "#" + line) == HeaderLine(line)
  {
    hide ChunkStart, ChunkSize, HeaderLine, Lead;
    StartReads(lf, line);
    ChunkSizeIs(line);
  }

  lemma ChunkSizeIs(line: Bytes)
    ensures ChunkSize(line) == HeaderLine(line)
  {
    hide HexValue, SizeFrom;
    if line != "" && line[0] != '#' {
      SizeIs([line[0]], line[1..]);
      var j := IndexOf(line[1..], '\n');
      if j >= 0 {
        assert [line[0]] + line[1..][..j] == line[..j + 1];
        assert line[1..][j + 1..] == line[j + 2..];
      }
      if |line| > 8 { assert line[1..][8..] == line[9..]; }
    }
  }

  /** A stream that does not begin so: nothing or a line feed alone is the end of it, and any other
      character is malformed. */
  lemma HeadRefuses(input: Bytes)
    requires input != "" ==> input[0] != '#' && (|input| > 1 && input[0] == '\n' ==> input[1] != '#')
    ensures Head(input).result == Err(if input == "" || input == "\n" then Eof else Malformed)
    ensures |input| - 2 <= |Head(input).rest| < |input| || input == ""
  {
    if |input| == 1 && input[0] == '\n' { assert input == "\n"; }
  }

  // ------------------------------------------------------------------------ one stream

  /** What ends the reading after whole chunks of `m`: the end marker, a header that is none, or one
      that announces too much or more than there is. */
  ghost predicate EndsReading(m: Bytes, tail: Bytes, r: Read<Bytes>) {
    var head := Head(tail);
    match head.result
    case Err(e) => r == Read(Err(e), head.rest)
    case Ok(End) => r == Read(Ok(m), head.rest)
    case Ok(Size(n)) =>
      if n > MAX_MESSAGE - |m| then r == Read(Err(TooBig), head.rest)
      else |head.rest| < n && r == Read(Err(Eof), "")
  }

  /** Every input is good chunks followed by what ends the reading. */
  lemma {:induction false} ChunkedOutcome(message: Bytes, input: Bytes) returns (chunks: seq<Chunk>, tail: Bytes)
    requires |message| <= MAX_MESSAGE
    ensures (forall c <- chunks :: GoodChunk(c)) && input == SpellAll(chunks) + tail
    ensures |message + DataOf(chunks)| <= MAX_MESSAGE
    ensures EndsReading(message + DataOf(chunks), tail, ChunkedFrom(message, input))
    decreases |input|
  {
    var head := Head(input);
    if head.result.Ok? && head.result.value.Size? && head.result.value.size <= MAX_MESSAGE - |message|
       && head.result.value.size <= |head.rest| {
      var n := head.result.value.size;
      var lf, digits := HeadSound(input);
      var c, left := Chunk(lf, digits, head.rest[..n]), head.rest[n..];
      ChunkSpelt(input, c, head.rest, left);
      var more, last := ChunkedOutcome(message + c.data, left);
      chunks, tail := [c] + more, last;
      ConsChunk(c, more, message);
      SpellAppend(c, more, tail);
    } else {
      chunks, tail := [], input;
      assert SpellAll(chunks) + tail == input && message + DataOf(chunks) == message;
    }
  }

  /** A message cut short anywhere is told as the end of the stream, never as malformed or too big. */
  lemma {:induction false} CutIsEof(message: Bytes, chunks: seq<Chunk>, lf: bool, k: nat)
    requires (forall c <- chunks :: GoodChunk(c)) && |message| + |DataOf(chunks)| <= MAX_MESSAGE
    requires k < |SpellAll(chunks) + (Lead(lf) + "##\n")|
    ensures ChunkedFrom(message, (SpellAll(chunks) + (Lead(lf) + "##\n"))[..k]).result == Err(Eof)
    decreases |chunks|
  {
    var whole := SpellAll(chunks) + (Lead(lf) + "##\n");
    if chunks == [] {
      assert whole == Lead(lf) + "##\n";
      CutEnd(lf, k);
    } else {
      var c, more := chunks[0], chunks[1..];
      assert chunks == [c] + more && c in chunks && forall x <- more :: x in chunks;
      ConsChunk(c, more, message);
      SpellAppend(c, more, Lead(lf) + "##\n");
      var rest := SpellAll(more) + (Lead(lf) + "##\n");
      if k < |Spell(c)| {
        assert whole[..k] == Spell(c)[..k];
        CutChunk(message, c, k);
      } else {
        assert whole[..k] == Spell(c) + rest[..k - |Spell(c)|];
        ChunkStep(message, c, rest[..k - |Spell(c)|]);
        CutIsEof(message + c.data, more, lf, k - |Spell(c)|);
      }
    }
  }

  lemma CutEnd(lf: bool, k: nat)
    requires k < |Lead(lf) + "##\n"|
    ensures Head((Lead(lf) + "##\n")[..k]).result == Err(Eof)
  {
    var n := |Lead(lf)|;
    var cut := (Lead(lf) + "##\n")[..k];
    if k <= n {
      assert cut == "" || cut == "\n";
      HeadRefuses(cut);
    } else {
      assert cut == Lead(lf) + "#" + "##\n"[1..k - n];
      HeadIs(lf, "##\n"[1..k - n]);
    }
  }

  lemma CutChunk(message: Bytes, c: Chunk, k: nat)
    requires GoodChunk(c) && |message| + |c.data| <= MAX_MESSAGE && k < |Spell(c)|
    ensures ChunkedFrom(message, Spell(c)[..k]).result == Err(Eof)
  {
    hide Head, HexValue, ChunkedFrom;
    var n := |Lead(c.lf)|;
    if k <= n {
      assert Spell(c)[..k] == "" || Spell(c)[..k] == "\n";
      HeadRefuses(Spell(c)[..k]);
      HeadErrs(message, Spell(c)[..k]);
    } else if k <= n + 1 + |c.digits| {
      assert Spell(c)[..k] == Lead(c.lf) + "#" + c.digits[..k - n - 1];
      CutLine(c.lf, c.digits, k - n - 1);
      HeadErrs(message, Lead(c.lf) + "#" + c.digits[..k - n - 1]);
    } else {
      var data := c.data[..k - (n + 2 + |c.digits|)];
      assert Spell(c)[..k] == Lead(c.lf) + "#" + c.digits + "\n" + data;
      CutData(message, c, data);
    }
  }

  lemma HeadErrs(message: Bytes, input: Bytes)
    requires Head(input).result == Err(Eof)
    ensures ChunkedFrom(message, input).result == Err(Eof)
  {
    hide Head;
  }

  lemma CutData(message: Bytes, c: Chunk, data: Bytes)
    requires GoodChunk(c) && |message| + |c.data| <= MAX_MESSAGE && |data| < |c.data|
    ensures ChunkedFrom(message, Lead(c.lf) + "#" + c.digits + "\n" + data).result == Err(Eof)
  {
    hide Head, HexValue, Lead;
    HeadReads(c.lf, c.digits, data);
  }

  lemma CutLine(lf: bool, digits: Bytes, k: nat)
    requires 1 <= |digits| <= 8 && HexValue(digits).Some? && k <= |digits|
    ensures Head(Lead(lf) + "#" + digits[..k]).result == Err(Eof)
  {
    var line := digits[..k];
    HeadIs(lf, line);
    hide Head;
    HexDigits(digits);
    forall x | x in line ensures x != '\n' && x != '#' { assert x in digits; }
    if line != "" {
      assert line[0] in line;
      forall x | x in line[1..] ensures x != '\n' { assert x in line; }
    }
  }
}
