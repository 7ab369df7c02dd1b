/** What the two framings guarantee: what a reader accepts, and when it gives back exactly the
    messages that were written. */
module FramingLaws {
  import opened Wrappers
  import opened Text
  import opened Framing

  // ---------------------------------------------------------- end-of-message framing

  /** The delimiter ends at position `k`. */
  predicate EndsAt(s: Bytes, k: nat) {
    |END_OF_MESSAGE| <= k <= |s| && s[k - |END_OF_MESSAGE|..k] == END_OF_MESSAGE
  }

  ghost predicate NoneBefore(s: Bytes, k: nat) {
    forall j :: 0 <= j < k ==> !EndsAt(s, j)
  }

  /** The outcome of reading, by where the first delimiter ends. */
  ghost predicate EomOutcome(s: Bytes, r: Read<Bytes>) {
    match r.result
    case Ok(m) =>
      var k := |m| + |END_OF_MESSAGE|;
      s == m + END_OF_MESSAGE + r.rest && k <= MAX_MESSAGE && NoneBefore(s, k)
    case Err(TooBig) => |s| > MAX_MESSAGE && r.rest == s[MAX_MESSAGE + 1..] && NoneBefore(s, MAX_MESSAGE + 1)
    case Err(Eof) => |s| <= MAX_MESSAGE && r.rest == "" && NoneBefore(s, |s| + 1)
    case Err(Malformed) => false
  }

  lemma {:induction false} EomReads(message: Bytes, input: Bytes)
    requires |message| <= MAX_MESSAGE && NoneBefore(message + input, |message| + 1)
    ensures EomOutcome(message + input, EomFrom(message, input))
    decreases |input|
  {
    var s := message + input;
    if input == "" {
      assert s == message;
    } else {
      var next, rest := message + [input[0]], input[1..];
      assert next + rest == s;
      if |next| > MAX_MESSAGE {
        assert s[MAX_MESSAGE + 1..] == rest;
      } else if HasSuffix(next, END_OF_MESSAGE) {
        var m := next[..|next| - |END_OF_MESSAGE|];
        assert next == m + END_OF_MESSAGE;
      } else {
        EndIsSuffix(next, rest);
        EomReads(next, rest);
      }
    }
  }

  lemma EndIsSuffix(a: Bytes, b: Bytes)
    ensures EndsAt(a + b, |a|) <==> HasSuffix(a, END_OF_MESSAGE)
  {
    if |END_OF_MESSAGE| <= |a| {
      assert a[|a| - |END_OF_MESSAGE|..] == (a + b)[|a| - |END_OF_MESSAGE|..|a|];
    }
  }

  /** The reader returns `m` exactly when the first delimiter on the stream follows `m` and both
      fit the limit. */
  lemma {:induction false} EomAccepts(input: Bytes, m: Bytes, rest: Bytes)
    ensures EomFrom("", input) == Read(Ok(m), rest) <==>
            && input == m + "]]>]]>" + rest && |m| + 6 <= 16 * 1024 * 1024
            && NoneBefore(input, |m| + 6)
  {
    var k := |m| + |END_OF_MESSAGE|;
    assert "" + input == input;
    EomReads("", input);
    if input == m + END_OF_MESSAGE + rest && k <= MAX_MESSAGE && NoneBefore(input, k) {
      EndsThere(m, rest);
      var r := EomFrom("", input);
      assert r.result.Ok?;
      var other := |r.result.value| + |END_OF_MESSAGE|;
      EndsThere(r.result.value, r.rest);
      assert other == k;
      assert r.result.value == input[..|m|] == m;
      assert r.rest == input[k..] == rest;
    }
  }

  lemma EndsThere(m: Bytes, rest: Bytes)
    ensures EndsAt(m + END_OF_MESSAGE + rest, |m| + |END_OF_MESSAGE|)
  {
    var s, k := m + END_OF_MESSAGE + rest, |m| + |END_OF_MESSAGE|;
    assert s[k - |END_OF_MESSAGE|..k] == END_OF_MESSAGE;
  }

  /** A message that end-of-message framing can carry: no delimiter inside, nor the first half
      of one at its end. */
  ghost predicate Delimitable(m: Bytes) {
    NoneBefore(m, |m| + 1) && !HasSuffix(m, "]]>")
  }

  /** The delimiter overlaps itself in its first half, so a message ending in that half is cut
      short too. */
  lemma {:induction false} FirstDelimiter(m: Bytes, rest: Bytes)
    ensures NoneBefore(m + END_OF_MESSAGE + rest, |m| + |END_OF_MESSAGE|) <==> Delimitable(m)
  {
    var s, n := m + END_OF_MESSAGE + rest, |END_OF_MESSAGE|;
    forall j | 0 <= j <= |m| ensures EndsAt(s, j) <==> EndsAt(m, j) {
      if n <= j { assert s[j - n..j] == m[j - n..j]; }
    }
    if HasSuffix(m, "]]>") {
      OverlapEnds(m, rest);
    } else {
      forall j | |m| < j < |m| + n ensures !EndsAt(s, j) {
        if EndsAt(s, j) { OverlapIsHalf(m, rest, j); }
      }
    }
  }

  lemma OverlapEnds(m: Bytes, rest: Bytes)
    requires HasSuffix(m, "]]>")
    ensures EndsAt(m + END_OF_MESSAGE + rest, |m| + 3)
  {
    var s := m + END_OF_MESSAGE + rest;
    assert s[|m| - 3..|m|] == m[|m| - 3..] && s[|m|..|m| + 3] == END_OF_MESSAGE[..3];
    assert s[|m| - 3..|m| + 3] == s[|m| - 3..|m|] + s[|m|..|m| + 3];
  }

  lemma OverlapIsHalf(m: Bytes, rest: Bytes, j: nat)
    requires |m| < j < |m| + |END_OF_MESSAGE| && EndsAt(m + END_OF_MESSAGE + rest, j)
    ensures HasSuffix(m, "]]>")
  {
    var s := m + END_OF_MESSAGE + rest;
    var window := s[j - 6..j];
    assert window == END_OF_MESSAGE;
    assert s[j - 1] == window[5] == '>' && s[j - 2] == window[4] && s[j - 3] == window[3];
    assert s[j - 1] == END_OF_MESSAGE[j - 1 - |m|];
    assert j == |m| + 3;
    assert m[|m| - 3] == s[|m| - 3] == window[0] && m[|m| - 2] == s[|m| - 2] == window[1]
           && m[|m| - 1] == s[|m| - 1] == window[2];
    assert m[|m| - 3..] == "]]>";
  }

  // ---------------------------------------------------------------------- hexadecimal

  function Power16(n: nat): nat { if n == 0 then 1 else 16 * Power16(n - 1) }

  lemma {:induction false} HexRoundTrip(n: nat)
    ensures HexValue(HexText(n)) == Some(n)
    decreases n
  {
    var digits := HexText(n);
    var k := |digits| - 1;
    assert HexDigit(digits[k]) == Some(n % 16);
    if n < 16 {
      assert k == 0;
    } else {
      HexRoundTrip(n / 16);
      assert digits[..k] == HexText(n / 16);
    }
  }

  lemma {:induction false} HexLength(n: nat, k: nat)
    requires k >= 1
    ensures |HexText(n)| <= k <==> n < Power16(k)
    decreases k
  {
    if n < 16 {
      assert |HexText(n)| == 1;
      PowerGrows(k);
    } else {
      assert |HexText(n)| == |HexText(n / 16)| + 1;
      if k > 1 {
        HexLength(n / 16, k - 1);
        assert n < 16 * Power16(k - 1) <==> n / 16 < Power16(k - 1);
      } else {
        assert Power16(1) == 16;
      }
    }
  }

  lemma {:induction false} PowerGrows(k: nat)
    requires k >= 1
    ensures Power16(k) >= 16
  {
    if k > 1 { PowerGrows(k - 1); }
  }

  // ------------------------------------------------------------------ chunked framing

  /** One chunk as a peer may spell it: an optional line feed, one to eight hexadecimal digits
      that give the length, and the data. */
  datatype Chunk = Chunk(lf: bool, digits: Bytes, data: Bytes)

  predicate GoodChunk(c: Chunk) {
    1 <= |c.digits| <= 8 && HexValue(c.digits) == Some(|c.data|)
  }

  function Lead(lf: bool): Bytes { if lf then "\n" else "" }

  function Spell(c: Chunk): Bytes { Lead(c.lf) + "#" + c.digits + "\n" + c.data }

  function SpellAll(chunks: seq<Chunk>): Bytes {
    if chunks == [] then "" else Spell(chunks[0]) + SpellAll(chunks[1..])
  }

  function DataOf(chunks: seq<Chunk>): Bytes {
    if chunks == [] then "" else chunks[0].data + DataOf(chunks[1..])
  }

  lemma {:induction false} HexDigits(digits: Bytes)
    requires HexValue(digits).Some?
    ensures forall c <- digits :: HexDigit(c).Some?
  {
    var k := |digits| - 1;
    if k > 0 { HexDigits(digits[..k]); }
    assert digits == digits[..k] + [digits[k]];
  }

  lemma {:induction false} SizeReads(read: Bytes, more: Bytes, rest: Bytes)
    requires '\n' !in more && |read| + |more| <= 8
    ensures SizeFrom(read, more + "\n" + rest) ==
              Read(match HexValue(read + more) { case None => Err(Malformed) case Some(n) => Ok(Size(n)) }, rest)
    decreases |more|
  {
    var input := more + "\n" + rest;
    if more == "" {
      assert read + more == read && input[1..] == rest;
    } else {
      assert input[1..] == more[1..] + "\n" + rest;
      assert read + [more[0]] + more[1..] == read + more;
      SizeReads(read + [more[0]], more[1..], rest);
    }
  }

  lemma {:induction false} HeadReads(lf: bool, digits: Bytes, rest: Bytes)
    requires 1 <= |digits| <= 8 && HexValue(digits).Some?
    ensures Head(Lead(lf) + "#" + digits + "\n" + rest) == Read(Ok(Size(HexValue(digits).value)), rest)
  {
    var input := Lead(lf) + "#" + digits + "\n" + rest;
    HexDigits(digits);
    assert digits[0] in digits && forall c <- digits[1..] :: c in digits;
    StartReads(lf, digits + "\n" + rest);
    assert input == Lead(lf) + "#" + (digits + "\n" + rest);
    hide ChunkStart, SizeFrom, HexValue, Lead;
    assert (digits + "\n" + rest)[1..] == digits[1..] + "\n" + rest;
    assert [digits[0]] + digits[1..] == digits;
    SizeReads([digits[0]], digits[1..], rest);
  }

  lemma StartReads(lf: bool, rest: Bytes)
    ensures ChunkStart(Lead(lf) + "#" + rest) == Read(Ok(true), rest)
  {
    var input := Lead(lf) + "#" + rest;
    assert input[|Lead(lf)| + 1..] == rest;
    assert lf ==> input[1..][1..] == rest;
  }

  lemma {:induction false} EndReads(lf: bool, rest: Bytes)
    ensures Head(Lead(lf) + "##\n" + rest) == Read(Ok(End), rest)
  {
    var input := Lead(lf) + "##\n" + rest;
    assert ChunkStart(input).result == Ok(true) && ChunkStart(input).rest == "#\n" + rest;
    assert ("#\n" + rest)[2..] == rest;
  }

  lemma {:induction false} ChunkStep(message: Bytes, c: Chunk, more: Bytes)
    requires GoodChunk(c) && |message| + |c.data| <= MAX_MESSAGE
    ensures ChunkedFrom(message, Spell(c) + more) == ChunkedFrom(message + c.data, more)
  {
    var after := c.data + more;
    assert Spell(c) + more == Lead(c.lf) + "#" + c.digits + "\n" + after;
    HeadReads(c.lf, c.digits, after);
    assert after[..|c.data|] == c.data && after[|c.data|..] == more;
  }

  /** Any division into chunks, however spelled, reads as the concatenation. */
  lemma {:induction false} ChunksRead(message: Bytes, chunks: seq<Chunk>, tail: Bytes)
    requires forall c <- chunks :: GoodChunk(c)
    requires |message| + |DataOf(chunks)| <= MAX_MESSAGE
    ensures ChunkedFrom(message, SpellAll(chunks) + tail) == ChunkedFrom(message + DataOf(chunks), tail)
    decreases |chunks|
  {
    if chunks == [] {
      assert SpellAll(chunks) + tail == tail && message + DataOf(chunks) == message;
    } else {
      var c, more := chunks[0], chunks[1..];
      assert chunks == [c] + more;
      ConsChunk(c, more, message);
      SpellAppend(c, more, tail);
      assert c in chunks && forall x <- more :: x in chunks;
      ChunkStep(message, c, SpellAll(more) + tail);
      ChunksRead(message + c.data, more, tail);
    }
  }

  // ------------------------------------------------------ what the reader accepts

  lemma {:induction false} SizeSound(read: Bytes, input: Bytes) returns (more: Bytes)
    requires 1 <= |read| <= 8 && SizeFrom(read, input).result.Ok?
    ensures var r := SizeFrom(read, input);
            && input == more + "\n" + r.rest && |read| + |more| <= 8
            && HexValue(read + more).Some? && r.result.value == Size(HexValue(read + more).value)
    decreases |input|
  {
    if input[0] == '\n' {
      more := "";
      assert read + more == read;
    } else {
      var tail := SizeSound(read + [input[0]], input[1..]);
      more := [input[0]] + tail;
      assert read + [input[0]] + tail == read + more;
    }
  }

  lemma StartSound(input: Bytes)
    requires ChunkStart(input).result.Ok?
    ensures input == Lead(input[0] == '\n') + ("#" + ChunkStart(input).rest)
  {
  }

  lemma {:induction false} BodySound(body: Bytes) returns (digits: Bytes)
    requires ChunkSize(body).result.Ok?
    ensures var r := ChunkSize(body);
            if r.result.value.End? then body == "#\n" + r.rest
            else 1 <= |digits| <= 8 && HexValue(digits) == Some(r.result.value.size) && body == digits + "\n" + r.rest
  {
    if body[0] == '#' {
      digits := "";
    } else {
      var more := SizeSound([body[0]], body[1..]);
      digits := [body[0]] + more;
      assert body == [body[0]] + body[1..];
    }
  }

  /** The header that stands at the front of the stream. */
  ghost predicate HeadSpelt(input: Bytes, lf: bool, digits: Bytes, head: Header, rest: Bytes) {
    if head.End? then input == Lead(lf) + ("#" + ("#\n" + rest))
    else 1 <= |digits| <= 8 && HexValue(digits) == Some(head.size) && input == Lead(lf) + ("#" + (digits + "\n" + rest))
  }

  lemma {:induction false} HeadSound(input: Bytes) returns (lf: bool, digits: Bytes)
    requires Head(input).result.Ok?
    ensures HeadSpelt(input, lf, digits, Head(input).result.value, Head(input).rest)
  {
    StartSound(input);
    lf := input[0] == '\n';
    digits := BodySound(ChunkStart(input).rest);
  }

  lemma {:induction false} ChunkedStep(message: Bytes, input: Bytes)
    requires ChunkedFrom(message, input).result.Ok?
    ensures Head(input).result.Ok?
    ensures var head := Head(input);
            if head.result.value.End? then ChunkedFrom(message, input) == Read(Ok(message), head.rest)
            else var n := head.result.value.size;
                 && |message| + n <= MAX_MESSAGE && n <= |head.rest|
                 && ChunkedFrom(message, input) == ChunkedFrom(message + head.rest[..n], head.rest[n..])
  {
  }

  /** Whatever the chunked reader returns was sent as chunks of it, and fits the limit. */
  lemma {:induction false} ChunkedSound(message: Bytes, input: Bytes) returns (chunks: seq<Chunk>, lf: bool)
    requires ChunkedFrom(message, input).result.Ok? && |message| <= MAX_MESSAGE
    ensures var r := ChunkedFrom(message, input);
            && (forall c <- chunks :: GoodChunk(c))
            && input == SpellAll(chunks) + (Lead(lf) + "##\n" + r.rest)
            && r.result.value == message + DataOf(chunks) && |r.result.value| <= MAX_MESSAGE
    decreases |input|
  {
    var head := Head(input);
    ChunkedStep(message, input);
    var first, digits := HeadSound(input);
    if head.result.value.End? {
      chunks, lf := [], first;
      EndSpelt(input, lf, head.rest);
      assert message + DataOf(chunks) == message;
    } else {
      var n := head.result.value.size;
      var c, left := Chunk(first, digits, head.rest[..n]), head.rest[n..];
      ChunkSpelt(input, c, head.rest, left);
      var more, last := ChunkedSound(message + c.data, left);
      chunks, lf := [c] + more, last;
      ConsChunk(c, more, message);
      SpellAppend(c, more, Lead(lf) + "##\n" + ChunkedFrom(message, input).rest);
    }
  }

  lemma EndSpelt(input: Bytes, lf: bool, rest: Bytes)
    requires input == Lead(lf) + ("#" + ("#\n" + rest))
    ensures input == "" + (Lead(lf) + "##\n" + rest)
  {
    assert "#" + ("#\n" + rest) == "##\n" + rest;
  }

  lemma ChunkSpelt(input: Bytes, c: Chunk, rest: Bytes, left: Bytes)
    requires rest == c.data + left && input == Lead(c.lf) + ("#" + (c.digits + "\n" + rest))
    ensures input == Spell(c) + left
  {
  }

  lemma SpellAppend(c: Chunk, more: seq<Chunk>, tail: Bytes)
    ensures Spell(c) + (SpellAll(more) + tail) == SpellAll([c] + more) + tail
  {
    ConsChunk(c, more, "");
  }

  lemma ConsChunk(c: Chunk, more: seq<Chunk>, message: Bytes)
    ensures SpellAll([c] + more) == Spell(c) + SpellAll(more)
    ensures message + DataOf([c] + more) == message + c.data + DataOf(more)
  {
    assert ([c] + more)[1..] == more;
  }

  ghost predicate SentAs(input: Bytes, chunks: seq<Chunk>, lf: bool, m: Bytes, rest: Bytes) {
    (forall c <- chunks :: GoodChunk(c)) && input == SpellAll(chunks) + (Lead(lf) + "##\n" + rest)
      && m == DataOf(chunks)
  }

  /** The chunked reader returns `m` exactly when the stream starts with chunks of `m`. */
  lemma {:induction false} ChunkedAccepts(input: Bytes, m: Bytes, rest: Bytes)
    ensures ChunkedFrom("", input) == Read(Ok(m), rest) <==>
            |m| <= MAX_MESSAGE && exists chunks, lf :: SentAs(input, chunks, lf, m, rest)
  {
    if ChunkedFrom("", input) == Read(Ok(m), rest) {
      var chunks, lf := ChunkedSound("", input);
      assert "" + DataOf(chunks) == DataOf(chunks);
      assert SentAs(input, chunks, lf, m, rest);
    }
    if |m| <= MAX_MESSAGE && exists chunks, lf :: SentAs(input, chunks, lf, m, rest) {
      var chunks, lf :| SentAs(input, chunks, lf, m, rest);
      ChunksRead("", chunks, Lead(lf) + "##\n" + rest);
      EndReads(lf, rest);
      assert "" + m == m;
    }
  }

  // -------------------------------------------------------------------- round trips

  /** The messages a framing can carry. */
  ghost predicate Carries(mode: Mode, m: Bytes) {
    if mode.Chunked? then |m| <= MAX_MESSAGE else Delimitable(m) && |m| + |END_OF_MESSAGE| <= MAX_MESSAGE
  }

  /** A written message reads back, leaving the stream just behind it, exactly when the framing
      can carry it. */
  lemma {:induction false} FrameRoundTrip(mode: Mode, m: Bytes, rest: Bytes)
    ensures ReadFrame(mode, Frame(mode, m) + rest) == Read(Ok(m), rest) <==> Carries(mode, m)
  {
    if mode.Eom? {
      EomAccepts(m + END_OF_MESSAGE + rest, m, rest);
      FirstDelimiter(m, rest);
    } else {
      ChunkedFrame(m, rest);
    }
  }

  lemma {:induction false} ChunkedFrame(m: Bytes, rest: Bytes)
    ensures ChunkedFrom("", Frame(Chunked, m) + rest) == Read(Ok(m), rest) <==> |m| <= MAX_MESSAGE
  {
    var input := Frame(Chunked, m) + rest;
    if |m| <= MAX_MESSAGE {
      var c, tail := Chunk(true, HexText(|m|), m), Lead(true) + "##\n" + rest;
      HexRoundTrip(|m|);
      assert Power16(8) == 0x1_0000_0000;
      HexLength(|m|, 8);
      assert input == Spell(c) + tail;
      ChunkStep("", c, tail);
      EndReads(true, rest);
      assert "" + m == m;
    } else {
      ChunkedAccepts(input, m, rest);
    }
  }

  /** A chunked message is written as one chunk, with every line feed of section 4.2 of RFC 6242,
      its size without leading zeros; the empty message has the size zero, which that grammar does
      not have. */
  lemma ChunkedIsWritten(m: Bytes)
    ensures exists digits :: && Frame(Chunked, m) == "\n#" + digits + "\n" + m + "\n##\n"
                             && HexValue(digits) == Some(|m|) && digits != "" && (digits[0] == '0' <==> m == "")
  {
    HexRoundTrip(|m|);
    HexStarts(|m|);
  }

  lemma {:induction false} HexStarts(n: nat)
    ensures HexText(n)[0] == '0' <==> n == 0
    decreases n
  {
    if n >= 16 { HexStarts(n / 16); }
  }

  /** Messages written one after the other, each in the mode of its time. */
  datatype Sent = Sent(mode: Mode, message: Bytes)

  function Stream(sent: seq<Sent>): Bytes {
    if sent == [] then "" else Frame(sent[0].mode, sent[0].message) + Stream(sent[1..])
  }

  /** Reading as many messages in the same modes; a failure ends the session. */
  function ReadAll(modes: seq<Mode>, input: Bytes): Option<(seq<Bytes>, Bytes)> {
    if modes == [] then Some(([], input))
    else
      var r := ReadFrame(modes[0], input);
      if r.result.Err? then None
      else
        match ReadAll(modes[1..], r.rest)
        case None => None
        case Some((more, rest)) => Some(([r.result.value] + more, rest))
  }

  function ModesOf(sent: seq<Sent>): seq<Mode> {
    if sent == [] then [] else [sent[0].mode] + ModesOf(sent[1..])
  }

  function MessagesOf(sent: seq<Sent>): seq<Bytes> {
    if sent == [] then [] else [sent[0].message] + MessagesOf(sent[1..])
  }

  /** No read returns more than the limit. */
  lemma {:induction false} ReadsAreBounded(mode: Mode, input: Bytes)
    requires ReadFrame(mode, input).result.Ok?
    ensures |ReadFrame(mode, input).result.value| <= 16 * 1024 * 1024
  {
    var r := ReadFrame(mode, input);
    if mode.Eom? { EomAccepts(input, r.result.value, r.rest); } else { ChunkedAccepts(input, r.result.value, r.rest); }
  }

  /** A framing that returns the written message at all can carry it. */
  lemma {:induction false} ReadMeansCarried(mode: Mode, m: Bytes, rest: Bytes)
    requires ReadFrame(mode, Frame(mode, m) + rest).result == Ok(m)
    ensures Carries(mode, m)
  {
    var input := Frame(mode, m) + rest;
    var left := ReadFrame(mode, input).rest;
    ReadsAreBounded(mode, input);
    if mode.Eom? {
      EomAccepts(input, m, left);
      assert left == input[|m + END_OF_MESSAGE|..] == rest;
      FrameRoundTrip(mode, m, rest);
    }
  }

  /** Reading one message more, at the front. */
  lemma {:induction false} ReadAllStep(first: Sent, modes: seq<Mode>, messages: seq<Bytes>, more: Bytes, rest: Bytes)
    ensures ReadAll([first.mode] + modes, Frame(first.mode, first.message) + more)
            == Some(([first.message] + messages, rest))
            <==> Carries(first.mode, first.message) && ReadAll(modes, more) == Some((messages, rest))
  {
    hide Carries, ReadFrame, Frame;
    var all, input := [first.mode] + modes, Frame(first.mode, first.message) + more;
    assert all[1..] == modes;
    FrameRoundTrip(first.mode, first.message, more);
    if Carries(first.mode, first.message) {
      SameHead(messages, first.message, ReadAll(modes, more));
    } else if ReadAll(all, input) == Some(([first.message] + messages, rest)) {
      assert ([first.message] + messages)[0] == first.message;
      ReadMeansCarried(first.mode, first.message, more);
    }
  }

  lemma SameHead(messages: seq<Bytes>, first: Bytes, read: Option<(seq<Bytes>, Bytes)>)
    ensures read.Some? && [first] + read.value.0 == [first] + messages ==> read.value.0 == messages
  {
    if read.Some? { assert ([first] + read.value.0)[1..] == read.value.0 && ([first] + messages)[1..] == messages; }
  }

  /** A session is read message for message, with nothing left over, if and only if its framing can
      carry every message written. */
  lemma {:induction false} StreamRoundTrip(sent: seq<Sent>, rest: Bytes)
    ensures ReadAll(ModesOf(sent), Stream(sent) + rest) == Some((MessagesOf(sent), rest)) <==>
            forall s <- sent :: Carries(s.mode, s.message)
    decreases |sent|
  {
    hide Carries, ReadFrame, Frame, ReadAll;
    if sent == [] {
      assert Stream(sent) + rest == rest;
      NothingRead(rest);
    } else {
      var first, more := sent[0], Stream(sent[1..]) + rest;
      assert Stream(sent) + rest == Frame(first.mode, first.message) + more;
      StreamRoundTrip(sent[1..], rest);
      ReadAllStep(first, ModesOf(sent[1..]), MessagesOf(sent[1..]), more, rest);
      assert sent == [first] + sent[1..];
    }
  }

  lemma NothingRead(rest: Bytes)
    ensures ReadAll([], rest) == Some(([], rest))
  {
  }
}
