/** The reader and writer of internal/netconf/framing.go on a byte stream. */
module FramedStream {
  import opened Wrappers
  import opened Text
  import opened Framing
  import opened FramingLaws

  class MessageReader {
    /** What the peer has sent and nobody has read; the end of it is the end of the stream. */
    var input: Bytes
    var mode: Mode

    constructor (input: Bytes, mode: Mode)
      ensures this.input == input && this.mode == mode
    {
      this.input, this.mode := input, mode;
    }

    method SetMode(mode: Mode)
      modifies this`mode
      ensures this.mode == mode
    {
      this.mode := mode;
    }

    method ReadByte() returns (b: Option<char>)
      modifies this`input
      ensures old(input) == "" ==> b == None && input == ""
      ensures old(input) != "" ==> b == Some(old(input)[0]) && input == old(input)[1..]
    {
      if input == "" { return None; }
      b := Some(input[0]);
      input := input[1..];
    }

    method ReadMessage() returns (r: Result<Bytes, FrameError>)
      modifies this`input
      ensures Read(r, input) == ReadFrame(mode, old(input))
    {
      if mode.Chunked? { r := ReadChunked(); } else { r := ReadEom(); }
    }

    /** One message after the other, each in the mode agreed for it; the first failure ends it. */
    method ReadEach(modes: seq<Mode>) returns (messages: Option<seq<Bytes>>)
      modifies this
      ensures messages.Some? <==> ReadAll(modes, old(input)).Some?
      ensures messages.Some? ==> ReadAll(modes, old(input)) == Some((messages.value, input))
      decreases |modes|
    {
      if modes == [] { return Some([]); }
      SetMode(modes[0]);
      var first := ReadMessage();
      if first.Err? { return None; }
      var more := ReadEach(modes[1..]);
      messages := if more.None? then None else Some([first.value] + more.value);
    }

    method ReadEom() returns (r: Result<Bytes, FrameError>)
      modifies this`input
      ensures Read(r, input) == EomFrom("", old(input))
    {
      var message: Bytes := "";
      while true
        invariant EomFrom(message, input) == EomFrom("", old(input))
        decreases |input|
      {
        var b := ReadByte();
        if b.None? { return Err(Eof); }
        message := message + [b.value];
        if |message| > MAX_MESSAGE { return Err(TooBig); }
        if HasSuffix(message, END_OF_MESSAGE) { return Ok(message[..|message| - |END_OF_MESSAGE|]); }
      }
    }

    method ExpectChunkStart() returns (r: Result<bool, FrameError>)
      modifies this`input
      ensures Read(r, input) == ChunkStart(old(input))
    {
      var b := ReadByte();
      if b.None? { return Err(Eof); }
      if b.value == '\n' {
        b := ReadByte();
        if b.None? { return Err(Eof); }
      }
      r := if b.value != '#' then Err(Malformed) else Ok(true);
    }

    method ReadChunkSize() returns (r: Result<Header, FrameError>)
      modifies this`input
      ensures Read(r, input) == ChunkSize(old(input))
    {
      var first := ReadByte();
      if first.None? { return Err(Eof); }
      if first.value == '#' {
        var b := ReadByte();
        if b.None? { return Err(Eof); }
        return if b.value != '\n' then Err(Malformed) else Ok(End);
      }
      var digits := [first.value];
      while true
        invariant SizeFrom(digits, input) == ChunkSize(old(input))
        decreases |input|
      {
        var b := ReadByte();
        if b.None? { return Err(Eof); }
        if b.value == '\n' { break; }
        digits := digits + [b.value];
        if |digits| > 8 { return Err(Malformed); }
      }
      var size := HexValue(digits);
      r := if size.None? then Err(Malformed) else Ok(Size(size.value));
    }

    method ReadChunked() returns (r: Result<Bytes, FrameError>)
      modifies this`input
      ensures Read(r, input) == ChunkedFrom("", old(input))
    {
      var message: Bytes := "";
      while true
        invariant ChunkedFrom(message, input) == ChunkedFrom("", old(input))
        decreases |input|
      {
        ghost var before := input;
        var start := ExpectChunkStart();
        if start.Err? { return Err(start.error); }
        var head := ReadChunkSize();
        if head.Err? { return Err(head.error); }
        if head.value.End? { return Ok(message); }
        var size := head.value.size;
        if size > MAX_MESSAGE - |message| { return Err(TooBig); }
        if |input| < size {
          input := "";
          return Err(Eof);
        }
        message := message + input[..size];
        input := input[size..];
      }
    }
  }

  class MessageWriter {
    var output: Bytes
    var mode: Mode

    constructor (mode: Mode)
      ensures output == "" && this.mode == mode
    {
      output, this.mode := "", mode;
    }

    method SetMode(mode: Mode)
      modifies this`mode
      ensures this.mode == mode
    {
      this.mode := mode;
    }

    method WriteEach(sent: seq<Sent>)
      modifies this
      ensures output == old(output) + Stream(sent)
      decreases |sent|
    {
      hide Frame;
      if sent == [] {
        assert old(output) + Stream(sent) == old(output);
        return;
      }
      SetMode(sent[0].mode);
      WriteMessage(sent[0].message);
      WriteEach(sent[1..]);
      ghost var first := Frame(sent[0].mode, sent[0].message);
      assert old(output) + first + Stream(sent[1..]) == old(output) + (first + Stream(sent[1..]));
    }

    method WriteMessage(message: Bytes)
      modifies this`output
      ensures output == old(output) + Frame(mode, message)
    {
      if mode.Eom? {
        output := output + (message + END_OF_MESSAGE);
      } else {
        var buffer := "\n#" + HexText(|message|) + "\n";
        buffer := buffer + message;
        buffer := buffer + "\n##\n";
        output := output + buffer;
      }
    }
  }

  /** A session from writer to reader: every message arrives, and nothing else, if and only if the
      framing of its time can carry each of them. */
  method Exchange(sent: seq<Sent>, mode: Mode) returns (messages: Option<seq<Bytes>>, left: Bytes)
    ensures messages == Some(MessagesOf(sent)) && left == "" <==> forall s <- sent :: Carries(s.mode, s.message)
  {
    var writer := new MessageWriter(mode);
    writer.WriteEach(sent);
    var reader := new MessageReader(writer.output, mode);
    messages := reader.ReadEach(ModesOf(sent));
    left := reader.input;
    StreamRoundTrip(sent, "");
    assert "" + Stream(sent) == Stream(sent) + "";
  }
}
