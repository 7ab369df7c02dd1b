/** internal/netconf/framing.go: the two ways NETCONF messages are delimited on a byte stream.
    Bytes are modelled as characters. Chunk sizes are hexadecimal, as in the code. */
module Framing {
  import opened Wrappers
  import opened Text

  type Bytes = string

  const END_OF_MESSAGE: Bytes := "]]>]]>"
  const MAX_MESSAGE: nat := 16 * 1024 * 1024

  datatype Mode = Eom | Chunked

  datatype FrameError = Eof | Malformed | TooBig

  /** What a read returned and what it left on the stream. */
  datatype Read<T> = Read(result: Result<T, FrameError>, rest: Bytes)

  datatype Header = Size(size: nat) | End

  // ------------------------------------------------------------------------ reading

  /** `readEOM` with `message` already read. */
  function EomFrom(message: Bytes, input: Bytes): Read<Bytes>
    decreases |input|
  {
    if input == "" then Read(Err(Eof), "")
    else
      var next, rest := message + [input[0]], input[1..];
      if |next| > MAX_MESSAGE then Read(Err(TooBig), rest)
      else if HasSuffix(next, END_OF_MESSAGE) then Read(Ok(next[..|next| - |END_OF_MESSAGE|]), rest)
      else EomFrom(next, rest)
  }

  /** `expectChunkStart`. */
  function ChunkStart(input: Bytes): (r: Read<bool>)
    ensures |r.rest| <= |input| && (r.result.Ok? ==> |r.rest| < |input|)
  {
    if input == "" then Read(Err(Eof), "")
    else if input[0] != '\n' then Read(if input[0] == '#' then Ok(true) else Err(Malformed), input[1..])
    else if |input| == 1 then Read(Err(Eof), "")
    else Read(if input[1] == '#' then Ok(true) else Err(Malformed), input[2..])
  }

  function HexDigit(c: char): Option<nat> {
    if '0' <= c <= '9' then Some((c - '0') as nat)
    else if 'a' <= c <= 'f' then Some((c - 'a') as nat + 10)
    else if 'A' <= c <= 'F' then Some((c - 'A') as nat + 10)
    else None
  }

  /** `strconv.ParseUint` in base 16. */
  function HexValue(digits: Bytes): Option<nat> {
    if digits == "" then None
    else
      var k := |digits| - 1;
      match HexDigit(digits[k])
      case None => None
      case Some(low) =>
        if k == 0 then Some(low)
        else match HexValue(digits[..k]) { case None => None case Some(high) => Some(16 * high + low) }
  }

  /** The loop of `readChunkSize`. */
  function SizeFrom(digits: Bytes, input: Bytes): (r: Read<Header>)
    ensures |r.rest| <= |input| && (r.result.Ok? ==> |r.rest| < |input|)
    decreases |input|
  {
    if input == "" then Read(Err(Eof), "")
    else if input[0] == '\n' then
      Read(match HexValue(digits) { case None => Err(Malformed) case Some(n) => Ok(Size(n)) }, input[1..])
    else if |digits| + 1 > 8 then Read(Err(Malformed), input[1..])
    else SizeFrom(digits + [input[0]], input[1..])
  }

  /** `readChunkSize`. */
  function ChunkSize(input: Bytes): (r: Read<Header>)
    ensures |r.rest| <= |input| && (r.result.Ok? ==> |r.rest| < |input|)
  {
    if input == "" then Read(Err(Eof), "")
    else if input[0] != '#' then SizeFrom([input[0]], input[1..])
    else if |input| == 1 then Read(Err(Eof), "")
    else Read(if input[1] == '\n' then Ok(End) else Err(Malformed), input[2..])
  }

  function Head(input: Bytes): (r: Read<Header>)
    ensures r.result.Ok? ==> |r.rest| < |input|
  {
    var start := ChunkStart(input);
    if start.result.Err? then Read(Err(start.result.error), start.rest) else ChunkSize(start.rest)
  }

  /** `readChunked` with `message` already read. */
  function ChunkedFrom(message: Bytes, input: Bytes): Read<Bytes>
    decreases |input|
  {
    var head := Head(input);
    match head.result
    case Err(error) => Read(Err(error), head.rest)
    case Ok(End) => Read(Ok(message), head.rest)
    case Ok(Size(n)) =>
      if n > MAX_MESSAGE - |message| then Read(Err(TooBig), head.rest)
      else if |head.rest| < n then Read(Err(Eof), "")
      else ChunkedFrom(message + head.rest[..n], head.rest[n..])
  }

  function ReadFrame(mode: Mode, input: Bytes): Read<Bytes> {
    if mode.Chunked? then ChunkedFrom("", input) else EomFrom("", input)
  }

  // ------------------------------------------------------------------------ writing

  function HexText(n: nat): (digits: Bytes)
    ensures digits != ""
  {
    var low := [(if n % 16 < 10 then '0' + (n % 16) as char else 'a' + (n % 16 - 10) as char)];
    if n < 16 then low else HexText(n / 16) + low
  }

  /** `WriteMessage`. */
  function Frame(mode: Mode, message: Bytes): Bytes {
    if mode.Eom? then message + END_OF_MESSAGE
    else "\n#" + HexText(|message|) + "\n" + message + "\n##\n"
  }
}
