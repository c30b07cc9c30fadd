/** The incremental HTTP/1.1 response reader of attachment.rs (sections 6.3 and 7.1 of RFC 9112). */
module HttpReader {
  import opened Collections
  import opened Text
  import opened Utf8

  const USIZE_MAX: nat := 0xFFFF_FFFF_FFFF_FFFF
  const U16_MAX: nat := 0xFFFF
  const CRLF: seq<Byte> := [13, 10]
  const TRANSFER_ENCODING: string := "transfer-encoding"
  const CONTENT_LENGTH: string := "content-length"
  const BLANK_LINE: seq<Byte> := [13, 10, 13, 10]

  datatype EofReason = ShortBody(expected: nat, got: nat) | UncommittedBody | ShortChunk

  datatype InvalidReason =
    | MalformedResponse | MissingStatusCode | InvalidContentLength
    | MalformedChunkedBody | InvalidChunkSize | MissingChunkCrlf

  datatype Failure =
    | UnexpectedEof(eof: EofReason)
    | InvalidData(invalid: InvalidReason)
    | NotUtf8
    | BadStatusCode
    | UnexpectedStatus(code: nat)

  datatype Parsed = Body(bytes: seq<Byte>) | Fail(error: Failure) | Panic

  /** Whether `chunk_size + 2` is checked for overflow or wraps, as the build profile says. */
  datatype Build = Checked | Wrapping

  datatype Framing = HeadError(error: Failure) | Chunked | Length(length: nat) | UntilClose

  // ---------- the head ----------

  /** The value of the last header line with this name, trimmed. */
  function HeaderValue(lines: seq<string>, name: string): Option<string> {
    if lines == [] then None
    else match SplitOnce(lines[|lines| - 1], ':')
      case Some(pair) =>
        if AsciiLower(Trim(pair.0)) == name then Some(Trim(pair.1)) else HeaderValue(lines[..|lines| - 1], name)
      case None => HeaderValue(lines[..|lines| - 1], name)
  }

  function NamesChunked(value: string): bool {
    exists part :: part in Split(value, ',') && EqIgnoreAsciiCase(Trim(part), "chunked")
  }

  function FramingOf(transferEncoding: Option<string>, contentLength: Option<string>): Framing {
    if transferEncoding.Some? && NamesChunked(transferEncoding.value) then Chunked
    else match contentLength
      case None => UntilClose
      case Some(value) =>
        match ParseUnsigned(value, 10, USIZE_MAX)
        case None => HeadError(InvalidData(InvalidContentLength))
        case Some(n) => Length(n)
  }

  function StatusError(statusLine: string): Option<Failure> {
    match SecondWord(statusLine)
    case None => Some(InvalidData(MissingStatusCode))
    case Some(word) =>
      match ParseUnsigned(word, 10, U16_MAX)
      case None => Some(BadStatusCode)
      case Some(code) => if code != 200 then Some(UnexpectedStatus(code)) else None
  }

  /** How the bytes after the head are framed, from the head alone. */
  function FramingFor(head: seq<Byte>): Framing {
    match Decode(head)
    case None => HeadError(NotUtf8)
    case Some(text) =>
      var lines := SplitLines(text);
      match StatusError(lines[0])
      case Some(error) => HeadError(error)
      case None =>
        FramingOf(HeaderValue(lines[1..], TRANSFER_ENCODING), HeaderValue(lines[1..], CONTENT_LENGTH))
  }

  // ---------- chunked bodies ----------

  /** The size on a chunk's first line; extensions after a semicolon are ignored. */
  function SizeOn(line: seq<Byte>): ChunkSize {
    match Decode(line)
    case None => BadSize(NotUtf8)
    case Some(text) =>
      match ParseUnsigned(Trim(Split(text, ';')[0]), 16, USIZE_MAX)
      case None => BadSize(InvalidData(InvalidChunkSize))
      case Some(n) => Size(n)
  }

  datatype ChunkSize = Size(size: nat) | BadSize(error: Failure)

  /** What the decoder finds at the front: the end, an error, or one chunk and the bytes after it. */
  datatype Front = Stop(result: Parsed) | Chunk(data: seq<Byte>, rest: seq<Byte>)

  function FrontOf(build: Build, body: seq<Byte>): (r: Front)
    ensures r.Chunk? ==> |r.rest| < |body|
  {
    match Find<Byte>(body, CRLF)
    case None => Stop(Fail(InvalidData(MalformedChunkedBody)))
    case Some(lineEnd) =>
      match SizeOn(body[..lineEnd])
      case BadSize(error) => Stop(Fail(error))
      case Size(size) => if size == 0 then Stop(Body([])) else CutChunk(build, size, body[lineEnd + 2..])
  }

  function CutChunk(build: Build, size: nat, rest: seq<Byte>): (r: Front)
    ensures r.Chunk? ==> |r.rest| < |rest|
  {
    match ChunkGuard(build, size, |rest|)
    case Some(stop) => Stop(stop)
    case None =>
      if rest[size..size + 2] != CRLF then Stop(Fail(InvalidData(MissingChunkCrlf)))
      else Chunk(rest[..size], rest[size + 2..])
  }

  function Prepend(data: seq<Byte>, r: Parsed): Parsed {
    match r
    case Body(bytes) => Body(data + bytes)
    case Fail(_) => r
    case Panic => r
  }

  function ChunkedBody(build: Build, body: seq<Byte>): Parsed
    decreases |body|
  {
    match FrontOf(build, body)
    case Stop(result) => result
    case Chunk(data, rest) => Prepend(data, ChunkedBody(build, rest))
  }

  /**
   * The length test before a chunk is cut out. `size + 2` overflows for the two largest sizes: a checked build
   * panics, a wrapping one compares with the wrapped sum and panics on the slice if it gets that far.
   */
  function ChunkGuard(build: Build, size: nat, available: nat): (r: Option<Parsed>)
    ensures r.None? ==> size + 2 <= available
    ensures r.Some? ==> r.value == Panic || r.value == Fail(UnexpectedEof(ShortChunk))
  {
    if size + 2 <= USIZE_MAX then
      if available < size + 2 then Some(Fail(UnexpectedEof(ShortChunk))) else None
    else if build.Checked? then Some(Panic)
    else if available < size + 2 - USIZE_MAX - 1 then Some(Fail(UnexpectedEof(ShortChunk)))
    else Some(Panic)
  }

  // ---------- the whole response ----------

  function ParseBody(build: Build, framing: Framing, body: seq<Byte>, eof: bool): Parsed {
    match framing
    case HeadError(error) => Fail(error)
    case Chunked => ChunkedBody(build, body)
    case Length(n) => if |body| < n then Fail(UnexpectedEof(ShortBody(n, |body|))) else Body(body[..n])
    case UntilClose => if eof then Body(body) else Fail(UnexpectedEof(UncommittedBody))
  }

  function Parse(build: Build, response: seq<Byte>, eof: bool): Parsed {
    match Find<Byte>(response, BLANK_LINE)
    case None => Fail(InvalidData(MalformedResponse))
    case Some(headEnd) => ParseBody(build, FramingFor(response[..headEnd]), response[headEnd + 4..], eof)
  }

  predicate Retried(r: Parsed) {
    r.Fail? && (r.error.UnexpectedEof? || r.error.InvalidData?)
  }

  datatype Outcome = Text(text: string) | BodyNotUtf8 | Error(error: Failure) | Crash

  function Finish(r: Parsed): Outcome {
    match r
    case Body(bytes) => (match Decode(bytes) case Some(text) => Text(text) case None => BodyNotUtf8)
    case Fail(error) => Error(error)
    case Panic => Crash
  }

  // ---------- committed results are stable ----------

  lemma CutStable(build: Build, size: nat, rest: seq<Byte>, more: seq<Byte>)
    ensures match CutChunk(build, size, rest)
            case Stop(result) => !Retried(result) ==> CutChunk(build, size, rest + more) == Stop(result)
            case Chunk(data, after) => CutChunk(build, size, rest + more) == Chunk(data, after + more)
  {
    if ChunkGuard(build, size, |rest|) != Some(Fail(UnexpectedEof(ShortChunk))) {
      if ChunkGuard(build, size, |rest|).None? {
        assert (rest + more)[size..size + 2] == rest[size..size + 2];
        assert (rest + more)[..size] == rest[..size];
        assert (rest + more)[size + 2..] == rest[size + 2..] + more;
      }
    }
  }

  lemma FrontStable(build: Build, body: seq<Byte>, more: seq<Byte>)
    ensures match FrontOf(build, body)
            case Stop(result) => !Retried(result) ==> FrontOf(build, body + more) == Stop(result)
            case Chunk(data, rest) => FrontOf(build, body + more) == Chunk(data, rest + more)
  {
    if Find<Byte>(body, CRLF).Some? {
      FindStable<Byte>(body, CRLF, more);
      var lineEnd := Find<Byte>(body, CRLF).value;
      assert (body + more)[..lineEnd] == body[..lineEnd];
      assert (body + more)[lineEnd + 2..] == body[lineEnd + 2..] + more;
      var line := SizeOn(body[..lineEnd]);
      if line.Size? {
        CutStable(build, line.size, body[lineEnd + 2..], more);
      }
    }
  }

  lemma {:induction false} ChunkedStable(build: Build, body: seq<Byte>, more: seq<Byte>)
    requires !Retried(ChunkedBody(build, body))
    ensures ChunkedBody(build, body + more) == ChunkedBody(build, body)
    decreases |body|
  {
    FrontStable(build, body, more);
    if FrontOf(build, body).Chunk? {
      ChunkedStable(build, FrontOf(build, body).rest, more);
    }
  }

  lemma BodyStable(build: Build, framing: Framing, body: seq<Byte>, more: seq<Byte>, eof: bool)
    requires !Retried(ParseBody(build, framing, body, false))
    ensures ParseBody(build, framing, body + more, eof) == ParseBody(build, framing, body, false)
  {
    if framing.Chunked? {
      ChunkedStable(build, body, more);
    } else if framing.Length? {
      assert (body + more)[..framing.length] == body[..framing.length];
    }
  }

  lemma HeadStable(response: seq<Byte>, more: seq<Byte>)
    requires Find<Byte>(response, BLANK_LINE).Some?
    ensures Find<Byte>(response + more, BLANK_LINE) == Find<Byte>(response, BLANK_LINE)
    ensures var headEnd := Find<Byte>(response, BLANK_LINE).value;
            && (response + more)[..headEnd] == response[..headEnd]
            && (response + more)[headEnd + 4..] == response[headEnd + 4..] + more
  {
    FindStable<Byte>(response, BLANK_LINE, more);
  }

  /** A body, a panic or an error that is not retried stays the answer whatever bytes follow. */
  lemma CommittedIsStable(build: Build, response: seq<Byte>, more: seq<Byte>, eof: bool)
    ensures !Retried(Parse(build, response, false)) ==>
              Parse(build, response + more, eof) == Parse(build, response, false)
  {
    if !Retried(Parse(build, response, false)) {
      HeadStable(response, more);
      var headEnd := Find<Byte>(response, BLANK_LINE).value;
      BodyStable(build, FramingFor(response[..headEnd]), response[headEnd + 4..], more, eof);
    }
  }

  // ---------- the methods ----------

  /** `decode_chunked_body`: cut chunks off the front until the zero chunk. */
  method DecodeChunkedBody(build: Build, bytes: seq<Byte>) returns (result: Parsed)
    ensures result == ChunkedBody(build, bytes)
  {
    var body := bytes;
    var decoded: seq<Byte> := [];
    while true
      invariant Prepend(decoded, ChunkedBody(build, body)) == ChunkedBody(build, bytes)
      decreases |body|
    {
      var lineEnd := Find<Byte>(body, CRLF);
      if lineEnd.None? {
        return Fail(InvalidData(MalformedChunkedBody));
      }
      var line := SizeOn(body[..lineEnd.value]);
      if line.BadSize? {
        return Fail(line.error);
      }
      var rest := body[lineEnd.value + 2..];
      if line.size == 0 {
        assert decoded + [] == decoded;
        return Body(decoded);
      }
      var guard := ChunkGuard(build, line.size, |rest|);
      if guard.Some? {
        return guard.value;
      }
      if rest[line.size..line.size + 2] != CRLF {
        return Fail(InvalidData(MissingChunkCrlf));
      }
      PrependTwice(decoded, rest[..line.size], ChunkedBody(build, rest[line.size + 2..]));
      decoded := decoded + rest[..line.size];
      body := rest[line.size + 2..];
    }
  }

  lemma PrependTwice(a: seq<Byte>, b: seq<Byte>, r: Parsed)
    ensures Prepend(a, Prepend(b, r)) == Prepend(a + b, r)
  {
    if r.Body? {
      assert a + (b + r.bytes) == a + b + r.bytes;
    }
  }

  /** The header loop: the last line with a name wins. */
  method ReadHeaders(lines: seq<string>) returns (headers: map<string, string>)
    ensures forall name :: Lookup(headers, name) == HeaderValue(lines, name)
  {
    headers := map[];
    for i := 0 to |lines|
      invariant forall name :: Lookup(headers, name) == HeaderValue(lines[..i], name)
    {
      assert lines[..i + 1][..i] == lines[..i];
      match SplitOnce(lines[i], ':')
      case Some(pair) =>
        headers := headers[AsciiLower(Trim(pair.0)) := Trim(pair.1)];
      case None =>
    }
    assert lines[..|lines|] == lines;
  }

  /** The first half of `parse_http_response_body`: status line and headers. */
  method ReadHead(head: seq<Byte>) returns (framing: Framing)
    ensures framing == FramingFor(head)
  {
    var text := Decode(head);
    if text.None? {
      return HeadError(NotUtf8);
    }
    var lines := SplitLines(text.value);
    var statusError := StatusError(lines[0]);
    if statusError.Some? {
      return HeadError(statusError.value);
    }
    var headers := ReadHeaders(lines[1..]);
    framing := FramingOf(Lookup(headers, TRANSFER_ENCODING), Lookup(headers, CONTENT_LENGTH));
  }

  function Lookup(m: map<string, string>, key: string): Option<string> {
    if key in m then Some(m[key]) else None
  }

  /** `parse_http_response_body`. */
  method ParseHttpResponseBody(build: Build, response: seq<Byte>, eof: bool) returns (result: Parsed)
    ensures result == Parse(build, response, eof)
  {
    var headEnd := Find<Byte>(response, BLANK_LINE);
    if headEnd.None? {
      return Fail(InvalidData(MalformedResponse));
    }
    var body := response[headEnd.value + 4..];
    var framing := ReadHead(response[..headEnd.value]);
    match framing
    case HeadError(error) =>
      result := Fail(error);
    case Chunked =>
      result := DecodeChunkedBody(build, body);
    case Length(length) =>
      if |body| < length {
        return Fail(UnexpectedEof(ShortBody(length, |body|)));
      }
      result := Body(body[..length]);
    case UntilClose =>
      if !eof {
        return Fail(UnexpectedEof(UncommittedBody));
      }
      result := Body(body);
  }

  /** The stream a list of reads delivers: an empty read is the end of it. */
  function Delivered(packets: seq<seq<Byte>>): seq<Byte> {
    if packets == [] || packets[0] == [] then [] else packets[0] + Delivered(packets[1..])
  }

  /**
   * The read loop of `http_get_text_until`, deadlines and socket errors aside: parse again after every read,
   * answer as soon as the parse is committed, retry on the two error kinds a longer buffer may cure.
   */
  method ReadResponse(build: Build, packets: seq<seq<Byte>>) returns (outcome: Outcome)
    ensures outcome == Finish(Parse(build, Delivered(packets), true))
  {
    var response: seq<Byte> := [];
    var next := 0;
    while true
      invariant 0 <= next <= |packets|
      invariant response + Delivered(packets[next..]) == Delivered(packets)
      decreases |packets| - next
    {
      var read := if next < |packets| then packets[next] else [];
      var eofReached := read == [];
      if !eofReached {
        assert packets[next..][1..] == packets[next + 1..];
        assert response + (read + Delivered(packets[next + 1..])) == response + read + Delivered(packets[next + 1..]);
        response := response + read;
        next := next + 1;
      } else {
        assert response + [] == response;
      }
      var parsed := ParseHttpResponseBody(build, response, eofReached);
      if !Retried(parsed) {
        if !eofReached {
          CommittedIsStable(build, response, Delivered(packets[next..]), true);
        }
        return Finish(parsed);
      }
      if eofReached {
        break;
      }
    }
    var parsed := ParseHttpResponseBody(build, response, true);
    outcome := Finish(parsed);
  }

  /** However a stream is cut into non-empty reads, it is the same stream. */
  lemma {:induction false} AnyCutDelivers(packets: seq<seq<Byte>>)
    requires forall i :: 0 <= i < |packets| ==> packets[i] != []
    ensures Delivered(packets) == Concat(packets)
  {
    if packets != [] {
      AnyCutDelivers(packets[1..]);
    }
  }
}
