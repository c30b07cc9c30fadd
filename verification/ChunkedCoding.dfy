/**
 * The chunked bodies the decoder of attachment.rs accepts, those it panics on, and those of the chunked transfer
 * coding (section 7.1 of RFC 9112).
 */
module ChunkedCoding {
  import opened Collections
  import opened Text
  import opened Utf8
  import opened HttpReader
  import opened SizeLine

  datatype WireChunk = WireChunk(line: seq<Byte>, data: seq<Byte>)

  /** `line` holds no CRLF, not even across its end, and states the size `n`. */
  ghost predicate LineSays(line: seq<Byte>, n: nat) {
    Find<Byte>(line + CRLF, CRLF) == Some(|line|) && Says(line, n)
  }

  ghost predicate WellFormed(c: WireChunk) {
    0 < |c.data| <= USIZE_MAX - 2 && LineSays(c.line, |c.data|)
  }

  ghost predicate AllWellFormed(chunks: seq<WireChunk>) {
    forall i :: 0 <= i < |chunks| ==> WellFormed(chunks[i])
  }

  /** The chunks on the wire, closed by the line of a zero chunk. */
  function Wire(chunks: seq<WireChunk>, last: seq<Byte>): seq<Byte> {
    if chunks == [] then last + CRLF
    else chunks[0].line + CRLF + (chunks[0].data + CRLF + Wire(chunks[1..], last))
  }

  function Payload(chunks: seq<WireChunk>): seq<Byte> {
    if chunks == [] then [] else chunks[0].data + Payload(chunks[1..])
  }

  // ---------- everything of that form is decoded ----------

  lemma LineFound(line: seq<Byte>, n: nat, rest: seq<Byte>)
    requires LineSays(line, n)
    ensures Find<Byte>(line + CRLF + rest, CRLF) == Some(|line|)
    ensures (line + CRLF + rest)[..|line|] == line
    ensures (line + CRLF + rest)[|line| + 2..] == rest
    ensures SizeOn(line) == Size(n)
  {
    FindStable<Byte>(line + CRLF, CRLF, rest);
    SizeLineIff(line, n);
  }

  lemma ChunkFound(build: Build, c: WireChunk, rest: seq<Byte>)
    requires WellFormed(c)
    ensures FrontOf(build, c.line + CRLF + (c.data + CRLF + rest)) == Chunk(c.data, rest)
  {
    var after := c.data + CRLF + rest;
    LineFound(c.line, |c.data|, after);
    assert after[|c.data|..|c.data| + 2] == CRLF;
    assert after[..|c.data|] == c.data;
    assert after[|c.data| + 2..] == rest;
  }

  lemma {:induction false} WireDecodes(build: Build, chunks: seq<WireChunk>, last: seq<Byte>, trailing: seq<Byte>)
    requires AllWellFormed(chunks) && LineSays(last, 0)
    ensures ChunkedBody(build, Wire(chunks, last) + trailing) == Body(Payload(chunks))
    decreases |chunks|
  {
    if chunks == [] {
      LineFound(last, 0, trailing);
    } else {
      var c := chunks[0];
      var rest := Wire(chunks[1..], last) + trailing;
      WireCons(c, chunks[1..], last, trailing);
      assert [c] + chunks[1..] == chunks;
      ChunkFound(build, c, rest);
      WireDecodes(build, chunks[1..], last, trailing);
    }
  }

  // ---------- everything decoded is of that form ----------

  lemma LineCut(body: seq<Byte>) returns (line: seq<Byte>, rest: seq<Byte>)
    requires Find<Byte>(body, CRLF).Some?
    ensures var at := Find<Byte>(body, CRLF).value; line == body[..at] && rest == body[at + 2..]
    ensures body == line + CRLF + rest
    ensures Find<Byte>(line + CRLF, CRLF) == Some(|line|)
  {
    var at := Find<Byte>(body, CRLF).value;
    line, rest := body[..at], body[at + 2..];
    assert body[at..at + 2] == CRLF;
    assert body == line + CRLF + rest;
    FindIsLeftmost<Byte>(body, CRLF);
    forall k | OccursAt<Byte>(line + CRLF, CRLF, k)
      ensures at <= k
    {
      assert (line + CRLF)[k..k + 2] == body[k..k + 2];
      assert OccursAt<Byte>(body, CRLF, k);
    }
    FindIs<Byte>(line + CRLF, CRLF, at);
  }

  lemma FrontIsWire(build: Build, body: seq<Byte>) returns (line: seq<Byte>, rest: seq<Byte>)
    requires FrontOf(build, body).Chunk? || (FrontOf(build, body).Stop? && FrontOf(build, body).result.Body?)
    ensures body == line + CRLF + rest
    ensures FrontOf(build, body).Chunk? ==>
              && WellFormed(WireChunk(line, FrontOf(build, body).data))
              && rest == FrontOf(build, body).data + CRLF + FrontOf(build, body).rest
    ensures FrontOf(build, body).Stop? ==> LineSays(line, 0) && FrontOf(build, body).result == Body([])
  {
    line, rest := LineCut(body);
    var size := SizeOn(line).size;
    SizeLineIff(line, size);
    if FrontOf(build, body).Chunk? {
      CutIsWire(build, size, rest);
    }
  }

  lemma CutIsWire(build: Build, size: nat, rest: seq<Byte>)
    requires CutChunk(build, size, rest).Chunk?
    ensures var front := CutChunk(build, size, rest);
            |front.data| == size <= USIZE_MAX - 2 && rest == front.data + CRLF + front.rest
  {
    assert rest == rest[..size] + rest[size..size + 2] + rest[size + 2..];
  }

  lemma {:induction false} DecodedIsWire(build: Build, body: seq<Byte>)
    returns (chunks: seq<WireChunk>, last: seq<Byte>, trailing: seq<Byte>)
    requires ChunkedBody(build, body).Body?
    ensures AllWellFormed(chunks) && LineSays(last, 0)
    ensures body == Wire(chunks, last) + trailing
    ensures ChunkedBody(build, body).bytes == Payload(chunks)
    decreases |body|
  {
    var line, rest := FrontIsWire(build, body);
    match FrontOf(build, body)
    case Stop(_) =>
      chunks, last, trailing := [], line, rest;
    case Chunk(data, after) =>
      chunks, last, trailing := DecodedIsWire(build, after);
      WireCons(WireChunk(line, data), chunks, last, trailing);
      chunks := [WireChunk(line, data)] + chunks;
  }

  lemma WireCons(c: WireChunk, chunks: seq<WireChunk>, last: seq<Byte>, trailing: seq<Byte>)
    requires WellFormed(c) && AllWellFormed(chunks)
    ensures AllWellFormed([c] + chunks)
    ensures Wire([c] + chunks, last) + trailing == c.line + CRLF + (c.data + CRLF + (Wire(chunks, last) + trailing))
    ensures Payload([c] + chunks) == c.data + Payload(chunks)
  {
    assert ([c] + chunks)[1..] == chunks;
  }

  ghost predicate IsWire(body: seq<Byte>, payload: seq<Byte>) {
    exists chunks: seq<WireChunk>, last: seq<Byte>, trailing: seq<Byte> ::
      Encodes(chunks, last, trailing, body, payload)
  }

  ghost predicate Encodes(
    chunks: seq<WireChunk>, last: seq<Byte>, trailing: seq<Byte>, body: seq<Byte>, payload: seq<Byte>)
  {
    AllWellFormed(chunks) && LineSays(last, 0) && body == Wire(chunks, last) + trailing && payload == Payload(chunks)
  }

  /** The decoder answers with a payload exactly when the body is chunks of it closed by a zero line. */
  lemma DecodedIff(build: Build, body: seq<Byte>, payload: seq<Byte>)
    ensures ChunkedBody(build, body) == Body(payload) <==> IsWire(body, payload)
  {
    if ChunkedBody(build, body) == Body(payload) {
      var chunks, last, trailing := DecodedIsWire(build, body);
      assert Encodes(chunks, last, trailing, body, payload);
    }
    if IsWire(body, payload) {
      var chunks, last, trailing :| Encodes(chunks, last, trailing, body, payload);
      WireDecodes(build, chunks, last, trailing);
    }
  }

  // ---------- the usual encoder ----------

  lemma DigitsAscii(n: nat)
    ensures Ascii(Digits(n, 16))
  {
  }

  function HexLine(n: nat): seq<Byte> {
    DigitsAscii(n);
    AsciiBytes(Digits(n, 16))
  }

  lemma HexLineIsStandard(n: nat)
    ensures StandardLine(HexLine(n), n)
  {
    var s, line := Digits(n, 16), HexLine(n);
    DigitsAscii(n);
    DigitsRoundTrip(n, 16);
    DigitsValueIsNumber(s);
    forall i | 0 <= i < |s|
      ensures line[i] == Codes(s)[i]
    {
      AsciiByteAt(s, i);
    }
    assert line == Codes(s);
    assert StandardParts(line, n, line, []);
  }

  /** A size written in hexadecimal is read back. */
  lemma HexLineSays(n: nat)
    requires n <= USIZE_MAX
    ensures LineSays(HexLine(n), n)
  {
    DigitsAscii(n);
    AsciiRoundTrip(Digits(n, 16));
    HexLineIsStandard(n);
    StandardLineSays(HexLine(n), n);
  }

  function HexChunks(datas: seq<seq<Byte>>): seq<WireChunk> {
    seq(|datas|, i requires 0 <= i < |datas| => WireChunk(HexLine(|datas[i]|), datas[i]))
  }

  /** Chunked round trip: whatever the chunks and whatever follows the zero chunk. */
  lemma RoundTrip(build: Build, datas: seq<seq<Byte>>, trailing: seq<Byte>)
    requires forall i :: 0 <= i < |datas| ==> 0 < |datas[i]| <= USIZE_MAX - 2
    ensures ChunkedBody(build, Wire(HexChunks(datas), HexLine(0)) + trailing) == Body(Concat(datas))
  {
    var chunks := HexChunks(datas);
    forall i | 0 <= i < |chunks|
      ensures WellFormed(chunks[i])
    {
      HexLineSays(|datas[i]|);
    }
    HexLineSays(0);
    WireDecodes(build, chunks, HexLine(0), trailing);
    PayloadIsConcat(datas);
  }

  lemma {:induction false} PayloadIsConcat(datas: seq<seq<Byte>>)
    ensures Payload(HexChunks(datas)) == Concat(datas)
  {
    if datas != [] {
      assert HexChunks(datas)[1..] == HexChunks(datas[1..]);
      PayloadIsConcat(datas[1..]);
    }
  }

  // ---------- bodies of the standard ----------

  ghost predicate StandardChunk(c: WireChunk) {
    0 < |c.data| <= USIZE_MAX - 2 && StandardLine(c.line, |c.data|)
  }

  /** Every size line is UTF-8. */
  predicate AllText(chunks: seq<WireChunk>, last: seq<Byte>) {
    if chunks == [] then Decode(last).Some? else Decode(chunks[0].line).Some? && AllText(chunks[1..], last)
  }

  lemma StandardLineSays(line: seq<Byte>, n: nat)
    requires StandardLine(line, n) && n <= USIZE_MAX
    ensures LineSays(line, n) <==> Decode(line).Some?
  {
    StandardLineEnds(line, n);
    StandardLineIsRead(line, n);
  }

  lemma NotTextStops(build: Build, line: seq<Byte>, n: nat, rest: seq<Byte>)
    requires StandardLine(line, n) && Decode(line).None?
    ensures FrontOf(build, line + CRLF + rest) == Stop(Fail(NotUtf8))
  {
    StandardLineEnds(line, n);
    FindStable<Byte>(line + CRLF, CRLF, rest);
    assert (line + CRLF + rest)[..|line|] == line;
  }

  /** A chunked body of the standard decodes to its payload exactly when its size lines are UTF-8. */
  lemma {:induction false} StandardDecodes(build: Build, chunks: seq<WireChunk>, last: seq<Byte>, trailing: seq<Byte>)
    requires forall i :: 0 <= i < |chunks| ==> StandardChunk(chunks[i])
    requires StandardLine(last, 0)
    ensures ChunkedBody(build, Wire(chunks, last) + trailing) ==
            if AllText(chunks, last) then Body(Payload(chunks)) else Fail(NotUtf8)
    decreases |chunks|
  {
    if chunks == [] {
      StandardLineSays(last, 0);
      if Decode(last).Some? {
        LineFound(last, 0, trailing);
      } else {
        NotTextStops(build, last, 0, trailing);
      }
    } else {
      var c := chunks[0];
      var rest := Wire(chunks[1..], last) + trailing;
      WireHead(chunks, last, trailing);
      StandardLineSays(c.line, |c.data|);
      if Decode(c.line).Some? {
        ChunkFound(build, c, rest);
        StandardDecodes(build, chunks[1..], last, trailing);
      } else {
        NotTextStops(build, c.line, |c.data|, c.data + CRLF + rest);
      }
    }
  }

  lemma WireHead(chunks: seq<WireChunk>, last: seq<Byte>, trailing: seq<Byte>)
    requires chunks != []
    ensures var c, rest := chunks[0], Wire(chunks[1..], last) + trailing;
            Wire(chunks, last) + trailing == c.line + CRLF + (c.data + CRLF + rest)
  {
  }

  // ---------- bodies that panic ----------

  /**
   * After some well-formed chunks, a line with one of the two largest sizes; a build that wraps gets past the
   * larger of them when nothing follows the line.
   */
  ghost predicate Oversize(
    build: Build, chunks: seq<WireChunk>, line: seq<Byte>, n: nat, rest: seq<Byte>, body: seq<Byte>)
  {
    && AllWellFormed(chunks) && LineSays(line, n) && n + 2 > USIZE_MAX
    && body == Wire(chunks, line) + rest
    && (build.Checked? || n == USIZE_MAX - 1 || rest != [])
  }

  lemma {:induction false} OversizePanics(
    build: Build, chunks: seq<WireChunk>, line: seq<Byte>, n: nat, rest: seq<Byte>, body: seq<Byte>)
    requires Oversize(build, chunks, line, n, rest, body)
    ensures ChunkedBody(build, body) == Panic
    decreases |chunks|
  {
    if chunks == [] {
      LineFound(line, n, rest);
    } else {
      var after := Wire(chunks[1..], line) + rest;
      WireHead(chunks, line, rest);
      ChunkFound(build, chunks[0], after);
      OversizePanics(build, chunks[1..], line, n, rest, after);
    }
  }

  lemma PanicFront(build: Build, body: seq<Byte>) returns (line: seq<Byte>, n: nat, rest: seq<Byte>)
    requires FrontOf(build, body) == Stop(Panic)
    ensures Oversize(build, [], line, n, rest, body)
  {
    line, rest := LineCut(body);
    n := SizeOn(line).size;
    SizeLineIff(line, n);
  }

  lemma {:induction false} PanicHasOversize(build: Build, body: seq<Byte>)
    returns (chunks: seq<WireChunk>, line: seq<Byte>, n: nat, rest: seq<Byte>)
    requires ChunkedBody(build, body) == Panic
    ensures Oversize(build, chunks, line, n, rest, body)
    decreases |body|
  {
    match FrontOf(build, body)
    case Stop(_) =>
      chunks := [];
      line, n, rest := PanicFront(build, body);
    case Chunk(data, after) =>
      var first, _ := FrontIsWire(build, body);
      chunks, line, n, rest := PanicHasOversize(build, after);
      WireCons(WireChunk(first, data), chunks, line, rest);
      chunks := [WireChunk(first, data)] + chunks;
  }

  ghost predicate Overflows(build: Build, body: seq<Byte>) {
    exists chunks, line, n, rest :: Oversize(build, chunks, line, n, rest, body)
  }

  /** The decoder panics on exactly the bodies whose declared size overflows. */
  lemma PanicIff(build: Build, body: seq<Byte>)
    ensures ChunkedBody(build, body) == Panic <==> Overflows(build, body)
  {
    if ChunkedBody(build, body) == Panic {
      var chunks, line, n, rest := PanicHasOversize(build, body);
    }
    if Overflows(build, body) {
      var chunks, line, n, rest :| Oversize(build, chunks, line, n, rest, body);
      OversizePanics(build, chunks, line, n, rest, body);
    }
  }

  /** A body that declares one less than the largest size panics in every build. */
  lemma LargeSizePanics(build: Build)
    ensures ChunkedBody(build, HexLine(USIZE_MAX - 1) + CRLF) == Panic
  {
    var line := HexLine(USIZE_MAX - 1);
    HexLineSays(USIZE_MAX - 1);
    assert line + CRLF == Wire([], line) + [];
    OversizePanics(build, [], line, USIZE_MAX - 1, [], line + CRLF);
  }

  lemma BodyPanicsIff(build: Build, framing: Framing, body: seq<Byte>)
    ensures ParseBody(build, framing, body, true) == Panic <==> framing == Chunked && Overflows(build, body)
  {
    PanicIff(build, body);
  }

  /** Reading a response crashes exactly when its head asks for a chunked body and that body overflows. */
  lemma CrashIff(build: Build, stream: seq<Byte>)
    ensures Finish(Parse(build, stream, true)) == Crash <==>
            && Find<Byte>(stream, BLANK_LINE).Some?
            && var headEnd := Find<Byte>(stream, BLANK_LINE).value;
               FramingFor(stream[..headEnd]) == Chunked && Overflows(build, stream[headEnd + 4..])
  {
    match Find<Byte>(stream, BLANK_LINE)
    case None =>
    case Some(headEnd) => BodyPanicsIff(build, FramingFor(stream[..headEnd]), stream[headEnd + 4..]);
  }
}
