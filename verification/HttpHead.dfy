/** What a response head makes of the bytes after it, told from the bytes (sections 4 to 6 of RFC 9112). */
module HttpHead {
  import opened Collections
  import opened Text
  import opened Utf8
  import opened HttpReader
  import opened ChunkedCoding

  // ---------- heads ----------

  datatype Field = Field(name: string, value: string)

  /** A version word, a status code, what follows the code on its line, and the header fields. */
  datatype Head = Head(version: string, code: nat, reason: string, fields: seq<Field>)

  predicate Line(s: string) {
    Ascii(s) && '\r' !in s
  }

  ghost predicate Fields(fields: seq<Field>) {
    forall i :: 0 <= i < |fields| ==> Line(fields[i].name) && Line(fields[i].value) && ':' !in fields[i].name
  }

  /** The texts fit on lines, the version is one word, and the reason does not run into the code. */
  ghost predicate Proper(h: Head) {
    && Line(h.version) && h.version != "" && (forall c :: c in h.version ==> !IsSpace(c))
    && Line(h.reason) && (h.reason != "" ==> IsSpace(h.reason[0]))
    && Fields(h.fields)
  }

  function StatusLine(h: Head): string {
    h.version + " " + Digits(h.code, 10) + h.reason
  }

  function FieldLine(f: Field): string {
    f.name + ":" + f.value
  }

  /** The status line, and each field on a line of its own. */
  function Lines(first: string, fields: seq<Field>): string {
    if fields == [] then first
    else Lines(first, fields[..|fields| - 1]) + "\r\n" + FieldLine(fields[|fields| - 1])
  }

  // ---------- the head is cut out and split into lines ----------

  /** No carriage return is the last but one of a blank line. */
  ghost predicate NoBlankLine(s: string) {
    forall k :: 0 <= k < |s| && s[k] == '\r' ==> k + 2 < |s| && s[k + 2] != '\r'
  }

  lemma {:induction false} LinesAreClean(first: string, fields: seq<Field>)
    requires Line(first) && Fields(fields)
    ensures Ascii(Lines(first, fields)) && NoBlankLine(Lines(first, fields))
  {
    if fields != [] {
      var n := |fields| - 1;
      var front, line := Lines(first, fields[..n]), FieldLine(fields[n]);
      LinesAreClean(first, fields[..n]);
      assert line[0] != '\r' && '\r' !in line by {
        assert line[0] in line;
      }
      CleanSnoc(front, line);
    }
  }

  lemma CleanSnoc(front: string, line: string)
    requires NoBlankLine(front) && Ascii(front) && Line(line) && line != ""
    ensures NoBlankLine(front + "\r\n" + line) && Ascii(front + "\r\n" + line)
  {
    var s := front + "\r\n" + line;
    assert forall k :: |front| + 2 <= k < |s| ==> s[k] == line[k - |front| - 2] && s[k] in line;
    assert s[|front| + 2] in line;
  }

  lemma StatusLineIsLine(h: Head)
    requires Proper(h)
    ensures Line(StatusLine(h))
  {
    assert forall c :: c in StatusLine(h) ==> c in h.version || c == ' ' || c in Digits(h.code, 10) || c in h.reason;
  }

  /** The bytes of a response with this head. */
  ghost function Response(h: Head, body: seq<Byte>): seq<Byte>
    requires Proper(h)
  {
    StatusLineIsLine(h);
    LinesAreClean(StatusLine(h), h.fields);
    AsciiBytes(Lines(StatusLine(h), h.fields)) + [13, 10, 13, 10] + body
  }

  /** No carriage return among the bytes is the last but one of a blank line. */
  ghost predicate NoBlankBytes(head: seq<Byte>) {
    forall k :: 0 <= k < |head| && head[k] == 13 ==> k + 2 < |head| && head[k + 2] != 13
  }

  lemma CleanBytes(s: string)
    requires Ascii(s) && NoBlankLine(s)
    ensures NoBlankBytes(AsciiBytes(s))
  {
    forall k | 0 <= k < |s|
      ensures AsciiBytes(s)[k] == s[k] as int
    {
      AsciiByteAt(s, k);
    }
  }

  lemma BlankLineBytes(bytes: seq<Byte>, k: int)
    requires OccursAt<Byte>(bytes, BLANK_LINE, k)
    ensures bytes[k] == 13 && bytes[k + 2] == 13
  {
    assert bytes[k] == bytes[k..k + 4][0] && bytes[k + 2] == bytes[k..k + 4][2];
  }

  /** The blank line after the head is the first one. */
  lemma BlankLineFound(head: seq<Byte>, rest: seq<Byte>)
    requires NoBlankBytes(head) && BLANK_LINE <= rest
    ensures Find<Byte>(head + rest, BLANK_LINE) == Some(|head|)
  {
    var response := head + rest;
    assert response[|head|..|head| + 4] == rest[..4] == BLANK_LINE;
    forall k | 0 <= k < |head|
      ensures !OccursAt<Byte>(response, BLANK_LINE, k)
    {
      assert response[k] == head[k] && (k + 2 < |head| ==> response[k + 2] == head[k + 2]);
      if OccursAt<Byte>(response, BLANK_LINE, k) {
        BlankLineBytes(response, k);
      }
    }
    FindIs<Byte>(response, BLANK_LINE, |head|);
  }

  lemma CutAround(a: seq<Byte>, b: seq<Byte>, c: seq<Byte>)
    ensures (a + b + c)[..|a|] == a && (a + b + c)[|a| + |b|..] == c && a + b + c == a + (b + c)
  {
  }

  lemma HeadIsCut(s: string, body: seq<Byte>)
    requires Ascii(s) && NoBlankLine(s)
    ensures var response := AsciiBytes(s) + [13, 10, 13, 10] + body;
            && Find<Byte>(response, BLANK_LINE) == Some(|s|)
            && response[..|s|] == AsciiBytes(s) && response[|s| + 4..] == body
  {
    CutAround(AsciiBytes(s), [13, 10, 13, 10], body);
    CleanBytes(s);
    BlankLineFound(AsciiBytes(s), [13, 10, 13, 10] + body);
  }

  /** Another line at the end is another line of the split. */
  lemma {:induction false} SplitLinesSnoc(s: string, line: string)
    requires '\r' !in line
    ensures SplitLines(s + "\r\n" + line) == SplitLines(s) + [line]
    decreases |s|
  {
    var all, cut := s + "\r\n" + line, "\r\n" + line;
    assert all == s + cut;
    match Find(s, "\r\n")
    case Some(at) =>
      FindStable(s, "\r\n", cut);
      assert all[at + 2..] == s[at + 2..] + "\r\n" + line && all[..at] == s[..at];
      SplitLinesSnoc(s[at + 2..], line);
    case None =>
      FirstCut(s, line);
      assert all[..|s|] == s && all[|s| + 2..] == line;
      NoCut(line);
  }

  lemma NoCut(line: string)
    requires '\r' !in line
    ensures Find(line, "\r\n") == None
  {
    assert forall k :: OccursAt(line, "\r\n", k) ==> line[k] == line[k..k + 2][0] && line[k] in line;
  }

  lemma FirstCut(s: string, line: string)
    requires Find(s, "\r\n") == None
    ensures Find(s + "\r\n" + line, "\r\n") == Some(|s|)
  {
    var all := s + "\r\n" + line;
    FindIsLeftmost(s, "\r\n");
    assert all[|s|..|s| + 2] == "\r\n";
    forall k | 0 <= k < |s|
      ensures !OccursAt(all, "\r\n", k)
    {
      if k + 2 <= |s| {
        assert all[k..k + 2] == s[k..k + 2] && !OccursAt(s, "\r\n", k);
      } else {
        assert all[k..k + 2][1] == all[|s|] == '\r';
      }
    }
    FindIs(all, "\r\n", |s|);
  }

  function FieldLines(fields: seq<Field>): seq<string> {
    seq(|fields|, i requires 0 <= i < |fields| => FieldLine(fields[i]))
  }

  lemma {:induction false} LinesAreSplit(first: string, fields: seq<Field>)
    requires Line(first) && Fields(fields)
    ensures SplitLines(Lines(first, fields)) == [first] + FieldLines(fields)
  {
    if fields == [] {
      NoCut(first);
    } else {
      var n := |fields| - 1;
      LinesAreSplit(first, fields[..n]);
      SplitLinesSnoc(Lines(first, fields[..n]), FieldLine(fields[n]));
      FieldLinesSnoc(fields, n);
    }
  }

  lemma FieldLinesSnoc(fields: seq<Field>, n: nat)
    requires |fields| == n + 1
    ensures FieldLines(fields) == FieldLines(fields[..n]) + [FieldLine(fields[n])]
  {
  }

  // ---------- the status ----------

  lemma {:induction false} WordIsTaken(word: string, rest: string)
    requires forall c :: c in word ==> !IsSpace(c)
    requires rest != "" ==> IsSpace(rest[0])
    ensures TakeWord(word + rest) == word && DropWord(word + rest) == rest
  {
    if word == "" {
      assert word + rest == rest;
    } else {
      assert word[0] in word && (word + rest)[1..] == word[1..] + rest;
      assert forall c :: c in word[1..] ==> c in word;
      WordIsTaken(word[1..], rest);
    }
  }

  lemma WordIsSecond(version: string, word: string, reason: string)
    requires version != "" && word != "" && forall c :: c in version + word ==> !IsSpace(c)
    requires reason != "" ==> IsSpace(reason[0])
    ensures SecondWord(version + " " + word + reason) == Some(word)
  {
    var line, rest := version + " " + word + reason, word + reason;
    assert version[0] in version + word && word[0] in version + word;
    assert forall c :: c in version || c in word ==> c in version + word;
    assert line == version + (" " + rest);
    WordIsTaken(version, " " + rest);
    WordIsTaken(word, reason);
    assert TrimStart(line) == line && DropWord(line) == " " + rest;
    assert TrimStart(" " + rest) == rest by {
      assert (" " + rest)[0] == ' ' && (" " + rest)[1..] == rest && rest[0] == word[0];
    }
  }

  /** The second word of the status line is the code. */
  lemma CodeIsSecond(h: Head)
    requires Proper(h)
    ensures SecondWord(StatusLine(h)) == Some(Digits(h.code, 10))
  {
    WordIsSecond(h.version, Digits(h.code, 10), h.reason);
  }

  lemma DigitsParse(n: nat, max: nat)
    ensures ParseUnsigned(Digits(n, 10), 10, max) == if n <= max then Some(n) else None
  {
    DigitsRoundTrip(n, 10);
    assert Digits(n, 10)[0] in Digits(n, 10);
  }

  // ---------- the fields ----------

  /** The name of a field, blanks around it removed and letters folded. */
  function FoldedName(f: Field): string {
    AsciiLower(Trim(f.name))
  }

  function Names(fields: seq<Field>): seq<string> {
    seq(|fields|, i requires 0 <= i < |fields| => FoldedName(fields[i]))
  }

  lemma NamesSnoc(fields: seq<Field>, n: nat)
    requires |fields| == n + 1
    ensures Names(fields) == Names(fields[..n]) + [FoldedName(fields[n])]
  {
  }

  lemma LastInSnoc<T>(s: seq<T>, y: T, x: T, i: int)
    ensures LastIn(s + [y], x, i) <==> if x == y then i == |s| else LastIn(s, x, i)
  {
    var all := s + [y];
    assert all[|s|] == y && forall j :: 0 <= j < |s| ==> all[j] == s[j];
    if LastIn(s, x, i) && x != y {
      assert LastIn(all, x, i);
    }
  }

  /** The last occurrence of a member. */
  ghost predicate LastIn<T>(s: seq<T>, x: T, i: int) {
    0 <= i < |s| && s[i] == x && forall j :: i < j < |s| ==> s[j] != x
  }

  lemma HeaderValueSnoc(fields: seq<Field>, name: string)
    requires fields != [] && Fields(fields)
    ensures var front, f := fields[..|fields| - 1], fields[|fields| - 1];
            HeaderValue(FieldLines(fields), name)
            == if FoldedName(f) == name then Some(Trim(f.value)) else HeaderValue(FieldLines(front), name)
  {
    var n := |fields| - 1;
    var lines := FieldLines(fields);
    assert lines[..n] == FieldLines(fields[..n]) && lines[n] == FieldLine(fields[n]);
    SplitOnceAt(fields[n].name, ':', fields[n].value);
  }

  lemma {:induction false} LastNamedIsRead(fields: seq<Field>, name: string) returns (i: int)
    requires Fields(fields)
    ensures var value := HeaderValue(FieldLines(fields), name);
            if value.Some? then LastIn(Names(fields), name, i) && value.value == Trim(fields[i].value)
            else name !in Names(fields)
  {
    i := |fields| - 1;
    if fields != [] {
      var n := i;
      HeaderValueSnoc(fields, name);
      NamesSnoc(fields, n);
      if FoldedName(fields[n]) != name {
        i := LastNamedIsRead(fields[..n], name);
      }
      LastInSnoc(Names(fields[..n]), FoldedName(fields[n]), name, i);
    }
  }

  /** The last transfer encoding lists chunked. */
  ghost predicate SaysChunked(fields: seq<Field>) {
    exists i :: LastIn(Names(fields), "transfer-encoding", i)
      && exists item :: item in Split(Trim(fields[i].value), ',') && AsciiLower(Trim(item)) == "chunked"
  }

  lemma ChunkedIsFolded()
    ensures AsciiLower("chunked") == "chunked"
  {
  }

  lemma ChunkedIsSaid(fields: seq<Field>)
    requires Fields(fields)
    ensures var value := HeaderValue(FieldLines(fields), TRANSFER_ENCODING);
            value.Some? && NamesChunked(value.value) <==> SaysChunked(fields)
  {
    ChunkedIsFolded();
    var value := HeaderValue(FieldLines(fields), TRANSFER_ENCODING);
    var i := LastNamedIsRead(fields, TRANSFER_ENCODING);
    if value.Some? {
      assert forall j :: LastIn(Names(fields), TRANSFER_ENCODING, j) ==> j == i;
    }
  }

  // ---------- what the head decides ----------

  /** The framing, from the parts of the head. */
  function FramingBy(h: Head): Framing {
    match StatusError(StatusLine(h))
    case Some(error) => HeadError(error)
    case None =>
      var lines := FieldLines(h.fields);
      FramingOf(HeaderValue(lines, TRANSFER_ENCODING), HeaderValue(lines, CONTENT_LENGTH))
  }

  lemma HeadIsRead(build: Build, h: Head, body: seq<Byte>, eof: bool)
    requires Proper(h)
    ensures Parse(build, Response(h, body), eof) == ParseBody(build, FramingBy(h), body, eof)
  {
    var first := StatusLine(h);
    var text := Lines(first, h.fields);
    StatusLineIsLine(h);
    LinesAreClean(first, h.fields);
    HeadIsCut(text, body);
    AsciiRoundTrip(text);
    LinesAreSplit(first, h.fields);
    assert ([first] + FieldLines(h.fields))[1..] == FieldLines(h.fields);
  }

  lemma StatusIsRead(h: Head)
    requires Proper(h)
    ensures StatusError(StatusLine(h))
         == if h.code == 200 then None
            else if h.code <= 0xFFFF then Some(UnexpectedStatus(h.code))
            else Some(BadStatusCode)
  {
    CodeIsSecond(h);
    DigitsParse(h.code, 0xFFFF);
  }

  /** A response with any other status than 200 fails with that status, whatever its fields and body. */
  lemma StatusDecides(build: Build, h: Head, body: seq<Byte>, eof: bool)
    requires Proper(h) && h.code != 200
    ensures Parse(build, Response(h, body), eof)
         == Fail(if h.code <= 0xFFFF then UnexpectedStatus(h.code) else BadStatusCode)
  {
    HeadIsRead(build, h, body, eof);
    StatusIsRead(h);
  }

  /** What is read of a head with any first line. */
  lemma LinesAreRead(build: Build, first: string, fields: seq<Field>, body: seq<Byte>, eof: bool)
    requires Line(first) && Fields(fields) && StatusError(first).Some?
    ensures Ascii(Lines(first, fields))
    ensures Parse(build, AsciiBytes(Lines(first, fields)) + [13, 10, 13, 10] + body, eof)
         == Fail(StatusError(first).value)
  {
    var text := Lines(first, fields);
    LinesAreClean(first, fields);
    HeadIsCut(text, body);
    AsciiRoundTrip(text);
    LinesAreSplit(first, fields);
  }

  /** A first line without a second word has no status code. */
  lemma MissingCodeFails(build: Build, word: string, blanks: string, fields: seq<Field>, body: seq<Byte>, eof: bool)
    requires Line(word + blanks) && Fields(fields) && Blank(blanks) && forall c :: c in word ==> !IsSpace(c)
    ensures Ascii(Lines(word + blanks, fields))
    ensures Parse(build, AsciiBytes(Lines(word + blanks, fields)) + [13, 10, 13, 10] + body, eof)
         == Fail(InvalidData(MissingStatusCode))
  {
    NoSecondWord(word, blanks);
    LinesAreRead(build, word + blanks, fields, body, eof);
  }

  lemma NoSecondWord(word: string, blanks: string)
    requires Blank(blanks) && forall c :: c in word ==> !IsSpace(c)
    ensures SecondWord(word + blanks) == None
  {
    TrimStartEmptyIffBlank(blanks);
    assert blanks != "" ==> blanks[0] in blanks;
    if word == "" {
      assert word + blanks == blanks;
    } else {
      assert word[0] in word && (word + blanks)[0] == word[0];
      WordIsTaken(word, blanks);
    }
  }

  /** A second word that is no number is a bad status code. */
  lemma BadCodeFails(
    build: Build, version: string, word: string, reason: string, fields: seq<Field>, body: seq<Byte>, eof: bool)
    requires Line(version) && Line(word) && Line(reason) && Fields(fields) && version != "" && word != ""
    requires forall c :: c in version + word ==> !IsSpace(c)
    requires reason != "" ==> IsSpace(reason[0])
    requires exists c :: c in word && c != '+' && !('0' <= c <= '9')
    ensures Ascii(Lines(version + " " + word + reason, fields))
    ensures Parse(build, AsciiBytes(Lines(version + " " + word + reason, fields)) + [13, 10, 13, 10] + body, eof)
         == Fail(BadStatusCode)
  {
    var first := version + " " + word + reason;
    assert Line(first) by {
      assert forall c :: c in first ==> c in version || c == ' ' || c in word || c in reason;
    }
    WordIsSecond(version, word, reason);
    NotParsed(word, 0xFFFF);
    LinesAreRead(build, first, fields, body, eof);
  }

  /** With a chunked transfer encoding the result is the chunked payload, whatever the content length says. */
  lemma ChunkedDecides(build: Build, h: Head, body: seq<Byte>, eof: bool, payload: seq<Byte>)
    requires Proper(h) && h.code == 200 && SaysChunked(h.fields)
    ensures Parse(build, Response(h, body), eof) == ChunkedBody(build, body)
    ensures Parse(build, Response(h, body), eof) == Body(payload) <==> IsWire(body, payload)
  {
    HeadIsRead(build, h, body, eof);
    StatusIsRead(h);
    ChunkedIsSaid(h.fields);
    DecodedIff(build, body, payload);
  }

  /** The last content length, blanks around it removed. */
  ghost predicate SaysLength(fields: seq<Field>, value: string) {
    exists i :: LastIn(Names(fields), "content-length", i) && Trim(fields[i].value) == value
  }

  lemma LengthIsSaid(fields: seq<Field>, value: string)
    requires Fields(fields) && SaysLength(fields, value)
    ensures HeaderValue(FieldLines(fields), "content-length") == Some(value)
  {
    var j := LastNamedIsRead(fields, "content-length");
  }

  lemma PlainBodyIsRead(build: Build, h: Head, body: seq<Byte>, eof: bool, value: string)
    requires Proper(h) && h.code == 200 && !SaysChunked(h.fields) && SaysLength(h.fields, value)
    ensures Parse(build, Response(h, body), eof)
         == match ParseUnsigned(value, 10, 0xFFFF_FFFF_FFFF_FFFF)
            case None => Fail(InvalidData(InvalidContentLength))
            case Some(n) => if |body| < n then Fail(UnexpectedEof(ShortBody(n, |body|))) else Body(body[..n])
  {
    HeadIsRead(build, h, body, eof);
    StatusIsRead(h);
    ChunkedIsSaid(h.fields);
    LengthIsSaid(h.fields, value);
  }

  /** Otherwise the last content length decides: that many bytes, once they are there. */
  lemma LengthDecides(build: Build, h: Head, body: seq<Byte>, eof: bool, n: nat)
    requires Proper(h) && h.code == 200 && !SaysChunked(h.fields) && SaysLength(h.fields, Digits(n, 10))
    ensures Parse(build, Response(h, body), eof)
         == if n > 0xFFFF_FFFF_FFFF_FFFF then Fail(InvalidData(InvalidContentLength))
            else if |body| < n then Fail(UnexpectedEof(ShortBody(n, |body|)))
            else Body(body[..n])
  {
    PlainBodyIsRead(build, h, body, eof, Digits(n, 10));
    DigitsParse(n, 0xFFFF_FFFF_FFFF_FFFF);
  }

  /** A content length that is empty or has a character that is neither a digit nor a plus sign is an error. */
  lemma BadLengthFails(build: Build, h: Head, body: seq<Byte>, eof: bool, value: string)
    requires Proper(h) && h.code == 200 && !SaysChunked(h.fields) && SaysLength(h.fields, value)
    requires value == "" || exists c :: c in value && c != '+' && !('0' <= c <= '9')
    ensures Parse(build, Response(h, body), eof) == Fail(InvalidData(InvalidContentLength))
  {
    PlainBodyIsRead(build, h, body, eof, value);
    NotParsed(value, 0xFFFF_FFFF_FFFF_FFFF);
  }

  lemma NotParsed(value: string, max: nat)
    requires value == "" || exists c :: c in value && c != '+' && !('0' <= c <= '9')
    ensures ParseUnsigned(value, 10, max) == None
  {
    if value != "" {
      var c :| c in value && c != '+' && !('0' <= c <= '9');
      NoNumber(value, c);
      if value[0] == '+' {
        assert value == [value[0]] + value[1..];
        NoNumber(value[1..], c);
      }
    }
  }

  lemma {:induction false} NoNumber(s: string, c: char)
    requires c in s && !('0' <= c <= '9')
    ensures DigitsValue(s, 10) == None
  {
    var n := |s| - 1;
    if s[n] != c {
      assert s == s[..n] + [s[n]];
      NoNumber(s[..n], c);
    }
  }

  /** With neither, the body is everything up to the end of the stream, and waits for that end. */
  lemma CloseDecides(build: Build, h: Head, body: seq<Byte>, eof: bool)
    requires Proper(h) && h.code == 200 && !SaysChunked(h.fields) && "content-length" !in Names(h.fields)
    ensures Parse(build, Response(h, body), eof)
         == if eof then Body(body) else Fail(UnexpectedEof(UncommittedBody))
  {
    HeadIsRead(build, h, body, eof);
    StatusIsRead(h);
    ChunkedIsSaid(h.fields);
    var j := LastNamedIsRead(h.fields, "content-length");
  }

  // ---------- over the stream ----------

  /** The caller gets the bytes as text, if they are. */
  ghost predicate Delivers(outcome: Outcome, bytes: seq<Byte>) {
    && (forall text :: bytes == EncodedAll(text) ==> outcome == Outcome.Text(text))
    && ((forall text :: bytes != EncodedAll(text)) ==> outcome == BodyNotUtf8)
  }

  /** What the response carries: its chunked payload, the bytes it counts, or all of them. */
  ghost predicate PayloadOf(h: Head, body: seq<Byte>, payload: seq<Byte>) {
    if SaysChunked(h.fields) then IsWire(body, payload)
    else if "content-length" !in Names(h.fields) then payload == body
    else
      && |payload| <= 0xFFFF_FFFF_FFFF_FFFF && payload <= body
      && SaysLength(h.fields, Digits(|payload|, 10))
  }

  lemma ChunkedPayload(build: Build, h: Head, body: seq<Byte>, payload: seq<Byte>)
    requires Proper(h) && h.code == 200 && SaysChunked(h.fields) && IsWire(body, payload)
    ensures Parse(build, Response(h, body), true) == Body(payload)
  {
    ChunkedDecides(build, h, body, true, payload);
  }

  lemma CountedPayload(build: Build, h: Head, body: seq<Byte>, payload: seq<Byte>)
    requires Proper(h) && h.code == 200 && !SaysChunked(h.fields)
    requires |payload| <= 0xFFFF_FFFF_FFFF_FFFF && payload <= body && SaysLength(h.fields, Digits(|payload|, 10))
    ensures Parse(build, Response(h, body), true) == Body(payload)
  {
    var n := |payload|;
    assert payload == body[..n];
    LengthDecides(build, h, body, true, n);
  }

  lemma PayloadIsRead(build: Build, h: Head, body: seq<Byte>, payload: seq<Byte>)
    requires Proper(h) && h.code == 200 && PayloadOf(h, body, payload)
    ensures Parse(build, Response(h, body), true) == Body(payload)
  {
    if SaysChunked(h.fields) {
      ChunkedPayload(build, h, body, payload);
    } else if "content-length" !in Names(h.fields) {
      CloseDecides(build, h, body, true);
    } else {
      CountedPayload(build, h, body, payload);
    }
  }

  lemma BytesAreDelivered(bytes: seq<Byte>)
    ensures Delivers(Finish(Body(bytes)), bytes)
  {
    forall text
      ensures Decode(bytes) == Some(text) <==> bytes == EncodedAll(text)
    {
      DecodeIff(bytes, text);
    }
    assert Decode(bytes).Some? ==> bytes == EncodedAll(Decode(bytes).value);
  }

  /** However a response is cut into reads, its payload is what the caller gets, or its status when that is not 200. */
  lemma OutcomeOfResponse(build: Build, packets: seq<seq<Byte>>, h: Head, body: seq<Byte>, payload: seq<Byte>)
    requires Proper(h) && Concat(packets) == Response(h, body)
    requires forall i :: 0 <= i < |packets| ==> packets[i] != []
    ensures var outcome := Finish(Parse(build, Delivered(packets), true));
            && (h.code == 200 && PayloadOf(h, body, payload) ==> Delivers(outcome, payload))
            && (h.code != 200 && h.code <= 0xFFFF ==> outcome == Error(UnexpectedStatus(h.code)))
  {
    AnyCutDelivers(packets);
    if h.code != 200 {
      StatusDecides(build, h, body, true);
    } else if PayloadOf(h, body, payload) {
      PayloadIsRead(build, h, body, payload);
      BytesAreDelivered(payload);
    }
  }
}
