/**
 * The first line of a chunk: what the standard allows there (section 7.1 of RFC 9112) and what the decoder of
 * attachment.rs accepts, each defined without the other and without the decoder's own steps.
 */
module SizeLine {
  import opened Collections
  import opened Text
  import opened Utf8
  import opened HttpReader

  // ---------- hexadecimal numbers ----------

  /** HEXDIG of appendix B.1 of RFC 5234, in either case. */
  predicate HexDigit(x: int) {
    0x30 <= x <= 0x39 || 0x41 <= x <= 0x46 || 0x61 <= x <= 0x66
  }

  function HexDigitValue(x: int): nat
    requires HexDigit(x)
  {
    if x <= 0x39 then x - 0x30 else if x <= 0x46 then x - 0x37 else x - 0x57
  }

  function Pow16(n: nat): nat {
    if n == 0 then 1 else 16 * Pow16(n - 1)
  }

  predicate HexDigits(digits: seq<int>) {
    digits != [] && forall i :: 0 <= i < |digits| ==> HexDigit(digits[i])
  }

  /** The sum of the digits, each times the power of sixteen of its place. */
  function HexNumber(digits: seq<int>): nat
    requires forall i :: 0 <= i < |digits| ==> HexDigit(digits[i])
  {
    if digits == [] then 0
    else HexDigitValue(digits[0]) * Pow16(|digits| - 1) + HexNumber(digits[1..])
  }

  function Codes(s: string): (r: seq<int>)
    ensures |r| == |s|
  {
    seq(|s|, i requires 0 <= i < |s| => s[i] as int)
  }

  lemma {:induction false} HexNumberSnoc(digits: seq<int>, d: int)
    requires HexDigit(d) && forall i :: 0 <= i < |digits| ==> HexDigit(digits[i])
    ensures forall i :: 0 <= i < |digits + [d]| ==> HexDigit((digits + [d])[i])
    ensures HexNumber(digits + [d]) == 16 * HexNumber(digits) + HexDigitValue(d)
    decreases |digits|
  {
    if digits == [] {
      assert digits + [d] == [d] && [d][1..] == [];
      assert HexNumber([d]) == HexDigitValue(d) * Pow16(0) + HexNumber([]);
    } else {
      var rest := digits[1..];
      assert (digits + [d])[1..] == rest + [d];
      HexNumberSnoc(rest, d);
      ShiftPlace(HexDigitValue(digits[0]), Pow16(|rest|));
    }
  }

  lemma HexDigitsSnoc(digits: seq<int>, d: int)
    ensures HexDigits(digits + [d]) <==> (digits == [] || HexDigits(digits)) && HexDigit(d)
  {
    assert (digits + [d])[|digits|] == d;
    assert forall i :: 0 <= i < |digits| ==> (digits + [d])[i] == digits[i];
  }

  lemma ShiftPlace(v: nat, place: nat)
    ensures v * (16 * place) == 16 * (v * place)
  {
  }

  /** Reading digits from the left gives the sum over their places. */
  lemma {:induction false} DigitsValueIsNumber(s: string)
    ensures DigitsValue(s, 16).Some? <==> HexDigits(Codes(s))
    ensures HexDigits(Codes(s)) ==> DigitsValue(s, 16) == Some(HexNumber(Codes(s)))
    decreases |s|
  {
    if s != "" {
      var front, last := s[..|s| - 1], s[|s| - 1];
      DigitsValueIsNumber(front);
      assert Codes(s) == Codes(front) + [last as int];
      HexDigitsSnoc(Codes(front), last as int);
      if HexDigits(Codes(s)) {
        HexNumberSnoc(Codes(front), last as int);
      }
    }
  }

  // ---------- what the decoder accepts ----------

  /** White space, an optional plus sign, digits, white space, then nothing or a semicolon and anything. */
  datatype Shape = Shape(before: string, plus: bool, digits: string, after: string, tail: string)

  function Core(shape: Shape): string {
    (if shape.plus then "+" else "") + shape.digits
  }

  function Written(shape: Shape): string {
    shape.before + Core(shape) + shape.after + shape.tail
  }

  ghost predicate ShapeSays(shape: Shape, n: nat) {
    && Blank(shape.before) && Blank(shape.after)
    && HexDigits(Codes(shape.digits)) && HexNumber(Codes(shape.digits)) == n
    && (shape.tail == "" || shape.tail[0] == ';')
  }

  ghost predicate TextSays(text: string, n: nat) {
    exists shape :: text == Written(shape) && ShapeSays(shape, n)
  }

  /** The line is UTF-8 text of that shape whose number fits. */
  ghost predicate Says(line: seq<Byte>, n: nat) {
    n <= USIZE_MAX && Decode(line).Some? && TextSays(Decode(line).value, n)
  }

  /** Trimming takes off white space and nothing else. */
  lemma {:induction false} TrimStartParts(s: string) returns (before: string)
    ensures Blank(before) && s == before + TrimStart(s)
  {
    before := "";
    if s != "" && IsSpace(s[0]) {
      var more := TrimStartParts(s[1..]);
      before := [s[0]] + more;
      assert s == [s[0]] + s[1..];
    }
  }

  lemma {:induction false} TrimEndParts(s: string) returns (after: string)
    ensures Blank(after) && s == TrimEnd(s) + after
  {
    after := "";
    if s != "" && IsSpace(s[|s| - 1]) {
      var less := TrimEndParts(s[..|s| - 1]);
      after := less + [s[|s| - 1]];
      assert s == s[..|s| - 1] + [s[|s| - 1]];
    }
  }

  /** Text that begins and ends with no white space is what trimming leaves of it. */
  lemma {:induction false} TrimStartOf(before: string, core: string)
    requires Blank(before) && core != "" && !IsSpace(core[0])
    ensures TrimStart(before + core) == core
    decreases |before|
  {
    if before == "" {
      assert before + core == core;
    } else {
      assert before[0] in before && forall c :: c in before[1..] ==> c in before;
      assert (before + core)[1..] == before[1..] + core;
      TrimStartOf(before[1..], core);
    }
  }

  lemma {:induction false} TrimEndOf(core: string, after: string)
    requires Blank(after) && core != "" && !IsSpace(core[|core| - 1])
    ensures TrimEnd(core + after) == core
    decreases |after|
  {
    if after == "" {
      assert core + after == core;
    } else {
      var n := |after| - 1;
      assert after[n] in after && forall c :: c in after[..n] ==> c in after;
      assert (core + after)[..|core + after| - 1] == core + after[..n];
      TrimEndOf(core, after[..n]);
    }
  }

  lemma TrimOf(before: string, core: string, after: string)
    requires Blank(before) && Blank(after) && core != "" && !IsSpace(core[0]) && !IsSpace(core[|core| - 1])
    ensures Trim(before + core + after) == core
  {
    assert before + core + after == before + (core + after);
    TrimStartOf(before, core + after);
    TrimEndOf(core, after);
  }

  lemma {:induction false} SplitHead(head: string, tail: string)
    requires ';' !in head && (tail == "" || tail[0] == ';')
    ensures Split(head + tail, ';')[0] == head
    decreases |head|
  {
    if head == "" {
      assert head + tail == tail;
    } else {
      assert head == [head[0]] + head[1..];
      assert (head + tail)[1..] == head[1..] + tail;
      SplitHead(head[1..], tail);
    }
  }

  lemma CoreParses(shape: Shape, n: nat)
    requires ShapeSays(shape, n)
    ensures Core(shape) != "" && !IsSpace(Core(shape)[0]) && !IsSpace(Core(shape)[|Core(shape)| - 1])
    ensures ';' !in Core(shape)
    ensures ParseUnsigned(Core(shape), 16, USIZE_MAX) == if n <= USIZE_MAX then Some(n) else None
  {
    var digits, core := shape.digits, Core(shape);
    DigitsValueIsNumber(digits);
    HexIsPlain(digits, 0);
    HexIsPlain(digits, |digits| - 1);
    forall i | 0 <= i < |digits|
      ensures digits[i] != ';'
    {
      HexIsPlain(digits, i);
    }
    if shape.plus {
      assert core[1..] == digits && core[0] == '+';
    } else {
      assert core == digits;
    }
  }

  /** A hexadecimal digit is no white space and no punctuation. */
  lemma HexIsPlain(digits: string, i: nat)
    requires HexDigits(Codes(digits)) && i < |digits|
    ensures !IsSpace(digits[i]) && digits[i] != ';' && digits[i] != '+'
  {
    assert HexDigit(Codes(digits)[i]);
  }

  lemma ShapeIsRead(text: string, shape: Shape, n: nat)
    requires text == Written(shape) && ShapeSays(shape, n)
    ensures ParseUnsigned(Trim(Split(text, ';')[0]), 16, USIZE_MAX) == if n <= USIZE_MAX then Some(n) else None
  {
    var core := Core(shape);
    CoreParses(shape, n);
    TrimOf(shape.before, core, shape.after);
    SplitHead(shape.before + core + shape.after, shape.tail);
  }

  lemma ReadHasShape(text: string, n: nat) returns (shape: Shape)
    requires ParseUnsigned(Trim(Split(text, ';')[0]), 16, USIZE_MAX) == Some(n)
    ensures text == Written(shape) && ShapeSays(shape, n)
  {
    var head := Split(text, ';')[0];
    var tail := text[|head|..];
    var before, after := TrimParts(head);
    var plus, digits := CoreHasShape(Trim(head), n);
    shape := Shape(before, plus, digits, after, tail);
    assert text == head + tail;
  }

  lemma TrimParts(s: string) returns (before: string, after: string)
    ensures Blank(before) && Blank(after) && s == before + Trim(s) + after
  {
    before := TrimStartParts(s);
    after := TrimEndParts(TrimStart(s));
    assert before + (Trim(s) + after) == before + Trim(s) + after;
  }

  lemma CoreHasShape(core: string, n: nat) returns (plus: bool, digits: string)
    requires ParseUnsigned(core, 16, USIZE_MAX) == Some(n)
    ensures core == (if plus then "+" else "") + digits
    ensures HexDigits(Codes(digits)) && HexNumber(Codes(digits)) == n
  {
    plus := core != "" && core[0] == '+';
    digits := if plus then core[1..] else core;
    DigitsValueIsNumber(digits);
  }

  /** The decoder reads a size off a line exactly when the line has that shape. */
  lemma SizeLineIff(line: seq<Byte>, n: nat)
    ensures SizeOn(line) == Size(n) <==> Says(line, n)
  {
    match Decode(line)
    case None =>
    case Some(text) =>
      if SizeOn(line) == Size(n) {
        var shape := ReadHasShape(text, n);
      }
      if TextSays(text, n) {
        var shape :| text == Written(shape) && ShapeSays(shape, n);
        ShapeIsRead(text, shape, n);
      }
  }

  /** Any other line is an error: not text, or not a size. */
  lemma OtherLineFails(line: seq<Byte>)
    ensures SizeOn(line) == BadSize(NotUtf8) <==> forall text :: line != EncodedAll(text)
    ensures SizeOn(line) == BadSize(InvalidData(InvalidChunkSize)) <==>
            (exists text :: line == EncodedAll(text)) && forall n :: !Says(line, n)
  {
    forall n
      ensures SizeOn(line) == Size(n) <==> Says(line, n)
    {
      SizeLineIff(line, n);
    }
    forall text
      ensures Decode(line) == Some(text) <==> line == EncodedAll(text)
    {
      DecodeIff(line, text);
    }
    assert SizeOn(line).Size? ==> Says(line, SizeOn(line).size);
    assert Decode(line).Some? ==> line == EncodedAll(Decode(line).value);
  }

  // ---------- what the standard allows ----------

  const SEMICOLON: Byte := 0x3B
  const EQUALS: Byte := 0x3D
  const QUOTE: Byte := 0x22
  const BACKSLASH: Byte := 0x5C
  const CARRIAGE_RETURN: Byte := 0x0D

  /** BWS of section 5.6.3 of RFC 9110. */
  ghost predicate Bws(s: seq<Byte>) {
    forall b :: b in s ==> b == 0x20 || b == 0x09
  }

  /** tchar of section 5.6.2 of RFC 9110. */
  predicate TokenByte(b: Byte) {
    || b == 0x21 || 0x23 <= b <= 0x27 || b == 0x2A || b == 0x2B || b == 0x2D || b == 0x2E
    || 0x30 <= b <= 0x39 || 0x41 <= b <= 0x5A || 0x5E <= b <= 0x7A || b == 0x7C || b == 0x7E
  }

  ghost predicate Token(s: seq<Byte>) {
    s != [] && forall b :: b in s ==> TokenByte(b)
  }

  /** A byte that may follow a backslash in a quoted string (section 5.6.4 of RFC 9110). */
  predicate Quotable(b: Byte) {
    b == 0x09 || 0x20 <= b <= 0x7E || b >= 0x80
  }

  /** Quoted text and quoted pairs, up to the closing quote. */
  predicate QuotedText(s: seq<Byte>) {
    if s == [] then true
    else if s[0] == BACKSLASH then |s| > 1 && Quotable(s[1]) && QuotedText(s[2..])
    else Quotable(s[0]) && s[0] != QUOTE && QuotedText(s[1..])
  }

  datatype ExtensionValue =
    | TokenValue(token: seq<Byte>)
    | QuotedValue(quoted: seq<Byte>)

  /** One chunk extension: a semicolon and a name, and perhaps an equals sign and a value, with BWS around. */
  datatype Extension =
    | NameOnly(before: seq<Byte>, gap: seq<Byte>, name: seq<Byte>)
    | WithValue(before: seq<Byte>, gap: seq<Byte>, name: seq<Byte>,
                left: seq<Byte>, right: seq<Byte>, value: ExtensionValue)

  ghost predicate ValueOk(value: ExtensionValue) {
    match value
    case TokenValue(token) => Token(token)
    case QuotedValue(quoted) => QuotedText(quoted)
  }

  ghost predicate ExtensionOk(e: Extension) {
    Bws(e.before) && Bws(e.gap) && Token(e.name) &&
    (e.WithValue? ==> Bws(e.left) && Bws(e.right) && ValueOk(e.value))
  }

  function ValueBytes(value: ExtensionValue): seq<Byte> {
    match value
    case TokenValue(token) => token
    case QuotedValue(quoted) => [QUOTE] + quoted + [QUOTE]
  }

  function AfterSemicolon(e: Extension): seq<Byte> {
    match e
    case NameOnly(_, gap, name) => gap + name
    case WithValue(_, gap, name, left, right, value) => gap + name + left + [EQUALS] + right + ValueBytes(value)
  }

  function ExtensionBytes(e: Extension): seq<Byte> {
    e.before + [SEMICOLON] + AfterSemicolon(e)
  }

  function ExtensionsBytes(es: seq<Extension>): seq<Byte> {
    if es == [] then [] else ExtensionBytes(es[0]) + ExtensionsBytes(es[1..])
  }

  ghost predicate StandardParts(line: seq<Byte>, n: nat, digits: seq<Byte>, es: seq<Extension>) {
    && line == digits + ExtensionsBytes(es)
    && HexDigits(digits) && HexNumber(digits) == n
    && forall i :: 0 <= i < |es| ==> ExtensionOk(es[i])
  }

  /** chunk-size and chunk-ext of section 7.1 of RFC 9112: hexadecimal digits of value `n`, then extensions. */
  ghost predicate StandardLine(line: seq<Byte>, n: nat) {
    exists digits, es :: StandardParts(line, n, digits, es)
  }

  // ---------- standard lines are read ----------

  lemma {:induction false} QuotedTextHasNoReturn(s: seq<Byte>)
    requires QuotedText(s)
    ensures CARRIAGE_RETURN !in s
    decreases |s|
  {
    if s != [] {
      if s[0] == BACKSLASH {
        QuotedTextHasNoReturn(s[2..]);
        assert s == [s[0], s[1]] + s[2..];
      } else {
        QuotedTextHasNoReturn(s[1..]);
        assert s == [s[0]] + s[1..];
      }
    }
  }

  lemma ExtensionHasNoReturn(e: Extension)
    requires ExtensionOk(e)
    ensures CARRIAGE_RETURN !in ExtensionBytes(e)
  {
    if e.WithValue? && e.value.QuotedValue? {
      QuotedTextHasNoReturn(e.value.quoted);
    }
  }

  lemma {:induction false} ExtensionsHaveNoReturn(es: seq<Extension>)
    requires forall i :: 0 <= i < |es| ==> ExtensionOk(es[i])
    ensures CARRIAGE_RETURN !in ExtensionsBytes(es)
    decreases |es|
  {
    if es != [] {
      ExtensionHasNoReturn(es[0]);
      ExtensionsHaveNoReturn(es[1..]);
    }
  }

  lemma StandardHasNoReturn(line: seq<Byte>, n: nat)
    requires StandardLine(line, n)
    ensures CARRIAGE_RETURN !in line
  {
    var digits, es :| StandardParts(line, n, digits, es);
    ExtensionsHaveNoReturn(es);
    assert forall i :: 0 <= i < |digits| ==> digits[i] != CARRIAGE_RETURN;
  }

  /** A standard line is all there is before the CRLF that ends it. */
  lemma StandardLineEnds(line: seq<Byte>, n: nat)
    requires StandardLine(line, n)
    ensures Find<Byte>(line + CRLF, CRLF) == Some(|line|)
  {
    StandardHasNoReturn(line, n);
    forall k | 0 <= k < |line|
      ensures !OccursAt<Byte>(line + CRLF, CRLF, k)
    {
      assert line[k] in line;
      assert (line + CRLF)[k..k + 2][0] == line[k];
    }
    FindIs<Byte>(line + CRLF, CRLF, |line|);
  }

  function Chars(p: seq<Byte>): (r: string)
    requires forall b :: b in p ==> b < 128
    ensures |r| == |p|
  {
    seq(|p|, i requires 0 <= i < |p| => assert p[i] in p; p[i] as char)
  }

  function After(front: string, text: Option<string>): Option<string> {
    match text
    case None => None
    case Some(rest) => Some(front + rest)
  }

  lemma AfterTwice(a: string, b: string, text: Option<string>)
    ensures After(a, After(b, text)) == After(a + b, text)
  {
    if text.Some? {
      assert a + (b + text.value) == a + b + text.value;
    }
  }

  lemma DecodeAsciiOne(b: Byte, rest: seq<Byte>)
    requires b < 128
    ensures Decode([b] + rest) == After([b as char], Decode(rest))
  {
    assert ([b] + rest)[1..] == rest;
  }

  lemma {:induction false} DecodeAsciiFront(p: seq<Byte>, rest: seq<Byte>)
    requires forall b :: b in p ==> b < 128
    ensures Decode(p + rest) == After(Chars(p), Decode(rest))
    decreases |p|
  {
    if p == [] {
      assert p + rest == rest;
      assert Decode(rest).Some? ==> Chars(p) + Decode(rest).value == Decode(rest).value;
    } else {
      assert p[0] in p && forall b :: b in p[1..] ==> b in p;
      assert p + rest == [p[0]] + (p[1..] + rest);
      DecodeAsciiOne(p[0], p[1..] + rest);
      DecodeAsciiFront(p[1..], rest);
      assert Chars(p) == [p[0] as char] + Chars(p[1..]);
      AfterTwice([p[0] as char], Chars(p[1..]), Decode(rest));
    }
  }

  lemma HexIsAscii(digits: seq<Byte>)
    requires HexDigits(digits)
    ensures forall b :: b in digits ==> b < 128
    ensures Codes(Chars(digits)) == digits
  {
  }

  lemma BwsIsBlank(blank: seq<Byte>)
    requires Bws(blank)
    ensures (forall b :: b in blank ==> b < 128) && Blank(Chars(blank))
  {
    forall c | c in Chars(blank)
      ensures IsSpace(c)
    {
      var i :| 0 <= i < |blank| && Chars(blank)[i] == c;
      assert blank[i] in blank;
    }
  }

  lemma ExtensionsFront(es: seq<Extension>) returns (blank: seq<Byte>, rest: seq<Byte>)
    requires forall i :: 0 <= i < |es| ==> ExtensionOk(es[i])
    ensures ExtensionsBytes(es) == blank + rest && Bws(blank) && (rest == [] || rest[0] == SEMICOLON)
  {
    blank, rest := [], [];
    if es != [] {
      blank := es[0].before;
      rest := [SEMICOLON] + (AfterSemicolon(es[0]) + ExtensionsBytes(es[1..]));
      Regrouped(blank, [SEMICOLON], AfterSemicolon(es[0]), ExtensionsBytes(es[1..]));
      assert ExtensionOk(es[0]);
    }
  }

  lemma Regrouped(a: seq<Byte>, b: seq<Byte>, c: seq<Byte>, d: seq<Byte>)
    ensures a + b + c + d == a + (b + (c + d))
  {
  }

  /** Digits and BWS in front of nothing or a semicolon say the number, if the whole is UTF-8. */
  lemma DigitsSay(digits: seq<Byte>, blank: seq<Byte>, rest: seq<Byte>, text: string)
    requires HexDigits(digits) && Bws(blank) && (rest == [] || rest[0] == SEMICOLON)
    requires Decode(digits + blank + rest) == Some(text)
    ensures TextSays(text, HexNumber(digits))
  {
    HexIsAscii(digits);
    BwsIsBlank(blank);
    DecodeAsciiFront(digits + blank, rest);
    var tail := Decode(rest).value;
    FirstIsSemicolon(rest);
    var shape := Shape("", false, Chars(digits), Chars(blank), tail);
    assert Chars(digits + blank) == Chars(digits) + Chars(blank);
    assert Core(shape) == Chars(digits);
    assert text == Written(shape) && ShapeSays(shape, HexNumber(digits));
  }

  /** The decoder reads a standard line as its number exactly when the line is UTF-8 and the number fits. */
  lemma StandardLineIsRead(line: seq<Byte>, n: nat)
    requires StandardLine(line, n)
    ensures Says(line, n) <==> n <= USIZE_MAX && Decode(line).Some?
  {
    var digits, es :| StandardParts(line, n, digits, es);
    var blank, rest := ExtensionsFront(es);
    assert line == digits + blank + rest;
    if Decode(line).Some? {
      DigitsSay(digits, blank, rest, Decode(line).value);
    }
  }

  lemma FirstIsSemicolon(rest: seq<Byte>)
    requires Decode(rest).Some? && (rest == [] || rest[0] == SEMICOLON)
    ensures Decode(rest).value == "" || Decode(rest).value[0] == ';'
  {
  }

  // ---------- where the decoder and the standard part ----------

  lemma StandardStartsWithDigit(line: seq<Byte>, n: nat)
    requires StandardLine(line, n)
    ensures line != [] && HexDigit(line[0])
  {
    var digits, es :| StandardParts(line, n, digits, es);
    assert line[0] == digits[0];
  }

  /** "+5" is read as 5 and is no standard line. */
  lemma PlusSignIsRead()
    ensures Says([0x2B, 0x35], 5)
    ensures forall n :: !StandardLine([0x2B, 0x35], n)
  {
    var line: seq<Byte> := [0x2B, 0x35];
    DecodeAsciiFront(line, []);
    assert line + [] == line;
    var shape := Shape("", true, "5", "", "");
    FiveIsFive();
    assert Chars(line) + "" == Written(shape);
    forall n | StandardLine(line, n)
      ensures false
    {
      StandardStartsWithDigit(line, n);
    }
  }

  lemma FiveIsFive()
    ensures HexDigits(Codes("5")) && HexNumber(Codes("5")) == 5
    ensures HexDigits([0x35]) && HexNumber([0x35]) == 5
  {
    assert Codes("5") == [0x35] && [0x35][1..] == [];
    assert HexNumber([0x35]) == 5 * Pow16(0) + HexNumber([]);
  }

  /** An ideographic space in front is trimmed, and is no standard line. */
  lemma UnicodeSpaceIsTrimmed()
    ensures Says([0xE3, 0x80, 0x80, 0x35], 5)
    ensures forall n :: !StandardLine([0xE3, 0x80, 0x80, 0x35], n)
  {
    var line: seq<Byte> := [0xE3, 0x80, 0x80, 0x35];
    DecodeAsciiOne(0x35, []);
    assert line[3..] == [0x35] + [] && "5" + "" == "5";
    assert FirstChar(line) == Some(('\U{3000}', 3));
    var shape := Shape("\U{3000}", false, "5", "", "");
    FiveIsFive();
    assert Decode(line).value == "\U{3000}" + "5" == Written(shape);
    forall n | StandardLine(line, n)
      ensures false
    {
      StandardStartsWithDigit(line, n);
    }
  }

  lemma StandardNamesExtension(line: seq<Byte>, n: nat)
    requires StandardLine(line, n)
    ensures |line| == 2 ==> line[1] != SEMICOLON
  {
    var digits, es :| StandardParts(line, n, digits, es);
    if es == [] {
      assert line == digits;
    } else {
      assert |line| == |digits| + |ExtensionBytes(es[0])| + |ExtensionsBytes(es[1..])| > 2;
    }
  }

  /** A semicolon with no extension name after it is ignored, and is no standard line. */
  lemma EmptyExtensionIsIgnored()
    ensures Says([0x35, 0x3B], 5)
    ensures forall n :: !StandardLine([0x35, 0x3B], n)
  {
    var line: seq<Byte> := [0x35, 0x3B];
    DecodeAsciiFront(line, []);
    assert line + [] == line;
    var shape := Shape("", false, "5", "", ";");
    FiveIsFive();
    assert Chars(line) + "" == Written(shape);
    forall n | StandardLine(line, n)
      ensures false
    {
      StandardNamesExtension(line, n);
    }
  }

  const BYTE_EXTENSION: seq<Byte> := [0x35, 0x3B, 0x61, 0x3D, 0x22, 0xFF, 0x22]

  /** A quoted value may hold any byte from 0x80 on. */
  lemma ByteExtensionIsStandard()
    ensures StandardLine(BYTE_EXTENSION, 5)
  {
    var line := BYTE_EXTENSION;
    var e := WithValue([], [], [0x61], [], [], QuotedValue([0xFF]));
    assert [0xFF as Byte][1..] == [];
    FiveIsFive();
    assert ExtensionsBytes([e]) == ExtensionBytes(e) + [] == line[1..];
    assert StandardParts(line, 5, [0x35], [e]);
  }

  /** One that is not UTF-8 makes the decoder fail. */
  lemma ByteExtensionIsRejected()
    ensures SizeOn(BYTE_EXTENSION) == BadSize(NotUtf8)
  {
    var front, rest := BYTE_EXTENSION[..5], BYTE_EXTENSION[5..];
    DecodeAsciiFront(front, rest);
    assert BYTE_EXTENSION == front + rest && FirstChar(rest).None?;
  }
}
