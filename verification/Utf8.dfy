/** Strict UTF-8 decoding, as `str::from_utf8` does it (Unicode table 3-7). */
module Utf8 {
  import opened Collections

  type Byte = b: int | 0 <= b < 256

  predicate Tail(b: Byte) {
    0x80 <= b <= 0xBF
  }

  /** The character whose number has these base-64 digits. */
  function Scalar(d3: nat, d2: nat, d1: nat, d0: nat): char
    requires d2 < 64 && d1 < 64 && d0 < 64
    requires d3 < 4 || (d3 == 4 && d2 < 16)
    requires d3 > 0 || d2 != 13 || d1 < 32
  {
    (d3 * 262144 + d2 * 4096 + d1 * 64 + d0) as char
  }

  /** The first character and how many bytes it takes. */
  function FirstChar(b: seq<Byte>): (r: Option<(char, nat)>)
    requires b != []
    ensures r.Some? ==> 1 <= r.value.1 <= |b|
  {
    if b[0] < 0x80 then Some((b[0] as char, 1))
    else if 0xC2 <= b[0] <= 0xDF && |b| >= 2 && Tail(b[1]) then
      Some((Scalar(0, 0, b[0] - 0xC0, b[1] - 0x80), 2))
    else if 0xE0 <= b[0] <= 0xEF && |b| >= 3 && Tail(b[1]) && Tail(b[2])
            && (b[0] == 0xE0 ==> b[1] >= 0xA0) && (b[0] == 0xED ==> b[1] <= 0x9F) then
      Some((Scalar(0, b[0] - 0xE0, b[1] - 0x80, b[2] - 0x80), 3))
    else if 0xF0 <= b[0] <= 0xF4 && |b| >= 4 && Tail(b[1]) && Tail(b[2]) && Tail(b[3])
            && (b[0] == 0xF0 ==> b[1] >= 0x90) && (b[0] == 0xF4 ==> b[1] <= 0x8F) then
      Some((Scalar(b[0] - 0xF0, b[1] - 0x80, b[2] - 0x80, b[3] - 0x80), 4))
    else None
  }

  function Decode(b: seq<Byte>): Option<string> {
    if b == [] then Some("")
    else match FirstChar(b)
      case None => None
      case Some(first) =>
        match Decode(b[first.1..])
        case None => None
        case Some(rest) => Some([first.0] + rest)
  }

  /** The bytes of a character. */
  function Encoded(c: char): (r: seq<Byte>)
    ensures 1 <= |r| <= 4
  {
    var n := c as int;
    if n < 0x80 then [n]
    else if n < 0x800 then [0xC0 + n / 64, 0x80 + n % 64]
    else if n < 0x1_0000 then [0xE0 + n / 4096, 0x80 + n / 64 % 64, 0x80 + n % 64]
    else [0xF0 + n / 262144, 0x80 + n / 4096 % 64, 0x80 + n / 64 % 64, 0x80 + n % 64]
  }

  function EncodedAll(s: string): seq<Byte> {
    if s == "" then [] else Encoded(s[0]) + EncodedAll(s[1..])
  }

  lemma LastDigit(n: nat, q: nat, d: nat)
    requires d < 64
    ensures n == q * 64 + d <==> n / 64 == q && n % 64 == d
  {
  }

  lemma Base64(n: nat, d3: nat, d2: nat, d1: nat, d0: nat)
    requires d2 < 64 && d1 < 64 && d0 < 64
    ensures n == d3 * 262144 + d2 * 4096 + d1 * 64 + d0 <==>
            n % 64 == d0 && n / 64 % 64 == d1 && n / 4096 % 64 == d2 && n / 262144 == d3
  {
    var q2 := d3 * 64 + d2;
    var q1 := q2 * 64 + d1;
    LastDigit(n, q1, d0);
    LastDigit(n / 64, q2, d1);
    LastDigit(n / 4096, d3, d2);
    assert n / 64 / 64 == n / 4096 && n / 4096 / 64 == n / 262144;
  }

  lemma FirstIsEncoded(b: seq<Byte>)
    requires b != [] && FirstChar(b).Some?
    ensures var (c, k) := FirstChar(b).value; Encoded(c) == b[..k]
  {
    var (c, k) := FirstChar(b).value;
    var n := c as int;
    if k == 2 {
      Base64(n, 0, 0, b[0] - 0xC0, b[1] - 0x80);
    } else if k == 3 {
      Base64(n, 0, b[0] - 0xE0, b[1] - 0x80, b[2] - 0x80);
    } else if k == 4 {
      Base64(n, b[0] - 0xF0, b[1] - 0x80, b[2] - 0x80, b[3] - 0x80);
    }
  }

  lemma TwoBytesAreFirst(c: char, b: seq<Byte>)
    requires 0x80 <= c as int < 0x800 && |b| >= 2 && b[..2] == Encoded(c)
    ensures FirstChar(b) == Some((c, 2))
  {
    var n := c as int;
    Base64(n, 0, 0, n / 64, n % 64);
    assert b[0] == b[..2][0] && b[1] == b[..2][1];
  }

  lemma ThreeBytesAreFirst(c: char, b: seq<Byte>)
    requires 0x800 <= c as int < 0x1_0000 && |b| >= 3 && b[..3] == Encoded(c)
    ensures FirstChar(b) == Some((c, 3))
  {
    var n := c as int;
    Base64(n, 0, n / 4096, n / 64 % 64, n % 64);
    assert b[0] == b[..3][0] && b[1] == b[..3][1] && b[2] == b[..3][2];
  }

  lemma FourBytesAreFirst(c: char, b: seq<Byte>)
    requires 0x1_0000 <= c as int && |b| >= 4 && b[..4] == Encoded(c)
    ensures FirstChar(b) == Some((c, 4))
  {
    var n := c as int;
    Base64(n, n / 262144, n / 4096 % 64, n / 64 % 64, n % 64);
    assert b[0] == b[..4][0] && b[1] == b[..4][1] && b[2] == b[..4][2] && b[3] == b[..4][3];
  }

  lemma EncodedIsFirst(c: char, rest: seq<Byte>)
    ensures FirstChar(Encoded(c) + rest) == Some((c, |Encoded(c)|))
  {
    var b := Encoded(c) + rest;
    assert b[..|Encoded(c)|] == Encoded(c);
    if c as int >= 0x1_0000 {
      FourBytesAreFirst(c, b);
    } else if c as int >= 0x800 {
      ThreeBytesAreFirst(c, b);
    } else if c as int >= 0x80 {
      TwoBytesAreFirst(c, b);
    }
  }

  lemma {:induction false} EncodingDecodes(s: string)
    ensures Decode(EncodedAll(s)) == Some(s)
  {
    if s != "" {
      var first, rest := Encoded(s[0]), EncodedAll(s[1..]);
      EncodedIsFirst(s[0], rest);
      assert (first + rest)[|first|..] == rest && s == [s[0]] + s[1..];
      EncodingDecodes(s[1..]);
    }
  }

  lemma EncodedCons(c: char, rest: string)
    ensures EncodedAll([c] + rest) == Encoded(c) + EncodedAll(rest)
  {
    assert ([c] + rest)[1..] == rest;
  }

  lemma DecodedFirst(b: seq<Byte>) returns (c: char, rest: seq<Byte>)
    requires b != [] && Decode(b).Some?
    ensures b == Encoded(c) + rest && Decode(rest).Some? && Decode(b).value == [c] + Decode(rest).value
  {
    var first := FirstChar(b).value;
    c, rest := first.0, b[first.1..];
    FirstIsEncoded(b);
    assert b == b[..first.1] + rest;
  }

  lemma {:induction false} DecodedIsEncoding(b: seq<Byte>)
    requires Decode(b).Some?
    ensures b == EncodedAll(Decode(b).value)
    decreases |b|
  {
    if b != [] {
      var c, rest := DecodedFirst(b);
      DecodedIsEncoding(rest);
      EncodedCons(c, Decode(rest).value);
    }
  }

  /** Bytes decode to a text exactly when they are its encoding. */
  lemma DecodeIff(b: seq<Byte>, s: string)
    ensures Decode(b) == Some(s) <==> b == EncodedAll(s)
  {
    EncodingDecodes(s);
    if Decode(b).Some? {
      DecodedIsEncoding(b);
    }
  }

  predicate Ascii(s: string) {
    forall c :: c in s ==> c as int < 128
  }

  function AsciiBytes(s: string): (r: seq<Byte>)
    requires Ascii(s)
    ensures |r| == |s|
  {
    if s == "" then []
    else
      AsciiCons(s);
      [s[0] as int] + AsciiBytes(s[1..])
  }

  lemma AsciiCons(s: string)
    requires Ascii(s) && s != ""
    ensures s[0] as int < 128 && Ascii(s[1..])
  {
    assert s[0] in s;
    assert forall c :: c in s[1..] ==> c in s;
  }

  lemma {:induction false} AsciiByteAt(s: string, i: nat)
    requires Ascii(s) && i < |s|
    ensures AsciiBytes(s)[i] == s[i] as int
  {
    AsciiCons(s);
    if i > 0 {
      AsciiByteAt(s[1..], i - 1);
    }
  }

  lemma {:induction false} AsciiRoundTrip(s: string)
    requires Ascii(s)
    ensures Decode(AsciiBytes(s)) == Some(s)
  {
    if s != "" {
      AsciiCons(s);
      assert AsciiBytes(s)[1..] == AsciiBytes(s[1..]);
      AsciiRoundTrip(s[1..]);
      assert FirstChar(AsciiBytes(s)) == Some((s[0], 1)) && [s[0]] + s[1..] == s;
    }
  }
}
