/** The string and byte-string operations of the Rust standard library that the modelled code calls. */
module Text {
  import opened Collections

  /** `needle` occurs in `hay` at index `at`. */
  ghost predicate OccursAt<T>(hay: seq<T>, needle: seq<T>, at: int) {
    0 <= at && at + |needle| <= |hay| && hay[at..at + |needle|] == needle
  }

  /** `hay.find(needle)`, and `windows(n).position(..)` on bytes: the leftmost occurrence. */
  function Find<T(==)>(hay: seq<T>, needle: seq<T>): (r: Option<nat>)
    ensures r.Some? ==> OccursAt(hay, needle, r.value)
  {
    FindFrom(hay, needle, 0)
  }

  function FindFrom<T(==)>(hay: seq<T>, needle: seq<T>, from: nat): (r: Option<nat>)
    ensures r.Some? ==> OccursAt(hay, needle, r.value)
    decreases |hay| - from
  {
    if from + |needle| > |hay| then None
    else if hay[from..from + |needle|] == needle then Some(from)
    else FindFrom(hay, needle, from + 1)
  }

  lemma FindIsLeftmost<T>(hay: seq<T>, needle: seq<T>)
    ensures forall k :: OccursAt(hay, needle, k) ==> Find(hay, needle).Some? && Find(hay, needle).value <= k
  {
    FindFromIsLeftmost(hay, needle, 0);
  }

  lemma {:induction false} FindFromIsLeftmost<T>(hay: seq<T>, needle: seq<T>, from: nat)
    ensures forall k :: from <= k && OccursAt(hay, needle, k) ==>
              FindFrom(hay, needle, from).Some? && FindFrom(hay, needle, from).value <= k
    decreases |hay| - from
  {
    if from + |needle| <= |hay| && hay[from..from + |needle|] != needle {
      FindFromIsLeftmost(hay, needle, from + 1);
    }
  }

  /** The leftmost occurrence is unique, whatever way it was found. */
  lemma FindIs<T>(hay: seq<T>, needle: seq<T>, at: nat)
    requires OccursAt(hay, needle, at)
    requires forall k :: 0 <= k < at ==> !OccursAt(hay, needle, k)
    ensures Find(hay, needle) == Some(at)
  {
    FindIsLeftmost(hay, needle);
  }

  /** Appending bytes never moves the leftmost occurrence. */
  lemma FindStable<T>(hay: seq<T>, needle: seq<T>, more: seq<T>)
    requires Find(hay, needle).Some?
    ensures Find(hay + more, needle) == Find(hay, needle)
  {
    var at := Find(hay, needle).value;
    FindIsLeftmost(hay, needle);
    assert (hay + more)[at..at + |needle|] == hay[at..at + |needle|];
    forall k | 0 <= k < at
      ensures !OccursAt(hay + more, needle, k)
    {
      assert !OccursAt(hay, needle, k);
      assert (hay + more)[k..k + |needle|] == hay[k..k + |needle|];
    }
    FindIs(hay + more, needle, at);
  }

  predicate EndsWith<T(==)>(s: seq<T>, suffix: seq<T>) {
    |suffix| <= |s| && s[|s| - |suffix|..] == suffix
  }

  /** `s.split(sep)` for a one-character separator: always at least one part. */
  function Split<T(==)>(s: seq<T>, sep: T): (r: seq<seq<T>>)
    ensures |r| >= 1
    ensures r[0] <= s
    ensures |r| == 1 ==> r[0] == s
    ensures |r| > 1 ==> |r[0]| < |s| && s[|r[0]|] == sep
    ensures sep !in r[0]
  {
    if s == [] then [[]]
    else if s[0] == sep then [[]] + Split(s[1..], sep)
    else
      var rest := Split(s[1..], sep);
      [[s[0]] + rest[0]] + rest[1..]
  }

  /** `s.split("\r\n")`. */
  function SplitLines(s: string): (r: seq<string>)
    ensures |r| >= 1
    decreases |s|
  {
    match Find(s, "\r\n")
    case None => [s]
    case Some(at) => [s[..at]] + SplitLines(s[at + 2..])
  }

  /** `s.split_once(c)`: the text around the first `c`. */
  function SplitOnce(s: string, c: char): (r: Option<(string, string)>)
    ensures r.None? <==> c !in s
    ensures r.Some? ==> c !in r.value.0 && s == r.value.0 + [c] + r.value.1
  {
    if s == [] then None
    else if s[0] == c then
      assert s == [] + [c] + s[1..];
      Some(("", s[1..]))
    else match SplitOnce(s[1..], c)
      case None => None
      case Some(r) =>
        assert s == ([s[0]] + r.0) + [c] + r.1;
        Some(([s[0]] + r.0, r.1))
  }

  lemma SplitOnceAt(left: string, c: char, right: string)
    requires c !in left
    ensures SplitOnce(left + [c] + right, c) == Some((left, right))
  {
    var s := left + [c] + right;
    assert s[|left|] == c;
    var r := SplitOnce(s, c).value;
    assert s == r.0 + [c] + r.1;
    assert s[|r.0|] == c;
    assert forall i :: 0 <= i < |left| ==> s[i] == left[i] && s[i] != c;
    assert forall i :: 0 <= i < |r.0| ==> s[i] == r.0[i] && s[i] != c;
    assert r.0 == s[..|left|] == left;
    assert r.1 == s[|left| + 1..] == right;
  }

  /** `char::is_whitespace`: the Unicode White_Space property. */
  predicate IsSpace(c: char) {
    || '\t' <= c <= '\r'
    || c in " \U{85}\U{A0}\U{1680}\U{2028}\U{2029}\U{202F}\U{205F}\U{3000}"
    || '\U{2000}' <= c <= '\U{200A}'
  }

  /** The 25 characters of the property, by their numbers. */
  lemma SpacesAre(c: char)
    ensures IsSpace(c) <==>
            || c as int in {0x9, 0xA, 0xB, 0xC, 0xD, 0x20, 0x85, 0xA0, 0x1680, 0x2028, 0x2029, 0x202F, 0x205F, 0x3000}
            || c as int in {0x2000, 0x2001, 0x2002, 0x2003, 0x2004, 0x2005, 0x2006, 0x2007, 0x2008, 0x2009, 0x200A}
  {
  }

  function TrimStart(s: string): string {
    if s != [] && IsSpace(s[0]) then TrimStart(s[1..]) else s
  }

  function TrimEnd(s: string): string {
    if s != [] && IsSpace(s[|s| - 1]) then TrimEnd(s[..|s| - 1]) else s
  }

  function Trim(s: string): string {
    TrimEnd(TrimStart(s))
  }

  ghost predicate Blank(s: string) {
    forall c :: c in s ==> IsSpace(c)
  }

  lemma TrimEmptyIffBlank(s: string)
    ensures Trim(s) == "" <==> Blank(s)
  {
    TrimStartEmptyIffBlank(s);
    TrimEndEmptyIffBlank(TrimStart(s));
    TrimStartHead(s);
    assert TrimStart(s) != "" ==> TrimStart(s)[0] in TrimStart(s);
  }

  lemma TrimStartHead(s: string)
    ensures TrimStart(s) != "" ==> !IsSpace(TrimStart(s)[0])
  {
  }

  lemma TrimStartEmptyIffBlank(s: string)
    ensures TrimStart(s) == "" <==> Blank(s)
  {
    if s != "" {
      assert s == [s[0]] + s[1..];
      assert s[0] in s;
    }
  }

  lemma TrimEndEmptyIffBlank(s: string)
    ensures TrimEnd(s) == "" <==> Blank(s)
  {
    if s != "" {
      assert s == s[..|s| - 1] + [s[|s| - 1]];
      assert s[|s| - 1] in s;
    }
  }

  /** `split_whitespace().nth(1)`. */
  function SecondWord(s: string): Option<string> {
    var rest := TrimStart(DropWord(TrimStart(s)));
    if rest == "" then None else Some(TakeWord(rest))
  }

  function TakeWord(s: string): string {
    if s == "" || IsSpace(s[0]) then "" else [s[0]] + TakeWord(s[1..])
  }

  function DropWord(s: string): string {
    if s == "" || IsSpace(s[0]) then s else DropWord(s[1..])
  }

  function LowerChar(c: char): char {
    if 'A' <= c <= 'Z' then (c as int + 32) as char else c
  }

  /** `to_ascii_lowercase`. */
  function AsciiLower(s: string): (r: string)
    ensures |r| == |s|
    ensures forall i :: 0 <= i < |s| ==> r[i] == LowerChar(s[i])
  {
    if s == "" then "" else [LowerChar(s[0])] + AsciiLower(s[1..])
  }

  /** `a.eq_ignore_ascii_case(b)`. */
  predicate EqIgnoreAsciiCase(a: string, b: string) {
    AsciiLower(a) == AsciiLower(b)
  }

  /** The same character, or the same ASCII letter in the other case. */
  predicate SameLetter(a: char, b: char) {
    || a == b
    || ('A' <= a <= 'Z' && b as int == a as int + 32)
    || ('A' <= b <= 'Z' && a as int == b as int + 32)
  }

  lemma LettersFold(a: char, b: char)
    ensures LowerChar(a) == LowerChar(b) <==> SameLetter(a, b)
  {
  }

  /** Folding tells two texts apart by more than the case of their ASCII letters. */
  lemma {:induction false} FoldedAlike(a: string, b: string)
    ensures AsciiLower(a) == AsciiLower(b) <==> |a| == |b| && forall i :: 0 <= i < |a| ==> SameLetter(a[i], b[i])
  {
    if |a| == |b| && a != "" {
      LettersFold(a[0], b[0]);
      FoldedAlike(a[1..], b[1..]);
      assert AsciiLower(a)[1..] == AsciiLower(a[1..]) && AsciiLower(b)[1..] == AsciiLower(b[1..]);
    }
  }

  // ---------- numbers ----------

  /** `char::to_digit(radix)` for a radix up to 16. */
  function Digit(c: char, radix: nat): Option<nat>
    requires 2 <= radix <= 16
  {
    var d :=
      if '0' <= c <= '9' then c as int - '0' as int
      else if 'a' <= c <= 'f' then c as int - 'a' as int + 10
      else if 'A' <= c <= 'F' then c as int - 'A' as int + 10
      else radix;
    if d < radix then Some(d) else None
  }

  function DigitChar(d: nat): (c: char)
    requires d < 16
    ensures forall radix :: d < radix && 2 <= radix <= 16 ==> Digit(c, radix) == Some(d)
    ensures c as int < 128 && !IsSpace(c) && c !in "+-;:\r\n"
  {
    if d < 10 then ('0' as int + d) as char else ('a' as int + (d - 10)) as char
  }

  /** The value of a run of digits; None for no digit at all or a character that is not one. */
  function DigitsValue(s: string, radix: nat): Option<nat>
    requires 2 <= radix <= 16
  {
    if s == "" then None
    else match Digit(s[|s| - 1], radix)
      case None => None
      case Some(d) =>
        if |s| == 1 then Some(d)
        else match DigitsValue(s[..|s| - 1], radix)
          case None => None
          case Some(v) => Some(v * radix + d)
  }

  /**
   * `from_str_radix` of an unsigned type with largest value `max`: an optional plus sign,
   * then digits whose value fits.
   */
  function ParseUnsigned(s: string, radix: nat, max: nat): Option<nat>
    requires 2 <= radix <= 16
  {
    var digits := if s != "" && s[0] == '+' then s[1..] else s;
    match DigitsValue(digits, radix)
    case None => None
    case Some(v) => if v <= max then Some(v) else None
  }

  lemma DivideBack(n: nat, radix: nat)
    requires 2 <= radix <= n
    ensures n / radix < n && n / radix * radix + n % radix == n
  {
  }

  /** The shortest digits of `n`, lower case. */
  function Digits(n: nat, radix: nat): (r: string)
    requires 2 <= radix <= 16
    ensures r != "" && forall c :: c in r ==> c as int < 128 && !IsSpace(c) && c !in "+-;:\r\n"
    decreases n
  {
    if n < radix then [DigitChar(n)]
    else
      DivideBack(n, radix);
      Digits(n / radix, radix) + [DigitChar(n % radix)]
  }

  lemma DigitsValueNext(front: string, v: nat, d: nat, radix: nat)
    requires 2 <= radix <= 16 && d < radix && DigitsValue(front, radix) == Some(v)
    ensures DigitsValue(front + [DigitChar(d)], radix) == Some(v * radix + d)
  {
    var s := front + [DigitChar(d)];
    assert s[..|s| - 1] == front && s[|s| - 1] == DigitChar(d);
  }

  lemma {:induction false} DigitsRoundTrip(n: nat, radix: nat)
    requires 2 <= radix <= 16
    ensures DigitsValue(Digits(n, radix), radix) == Some(n)
    decreases n
  {
    if n >= radix {
      DivideBack(n, radix);
      DigitsRoundTrip(n / radix, radix);
      DigitsValueNext(Digits(n / radix, radix), n / radix, n % radix, radix);
    }
  }
}
