/** The URL glob matcher of the network rule engine (network_rules.rs). */
module Wildcard {
  import opened Collections
  import opened Text

  // ---------- meaning ----------

  function Stars(pattern: string): nat {
    if pattern == "" then 0
    else (if pattern[0] == '*' then 1 else 0) + Stars(pattern[1..])
  }

  /** The pattern with its i-th star replaced by `fills[i]`. */
  function Expand(pattern: string, fills: seq<string>): string
    requires |fills| == Stars(pattern)
  {
    if pattern == "" then ""
    else if pattern[0] == '*' then fills[0] + Expand(pattern[1..], fills[1..])
    else [pattern[0]] + Expand(pattern[1..], fills)
  }

  ghost predicate GlobMatches(pattern: string, text: string) {
    exists fills: seq<string> :: |fills| == Stars(pattern) && Expand(pattern, fills) == text
  }

  // ---------- the same meaning over the parts between the stars ----------

  /** `text` is gap, qs[0], gap, qs[1], ... and, when `open`, a last gap. */
  ghost predicate Chain(qs: seq<string>, text: string, open: bool) {
    if qs == [] then open || text == ""
    else exists k :: OccursAt(text, qs[0], k) && Chain(qs[1..], text[k + |qs[0]|..], open)
  }

  lemma ChainAt(qs: seq<string>, text: string, open: bool, k: int)
    requires qs != [] && OccursAt(text, qs[0], k) && Chain(qs[1..], text[k + |qs[0]|..], open)
    ensures Chain(qs, text, open)
  {
  }

  /** A chain still fits when text is put in front of its first gap. */
  lemma ChainWiden(qs: seq<string>, text: string, open: bool, front: string)
    requires qs != [] && Chain(qs, text, open)
    ensures Chain(qs, front + text, open)
  {
    var k :| OccursAt(text, qs[0], k) && Chain(qs[1..], text[k + |qs[0]|..], open);
    var k' := k + |front|;
    assert (front + text)[k'..k' + |qs[0]|] == text[k..k + |qs[0]|];
    assert (front + text)[k' + |qs[0]|..] == text[k + |qs[0]|..];
    ChainAt(qs, front + text, open, k');
  }

  /** Taking the leftmost occurrence of a part loses nothing when a gap follows it. */
  lemma Leftmost(qs: seq<string>, text: string, open: bool)
    requires qs != [] && (open || |qs| > 1)
    ensures Chain(qs, text, open) <==> ChainAfterLeftmost(qs, text, open)
  {
    if Chain(qs, text, open) {
      var k :| OccursAt(text, qs[0], k) && Chain(qs[1..], text[k + |qs[0]|..], open);
      ChainFromLater(qs, text, open, k);
    }
  }

  ghost predicate ChainAfterLeftmost(qs: seq<string>, text: string, open: bool)
    requires qs != []
  {
    match Find(text, qs[0])
    case None => false
    case Some(at) => Chain(qs[1..], text[at + |qs[0]|..], open)
  }

  lemma ChainFromLater(qs: seq<string>, text: string, open: bool, k: int)
    requires qs != [] && (open || |qs| > 1)
    requires OccursAt(text, qs[0], k) && Chain(qs[1..], text[k + |qs[0]|..], open)
    ensures ChainAfterLeftmost(qs, text, open)
  {
    var first := Find(text, qs[0]);
    FindIsLeftmost(text, qs[0]);
    assert first.Some? && first.value <= k;
    if |qs| > 1 {
      var n := |qs[0]|;
      assert text[first.value + n..k + n] + text[k + n..] == text[first.value + n..];
      ChainWiden(qs[1..], text[k + n..], open, text[first.value + n..k + n]);
    }
  }

  /** A part with no gap after it must end the text. */
  lemma LastPart(last: string, text: string)
    ensures Chain([last], text, false) <==> EndsWith(text, last)
  {
    if EndsWith(text, last) {
      ChainAt([last], text, false, |text| - |last|);
    }
  }

  function NonEmpty(parts: seq<string>): seq<string> {
    Filter((part: string) => part != "", parts)
  }

  /** Empty parts (neighbouring stars) only widen a gap; an empty last part opens the end. */
  lemma {:induction false} DropEmptyParts(parts: seq<string>, text: string)
    requires parts != []
    ensures Chain(parts, text, false) <==> Chain(NonEmpty(parts), text, parts[|parts| - 1] == "")
    decreases |parts|
  {
    var open := parts[|parts| - 1] == "";
    var rest := parts[1..];
    if |parts| == 1 {
      assert rest == [];
      if open {
        ChainAt(parts, text, false, |text|);
      } else {
        assert NonEmpty(parts) == parts;
        LastPart(parts[0], text);
        ChainClosedSingle(parts, text);
      }
    } else if parts[0] == "" {
      assert OccursAt(text, "", 0);
      Leftmost(parts, text, false);
      FindIs(text, "", 0);
      assert text[0..] == text;
      DropEmptyParts(rest, text);
    } else {
      var kept := NonEmpty(parts);
      assert kept == [parts[0]] + NonEmpty(rest);
      forall k | OccursAt(text, parts[0], k)
        ensures Chain(rest, text[k + |parts[0]|..], false)
           <==> Chain(kept[1..], text[k + |parts[0]|..], open)
      {
        DropEmptyParts(rest, text[k + |parts[0]|..]);
        assert kept[1..] == NonEmpty(rest);
      }
    }
  }

  lemma ChainClosedSingle(parts: seq<string>, text: string)
    requires |parts| == 1
    ensures Chain(parts, text, false) == Chain([parts[0]], text, false)
  {
    assert parts == [parts[0]];
  }

  /** Globbing is: the first part is a prefix, the others follow with gaps up to the end. */
  ghost predicate PartsMatch(parts: seq<string>, text: string)
    requires parts != []
  {
    parts[0] <= text && (if |parts| == 1 then text == parts[0] else Chain(parts[1..], text[|parts[0]|..], false))
  }

  lemma {:induction false} ExpandFollowsParts(pattern: string, fills: seq<string>)
    requires |fills| == Stars(pattern)
    ensures PartsMatch(Split(pattern, '*'), Expand(pattern, fills))
    decreases |pattern|
  {
    var parts := Split(pattern, '*');
    var text := Expand(pattern, fills);
    if pattern != "" {
      if pattern[0] == '*' {
        var rest := Expand(pattern[1..], fills[1..]);
        ExpandFollowsParts(pattern[1..], fills[1..]);
        var tail := Split(pattern[1..], '*');
        assert parts[1..] == tail && text[0..] == text;
        GapThenParts(tail, fills[0], rest);
      } else {
        ExpandFollowsParts(pattern[1..], fills);
        var tail := Split(pattern[1..], '*');
        var rest := Expand(pattern[1..], fills);
        assert parts[1..] == tail[1..];
        assert text[|parts[0]|..] == rest[|tail[0]|..];
      }
    }
  }

  lemma GapThenParts(tail: seq<string>, gap: string, rest: string)
    requires tail != [] && PartsMatch(tail, rest)
    ensures Chain(tail, gap + rest, false)
  {
    var text := gap + rest;
    var k := |gap|;
    assert text[k..k + |tail[0]|] == tail[0];
    assert text[k + |tail[0]|..] == rest[|tail[0]|..];
    ChainAt(tail, text, false, k);
  }

  lemma ExpandStar(pattern: string, first: string, more: seq<string>)
    requires pattern != "" && pattern[0] == '*' && |more| == Stars(pattern[1..])
    ensures |[first] + more| == Stars(pattern) && Expand(pattern, [first] + more) == first + Expand(pattern[1..], more)
  {
    assert ([first] + more)[1..] == more;
  }

  lemma {:induction false} PartsGiveFills(pattern: string, text: string) returns (fills: seq<string>)
    requires PartsMatch(Split(pattern, '*'), text)
    ensures |fills| == Stars(pattern) && Expand(pattern, fills) == text
    decreases |pattern|
  {
    if pattern == "" {
      fills := [];
    } else if pattern[0] == '*' {
      var k := StarParts(pattern, text);
      var more := PartsGiveFills(pattern[1..], text[k..]);
      fills := [text[..k]] + more;
      ExpandStar(pattern, text[..k], more);
      assert text[..k] + text[k..] == text;
    } else {
      CharParts(pattern, text);
      fills := PartsGiveFills(pattern[1..], text[1..]);
      assert [text[0]] + text[1..] == text;
    }
  }

  /** A leading star takes some of the text and leaves the rest to the pattern after it. */
  lemma StarParts(pattern: string, text: string) returns (k: nat)
    requires pattern != "" && pattern[0] == '*' && PartsMatch(Split(pattern, '*'), text)
    ensures k <= |text| && PartsMatch(Split(pattern[1..], '*'), text[k..])
  {
    var parts, tail := Split(pattern, '*'), Split(pattern[1..], '*');
    assert parts[0] == "" && parts[1..] == tail && text[0..] == text;
    k :| OccursAt(text, tail[0], k) && Chain(tail[1..], text[k + |tail[0]|..], false);
    PartsMatchAt(tail, text, k);
  }

  lemma PartsMatchAt(tail: seq<string>, text: string, k: nat)
    requires tail != [] && OccursAt(text, tail[0], k) && Chain(tail[1..], text[k + |tail[0]|..], false)
    ensures PartsMatch(tail, text[k..])
  {
    var rest := text[k..];
    assert rest[..|tail[0]|] == tail[0];
    assert rest[|tail[0]|..] == text[k + |tail[0]|..];
    if |tail| == 1 {
      assert rest[|tail[0]|..] == "";
    }
  }

  /** Any other leading character is the first of the text. */
  lemma CharParts(pattern: string, text: string)
    requires pattern != "" && pattern[0] != '*' && PartsMatch(Split(pattern, '*'), text)
    ensures text != "" && text[0] == pattern[0] && PartsMatch(Split(pattern[1..], '*'), text[1..])
  {
    PartsMatchTail(pattern[0], Split(pattern[1..], '*'), text);
  }

  lemma PartsMatchTail(c: char, tail: seq<string>, text: string)
    requires tail != [] && PartsMatch([[c] + tail[0]] + tail[1..], text)
    ensures text != "" && text[0] == c && PartsMatch(tail, text[1..])
  {
    var first, rest := [c] + tail[0], text[1..];
    assert text[..|first|] == first;
    assert text[0] == first[0];
    assert rest[..|tail[0]|] == text[..|first|][1..] == tail[0];
    assert rest[|tail[0]|..] == text[|first|..];
    assert ([first] + tail[1..])[1..] == tail[1..];
    if |tail| == 1 {
      assert text == first;
    }
  }

  lemma GlobIsPartsMatch(pattern: string, text: string)
    ensures GlobMatches(pattern, text) <==> PartsMatch(Split(pattern, '*'), text)
  {
    if GlobMatches(pattern, text) {
      var fills: seq<string> :| |fills| == Stars(pattern) && Expand(pattern, fills) == text;
      ExpandFollowsParts(pattern, fills);
    }
    if PartsMatch(Split(pattern, '*'), text) {
      var fills := PartsGiveFills(pattern, text);
    }
  }

  /** How `starts_with('*')` and `ends_with('*')` show in the parts. */
  lemma SplitEnds(pattern: string)
    ensures var parts := Split(pattern, '*');
            && (|parts| > 1 ==> (pattern[0] == '*' <==> parts[0] == ""))
            && (|parts| > 1 ==> (EndsWith(pattern, "*") <==> parts[|parts| - 1] == ""))
  {
    if pattern != "" {
      SplitLast(pattern);
      assert EndsWith(pattern, "*") <==> pattern[|pattern| - 1] == '*';
    }
  }

  lemma {:induction false} SplitLast(pattern: string)
    requires pattern != ""
    ensures var parts := Split(pattern, '*');
            |parts| > 1 ==> (pattern[|pattern| - 1] == '*' <==> parts[|parts| - 1] == "")
    decreases |pattern|
  {
    var rest := pattern[1..];
    if rest != "" {
      var tail := Split(rest, '*');
      SplitLast(rest);
      assert pattern[|pattern| - 1] == rest[|rest| - 1];
      if |tail| == 1 {
        assert rest[|rest| - 1] in tail[0];
      }
    }
  }

  // ---------- the matcher ----------

  /** What is left to decide after `idx` of the named parts were consumed. */
  ghost predicate Undecided(named: seq<string>, idx: nat, anchored: bool, open: bool, text: string, remainder: string)
    requires idx <= |named|
    requires anchored || !open ==> named != []
  {
    if idx == 0 && anchored then
      named[0] <= remainder && Chain(named[1..], remainder[|named[0]|..], open)
    else if idx == |named| && !open then
      EndsWith(text, named[|named| - 1])
    else
      Chain(named[idx..], remainder, open)
  }

  lemma NamedParts(pattern: string, text: string)
    requires |Split(pattern, '*')| > 1
    ensures var named := NonEmpty(Split(pattern, '*'));
            var anchored := pattern[0] != '*';
            var open := EndsWith(pattern, "*");
            && (anchored || !open ==> named != [])
            && (anchored && !open ==> |named| > 1)
            && (PartsMatch(Split(pattern, '*'), text) <==> Undecided(named, 0, anchored, open, text, text))
  {
    var parts := Split(pattern, '*');
    var named := NonEmpty(parts);
    SplitEnds(pattern);
    var rest := parts[1..];
    assert rest[|rest| - 1] == parts[|parts| - 1];
    assert parts == [parts[0]] + rest;
    FilterConcat((part: string) => part != "", [parts[0]], rest);
    assert NonEmpty([parts[0]]) == if parts[0] == "" then [] else [parts[0]];
    assert rest[|rest| - 1] in rest;
    assert !EndsWith(pattern, "*") ==> rest[|rest| - 1] in NonEmpty(rest);
    if parts[0] == "" {
      assert named == NonEmpty(rest) && named[0..] == named;
      assert text[0..] == text;
      DropEmptyParts(rest, text);
    } else if parts[0] <= text {
      assert named[1..] == NonEmpty(rest);
      DropEmptyParts(rest, text[|parts[0]|..]);
    }
  }

  /** Consuming the leftmost occurrence of the next part keeps the answer; no occurrence decides it. */
  lemma ConsumePart(named: seq<string>, idx: nat, anchored: bool, open: bool, text: string, remainder: string)
    requires idx < |named| && (idx > 0 || !anchored)
    requires EndsWith(text, remainder)
    ensures match Find(remainder, named[idx])
            case None => !Undecided(named, idx, anchored, open, text, remainder)
            case Some(at) =>
              Undecided(named, idx, anchored, open, text, remainder)
              <==> Undecided(named, idx + 1, anchored, open, text, remainder[at + |named[idx]|..])
  {
    var qs := named[idx..];
    assert qs[1..] == named[idx + 1..];
    if open || |qs| > 1 {
      Leftmost(qs, remainder, open);
    } else {
      assert qs == [named[idx]];
      LastPart(named[idx], remainder);
      SuffixOfSuffix(text, remainder, named[idx]);
    }
  }

  lemma SuffixOfSuffix(text: string, remainder: string, part: string)
    requires EndsWith(text, remainder)
    ensures EndsWith(remainder, part) <==> |part| <= |remainder| && EndsWith(text, part)
    ensures EndsWith(remainder, part) ==> Find(remainder, part).Some?
  {
    if |part| <= |remainder| {
      assert remainder[|remainder| - |part|..] == text[|text| - |part|..];
    }
    FindIsLeftmost(remainder, part);
    if EndsWith(remainder, part) {
      assert OccursAt(remainder, part, |remainder| - |part|);
    }
  }

  lemma LoneStar(text: string)
    ensures GlobMatches("*", text)
  {
    assert Expand("*", [text]) == text;
  }

  /** `wildcard_matches`: greedy, leftmost, one pass over the non-empty parts. */
  method WildcardMatches(pattern: string, text: string) returns (matches: bool)
    ensures matches <==> GlobMatches(pattern, text)
  {
    if pattern == "*" {
      LoneStar(text);
      return true;
    }
    GlobIsPartsMatch(pattern, text);
    var parts := Split(pattern, '*');
    if |parts| == 1 {
      return pattern == text;
    }
    NamedParts(pattern, text);
    matches := MatchNamed(NonEmpty(parts), pattern[0] == '*', EndsWith(pattern, "*"), text);
  }

  /** The loop of `wildcard_matches` and the test after it. */
  method MatchNamed(named: seq<string>, startsWithWildcard: bool, endsWithWildcard: bool, text: string)
    returns (matches: bool)
    requires !startsWithWildcard || !endsWithWildcard ==> named != []
    requires !startsWithWildcard && !endsWithWildcard ==> |named| > 1
    ensures matches <==> Undecided(named, 0, !startsWithWildcard, endsWithWildcard, text, text)
  {
    var remainder := text;
    var idx := 0;
    ghost var goal := Undecided(named, 0, !startsWithWildcard, endsWithWildcard, text, text);
    while idx < |named|
      invariant 0 <= idx <= |named|
      invariant EndsWith(text, remainder)
      invariant goal <==> Undecided(named, idx, !startsWithWildcard, endsWithWildcard, text, remainder)
    {
      var part := named[idx];
      if idx == 0 && !startsWithWildcard {
        if !(part <= remainder) {
          return false;
        }
        remainder := remainder[|part|..];
      } else {
        ConsumePart(named, idx, !startsWithWildcard, endsWithWildcard, text, remainder);
        match Find(remainder, part)
        case Some(position) =>
          remainder := remainder[position + |part|..];
        case None =>
          return false;
      }
      idx := idx + 1;
    }
    if !endsWithWildcard && named != [] {
      return EndsWith(text, named[|named| - 1]);
    }
    return true;
  }
}
