/** Which request plan the active rules of network_rules.rs give for a request. */
module RulePlan {
  import opened Collections
  import opened Text
  import opened NetworkRules
  import opened Wildcard

  // ---------- header maps ----------

  /** A JSON header value: a string, or another value with its rendered text. */
  datatype JsonValue = JsonString(text: string) | JsonOther(rendered: string)

  /** The `headers` of a paused request: an object in iteration order, or some other JSON value. */
  datatype JsonHeaders = JsonObject(members: seq<(string, JsonValue)>) | NotAnObject

  datatype HeaderEntry = HeaderEntry(name: string, value: string)

  function ValueText(v: JsonValue): string {
    match v
    case JsonString(text) => text
    case JsonOther(rendered) => rendered
  }

  /** Insert the members one after the other under their lower-cased names. */
  function Inserted(m: Headers, members: seq<(string, string)>): Headers
    decreases |members|
  {
    if members == [] then m
    else Inserted(m[AsciiLower(members[0].0) := members[0].1], members[1..])
  }

  function Texts(members: seq<(string, JsonValue)>): seq<(string, string)> {
    seq(|members|, i requires 0 <= i < |members| => (members[i].0, ValueText(members[i].1)))
  }

  /** `headers_to_map`. */
  function HeadersToMap(headers: JsonHeaders): Headers {
    match headers
    case NotAnObject => map[]
    case JsonObject(members) => Inserted(map[], Texts(members))
  }

  /** The last value given to a name in a list of pairs, names compared without ASCII case. */
  function LastValue(members: seq<(string, string)>, name: string): Option<string> {
    if members == [] then None
    else
      var last := members[|members| - 1];
      if AsciiLower(last.0) == name then Some(last.1) else LastValue(members[..|members| - 1], name)
  }

  /** Pair `i` is the last one under the name. */
  ghost predicate LastAt(members: seq<(string, string)>, name: string, i: int) {
    && 0 <= i < |members| && AsciiLower(members[i].0) == name
    && forall j :: i < j < |members| ==> AsciiLower(members[j].0) != name
  }

  lemma {:induction false} LastValueIsLast(members: seq<(string, string)>, name: string) returns (i: int)
    ensures var value := LastValue(members, name);
            if value.Some? then LastAt(members, name, i) && value.value == members[i].1
            else forall j :: !LastAt(members, name, j)
    ensures LastValue(members, name).None? ==> forall j :: 0 <= j < |members| ==> AsciiLower(members[j].0) != name
  {
    i := |members| - 1;
    if members != [] && AsciiLower(members[i].0) != name {
      var front := members[..i];
      i := LastValueIsLast(front, name);
    }
  }

  lemma {:induction false} LastValueConcat(a: seq<(string, string)>, b: seq<(string, string)>, name: string)
    ensures LastValue(a + b, name) == if LastValue(b, name).Some? then LastValue(b, name) else LastValue(a, name)
    decreases |b|
  {
    if b == [] {
      assert a + b == a;
    } else {
      assert (a + b)[..|a + b| - 1] == a + b[..|b| - 1];
      LastValueConcat(a, b[..|b| - 1], name);
    }
  }

  /** Successive inserts keep, for every name, the last value given to it. */
  lemma {:induction false} InsertedMeans(m: Headers, members: seq<(string, string)>, name: string)
    ensures name in Inserted(m, members) <==> LastValue(members, name).Some? || name in m
    ensures name in Inserted(m, members) ==>
              Inserted(m, members)[name] ==
              if LastValue(members, name).Some? then LastValue(members, name).value else m[name]
    decreases |members|
  {
    if members != [] {
      var m' := m[AsciiLower(members[0].0) := members[0].1];
      InsertedMeans(m', members[1..], name);
      assert members == [members[0]] + members[1..];
      LastValueConcat([members[0]], members[1..], name);
      assert LastValue([members[0]], name) == if AsciiLower(members[0].0) == name then Some(members[0].1) else None;
    }
  }

  // ---------- sorted iteration of a BTreeMap ----------

  predicate Less(a: string, b: string) {
    b != "" && (a == "" || a[0] < b[0] || (a[0] == b[0] && Less(a[1..], b[1..])))
  }

  lemma LessTransitive(a: string, b: string, c: string)
    requires Less(a, b) && Less(b, c)
    ensures Less(a, c)
  {
  }

  lemma LessTotal(a: string, b: string)
    ensures a == b || Less(a, b) || Less(b, a)
    ensures !(Less(a, b) && Less(b, a)) && !Less(a, a)
  {
    if a != "" && b != "" {
      LessTotal(a[1..], b[1..]);
      assert a == [a[0]] + a[1..] && b == [b[0]] + b[1..];
    }
  }

  predicate IsLeast(k: string, s: set<string>) {
    k in s && forall j :: j in s && j != k ==> Less(k, j)
  }

  lemma LeastExists(s: set<string>) returns (k: string)
    requires s != {}
    ensures IsLeast(k, s)
  {
    k :| k in s;
    if s != {k} {
      var rest := s - {k};
      assert rest != {} by {
        assert s == rest + {k};
      }
      var r := LeastExists(rest);
      LessTotal(k, r);
      if Less(r, k) {
        k := r;
      } else {
        forall j | j in rest && j != r
          ensures Less(k, j)
        {
          LessTransitive(k, r, j);
        }
      }
    }
  }

  lemma LeastUnique(s: set<string>)
    requires s != {}
    ensures exists k :: IsLeast(k, s)
    ensures forall k, k' :: IsLeast(k, s) && IsLeast(k', s) ==> k == k'
  {
    var _ := LeastExists(s);
    forall k, k' | IsLeast(k, s) && IsLeast(k', s)
      ensures k == k'
    {
      LessTotal(k, k');
    }
  }

  function Least(s: set<string>): (k: string)
    requires s != {}
    ensures IsLeast(k, s)
  {
    LeastUnique(s);
    var k :| k in s && IsLeast(k, s);
    k
  }

  /** The pairs of a map in key order. */
  function Entries(m: Headers): (r: seq<(string, string)>)
    decreases |m|
  {
    if m == map[] then []
    else
      var k := Least(m.Keys);
      assert |m - {k}| < |m| by { assert m.Keys == (m - {k}).Keys + {k}; }
      [(k, m[k])] + Entries(m - {k})
  }

  predicate Lowered(m: Headers) {
    forall k :: k in m ==> AsciiLower(k) == k
  }

  lemma PickOut(m: Headers, seed: Headers, k: string)
    requires k in m
    ensures |m - {k}| < |m|
    ensures seed[k := m[k]] + (m - {k}) == seed + m
  {
    assert m.Keys == (m - {k}).Keys + {k};
  }

  /** Re-reading the sorted pairs of a map with lower-case names gives the map back. */
  lemma {:induction false} EntriesRoundTrip(m: Headers, seed: Headers)
    requires Lowered(m)
    ensures Inserted(seed, Entries(m)) == seed + m
    decreases |m|
  {
    if m != map[] {
      var k := Least(m.Keys);
      var es := Entries(m);
      PickOut(m, seed, k);
      assert es[0] == (k, m[k]) && es[1..] == Entries(m - {k});
      EntriesRoundTrip(m - {k}, seed[k := m[k]]);
    } else {
      assert seed + m == seed;
    }
  }

  /** `map_to_header_entries`. */
  function MapToHeaderEntries(m: Headers): seq<HeaderEntry> {
    var es := Entries(m);
    seq(|es|, i requires 0 <= i < |es| => HeaderEntry(es[i].0, es[i].1))
  }

  /** `header_entries_to_map`. */
  function HeaderEntriesToMap(entries: seq<HeaderEntry>): Headers {
    Inserted(map[], seq(|entries|, i requires 0 <= i < |entries| => (entries[i].name, entries[i].value)))
  }

  lemma HeaderEntriesRoundTrip(m: Headers)
    requires Lowered(m)
    ensures HeaderEntriesToMap(MapToHeaderEntries(m)) == m
  {
    var entries := MapToHeaderEntries(m);
    assert seq(|entries|, i requires 0 <= i < |entries| => (entries[i].name, entries[i].value)) == Entries(m);
    EntriesRoundTrip(m, map[]);
    assert map[] + m == m;
  }

  /** Inserts lower-case every name they add. */
  lemma {:induction false} InsertedLowered(m: Headers, members: seq<(string, string)>)
    requires Lowered(m)
    ensures Lowered(Inserted(m, members))
    decreases |members|
  {
    if members != [] {
      InsertedLowered(m[AsciiLower(members[0].0) := members[0].1], members[1..]);
    }
  }

  lemma {:induction false} InsertedConcat(m: Headers, a: seq<(string, string)>, b: seq<(string, string)>)
    ensures Inserted(m, a + b) == Inserted(Inserted(m, a), b)
    decreases |a|
  {
    if a == [] {
      assert a + b == b;
    } else {
      assert (a + b)[1..] == a[1..] + b;
      InsertedConcat(m[AsciiLower(a[0].0) := a[0].1], a[1..], b);
    }
  }

  // ---------- URL rewriting ----------

  function TrimSlashesEnd(s: string): string {
    if s != "" && s[|s| - 1] == '/' then TrimSlashesEnd(s[..|s| - 1]) else s
  }

  function TrimSlashesStart(s: string): string {
    if s != "" && s[0] == '/' then TrimSlashesStart(s[1..]) else s
  }

  /** `join_rewrite_target`. */
  function JoinRewriteTarget(targetBase: string, suffix: string): string {
    if suffix == "" then targetBase
    else TrimSlashesEnd(targetBase) + "/" + TrimSlashesStart(suffix)
  }

  /** `rewrite_url`. */
  function RewriteUrl(url: string, pattern: string, targetBase: string): string {
    if EndsWith(pattern, "*") && pattern[..|pattern| - 1] <= url
    then JoinRewriteTarget(targetBase, url[|pattern| - 1..])
    else targetBase
  }

  /** Slashes at the joint, however many on either side, become exactly one. */
  lemma {:induction false} JoinIgnoresSlashes(base: string, before: string, after: string, suffix: string)
    requires forall c :: c in before + after ==> c == '/'
    requires suffix != ""
    ensures JoinRewriteTarget(base + before, after + suffix) == JoinRewriteTarget(base, suffix)
    decreases |before| + |after|
  {
    if before != "" {
      var b := before[..|before| - 1];
      assert before[|before| - 1] in before + after;
      assert (base + before)[..|base + before| - 1] == base + b;
      assert forall c :: c in b + after ==> c in before + after;
      JoinIgnoresSlashes(base, b, after, suffix);
    } else if after != "" {
      assert after[0] in before + after;
      assert (after + suffix)[1..] == after[1..] + suffix;
      assert forall c :: c in before + after[1..] ==> c in before + after;
      JoinIgnoresSlashes(base, before, after[1..], suffix);
    } else {
      assert base + before == base && after + suffix == suffix;
    }
  }

  lemma TrimmedEnds(s: string)
    ensures TrimSlashesEnd(s) <= s && EndsWith(s, TrimSlashesStart(s))
    ensures TrimSlashesEnd(s) != "" ==> TrimSlashesEnd(s)[|TrimSlashesEnd(s)| - 1] != '/'
    ensures TrimSlashesStart(s) != "" ==> TrimSlashesStart(s)[0] != '/'
  {
    TrimmedEnd(s);
    TrimmedStart(s);
  }

  lemma {:induction false} TrimmedEnd(s: string)
    ensures TrimSlashesEnd(s) <= s
    ensures TrimSlashesEnd(s) != "" ==> TrimSlashesEnd(s)[|TrimSlashesEnd(s)| - 1] != '/'
  {
    if s != "" && s[|s| - 1] == '/' {
      TrimmedEnd(s[..|s| - 1]);
    }
  }

  lemma {:induction false} TrimmedStart(s: string)
    ensures EndsWith(s, TrimSlashesStart(s))
    ensures TrimSlashesStart(s) != "" ==> TrimSlashesStart(s)[0] != '/'
  {
    if s != "" && s[0] == '/' {
      var rest := s[1..];
      TrimmedStart(rest);
      var trimmed := TrimSlashesStart(rest);
      assert s[|s| - |trimmed|..] == rest[|rest| - |trimmed|..];
    }
  }

  lemma StarPattern(url: string, prefix: string, rest: string, targetBase: string)
    requires url == prefix + rest
    ensures RewriteUrl(url, prefix + "*", targetBase) == JoinRewriteTarget(targetBase, rest)
  {
    var pattern := prefix + "*";
    assert pattern[..|pattern| - 1] == prefix && pattern[|pattern| - 1..] == "*" && url[|prefix|..] == rest;
  }

  lemma NothingToTrim(base: string, suffix: string)
    requires (base != "" ==> base[|base| - 1] != '/') && suffix != "" && suffix[0] != '/'
    ensures JoinRewriteTarget(base, suffix) == base + "/" + suffix
  {
  }

  lemma OnlySlashesLeft(base: string)
    requires base != "" ==> base[|base| - 1] != '/'
    ensures JoinRewriteTarget(base, "/") == base + "/"
  {
    assert TrimSlashesStart("/") == "";
  }

  lemma JoinedSlashes(stem: string, baseSlashes: string, restSlashes: string, rest: string)
    requires forall c :: c in baseSlashes + restSlashes ==> c == '/'
    requires (stem != "" ==> stem[|stem| - 1] != '/') && (rest != "" ==> rest[0] != '/')
    requires restSlashes + rest != ""
    ensures JoinRewriteTarget(stem + baseSlashes, restSlashes + rest) == stem + "/" + rest
  {
    if rest != "" {
      JoinIgnoresSlashes(stem, baseSlashes, restSlashes, rest);
      NothingToTrim(stem, rest);
    } else {
      var fewer := restSlashes[..|restSlashes| - 1];
      assert restSlashes[|restSlashes| - 1] in baseSlashes + restSlashes;
      assert forall c :: c in baseSlashes + fewer ==> c in baseSlashes + restSlashes;
      assert restSlashes + rest == fewer + "/";
      JoinIgnoresSlashes(stem, baseSlashes, fewer, "/");
      OnlySlashesLeft(stem);
      assert stem + "/" + rest == stem + "/";
    }
  }

  /**
   * The rewritten URL of a pattern that ends in a star: the base without its end slashes, one slash, and the rest
   * of the URL without its start slashes; the base as it is when nothing of the URL is left.
   */
  lemma RewrittenUrl(stem: string, baseSlashes: string, prefix: string, restSlashes: string, rest: string)
    requires forall c :: c in baseSlashes + restSlashes ==> c == '/'
    requires (stem != "" ==> stem[|stem| - 1] != '/') && (rest != "" ==> rest[0] != '/')
    ensures RewriteUrl(prefix + restSlashes + rest, prefix + "*", stem + baseSlashes)
         == if restSlashes + rest == "" then stem + baseSlashes else stem + "/" + rest
  {
    assert prefix + restSlashes + rest == prefix + (restSlashes + rest);
    StarPattern(prefix + restSlashes + rest, prefix, restSlashes + rest, stem + baseSlashes);
    if restSlashes + rest != "" {
      JoinedSlashes(stem, baseSlashes, restSlashes, rest);
    }
  }

  /** Any other pattern, and one whose text before the last star does not begin the URL, rewrites to the base. */
  lemma OtherwiseBase(url: string, pattern: string, targetBase: string)
    requires pattern == "" || pattern[|pattern| - 1] != '*' || !(pattern[..|pattern| - 1] <= url)
    ensures RewriteUrl(url, pattern, targetBase) == targetBase
  {
    assert EndsWith(pattern, "*") ==> pattern != "" && pattern[|pattern| - 1..] == "*";
  }

  /**
   * A prefix pattern: it matches the URLs that start with the prefix, and rewriting carries the rest of
   * the URL over to the target base.
   */
  lemma PrefixPatternRewrites(url: string, prefix: string, targetBase: string)
    requires '*' !in prefix
    ensures GlobMatches(prefix + "*", url) <==> prefix <= url
    ensures prefix <= url ==>
              RewriteUrl(url, prefix + "*", targetBase) == JoinRewriteTarget(targetBase, url[|prefix|..])
  {
    var pattern := prefix + "*";
    assert pattern[..|pattern| - 1] == prefix;
    assert EndsWith(pattern, "*");
    PrefixPatternMatches(url, prefix);
  }

  lemma PrefixPatternMatches(url: string, prefix: string)
    requires '*' !in prefix
    ensures GlobMatches(prefix + "*", url) <==> prefix <= url
  {
    var parts := [prefix, ""];
    PrefixSplit(prefix);
    GlobIsPartsMatch(prefix + "*", url);
    if prefix <= url {
      LastPart("", url[|prefix|..]);
      assert parts[1..] == [""];
    }
  }

  lemma {:induction false} PrefixSplit(prefix: string)
    requires '*' !in prefix
    ensures Split(prefix + "*", '*') == [prefix, ""]
  {
    if prefix == "" {
      assert prefix + "*" == "*";
      assert Split("", '*') == [""];
    } else {
      assert (prefix + "*")[1..] == prefix[1..] + "*";
      PrefixSplit(prefix[1..]);
      assert prefix[0] in prefix && [prefix[0]] + prefix[1..] == prefix;
      assert [prefix[1..], ""][1..] == [""];
    }
  }

  /** A pattern without a trailing star sends every request to the base itself. */
  lemma ExactPatternRewrites(url: string, pattern: string, targetBase: string)
    requires '*' !in pattern
    ensures GlobMatches(pattern, url) <==> url == pattern
    ensures RewriteUrl(url, pattern, targetBase) == targetBase
  {
    GlobIsPartsMatch(pattern, url);
    NoStarSplit(pattern);
    assert pattern != "" ==> pattern[|pattern| - 1] in pattern;
  }

  lemma NoStarSplit(pattern: string)
    requires '*' !in pattern
    ensures Split(pattern, '*') == [pattern]
  {
  }

  // ---------- the plan ----------

  datatype PlanAction =
    | Continue(url: Option<string>, headers: Option<seq<HeaderEntry>>)
    | BlockRequest

  datatype Plan = Plan(action: PlanAction, effects: seq<Effect>)

  datatype TerminalAction = AllowIt | BlockIt | RewriteTo(url: string)

  ghost predicate Applies(rule: Rule, url: string) {
    rule.status == Active && GlobMatches(rule.spec.urlPattern, url)
  }

  /** The active rules that match, in list order. */
  ghost function Applying(rules: seq<Rule>, url: string): seq<Rule> {
    if rules == [] then []
    else
      var front, last := Applying(rules[..|rules| - 1], url), rules[|rules| - 1];
      if Applies(last, url) then front + [last] else front
  }

  function EffectOf(rule: Rule): Effect {
    Effect(rule.id, match rule.spec
                    case Rewrite(_, _) => RewriteEffect
                    case Block(_) => BlockEffect
                    case Allow(_) => AllowEffect
                    case HeaderOverride(_, _) => HeaderOverrideEffect)
  }

  function Effects(rules: seq<Rule>): seq<Effect> {
    seq(|rules|, i requires 0 <= i < |rules| => EffectOf(rules[i]))
  }

  /** The first rule that settles what happens to the request. */
  function FirstTerminal(rules: seq<Rule>): (r: Option<Rule>)
    ensures r.Some? ==> !r.value.spec.HeaderOverride?
  {
    if rules == [] then None
    else if rules[0].spec.HeaderOverride? then FirstTerminal(rules[1..])
    else Some(rules[0])
  }

  /** Every header the overrides set, in rule order and, within a rule, in key order. */
  function Overrides(rules: seq<Rule>): seq<(string, string)> {
    if rules == [] then []
    else
      var front, last := Overrides(rules[..|rules| - 1]), rules[|rules| - 1];
      if last.spec.HeaderOverride? then front + Entries(last.spec.headers) else front
  }

  predicate OverridesHeaders(rules: seq<Rule>) {
    exists i :: 0 <= i < |rules| && rules[i].spec.HeaderOverride?
  }

  function Terminal(rule: Rule, url: string): TerminalAction
    requires !rule.spec.HeaderOverride?
  {
    match rule.spec
    case Rewrite(pattern, base) => RewriteTo(RewriteUrl(url, pattern, base))
    case Block(_) => BlockIt
    case Allow(_) => AllowIt
  }

  function TerminalOf(rules: seq<Rule>, url: string): Option<TerminalAction> {
    match FirstTerminal(rules)
    case None => None
    case Some(rule) => Some(Terminal(rule, url))
  }

  function ActionFor(t: TerminalAction, headers: Option<seq<HeaderEntry>>): PlanAction {
    match t
    case BlockIt => BlockRequest
    case AllowIt => Continue(None, headers)
    case RewriteTo(url) => Continue(Some(url), headers)
  }

  function Merged(headers: JsonHeaders, applying: seq<Rule>): Headers {
    Inserted(HeadersToMap(headers), Overrides(applying))
  }

  /** The plan the applying rules call for. */
  ghost function PlanFor(url: string, headers: JsonHeaders, rules: seq<Rule>): Option<Plan> {
    var applying := Applying(rules, url);
    if applying == [] then None
    else
      var terminal := TerminalOf(applying, url);
      var entries := if OverridesHeaders(applying) then Some(MapToHeaderEntries(Merged(headers, applying))) else None;
      Some(Plan(ActionFor(if terminal.Some? then terminal.value else AllowIt, entries), Effects(applying)))
  }

  lemma ApplyingMembers(rules: seq<Rule>, url: string)
    ensures forall rule :: rule in Applying(rules, url) <==> rule in rules && Applies(rule, url)
  {
    if rules != [] {
      ApplyingMembers(rules[..|rules| - 1], url);
      assert rules == rules[..|rules| - 1] + [rules[|rules| - 1]];
    }
  }

  lemma FirstTerminalSnoc(rules: seq<Rule>, rule: Rule)
    ensures FirstTerminal(rules + [rule])
         == if FirstTerminal(rules).Some? then FirstTerminal(rules)
            else if rule.spec.HeaderOverride? then None else Some(rule)
  {
    if rules == [] {
      assert rules + [rule] == [rule];
    } else {
      assert (rules + [rule])[1..] == rules[1..] + [rule];
      FirstTerminalSnoc(rules[1..], rule);
    }
  }

  /** One more applying rule, as the loop of the planner sees it. */
  lemma Snoc(rules: seq<Rule>, rule: Rule, url: string)
    ensures Effects(rules + [rule]) == Effects(rules) + [EffectOf(rule)]
    ensures Overrides(rules + [rule])
         == if rule.spec.HeaderOverride? then Overrides(rules) + Entries(rule.spec.headers) else Overrides(rules)
    ensures OverridesHeaders(rules + [rule]) <==> OverridesHeaders(rules) || rule.spec.HeaderOverride?
    ensures TerminalOf(rules + [rule], url)
         == if TerminalOf(rules, url).Some? then TerminalOf(rules, url)
            else if rule.spec.HeaderOverride? then None else Some(Terminal(rule, url))
  {
    FirstTerminalSnoc(rules, rule);
    assert (rules + [rule])[..|rules|] == rules;
    assert (rules + [rule])[|rules|] == rule;
    if OverridesHeaders(rules) {
      var i :| 0 <= i < |rules| && rules[i].spec.HeaderOverride?;
      assert (rules + [rule])[i] == rules[i];
    }
  }

  /** `build_request_plan`: one pass over the rules. */
  method BuildRequestPlan(url: string, headers: JsonHeaders, rules: seq<Rule>) returns (plan: Option<Plan>)
    ensures plan == PlanFor(url, headers, rules)
  {
    var matchedAny, headersModified := false, false;
    var terminalAction: Option<TerminalAction> := None;
    var mergedHeaders := HeadersToMap(headers);
    var effects: seq<Effect> := [];
    for i := 0 to |rules|
      invariant matchedAny <==> Applying(rules[..i], url) != []
      invariant effects == Effects(Applying(rules[..i], url))
      invariant terminalAction == TerminalOf(Applying(rules[..i], url), url)
      invariant mergedHeaders == Merged(headers, Applying(rules[..i], url))
      invariant headersModified <==> OverridesHeaders(Applying(rules[..i], url))
    {
      var rule := rules[i];
      assert rules[..i + 1][..i] == rules[..i];
      if rule.status != Active {
        continue;
      }
      var matches := WildcardMatches(rule.spec.urlPattern, url);
      if !matches {
        continue;
      }
      ghost var before := Applying(rules[..i], url);
      assert Applying(rules[..i + 1], url) == before + [rule];
      Snoc(before, rule, url);
      matchedAny := true;
      effects := effects + [EffectOf(rule)];
      if rule.spec.HeaderOverride? {
        headersModified := true;
        InsertedConcat(HeadersToMap(headers), Overrides(before), Entries(rule.spec.headers));
        mergedHeaders := InsertAll(mergedHeaders, rule.spec.headers);
      } else if terminalAction.None? {
        terminalAction := Some(Terminal(rule, url));
      }
    }
    assert rules[..|rules|] == rules;
    if !matchedAny {
      return None;
    }
    var entries := if headersModified then Some(MapToHeaderEntries(mergedHeaders)) else None;
    var terminal := if terminalAction.Some? then terminalAction.value else AllowIt;
    plan := Some(Plan(ActionFor(terminal, entries), effects));
  }

  /** The inner loop over one override. */
  method InsertAll(merged: Headers, headers: Headers) returns (r: Headers)
    ensures r == Inserted(merged, Entries(headers))
  {
    var es := Entries(headers);
    r := merged;
    for i := 0 to |es|
      invariant r == Inserted(merged, es[..i])
    {
      assert es[..i + 1] == es[..i] + [es[i]];
      InsertedConcat(merged, es[..i], [es[i]]);
      r := r[AsciiLower(es[i].0) := es[i].1];
    }
    assert es[..|es|] == es;
  }

  // ---------- what the plan means ----------

  /** There is a plan exactly when an active rule matches, and then it reports at least one effect. */
  lemma PlanIffRuleApplies(url: string, headers: JsonHeaders, rules: seq<Rule>)
    ensures PlanFor(url, headers, rules).Some? <==> exists rule :: rule in rules && Applies(rule, url)
    ensures PlanFor(url, headers, rules).Some? ==> PlanFor(url, headers, rules).value.effects != []
  {
    ApplyingMembers(rules, url);
    HeadMember(Applying(rules, url));
  }

  /** How many of the first `n` rules are active and match. */
  ghost function Rank(rules: seq<Rule>, url: string, n: nat): nat
    requires n <= |rules|
  {
    if n == 0 then 0 else Rank(rules, url, n - 1) + if Applies(rules[n - 1], url) then 1 else 0
  }

  lemma {:induction false} ApplyingRanked(rules: seq<Rule>, url: string, n: nat, i: nat)
    requires n <= |rules|
    ensures |Applying(rules[..n], url)| == Rank(rules, url, n)
    ensures i < n && Applies(rules[i], url) ==>
              Rank(rules, url, i) < Rank(rules, url, n) && Applying(rules[..n], url)[Rank(rules, url, i)] == rules[i]
    decreases n
  {
    if n > 0 {
      assert rules[..n][..n - 1] == rules[..n - 1];
      ApplyingRanked(rules, url, n - 1, i);
    }
  }

  /** The effects are those of every active matching rule and no other, in rule order. */
  lemma EffectsInOrder(url: string, headers: JsonHeaders, rules: seq<Rule>, plan: Plan, i: nat)
    requires PlanFor(url, headers, rules) == Some(plan) && i < |rules|
    ensures |plan.effects| == Rank(rules, url, |rules|)
    ensures Applies(rules[i], url) ==>
              && Rank(rules, url, i) < |plan.effects|
              && var effect := plan.effects[Rank(rules, url, i)];
                 && effect.ruleId == rules[i].id
                 && (effect.kind == RewriteEffect <==> rules[i].spec.Rewrite?)
                 && (effect.kind == BlockEffect <==> rules[i].spec.Block?)
                 && (effect.kind == AllowEffect <==> rules[i].spec.Allow?)
                 && (effect.kind == HeaderOverrideEffect <==> rules[i].spec.HeaderOverride?)
  {
    assert rules[..|rules|] == rules;
    ApplyingRanked(rules, url, |rules|, i);
  }

  ghost predicate FirstTerminalAt(rules: seq<Rule>, url: string, i: int) {
    && 0 <= i < |rules| && Applies(rules[i], url) && !rules[i].spec.HeaderOverride?
    && forall j :: 0 <= j < i && Applies(rules[j], url) ==> rules[j].spec.HeaderOverride?
  }

  /** The first applying rewrite, block or allow in list order decides; with none the request continues. */
  lemma FirstTerminalDecides(url: string, rules: seq<Rule>, i: nat)
    requires FirstTerminalAt(rules, url, i)
    ensures FirstTerminal(Applying(rules, url)) == Some(rules[i])
    decreases |rules|
  {
    var n := |rules| - 1;
    var front := rules[..n];
    if i == n {
      NoTerminal(url, front);
      FirstTerminalSnoc(Applying(front, url), rules[n]);
    } else {
      assert FirstTerminalAt(front, url, i);
      FirstTerminalDecides(url, front, i);
      if Applies(rules[n], url) {
        FirstTerminalSnoc(Applying(front, url), rules[n]);
      }
    }
  }

  lemma NoTerminal(url: string, rules: seq<Rule>)
    requires forall j :: 0 <= j < |rules| && Applies(rules[j], url) ==> rules[j].spec.HeaderOverride?
    ensures FirstTerminal(Applying(rules, url)) == None
  {
    if rules != [] {
      var n := |rules| - 1;
      NoTerminal(url, rules[..n]);
      if Applies(rules[n], url) {
        FirstTerminalSnoc(Applying(rules[..n], url), rules[n]);
      }
    }
  }

  lemma NoTerminalAt(url: string, rules: seq<Rule>)
    requires FirstTerminal(Applying(rules, url)).None?
    ensures forall i :: !FirstTerminalAt(rules, url, i)
  {
    forall i | 0 <= i < |rules| && Applies(rules[i], url)
      ensures rules[i].spec.HeaderOverride?
    {
      OnlyOverrides(rules, url, i);
    }
  }

  lemma {:induction false} TerminalIsAt(rules: seq<Rule>, url: string) returns (i: nat)
    requires FirstTerminal(Applying(rules, url)).Some?
    ensures FirstTerminalAt(rules, url, i)
    decreases |rules|
  {
    var n := |rules| - 1;
    var front := rules[..n];
    if FirstTerminal(Applying(front, url)).Some? {
      i := TerminalIsAt(front, url);
    } else {
      i := n;
      if Applies(rules[n], url) {
        FirstTerminalSnoc(Applying(front, url), rules[n]);
      }
      forall j | 0 <= j < n && Applies(rules[j], url)
        ensures rules[j].spec.HeaderOverride?
      {
        OnlyOverrides(front, url, j);
      }
    }
  }

  lemma {:induction false} OnlyOverrides(rules: seq<Rule>, url: string, j: nat)
    requires FirstTerminal(Applying(rules, url)).None? && j < |rules| && Applies(rules[j], url)
    ensures rules[j].spec.HeaderOverride?
    decreases |rules|
  {
    var n := |rules| - 1;
    if Applies(rules[n], url) {
      FirstTerminalSnoc(Applying(rules[..n], url), rules[n]);
    }
    if j < n {
      OnlyOverrides(rules[..n], url, j);
    }
  }

  /**
   * The action, from the list alone: blocked exactly when the first applying rule that is not a header
   * override is a block, rewritten exactly when it is a rewrite, and then to that rule's target.
   */
  lemma PlanActionMeans(url: string, headers: JsonHeaders, rules: seq<Rule>, plan: Plan)
    requires PlanFor(url, headers, rules) == Some(plan)
    ensures plan.action.BlockRequest? <==> exists i :: FirstTerminalAt(rules, url, i) && rules[i].spec.Block?
    ensures plan.action.Continue? && plan.action.url.Some? <==>
            exists i :: FirstTerminalAt(rules, url, i) && rules[i].spec.Rewrite?
    ensures forall i :: FirstTerminalAt(rules, url, i) && rules[i].spec.Rewrite? ==>
              plan.action.url == Some(RewriteUrl(url, rules[i].spec.urlPattern, rules[i].spec.targetBase))
  {
    var first := FirstTerminal(Applying(rules, url));
    if first.Some? {
      var i := TerminalIsAt(rules, url);
      FirstTerminalDecides(url, rules, i);
      assert forall j :: FirstTerminalAt(rules, url, j) ==> j == i;
    } else {
      assert forall i :: !FirstTerminalAt(rules, url, i) by {
        NoTerminalAt(url, rules);
      }
    }
  }

  /** An allow rule does not override a block rule that stands before it in the list. */
  lemma AllowAfterBlockIsBlocked(url: string, headers: JsonHeaders)
    ensures var rules := [Rule(1, Active, Block("*")), Rule(2, Active, Allow(url))];
            PlanFor(url, headers, rules).Some? && PlanFor(url, headers, rules).value.action == BlockRequest
  {
    var rules := [Rule(1, Active, Block("*")), Rule(2, Active, Allow(url))];
    LoneStar(url);
    assert Applies(rules[0], url);
    assert rules[0] in rules;
    PlanIffRuleApplies(url, headers, rules);
    assert FirstTerminalAt(rules, url, 0);
    PlanActionMeans(url, headers, rules, PlanFor(url, headers, rules).value);
  }

  /** A rewrite or allow rule that matches, with no matching block rule before it. */
  ghost predicate LetsThrough(rules: seq<Rule>, url: string, k: int) {
    && 0 <= k < |rules| && Applies(rules[k], url) && (rules[k].spec.Rewrite? || rules[k].spec.Allow?)
    && forall j :: 0 <= j < k && Applies(rules[j], url) ==> !rules[j].spec.Block?
  }

  lemma {:induction false} FirstTerminalUpTo(rules: seq<Rule>, url: string, a: nat) returns (i: nat)
    requires a < |rules| && Applies(rules[a], url) && !rules[a].spec.HeaderOverride?
    ensures FirstTerminalAt(rules, url, i)
    decreases a
  {
    if FirstTerminalAt(rules, url, a) {
      i := a;
    } else {
      var j: nat :| j < a && Applies(rules[j], url) && !rules[j].spec.HeaderOverride?;
      i := FirstTerminalUpTo(rules, url, j);
    }
  }

  lemma LetsThroughIff(rules: seq<Rule>, url: string, a: nat)
    requires a < |rules| && Applies(rules[a], url) && rules[a].spec.Allow?
    ensures (exists k :: LetsThrough(rules, url, k)) <==>
            !exists i :: FirstTerminalAt(rules, url, i) && rules[i].spec.Block?
  {
    var i := FirstTerminalUpTo(rules, url, a);
    if rules[i].spec.Block? {
      assert forall k :: !LetsThrough(rules, url, k);
    } else {
      assert LetsThrough(rules, url, i);
    }
  }

  /** With a matching allow rule, the request is let through iff no matching block rule comes first. */
  lemma AllowWinsIff(url: string, headers: JsonHeaders, rules: seq<Rule>, a: nat, plan: Plan)
    requires a < |rules| && Applies(rules[a], url) && rules[a].spec.Allow?
    requires PlanFor(url, headers, rules) == Some(plan)
    ensures plan.action.Continue? <==> exists k :: LetsThrough(rules, url, k)
  {
    LetsThroughIff(rules, url, a);
    PlanActionMeans(url, headers, rules, plan);
  }
}
