/** Which headers a request plan of network_rules.rs sends, told from the request and the rules. */
module SentHeaders {
  import opened Collections
  import opened Text
  import opened NetworkRules
  import opened RulePlan

  /** Rule `i` applies, overrides headers, and its map has the key, which folds to the name. */
  ghost predicate OverrideAt(rules: seq<Rule>, url: string, name: string, i: int, key: string) {
    && 0 <= i < |rules| && Applies(rules[i], url) && rules[i].spec.HeaderOverride?
    && key in rules[i].spec.headers && AsciiLower(key) == name
  }

  /** It is the last such rule, and the greatest such key of that rule. */
  ghost predicate LastOverrideAt(rules: seq<Rule>, url: string, name: string, i: int, key: string) {
    && OverrideAt(rules, url, name, i, key)
    && forall j, k :: OverrideAt(rules, url, name, j, k) ==> j < i || (j == i && (k == key || Less(k, key)))
  }

  /** Member `i` of the request's header object folds to the name. */
  ghost predicate MemberAt(headers: JsonHeaders, name: string, i: int) {
    headers.JsonObject? && 0 <= i < |headers.members| && AsciiLower(headers.members[i].0) == name
  }

  ghost predicate LastMemberAt(headers: JsonHeaders, name: string, i: int) {
    MemberAt(headers, name, i) && forall j :: MemberAt(headers, name, j) ==> j <= i
  }

  /** The value a name is sent with: by the last override that has it, else by the last member that has it. */
  ghost predicate SentAs(headers: JsonHeaders, rules: seq<Rule>, url: string, name: string, value: string) {
    || (exists i, key :: LastOverrideAt(rules, url, name, i, key) && rules[i].spec.headers[key] == value)
    || ((forall i, key :: !OverrideAt(rules, url, name, i, key))
        && exists i :: LastMemberAt(headers, name, i)
             && (headers.members[i].1 == JsonString(value) || headers.members[i].1 == JsonOther(value)))
  }

  /** The greatest key that folds to a name decides what a map's sorted pairs give it. */
  lemma {:induction false} GreatestKeyWins(m: Headers, name: string, key: string)
    requires key in m && AsciiLower(key) == name
    requires forall k :: k in m && AsciiLower(k) == name ==> k == key || Less(k, key)
    ensures LastValue(Entries(m), name) == Some(m[key])
    decreases |m|
  {
    var first := Least(m.Keys);
    var rest := m - {first};
    PickOut(m, map[], first);
    LastValueConcat([(first, m[first])], Entries(rest), name);
    if first == key {
      forall k | k in rest
        ensures AsciiLower(k) != name
      {
        LessTotal(k, key);
      }
      NoKeyFolds(rest, name);
      assert [(first, m[first])][..0] == [];
    } else {
      GreatestKeyWins(rest, name, key);
    }
  }

  lemma {:induction false} NoKeyFolds(m: Headers, name: string)
    requires forall k :: k in m ==> AsciiLower(k) != name
    ensures LastValue(Entries(m), name) == None
    decreases |m|
  {
    if m != map[] {
      var first := Least(m.Keys);
      PickOut(m, map[], first);
      LastValueConcat([(first, m[first])], Entries(m - {first}), name);
      NoKeyFolds(m - {first}, name);
      assert [(first, m[first])][..0] == [];
    }
  }

  lemma {:induction false} GreatestOf(keys: set<string>) returns (key: string)
    requires keys != {}
    ensures key in keys && forall k :: k in keys ==> k == key || Less(k, key)
    decreases |keys|
  {
    key :| key in keys;
    var rest := keys - {key};
    if rest != {} {
      var other := GreatestOf(rest);
      LessTotal(key, other);
      if Less(key, other) {
        key := other;
      } else {
        forall k | k in rest && k != other
          ensures Less(k, key)
        {
          LessTransitive(k, other, key);
        }
      }
    }
  }

  /** When the newest rule overrides the name, it decides. */
  lemma NewestOverrides(rules: seq<Rule>, url: string, name: string, n: nat, some: string) returns (key: string)
    requires |rules| == n + 1 && OverrideAt(rules, url, name, n, some)
    ensures LastOverrideAt(rules, url, name, n, key)
    ensures LastValue(Overrides(Applying(rules, url)), name) == Some(rules[n].spec.headers[key])
  {
    var before, last := Applying(rules[..n], url), rules[n];
    var keys := set k | k in last.spec.headers && AsciiLower(k) == name;
    assert some in keys;
    key := GreatestOf(keys);
    GreatestKeyWins(last.spec.headers, name, key);
    Snoc(before, last, url);
    LastValueConcat(Overrides(before), Entries(last.spec.headers), name);
  }

  /** When it does not, the rules before it decide. */
  lemma NewestAbstains(rules: seq<Rule>, url: string, name: string, n: nat)
    requires |rules| == n + 1 && forall k :: !OverrideAt(rules, url, name, n, k)
    ensures LastValue(Overrides(Applying(rules, url)), name) == LastValue(Overrides(Applying(rules[..n], url)), name)
  {
    var before, last := Applying(rules[..n], url), rules[n];
    if Applies(last, url) {
      Snoc(before, last, url);
      if last.spec.HeaderOverride? {
        assert forall k :: k in last.spec.headers && AsciiLower(k) == name ==> OverrideAt(rules, url, name, n, k);
        NoKeyFolds(last.spec.headers, name);
        LastValueConcat(Overrides(before), Entries(last.spec.headers), name);
      }
    }
  }

  lemma {:induction false} OverriddenValue(rules: seq<Rule>, url: string, name: string)
    returns (i: int, key: string)
    ensures var value := LastValue(Overrides(Applying(rules, url)), name);
            if value.Some? then LastOverrideAt(rules, url, name, i, key) && value.value == rules[i].spec.headers[key]
            else forall j, k :: !OverrideAt(rules, url, name, j, k)
    decreases |rules|
  {
    i, key := |rules| - 1, "";
    if some :| OverrideAt(rules, url, name, i, some) {
      key := NewestOverrides(rules, url, name, i, some);
    } else if rules != [] {
      var front := rules[..i];
      NewestAbstains(rules, url, name, i);
      i, key := OverriddenValue(front, url, name);
      assert forall j, k :: OverrideAt(rules, url, name, j, k) <==> OverrideAt(front, url, name, j, k);
    }
  }

  lemma MembersAreTexts(headers: JsonHeaders, name: string, i: int)
    requires headers.JsonObject?
    ensures LastAt(Texts(headers.members), name, i) <==> LastMemberAt(headers, name, i)
  {
    var texts := Texts(headers.members);
    assert |texts| == |headers.members|;
    assert forall j :: 0 <= j < |texts| ==> texts[j].0 == headers.members[j].0;
    assert forall j :: MemberAt(headers, name, j) <==> 0 <= j < |texts| && AsciiLower(texts[j].0) == name;
  }

  lemma OriginalValue(headers: JsonHeaders, name: string) returns (i: int)
    ensures var original := HeadersToMap(headers);
            if name in original then
              && LastMemberAt(headers, name, i)
              && ValueText(headers.members[i].1) == original[name]
            else forall j :: !LastMemberAt(headers, name, j)
  {
    i := 0;
    if headers.JsonObject? {
      var texts := Texts(headers.members);
      InsertedMeans(map[], texts, name);
      i := LastValueIsLast(texts, name);
      forall j
        ensures LastAt(texts, name, j) <==> LastMemberAt(headers, name, j)
      {
        MembersAreTexts(headers, name, j);
      }
    }
  }

  lemma SentByOverride(
    headers: JsonHeaders, rules: seq<Rule>, url: string, name: string, value: string, i: int, key: string)
    requires LastOverrideAt(rules, url, name, i, key)
    ensures SentAs(headers, rules, url, name, value) <==> rules[i].spec.headers[key] == value
  {
    OneLastOverride(rules, url, name, i, key);
  }

  lemma SentByMember(headers: JsonHeaders, rules: seq<Rule>, url: string, name: string, value: string, i: int)
    requires forall j, k :: !OverrideAt(rules, url, name, j, k)
    ensures (forall j :: !LastMemberAt(headers, name, j)) ==> !SentAs(headers, rules, url, name, value)
    ensures LastMemberAt(headers, name, i) ==>
              (SentAs(headers, rules, url, name, value) <==> ValueText(headers.members[i].1) == value)
  {
    if LastMemberAt(headers, name, i) {
      assert forall j :: LastMemberAt(headers, name, j) ==> j == i;
    }
  }

  /** The merged map gives a name exactly the value it is sent as, and has no other names. */
  lemma MergedMeans(headers: JsonHeaders, rules: seq<Rule>, url: string, name: string, value: string)
    ensures Lowered(Merged(headers, Applying(rules, url)))
    ensures var merged := Merged(headers, Applying(rules, url));
            name in merged && merged[name] == value <==> SentAs(headers, rules, url, name, value)
  {
    var overrides := Overrides(Applying(rules, url));
    MergedLowered(headers, Applying(rules, url));
    InsertedMeans(HeadersToMap(headers), overrides, name);
    var i, key := OverriddenValue(rules, url, name);
    if LastValue(overrides, name).Some? {
      SentByOverride(headers, rules, url, name, value, i, key);
    } else {
      var m := OriginalValue(headers, name);
      SentByMember(headers, rules, url, name, value, m);
    }
  }

  lemma OneLastOverride(rules: seq<Rule>, url: string, name: string, i: int, key: string)
    ensures LastOverrideAt(rules, url, name, i, key) ==>
              forall j, k :: LastOverrideAt(rules, url, name, j, k) ==> j == i && k == key
  {
    forall j, k | LastOverrideAt(rules, url, name, i, key) && LastOverrideAt(rules, url, name, j, k)
      ensures j == i && k == key
    {
      LessTotal(k, key);
    }
  }

  lemma MergedLowered(headers: JsonHeaders, applying: seq<Rule>)
    ensures Lowered(Merged(headers, applying))
  {
    if headers.JsonObject? {
      InsertedLowered(map[], Texts(headers.members));
    }
    InsertedLowered(HeadersToMap(headers), Overrides(applying));
  }

  /**
   * A plan that continues sends headers exactly when an override applies. It then sends every name once, in
   * order, with the value the last override gave it, and otherwise with the value the request itself gave it.
   */
  lemma PlanHeaders(url: string, headers: JsonHeaders, rules: seq<Rule>, plan: Plan, name: string, value: string)
    requires PlanFor(url, headers, rules) == Some(plan)
    requires plan.action.Continue?
    ensures plan.action.headers.Some? <==>
            exists i :: 0 <= i < |rules| && Applies(rules[i], url) && rules[i].spec.HeaderOverride?
    ensures plan.action.headers.Some? ==>
              var sent := plan.action.headers.value;
              && (HeaderEntry(name, value) in sent <==> SentAs(headers, rules, url, name, value))
              && forall a, b :: 0 <= a < b < |sent| ==> Less(sent[a].name, sent[b].name)
  {
    var merged := Merged(headers, Applying(rules, url));
    OverriddenIff(rules, url);
    MergedMeans(headers, rules, url, name, value);
    EntriesListed(merged, name, value);
  }

  lemma OverriddenIff(rules: seq<Rule>, url: string)
    ensures OverridesHeaders(Applying(rules, url)) <==>
            exists i :: 0 <= i < |rules| && Applies(rules[i], url) && rules[i].spec.HeaderOverride?
  {
    var applying := Applying(rules, url);
    ApplyingMembers(rules, url);
    assert OverridesHeaders(applying) <==> exists rule :: rule in applying && rule.spec.HeaderOverride?;
  }

  lemma {:induction false} EntriesMembers(m: Headers, name: string, value: string)
    ensures (name, value) in Entries(m) <==> name in m && m[name] == value
    decreases |m|
  {
    if m != map[] {
      var k := Least(m.Keys);
      PickOut(m, map[], k);
      EntriesMembers(m - {k}, name, value);
    }
  }

  lemma {:induction false} EntriesSorted(m: Headers)
    ensures forall a, b :: 0 <= a < b < |Entries(m)| ==> Less(Entries(m)[a].0, Entries(m)[b].0)
    decreases |m|
  {
    if m != map[] {
      var k := Least(m.Keys);
      var rest := Entries(m - {k});
      PickOut(m, map[], k);
      EntriesSorted(m - {k});
      forall b | 0 <= b < |rest|
        ensures Less(k, rest[b].0)
      {
        EntriesMembers(m - {k}, rest[b].0, rest[b].1);
      }
    }
  }

  /** The list has each pair of the map once, in key order. */
  lemma EntriesListed(m: Headers, name: string, value: string)
    ensures HeaderEntry(name, value) in MapToHeaderEntries(m) <==> name in m && m[name] == value
    ensures var listed := MapToHeaderEntries(m);
            forall a, b :: 0 <= a < b < |listed| ==> Less(listed[a].name, listed[b].name)
  {
    var es, listed := Entries(m), MapToHeaderEntries(m);
    EntriesMembers(m, name, value);
    EntriesSorted(m);
    assert forall i :: 0 <= i < |es| ==> listed[i] == HeaderEntry(es[i].0, es[i].1);
    if (name, value) in es {
      var i :| 0 <= i < |es| && es[i] == (name, value);
      assert listed[i] == HeaderEntry(name, value);
    }
  }
}
