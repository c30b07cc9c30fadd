/** Publishing a correlation before a paused request is acted on, and rolling it back (network_rules.rs). */
module Interception {
  import opened Collections
  import opened Text
  import opened NetworkRules
  import opened RulePlan
  import opened SentHeaders
  import opened CorrelationLedger
  import opened CorrelationIndexes
  import opened CorrelationRegistry
  import opened CorrelationRuns
  import opened CorrelationFallback

  datatype Paused = Paused(
    requestId: string, networkId: Option<string>, url: string, verb: string, headers: JsonHeaders,
    isResponse: bool, tabTargetId: string)

  datatype Outcome = PassedThrough | Acted(action: PlanAction) | Failed

  /** What is published for a plan. */
  function CorrelationFor(event: Paused, plan: Plan): Correlation {
    match plan.action
    case BlockRequest =>
      Correlation(Some(event.tabTargetId), event.url, None, None, plan.effects)
    case Continue(url, headers) =>
      var effective := match headers case None => None case Some(entries) => Some(HeaderEntriesToMap(entries));
      Correlation(Some(event.tabTargetId), event.url, url, effective, plan.effects)
  }

  ghost function Published(m: Ledger, event: Paused, plan: Plan, now: nat): Ledger {
    Recorded(m, event.requestId, event.networkId, event.verb, CorrelationFor(event, plan), now)
  }

  /**
   * `handle_request_paused`. `prepared` and `executed` are the answers of the command builder and of the browser.
   */
  method HandleRequestPaused(
    registry: RequestCorrelationRegistry, event: Paused, rules: seq<Rule>, prepared: bool, executed: bool, now: nat)
    returns (outcome: Outcome)
    requires registry.Valid()
    modifies registry
    ensures var plan := PlanFor(event.url, event.headers, rules);
            outcome == if event.isResponse || plan.None? then (if executed then PassedThrough else Failed)
                       else if prepared && executed then Acted(plan.value.action) else Failed
    ensures event.isResponse || PlanFor(event.url, event.headers, rules).None? ==>
              registry.Valid() && registry.Contents() == old(registry.Contents())
    ensures var before, plan := old(registry.Contents()), PlanFor(event.url, event.headers, rules);
            !event.isResponse && plan.Some? && Vacant(Pruned(before, now), event.requestId, event.networkId) ==>
              var published := Published(before, event, plan.value, now).(nextId := registry.nextId);
              && registry.Valid()
              && registry.Contents() ==
                 if prepared && executed then published else Discarded(published, event.requestId)
  {
    if event.isResponse {
      return if executed then PassedThrough else Failed;
    }
    var plan := BuildRequestPlan(event.url, event.headers, rules);
    if plan.None? {
      return if executed then PassedThrough else Failed;
    }
    PlanIffRuleApplies(event.url, event.headers, rules);
    registry.RecordAt(event.requestId, event.networkId, event.verb, CorrelationFor(event, plan.value), now);
    if !prepared {
      var _ := registry.DiscardForFetchRequestId(event.requestId);
      return Failed;
    }
    if !executed {
      var _ := registry.DiscardForFetchRequestId(event.requestId);
      return Failed;
    }
    outcome := Acted(plan.value.action);
  }

  /** A failed actuation leaves nothing under the request's fetch id, and the rest of the ledger as published. */
  lemma FailureLeavesNothing(m: Ledger, event: Paused, plan: Plan, now: nat)
    requires Sound(m)
    ensures var published := Published(m, event, plan, now);
            Discarded(published, event.requestId)
            == published.(live := WithoutFetch(published.live, event.requestId))
    ensures forall l :: l in Discarded(Published(m, event, plan, now), event.requestId).live ==>
              l.entry.fetchId != event.requestId
  {
    var publish := Record(event.requestId, event.networkId, event.verb, CorrelationFor(event, plan), now);
    RollbackIsExact(m, [publish], event.requestId);
    assert Run(m, [publish]) == Published(m, event, plan, now);
  }

  // ---------- what a failed request costs ----------

  lemma {:induction false} PruneShortens(live: seq<Live>, now: nat)
    ensures |AfterPrune(live, now)| <= |live|
    ensures live != [] && MustGo(live, now) ==> |AfterPrune(live, now)| < |live|
  {
    if live != [] && MustGo(live, now) {
      PruneShortens(live[1..], now);
    }
  }

  lemma {:induction false} ByFetchLast(kept: seq<Live>, l: Live)
    requires forall k :: k in kept ==> k.entry.fetchId != l.entry.fetchId
    ensures ByFetch(kept + [l], l.entry.fetchId) == Some(l)
  {
    if kept == [] {
      assert kept + [l] == [l];
    } else {
      assert kept[0] in kept && (kept + [l])[0] == kept[0] && (kept + [l])[1..] == kept[1..] + [l];
      ByFetchLast(kept[1..], l);
    }
  }

  /** Discarding the newest entry gives back the list before it. */
  lemma NewestDiscarded(m: Ledger, kept: seq<Live>, l: Live)
    requires m.live == kept + [l] && forall k :: k in kept ==> k.id != l.id && k.entry.fetchId != l.entry.fetchId
    ensures Discarded(m, l.entry.fetchId).live == kept
  {
    ByFetchLast(kept, l);
    RemovedAppended(kept, l, l.id);
    RemovedAbsent(kept, l.id);
  }

  /** The entries with room for one more: all of them, or all but the oldest. */
  function WithRoom(kept: seq<Live>): seq<Live> {
    if |kept| < LIMIT then kept else kept[1..]
  }

  lemma RoomIsMade(kept: seq<Live>, l: Live)
    requires |kept| <= LIMIT
    ensures Bounded(kept + [l]) == WithRoom(kept) + [l]
    ensures forall k :: k in WithRoom(kept) ==> k in kept
  {
  }

  /** What is left of the other entries once the request's own record is rolled back. */
  lemma RolledBack(m: Ledger, event: Paused, plan: Plan, now: nat)
    requires Sound(m)
    ensures var kept := Unreplaced(AfterPrune(m.live, now), event.requestId, event.networkId);
            Discarded(Published(m, event, plan, now), event.requestId).live == WithRoom(kept)
  {
    var kept := Unreplaced(AfterPrune(m.live, now), event.requestId, event.networkId);
    var l := Live(m.nextId, EntryFor(event, plan, now));
    KeptApart(m, event, now);
    RoomIsMade(kept, l);
    NewestDiscarded(Published(m, event, plan, now), WithRoom(kept), l);
  }

  /** The entries a request leaves in place have other ids than its own. */
  lemma KeptApart(m: Ledger, event: Paused, now: nat)
    requires Sound(m)
    ensures var kept := Unreplaced(AfterPrune(m.live, now), event.requestId, event.networkId);
            |kept| <= LIMIT && forall k :: k in kept ==> k.id < m.nextId && k.entry.fetchId != event.requestId
  {
    var pruned := AfterPrune(m.live, now);
    PruneShortens(m.live, now);
    UnreplacedShorter(pruned, event.requestId, event.networkId);
    UnreplacedMembers(pruned, event.requestId, event.networkId);
    PrunedSound(m, now);
    BelowMeans(m.live, m.nextId);
  }

  /**
   * A failed request costs the other entries nothing exactly when the oldest need not go, none shares an id with it,
   * and there is room for one more.
   */
  lemma RollbackRestoresIff(m: Ledger, event: Paused, plan: Plan, now: nat)
    requires Sound(m)
    ensures Discarded(Published(m, event, plan, now), event.requestId).live == m.live <==>
            && (m.live != [] ==> !MustGo(m.live, now))
            && (forall l :: l in m.live ==> !Replaces(l.entry, event.requestId, event.networkId))
            && |m.live| < 2048
  {
    RolledBack(m, event, plan, now);
    KeptApart(m, event, now);
    PruneShortens(m.live, now);
    UnreplacedShorter(AfterPrune(m.live, now), event.requestId, event.networkId);
  }

  /** For one, an entry recorded under the same network id is lost even if the request then fails. */
  lemma FailureCostsRival(m: Ledger, event: Paused, plan: Plan, now: nat, rival: Live)
    requires Sound(m) && rival in m.live && event.networkId.Some? && rival.entry.networkId == event.networkId
    ensures rival !in Discarded(Published(m, event, plan, now), event.requestId).live
  {
    var pruned := AfterPrune(m.live, now);
    var kept := Unreplaced(pruned, event.requestId, event.networkId);
    RolledBack(m, event, plan, now);
    UnreplacedMembers(pruned, event.requestId, event.networkId);
    assert forall k :: k in WithRoom(kept) ==> k in kept;
  }

  /**
   * A published record is found under its network id after any further operations, as long as none of them
   * replaces, takes or discards it, fewer than the limit record others, and it has not expired.
   */
  lemma PublishedIsFound(m: Ledger, event: Paused, plan: Plan, now: nat, ops: seq<Op>, r: Request, later: nat)
    requires Sound(m) && event.networkId == Some(r.id) && later <= now + TTL
    requires RunSpares(Published(m, event, plan, now), ops, m.nextId, EntryFor(event, plan, now), 0)
    ensures var a := Taken(Run(Published(m, event, plan, now), ops), r, later).0;
            a.Answer? && a.found.id == m.nextId && a.found.entry.correlation == CorrelationFor(event, plan)
  {
    var published, e := Published(m, event, plan, now), EntryFor(event, plan, now);
    RecordedSound(m, event.requestId, event.networkId, event.verb, CorrelationFor(event, plan), now);
    assert Last(published.live) == Live(m.nextId, e);
    LastHeld(published.live);
    var behind := RunHolds(published, ops, m.nextId, e, 0);
    HeldIsFound(Run(published, ops), m.nextId, e, behind, r, later);
  }

  function EntryFor(event: Paused, plan: Plan, now: nat): Timed {
    NewEntry(event.requestId, event.networkId, event.verb, CorrelationFor(event, plan), now)
  }

  lemma EffectiveHeaders(event: Paused, rules: seq<Rule>, plan: Plan)
    requires PlanFor(event.url, event.headers, rules) == Some(plan)
    ensures plan.action.Continue? && plan.action.headers.Some? ==>
              CorrelationFor(event, plan).effectiveHeaders == Some(Merged(event.headers, Applying(rules, event.url)))
  {
    MergedLowered(event.headers, Applying(rules, event.url));
    HeaderEntriesRoundTrip(Merged(event.headers, Applying(rules, event.url)));
  }

  /** A published record keeps the request's tab and URL, the rewritten URL and the headers that are sent instead. */
  lemma PublishedHeaders(event: Paused, rules: seq<Rule>, plan: Plan, name: string, value: string)
    requires PlanFor(event.url, event.headers, rules) == Some(plan)
    ensures var c := CorrelationFor(event, plan);
            && c.tabTargetId == Some(event.tabTargetId) && c.originalUrl == event.url && c.effects == plan.effects
            && c.rewrittenUrl == (if plan.action.Continue? then plan.action.url else None)
            && (c.effectiveHeaders.Some? <==> plan.action.Continue? && plan.action.headers.Some?)
            && (c.effectiveHeaders.Some? ==>
                 var sent := c.effectiveHeaders.value;
                 && (name in sent && sent[name] == value <==> SentAs(event.headers, rules, event.url, name, value))
                 && (name in sent && sent[name] == value <==> HeaderEntry(name, value) in plan.action.headers.value)
                 && (name in sent ==> AsciiLower(name) == name))
  {
    EffectiveHeaders(event, rules, plan);
    MergedMeans(event.headers, rules, event.url, name, value);
    if plan.action.Continue? {
      PlanHeaders(event.url, event.headers, rules, plan, name, value);
    }
  }

  /** The request carries every header pair the plan sent. */
  ghost predicate CarriesPairs(actual: Option<Headers>, action: PlanAction) {
    action.Continue? && action.headers.Some? ==>
      && actual.Some?
      && forall p :: p in action.headers.value ==> p.name in actual.value && actual.value[p.name] == p.value
  }

  lemma ExpectedPairs(event: Paused, rules: seq<Rule>, plan: Plan, actual: Option<Headers>)
    requires PlanFor(event.url, event.headers, rules) == Some(plan)
    ensures Carries(actual, CorrelationFor(event, plan).effectiveHeaders) <==> CarriesPairs(actual, plan.action)
  {
    PublishedHeaders(event, rules, plan, "", "");
    if plan.action.Continue? && plan.action.headers.Some? {
      var sent, pairs := CorrelationFor(event, plan).effectiveHeaders.value, plan.action.headers.value;
      forall name | name in sent
        ensures HeaderEntry(name, sent[name]) in pairs && AsciiLower(name) == name
      {
        PublishedHeaders(event, rules, plan, name, sent[name]);
      }
      forall p | p in pairs
        ensures p.name in sent && sent[p.name] == p.value
      {
        PublishedHeaders(event, rules, plan, p.name, p.value);
      }
    }
  }

  /** Operation `k` published the plan's record for the paused request. */
  ghost predicate Publishes(hist: seq<Op>, k: nat, event: Paused, plan: Plan) {
    && k < |hist| && hist[k].Record?
    && hist[k] == Record(event.requestId, event.networkId, event.verb, CorrelationFor(event, plan), hist[k].now)
  }

  /**
   * After any operations that spare a published record, a request from its tab with its verb and for the URL it was
   * sent to is answered with it, if the request's id is no direct hit and no other live record was published for the
   * same; strictly when the request carries every header pair the plan sent.
   */
  lemma PublishedFallsBack(
    hist: seq<Op>, k: nat, event: Paused, rules: seq<Rule>, plan: Plan, e: Timed, r: Request, now: nat)
    requires PlanFor(event.url, event.headers, rules) == Some(plan) && Publishes(hist, k, event, plan)
    requires SparedSince(hist, k, e) && now <= hist[k].now + TTL && NeverPeeked(hist, |hist|, IdAt(hist, k))
    requires r.tab == Some(event.tabTargetId) && r.verb == event.verb
    requires r.url == if plan.action.Continue? && plan.action.url.Some? then plan.action.url.value else event.url
    requires NoDirectHit(Pruned(Run(EMPTY, hist), now).live, r.id)
    requires forall l :: l in Pruned(Run(EMPTY, hist), now).live && l.id != IdAt(hist, k) ==> !Fits(hist, r, l)
    ensures Run(EMPTY, hist[..k + 1]) == Published(Run(EMPTY, hist[..k]), event, plan, hist[k].now)
    ensures var a := Taken(Run(EMPTY, hist), r, now).0;
            && a.Answer? && a.found.id == IdAt(hist, k) && a.found.entry.correlation == CorrelationFor(event, plan)
            && a.via == if CarriesPairs(r.headers, plan.action) then Strict else Relaxed
  {
    RunNext(EMPTY, hist, k);
    SparedIsFallback(hist, k, e, r, now);
    ExpectedPairs(event, rules, plan, r.headers);
  }

  /** A record whose URL was rewritten is not what a request for the original URL falls back to. */
  lemma RewrittenIsNotOriginal(hist: seq<Op>, k: nat, event: Paused, plan: Plan, r: Request, now: nat)
    requires Publishes(hist, k, event, plan) && plan.action.Continue?
    requires plan.action.url.Some? && plan.action.url.value != event.url && r.url == event.url
    requires NoDirectHit(Pruned(Run(EMPTY, hist), now).live, r.id)
    ensures var a := Taken(Run(EMPTY, hist), r, now).0;
            a.Answer? ==> a.found.id != IdAt(hist, k)
  {
    NotFallback(hist, k, r, now);
  }
}
