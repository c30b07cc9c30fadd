/** Which published record the fallback of request_correlation.rs hands out, told from the operations alone. */
module CorrelationFallback {
  import opened Collections
  import opened Text
  import opened NetworkRules
  import opened CorrelationLedger
  import opened CorrelationRuns

  /** The record was published for the request's tab and verb, and for its URL: the rewritten one if there is one. */
  ghost predicate IsFor(op: Op, r: Request) {
    && op.Record? && op.correlation.tabTargetId == r.tab && op.verb == r.verb
    && (if op.correlation.rewrittenUrl.Some? then op.correlation.rewrittenUrl == Some(r.url)
        else op.correlation.originalUrl == r.url)
  }

  /** Every expected header is among the actual ones, under its folded name, else under the name itself. */
  ghost predicate Carries(actual: Option<Headers>, expected: Option<Headers>) {
    expected.Some? ==>
      actual.Some? && forall name :: name in expected.value ==>
        var folded := AsciiLower(name);
        if folded in actual.value then actual.value[folded] == expected.value[name]
        else name in actual.value && actual.value[name] == expected.value[name]
  }

  /** Operation `k` published the entry. */
  ghost predicate PublishedAt(hist: seq<Op>, k: int, l: Live) {
    && 0 <= k < |hist| && hist[k].Record? && l.id == Run(EMPTY, hist[..k]).nextId
    && l.entry.recordedAt == hist[k].now && l.entry.fetchId == hist[k].fetchId
    && l.entry.networkId == hist[k].networkId && l.entry.correlation == hist[k].correlation
  }

  /** None of the first `n` operations was a peek that found the entry by a direct id. */
  ghost predicate NeverPeeked(hist: seq<Op>, n: nat, id: nat)
    requires n <= |hist|
  {
    forall j :: 0 <= j < n ==> !PeeksDirectly(Run(EMPTY, hist[..j]), hist[j], id)
  }

  // ---------- every entry is filed as it was published ----------

  /** The entry's two kinds of match, told from the operation. */
  ghost predicate FiledAs(op: Op, l: Live, r: Request) {
    && (RelaxedMatch(l, r) <==> IsFor(op, r))
    && (StrictMatch(l, r) <==> IsFor(op, r) && op.Record? && Carries(r.headers, op.correlation.effectiveHeaders))
  }

  lemma NewlyFiled(op: Op, id: nat, r: Request)
    requires op.Record?
    ensures FiledAs(op, Live(id, NewEntry(op.fetchId, op.networkId, op.verb, op.correlation, op.now)), r)
  {
    var expected := op.correlation.effectiveHeaders;
    if expected.Some? && r.headers.Some? {
      assert HeadersInclude(r.headers.value, expected.value) <==> Carries(r.headers, expected) by {
        assert forall name :: name in expected.value ==>
            (HeaderLookup(r.headers.value, name) == Some(expected.value[name]) <==>
             var folded := AsciiLower(name);
             if folded in r.headers.value then r.headers.value[folded] == expected.value[name]
             else name in r.headers.value && r.headers.value[name] == expected.value[name]);
      }
    }
  }

  lemma NextIdStep(m: Ledger, op: Op)
    ensures Apply(m, op).1.nextId == if op.Record? then m.nextId + 1 else m.nextId
  {
    if op.Peek? || op.Take? {
      AnswerIsLive(Pruned(m, op.now), op.request);
    }
  }

  lemma {:induction false} NextIdGrows(hist: seq<Op>, i: nat, j: nat)
    requires i <= j <= |hist|
    ensures Run(EMPTY, hist[..i]).nextId <= Run(EMPTY, hist[..j]).nextId
    ensures i < j && hist[i].Record? ==> Run(EMPTY, hist[..i]).nextId < Run(EMPTY, hist[..j]).nextId
    decreases j
  {
    if i < j {
      NextIdGrows(hist, i, j - 1);
      RunNext(EMPTY, hist, j - 1);
      NextIdStep(Run(EMPTY, hist[..j - 1]), hist[j - 1]);
    }
  }

  lemma NotYetPeeked(hist: seq<Op>, n: nat, id: nat)
    requires n <= |hist| && Run(EMPTY, hist[..n]).nextId <= id
    ensures NeverPeeked(hist, n, id)
  {
    forall j | 0 <= j < n
      ensures !PeeksDirectly(Run(EMPTY, hist[..j]), hist[j], id)
    {
      var m := Run(EMPTY, hist[..j]);
      NextIdGrows(hist, j, n);
      RunSound(EMPTY, hist[..j]);
      StepAnswers(m, hist[j]);
      BelowMeans(m.live, m.nextId);
    }
  }

  /** Operation `k` published the entry, which is filed as it said unless one of the first `n` peeked at it. */
  ghost predicate FiledBy(hist: seq<Op>, n: nat, k: nat, l: Live, r: Request)
    requires n <= |hist|
  {
    && k < n && PublishedAt(hist, k, l)
    && if NeverPeeked(hist, n, l.id) then FiledAs(hist[k], l, r) else l.entry.lookupKey == None
  }

  lemma StillFiled(hist: seq<Op>, n: nat, k: nat, was: Live, l: Live, r: Request)
    requires n < |hist| && FiledBy(hist, n, k, was, r)
    requires l == if PeeksDirectly(Run(EMPTY, hist[..n]), hist[n], was.id) then RetireIf(was, was.id) else was
    ensures FiledBy(hist, n + 1, k, l, r)
  {
  }

  lemma FiledNow(hist: seq<Op>, n: nat, l: Live, r: Request)
    requires n < |hist| && hist[n].Record? && l.id == Run(EMPTY, hist[..n]).nextId
    requires l.entry == NewEntry(hist[n].fetchId, hist[n].networkId, hist[n].verb, hist[n].correlation, hist[n].now)
    ensures FiledBy(hist, n + 1, n, l, r)
  {
    NotYetPeeked(hist, n, l.id);
    NewlyFiled(hist[n], l.id, r);
  }

  /** Every live entry was published by an earlier operation and is filed as that said. */
  lemma {:induction false} FiledAsPublished(hist: seq<Op>, n: nat, l: Live, r: Request) returns (k: nat)
    requires n <= |hist| && l in Run(EMPTY, hist[..n]).live
    ensures FiledBy(hist, n, k, l, r)
    decreases n
  {
    assert n > 0;
    var m, op := Run(EMPTY, hist[..n - 1]), hist[n - 1];
    RunNext(EMPTY, hist, n - 1);
    RunSound(EMPTY, hist[..n - 1]);
    StepOrigins(m, op, l);
    if was :| was in m.live && was.id == l.id
              && l == if PeeksDirectly(m, op, was.id) then RetireIf(was, was.id) else was {
      k := FiledAsPublished(hist, n - 1, was, r);
      StillFiled(hist, n - 1, k, was, l, r);
    } else {
      k := n - 1;
      FiledNow(hist, n - 1, l, r);
    }
  }

  lemma OnePublisher(hist: seq<Op>, i: nat, j: nat)
    requires i < |hist| && j < |hist| && hist[i].Record? && hist[j].Record?
    requires Run(EMPTY, hist[..i]).nextId == Run(EMPTY, hist[..j]).nextId
    ensures i == j
  {
    if i < j {
      NextIdGrows(hist, i, j);
    } else {
      NextIdGrows(hist, j, i);
    }
  }

  // ---------- what a request falls back to ----------

  /** The entry was published for the request and was not peeked at since. */
  ghost predicate Fits(hist: seq<Op>, r: Request, l: Live) {
    NeverPeeked(hist, |hist|, l.id) && exists k :: PublishedAt(hist, k, l) && IsFor(hist[k], r)
  }

  /** The request also carries the headers the record expects. */
  ghost predicate FitsStrictly(hist: seq<Op>, r: Request, l: Live) {
    && NeverPeeked(hist, |hist|, l.id)
    && exists k :: PublishedAt(hist, k, l) && IsFor(hist[k], r)
                   && Carries(r.headers, hist[k].correlation.effectiveHeaders)
  }

  lemma MatchesFit(hist: seq<Op>, r: Request, l: Live)
    requires l in Run(EMPTY, hist).live
    ensures RelaxedMatch(l, r) <==> Fits(hist, r, l)
    ensures StrictMatch(l, r) <==> FitsStrictly(hist, r, l)
  {
    assert hist[..|hist|] == hist;
    var k := FiledAsPublished(hist, |hist|, l, r);
    forall j | PublishedAt(hist, j, l)
      ensures j == k
    {
      OnePublisher(hist, j, k);
    }
  }

  /** The unexpired entries, and whether one of them has the id for its fetch or network id. */
  ghost predicate NoDirectHit(live: seq<Live>, id: string) {
    forall l :: l in live ==> l.entry.networkId != Some(id) && l.entry.fetchId != id
  }

  /**
   * After any run, a request whose id is no direct hit is answered with the only live record that fits it strictly,
   * or with the only one that fits it when none fits it strictly, and otherwise with nothing.
   */
  lemma FallbackMeans(hist: seq<Op>, r: Request, now: nat, l: Live)
    requires NoDirectHit(Pruned(Run(EMPTY, hist), now).live, r.id)
    ensures var live, a := Pruned(Run(EMPTY, hist), now).live, Taken(Run(EMPTY, hist), r, now).0;
            && (a == Answer(l, Strict) <==>
                  l in live && FitsStrictly(hist, r, l) && forall k :: k in live && FitsStrictly(hist, r, k) ==> k == l)
            && (a == Answer(l, Relaxed) <==>
                  && l in live && Fits(hist, r, l) && (forall k :: k in live && Fits(hist, r, k) ==> k == l)
                  && forall k :: k in live ==> !FitsStrictly(hist, r, k))
            && a != Answer(l, Direct)
  {
    var m := Pruned(Run(EMPTY, hist), now);
    RunSound(EMPTY, hist);
    PrunedSound(Run(EMPTY, hist), now);
    ByNetworkFinds(m.live, r.id);
    ByFetchFinds(m.live, r.id);
    ScanMeans(m.live, r, l);
    forall k | k in m.live
      ensures RelaxedMatch(k, r) <==> Fits(hist, r, k)
      ensures StrictMatch(k, r) <==> FitsStrictly(hist, r, k)
    {
      MatchesFit(hist, r, k);
    }
  }

  /** The id the k-th operation gave to the record it published. */
  function IdAt(hist: seq<Op>, k: nat): nat
    requires k < |hist|
  {
    Run(EMPTY, hist[..k]).nextId
  }

  /** The operations after the k-th spare its record, `e` standing for its time and direct ids. */
  ghost predicate SparedSince(hist: seq<Op>, k: nat, e: Timed)
    requires k < |hist|
  {
    && hist[k].Record?
    && e.recordedAt == hist[k].now && e.fetchId == hist[k].fetchId && e.networkId == hist[k].networkId
    && RunSpares(Run(EMPTY, hist[..k + 1]), hist[k + 1..], IdAt(hist, k), e, 0)
  }

  /** A spared record is still live, until it expires. */
  lemma SparedIsLive(hist: seq<Op>, k: nat, e: Timed, now: nat) returns (l: Live)
    requires k < |hist| && SparedSince(hist, k, e) && now <= hist[k].now + TTL
    ensures l in Pruned(Run(EMPTY, hist), now).live && PublishedAt(hist, k, l)
  {
    var id, m, op := IdAt(hist, k), Run(EMPTY, hist[..k + 1]), hist[k];
    var filed := NewEntry(op.fetchId, op.networkId, op.verb, op.correlation, op.now);
    RunNext(EMPTY, hist, k);
    RunSound(EMPTY, hist[..k + 1]);
    assert Last(m.live) == Live(id, filed);
    LastHeld(m.live);
    RunSparesSame(m, hist[k + 1..], id, e, filed, 0);
    var behind := RunHolds(m, hist[k + 1..], id, filed, 0);
    RunSplit(EMPTY, hist, k + 1);
    PrunedHolds(Run(EMPTY, hist).live, id, filed, behind, now);
    l := HoldsMember(Pruned(Run(EMPTY, hist), now).live, id, filed, behind);
  }

  /**
   * A spared record that no direct peek found is what a request for its tab, URL and verb falls back to, when no
   * other live record was published for them; strictly when the request carries the expected headers.
   */
  lemma SparedIsFallback(hist: seq<Op>, k: nat, e: Timed, r: Request, now: nat)
    requires k < |hist| && SparedSince(hist, k, e) && now <= hist[k].now + TTL
    requires NeverPeeked(hist, |hist|, IdAt(hist, k)) && IsFor(hist[k], r)
    requires NoDirectHit(Pruned(Run(EMPTY, hist), now).live, r.id)
    requires forall l :: l in Pruned(Run(EMPTY, hist), now).live && l.id != IdAt(hist, k) ==> !Fits(hist, r, l)
    ensures var a := Taken(Run(EMPTY, hist), r, now).0;
            && a.Answer? && PublishedAt(hist, k, a.found)
            && a.via == if Carries(r.headers, hist[k].correlation.effectiveHeaders) then Strict else Relaxed
  {
    var live := Pruned(Run(EMPTY, hist), now).live;
    var l := SparedIsLive(hist, k, e, now);
    FallbackMeans(hist, r, now, l);
    RunSound(EMPTY, hist);
    PrunedSound(Run(EMPTY, hist), now);
    DistinctMeans(live);
    assert Fits(hist, r, l);
    forall j | FitsStrictly(hist, r, l) && PublishedAt(hist, j, l)
      ensures j == k
    {
      OnePublisher(hist, j, k);
    }
  }

  /** A record is never what a request for another tab, URL or verb falls back to. */
  lemma NotFallback(hist: seq<Op>, k: nat, r: Request, now: nat)
    requires k < |hist| && hist[k].Record? && !IsFor(hist[k], r)
    requires NoDirectHit(Pruned(Run(EMPTY, hist), now).live, r.id)
    ensures var a := Taken(Run(EMPTY, hist), r, now).0;
            a.Answer? ==> a.found.id != IdAt(hist, k)
  {
    var a := Taken(Run(EMPTY, hist), r, now).0;
    if a.Answer? && a.found.id == IdAt(hist, k) {
      FallbackMeans(hist, r, now, a.found);
      var j :| PublishedAt(hist, j, a.found) && IsFor(hist[j], r);
      OnePublisher(hist, j, k);
    }
  }
}
