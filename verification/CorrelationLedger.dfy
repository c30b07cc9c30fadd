/**
 * What the request correlation registry means: one list of live entries, oldest first.
 * `CorrelationRegistry.dfy` holds the indexed registry that is proved to behave like this list.
 */
module CorrelationLedger {
  import opened Collections
  import opened Text
  import opened NetworkRules

  const LIMIT: nat := 2048
  /** 900 seconds, in nanoseconds. */
  const TTL: nat := 900_000_000_000

  datatype UnresolvedMatch = UnresolvedMatch(
    expectedUrl: string, expectedMethod: string, effectiveHeaders: Option<Headers>, expectedTab: Option<string>)

  datatype LookupKey = LookupKey(tab: Option<string>, url: string, verb: string)

  datatype Timed = Timed(
    recordedAt: nat,
    fetchId: string,
    networkId: Option<string>,
    unresolved: Option<UnresolvedMatch>,
    lookupKey: Option<LookupKey>,
    correlation: Correlation)

  datatype Live = Live(id: nat, entry: Timed)

  datatype Reason = Evicted | TtlExpired | StrictFallback | RelaxedFallback | AmbiguousFallback

  datatype Ledger = Ledger(nextId: nat, live: seq<Live>, reasons: seq<Reason>)

  datatype Request = Request(id: string, url: string, verb: string, headers: Option<Headers>, tab: Option<string>)

  datatype Via = Direct | Strict | Relaxed

  datatype Answer = NoAnswer | Answer(found: Live, via: Via)

  datatype Verdict = Nothing | Ambiguous | Unique(found: Live, via: Via)

  // ---------- building and matching entries ----------

  function KeyOf(unresolved: Option<UnresolvedMatch>): Option<LookupKey> {
    match unresolved
    case None => None
    case Some(m) => Some(LookupKey(m.expectedTab, m.expectedUrl, m.expectedMethod))
  }

  function NewEntry(fetchId: string, networkId: Option<string>, verb: string, c: Correlation, now: nat): Timed {
    var url := match c.rewrittenUrl case Some(u) => u case None => c.originalUrl;
    var unresolved := Some(UnresolvedMatch(url, verb, c.effectiveHeaders, c.tabTargetId));
    Timed(now, fetchId, networkId, unresolved, KeyOf(unresolved), c)
  }

  function HeaderLookup(actual: Headers, name: string): Option<string> {
    if AsciiLower(name) in actual then Some(actual[AsciiLower(name)])
    else if name in actual then Some(actual[name])
    else None
  }

  /** `headers_include`. */
  predicate HeadersInclude(actual: Headers, expected: Headers) {
    forall name :: name in expected ==> HeaderLookup(actual, name) == Some(expected[name])
  }

  predicate StrictHeaders(e: Timed, headers: Option<Headers>) {
    e.unresolved.Some? &&
    match e.unresolved.value.effectiveHeaders
    case None => true
    case Some(expected) => headers.Some? && HeadersInclude(headers.value, expected)
  }

  predicate Expired(e: Timed, now: nat) {
    now > e.recordedAt && now - e.recordedAt > TTL
  }

  predicate Replaces(e: Timed, fetchId: string, networkId: Option<string>) {
    e.fetchId == fetchId || (networkId.Some? && e.networkId == networkId)
  }

  // ---------- list operations ----------

  function Ids(live: seq<Live>): (r: seq<nat>)
    ensures |r| == |live| && forall i :: 0 <= i < |live| ==> r[i] == live[i].id
  {
    seq(|live|, i requires 0 <= i < |live| => live[i].id)
  }

  function Removed(live: seq<Live>, id: nat): seq<Live> {
    if live == [] then []
    else if live[0].id == id then Removed(live[1..], id)
    else [live[0]] + Removed(live[1..], id)
  }

  function Unreplaced(live: seq<Live>, fetchId: string, networkId: Option<string>): seq<Live> {
    if live == [] then []
    else if Replaces(live[0].entry, fetchId, networkId) then Unreplaced(live[1..], fetchId, networkId)
    else [live[0]] + Unreplaced(live[1..], fetchId, networkId)
  }

  function WithKey(live: seq<Live>, key: LookupKey): seq<Live> {
    if live == [] then []
    else if live[0].entry.lookupKey == Some(key) then [live[0]] + WithKey(live[1..], key)
    else WithKey(live[1..], key)
  }

  function WithHeaders(live: seq<Live>, headers: Option<Headers>): seq<Live> {
    if live == [] then []
    else if StrictHeaders(live[0].entry, headers) then [live[0]] + WithHeaders(live[1..], headers)
    else WithHeaders(live[1..], headers)
  }

  lemma RemovedMembers(live: seq<Live>, id: nat)
    ensures forall l :: l in Removed(live, id) <==> l in live && l.id != id
  {
    if live != [] {
      assert live == [live[0]] + live[1..];
      RemovedMembers(live[1..], id);
    }
  }

  lemma UnreplacedMembers(live: seq<Live>, fetchId: string, networkId: Option<string>)
    ensures forall l :: l in Unreplaced(live, fetchId, networkId) <==>
              l in live && !Replaces(l.entry, fetchId, networkId)
  {
    if live != [] {
      assert live == [live[0]] + live[1..];
      UnreplacedMembers(live[1..], fetchId, networkId);
    }
  }

  lemma {:induction false} UnreplacedShorter(live: seq<Live>, fetchId: string, networkId: Option<string>)
    ensures |Unreplaced(live, fetchId, networkId)| <= |live|
    ensures if exists l :: l in live && Replaces(l.entry, fetchId, networkId) then
              |Unreplaced(live, fetchId, networkId)| < |live|
            else Unreplaced(live, fetchId, networkId) == live
  {
    if live != [] {
      UnreplacedShorter(live[1..], fetchId, networkId);
      assert live == [live[0]] + live[1..];
    }
  }

  lemma WithKeyMembers(live: seq<Live>, key: LookupKey)
    ensures forall l :: l in WithKey(live, key) <==> l in live && l.entry.lookupKey == Some(key)
  {
    if live != [] {
      assert live == [live[0]] + live[1..];
      WithKeyMembers(live[1..], key);
    }
  }

  lemma WithHeadersMembers(live: seq<Live>, headers: Option<Headers>)
    ensures forall l :: l in WithHeaders(live, headers) <==> l in live && StrictHeaders(l.entry, headers)
  {
    if live != [] {
      assert live == [live[0]] + live[1..];
      WithHeadersMembers(live[1..], headers);
    }
  }

  /** An entry that may no longer be found by the fallback. */
  function RetiredEntry(e: Timed): Timed {
    e.(unresolved := None, lookupKey := None)
  }

  function RetireIf(l: Live, id: nat): Live {
    if l.id == id then Live(id, RetiredEntry(l.entry)) else l
  }

  function Retired(live: seq<Live>, id: nat): (r: seq<Live>)
    ensures |r| == |live|
    ensures forall i :: 0 <= i < |live| ==> r[i] == RetireIf(live[i], id)
  {
    seq(|live|, i requires 0 <= i < |live| => RetireIf(live[i], id))
  }

  function ByNetwork(live: seq<Live>, id: string): Option<Live> {
    if live == [] then None
    else if live[0].entry.networkId == Some(id) then Some(live[0]) else ByNetwork(live[1..], id)
  }

  function ByFetch(live: seq<Live>, id: string): Option<Live> {
    if live == [] then None
    else if live[0].entry.fetchId == id then Some(live[0]) else ByFetch(live[1..], id)
  }

  lemma ByFetchFinds(live: seq<Live>, id: string)
    ensures match ByFetch(live, id)
            case Some(l) => l in live && l.entry.fetchId == id
            case None => forall l :: l in live ==> l.entry.fetchId != id
  {
    if live != [] {
      assert live == [live[0]] + live[1..];
      ByFetchFinds(live[1..], id);
    }
  }

  lemma ByNetworkFinds(live: seq<Live>, id: string)
    ensures match ByNetwork(live, id)
            case Some(l) => l in live && l.entry.networkId == Some(id)
            case None => forall l :: l in live ==> l.entry.networkId != Some(id)
  {
    if live != [] {
      assert live == [live[0]] + live[1..];
      ByNetworkFinds(live[1..], id);
    }
  }

  /** Exact lookup: network ids are asked first. */
  function DirectHit(live: seq<Live>, id: string): Option<Live> {
    match ByNetwork(live, id)
    case Some(l) => Some(l)
    case None => ByFetch(live, id)
  }

  /** The fallback as a scan of every live entry. */
  function Scan(live: seq<Live>, r: Request): Verdict {
    var relaxed := WithKey(live, LookupKey(r.tab, r.url, r.verb));
    var strict := WithHeaders(relaxed, r.headers);
    if |strict| > 1 then Ambiguous
    else if |strict| == 1 then Unique(strict[0], Strict)
    else if |relaxed| > 1 then Ambiguous
    else if |relaxed| == 1 then Unique(relaxed[0], Relaxed)
    else Nothing
  }

  function Emit(reasons: seq<Reason>, reason: Reason): seq<Reason> {
    if reasons != [] && reasons[|reasons| - 1] == reason then reasons else reasons + [reason]
  }

  function EmitVerdict(reasons: seq<Reason>, v: Verdict): seq<Reason> {
    match v
    case Nothing => reasons
    case Ambiguous => Emit(reasons, AmbiguousFallback)
    case Unique(_, via) => Emit(reasons, if via == Strict then StrictFallback else RelaxedFallback)
  }

  // ---------- ledger operations ----------

  /** The oldest entry must go: it has outlived the TTL, or there are too many. */
  predicate MustGo(live: seq<Live>, now: nat)
    requires live != []
  {
    Expired(live[0].entry, now) || |live| > LIMIT
  }

  function AfterPrune(live: seq<Live>, now: nat): seq<Live> {
    if live == [] || !MustGo(live, now) then live else AfterPrune(live[1..], now)
  }

  predicate PrunesExpired(live: seq<Live>, now: nat) {
    live != [] && MustGo(live, now) && (Expired(live[0].entry, now) || PrunesExpired(live[1..], now))
  }

  predicate PrunesFresh(live: seq<Live>, now: nat) {
    live != [] && MustGo(live, now) && (!Expired(live[0].entry, now) || PrunesFresh(live[1..], now))
  }

  function Pruned(m: Ledger, now: nat): Ledger {
    var reasons := if PrunesExpired(m.live, now) then Emit(m.reasons, TtlExpired) else m.reasons;
    m.(live := AfterPrune(m.live, now), reasons := if PrunesFresh(m.live, now) then Emit(reasons, Evicted) else reasons)
  }

  function Bounded(live: seq<Live>): seq<Live> {
    if |live| > LIMIT then live[|live| - LIMIT..] else live
  }

  /** A new entry at the back, its rivals gone and the oldest entry too if there are too many. */
  function Inserted(
    m: Ledger, fetchId: string, networkId: Option<string>, verb: string, c: Correlation, now: nat): Ledger
  {
    var live := Unreplaced(m.live, fetchId, networkId) + [Live(m.nextId, NewEntry(fetchId, networkId, verb, c, now))];
    Ledger(m.nextId + 1, Bounded(live), if |live| > LIMIT then Emit(m.reasons, Evicted) else m.reasons)
  }

  function Recorded(
    m: Ledger, fetchId: string, networkId: Option<string>, verb: string, c: Correlation, now: nat): Ledger
  {
    Inserted(Pruned(m, now), fetchId, networkId, verb, c, now)
  }

  /** What a request resolves to; only the reasons change. */
  function Resolved(m: Ledger, r: Request): (Answer, Ledger) {
    match DirectHit(m.live, r.id)
    case Some(l) => (Answer(l, Direct), m)
    case None =>
      var v := Scan(m.live, r);
      (if v.Unique? then Answer(v.found, v.via) else NoAnswer, m.(reasons := EmitVerdict(m.reasons, v)))
  }

  function Taken(m0: Ledger, r: Request, now: nat): (Answer, Ledger) {
    var (a, m) := Resolved(Pruned(m0, now), r);
    (a, if a.Answer? then m.(live := Removed(m.live, a.found.id)) else m)
  }

  /** A peek by direct id retires the entry from the fallback pool. */
  function Peeked(m0: Ledger, r: Request, now: nat): (Answer, Ledger) {
    var (a, m) := Resolved(Pruned(m0, now), r);
    (a, if a.Answer? && a.via == Direct then m.(live := Retired(m.live, a.found.id)) else m)
  }

  function Discarded(m: Ledger, fetchId: string): Ledger {
    match ByFetch(m.live, fetchId)
    case None => m
    case Some(l) => m.(live := Removed(m.live, l.id))
  }

  // ---------- invariant ----------

  predicate WellFormed(e: Timed) {
    e.lookupKey == KeyOf(e.unresolved)
  }

  /** `l` can follow `live`: a larger id, and a fetch and network id that nothing in `live` holds. */
  predicate Follows(live: seq<Live>, l: Live) {
    live == [] ||
    (Last(live).id < l.id && !Replaces(Last(live).entry, l.entry.fetchId, l.entry.networkId) && Follows(Front(live), l))
  }

  /** Ids increase from oldest to newest; no two entries share a fetch or a network id. */
  predicate Distinct(live: seq<Live>) {
    live == [] || (Distinct(Front(live)) && Follows(Front(live), Last(live)) && WellFormed(Last(live).entry))
  }

  /** Every id was handed out by the counter. */
  predicate Below(live: seq<Live>, nextId: nat) {
    live == [] || (Last(live).id < nextId && Below(Front(live), nextId))
  }

  predicate Sound(m: Ledger) {
    Distinct(m.live) && Below(m.live, m.nextId) && |m.live| <= LIMIT
  }

  function Last(live: seq<Live>): Live
    requires live != []
  {
    live[|live| - 1]
  }

  function Front(live: seq<Live>): seq<Live>
    requires live != []
  {
    live[..|live| - 1]
  }

  lemma Snoc(live: seq<Live>)
    requires live != []
    ensures live == Front(live) + [Last(live)]
  {
  }

  lemma {:induction false} FollowsMeans(live: seq<Live>, l: Live)
    ensures Follows(live, l) <==>
            forall k :: k in live ==> k.id < l.id && !Replaces(k.entry, l.entry.fetchId, l.entry.networkId)
    decreases |live|
  {
    if live != [] {
      FollowsMeans(Front(live), l);
      Snoc(live);
    }
  }

  lemma {:induction false} BelowMeans(live: seq<Live>, nextId: nat)
    ensures Below(live, nextId) <==> forall l :: l in live ==> l.id < nextId
    decreases |live|
  {
    if live != [] {
      BelowMeans(Front(live), nextId);
      Snoc(live);
    }
  }

  lemma {:induction false} DistinctMeans(live: seq<Live>)
    requires Distinct(live)
    ensures forall l :: l in live ==> WellFormed(l.entry)
    ensures forall l, k :: l in live && k in live && l.id == k.id ==> l == k
    ensures forall l, k :: l in live && k in live && l.entry.fetchId == k.entry.fetchId ==> l == k
    ensures forall l, k :: l in live && k in live && l.entry.networkId.Some? && l.entry.networkId == k.entry.networkId
              ==> l == k
    decreases |live|
  {
    if live != [] {
      Snoc(live);
      DistinctMeans(Front(live));
      FollowsMeans(Front(live), Last(live));
    }
  }

  lemma {:induction false} DistinctIncreasing(live: seq<Live>)
    requires Distinct(live)
    ensures StrictlyIncreasing(Ids(live))
    decreases |live|
  {
    if live != [] {
      var front := Front(live);
      DistinctIncreasing(front);
      FollowsMeans(front, Last(live));
      forall i | 0 <= i < |front|
        ensures Ids(live)[i] == Ids(front)[i] < Last(live).id
      {
        assert front[i] in front;
      }
    }
  }
}
