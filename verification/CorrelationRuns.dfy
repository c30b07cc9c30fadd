/** What holds over every run of the registry, stated on the ledger it refines. */
module CorrelationRuns {
  import opened Collections
  import opened NetworkRules
  import opened CorrelationLedger
  import opened CorrelationIndexes

  datatype Op =
    | Record(fetchId: string, networkId: Option<string>, verb: string, correlation: Correlation, now: nat)
    | Peek(request: Request, now: nat)
    | Take(request: Request, now: nat)
    | Discard(fetchId: string)

  function Apply(m: Ledger, op: Op): (Answer, Ledger) {
    match op
    case Record(fetchId, networkId, verb, c, now) => (NoAnswer, Recorded(m, fetchId, networkId, verb, c, now))
    case Peek(r, now) => Peeked(m, r, now)
    case Take(r, now) => Taken(m, r, now)
    case Discard(fetchId) => (NoAnswer, Discarded(m, fetchId))
  }

  function Run(m: Ledger, ops: seq<Op>): Ledger
    decreases |ops|
  {
    if ops == [] then m else Run(Apply(m, ops[0]).1, ops[1..])
  }

  /** The answer of the i-th operation of a run. */
  function AnswerAt(m: Ledger, ops: seq<Op>, i: nat): Answer
    requires i < |ops|
  {
    Apply(Run(m, ops[..i]), ops[i]).0
  }

  const EMPTY := Ledger(0, [], [])

  // ---------- soundness is kept ----------

  lemma FollowsSubset(live: seq<Live>, sub: seq<Live>, l: Live)
    requires Follows(live, l) && forall k :: k in sub ==> k in live
    ensures Follows(sub, l)
  {
    FollowsMeans(live, l);
    FollowsMeans(sub, l);
  }

  lemma BelowSubset(live: seq<Live>, sub: seq<Live>, nextId: nat)
    requires Below(live, nextId) && forall k :: k in sub ==> k in live
    ensures Below(sub, nextId)
  {
    BelowMeans(live, nextId);
    BelowMeans(sub, nextId);
  }

  lemma {:induction false} DistinctTail(live: seq<Live>)
    requires Distinct(live) && live != []
    ensures Distinct(live[1..])
    decreases |live|
  {
    if |live| > 1 {
      var front, last := Front(live), Last(live);
      DistinctTail(front);
      assert live[1..] == front[1..] + [last];
      FollowsSubset(front, front[1..], last);
    }
  }

  lemma {:induction false} DistinctSuffix(live: seq<Live>, k: nat)
    requires Distinct(live) && k <= |live|
    ensures Distinct(live[k..])
    decreases |live|
  {
    if k == 0 {
      assert live[0..] == live;
    } else {
      DistinctTail(live);
      DistinctSuffix(live[1..], k - 1);
      assert live[1..][k - 1..] == live[k..];
    }
  }

  lemma {:induction false} UnreplacedAppended(live: seq<Live>, l: Live, f: string, n: Option<string>)
    ensures Unreplaced(live + [l], f, n)
         == if Replaces(l.entry, f, n) then Unreplaced(live, f, n) else Unreplaced(live, f, n) + [l]
  {
    if live == [] {
      assert live + [l] == [l];
    } else {
      assert (live + [l])[1..] == live[1..] + [l];
      UnreplacedAppended(live[1..], l, f, n);
    }
  }

  lemma {:induction false} DistinctUnreplaced(live: seq<Live>, f: string, n: Option<string>)
    requires Distinct(live)
    ensures Distinct(Unreplaced(live, f, n)) && |Unreplaced(live, f, n)| <= |live|
    decreases |live|
  {
    if live != [] {
      var front, last := Front(live), Last(live);
      Snoc(live);
      UnreplacedAppended(front, last, f, n);
      DistinctUnreplaced(front, f, n);
      UnreplacedMembers(front, f, n);
      FollowsSubset(front, Unreplaced(front, f, n), last);
    }
  }

  lemma {:induction false} PruneDropsPrefix(live: seq<Live>, now: nat) returns (k: nat)
    ensures k <= |live| && AfterPrune(live, now) == live[k..]
  {
    if live == [] || !MustGo(live, now) {
      k := 0;
    } else {
      k := PruneDropsPrefix(live[1..], now);
      assert live[1..][k..] == live[k + 1..];
      k := k + 1;
    }
  }

  lemma PrunedSound(m: Ledger, now: nat)
    requires Sound(m)
    ensures Sound(Pruned(m, now)) && forall l :: l in Pruned(m, now).live ==> l in m.live
  {
    var k := PruneDropsPrefix(m.live, now);
    DistinctSuffix(m.live, k);
    BelowSubset(m.live, m.live[k..], m.nextId);
  }

  lemma InsertedSound(live: seq<Live>, nextId: nat, e: Timed)
    requires Distinct(live) && Below(live, nextId) && WellFormed(e)
    ensures var more := Unreplaced(live, e.fetchId, e.networkId) + [Live(nextId, e)];
            Distinct(more) && Below(more, nextId + 1)
  {
    var kept := Unreplaced(live, e.fetchId, e.networkId);
    var l := Live(nextId, e);
    DistinctUnreplaced(live, e.fetchId, e.networkId);
    UnreplacedMembers(live, e.fetchId, e.networkId);
    BelowMeans(live, nextId);
    FollowsMeans(kept, l);
    BelowMeans(kept + [l], nextId + 1);
  }

  lemma BoundedSound(live: seq<Live>, nextId: nat)
    requires Distinct(live) && Below(live, nextId)
    ensures Distinct(Bounded(live)) && Below(Bounded(live), nextId) && |Bounded(live)| <= LIMIT
  {
    if |live| > LIMIT {
      DistinctSuffix(live, |live| - LIMIT);
      BelowSubset(live, Bounded(live), nextId);
    }
  }

  lemma RecordedSound(m: Ledger, f: string, n: Option<string>, verb: string, c: Correlation, now: nat)
    requires Sound(m)
    ensures Sound(Recorded(m, f, n, verb, c, now))
  {
    PrunedSound(m, now);
    LedgerInsertedSound(Pruned(m, now), f, n, verb, c, now);
  }

  lemma LedgerInsertedSound(m: Ledger, f: string, n: Option<string>, verb: string, c: Correlation, now: nat)
    requires Sound(m)
    ensures Sound(Inserted(m, f, n, verb, c, now))
  {
    InsertedBounded(m.live, m.nextId, NewEntry(f, n, verb, c, now));
  }

  lemma InsertedBounded(live: seq<Live>, nextId: nat, e: Timed)
    requires Distinct(live) && Below(live, nextId) && WellFormed(e)
    ensures var kept := Bounded(Unreplaced(live, e.fetchId, e.networkId) + [Live(nextId, e)]);
            Distinct(kept) && Below(kept, nextId + 1) && |kept| <= LIMIT
  {
    InsertedSound(live, nextId, e);
    BoundedSound(Unreplaced(live, e.fetchId, e.networkId) + [Live(nextId, e)], nextId + 1);
  }

  lemma RemovedSound(m: Ledger, id: nat)
    requires Sound(m)
    ensures Sound(m.(live := Removed(m.live, id)))
  {
    DistinctRemoved(m.live, id);
    BelowRemoved(m.live, id, m.nextId);
    IdsRemoved(m.live, id);
    assert |Ids(Removed(m.live, id))| <= |Ids(m.live)|;
  }

  lemma RetiredSound(m: Ledger, id: nat)
    requires Sound(m)
    ensures Sound(m.(live := Retired(m.live, id)))
  {
    DistinctRetired(m.live, id);
    BelowRetired(m.live, id, m.nextId);
  }

  /** Every operation keeps the ledger sound, so every reachable ledger is. */
  lemma StepSound(m: Ledger, op: Op)
    requires Sound(m)
    ensures Sound(Apply(m, op).1)
  {
    match op
    case Record(f, n, verb, c, now) => RecordedSound(m, f, n, verb, c, now);
    case Peek(r, now) =>
      PrunedSound(m, now);
      var (a, m') := Resolved(Pruned(m, now), r);
      if a.Answer? {
        RetiredSound(m', a.found.id);
      }
    case Take(r, now) =>
      PrunedSound(m, now);
      var (a, m') := Resolved(Pruned(m, now), r);
      if a.Answer? {
        RemovedSound(m', a.found.id);
      }
    case Discard(f) =>
      if ByFetch(m.live, f).Some? {
        RemovedSound(m, ByFetch(m.live, f).value.id);
      }
  }

  lemma {:induction false} RunSound(m: Ledger, ops: seq<Op>)
    requires Sound(m)
    ensures Sound(Run(m, ops))
    decreases |ops|
  {
    if ops != [] {
      StepSound(m, ops[0]);
      RunSound(Apply(m, ops[0]).1, ops[1..]);
    }
  }

  // ---------- what the fallback finds ----------

  ghost predicate RelaxedMatch(l: Live, r: Request) {
    l.entry.lookupKey == Some(LookupKey(r.tab, r.url, r.verb))
  }

  ghost predicate StrictMatch(l: Live, r: Request) {
    RelaxedMatch(l, r) && StrictHeaders(l.entry, r.headers)
  }

  ghost predicate OnlyStrict(live: seq<Live>, r: Request, l: Live) {
    l in live && StrictMatch(l, r) && forall k :: k in live && StrictMatch(k, r) ==> k == l
  }

  ghost predicate OnlyRelaxed(live: seq<Live>, r: Request, l: Live) {
    l in live && RelaxedMatch(l, r) && forall k :: k in live && RelaxedMatch(k, r) ==> k == l
  }

  /** The scan answers with the only strict match, or with the only relaxed match when there is no strict one. */
  lemma ScanMeans(live: seq<Live>, r: Request, l: Live)
    requires Distinct(live)
    ensures Scan(live, r) == Unique(l, Strict) <==> OnlyStrict(live, r, l)
    ensures Scan(live, r) == Unique(l, Relaxed) <==>
              OnlyRelaxed(live, r, l) && forall k :: k in live ==> !StrictMatch(k, r)
    ensures Scan(live, r) == Nothing <==> forall k :: k in live ==> !RelaxedMatch(k, r)
  {
    MatchesAre(live, r, l);
  }

  /** The two kinds of match are the members of the scan's two lists. */
  lemma MatchesAre(live: seq<Live>, r: Request, l: Live)
    requires Distinct(live)
    ensures var relaxed := WithKey(live, LookupKey(r.tab, r.url, r.verb));
            var strict := WithHeaders(relaxed, r.headers);
            && (OnlyStrict(live, r, l) <==> strict == [l])
            && (OnlyRelaxed(live, r, l) <==> relaxed == [l])
            && ((forall k :: k in live ==> !StrictMatch(k, r)) <==> strict == [])
            && ((forall k :: k in live ==> !RelaxedMatch(k, r)) <==> relaxed == [])
  {
    var key := LookupKey(r.tab, r.url, r.verb);
    DistinctIncreasing(live);
    WithKeyIncreasing(live, key);
    WithHeadersIncreasing(WithKey(live, key), r.headers);
    RelaxedAre(live, r, l);
    StrictAre(live, r, l);
  }

  lemma RelaxedAre(live: seq<Live>, r: Request, l: Live)
    requires StrictlyIncreasing(Ids(WithKey(live, LookupKey(r.tab, r.url, r.verb))))
    ensures var relaxed := WithKey(live, LookupKey(r.tab, r.url, r.verb));
            && (OnlyRelaxed(live, r, l) <==> relaxed == [l])
            && ((forall k :: k in live ==> !RelaxedMatch(k, r)) <==> relaxed == [])
  {
    var key := LookupKey(r.tab, r.url, r.verb);
    WithKeyMembers(live, key);
    OneMember(WithKey(live, key), l);
    HeadMember(WithKey(live, key));
  }

  lemma StrictAre(live: seq<Live>, r: Request, l: Live)
    requires StrictlyIncreasing(Ids(WithHeaders(WithKey(live, LookupKey(r.tab, r.url, r.verb)), r.headers)))
    ensures var strict := WithHeaders(WithKey(live, LookupKey(r.tab, r.url, r.verb)), r.headers);
            && (OnlyStrict(live, r, l) <==> strict == [l])
            && ((forall k :: k in live ==> !StrictMatch(k, r)) <==> strict == [])
  {
    var relaxed := WithKey(live, LookupKey(r.tab, r.url, r.verb));
    var strict := WithHeaders(relaxed, r.headers);
    WithKeyMembers(live, LookupKey(r.tab, r.url, r.verb));
    WithHeadersMembers(relaxed, r.headers);
    OneMember(strict, l);
    HeadMember(strict);
  }

  lemma OneMember(found: seq<Live>, l: Live)
    requires StrictlyIncreasing(Ids(found))
    ensures (l in found && forall k :: k in found ==> k == l) <==> found == [l]
  {
    assert |found| > 1 ==> found[0] in found && found[1] in found && Ids(found)[0] < Ids(found)[1];
    assert |found| == 1 ==> found[0] in found;
  }

  lemma {:induction false} WithHeadersIncreasing(live: seq<Live>, headers: Option<Headers>)
    requires StrictlyIncreasing(Ids(live))
    ensures StrictlyIncreasing(Ids(WithHeaders(live, headers)))
  {
    if live != [] {
      assert Ids(live)[1..] == Ids(live[1..]);
      WithHeadersIncreasing(live[1..], headers);
      WithHeadersMembers(live[1..], headers);
      ConsIncreasing(live, WithHeaders(live[1..], headers));
    }
  }

  // ---------- hand-out ----------

  /** An id that was used and is not live. */
  ghost predicate Gone(m: Ledger, id: nat) {
    id < m.nextId && forall l :: l in m.live ==> l.id != id
  }

  /** A live or gone entry that only a direct id may still find. */
  ghost predicate OnlyDirect(m: Ledger, id: nat) {
    id < m.nextId && forall l :: l in m.live && l.id == id ==> l.entry.lookupKey == None
  }

  lemma AnswerIsLive(m: Ledger, r: Request)
    ensures var (a, m') := Resolved(m, r);
            && m'.live == m.live && m'.nextId == m.nextId
            && (a.Answer? ==> a.found in m.live)
            && (a.Answer? && a.via != Direct ==> a.found.entry.lookupKey.Some?)
  {
    ByNetworkFinds(m.live, r.id);
    ByFetchFinds(m.live, r.id);
    var relaxed := WithKey(m.live, LookupKey(r.tab, r.url, r.verb));
    WithKeyMembers(m.live, LookupKey(r.tab, r.url, r.verb));
    WithHeadersMembers(relaxed, r.headers);
    HeadMember(relaxed);
    HeadMember(WithHeaders(relaxed, r.headers));
  }

  /** The operation is a peek that finds the entry by a direct id. */
  predicate PeeksDirectly(m: Ledger, op: Op, id: nat) {
    op.Peek? && var a := Apply(m, op).0; a.Answer? && a.via == Direct && a.found.id == id
  }

  /** `l` was one of the ledger's entries, unless a record adds it; only a direct peek changes an entry. */
  ghost predicate Origin(m: Ledger, op: Op, l: Live) {
    || (op.Record? && l == Live(m.nextId, NewEntry(op.fetchId, op.networkId, op.verb, op.correlation, op.now)))
    || exists k :: k in m.live && k.id == l.id && l == if PeeksDirectly(m, op, k.id) then RetireIf(k, k.id) else k
  }

  lemma RecordOrigins(m: Ledger, op: Op, l: Live)
    requires Sound(m) && op.Record? && l in Apply(m, op).1.live
    ensures Origin(m, op, l)
  {
    PrunedSound(m, op.now);
    UnreplacedMembers(Pruned(m, op.now).live, op.fetchId, op.networkId);
  }

  lemma PeekOrigins(m: Ledger, op: Op, l: Live)
    requires Sound(m) && op.Peek? && l in Apply(m, op).1.live
    ensures Origin(m, op, l)
  {
    PrunedSound(m, op.now);
    AnswerIsLive(Pruned(m, op.now), op.request);
  }

  lemma TakeOrigins(m: Ledger, op: Op, l: Live)
    requires Sound(m) && op.Take? && l in Apply(m, op).1.live
    ensures Origin(m, op, l)
  {
    PrunedSound(m, op.now);
    AnswerIsLive(Pruned(m, op.now), op.request);
    var (a, m') := Resolved(Pruned(m, op.now), op.request);
    if a.Answer? {
      RemovedMembers(m'.live, a.found.id);
    }
  }

  /** Where the entries of the next ledger come from. */
  lemma StepOrigins(m: Ledger, op: Op, l: Live)
    requires Sound(m) && l in Apply(m, op).1.live
    ensures Origin(m, op, l)
  {
    match op
    case Record(_, _, _, _, _) => RecordOrigins(m, op, l);
    case Peek(_, _) => PeekOrigins(m, op, l);
    case Take(_, _) => TakeOrigins(m, op, l);
    case Discard(f) =>
      if ByFetch(m.live, f).Some? {
        RemovedMembers(m.live, ByFetch(m.live, f).value.id);
      }
  }

  lemma StepKeeps(m: Ledger, op: Op, id: nat)
    requires Sound(m)
    ensures Gone(m, id) ==> Gone(Apply(m, op).1, id)
    ensures OnlyDirect(m, id) ==> OnlyDirect(Apply(m, op).1, id)
  {
    var next := Apply(m, op).1;
    forall l | l in next.live
      ensures Origin(m, op, l)
    {
      StepOrigins(m, op, l);
    }
  }

  /** What an operation answers was live, and unretired unless the hit was direct. */
  lemma StepAnswers(m: Ledger, op: Op)
    requires Sound(m)
    ensures var a := Apply(m, op).0;
            a.Answer? ==> a.found in m.live && (a.via != Direct ==> a.found.entry.lookupKey.Some?)
    ensures Apply(m, op).0.Answer? && op.Take? ==> Gone(Apply(m, op).1, Apply(m, op).0.found.id)
    ensures Apply(m, op).0.Answer? && op.Peek? && Apply(m, op).0.via == Direct ==>
              OnlyDirect(Apply(m, op).1, Apply(m, op).0.found.id)
  {
    if op.Peek? || op.Take? {
      PrunedSound(m, op.now);
      AnswerIsLive(Pruned(m, op.now), op.request);
      var (a, m') := Resolved(Pruned(m, op.now), op.request);
      BelowMeans(m.live, m.nextId);
      if a.Answer? {
        RemovedMembers(m'.live, a.found.id);
      }
    }
  }

  lemma {:induction false} RunNext(m: Ledger, ops: seq<Op>, i: nat)
    requires i < |ops|
    ensures Run(m, ops[..i + 1]) == Apply(Run(m, ops[..i]), ops[i]).1
    decreases i
  {
    assert ops[..i + 1][0] == ops[0] && ops[..i + 1][1..] == ops[1..][..i];
    if i > 0 {
      assert ops[..i][1..] == ops[1..][..i - 1];
      RunNext(Apply(m, ops[0]).1, ops[1..], i - 1);
    }
  }

  lemma {:induction false} RunSplit(m: Ledger, ops: seq<Op>, i: nat)
    requires i <= |ops|
    ensures Run(Run(m, ops[..i]), ops[i..]) == Run(m, ops)
    decreases i
  {
    if i == 0 {
      assert ops[i..] == ops;
    } else {
      assert ops[..i][1..] == ops[1..][..i - 1] && ops[i..] == ops[1..][i - 1..];
      RunSplit(Apply(m, ops[0]).1, ops[1..], i - 1);
    }
  }

  /** Whatever is gone, or only directly findable, stays so for the rest of the run. */
  lemma {:induction false} NeverAgain(m: Ledger, ops: seq<Op>, i: nat, j: nat, id: nat)
    requires Sound(m) && i <= j <= |ops|
    ensures Gone(Run(m, ops[..i]), id) ==> Gone(Run(m, ops[..j]), id)
    ensures OnlyDirect(Run(m, ops[..i]), id) ==> OnlyDirect(Run(m, ops[..j]), id)
    decreases j
  {
    if i < j {
      NeverAgain(m, ops, i, j - 1, id);
      RunSound(m, ops[..j - 1]);
      StepKeeps(Run(m, ops[..j - 1]), ops[j - 1], id);
      RunNext(m, ops, j - 1);
    }
  }

  /** A later answer is not what a take returned, nor a fallback hit on what a direct peek returned. */
  ghost predicate NotAgain(op: Op, earlier: Answer, later: Answer) {
    earlier.Answer? && later.Answer? && earlier.found.id == later.found.id ==>
      !op.Take? && (op.Peek? && earlier.via == Direct ==> later.via == Direct)
  }

  lemma LaterAnswer(m: Ledger, op: Op, later: Ledger, laterOp: Op)
    requires Sound(m) && Sound(later)
    requires forall id :: Gone(Apply(m, op).1, id) ==> Gone(later, id)
    requires forall id :: OnlyDirect(Apply(m, op).1, id) ==> OnlyDirect(later, id)
    ensures NotAgain(op, Apply(m, op).0, Apply(later, laterOp).0)
  {
    StepAnswers(m, op);
    StepAnswers(later, laterOp);
  }

  /** Single hand-out, over any run and any two of its operations. */
  lemma SingleHandOut(m: Ledger, ops: seq<Op>, i: nat, j: nat)
    requires Sound(m) && i < j < |ops|
    ensures NotAgain(ops[i], AnswerAt(m, ops, i), AnswerAt(m, ops, j))
  {
    RunSound(m, ops[..i]);
    RunSound(m, ops[..j]);
    RunNext(m, ops, i);
    forall id
      ensures Gone(Run(m, ops[..i + 1]), id) ==> Gone(Run(m, ops[..j]), id)
      ensures OnlyDirect(Run(m, ops[..i + 1]), id) ==> OnlyDirect(Run(m, ops[..j]), id)
    {
      NeverAgain(m, ops, i + 1, j, id);
    }
    LaterAnswer(Run(m, ops[..i]), ops[i], Run(m, ops[..j]), ops[j]);
  }

  // ---------- expiry ----------

  /** Recording times do not decrease along the list and do not exceed `now`. */
  predicate Chronological(live: seq<Live>, now: nat) {
    live == [] || (Last(live).entry.recordedAt <= now && Chronological(Front(live), Last(live).entry.recordedAt))
  }

  /** The entries recorded at most 900 seconds ago. */
  function Unexpired(live: seq<Live>, now: nat): seq<Live> {
    if live == [] then []
    else (if live[0].entry.recordedAt + 900_000_000_000 < now then [] else [live[0]]) + Unexpired(live[1..], now)
  }

  lemma {:induction false} ChronologicalTail(live: seq<Live>, now: nat)
    requires Chronological(live, now) && live != []
    ensures Chronological(live[1..], now)
    ensures forall l :: l in live ==> live[0].entry.recordedAt <= l.entry.recordedAt <= now
    decreases |live|
  {
    var front, last := Front(live), Last(live);
    Snoc(live);
    if |live| > 1 {
      ChronologicalTail(front, last.entry.recordedAt);
      assert live[1..] == front[1..] + [last];
      assert Front(live[1..]) == front[1..];
      HeadMember(front);
    }
  }

  lemma {:induction false} AllFresh(live: seq<Live>, now: nat)
    requires forall l :: l in live ==> !Expired(l.entry, now)
    ensures Unexpired(live, now) == live
  {
    if live != [] {
      assert live[0] in live;
      AllFresh(live[1..], now);
    }
  }

  /** Pruning from the front removes exactly the expired entries. */
  lemma {:induction false} PruneIsExact(live: seq<Live>, now: nat)
    requires Chronological(live, now) && |live| <= LIMIT
    ensures AfterPrune(live, now) == Unexpired(live, now)
    ensures !PrunesFresh(live, now)
  {
    if live != [] {
      ChronologicalTail(live, now);
      if Expired(live[0].entry, now) {
        PruneIsExact(live[1..], now);
      } else {
        AllFresh(live, now);
      }
    }
  }

  function TimeOf(op: Op): Option<nat> {
    match op
    case Record(_, _, _, _, now) => Some(now)
    case Peek(_, now) => Some(now)
    case Take(_, now) => Some(now)
    case Discard(_) => None
  }

  /** The clock the operations read starts at `from`, never goes back and ends by `to`. */
  predicate ClockRuns(ops: seq<Op>, from: nat, to: nat) {
    if ops == [] then from <= to
    else match TimeOf(ops[0])
      case None => ClockRuns(ops[1..], from, to)
      case Some(t) => from <= t && ClockRuns(ops[1..], t, to)
  }

  lemma {:induction false} ChronologicalMeans(live: seq<Live>, now: nat)
    ensures Chronological(live, now) <==>
            && (forall l :: l in live ==> l.entry.recordedAt <= now)
            && (forall i, j :: 0 <= i < j < |live| ==> live[i].entry.recordedAt <= live[j].entry.recordedAt)
    decreases |live|
  {
    if live != [] {
      var front, last := Front(live), Last(live);
      Snoc(live);
      ChronologicalMeans(front, last.entry.recordedAt);
      if Chronological(live, now) {
        assert forall i :: 0 <= i < |front| ==> front[i] in front && live[i] == front[i];
      } else {
        assert last in live;
        assert forall i :: 0 <= i < |front| ==> live[i] == front[i];
      }
    }
  }

  lemma ChronologicalSuffix(live: seq<Live>, now: nat, k: nat)
    requires Chronological(live, now) && k <= |live|
    ensures Chronological(live[k..], now)
  {
    ChronologicalMeans(live, now);
    ChronologicalMeans(live[k..], now);
  }

  lemma {:induction false} ChronologicalRemoved(live: seq<Live>, now: nat, id: nat)
    requires Chronological(live, now)
    ensures Chronological(Removed(live, id), now)
    decreases |live|
  {
    if live != [] {
      var front, last := Front(live), Last(live);
      Snoc(live);
      RemovedAppended(front, last, id);
      ChronologicalRemoved(front, last.entry.recordedAt, id);
      if last.id == id {
      } else {
        assert Front(Removed(front, id) + [last]) == Removed(front, id);
      }
    }
  }

  lemma {:induction false} ChronologicalUnreplaced(live: seq<Live>, now: nat, f: string, n: Option<string>)
    requires Chronological(live, now)
    ensures Chronological(Unreplaced(live, f, n), now)
    decreases |live|
  {
    if live != [] {
      var front, last := Front(live), Last(live);
      Snoc(live);
      UnreplacedAppended(front, last, f, n);
      ChronologicalUnreplaced(front, last.entry.recordedAt, f, n);
      if Replaces(last.entry, f, n) {
      } else {
        assert Front(Unreplaced(front, f, n) + [last]) == Unreplaced(front, f, n);
      }
    }
  }

  lemma ChronologicalRetired(live: seq<Live>, now: nat, id: nat)
    requires Chronological(live, now)
    ensures Chronological(Retired(live, id), now)
  {
    ChronologicalMeans(live, now);
    ChronologicalMeans(Retired(live, id), now);
    forall l | l in Retired(live, id)
      ensures l.entry.recordedAt <= now
    {
      var i :| 0 <= i < |live| && Retired(live, id)[i] == l;
      assert live[i] in live;
    }
  }

  lemma PrunedChronological(m: Ledger, from: nat, now: nat)
    requires Chronological(m.live, from) && from <= now
    ensures Chronological(Pruned(m, now).live, now)
  {
    var k := PruneDropsPrefix(m.live, now);
    ChronologicalSuffix(m.live, now, k);
  }

  lemma RecordChronological(m: Ledger, f: string, n: Option<string>, verb: string, c: Correlation, from: nat, now: nat)
    requires Chronological(m.live, from) && from <= now
    ensures Chronological(Recorded(m, f, n, verb, c, now).live, now)
  {
    PrunedChronological(m, from, now);
    var live := Pruned(m, now).live;
    ChronologicalUnreplaced(live, now, f, n);
    var kept := Unreplaced(live, f, n);
    var more := kept + [Live(m.nextId, NewEntry(f, n, verb, c, now))];
    assert Front(more) == kept;
    if |more| > LIMIT {
      ChronologicalSuffix(more, now, |more| - LIMIT);
    }
  }

  lemma StepChronological(m: Ledger, op: Op, from: nat)
    requires Chronological(m.live, from) && (TimeOf(op).Some? ==> from <= TimeOf(op).value)
    ensures Chronological(Apply(m, op).1.live, if TimeOf(op).Some? then TimeOf(op).value else from)
  {
    match op
    case Record(f, n, verb, c, now) =>
      RecordChronological(m, f, n, verb, c, from, now);
    case Peek(r, now) =>
      PrunedChronological(m, from, now);
      var (a, m') := Resolved(Pruned(m, now), r);
      if a.Answer? {
        ChronologicalRetired(m'.live, now, a.found.id);
      }
    case Take(r, now) =>
      PrunedChronological(m, from, now);
      var (a, m') := Resolved(Pruned(m, now), r);
      if a.Answer? {
        ChronologicalRemoved(m'.live, now, a.found.id);
      }
    case Discard(f) =>
      if ByFetch(m.live, f).Some? {
        ChronologicalRemoved(m.live, from, ByFetch(m.live, f).value.id);
      }
  }

  lemma {:induction false} RunChronological(m: Ledger, ops: seq<Op>, from: nat, to: nat)
    requires Chronological(m.live, from) && ClockRuns(ops, from, to)
    ensures Chronological(Run(m, ops).live, to)
    decreases |ops|
  {
    if ops == [] {
    } else {
      StepChronological(m, ops[0], from);
      RunChronological(Apply(m, ops[0]).1, ops[1..], if TimeOf(ops[0]).Some? then TimeOf(ops[0]).value else from, to);
    }
  }

  /** After any run under a clock that never goes back, pruning keeps the unexpired entries and no others. */
  lemma ExpiryIsExact(ops: seq<Op>, now: nat)
    requires ClockRuns(ops, 0, now)
    ensures AfterPrune(Run(EMPTY, ops).live, now) == Unexpired(Run(EMPTY, ops).live, now)
  {
    RunSound(EMPTY, ops);
    RunChronological(EMPTY, ops, 0, now);
    PruneIsExact(Run(EMPTY, ops).live, now);
  }

  // ---------- rollback ----------

  function WithoutFetch(live: seq<Live>, fetchId: string): seq<Live> {
    if live == [] then []
    else if live[0].entry.fetchId == fetchId then WithoutFetch(live[1..], fetchId)
    else [live[0]] + WithoutFetch(live[1..], fetchId)
  }

  /**
   * Whatever ran between a publication and its rollback, the rollback leaves no entry for the fetch id and
   * every other entry as it was.
   */
  lemma RollbackIsExact(m: Ledger, ops: seq<Op>, fetchId: string)
    requires Sound(m)
    ensures var before := Run(m, ops);
            Discarded(before, fetchId) == before.(live := WithoutFetch(before.live, fetchId))
    ensures forall l :: l in Discarded(Run(m, ops), fetchId).live ==> l.entry.fetchId != fetchId
  {
    RunSound(m, ops);
    var before := Run(m, ops);
    ByFetchFinds(before.live, fetchId);
    DistinctMeans(before.live);
    match ByFetch(before.live, fetchId)
    case None =>
      NoFetch(before.live, fetchId);
    case Some(l) =>
      RemovedIsWithoutFetch(before.live, fetchId, l.id);
      RemovedMembers(before.live, l.id);
  }

  lemma {:induction false} NoFetch(live: seq<Live>, fetchId: string)
    requires forall l :: l in live ==> l.entry.fetchId != fetchId
    ensures WithoutFetch(live, fetchId) == live
  {
    if live != [] {
      assert live[0] in live;
      NoFetch(live[1..], fetchId);
    }
  }

  lemma {:induction false} RemovedIsWithoutFetch(live: seq<Live>, fetchId: string, id: nat)
    requires forall l :: l in live ==> (l.entry.fetchId == fetchId <==> l.id == id)
    ensures Removed(live, id) == WithoutFetch(live, fetchId)
  {
    if live != [] {
      assert live[0] in live;
      RemovedIsWithoutFetch(live[1..], fetchId, id);
    }
  }

  // ---------- how long a record is found ----------

  /** The same record, perhaps retired since. */
  predicate SameRecord(a: Timed, b: Timed) {
    a == b || a == RetiredEntry(b)
  }

  /** The record is live under that id, with at most `after` entries behind it. */
  predicate Holds(live: seq<Live>, id: nat, e: Timed, after: nat) {
    live != [] &&
    ((live[0].id == id && SameRecord(live[0].entry, e) && |live| <= after + 1) || Holds(live[1..], id, e, after))
  }

  lemma {:induction false} HoldsMember(live: seq<Live>, id: nat, e: Timed, after: nat) returns (l: Live)
    requires Holds(live, id, e, after)
    ensures l in live && l.id == id && SameRecord(l.entry, e)
  {
    if live[0].id == id && SameRecord(live[0].entry, e) {
      l := live[0];
    } else {
      l := HoldsMember(live[1..], id, e, after);
    }
  }

  lemma {:induction false} LastHeld(live: seq<Live>)
    requires live != []
    ensures Holds(live, Last(live).id, Last(live).entry, 0)
  {
    if |live| > 1 {
      assert Last(live[1..]) == Last(live);
      LastHeld(live[1..]);
    }
  }

  lemma {:induction false} PrunedHolds(live: seq<Live>, id: nat, e: Timed, after: nat, now: nat)
    requires Holds(live, id, e, after) && |live| <= LIMIT && !Expired(e, now)
    ensures Holds(AfterPrune(live, now), id, e, after)
  {
    if MustGo(live, now) {
      PrunedHolds(live[1..], id, e, after, now);
    }
  }

  lemma {:induction false} UnreplacedHolds(
    live: seq<Live>, id: nat, e: Timed, after: nat, fetchId: string, networkId: Option<string>)
    requires Holds(live, id, e, after) && !Replaces(e, fetchId, networkId)
    ensures Holds(Unreplaced(live, fetchId, networkId), id, e, after)
  {
    var rest := Unreplaced(live[1..], fetchId, networkId);
    UnreplacedShorter(live, fetchId, networkId);
    if live[0].id == id && SameRecord(live[0].entry, e) && |live| <= after + 1 {
      assert ([live[0]] + rest)[1..] == rest;
    } else {
      UnreplacedHolds(live[1..], id, e, after, fetchId, networkId);
      assert ([live[0]] + rest)[1..] == rest;
    }
  }

  lemma {:induction false} RemovedHolds(live: seq<Live>, id: nat, e: Timed, after: nat, other: nat)
    requires Holds(live, id, e, after) && other != id
    ensures Holds(Removed(live, other), id, e, after) && |Removed(live, other)| <= |live|
  {
    var rest := Removed(live[1..], other);
    IdsRemoved(live, other);
    assert |Ids(Removed(live, other))| <= |Ids(live)|;
    if live[0].id == id && SameRecord(live[0].entry, e) && |live| <= after + 1 {
      assert ([live[0]] + rest)[1..] == rest;
    } else {
      RemovedHolds(live[1..], id, e, after, other);
      assert ([live[0]] + rest)[1..] == rest;
    }
  }

  lemma {:induction false} RetiredHolds(live: seq<Live>, id: nat, e: Timed, after: nat, other: nat)
    requires Holds(live, id, e, after)
    ensures Holds(Retired(live, other), id, e, after)
  {
    assert Retired(live, other)[1..] == Retired(live[1..], other);
    if !(live[0].id == id && SameRecord(live[0].entry, e) && |live| <= after + 1) {
      RetiredHolds(live[1..], id, e, after, other);
    }
  }

  lemma {:induction false} AppendedHolds(live: seq<Live>, id: nat, e: Timed, after: nat, l: Live)
    requires Holds(live, id, e, after)
    ensures Holds(live + [l], id, e, after + 1)
  {
    assert (live + [l])[1..] == live[1..] + [l];
    if !(live[0].id == id && SameRecord(live[0].entry, e) && |live| <= after + 1) {
      AppendedHolds(live[1..], id, e, after, l);
    }
  }

  lemma {:induction false} SuffixHolds(live: seq<Live>, id: nat, e: Timed, after: nat, k: nat)
    requires Holds(live, id, e, after) && k <= |live| && |live| - k > after
    ensures Holds(live[k..], id, e, after)
    decreases k
  {
    if k == 0 {
      assert live[k..] == live;
    } else {
      assert live[1..][k - 1..] == live[k..];
      SuffixHolds(live[1..], id, e, after, k - 1);
    }
  }

  /** The operation does not expire, replace, evict, take or discard the record. */
  predicate Spares(m: Ledger, op: Op, id: nat, e: Timed, after: nat) {
    match op
    case Record(f, n, _, _, now) => !Expired(e, now) && !Replaces(e, f, n) && after + 1 < LIMIT
    case Peek(_, now) => !Expired(e, now)
    case Take(_, now) => !Expired(e, now) && var a := Apply(m, op).0; (a.Answer? ==> a.found.id != id)
    case Discard(f) => f != e.fetchId
  }

  function Behind(op: Op, after: nat): nat {
    if op.Record? then after + 1 else after
  }

  lemma RecordHolds(m: Ledger, op: Op, id: nat, e: Timed, after: nat)
    requires Sound(m) && op.Record? && Holds(m.live, id, e, after) && Spares(m, op, id, e, after)
    ensures Holds(Apply(m, op).1.live, id, e, after + 1)
  {
    PrunedHolds(m.live, id, e, after, op.now);
    var pruned := Pruned(m, op.now).live;
    UnreplacedHolds(pruned, id, e, after, op.fetchId, op.networkId);
    var kept := Unreplaced(pruned, op.fetchId, op.networkId);
    var l := Live(m.nextId, NewEntry(op.fetchId, op.networkId, op.verb, op.correlation, op.now));
    AppendedHolds(kept, id, e, after, l);
    BoundedHolds(kept + [l], id, e, after + 1);
  }

  lemma BoundedHolds(live: seq<Live>, id: nat, e: Timed, after: nat)
    requires Holds(live, id, e, after) && after < LIMIT
    ensures Holds(Bounded(live), id, e, after)
  {
    if |live| > LIMIT {
      SuffixHolds(live, id, e, after, |live| - LIMIT);
    }
  }

  lemma StepHolds(m: Ledger, op: Op, id: nat, e: Timed, after: nat)
    requires Sound(m) && Holds(m.live, id, e, after) && Spares(m, op, id, e, after)
    ensures Holds(Apply(m, op).1.live, id, e, Behind(op, after))
  {
    match op
    case Record(_, _, _, _, _) => RecordHolds(m, op, id, e, after);
    case Peek(r, now) =>
      PrunedHolds(m.live, id, e, after, now);
      var (a, m') := Resolved(Pruned(m, now), r);
      if a.Answer? {
        RetiredHolds(m'.live, id, e, after, a.found.id);
      }
    case Take(r, now) =>
      PrunedHolds(m.live, id, e, after, now);
      var (a, m') := Resolved(Pruned(m, now), r);
      if a.Answer? {
        RemovedHolds(m'.live, id, e, after, a.found.id);
      }
    case Discard(f) => DiscardHolds(m, f, id, e, after);
  }

  lemma DiscardHolds(m: Ledger, f: string, id: nat, e: Timed, after: nat)
    requires Sound(m) && Holds(m.live, id, e, after) && f != e.fetchId
    ensures Holds(Discarded(m, f).live, id, e, after)
  {
    ByFetchFinds(m.live, f);
    if ByFetch(m.live, f).Some? {
      var l := HoldsMember(m.live, id, e, after);
      DistinctMeans(m.live);
      RemovedHolds(m.live, id, e, after, ByFetch(m.live, f).value.id);
    }
  }

  predicate RunSpares(m: Ledger, ops: seq<Op>, id: nat, e: Timed, after: nat)
    decreases |ops|
  {
    ops == [] ||
    (Spares(m, ops[0], id, e, after) &&
     RunSpares(Apply(m, ops[0]).1, ops[1..], id, e, Behind(ops[0], after)))
  }

  /** Sparing a record depends on its time and its direct ids only. */
  lemma {:induction false} RunSparesSame(m: Ledger, ops: seq<Op>, id: nat, e: Timed, e': Timed, after: nat)
    requires e.recordedAt == e'.recordedAt && e.fetchId == e'.fetchId && e.networkId == e'.networkId
    requires RunSpares(m, ops, id, e, after)
    ensures RunSpares(m, ops, id, e', after)
    decreases |ops|
  {
    if ops != [] {
      RunSparesSame(Apply(m, ops[0]).1, ops[1..], id, e, e', Behind(ops[0], after));
    }
  }

  lemma {:induction false} RunHolds(m: Ledger, ops: seq<Op>, id: nat, e: Timed, after: nat) returns (behind: nat)
    requires Sound(m) && Holds(m.live, id, e, after) && RunSpares(m, ops, id, e, after)
    ensures Sound(Run(m, ops)) && Holds(Run(m, ops).live, id, e, behind)
    decreases |ops|
  {
    behind := after;
    if ops != [] {
      StepSound(m, ops[0]);
      StepHolds(m, ops[0], id, e, after);
      behind := RunHolds(Apply(m, ops[0]).1, ops[1..], id, e, Behind(ops[0], after));
    }
  }

  /** A record that is held is what its network id finds, until it expires. */
  lemma HeldIsFound(m: Ledger, id: nat, e: Timed, after: nat, r: Request, now: nat)
    requires Sound(m) && Holds(m.live, id, e, after) && e.networkId == Some(r.id) && !Expired(e, now)
    ensures var a := Taken(m, r, now).0;
            a.Answer? && a.via == Direct && a.found.id == id && SameRecord(a.found.entry, e)
  {
    PrunedHolds(m.live, id, e, after, now);
    PrunedSound(m, now);
    var live := Pruned(m, now).live;
    var l := HoldsMember(live, id, e, after);
    ByNetworkFinds(live, r.id);
    DistinctMeans(live);
  }
}
