/** The bounded, TTL-pruned registry of request_correlation.rs. */
module CorrelationRegistry {
  import opened Collections
  import opened NetworkRules
  import opened CorrelationLedger
  import opened CorrelationIndexes

  const U64_MAX: nat := 0xFFFF_FFFF_FFFF_FFFF

  function SaturatingIncrement(n: nat): nat {
    if n < U64_MAX then n + 1 else U64_MAX
  }

  /** Ids handed out so far are below this: a saturated counter may have handed out its own value. */
  function Bound(nextId: nat): nat {
    if nextId < U64_MAX then nextId else nextId + 1
  }

  /** No entry that a new one leaves in place has the id the counter would hand out next. */
  ghost predicate Vacant(m: Ledger, fetchId: string, networkId: Option<string>) {
    Below(Unreplaced(m.live, fetchId, networkId), m.nextId)
  }

  class RequestCorrelationRegistry {
    var nextId: nat
    var byId: ById
    var byFetchRequestId: map<string, nat>
    var byNetworkRequestId: map<string, nat>
    var order: seq<nat>
    var unresolvedByLookupKey: Buckets
    var degradedReasons: seq<Reason>

    /** The list that the structures above index. */
    ghost var live: seq<Live>

    ghost predicate Indexed()
      reads this
    {
      Distinct(live) && Below(live, Bound(nextId)) && nextId <= U64_MAX &&
      Indexes(live, byId, byFetchRequestId, byNetworkRequestId, unresolvedByLookupKey)
    }

    /** All five structures describe the same live entries. */
    ghost predicate Agree()
      reads this
    {
      Indexed() && order == Ids(live)
    }

    ghost predicate Valid()
      reads this
    {
      Agree() && |order| <= LIMIT
    }

    ghost function Contents(): Ledger
      reads this
    {
      Ledger(nextId, live, degradedReasons)
    }

    constructor ()
      ensures Valid() && Contents() == Ledger(0, [], [])
    {
      nextId, byId, byFetchRequestId, byNetworkRequestId := 0, map[], map[], map[];
      order, unresolvedByLookupKey, degradedReasons := [], map[], [];
      live := [];
    }

    /**
     * `record_at`. The structures stay in agreement exactly when the id is vacant, as it is until the counter has
     * run through all its values; else `order` repeats an id, as the order of no live list does.
     */
    method RecordAt(fetchId: string, networkId: Option<string>, verb: string, correlation: Correlation, now: nat)
      requires Valid()
      modifies this
      ensures nextId == SaturatingIncrement(old(nextId))
      ensures Vacant(Pruned(old(Contents()), now), fetchId, networkId) ==>
                && Valid()
                && live == Recorded(old(Contents()), fetchId, networkId, verb, correlation, now).live
                && degradedReasons == Recorded(old(Contents()), fetchId, networkId, verb, correlation, now).reasons
      ensures !Vacant(Pruned(old(Contents()), now), fetchId, networkId) ==> RepeatsLast(order)
    {
      Prune(now);
      Insert(fetchId, networkId, verb, correlation, now);
    }

    /** `record_at` once it has pruned: insert, then evict what is over the limit. */
    method Insert(fetchId: string, networkId: Option<string>, verb: string, correlation: Correlation, now: nat)
      requires Valid()
      modifies this
      ensures nextId == SaturatingIncrement(old(nextId))
      ensures Vacant(old(Contents()), fetchId, networkId) ==>
                && Valid()
                && live == Inserted(old(Contents()), fetchId, networkId, verb, correlation, now).live
                && degradedReasons == Inserted(old(Contents()), fetchId, networkId, verb, correlation, now).reasons
      ensures !Vacant(old(Contents()), fetchId, networkId) ==> RepeatsLast(order)
    {
      InsertTimed(fetchId, networkId, verb, correlation, now);
      EvictOverLimit();
    }

    /** The eviction loop of `record_at` and the reason it leaves. */
    method EvictOverLimit()
      requires |order| <= LIMIT + 1
      modifies this
      ensures nextId == old(nextId) && |order| <= LIMIT
      ensures degradedReasons ==
              if old(|order|) > LIMIT then Emit(old(degradedReasons), Evicted) else old(degradedReasons)
      ensures old(Agree()) ==> Agree() && live == Bounded(old(live))
      ensures old(Collided(order)) ==> RepeatsLast(order)
    {
      var boundedEvicted := false;
      while |order| > LIMIT
        invariant nextId == old(nextId) && degradedReasons == old(degradedReasons)
        invariant if boundedEvicted then |order| <= LIMIT < old(|order|) else order == old(order) && live == old(live)
        invariant old(Agree()) ==> Agree() && live == if boundedEvicted then old(live)[1..] else old(live)
        invariant old(Collided(order)) ==> RepeatsLast(order)
        decreases |order|
      {
        if Collided(order) {
          RepeatSurvives(order);
        }
        EvictOldest();
        boundedEvicted := true;
      }
      if boundedEvicted {
        EmitDegraded(Evicted);
      }
    }

    /** `take_at`: hand out and forget. */
    method TakeAt(r: Request, now: nat) returns (correlation: Option<Correlation>)
      requires Valid()
      modifies this
      ensures Valid()
      ensures Contents() == Taken(old(Contents()), r, now).1
      ensures var answer := Taken(old(Contents()), r, now).0;
              correlation == if answer.Answer? then Some(answer.found.entry.correlation) else None
    {
      Prune(now);
      var entryId := DirectEntryId(r.id);
      if entryId.None? {
        entryId := FindUniqueUnresolved(r);
      }
      if entryId.None? {
        return None;
      }
      correlation := RemoveEntry(entryId.value);
    }

    /** `peek_at`: hand out and keep; a direct hit also retires the entry from the fallback. */
    method PeekAt(r: Request, now: nat) returns (correlation: Option<Correlation>)
      requires Valid()
      modifies this
      ensures Valid()
      ensures Contents() == Peeked(old(Contents()), r, now).1
      ensures var answer := Peeked(old(Contents()), r, now).0;
              correlation == if answer.Answer? then Some(answer.found.entry.correlation) else None
    {
      Prune(now);
      var entryId := DirectEntryId(r.id);
      if entryId.Some? {
        RetireUnresolved(entryId.value);
        return if entryId.value in byId then Some(byId[entryId.value].correlation) else None;
      }
      entryId := FindUniqueUnresolved(r);
      if entryId.None? || entryId.value !in byId {
        return None;
      }
      correlation := Some(byId[entryId.value].correlation);
    }

    /** `discard_for_fetch_request_id`. */
    method DiscardForFetchRequestId(fetchId: string) returns (discarded: bool)
      modifies this
      ensures nextId == old(nextId) && |order| <= old(|order|)
      ensures old(Valid()) ==>
                && Valid() && Contents() == Discarded(old(Contents()), fetchId)
                && (discarded <==> exists l :: l in old(Contents()).live && l.entry.fetchId == fetchId)
    {
      ghost var valid := Valid();
      if valid {
        DirectLookups(live, fetchId);
        ByFetchFinds(live, fetchId);
      }
      if fetchId !in byFetchRequestId {
        return false;
      }
      if valid {
        EntryIdGet(live, ByFetch(live, fetchId).value);
      }
      var removed := RemoveEntry(byFetchRequestId[fetchId]);
      discarded := removed.Some?;
    }

    /** `prune`: drop entries from the front of `order` while the oldest must go. */
    method Prune(now: nat)
      requires Agree()
      modifies this
      ensures Valid() && nextId == old(nextId)
      ensures Contents() == Pruned(old(Contents()), now)
    {
      var expiredPruned, boundedEvicted := false, false;
      while order != []
        invariant Agree() && nextId == old(nextId) && degradedReasons == old(degradedReasons)
        invariant AfterPrune(live, now) == AfterPrune(old(live), now)
        invariant expiredPruned || PrunesExpired(live, now) <==> PrunesExpired(old(live), now)
        invariant boundedEvicted || PrunesFresh(live, now) <==> PrunesFresh(old(live), now)
        decreases |order|
      {
        EntryIdGet(live, live[0]);
        var oldest := order[0];
        var expired := oldest !in byId || Expired(byId[oldest], now);
        if !expired && |order| <= LIMIT {
          break;
        }
        EvictOldest();
        if expired {
          expiredPruned := true;
        } else {
          boundedEvicted := true;
        }
      }
      if expiredPruned {
        EmitDegraded(TtlExpired);
      }
      if boundedEvicted {
        EmitDegraded(Evicted);
      }
    }

    /** `pop_front` and `remove_entry`, the step of both eviction loops. */
    method EvictOldest()
      requires order != []
      modifies this
      ensures nextId == old(nextId) && degradedReasons == old(degradedReasons)
      ensures old(Agree()) ==> Agree() && live == old(live)[1..]
      ensures order == old(order)[1..] || order == Without(old(order)[1..], old(order)[0])
      ensures |order| < old(|order|)
    {
      PoppedFront(live);
      var oldest := order[0];
      order := order[1..];
      var _ := RemoveEntry(oldest);
    }

    /** The structures describe the live list, save that `order` may already have lost its front. */
    ghost predicate Removable(entryId: nat)
      reads this
    {
      Indexed() && (order == Ids(live) || (live != [] && live[0].id == entryId && order == Ids(live)[1..]))
    }

    /** `remove_entry`; on a front eviction `order` has already lost the id. */
    method RemoveEntry(entryId: nat) returns (correlation: Option<Correlation>)
      modifies this
      ensures nextId == old(nextId) && degradedReasons == old(degradedReasons)
      ensures order == if entryId in old(byId) then Without(old(order), entryId) else old(order)
      ensures correlation == if entryId in old(byId) then Some(old(byId)[entryId].correlation) else None
      ensures old(Removable(entryId)) ==> Agree() && live == Removed(old(live), entryId) && |live| <= old(|live|)
    {
      ghost var removable := Removable(entryId);
      if entryId !in byId {
        if removable {
          NoEntry(live, entryId);
        }
        return None;
      }
      var entry := byId[entryId];
      if removable {
        EntryToRemove(live, entryId, nextId);
        if order != Ids(live) {
          Popped(live);
          PoppedOrder(Ids(live));
        }
      }
      live := Removed(live, entryId);
      order := Without(order, entryId);
      byId := byId - {entryId};
      ForgetIds(entry, entryId);
      correlation := Some(entry.correlation);
    }

    /** The index updates of `remove_entry`: an index forgets the entry's key if it leads to the entry. */
    method ForgetIds(entry: Timed, entryId: nat)
      modifies this`byFetchRequestId, this`byNetworkRequestId, this`unresolvedByLookupKey
      ensures unresolvedByLookupKey == DropFromBucketsIf(old(unresolvedByLookupKey), entry.lookupKey, entryId)
      ensures byFetchRequestId ==
              if LeadsTo(old(byFetchRequestId), Some(entry.fetchId), entryId) then
                old(byFetchRequestId) - {entry.fetchId}
              else old(byFetchRequestId)
      ensures byNetworkRequestId ==
              if LeadsTo(old(byNetworkRequestId), entry.networkId, entryId) then
                old(byNetworkRequestId) - {entry.networkId.value}
              else old(byNetworkRequestId)
    {
      if entry.lookupKey.Some? {
        RemoveFromUnresolvedIndex(entry.lookupKey.value, entryId);
      }
      if entry.fetchId in byFetchRequestId && byFetchRequestId[entry.fetchId] == entryId {
        byFetchRequestId := byFetchRequestId - {entry.fetchId};
      }
      if entry.networkId.Some? && entry.networkId.value in byNetworkRequestId
         && byNetworkRequestId[entry.networkId.value] == entryId {
        byNetworkRequestId := byNetworkRequestId - {entry.networkId.value};
      }
    }

    method RemoveFromUnresolvedIndex(key: LookupKey, entryId: nat)
      modifies this`unresolvedByLookupKey
      ensures unresolvedByLookupKey == DropFromBuckets(old(unresolvedByLookupKey), key, entryId)
    {
      var removeBucket := false;
      if key in unresolvedByLookupKey {
        var kept := Without(unresolvedByLookupKey[key], entryId);
        unresolvedByLookupKey := unresolvedByLookupKey[key := kept];
        removeBucket := kept == [];
      }
      if removeBucket {
        unresolvedByLookupKey := unresolvedByLookupKey - {key};
      }
    }

    method RetireUnresolved(entryId: nat)
      requires Agree()
      modifies this
      ensures Agree() && nextId == old(nextId) && degradedReasons == old(degradedReasons) && order == old(order)
      ensures live == Retired(old(live), entryId)
      ensures byId.Keys == old(byId).Keys
      ensures entryId in byId ==> byId[entryId].correlation == old(byId)[entryId].correlation
    {
      if entryId !in byId {
        NoEntry(live, entryId);
        return;
      }
      ghost var l := EntryOf(live, entryId);
      EntryRetired(live, l);
      BelowRetired(live, entryId, Bound(nextId));
      var entry := byId[entryId];
      live := Retired(live, entryId);
      if entry.lookupKey.Some? {
        RemoveFromUnresolvedIndex(entry.lookupKey.value, entryId);
      }
      byId := byId[entryId := RetiredEntry(entry)];
    }

    /** The ids `retire_replaced_direct_authority` collects, which are those of the replaced entries. */
    method ReplacedEntryIds(fetchId: string, networkId: Option<string>) returns (replaced: seq<nat>)
      requires Agree()
      ensures forall l :: l in live ==> (Replaces(l.entry, fetchId, networkId) <==> l.id in replaced)
    {
      replaced := [];
      if fetchId in byFetchRequestId {
        replaced := replaced + [byFetchRequestId[fetchId]];
      }
      if networkId.Some? && networkId.value in byNetworkRequestId
         && byNetworkRequestId[networkId.value] !in replaced {
        replaced := replaced + [byNetworkRequestId[networkId.value]];
      }
      ReplacedIds(live, fetchId, networkId, replaced);
    }

    method RetireReplacedDirectAuthority(fetchId: string, networkId: Option<string>)
      requires Agree()
      modifies this
      ensures Agree() && nextId == old(nextId) && degradedReasons == old(degradedReasons)
      ensures live == Unreplaced(old(live), fetchId, networkId)
    {
      ghost var before := live;
      var replaced := ReplacedEntryIds(fetchId, networkId);
      DroppedIsUnreplaced(before, replaced, fetchId, networkId);
      DroppedNone(before);
      for i := 0 to |replaced|
        invariant Agree() && nextId == old(nextId) && degradedReasons == old(degradedReasons)
        invariant live == Dropped(before, replaced[..i])
      {
        DroppedNext(before, replaced, i);
        var _ := RemoveEntry(replaced[i]);
      }
      assert replaced[..|replaced|] == replaced;
    }

    method InsertTimed(fetchId: string, networkId: Option<string>, verb: string, correlation: Correlation, now: nat)
      requires Valid()
      modifies this
      ensures nextId == SaturatingIncrement(old(nextId)) && degradedReasons == old(degradedReasons)
      ensures |order| <= LIMIT + 1
      ensures live == Unreplaced(old(live), fetchId, networkId)
                      + [Live(old(nextId), NewEntry(fetchId, networkId, verb, correlation, now))]
      ensures order == Ids(live)
      ensures if Vacant(old(Contents()), fetchId, networkId) then Agree() else Collided(order)
    {
      UnreplacedShorter(live, fetchId, networkId);
      var entry := NewEntry(fetchId, networkId, verb, correlation, now);
      NewestFollows(live, Live(nextId, entry));
      RetireReplacedDirectAuthority(fetchId, networkId);
      if !Below(live, nextId) {
        LastIsTaken(live, nextId);
      }
      Append(entry);
    }

    /** The rest of `insert_timed`, once no live entry shares a direct id with the new one. */
    method Append(entry: Timed)
      requires entry.lookupKey.Some?
      modifies this
      ensures nextId == SaturatingIncrement(old(nextId)) && degradedReasons == old(degradedReasons)
      ensures live == old(live) + [Live(old(nextId), entry)] && order == old(order) + [old(nextId)]
      ensures byId == old(byId)[old(nextId) := entry]
      ensures old(Agree() && Follows(live, Live(nextId, entry))) && WellFormed(entry) ==> Agree()
    {
      var entryId := nextId;
      if Agree() && Follows(live, Live(entryId, entry)) && WellFormed(entry) {
        Appended(live, Live(entryId, entry));
        BoundAppended(live, Live(entryId, entry));
        IdsAppended(live, Live(entryId, entry));
      }
      live := live + [Live(entryId, entry)];
      nextId := SaturatingIncrement(nextId);
      byFetchRequestId := byFetchRequestId[entry.fetchId := entryId];
      if entry.networkId.Some? {
        byNetworkRequestId := byNetworkRequestId[entry.networkId.value := entryId];
      }
      var key := entry.lookupKey.value;
      var bucket := (if key in unresolvedByLookupKey then unresolvedByLookupKey[key] else []) + [entryId];
      unresolvedByLookupKey := unresolvedByLookupKey[key := bucket];
      byId := byId[entryId := entry];
      order := order + [entryId];
    }

    method DirectEntryId(requestId: string) returns (entryId: Option<nat>)
      requires Agree()
      ensures match DirectHit(live, requestId)
              case Some(l) => l in live && entryId == Some(l.id) && l.id in byId && byId[l.id] == l.entry
              case None => entryId == None
    {
      DirectLookups(live, requestId);
      if requestId in byNetworkRequestId {
        EntryIdGet(live, ByNetwork(live, requestId).value);
        return Some(byNetworkRequestId[requestId]);
      }
      if requestId in byFetchRequestId {
        EntryIdGet(live, ByFetch(live, requestId).value);
        return Some(byFetchRequestId[requestId]);
      }
      entryId := None;
    }

    /** `find_unique_unresolved`. */
    method FindUniqueUnresolved(r: Request) returns (entryId: Option<nat>)
      requires Agree()
      modifies this`degradedReasons
      ensures match Scan(live, r)
              case Unique(l, _) => l in live && entryId == Some(l.id) && l.id in byId && byId[l.id] == l.entry
              case Nothing => entryId == None
              case Ambiguous => entryId == None
      ensures degradedReasons == EmitVerdict(old(degradedReasons), Scan(live, r))
    {
      var lookupKey := LookupKey(r.tab, r.url, r.verb);
      var candidates := if lookupKey in unresolvedByLookupKey then unresolvedByLookupKey[lookupKey] else [];
      CandidatesAre(live, lookupKey);
      var strictMatch, strictAmbiguous, relaxedMatch, relaxedAmbiguous :=
        MatchCandidates(byId, candidates, lookupKey, r.headers, WithKey(live, lookupKey));
      ScanFinds(live, r);
      if strictAmbiguous {
        EmitDegraded(AmbiguousFallback);
        return None;
      }
      if strictMatch.Some? {
        EmitDegraded(StrictFallback);
        return strictMatch;
      }
      if relaxedAmbiguous {
        EmitDegraded(AmbiguousFallback);
        return None;
      }
      if relaxedMatch.Some? {
        EmitDegraded(RelaxedFallback);
      }
      entryId := relaxedMatch;
    }

    method EmitDegraded(reason: Reason)
      modifies this`degradedReasons
      ensures degradedReasons == Emit(old(degradedReasons), reason)
    {
      if degradedReasons == [] || degradedReasons[|degradedReasons| - 1] != reason {
        degradedReasons := degradedReasons + [reason];
      }
    }
  }

  lemma PoppedFront(live: seq<Live>)
    ensures Distinct(live) && live != [] ==> Removed(live, live[0].id) == live[1..]
  {
    if Distinct(live) && live != [] {
      Popped(live);
    }
  }

  ghost predicate LeadsTo(index: map<string, nat>, key: Option<string>, entryId: nat) {
    key.Some? && key.value in index && index[key.value] == entryId
  }

  /** The newest id is there twice. */
  ghost predicate RepeatsLast(order: seq<nat>) {
    |order| >= 2 && order[|order| - 2] == order[|order| - 1]
  }

  /** And the oldest is another, unless there are only those two. */
  ghost predicate Collided(order: seq<nat>) {
    RepeatsLast(order) && (|order| > 2 ==> order[0] != order[|order| - 1])
  }

  lemma RepeatSurvives(order: seq<nat>)
    requires Collided(order) && |order| > 2
    ensures RepeatsLast(order[1..]) && RepeatsLast(Without(order[1..], order[0]))
  {
    var n := |order|;
    var twice := [order[n - 1], order[n - 1]];
    assert order[1..] == order[1..n - 2] + twice;
    WithoutConcat(order[1..n - 2], twice, order[0]);
    WithoutAbsent(twice, order[0]);
  }

  /** An order with a repeated id is the order of no live list. */
  lemma RepeatDisagrees(live: seq<Live>, order: seq<nat>)
    requires RepeatsLast(order)
    ensures !(Distinct(live) && order == Ids(live))
  {
    if Distinct(live) {
      DistinctIncreasing(live);
    }
  }

  /** The next id is vacant unless an entry that stays has it, which takes a counter that has saturated. */
  lemma VacantIff(m: Ledger, fetchId: string, networkId: Option<string>)
    requires Below(m.live, Bound(m.nextId)) && m.nextId <= U64_MAX
    ensures Vacant(m, fetchId, networkId) <==>
            forall l :: l in m.live && l.id == m.nextId ==> Replaces(l.entry, fetchId, networkId)
    ensures m.nextId < U64_MAX ==> Vacant(m, fetchId, networkId)
  {
    var kept := Unreplaced(m.live, fetchId, networkId);
    UnreplacedMembers(m.live, fetchId, networkId);
    BelowMeans(m.live, Bound(m.nextId));
    BelowMeans(kept, m.nextId);
  }

  /** Once the counter's last id is in use, the next record with other direct ids collides with it. */
  lemma SaturatedIdCollides(e: Timed, fetchId: string, networkId: Option<string>)
    requires !Replaces(e, fetchId, networkId)
    ensures !Vacant(Ledger(U64_MAX, [Live(U64_MAX, e)], []), fetchId, networkId)
  {
    var m := Ledger(U64_MAX, [Live(U64_MAX, e)], []);
    assert Front(m.live) == [] && m.live[0] in m.live;
    VacantIff(m, fetchId, networkId);
  }

  /** If the counter's id is taken, the newest entry has it. */
  lemma LastIsTaken(live: seq<Live>, nextId: nat)
    requires Distinct(live) && Below(live, Bound(nextId)) && nextId <= U64_MAX && !Below(live, nextId)
    ensures live != [] && Last(live).id == nextId
    ensures Collided(Ids(live) + [nextId])
  {
    DistinctIncreasing(live);
    BelowMeans(live, nextId);
    BelowMeans(live, Bound(nextId));
    var l :| l in live && l.id >= nextId;
    var i :| 0 <= i < |live| && live[i] == l;
    assert Last(live) in live;
    assert Ids(live)[i] <= Ids(live)[|live| - 1];
    assert |live| > 1 ==> Ids(live)[0] < Ids(live)[|live| - 1];
  }

  /** What `remove_entry` needs of a live list and the id of one of its entries. */
  lemma EntryToRemove(live: seq<Live>, entryId: nat, nextId: nat)
    requires Distinct(live) && Below(live, Bound(nextId)) && entryId in ByEntryId(live)
    ensures var entry := ByEntryId(live)[entryId];
            var after := Removed(live, entryId);
            && Distinct(after) && Below(after, Bound(nextId)) && |after| <= |live|
            && Ids(after) == Without(Ids(live), entryId)
            && ByEntryId(after) == ByEntryId(live) - {entryId}
            && LeadsTo(FetchIndex(live), Some(entry.fetchId), entryId)
            && FetchIndex(after) == FetchIndex(live) - {entry.fetchId}
            && (entry.networkId.Some? ==> LeadsTo(NetworkIndex(live), entry.networkId, entryId))
            && NetworkIndex(after) == DropNetwork(NetworkIndex(live), entry.networkId)
            && BucketIndex(after) == DropFromBucketsIf(BucketIndex(live), entry.lookupKey, entryId)
  {
    var l := EntryOf(live, entryId);
    EntryRemoved(live, l);
    BelowRemoved(live, entryId, Bound(nextId));
  }

  /** Each candidate id stands for its entry in the list, which still carries the key. */
  ghost predicate Stands(byId: ById, candidates: seq<nat>, key: LookupKey, relaxed: seq<Live>) {
    |candidates| == |relaxed| &&
    forall i :: 0 <= i < |relaxed| ==>
      && candidates[i] == relaxed[i].id && candidates[i] in byId && byId[candidates[i]] == relaxed[i].entry
      && relaxed[i].entry.unresolved.Some? && relaxed[i].entry.lookupKey == Some(key)
  }

  lemma CandidatesAre(live: seq<Live>, key: LookupKey)
    requires Distinct(live)
    ensures var candidates := if key in BucketIndex(live) then BucketIndex(live)[key] else [];
            Stands(ByEntryId(live), candidates, key, WithKey(live, key))
  {
    BucketIsWithKey(live, key);
    var relaxed := WithKey(live, key);
    forall i | 0 <= i < |relaxed|
      ensures
        && relaxed[i].id in ByEntryId(live) && ByEntryId(live)[relaxed[i].id] == relaxed[i].entry
        && relaxed[i].entry.unresolved.Some? && relaxed[i].entry.lookupKey == Some(key)
    {
      Candidate(live, key, relaxed[i]);
    }
  }

  /** A found id and an ambiguity flag after one more candidate. */
  lemma SummarizesNext(seen: seq<Live>, match_: Option<nat>, ambiguous: bool, l: Live)
    requires Summarizes(seen, match_, ambiguous)
    ensures Summarizes(seen + [l], if match_.Some? then match_ else Some(l.id), ambiguous || match_.Some?)
  {
  }

  /** The loop of `find_unique_unresolved`: one pass over one bucket. */
  method MatchCandidates(
    byId: ById, candidates: seq<nat>, key: LookupKey, headers: Option<Headers>, ghost relaxed: seq<Live>)
    returns (strictMatch: Option<nat>, strictAmbiguous: bool, relaxedMatch: Option<nat>, relaxedAmbiguous: bool)
    requires Stands(byId, candidates, key, relaxed)
    ensures Summarizes(relaxed, relaxedMatch, relaxedAmbiguous)
    ensures Summarizes(WithHeaders(relaxed, headers), strictMatch, strictAmbiguous)
  {
    strictMatch, strictAmbiguous, relaxedMatch, relaxedAmbiguous := None, false, None, false;
    for i := 0 to |candidates|
      invariant Summarizes(relaxed[..i], relaxedMatch, relaxedAmbiguous)
      invariant Summarizes(WithHeaders(relaxed[..i], headers), strictMatch, strictAmbiguous)
    {
      var id := candidates[i];
      ghost var l := relaxed[i];
      assert relaxed[..i + 1] == relaxed[..i] + [l];
      WithHeadersSnoc(relaxed[..i], l, headers);
      SummarizesNext(relaxed[..i], relaxedMatch, relaxedAmbiguous, l);
      SummarizesNext(WithHeaders(relaxed[..i], headers), strictMatch, strictAmbiguous, l);
      if id !in byId || byId[id].unresolved.None? || byId[id].lookupKey != Some(key) {
        continue;
      }
      if relaxedMatch.Some? {
        relaxedAmbiguous := true;
      } else {
        relaxedMatch := Some(id);
      }
      if StrictHeaders(byId[id], headers) {
        if strictMatch.Some? {
          strictAmbiguous := true;
        } else {
          strictMatch := Some(id);
        }
      }
    }
    assert relaxed[..|candidates|] == relaxed;
  }

  /** The four maps are the ones the live list calls for. */
  ghost predicate Indexes(
    live: seq<Live>, byId: ById, byFetch: map<string, nat>, byNetwork: map<string, nat>, buckets: Buckets)
  {
    && byId == ByEntryId(live)
    && byFetch == FetchIndex(live)
    && byNetwork == NetworkIndex(live)
    && buckets == BucketIndex(live)
  }

  /** A found id and an ambiguity flag, for a list of candidates seen so far. */
  ghost predicate Summarizes(seen: seq<Live>, match_: Option<nat>, ambiguous: bool) {
    && (match_.None? <==> seen == [])
    && (match_.Some? ==> seen != [] && match_.value == seen[0].id)
    && (ambiguous <==> |seen| > 1)
  }

  /** Removing an entry from the list is what `remove_entry` does to each structure. */
  lemma EntryRemoved(live: seq<Live>, l: Live)
    requires Distinct(live) && l in live
    ensures Distinct(Removed(live, l.id)) && Ids(Removed(live, l.id)) == Without(Ids(live), l.id)
    ensures |Removed(live, l.id)| <= |live|
    ensures ByEntryId(Removed(live, l.id)) == ByEntryId(live) - {l.id}
    ensures FetchIndex(Removed(live, l.id)) == FetchIndex(live) - {l.entry.fetchId}
    ensures NetworkIndex(Removed(live, l.id)) == DropNetwork(NetworkIndex(live), l.entry.networkId)
    ensures BucketIndex(Removed(live, l.id)) == DropFromBucketsIf(BucketIndex(live), l.entry.lookupKey, l.id)
    ensures l.entry.fetchId in FetchIndex(live) && FetchIndex(live)[l.entry.fetchId] == l.id
    ensures l.entry.networkId.Some? ==>
              l.entry.networkId.value in NetworkIndex(live) && NetworkIndex(live)[l.entry.networkId.value] == l.id
  {
    DistinctRemoved(live, l.id);
    IdsRemoved(live, l.id);
    EntryIdsRemoved(live, l.id);
    FetchRemoved(live, l);
    NetworkRemoved(live, l);
    BucketsRemoved(live, l);
    DirectIndexed(live, l);
    assert |Ids(Removed(live, l.id))| <= |Ids(live)|;
  }

  lemma DirectIndexed(live: seq<Live>, l: Live)
    requires Distinct(live) && l in live
    ensures l.entry.fetchId in FetchIndex(live) && FetchIndex(live)[l.entry.fetchId] == l.id
    ensures l.entry.networkId.Some? ==>
              l.entry.networkId.value in NetworkIndex(live) && NetworkIndex(live)[l.entry.networkId.value] == l.id
  {
    DistinctMeans(live);
    FetchKeys(live);
    FetchGet(live, l.entry.fetchId);
    if l.entry.networkId.Some? {
      NetworkKeys(live);
      NetworkGet(live, l.entry.networkId.value);
    }
  }

  /** Retiring an entry in the list is what `retire_unresolved` does to each structure. */
  lemma EntryRetired(live: seq<Live>, l: Live)
    requires Distinct(live) && l in live
    ensures Distinct(Retired(live, l.id)) && Ids(Retired(live, l.id)) == Ids(live)
    ensures ByEntryId(Retired(live, l.id)) == ByEntryId(live)[l.id := RetiredEntry(l.entry)]
    ensures FetchIndex(Retired(live, l.id)) == FetchIndex(live)
    ensures NetworkIndex(Retired(live, l.id)) == NetworkIndex(live)
    ensures BucketIndex(Retired(live, l.id)) == DropFromBucketsIf(BucketIndex(live), l.entry.lookupKey, l.id)
  {
    DistinctRetired(live, l.id);
    IdsRetired(live, l.id);
    EntryIdsRetired(live, l);
    DirectRetired(live, l.id);
    BucketsRetired(live, l);
  }

  /** With its rivals gone, a fresh entry can be appended if its id is not taken. */
  lemma NewestFollows(live: seq<Live>, l: Live)
    ensures var kept := Unreplaced(live, l.entry.fetchId, l.entry.networkId);
            Below(kept, l.id) ==> Follows(kept, l)
  {
    var kept := Unreplaced(live, l.entry.fetchId, l.entry.networkId);
    BelowMeans(kept, l.id);
    UnreplacedMembers(live, l.entry.fetchId, l.entry.networkId);
    FollowsMeans(kept, l);
  }

  lemma BoundAppended(live: seq<Live>, l: Live)
    requires Follows(live, l) && l.id <= U64_MAX
    ensures Below(live + [l], Bound(SaturatingIncrement(l.id)))
  {
    FollowsBelow(live, l, Bound(SaturatingIncrement(l.id)));
    BelowSnoc(live, l, Bound(SaturatingIncrement(l.id)));
  }

  lemma {:induction false} FollowsBelow(live: seq<Live>, l: Live, nextId: nat)
    requires Follows(live, l) && l.id < nextId
    ensures Below(live, nextId)
    decreases |live|
  {
    if live != [] {
      FollowsBelow(Front(live), l, nextId);
    }
  }

  lemma IdsAppended(live: seq<Live>, l: Live)
    ensures Ids(live + [l]) == Ids(live) + [l.id]
  {
  }

  lemma BelowSnoc(live: seq<Live>, l: Live, nextId: nat)
    requires Below(live, nextId) && l.id < nextId
    ensures Below(live + [l], nextId)
  {
    assert Front(live + [l]) == live && Last(live + [l]) == l;
  }

  /** The ids collected by `retire_replaced_direct_authority` are those of the replaced entries. */
  lemma ReplacedIds(live: seq<Live>, fetchId: string, networkId: Option<string>, replaced: seq<nat>)
    requires Distinct(live)
    requires forall id :: id in replaced <==>
                          || (fetchId in FetchIndex(live) && id == FetchIndex(live)[fetchId])
                          || (networkId.Some? && networkId.value in NetworkIndex(live)
                              && id == NetworkIndex(live)[networkId.value])
    ensures forall l :: l in live ==> (Replaces(l.entry, fetchId, networkId) <==> l.id in replaced)
  {
    DirectLookups(live, fetchId);
    ByFetchFinds(live, fetchId);
    if networkId.Some? {
      DirectLookups(live, networkId.value);
      ByNetworkFinds(live, networkId.value);
    }
    DistinctMeans(live);
  }

  lemma Candidate(live: seq<Live>, key: LookupKey, l: Live)
    requires Distinct(live) && l in WithKey(live, key)
    ensures l in live && l.entry.lookupKey == Some(key) && l.entry.unresolved.Some?
    ensures l.id in ByEntryId(live) && ByEntryId(live)[l.id] == l.entry
  {
    WithKeyMembers(live, key);
    DistinctMeans(live);
    EntryIdGet(live, l);
  }

  lemma ScanFinds(live: seq<Live>, r: Request)
    requires Distinct(live)
    ensures Scan(live, r).Unique? ==>
              var l := Scan(live, r).found; l in live && l.id in ByEntryId(live) && ByEntryId(live)[l.id] == l.entry
  {
    if Scan(live, r).Unique? {
      var key := LookupKey(r.tab, r.url, r.verb);
      var relaxed := WithKey(live, key);
      WithHeadersMembers(relaxed, r.headers);
      var l := Scan(live, r).found;
      HeadMember(relaxed);
      HeadMember(WithHeaders(relaxed, r.headers));
      assert l in relaxed;
      Candidate(live, key, l);
    }
  }

  function Dropped(live: seq<Live>, ids: seq<nat>): seq<Live> {
    if live == [] then []
    else if live[0].id in ids then Dropped(live[1..], ids)
    else [live[0]] + Dropped(live[1..], ids)
  }

  lemma DroppedNone(live: seq<Live>)
    ensures Dropped(live, []) == live
  {
  }

  lemma {:induction false} DroppedSnoc(live: seq<Live>, ids: seq<nat>, id: nat)
    ensures Dropped(live, ids + [id]) == Removed(Dropped(live, ids), id)
  {
    if live != [] {
      DroppedSnoc(live[1..], ids, id);
      var rest := Dropped(live[1..], ids);
      assert ([live[0]] + rest)[1..] == rest;
    }
  }

  lemma DroppedNext(live: seq<Live>, ids: seq<nat>, i: nat)
    requires i < |ids|
    ensures Dropped(live, ids[..i + 1]) == Removed(Dropped(live, ids[..i]), ids[i])
  {
    assert ids[..i + 1] == ids[..i] + [ids[i]];
    DroppedSnoc(live, ids[..i], ids[i]);
  }

  lemma {:induction false} DroppedIsUnreplaced(
    live: seq<Live>, ids: seq<nat>, fetchId: string, networkId: Option<string>)
    requires forall l :: l in live ==> (Replaces(l.entry, fetchId, networkId) <==> l.id in ids)
    ensures Dropped(live, ids) == Unreplaced(live, fetchId, networkId)
  {
    if live != [] {
      assert live[0] in live;
      DroppedIsUnreplaced(live[1..], ids, fetchId, networkId);
    }
  }

  lemma {:induction false} WithHeadersSnoc(live: seq<Live>, l: Live, headers: Option<Headers>)
    ensures WithHeaders(live + [l], headers)
         == WithHeaders(live, headers) + if StrictHeaders(l.entry, headers) then [l] else []
  {
    if live == [] {
      assert live + [l] == [l] && [l][1..] == [];
    } else {
      assert (live + [l])[1..] == live[1..] + [l] && (live + [l])[0] == live[0];
      WithHeadersSnoc(live[1..], l, headers);
    }
  }
}
