/** What each index of the registry must hold, as a function of the live list, and how list changes show in it. */
module CorrelationIndexes {
  import opened Collections
  import opened CorrelationLedger

  type ById = map<nat, Timed>
  type Buckets = map<LookupKey, seq<nat>>

  // ---------- the indexes a list calls for, built from oldest to newest ----------

  function ByEntryId(live: seq<Live>): ById {
    if live == [] then map[] else ByEntryId(Front(live))[Last(live).id := Last(live).entry]
  }

  function FetchIndex(live: seq<Live>): map<string, nat> {
    if live == [] then map[] else FetchIndex(Front(live))[Last(live).entry.fetchId := Last(live).id]
  }

  function NetworkIndex(live: seq<Live>): map<string, nat> {
    if live == [] then map[] else AddNetwork(NetworkIndex(Front(live)), Last(live).entry.networkId, Last(live).id)
  }

  function BucketIndex(live: seq<Live>): Buckets {
    if live == [] then map[] else AddToBuckets(BucketIndex(Front(live)), Last(live).entry.lookupKey, Last(live).id)
  }

  function AddNetwork(byNetwork: map<string, nat>, networkId: Option<string>, id: nat): map<string, nat> {
    match networkId
    case None => byNetwork
    case Some(n) => byNetwork[n := id]
  }

  function AddToBuckets(buckets: Buckets, key: Option<LookupKey>, id: nat): Buckets {
    match key
    case None => buckets
    case Some(k) => buckets[k := (if k in buckets then buckets[k] else []) + [id]]
  }

  lemma Appended(live: seq<Live>, l: Live)
    ensures ByEntryId(live + [l]) == ByEntryId(live)[l.id := l.entry]
    ensures FetchIndex(live + [l]) == FetchIndex(live)[l.entry.fetchId := l.id]
    ensures NetworkIndex(live + [l]) == AddNetwork(NetworkIndex(live), l.entry.networkId, l.id)
    ensures BucketIndex(live + [l]) == AddToBuckets(BucketIndex(live), l.entry.lookupKey, l.id)
  {
    assert Front(live + [l]) == live;
  }

  // ---------- what they hold ----------

  lemma EntryIdKeys(live: seq<Live>)
    ensures forall id :: id in ByEntryId(live) <==> exists l :: l in live && l.id == id
  {
    if live != [] {
      EntryIdKeys(Front(live));
      assert live == Front(live) + [Last(live)];
    }
  }

  lemma FetchKeys(live: seq<Live>)
    ensures forall f :: f in FetchIndex(live) <==> exists l :: l in live && l.entry.fetchId == f
  {
    if live != [] {
      FetchKeys(Front(live));
      assert live == Front(live) + [Last(live)];
    }
  }

  lemma NetworkKeys(live: seq<Live>)
    ensures forall n :: n in NetworkIndex(live) <==> exists l :: l in live && l.entry.networkId == Some(n)
  {
    if live != [] {
      NetworkKeys(Front(live));
      assert live == Front(live) + [Last(live)];
    }
  }

  lemma {:induction false} WithKeyAppended(live: seq<Live>, l: Live, key: LookupKey)
    ensures WithKey(live + [l], key) == WithKey(live, key) + if l.entry.lookupKey == Some(key) then [l] else []
  {
    if live == [] {
      assert live + [l] == [l];
    } else {
      assert (live + [l])[1..] == live[1..] + [l];
      WithKeyAppended(live[1..], l, key);
    }
  }

  /** A bucket lists exactly the live entries with its key, oldest first; no bucket is empty. */
  lemma {:induction false} BucketIsWithKey(live: seq<Live>, key: LookupKey)
    ensures key in BucketIndex(live) <==> WithKey(live, key) != []
    ensures key in BucketIndex(live) ==> BucketIndex(live)[key] == Ids(WithKey(live, key))
    decreases |live|
  {
    if live != [] {
      BucketIsWithKey(Front(live), key);
      assert live == Front(live) + [Last(live)];
      WithKeyAppended(Front(live), Last(live), key);
    }
  }

  lemma {:induction false} EntryIdGet(live: seq<Live>, l: Live)
    requires Distinct(live) && l in live
    ensures l.id in ByEntryId(live) && ByEntryId(live)[l.id] == l.entry
    decreases |live|
  {
    Snoc(live);
    if l != Last(live) {
      EntryIdGet(Front(live), l);
      FollowsMeans(Front(live), Last(live));
    }
  }

  // ---------- removing an entry ----------

  /** `remove_from_unresolved_index`. */
  function DropFromBuckets(buckets: Buckets, key: LookupKey, id: nat): Buckets {
    if key !in buckets then buckets
    else if Without(buckets[key], id) == [] then buckets - {key}
    else buckets[key := Without(buckets[key], id)]
  }

  function DropFromBucketsIf(buckets: Buckets, key: Option<LookupKey>, id: nat): Buckets {
    match key
    case None => buckets
    case Some(k) => DropFromBuckets(buckets, k, id)
  }

  function DropNetwork(byNetwork: map<string, nat>, networkId: Option<string>): map<string, nat> {
    match networkId
    case None => byNetwork
    case Some(n) => byNetwork - {n}
  }

  lemma {:induction false} RemovedAppended(live: seq<Live>, l: Live, id: nat)
    ensures Removed(live + [l], id) == if l.id == id then Removed(live, id) else Removed(live, id) + [l]
  {
    if live == [] {
      assert live + [l] == [l];
    } else {
      assert (live + [l])[1..] == live[1..] + [l];
      RemovedAppended(live[1..], l, id);
    }
  }

  lemma RemovedAbsent(live: seq<Live>, id: nat)
    requires id !in Ids(live)
    ensures Removed(live, id) == live
  {
    if live != [] {
      assert Ids(live)[0] in Ids(live);
      assert Ids(live)[1..] == Ids(live[1..]);
      RemovedAbsent(live[1..], id);
    }
  }

  lemma {:induction false} IdsRemoved(live: seq<Live>, id: nat)
    ensures Ids(Removed(live, id)) == Without(Ids(live), id)
  {
    if live != [] {
      IdsRemoved(live[1..], id);
      assert Ids(live)[1..] == Ids(live[1..]);
      var rest := Removed(live[1..], id);
      assert Ids([live[0]] + rest) == [live[0].id] + Ids(rest);
    }
  }

  lemma {:induction false} FollowsRemoved(live: seq<Live>, id: nat, l: Live)
    requires Follows(live, l)
    ensures Follows(Removed(live, id), l)
  {
    FollowsMeans(live, l);
    RemovedMembers(live, id);
    FollowsMeans(Removed(live, id), l);
  }

  lemma {:induction false} DistinctRemoved(live: seq<Live>, id: nat)
    requires Distinct(live)
    ensures Distinct(Removed(live, id))
    decreases |live|
  {
    if live != [] {
      Snoc(live);
      RemovedAppended(Front(live), Last(live), id);
      DistinctRemoved(Front(live), id);
      FollowsRemoved(Front(live), id, Last(live));
    }
  }

  lemma BelowRemoved(live: seq<Live>, id: nat, nextId: nat)
    requires Below(live, nextId)
    ensures Below(Removed(live, id), nextId)
  {
    BelowMeans(live, nextId);
    RemovedMembers(live, id);
    BelowMeans(Removed(live, id), nextId);
  }

  /** The newest id is not among the older ones. */
  lemma NewestId(live: seq<Live>)
    requires Distinct(live) && live != []
    ensures Last(live).id !in Ids(Front(live))
    ensures live == Front(live) + [Last(live)]
    ensures forall l :: l in live && l != Last(live) ==> l in Front(live) && l.id < Last(live).id
  {
    Snoc(live);
    var front := Front(live);
    FollowsMeans(front, Last(live));
    forall i | 0 <= i < |front|
      ensures Ids(front)[i] != Last(live).id
    {
      assert front[i] in front;
    }
  }

  lemma {:induction false} EntryIdsRemoved(live: seq<Live>, id: nat)
    ensures ByEntryId(Removed(live, id)) == ByEntryId(live) - {id}
    decreases |live|
  {
    if live != [] {
      assert live == Front(live) + [Last(live)];
      RemovedAppended(Front(live), Last(live), id);
      EntryIdsRemoved(Front(live), id);
      Appended(Removed(Front(live), id), Last(live));
      MapUpdateMinus(ByEntryId(Front(live)), Last(live).id, Last(live).entry, id);
    }
  }

  lemma {:induction false} FetchRemoved(live: seq<Live>, l: Live)
    requires Distinct(live) && l in live
    ensures FetchIndex(Removed(live, l.id)) == FetchIndex(live) - {l.entry.fetchId}
    decreases |live|
  {
    NewestId(live);
    var front, last := Front(live), Last(live);
    RemovedAppended(front, last, l.id);
    DistinctMeans(live);
    MapUpdateMinus(FetchIndex(front), last.entry.fetchId, last.id, l.entry.fetchId);
    if l == last {
      RemovedAbsent(front, l.id);
      FetchAbsent(live);
    } else {
      FetchRemoved(front, l);
      Appended(Removed(front, l.id), last);
    }
  }

  lemma FetchAbsent(live: seq<Live>)
    requires Distinct(live) && live != []
    ensures Last(live).entry.fetchId !in FetchIndex(Front(live))
  {
    FollowsMeans(Front(live), Last(live));
    FetchKeys(Front(live));
  }

  lemma NetworkAbsent(live: seq<Live>)
    requires Distinct(live) && live != [] && Last(live).entry.networkId.Some?
    ensures Last(live).entry.networkId.value !in NetworkIndex(Front(live))
  {
    FollowsMeans(Front(live), Last(live));
    NetworkKeys(Front(live));
  }

  lemma NetworkDropCommutes(byNetwork: map<string, nat>, gone: Option<string>, other: Option<string>, id: nat)
    requires gone.Some? ==> gone != other
    ensures DropNetwork(AddNetwork(byNetwork, other, id), gone) == AddNetwork(DropNetwork(byNetwork, gone), other, id)
  {
  }

  lemma NetworkDropUndoesAdd(byNetwork: map<string, nat>, networkId: Option<string>, id: nat)
    requires networkId.Some? ==> networkId.value !in byNetwork
    ensures DropNetwork(AddNetwork(byNetwork, networkId, id), networkId) == byNetwork
  {
  }

  lemma {:induction false} NetworkRemoved(live: seq<Live>, l: Live)
    requires Distinct(live) && l in live
    ensures NetworkIndex(Removed(live, l.id)) == DropNetwork(NetworkIndex(live), l.entry.networkId)
    decreases |live|
  {
    NewestId(live);
    var front, last := Front(live), Last(live);
    RemovedAppended(front, last, l.id);
    DistinctMeans(live);
    if l == last {
      RemovedAbsent(front, l.id);
      if l.entry.networkId.Some? {
        NetworkAbsent(live);
      }
      NetworkDropUndoesAdd(NetworkIndex(front), l.entry.networkId, l.id);
    } else {
      NetworkRemoved(front, l);
      Appended(Removed(front, l.id), last);
      NetworkDropCommutes(NetworkIndex(front), l.entry.networkId, last.entry.networkId, last.id);
    }
  }

  lemma DropCommutes(buckets: Buckets, key: Option<LookupKey>, id: nat, other: Option<LookupKey>, otherId: nat)
    requires id != otherId
    requires key.Some? ==> key.value in buckets
    ensures AddToBuckets(DropFromBucketsIf(buckets, key, id), other, otherId)
         == DropFromBucketsIf(AddToBuckets(buckets, other, otherId), key, id)
  {
    if key.Some? {
      WithoutConcat(buckets[key.value], [otherId], id);
      WithoutAbsent([otherId], id);
    }
  }

  lemma DropUndoesAdd(buckets: Buckets, key: Option<LookupKey>, id: nat)
    requires key.Some? && key.value in buckets ==> buckets[key.value] != [] && id !in buckets[key.value]
    ensures DropFromBucketsIf(AddToBuckets(buckets, key, id), key, id) == buckets
  {
    if key.Some? && key.value in buckets {
      WithoutConcat(buckets[key.value], [id], id);
      WithoutAbsent(buckets[key.value], id);
      assert Without([id], id) == [] && buckets[key.value] + [] == buckets[key.value];
    }
  }

  lemma BucketAbsent(live: seq<Live>, key: Option<LookupKey>, id: nat)
    requires id !in Ids(live)
    ensures key.Some? && key.value in BucketIndex(live) ==>
              BucketIndex(live)[key.value] != [] && id !in BucketIndex(live)[key.value]
  {
    if key.Some? {
      BucketIsWithKey(live, key.value);
      WithKeyMembers(live, key.value);
      var found := WithKey(live, key.value);
      forall i | 0 <= i < |found|
        ensures Ids(found)[i] != id
      {
        assert found[i] in found;
        var j :| 0 <= j < |live| && live[j] == found[i];
        assert Ids(live)[j] in Ids(live);
      }
    }
  }

  lemma {:induction false} BucketsRemoved(live: seq<Live>, l: Live)
    requires Distinct(live) && l in live
    ensures BucketIndex(Removed(live, l.id)) == DropFromBucketsIf(BucketIndex(live), l.entry.lookupKey, l.id)
    decreases |live|
  {
    NewestId(live);
    var front, last := Front(live), Last(live);
    RemovedAppended(front, last, l.id);
    if l == last {
      RemovedAbsent(front, l.id);
      BucketAbsent(front, l.entry.lookupKey, l.id);
      DropUndoesAdd(BucketIndex(front), l.entry.lookupKey, l.id);
    } else {
      BucketsRemoved(front, l);
      Appended(Removed(front, l.id), last);
      HasBucket(front, l);
      DropCommutes(BucketIndex(front), l.entry.lookupKey, l.id, last.entry.lookupKey, last.id);
    }
  }

  lemma HasBucket(live: seq<Live>, l: Live)
    requires l in live
    ensures l.entry.lookupKey.Some? ==> l.entry.lookupKey.value in BucketIndex(live)
  {
    if l.entry.lookupKey.Some? {
      BucketIsWithKey(live, l.entry.lookupKey.value);
      WithKeyMembers(live, l.entry.lookupKey.value);
    }
  }

  // ---------- retiring an entry ----------

  lemma RetiredAppended(live: seq<Live>, l: Live, id: nat)
    ensures Retired(live + [l], id) == Retired(live, id) + [RetireIf(l, id)]
  {
  }

  lemma RetiredAbsent(live: seq<Live>, id: nat)
    requires id !in Ids(live)
    ensures Retired(live, id) == live
  {
    assert forall i :: 0 <= i < |live| ==> Ids(live)[i] in Ids(live);
  }

  lemma {:induction false} EntryIdsRetired(live: seq<Live>, l: Live)
    requires Distinct(live) && l in live
    ensures ByEntryId(Retired(live, l.id)) == ByEntryId(live)[l.id := RetiredEntry(l.entry)]
    decreases |live|
  {
    NewestId(live);
    var front, last := Front(live), Last(live);
    RetiredAppended(front, last, l.id);
    Appended(Retired(front, l.id), RetireIf(last, l.id));
    MapUpdates(ByEntryId(front), last.id, last.entry, l.id, RetiredEntry(l.entry));
    if l == last {
      RetiredAbsent(front, l.id);
    } else {
      EntryIdsRetired(front, l);
    }
  }

  lemma {:induction false} DirectRetired(live: seq<Live>, id: nat)
    ensures FetchIndex(Retired(live, id)) == FetchIndex(live)
    ensures NetworkIndex(Retired(live, id)) == NetworkIndex(live)
    decreases |live|
  {
    if live != [] {
      var front, last := Front(live), Last(live);
      assert live == front + [last];
      RetiredAppended(front, last, id);
      Appended(Retired(front, id), RetireIf(last, id));
      DirectRetired(front, id);
    }
  }

  lemma {:induction false} BucketsRetired(live: seq<Live>, l: Live)
    requires Distinct(live) && l in live
    ensures BucketIndex(Retired(live, l.id)) == DropFromBucketsIf(BucketIndex(live), l.entry.lookupKey, l.id)
    decreases |live|
  {
    NewestId(live);
    var front, last := Front(live), Last(live);
    RetiredAppended(front, last, l.id);
    Appended(Retired(front, l.id), RetireIf(last, l.id));
    if l == last {
      RetiredAbsent(front, l.id);
      BucketAbsent(front, l.entry.lookupKey, l.id);
      DropUndoesAdd(BucketIndex(front), l.entry.lookupKey, l.id);
    } else {
      BucketsRetired(front, l);
      HasBucket(front, l);
      DropCommutes(BucketIndex(front), l.entry.lookupKey, l.id, last.entry.lookupKey, last.id);
    }
  }

  lemma IdsRetired(live: seq<Live>, id: nat)
    ensures Ids(Retired(live, id)) == Ids(live)
  {
  }

  lemma {:induction false} FollowsRetired(live: seq<Live>, id: nat, l: Live)
    requires Follows(live, l)
    ensures Follows(Retired(live, id), l) && Follows(Retired(live, id), RetireIf(l, id))
    decreases |live|
  {
    if live != [] {
      Snoc(live);
      RetiredAppended(Front(live), Last(live), id);
      FollowsRetired(Front(live), id, l);
      assert Front(Retired(live, id)) == Retired(Front(live), id);
    }
  }

  lemma {:induction false} DistinctRetired(live: seq<Live>, id: nat)
    requires Distinct(live)
    ensures Distinct(Retired(live, id))
    decreases |live|
  {
    if live != [] {
      Snoc(live);
      RetiredAppended(Front(live), Last(live), id);
      DistinctRetired(Front(live), id);
      FollowsRetired(Front(live), id, Last(live));
    }
  }

  lemma {:induction false} BelowRetired(live: seq<Live>, id: nat, nextId: nat)
    requires Below(live, nextId)
    ensures Below(Retired(live, id), nextId)
    decreases |live|
  {
    if live != [] {
      BelowRetired(Front(live), id, nextId);
      assert Front(Retired(live, id)) == Retired(Front(live), id);
    }
  }

  // ---------- lookups ----------

  lemma {:induction false} FetchGet(live: seq<Live>, f: string)
    ensures f in FetchIndex(live) ==> exists l :: l in live && l.entry.fetchId == f && l.id == FetchIndex(live)[f]
    decreases |live|
  {
    if live != [] {
      FetchGet(Front(live), f);
      assert live == Front(live) + [Last(live)];
    }
  }

  lemma {:induction false} NetworkGet(live: seq<Live>, n: string)
    ensures n in NetworkIndex(live) ==>
              exists l :: l in live && l.entry.networkId == Some(n) && l.id == NetworkIndex(live)[n]
    decreases |live|
  {
    if live != [] {
      NetworkGet(Front(live), n);
      assert live == Front(live) + [Last(live)];
    }
  }

  /** The direct indexes answer as a search of the list does. */
  lemma DirectLookups(live: seq<Live>, id: string)
    requires Distinct(live)
    ensures id in FetchIndex(live) <==> ByFetch(live, id).Some?
    ensures id in NetworkIndex(live) <==> ByNetwork(live, id).Some?
    ensures id in FetchIndex(live) ==>
              FetchIndex(live)[id] == ByFetch(live, id).value.id && ByFetch(live, id).value in live
    ensures id in NetworkIndex(live) ==>
              NetworkIndex(live)[id] == ByNetwork(live, id).value.id && ByNetwork(live, id).value in live
  {
    DistinctMeans(live);
    FetchKeys(live);
    NetworkKeys(live);
    FetchGet(live, id);
    NetworkGet(live, id);
    ByFetchFinds(live, id);
    ByNetworkFinds(live, id);
  }

  /** The agreement of the five structures, spelled out entry by entry. */
  lemma IndexesMeanLive(live: seq<Live>, l: Live, key: LookupKey)
    requires Distinct(live)
    ensures l in live <==> l.id in ByEntryId(live) && ByEntryId(live)[l.id] == l.entry
    ensures l in live ==> l.entry.fetchId in FetchIndex(live) && FetchIndex(live)[l.entry.fetchId] == l.id
    ensures l in live && l.entry.networkId.Some? ==>
              l.entry.networkId.value in NetworkIndex(live) && NetworkIndex(live)[l.entry.networkId.value] == l.id
    ensures forall f :: f in FetchIndex(live) ==>
              FetchIndex(live)[f] in ByEntryId(live) && ByEntryId(live)[FetchIndex(live)[f]].fetchId == f
    ensures forall n :: n in NetworkIndex(live) ==>
              NetworkIndex(live)[n] in ByEntryId(live) && ByEntryId(live)[NetworkIndex(live)[n]].networkId == Some(n)
    ensures key in BucketIndex(live) ==> BucketIndex(live)[key] != [] && NoDuplicates(BucketIndex(live)[key])
    ensures key in BucketIndex(live) ==> forall id :: id in BucketIndex(live)[key] ==>
              id in ByEntryId(live) && ByEntryId(live)[id].lookupKey == Some(key)
    ensures l in live ==> (l.entry.lookupKey == Some(key) <==>
              key in BucketIndex(live) && l.id in BucketIndex(live)[key])
  {
    DistinctMeans(live);
    EntryIdKeys(live);
    if l.id in ByEntryId(live) {
      var k :| k in live && k.id == l.id;
      EntryIdGet(live, k);
    }
    if l in live {
      FetchKeys(live);
      NetworkKeys(live);
      FetchGet(live, l.entry.fetchId);
      if l.entry.networkId.Some? {
        NetworkGet(live, l.entry.networkId.value);
      }
      BucketHolds(live, l, key);
    }
    forall f | f in FetchIndex(live)
      ensures FetchIndex(live)[f] in ByEntryId(live) && ByEntryId(live)[FetchIndex(live)[f]].fetchId == f
    {
      FetchLeadsHome(live, f);
    }
    forall n | n in NetworkIndex(live)
      ensures NetworkIndex(live)[n] in ByEntryId(live) && ByEntryId(live)[NetworkIndex(live)[n]].networkId == Some(n)
    {
      NetworkLeadsHome(live, n);
    }
    if key in BucketIndex(live) {
      BucketLeadsHome(live, key);
    }
  }

  /** The entry a direct index or a bucket leads to carries the id or the key it was found under. */
  lemma FetchLeadsHome(live: seq<Live>, f: string)
    requires Distinct(live) && f in FetchIndex(live)
    ensures FetchIndex(live)[f] in ByEntryId(live) && ByEntryId(live)[FetchIndex(live)[f]].fetchId == f
  {
    FetchGet(live, f);
    var l :| l in live && l.entry.fetchId == f && l.id == FetchIndex(live)[f];
    EntryIdGet(live, l);
  }

  lemma NetworkLeadsHome(live: seq<Live>, n: string)
    requires Distinct(live) && n in NetworkIndex(live)
    ensures NetworkIndex(live)[n] in ByEntryId(live) && ByEntryId(live)[NetworkIndex(live)[n]].networkId == Some(n)
  {
    NetworkGet(live, n);
    var l :| l in live && l.entry.networkId == Some(n) && l.id == NetworkIndex(live)[n];
    EntryIdGet(live, l);
  }

  lemma BucketLeadsHome(live: seq<Live>, key: LookupKey)
    requires Distinct(live) && key in BucketIndex(live)
    ensures BucketIndex(live)[key] != [] && NoDuplicates(BucketIndex(live)[key])
    ensures forall id :: id in BucketIndex(live)[key] ==>
              id in ByEntryId(live) && ByEntryId(live)[id].lookupKey == Some(key)
  {
    var found := WithKey(live, key);
    BucketIsWithKey(live, key);
    WithKeyMembers(live, key);
    DistinctIncreasing(live);
    WithKeyIncreasing(live, key);
    forall id | id in Ids(found)
      ensures id in ByEntryId(live) && ByEntryId(live)[id].lookupKey == Some(key)
    {
      var i :| 0 <= i < |found| && found[i].id == id;
      assert found[i] in found;
      EntryIdGet(live, found[i]);
    }
  }

  lemma BucketHolds(live: seq<Live>, l: Live, key: LookupKey)
    requires Distinct(live) && l in live
    ensures l.entry.lookupKey == Some(key) <==> key in BucketIndex(live) && l.id in BucketIndex(live)[key]
  {
    BucketIsWithKey(live, key);
    WithKeyMembers(live, key);
    DistinctMeans(live);
    var found := WithKey(live, key);
    if l in found {
      var i :| 0 <= i < |found| && found[i] == l;
      assert Ids(found)[i] == l.id;
    }
    if l.id in Ids(found) {
      var i :| 0 <= i < |found| && Ids(found)[i] == l.id;
      assert found[i] in found;
    }
  }

  lemma {:induction false} WithKeyIncreasing(live: seq<Live>, key: LookupKey)
    requires StrictlyIncreasing(Ids(live))
    ensures StrictlyIncreasing(Ids(WithKey(live, key)))
  {
    if live != [] {
      assert Ids(live)[1..] == Ids(live[1..]);
      WithKeyIncreasing(live[1..], key);
      WithKeyMembers(live[1..], key);
      ConsIncreasing(live, WithKey(live[1..], key));
    }
  }

  lemma ConsIncreasing(live: seq<Live>, rest: seq<Live>)
    requires live != [] && StrictlyIncreasing(Ids(live)) && StrictlyIncreasing(Ids(rest))
    requires forall l :: l in rest ==> l in live[1..]
    ensures StrictlyIncreasing(Ids([live[0]] + rest))
  {
    forall i | 0 <= i < |rest|
      ensures live[0].id < Ids(rest)[i]
    {
      assert rest[i] in rest;
      HeadIsLess(live, rest[i]);
    }
    ConsIds(live[0].id, Ids(rest));
    assert Ids([live[0]] + rest) == [live[0].id] + Ids(rest);
  }

  lemma HeadIsLess(live: seq<Live>, l: Live)
    requires live != [] && StrictlyIncreasing(Ids(live)) && l in live[1..]
    ensures live[0].id < l.id
  {
    var j :| 0 <= j < |live| - 1 && live[1..][j] == l;
    assert live[j + 1] == l;
    assert Ids(live)[0] < Ids(live)[j + 1];
  }

  lemma ConsIds(id: nat, ids: seq<nat>)
    requires StrictlyIncreasing(ids) && forall i :: 0 <= i < |ids| ==> id < ids[i]
    ensures StrictlyIncreasing([id] + ids)
  {
    var all := [id] + ids;
    assert forall j :: 0 < j < |all| ==> all[j] == ids[j - 1];
  }

  lemma EntryOf(live: seq<Live>, id: nat) returns (l: Live)
    requires Distinct(live) && id in ByEntryId(live)
    ensures l in live && l.id == id && ByEntryId(live)[id] == l.entry
  {
    EntryIdKeys(live);
    l :| l in live && l.id == id;
    EntryIdGet(live, l);
  }

  lemma NoEntry(live: seq<Live>, id: nat)
    requires id !in ByEntryId(live)
    ensures id !in Ids(live) && Removed(live, id) == live && Retired(live, id) == live
  {
    EntryIdKeys(live);
    forall i | 0 <= i < |live|
      ensures Ids(live)[i] != id
    {
      assert live[i] in live;
    }
    RemovedAbsent(live, id);
    RetiredAbsent(live, id);
  }

  /** Evicting the oldest entry drops the head of the list. */
  lemma Popped(live: seq<Live>)
    requires Distinct(live) && live != []
    ensures Removed(live, live[0].id) == live[1..]
    ensures StrictlyIncreasing(Ids(live))
  {
    DistinctIncreasing(live);
    assert Ids(live[1..]) == Ids(live)[1..];
    RemovedAbsent(live[1..], live[0].id);
  }

  lemma PoppedOrder(ids: seq<nat>)
    requires StrictlyIncreasing(ids) && ids != []
    ensures Without(ids[1..], ids[0]) == ids[1..] == Without(ids, ids[0])
  {
    WithoutAbsent(ids[1..], ids[0]);
  }
}
