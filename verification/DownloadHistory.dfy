/** What the download projection of downloads.rs shows, told from the events alone. */
module DownloadHistory {
  import opened Collections
  import opened Text
  import opened DownloadModel

  // ---------- the events about one download ----------

  /** What an event about a download may say. */
  datatype Topic = Anything | Beginning | Size | Location | Ending

  /** The event says that about the download, in the generation. */
  predicate On(ev: Event, topic: Topic, generation: nat, guid: string) {
    && (ev.Started? || ev.Progress?) && ev.generation == generation && ev.guid == guid
    && match topic
       case Anything => true
       case Beginning => ev.Started?
       case Size => ev.Progress? && ev.total.Some?
       case Location => ev.Progress? && ev.path.Some?
       case Ending => ev.Progress? && (ev.state == Completed || ev.state == Failed || ev.state == Canceled)
  }

  ghost predicate LastOn(evs: seq<Event>, topic: Topic, generation: nat, guid: string, i: int) {
    && 0 <= i < |evs| && On(evs[i], topic, generation, guid)
    && forall j :: i < j < |evs| ==> !On(evs[j], topic, generation, guid)
  }

  ghost predicate NoneOn(evs: seq<Event>, topic: Topic, generation: nat, guid: string) {
    forall j :: 0 <= j < |evs| ==> !On(evs[j], topic, generation, guid)
  }

  /** The state is that of the last event. */
  ghost predicate StateTold(evs: seq<Event>, generation: nat, guid: string, e: Entry) {
    forall i :: LastOn(evs, Anything, generation, guid, i) ==>
      e.state == match evs[i] case Started(_, _, _, _, _, _) => DownloadStarted case Progress(_, _, s, _, _, _, _) => s
                              case _ => e.state
  }

  /** The received bytes are the largest number any event reported, or 0. */
  ghost predicate BytesTold(evs: seq<Event>, generation: nat, guid: string, e: Entry) {
    && (forall i :: 0 <= i < |evs| && On(evs[i], Anything, generation, guid) && evs[i].Progress? ==>
          evs[i].received <= e.receivedBytes)
    && (e.receivedBytes == 0 ||
        exists i :: 0 <= i < |evs| && On(evs[i], Anything, generation, guid) && evs[i].Progress?
          && evs[i].received == e.receivedBytes)
  }

  /** The total and the final path are the last ones given. */
  ghost predicate FileTold(evs: seq<Event>, generation: nat, guid: string, e: Entry) {
    && (NoneOn(evs, Size, generation, guid) ==> e.totalBytes == None)
    && (forall i :: LastOn(evs, Size, generation, guid, i) ==> e.totalBytes == evs[i].total)
    && (NoneOn(evs, Location, generation, guid) ==> e.finalPath == None)
    && (forall i :: LastOn(evs, Location, generation, guid, i) ==> e.finalPath == evs[i].path)
  }

  /** The URL, the file name and the frame are those of the last started event. */
  ghost predicate StartTold(evs: seq<Event>, generation: nat, guid: string, e: Entry) {
    && (NoneOn(evs, Beginning, generation, guid) ==>
          e.url == None && e.suggestedFilename == None && e.frameId == None)
    && (forall i :: LastOn(evs, Beginning, generation, guid, i) ==>
          e.url == Some(evs[i].url) && e.suggestedFilename == Some(evs[i].filename) && e.frameId == evs[i].frameId)
  }

  /** The completion time is that of the last terminal event. */
  ghost predicate EndTold(evs: seq<Event>, generation: nat, guid: string, e: Entry) {
    && (NoneOn(evs, Ending, generation, guid) ==> e.completedAt == None)
    && (forall i :: LastOn(evs, Ending, generation, guid, i) ==> e.completedAt == Some(evs[i].now))
  }

  /** A started event with a time. */
  predicate Stamps(ev: Event, generation: nat, guid: string) {
    On(ev, Beginning, generation, guid) && ev.now != ""
  }

  ghost predicate FirstStamp(evs: seq<Event>, generation: nat, guid: string, i: int) {
    && 0 <= i < |evs| && Stamps(evs[i], generation, guid)
    && forall j :: 0 <= j < i ==> !Stamps(evs[j], generation, guid)
  }

  /** The start time is that of the creating event, or, if that has none, of the first started event that has one. */
  ghost predicate StampTold(evs: seq<Event>, generation: nat, guid: string, created: string, e: Entry) {
    if created != "" then e.startedAt == created
    else
      && (e.startedAt == "" <==> forall j :: 0 <= j < |evs| ==> !Stamps(evs[j], generation, guid))
      && forall i :: FirstStamp(evs, generation, guid, i) ==> e.startedAt == evs[i].now
  }

  ghost predicate Told(evs: seq<Event>, generation: nat, guid: string, e: Entry)
    requires evs != [] && Dated(evs[0]) && !evs[0].SetRuntime?
  {
    && StateTold(evs, generation, guid, e) && BytesTold(evs, generation, guid, e)
    && FileTold(evs, generation, guid, e) && StartTold(evs, generation, guid, e)
    && EndTold(evs, generation, guid, e) && StampTold(evs, generation, guid, evs[0].now, e)
    && e.guid == guid && e.mimeHint == None && e.triggerCommandId == None
  }

  // ---------- one more event ----------

  lemma LastOnSnoc(evs: seq<Event>, ev: Event, topic: Topic, generation: nat, guid: string)
    ensures NoneOn(evs + [ev], topic, generation, guid) <==>
            NoneOn(evs, topic, generation, guid) && !On(ev, topic, generation, guid)
    ensures forall i :: LastOn(evs + [ev], topic, generation, guid, i) <==>
              if On(ev, topic, generation, guid) then i == |evs| else LastOn(evs, topic, generation, guid, i)
  {
    var all := evs + [ev];
    assert forall j :: 0 <= j < |evs| ==> all[j] == evs[j];
    assert all[|evs|] == ev;
    if NoneOn(all, topic, generation, guid) {
      assert forall j :: 0 <= j < |evs| ==> !On(all[j], topic, generation, guid);
    }
    forall i | LastOn(evs, topic, generation, guid, i) && !On(ev, topic, generation, guid)
      ensures LastOn(all, topic, generation, guid, i)
    {
    }
    forall i | LastOn(all, topic, generation, guid, i)
      ensures if On(ev, topic, generation, guid) then i == |evs| else LastOn(evs, topic, generation, guid, i)
    {
    }
  }

  /** The entry after the event. */
  function Next(e: Entry, ev: Event, generation: nat, guid: string): Entry {
    if !On(ev, Anything, generation, guid) then e
    else if ev.Started? then StartedEntry(e, ev.url, ev.filename, ev.frameId, ev.now)
    else ProgressEntry(e, ev.state, ev.received, ev.total, ev.path, ev.now)
  }

  lemma StateNext(evs: seq<Event>, ev: Event, generation: nat, guid: string, e: Entry)
    requires StateTold(evs, generation, guid, e)
    ensures StateTold(evs + [ev], generation, guid, Next(e, ev, generation, guid))
  {
    LastOnSnoc(evs, ev, Anything, generation, guid);
  }

  lemma BytesNext(evs: seq<Event>, ev: Event, generation: nat, guid: string, e: Entry)
    requires BytesTold(evs, generation, guid, e)
    ensures BytesTold(evs + [ev], generation, guid, Next(e, ev, generation, guid))
  {
    var all, e' := evs + [ev], Next(e, ev, generation, guid);
    assert all[|evs|] == ev;
    if e'.receivedBytes == e.receivedBytes && e.receivedBytes != 0 {
      var i :| 0 <= i < |evs| && On(evs[i], Anything, generation, guid) && evs[i].Progress?
        && evs[i].received == e.receivedBytes;
      assert all[i] == evs[i];
    }
  }

  lemma FileNext(evs: seq<Event>, ev: Event, generation: nat, guid: string, e: Entry)
    requires FileTold(evs, generation, guid, e)
    ensures FileTold(evs + [ev], generation, guid, Next(e, ev, generation, guid))
  {
    LastOnSnoc(evs, ev, Size, generation, guid);
    LastOnSnoc(evs, ev, Location, generation, guid);
  }

  lemma StartNext(evs: seq<Event>, ev: Event, generation: nat, guid: string, e: Entry)
    requires StartTold(evs, generation, guid, e)
    ensures StartTold(evs + [ev], generation, guid, Next(e, ev, generation, guid))
  {
    LastOnSnoc(evs, ev, Beginning, generation, guid);
  }

  lemma EndNext(evs: seq<Event>, ev: Event, generation: nat, guid: string, e: Entry)
    requires EndTold(evs, generation, guid, e)
    ensures EndTold(evs + [ev], generation, guid, Next(e, ev, generation, guid))
  {
    LastOnSnoc(evs, ev, Ending, generation, guid);
  }

  lemma StampSnoc(evs: seq<Event>, ev: Event, generation: nat, guid: string)
    ensures (forall j :: 0 <= j < |evs + [ev]| ==> !Stamps((evs + [ev])[j], generation, guid)) <==>
            (forall j :: 0 <= j < |evs| ==> !Stamps(evs[j], generation, guid)) && !Stamps(ev, generation, guid)
    ensures forall i ::
              FirstStamp(evs + [ev], generation, guid, i) && i < |evs| ==> FirstStamp(evs, generation, guid, i)
    ensures FirstStamp(evs + [ev], generation, guid, |evs|) ==>
              forall j :: 0 <= j < |evs| ==> !Stamps(evs[j], generation, guid)
  {
    var all := evs + [ev];
    assert forall j :: 0 <= j < |evs| ==> all[j] == evs[j];
    assert all[|evs|] == ev;
  }

  lemma StampNext(evs: seq<Event>, ev: Event, generation: nat, guid: string, created: string, e: Entry)
    requires StampTold(evs, generation, guid, created, e)
    ensures StampTold(evs + [ev], generation, guid, created, Next(e, ev, generation, guid))
  {
    StampSnoc(evs, ev, generation, guid);
  }

  lemma ToldNext(evs: seq<Event>, ev: Event, generation: nat, guid: string, e: Entry)
    requires evs != [] && Dated(evs[0]) && !evs[0].SetRuntime? && Told(evs, generation, guid, e)
    ensures Told(evs + [ev], generation, guid, Next(e, ev, generation, guid))
  {
    StateNext(evs, ev, generation, guid, e);
    BytesNext(evs, ev, generation, guid, e);
    FileNext(evs, ev, generation, guid, e);
    StartNext(evs, ev, generation, guid, e);
    EndNext(evs, ev, generation, guid, e);
    StampNext(evs, ev, generation, guid, evs[0].now, e);
  }

  /** Nothing is told before the event that creates an entry. */
  lemma NothingTold(generation: nat, guid: string, now: string)
    ensures var e := NewEntry(guid, now);
            && StateTold([], generation, guid, e) && BytesTold([], generation, guid, e)
            && FileTold([], generation, guid, e) && StartTold([], generation, guid, e)
            && EndTold([], generation, guid, e) && StampTold([], generation, guid, now, e)
  {
  }

  lemma ToldFirst(ev: Event, guid: string)
    requires Dated(ev) && !ev.SetRuntime?
    ensures Told([ev], ev.generation, guid, Next(NewEntry(guid, ev.now), ev, ev.generation, guid))
  {
    var e, none: seq<Event> := NewEntry(guid, ev.now), [];
    NothingTold(ev.generation, guid, ev.now);
    assert none + [ev] == [ev];
    StateNext(none, ev, ev.generation, guid, e);
    BytesNext(none, ev, ev.generation, guid, e);
    FileNext(none, ev, ev.generation, guid, e);
    StartNext(none, ev, ev.generation, guid, e);
    EndNext(none, ev, ev.generation, guid, e);
    StampNext(none, ev, ev.generation, guid, ev.now, e);
  }

  // ---------- runs ----------

  /** The event creates the entry: the guid is new, or the generation is. */
  ghost predicate Creates(s: State, ev: Event, guid: string) {
    && (ev.Started? || ev.Progress?) && ev.guid == guid
    && (ev.generation > s.generation || (ev.generation == s.generation && guid !in s.entries))
  }

  /** An event about a download stores that download's updated entry. */
  lemma HeardIsStored(s: State, ev: Event)
    requires (ev.Started? || ev.Progress?) && ev.generation >= s.generation
    ensures var p := Prepared(s, ev.generation);
            Apply(s, ev) == Stored(p, Next(EntryFor(p.entries, ev.guid, ev.now), ev, ev.generation, ev.guid))
  {
  }

  lemma Created(s: State, ev: Event, guid: string)
    requires Valid(s) && Creates(s, ev, guid)
    ensures guid in Apply(s, ev).entries
    ensures Apply(s, ev).entries[guid] == Next(NewEntry(guid, ev.now), ev, ev.generation, guid)
  {
    HeardIsStored(s, ev);
    StoredQueues(Prepared(s, ev.generation), Next(NewEntry(guid, ev.now), ev, ev.generation, guid));
  }

  lemma Updated(s: State, ev: Event, guid: string)
    requires Valid(s) && guid in s.entries
    requires Apply(s, ev).generation == s.generation && guid in Apply(s, ev).entries
    ensures Apply(s, ev).entries[guid] == Next(s.entries[guid], ev, s.generation, guid)
  {
    if (ev.Started? || ev.Progress?) && ev.generation == s.generation {
      HeardIsStored(s, ev);
      StoredQueues(s, Next(EntryFor(s.entries, ev.guid, ev.now), ev, s.generation, ev.guid));
    }
  }

  /** The guid is retained, in the generation, after each of the events. */
  ghost predicate KeptThrough(s: State, evs: seq<Event>, generation: nat, guid: string) {
    forall n :: 0 < n <= |evs| ==> Run(s, evs[..n]).generation == generation && guid in Run(s, evs[..n]).entries
  }

  /**
   * While a download is retained in one generation, its entry is what the events since its creation say: the state of
   * the last one, the largest byte count, the last total and path, the last start and the last end.
   */
  lemma {:induction false} EntryIsToldBy(s: State, evs: seq<Event>, guid: string, n: nat)
    requires Valid(s) && 0 < n <= |evs| && Creates(s, evs[0], guid) && KeptThrough(s, evs, evs[0].generation, guid)
    ensures guid in Run(s, evs[..n]).entries
    ensures Told(evs[..n], evs[0].generation, guid, Run(s, evs[..n]).entries[guid])
    decreases n
  {
    var m := n - 1;
    assert evs[..n] == evs[..m] + [evs[m]];
    assert evs[..n][..m] == evs[..m];
    if m == 0 {
      Created(s, evs[0], guid);
      ToldFirst(evs[0], guid);
      assert evs[..n] == [evs[0]] && evs[..m] == [];
    } else {
      EntryIsToldBy(s, evs, guid, m);
      var before := Run(s, evs[..m]);
      RunValid(s, evs[..m]);
      Updated(before, evs[m], guid);
      ToldNext(evs[..m], evs[m], evs[0].generation, guid, before.entries[guid]);
    }
  }

  // ---------- how long a download is retained ----------

  /** The guid stands in the queue, and only others of the set stand behind it. */
  ghost predicate Placed(order: seq<string>, guid: string, others: set<string>) {
    exists k :: 0 <= k < |order| && order[k] == guid && forall j :: k < j < |order| ==> order[j] in others
  }

  lemma PlacedSplit(order: seq<string>, guid: string, others: set<string>)
    returns (before: seq<string>, behind: seq<string>)
    requires Placed(order, guid, others)
    ensures order == before + ([guid] + behind) && forall x :: x in behind ==> x in others
  {
    var k :| 0 <= k < |order| && order[k] == guid && forall j :: k < j < |order| ==> order[j] in others;
    before, behind := order[..k], order[k + 1..];
  }

  lemma PlacedJoin(before: seq<string>, guid: string, behind: seq<string>, others: set<string>)
    requires forall x :: x in behind ==> x in others
    ensures Placed(before + ([guid] + behind), guid, others)
  {
    var order, k := before + ([guid] + behind), |before|;
    assert order[k] == guid;
    forall j | k < j < |order|
      ensures order[j] in others
    {
      assert order[j] == behind[j - k - 1];
    }
  }

  lemma PlacedWithout(order: seq<string>, guid: string, others: set<string>, gone: string)
    requires Placed(order, guid, others) && gone != guid
    ensures Placed(Without(order, gone), guid, others)
  {
    var before, behind := PlacedSplit(order, guid, others);
    WithoutConcat(before, [guid] + behind, gone);
    assert ([guid] + behind)[1..] == behind;
    WithoutMembers(behind, gone);
    PlacedJoin(Without(before, gone), guid, Without(behind, gone), others);
  }

  lemma PlacedTouched(order: seq<string>, guid: string, others: set<string>, other: string)
    requires Placed(order, guid, others) && other != guid
    ensures Placed(Touched(order, other), guid, others + {other})
  {
    PlacedWithout(order, guid, others, other);
    var rest := Without(order, other);
    var k :| 0 <= k < |rest| && rest[k] == guid && forall j :: k < j < |rest| ==> rest[j] in others;
    assert Touched(order, other)[k] == guid;
  }

  lemma {:induction false} DistinctFit(order: seq<string>, others: set<string>)
    requires NoDuplicates(order) && forall x :: x in order ==> x in others
    ensures |order| <= |others|
  {
    if order != [] {
      var n := |order| - 1;
      forall x | x in order[..n]
        ensures x in others - {order[n]}
      {
        var i :| 0 <= i < n && order[i] == x;
        assert order[i] in order;
      }
      assert order[n] in order;
      DistinctFit(order[..n], others - {order[n]});
    }
  }

  lemma PlacedNewest(order: seq<string>, guid: string, others: set<string>, limit: nat)
    requires NoDuplicates(order) && Placed(order, guid, others) && |others| < limit
    ensures Placed(Newest(order, limit), guid, others)
  {
    var before, behind := PlacedSplit(order, guid, others);
    assert behind == order[|before| + 1..];
    DistinctFit(behind, others);
    if |order| > limit {
      var cut := |order| - limit;
      assert order[cut..] == before[cut..] + ([guid] + behind);
      PlacedJoin(before[cut..], guid, behind, others);
    }
  }

  /** The download is in the queue of its state, with only others of the set behind it. */
  ghost predicate InPlace(s: State, guid: string, e: Entry, others: set<string>) {
    && guid in s.entries && s.entries[guid] == e
    && if Terminal(e.state) then Placed(s.completed, guid, others) else Placed(s.active, guid, others)
  }

  function Limit(e: Entry): nat {
    if e.state == Completed || e.state == Failed || e.state == Canceled then 64 else 32
  }

  lemma StoredInPlace(s: State, other: Entry, guid: string, e: Entry, others: set<string>)
    requires Valid(s) && InPlace(s, guid, e, others) && other.guid != guid && |others + {other.guid}| < Limit(e)
    ensures InPlace(Stored(s, other), guid, e, others + {other.guid})
  {
    StoredQueues(s, other);
    var order := if Terminal(e.state) then s.completed else s.active;
    PlacedWithout(order, guid, others, other.guid);
    PlacedTouched(order, guid, others, other.guid);
    TouchedOf(order, other.guid);
    PlacedNewest(Touched(order, other.guid), guid, others + {other.guid}, Limit(e));
  }

  /** The other downloads that the events of the generation are about. */
  function Others(evs: seq<Event>, generation: nat): set<string> {
    set i | 0 <= i < |evs| && (evs[i].Started? || evs[i].Progress?) && evs[i].generation == generation :: evs[i].guid
  }

  /** An event about the download, of the current generation or a newer one. */
  predicate Heard(s: State, ev: Event, guid: string) {
    (ev.Started? || ev.Progress?) && ev.guid == guid && ev.generation >= s.generation
  }

  lemma StoredLast(s: State, e: Entry)
    requires Valid(s)
    ensures InPlace(Stored(s, e), e.guid, e, {})
  {
    StoredQueues(s, e);
    TouchedOf(s.active, e.guid);
    TouchedOf(s.completed, e.guid);
    var order := if Terminal(e.state) then Stored(s, e).completed else Stored(s, e).active;
    assert order[|order| - 1] == e.guid;
  }

  lemma JustHeard(s: State, ev: Event, guid: string)
    requires Valid(s) && Heard(s, ev, guid)
    ensures guid in Apply(s, ev).entries && InPlace(Apply(s, ev), guid, Apply(s, ev).entries[guid], {})
    ensures Apply(s, ev).generation == ev.generation
    ensures Apply(s, ev).projection.lastDownload == Some(Apply(s, ev).entries[guid])
  {
    var p := Prepared(s, ev.generation);
    var e := Next(EntryFor(p.entries, guid, ev.now), ev, ev.generation, guid);
    HeardIsStored(s, ev);
    FreshIsValid(s, ev.generation);
    assert e.guid == guid;
    StoredLast(p, e);
  }

  lemma FreshIsValid(s: State, generation: nat)
    requires Valid(s)
    ensures Valid(Prepared(s, generation))
  {
  }

  lemma OthersOne(ev: Event, generation: nat)
    ensures Others([ev], generation)
         == if (ev.Started? || ev.Progress?) && ev.generation == generation then {ev.guid} else {}
  {
    assert [ev][0] == ev;
  }

  lemma HeardInPlace(s: State, ev: Event, guid: string, e: Entry, others: set<string>)
    requires Valid(s) && InPlace(s, guid, e, others) && (ev.Started? || ev.Progress?) && ev.guid != guid
    requires ev.generation == s.generation && |others + {ev.guid}| < Limit(e)
    ensures InPlace(Apply(s, ev), guid, e, others + {ev.guid}) && Apply(s, ev).generation == s.generation
  {
    HeardIsStored(s, ev);
    StoredInPlace(s, Next(EntryFor(s.entries, ev.guid, ev.now), ev, s.generation, ev.guid), guid, e, others);
  }

  lemma StepInPlace(s: State, ev: Event, guid: string, e: Entry, others: set<string>)
    requires Valid(s) && InPlace(s, guid, e, others) && !On(ev, Anything, s.generation, guid)
    requires Dated(ev) ==> ev.generation <= s.generation
    requires |others + Others([ev], s.generation)| < Limit(e)
    ensures InPlace(Apply(s, ev), guid, e, others + Others([ev], s.generation))
    ensures Apply(s, ev).generation == s.generation
  {
    OthersOne(ev, s.generation);
    if (ev.Started? || ev.Progress?) && ev.generation == s.generation {
      HeardInPlace(s, ev, guid, e, others);
    } else {
      assert others + {} == others;
    }
  }

  lemma OthersSnoc(evs: seq<Event>, ev: Event, generation: nat)
    ensures Others(evs + [ev], generation) == Others(evs, generation) + Others([ev], generation)
  {
    var all := evs + [ev];
    assert all[|evs|] == ev && [ev][0] == ev;
    assert forall j :: 0 <= j < |evs| ==> all[j] == evs[j];
  }

  lemma SubsetSize(a: set<string>, b: set<string>)
    requires a <= b
    ensures |a| <= |b|
  {
    assert b == a + (b - a);
  }

  /** None of the events is newer than the generation or about the download. */
  ghost predicate Unheard(evs: seq<Event>, generation: nat, guid: string) {
    forall j :: 0 <= j < |evs| && Dated(evs[j]) ==>
      evs[j].generation <= generation && !On(evs[j], Anything, generation, guid)
  }

  lemma {:induction false} KeepsPlace(s: State, evs: seq<Event>, guid: string, e: Entry)
    requires Valid(s) && InPlace(s, guid, e, {}) && Unheard(evs, s.generation, guid)
    requires |Others(evs, s.generation)| < Limit(e)
    ensures InPlace(Run(s, evs), guid, e, Others(evs, s.generation)) && Run(s, evs).generation == s.generation
    decreases |evs|
  {
    if evs == [] {
      assert Others(evs, s.generation) == {};
    } else {
      var n := |evs| - 1;
      var front := evs[..n];
      assert evs == front + [evs[n]];
      OthersSnoc(front, evs[n], s.generation);
      SubsetSize(Others(front, s.generation), Others(evs, s.generation));
      assert Unheard(front, s.generation, guid);
      KeepsPlace(s, front, guid, e);
      RunValid(s, front);
      StepInPlace(Run(s, front), evs[n], guid, e, Others(front, s.generation));
    }
  }

  /** A download is retained, as its last event left it, until 32 others were heard of since, or 64 once it ended. */
  lemma RetainedWhile(s: State, ev: Event, evs: seq<Event>, guid: string)
    requires Valid(s) && Heard(s, ev, guid) && Unheard(evs, ev.generation, guid)
    ensures guid in Apply(s, ev).entries && Apply(s, ev).projection.lastDownload == Some(Apply(s, ev).entries[guid])
    ensures var e := Apply(s, ev).entries[guid];
            |Others(evs, ev.generation)| < Limit(e) ==>
              guid in Run(Apply(s, ev), evs).entries && Run(Apply(s, ev), evs).entries[guid] == e
  {
    JustHeard(s, ev, guid);
    StepValid(s, ev);
    var e := Apply(s, ev).entries[guid];
    if |Others(evs, ev.generation)| < Limit(e) {
      KeepsPlace(Apply(s, ev), evs, guid, e);
    }
  }

  // ---------- the runtime ----------

  /** The reasons of the degradation marks, in order. */
  function Marks(evs: seq<Event>): seq<string> {
    if evs == [] then []
    else
      var front, last := Marks(evs[..|evs| - 1]), evs[|evs| - 1];
      if last.MarkDegraded? then front + [last.why] else front
  }

  /**
   * The event that settled the runtime: the last set-runtime event of the newest generation, or, when that has none,
   * the event the generation began with.
   */
  ghost predicate SettledBy(evs: seq<Event>, i: int) {
    && 0 <= i < |evs| && Dated(evs[i])
    && (forall j :: 0 <= j < |evs| && Dated(evs[j]) ==> evs[j].generation <= evs[i].generation)
    && if evs[i].SetRuntime? then
         forall j :: i < j < |evs| && evs[j].SetRuntime? ==> evs[j].generation != evs[i].generation
       else
         && (forall j :: 0 <= j < |evs| && evs[j].SetRuntime? ==> evs[j].generation != evs[i].generation)
         && (forall j :: 0 <= j < i && Dated(evs[j]) ==> evs[j].generation != evs[i].generation)
  }

  /** The marks that count: those after the event, unless its generation is the initial one. */
  function MarksSince(evs: seq<Event>, i: nat): seq<string>
    requires i < |evs| && Dated(evs[i])
  {
    if evs[i].generation == 0 then [] else Marks(evs[i + 1..])
  }

  function Noted(reason: Option<string>, whys: seq<string>): Option<string> {
    if whys == [] then reason else Some(Appended(Noted(reason, whys[..|whys| - 1]), whys[|whys| - 1]))
  }

  ghost predicate RuntimeTold(evs: seq<Event>, i: nat, p: Info)
    requires i < |evs| && Dated(evs[i])
  {
    var ev, whys := evs[i], MarksSince(evs, i);
    && p.mode == (if ev.SetRuntime? then ev.mode else ObserveOnly)
    && p.downloadDir == (if ev.SetRuntime? then ev.dir else None)
    && p.status == (if whys != [] then Degraded else if ev.SetRuntime? then ev.status else Inactive)
    && p.degradedReason == Noted(if ev.SetRuntime? then ev.reason else None, whys)
  }

  lemma {:induction false} GenerationIsNewest(evs: seq<Event>)
    ensures forall j :: 0 <= j < |evs| && Dated(evs[j]) ==> evs[j].generation <= Run(Fresh(0), evs).generation
    ensures Run(Fresh(0), evs) == Fresh(0) ||
            exists j :: 0 <= j < |evs| && Dated(evs[j]) && evs[j].generation == Run(Fresh(0), evs).generation
  {
    if evs != [] {
      var n := |evs| - 1;
      GenerationIsNewest(evs[..n]);
      var before, ev := Run(Fresh(0), evs[..n]), evs[n];
      if Dated(ev) && ev.generation >= before.generation {
        assert Run(Fresh(0), evs).generation == ev.generation;
      } else if before != Fresh(0) {
        var j :| 0 <= j < n && Dated(evs[..n][j]) && evs[..n][j].generation == before.generation;
        assert evs[j] == evs[..n][j];
      }
    }
  }

  lemma SettingTells(evs: seq<Event>, n: nat, before: State)
    requires |evs| == n + 1 && evs[n].SetRuntime? && before.generation <= evs[n].generation
    ensures RuntimeTold(evs, n, Apply(before, evs[n]).projection)
  {
    assert evs[n + 1..] == [];
  }

  lemma BeginningTells(evs: seq<Event>, n: nat, before: State)
    requires |evs| == n + 1 && (evs[n].Started? || evs[n].Progress?)
    requires before.generation < evs[n].generation || before == Fresh(evs[n].generation)
    ensures RuntimeTold(evs, n, Apply(before, evs[n]).projection)
  {
    assert evs[n + 1..] == [];
    HeardIsStored(before, evs[n]);
  }

  lemma SettledNow(evs: seq<Event>)
    requires evs != [] && SettledBy(evs, |evs| - 1)
    ensures RuntimeTold(evs, |evs| - 1, Run(Fresh(0), evs).projection)
  {
    var n := |evs| - 1;
    var before := Run(Fresh(0), evs[..n]);
    GenerationIsNewest(evs[..n]);
    assert forall j :: 0 <= j < n ==> evs[..n][j] == evs[j];
    if evs[n].SetRuntime? {
      SettingTells(evs, n, before);
    } else {
      BeginningTells(evs, n, before);
    }
  }

  lemma MarksSinceSnoc(evs: seq<Event>, i: nat)
    requires i < |evs| - 1 && Dated(evs[i])
    ensures var n := |evs| - 1;
            MarksSince(evs, i) == if evs[n].MarkDegraded? && evs[i].generation != 0
                                  then MarksSince(evs[..n], i) + [evs[n].why] else MarksSince(evs[..n], i)
  {
    var n := |evs| - 1;
    var since := evs[i + 1..];
    assert since[..|since| - 1] == evs[..n][i + 1..] && since[|since| - 1] == evs[n];
  }

  lemma NotedSnoc(reason: Option<string>, whys: seq<string>, why: string)
    ensures Noted(reason, whys + [why]) == Some(Appended(Noted(reason, whys), why))
  {
    assert (whys + [why])[..|whys|] == whys;
  }

  /** An event that does not settle the runtime leaves it as it is, unless it is a mark. */
  lemma UnsettledStep(s: State, ev: Event)
    requires Dated(ev) ==> ev.generation <= s.generation
    requires ev.SetRuntime? ==> ev.generation != s.generation
    ensures var p, p' := s.projection, Apply(s, ev).projection;
            && p'.mode == p.mode && p'.downloadDir == p.downloadDir
            && if ev.MarkDegraded? && s.generation != 0 then
                 p'.status == Degraded && p'.degradedReason == Some(Appended(p.degradedReason, ev.why))
               else p'.status == p.status && p'.degradedReason == p.degradedReason
  {
  }

  lemma ToldStep(evs: seq<Event>, i: nat, p: Info, p': Info)
    requires i < |evs| - 1 && Dated(evs[i]) && RuntimeTold(evs[..|evs| - 1], i, p)
    requires p'.mode == p.mode && p'.downloadDir == p.downloadDir
    requires if evs[|evs| - 1].MarkDegraded? && evs[i].generation != 0 then
               p'.status == Degraded && p'.degradedReason == Some(Appended(p.degradedReason, evs[|evs| - 1].why))
             else p'.status == p.status && p'.degradedReason == p.degradedReason
    ensures RuntimeTold(evs, i, p')
  {
    var n := |evs| - 1;
    MarksSinceSnoc(evs, i);
    if evs[n].MarkDegraded? {
      NotedSnoc(if evs[i].SetRuntime? then evs[i].reason else None, MarksSince(evs[..n], i), evs[n].why);
    }
  }

  lemma SettledGeneration(evs: seq<Event>, i: nat)
    requires i < |evs| && Dated(evs[i])
    requires forall j :: 0 <= j < |evs| && Dated(evs[j]) ==> evs[j].generation <= evs[i].generation
    ensures Run(Fresh(0), evs).generation == evs[i].generation
  {
    GenerationIsNewest(evs);
  }

  lemma SettledBefore(evs: seq<Event>, i: nat, before: State)
    requires i < |evs| - 1 && SettledBy(evs, i) && before.generation == evs[i].generation
    requires RuntimeTold(evs[..|evs| - 1], i, before.projection)
    ensures RuntimeTold(evs, i, Apply(before, evs[|evs| - 1]).projection)
  {
    var last := evs[|evs| - 1];
    UnsettledStep(before, last);
    ToldStep(evs, i, before.projection, Apply(before, last).projection);
  }

  /** The runtime is what the event that settled it says, degraded by the marks that came after it. */
  lemma {:induction false} RuntimeIsToldBy(evs: seq<Event>, i: nat)
    requires SettledBy(evs, i)
    ensures RuntimeTold(evs, i, Run(Fresh(0), evs).projection)
  {
    var n := |evs| - 1;
    if i == n {
      SettledNow(evs);
    } else {
      assert forall j :: 0 <= j < n ==> evs[..n][j] == evs[j];
      RuntimeIsToldBy(evs[..n], i);
      SettledGeneration(evs[..n], i);
      SettledBefore(evs, i, Run(Fresh(0), evs[..n]));
    }
  }

  ghost predicate OnlyMarks(evs: seq<Event>) {
    forall j :: 0 <= j < |evs| ==> evs[j].MarkDegraded?
  }

  /** Some event settled the runtime, unless there were none but marks, which leave the projection as it was. */
  lemma {:induction false} SettledOrUntouched(evs: seq<Event>) returns (i: nat)
    ensures OnlyMarks(evs) ==> Run(Fresh(0), evs) == Fresh(0)
    ensures !OnlyMarks(evs) ==> SettledBy(evs, i)
  {
    i := 0;
    if evs != [] {
      var n := |evs| - 1;
      i := SettledOrUntouched(evs[..n]);
      assert forall j :: 0 <= j < n ==> evs[..n][j] == evs[j];
      if Dated(evs[n]) && (OnlyMarks(evs[..n]) || evs[n].generation > evs[i].generation
                           || (evs[n].SetRuntime? && evs[n].generation == evs[i].generation)) {
        i := n;
      }
    }
  }

  // ---------- the degradation reasons ----------

  /** The reasons listed in the text, one for each comma-separated part. */
  function Listed(reason: Option<string>): seq<string> {
    match reason
    case None => []
    case Some(text) => Trimmed(Split(text, ','))
  }

  function Trimmed(parts: seq<string>): seq<string> {
    seq(|parts|, i requires 0 <= i < |parts| => Trim(parts[i]))
  }

  lemma TrimmedJoined(a: seq<string>, b: seq<string>)
    ensures Trimmed(a + b) == Trimmed(a) + Trimmed(b)
  {
  }

  /** A reason that the text can list as it is. */
  predicate Plain(why: string) {
    ',' !in why && Trim(why) == why
  }

  /** The parts with a character put in front. */
  function Pushed(c: char, parts: seq<string>): seq<string>
    requires parts != []
  {
    if c == ',' then [""] + parts else [[c] + parts[0]] + parts[1..]
  }

  lemma PushedJoined(c: char, parts: seq<string>, last: seq<string>)
    requires parts != []
    ensures Pushed(c, parts + last) == Pushed(c, parts) + last
  {
    assert (parts + last)[0] == parts[0] && (parts + last)[1..] == parts[1..] + last;
  }

  lemma SplitPushed(c: char, text: string)
    ensures Split([c] + text, ',') == Pushed(c, Split(text, ','))
  {
    assert ([c] + text)[1..] == text;
  }

  lemma {:induction false} SplitJoined(text: string, why: string)
    ensures Split(text + "," + why, ',') == Split(text, ',') + Split(why, ',')
  {
    if text == "" {
      assert text + "," + why == [','] + why;
      SplitPushed(',', why);
      assert Split(text, ',') == [""];
    } else {
      var c, rest := text[0], text[1..];
      assert text == [c] + rest && text + "," + why == [c] + (rest + "," + why);
      SplitJoined(rest, why);
      SplitPushed(c, rest);
      SplitPushed(c, rest + "," + why);
      PushedJoined(c, Split(rest, ','), Split(why, ','));
    }
  }

  lemma {:induction false} SplitPlain(why: string)
    requires ',' !in why
    ensures Split(why, ',') == [why]
  {
    if why != "" {
      assert why == [why[0]] + why[1..];
      SplitPlain(why[1..]);
    }
  }

  lemma {:induction false} PartsHaveNoComma(text: string)
    ensures forall part :: part in Split(text, ',') ==> ',' !in part
  {
    if text != "" {
      PartsHaveNoComma(text[1..]);
      var rest := Split(text[1..], ',');
      assert rest == [rest[0]] + rest[1..];
    }
  }

  lemma {:induction false} TrimEndStops(s: string)
    ensures TrimEnd(s) <= s && (TrimEnd(s) != "" ==> !IsSpace(TrimEnd(s)[|TrimEnd(s)| - 1]))
  {
    if s != "" && IsSpace(s[|s| - 1]) {
      TrimEndStops(s[..|s| - 1]);
    }
  }

  lemma {:induction false} TrimStartKeeps(s: string, c: char)
    requires c in TrimStart(s)
    ensures c in s
  {
    if s != "" && IsSpace(s[0]) {
      TrimStartKeeps(s[1..], c);
    }
  }

  lemma TrimmedIsPlain(part: string)
    requires ',' !in part
    ensures Plain(Trim(part))
  {
    var start := TrimStart(part);
    var trimmed := Trim(part);
    TrimStartHead(part);
    TrimEndStops(start);
    if ',' in trimmed {
      assert ',' in start;
      TrimStartKeeps(part, ',');
    }
    assert trimmed != "" ==> trimmed[0] == start[0];
    assert TrimStart(trimmed) == trimmed && TrimEnd(trimmed) == trimmed;
  }

  lemma ListedIff(text: string, why: string)
    ensures (exists part :: part in Split(text, ',') && Trim(part) == why) <==> why in Listed(Some(text))
  {
    var parts, listed := Split(text, ','), Listed(Some(text));
    assert forall i :: 0 <= i < |parts| ==> listed[i] == Trim(parts[i]);
    if part :| part in parts && Trim(part) == why {
      var i :| 0 <= i < |parts| && parts[i] == part;
      assert listed[i] == why;
    }
  }

  lemma PlainIsListed(why: string)
    requires Plain(why)
    ensures Listed(Some(why)) == [why]
  {
    SplitPlain(why);
  }

  /** What the text lists is plain. */
  lemma ListedIsPlain(text: string, why: string)
    requires why in Listed(Some(text))
    ensures Plain(why)
  {
    ListedIff(text, why);
    var part :| part in Split(text, ',') && Trim(part) == why;
    PartsHaveNoComma(text);
    TrimmedIsPlain(part);
  }

  lemma ListedJoined(text: string, why: string)
    ensures Listed(Some(text + "," + why)) == Listed(Some(text)) + Listed(Some(why))
  {
    SplitJoined(text, why);
    TrimmedJoined(Split(text, ','), Split(why, ','));
  }

  lemma AppendedLists(reason: Option<string>, why: string)
    ensures Listed(Some(Appended(reason, why)))
         == if why in Listed(reason) then Listed(reason) else Listed(reason) + Listed(Some(why))
    ensures why in Listed(reason) ==> Listed(Some(why)) == [why]
  {
    match reason
    case None =>
    case Some(text) =>
      ListedIff(text, why);
      ListedJoined(text, why);
      if why in Listed(reason) {
        ListedIsPlain(text, why);
        PlainIsListed(why);
      }
  }

  /** The reasons that the marks list, each mark for itself. */
  ghost predicate MarkedBy(whys: seq<string>, reason: string) {
    exists why :: why in whys && reason in Listed(Some(why))
  }

  lemma MarkedSnoc(whys: seq<string>, why: string, reason: string)
    ensures MarkedBy(whys + [why], reason) <==> MarkedBy(whys, reason) || reason in Listed(Some(why))
  {
    if MarkedBy(whys, reason) {
      var said :| said in whys && reason in Listed(Some(said));
      assert said in whys + [why];
    }
    if reason in Listed(Some(why)) {
      assert why in whys + [why];
    }
  }

  /** Marking lists what every mark says after what was listed before, and drops nothing. */
  lemma {:induction false} MarksAreListed(reason: Option<string>, whys: seq<string>, other: string)
    ensures Listed(reason) <= Listed(Noted(reason, whys))
    ensures other in Listed(Noted(reason, whys)) <==> other in Listed(reason) || MarkedBy(whys, other)
  {
    if whys != [] {
      var n := |whys| - 1;
      assert whys == whys[..n] + [whys[n]];
      MarksAreListed(reason, whys[..n], other);
      AppendedLists(Noted(reason, whys[..n]), whys[n]);
      MarkedSnoc(whys[..n], whys[n], other);
    }
  }

  /** Marks without commas, or blanks at their ends, are listed once each. */
  lemma {:induction false} MarksAreListedOnce(reason: Option<string>, whys: seq<string>)
    requires forall why :: why in whys ==> Plain(why)
    ensures var before, after := Listed(reason), Listed(Noted(reason, whys));
            |before| <= |after| && forall i, j :: 0 <= i < j < |after| && |before| <= j ==> after[i] != after[j]
  {
    if whys != [] {
      var n := |whys| - 1;
      assert whys == whys[..n] + [whys[n]];
      MarksAreListedOnce(reason, whys[..n]);
      AppendedLists(Noted(reason, whys[..n]), whys[n]);
      PlainIsListed(whys[n]);
    }
  }
}
