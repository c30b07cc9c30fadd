/** The download projection of downloads.rs as a value: what each event does to it and what every run keeps. */
module DownloadModel {
  import opened Collections
  import opened Text
  import Fence = ReleaseFence

  const ACTIVE_LIMIT: nat := 32
  const COMPLETED_LIMIT: nat := 64

  datatype RuntimeStatus = Inactive | RuntimeActive | Degraded | Unsupported
  datatype Mode = ObserveOnly | Managed | Deny
  datatype DownloadState = DownloadStarted | InProgress | Completed | Failed | Canceled

  datatype Entry = Entry(
    guid: string,
    state: DownloadState,
    url: Option<string>,
    suggestedFilename: Option<string>,
    finalPath: Option<string>,
    mimeHint: Option<string>,
    receivedBytes: nat,
    totalBytes: Option<nat>,
    startedAt: string,
    completedAt: Option<string>,
    frameId: Option<string>,
    triggerCommandId: Option<string>)

  datatype Info = Info(
    status: RuntimeStatus,
    mode: Mode,
    downloadDir: Option<string>,
    activeDownloads: seq<Entry>,
    completedDownloads: seq<Entry>,
    lastDownload: Option<Entry>,
    degradedReason: Option<string>)

  datatype State = State(
    generation: nat, projection: Info, entries: map<string, Entry>, active: seq<string>, completed: seq<string>)

  const DEFAULT_INFO: Info := Info(Inactive, ObserveOnly, None, [], [], None, None)

  function Fresh(generation: nat): State {
    State(generation, DEFAULT_INFO, map[], [], [])
  }

  datatype Event =
    | SetRuntime(generation: nat, status: RuntimeStatus, mode: Mode, dir: Option<string>, reason: Option<string>)
    | Started(generation: nat, guid: string, url: string, filename: string, frameId: Option<string>, now: string)
    | Progress(generation: nat, guid: string, state: DownloadState, received: nat, total: Option<nat>,
               path: Option<string>, now: string)
    | MarkDegraded(why: string)

  // ---------- one event ----------

  predicate Terminal(state: DownloadState) {
    state == Completed || state == Failed || state == Canceled
  }

  function NewEntry(guid: string, now: string): Entry {
    Entry(guid, DownloadStarted, None, None, None, None, 0, None, now, None, None, None)
  }

  function EntryFor(entries: map<string, Entry>, guid: string, now: string): Entry {
    if guid in entries then entries[guid] else NewEntry(guid, now)
  }

  function StartedEntry(e: Entry, url: string, filename: string, frameId: Option<string>, now: string): Entry {
    e.(state := DownloadStarted, url := Some(url), suggestedFilename := Some(filename), frameId := frameId,
       startedAt := if e.startedAt == "" then now else e.startedAt)
  }

  function ProgressEntry(
    e: Entry, state: DownloadState, received: nat, total: Option<nat>, path: Option<string>, now: string): Entry
  {
    e.(state := state,
       receivedBytes := if received > e.receivedBytes then received else e.receivedBytes,
       totalBytes := if total.Some? then total else e.totalBytes,
       finalPath := if path.Some? then path else e.finalPath,
       completedAt := if Terminal(state) then Some(now) else e.completedAt)
  }

  /** Move to the back of a queue. */
  function Touched(order: seq<string>, guid: string): seq<string> {
    Without(order, guid) + [guid]
  }

  /** The newest `limit` members. */
  function Newest(order: seq<string>, limit: nat): seq<string> {
    if |order| > limit then order[|order| - limit..] else order
  }

  /** Only what a queue still holds is kept. */
  function Held(entries: map<string, Entry>, active: seq<string>, completed: seq<string>): map<string, Entry> {
    map g | g in entries && (g in active || g in completed) :: entries[g]
  }

  function LookedUp(order: seq<string>, entries: map<string, Entry>): seq<Entry> {
    if order == [] then []
    else LookedUp(order[..|order| - 1], entries)
         + if order[|order| - 1] in entries then [entries[order[|order| - 1]]] else []
  }

  function ActiveAfter(active: seq<string>, e: Entry): seq<string> {
    if Terminal(e.state) then Without(active, e.guid) else Newest(Touched(active, e.guid), ACTIVE_LIMIT)
  }

  function CompletedAfter(completed: seq<string>, e: Entry): seq<string> {
    if Terminal(e.state) then Newest(Touched(completed, e.guid), COMPLETED_LIMIT) else Without(completed, e.guid)
  }

  /** Store an updated entry, queue it by its state, drop what no longer fits and project the lists. */
  function Stored(s: State, e: Entry): State {
    var active := ActiveAfter(s.active, e);
    var completed := CompletedAfter(s.completed, e);
    var entries := Held(s.entries[e.guid := e], active, completed);
    State(s.generation,
          s.projection.(lastDownload := Some(e), activeDownloads := LookedUp(active, entries),
                        completedDownloads := LookedUp(completed, entries)),
          entries, active, completed)
  }

  /** A newer generation starts from nothing. */
  function Prepared(s: State, generation: nat): State {
    if generation > s.generation then Fresh(generation) else s
  }

  /** `append_download_runtime_degraded_reason`. */
  function Appended(existing: Option<string>, why: string): string {
    match existing
    case None => why
    case Some(text) =>
      if exists part :: part in Split(text, ',') && Trim(part) == why then text else text + "," + why
  }

  function Apply(s: State, ev: Event): State {
    match ev
    case MarkDegraded(why) =>
      if s.generation == 0 then s
      else
        var reason := Appended(s.projection.degradedReason, why);
        s.(projection := s.projection.(status := Degraded, degradedReason := Some(reason)))
    case SetRuntime(generation, status, mode, dir, reason) =>
      if generation < s.generation then s
      else
        var p := Prepared(s, generation);
        p.(projection := p.projection.(status := status, mode := mode, downloadDir := dir, degradedReason := reason))
    case Started(generation, guid, url, filename, frameId, now) =>
      if generation < s.generation then s
      else
        var p := Prepared(s, generation);
        Stored(p, StartedEntry(EntryFor(p.entries, guid, now), url, filename, frameId, now))
    case Progress(generation, guid, state, received, total, path, now) =>
      if generation < s.generation then s
      else
        var p := Prepared(s, generation);
        Stored(p, ProgressEntry(EntryFor(p.entries, guid, now), state, received, total, path, now))
  }

  function Run(s: State, evs: seq<Event>): State {
    if evs == [] then s else Apply(Run(s, evs[..|evs| - 1]), evs[|evs| - 1])
  }

  // ---------- what every state satisfies ----------

  ghost predicate QueuesFit(s: State) {
    && NoDuplicates(s.active) && NoDuplicates(s.completed)
    && (forall g :: g in s.active ==> g !in s.completed)
    && |s.active| <= ACTIVE_LIMIT && |s.completed| <= COMPLETED_LIMIT
    && (forall g :: g in s.entries <==> g in s.active || g in s.completed)
  }

  ghost predicate EntriesFit(s: State) {
    forall g :: g in s.entries ==> s.entries[g].guid == g && (Terminal(s.entries[g].state) <==> g in s.completed)
  }

  ghost predicate ProjectionFits(s: State) {
    && s.projection.activeDownloads == LookedUp(s.active, s.entries)
    && s.projection.completedDownloads == LookedUp(s.completed, s.entries)
    && (s.projection.lastDownload.Some? ==>
          var e := s.projection.lastDownload.value; e.guid in s.entries && s.entries[e.guid] == e)
  }

  ghost predicate Valid(s: State) {
    QueuesFit(s) && EntriesFit(s) && ProjectionFits(s)
  }

  lemma TouchedOf(order: seq<string>, guid: string)
    requires NoDuplicates(order)
    ensures NoDuplicates(Touched(order, guid))
    ensures forall g :: g in Touched(order, guid) <==> g in order || g == guid
    ensures Touched(order, guid)[|Touched(order, guid)| - 1] == guid
    ensures |Touched(order, guid)| <= |order| + 1
  {
    WithoutNoDuplicates(order, guid);
    WithoutMembers(order, guid);
    var rest := Without(order, guid);
    assert forall i :: 0 <= i < |rest| ==> rest[i] in rest;
  }

  /** After an entry is stored it is in the queue of its state and no other, and the other entries are as they were. */
  ghost predicate StoredFits(s: State, e: Entry) {
    var s' := Stored(s, e);
    && QueuesFit(s')
    && e.guid in s'.entries && s'.entries[e.guid] == e
    && (Terminal(e.state) <==> e.guid in s'.completed)
    && forall g :: g in s'.entries && g != e.guid ==>
         g in s.entries && s'.entries[g] == s.entries[g] && (g in s'.completed <==> g in s.completed)
  }

  lemma StoredCompleted(s: State, e: Entry)
    requires QueuesFit(s) && Terminal(e.state)
    ensures StoredFits(s, e)
  {
    WithoutNoDuplicates(s.active, e.guid);
    WithoutMembers(s.active, e.guid);
    WithoutMembers(s.completed, e.guid);
    TouchedOf(s.completed, e.guid);
  }

  lemma StoredActive(s: State, e: Entry)
    requires QueuesFit(s) && !Terminal(e.state)
    ensures StoredFits(s, e)
  {
    WithoutNoDuplicates(s.completed, e.guid);
    WithoutMembers(s.active, e.guid);
    WithoutMembers(s.completed, e.guid);
    TouchedOf(s.active, e.guid);
  }

  lemma StoredQueues(s: State, e: Entry)
    requires QueuesFit(s)
    ensures StoredFits(s, e)
  {
    if Terminal(e.state) {
      StoredCompleted(s, e);
    } else {
      StoredActive(s, e);
    }
  }

  lemma StoredEntries(s: State, e: Entry)
    requires QueuesFit(s) && EntriesFit(s)
    ensures EntriesFit(Stored(s, e))
  {
    StoredQueues(s, e);
  }

  lemma StoredValid(s: State, e: Entry)
    requires Valid(s)
    ensures Valid(Stored(s, e))
  {
    StoredQueues(s, e);
    StoredEntries(s, e);
  }

  lemma StepValid(s: State, ev: Event)
    requires Valid(s)
    ensures Valid(Apply(s, ev))
  {
    if !ev.MarkDegraded? && ev.generation >= s.generation {
      var p := Prepared(s, ev.generation);
      match ev
      case Started(_, guid, url, filename, frameId, now) =>
        StoredValid(p, StartedEntry(EntryFor(p.entries, guid, now), url, filename, frameId, now));
      case Progress(_, guid, state, received, total, path, now) =>
        StoredValid(p, ProgressEntry(EntryFor(p.entries, guid, now), state, received, total, path, now));
      case SetRuntime(_, _, _, _, _) =>
    }
  }

  /** Every reachable state satisfies the representation invariant. */
  lemma {:induction false} RunValid(s: State, evs: seq<Event>)
    requires Valid(s)
    ensures Valid(Run(s, evs))
    decreases |evs|
  {
    if evs != [] {
      RunValid(s, evs[..|evs| - 1]);
      StepValid(Run(s, evs[..|evs| - 1]), evs[|evs| - 1]);
    }
  }

  // ---------- generations ----------

  predicate Dated(ev: Event) {
    !ev.MarkDegraded?
  }

  /** The newest generation among the events, or 0. */
  function MaxGeneration(evs: seq<Event>): nat {
    if evs == [] then 0
    else
      var front, last := MaxGeneration(evs[..|evs| - 1]), evs[|evs| - 1];
      if Dated(last) && last.generation > front then last.generation else front
  }

  /** The events of one generation, with every degradation mark. */
  function OfGeneration(evs: seq<Event>, generation: nat): seq<Event> {
    if evs == [] then []
    else
      var front, last := OfGeneration(evs[..|evs| - 1], generation), evs[|evs| - 1];
      if Dated(last) && last.generation != generation then front else front + [last]
  }

  /** A late event from an older listener changes nothing. */
  lemma StaleIsIgnored(s: State, ev: Event)
    requires Dated(ev) && ev.generation < s.generation
    ensures Apply(s, ev) == s
  {
  }

  lemma {:induction false} RunGeneration(evs: seq<Event>)
    ensures Run(Fresh(0), evs).generation == MaxGeneration(evs)
    decreases |evs|
  {
    if evs != [] {
      RunGeneration(evs[..|evs| - 1]);
    }
  }

  lemma {:induction false} OlderRunIsEmpty(evs: seq<Event>, generation: nat)
    requires MaxGeneration(evs) < generation
    ensures Run(Fresh(0), OfGeneration(evs, generation)) == Fresh(0)
    decreases |evs|
  {
    if evs != [] {
      var front, last := evs[..|evs| - 1], evs[|evs| - 1];
      OlderRunIsEmpty(front, generation);
    }
  }

  lemma {:induction false} OnlyOneGeneration(evs: seq<Event>, generation: nat)
    requires MaxGeneration(evs) == generation
    ensures Run(Fresh(0), evs) == Run(Fresh(0), OfGeneration(evs, generation))
    decreases |evs|
  {
    if evs != [] {
      var front, last := evs[..|evs| - 1], evs[|evs| - 1];
      var s := Run(Fresh(0), front);
      RunGeneration(front);
      if MaxGeneration(front) < generation {
        OlderRunIsEmpty(front, generation);
      } else {
        OnlyOneGeneration(front, generation);
      }
    }
  }

  /**
   * Generation filtering over whole runs: the final state is that of a fresh projection which saw only the
   * events of the newest generation (and the degradation marks, which need no generation).
   */
  lemma GenerationFiltering(evs: seq<Event>)
    ensures Run(Fresh(0), evs) == Run(Fresh(0), OfGeneration(evs, MaxGeneration(evs)))
  {
    OnlyOneGeneration(evs, MaxGeneration(evs));
  }

  // ---------- bytes ----------

  lemma StepBytes(s: State, ev: Event, guid: string)
    requires Valid(s) && Apply(s, ev).generation == s.generation
    requires guid in s.entries && guid in Apply(s, ev).entries
    ensures s.entries[guid].receivedBytes <= Apply(s, ev).entries[guid].receivedBytes
  {
    if Dated(ev) && ev.generation >= s.generation {
      match ev
      case Started(_, g, url, filename, frameId, now) =>
        StoredQueues(s, StartedEntry(EntryFor(s.entries, g, now), url, filename, frameId, now));
      case Progress(_, g, state, received, total, path, now) =>
        StoredQueues(s, ProgressEntry(EntryFor(s.entries, g, now), state, received, total, path, now));
      case SetRuntime(_, _, _, _, _) =>
    }
  }

  /** The guid is retained, in one generation, after every event of the run. */
  predicate Retained(s: State, evs: seq<Event>, guid: string) {
    guid in s.entries &&
    (evs == [] || (Retained(s, evs[..|evs| - 1], guid)
                   && Run(s, evs).generation == s.generation && guid in Run(s, evs).entries))
  }

  /** Received bytes never decrease while a download is retained. */
  lemma {:induction false} BytesNeverDecrease(s: State, evs: seq<Event>, guid: string)
    requires Valid(s) && Retained(s, evs, guid)
    ensures guid in Run(s, evs).entries && s.entries[guid].receivedBytes <= Run(s, evs).entries[guid].receivedBytes
    decreases |evs|
  {
    if evs != [] {
      var front, last := evs[..|evs| - 1], evs[|evs| - 1];
      RunValid(s, front);
      BytesNeverDecrease(s, front, guid);
      StepBytes(Run(s, front), last, guid);
    }
  }

  // ---------- publishers racing with the release flag ----------

  /** Over every interleaving of fenced recorders with the release flag, the shared projection keeps its invariant. */
  lemma ValidUnderInterleaving(w: Fence.World<State>, acts: seq<Fence.Act>, evs: seq<Event>)
    requires w.log == [] && Valid(w.shared) && |evs| == |w.publishers|
    requires forall i, s :: 0 <= i < |w.publishers| ==> w.publishers[i].write(s) == Apply(s, evs[i])
    ensures Valid(Fence.Run(w, acts).shared)
  {
    var inv := (s: State) => Valid(s);
    forall i, s | 0 <= i < |w.publishers| && inv(s)
      ensures inv(w.publishers[i].write(s))
    {
      StepValid(s, evs[i]);
    }
    Fence.InvariantUnderInterleaving(w, acts, inv);
    assert inv(Fence.Run(w, acts).shared);
  }
}
