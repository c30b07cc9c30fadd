/** The mutable download projection of downloads.rs, proved against `DownloadModel`. */
module DownloadProjection {
  import opened Collections
  import opened DownloadModel

  class DownloadRuntimeProjectionState {
    var currentGeneration: nat
    var projection: Info
    var entries: map<string, Entry>
    var activeOrder: seq<string>
    var completedOrder: seq<string>

    ghost function Snapshot(): State
      reads this
    {
      State(currentGeneration, projection, entries, activeOrder, completedOrder)
    }

    constructor ()
      ensures Snapshot() == Fresh(0)
    {
      currentGeneration, projection, entries, activeOrder, completedOrder := 0, DEFAULT_INFO, map[], [], [];
    }

    method MarkRuntimeDegraded(reason: string)
      modifies this
      ensures Snapshot() == Apply(old(Snapshot()), MarkDegraded(reason))
    {
      if currentGeneration == 0 {
        return;
      }
      var reasons := Appended(projection.degradedReason, reason);
      projection := projection.(status := Degraded, degradedReason := Some(reasons));
    }

    method Clear()
      modifies this
      ensures Snapshot() == Fresh(0)
    {
      currentGeneration, projection, entries, activeOrder, completedOrder := 0, DEFAULT_INFO, map[], [], [];
    }

    method SetRuntime(generation: nat, status: RuntimeStatus, mode: Mode, dir: Option<string>, reason: Option<string>)
      modifies this
      ensures Snapshot() == Apply(old(Snapshot()), Event.SetRuntime(generation, status, mode, dir, reason))
    {
      var current := PrepareGeneration(generation);
      if !current {
        return;
      }
      projection := projection.(status := status, mode := mode, downloadDir := dir, degradedReason := reason);
    }

    method RecordStarted(
      generation: nat, guid: string, url: string, filename: string, frameId: Option<string>, now: string)
      requires Valid(Snapshot())
      modifies this
      ensures Valid(Snapshot())
      ensures Snapshot() == Apply(old(Snapshot()), Started(generation, guid, url, filename, frameId, now))
    {
      StepValid(Snapshot(), Started(generation, guid, url, filename, frameId, now));
      var current := PrepareGeneration(generation);
      if !current {
        return;
      }
      var entry := StartedEntry(EntryFor(entries, guid, now), url, filename, frameId, now);
      Store(entry);
    }

    method RecordProgress(
      generation: nat, guid: string, state: DownloadState, received: nat, total: Option<nat>, path: Option<string>,
      now: string)
      requires Valid(Snapshot())
      modifies this
      ensures Valid(Snapshot())
      ensures Snapshot() == Apply(old(Snapshot()), Progress(generation, guid, state, received, total, path, now))
    {
      StepValid(Snapshot(), Progress(generation, guid, state, received, total, path, now));
      var current := PrepareGeneration(generation);
      if !current {
        return;
      }
      var entry := ProgressEntry(EntryFor(entries, guid, now), state, received, total, path, now);
      Store(entry);
    }

    /** The common end of `record_started` and `record_progress`. */
    method Store(entry: Entry)
      requires QueuesFit(Snapshot())
      modifies this
      ensures Snapshot() == Stored(old(Snapshot()), entry)
    {
      QueuesCover(Snapshot(), entry);
      entries := entries[entry.guid := entry];
      Requeue(entry);
      projection := projection.(lastDownload := Some(entry));
      RefreshProjectionLists();
    }

    method Requeue(entry: Entry)
      requires NoDuplicates(activeOrder) && NoDuplicates(completedOrder)
      requires forall g :: g in entries <==> g in activeOrder || g in completedOrder || g == entry.guid
      modifies this`activeOrder, this`completedOrder, this`entries
      ensures activeOrder == ActiveAfter(old(activeOrder), entry)
      ensures completedOrder == CompletedAfter(old(completedOrder), entry)
      ensures entries == Held(old(entries), activeOrder, completedOrder)
    {
      if Terminal(entry.state) {
        MoveToCompleted(entry.guid);
      } else {
        MoveToActive(entry.guid);
      }
    }

    method PrepareGeneration(generation: nat) returns (current: bool)
      modifies this
      ensures current <==> generation >= old(currentGeneration)
      ensures Snapshot() == if current then Prepared(old(Snapshot()), generation) else old(Snapshot())
    {
      if generation < currentGeneration {
        return false;
      }
      if generation > currentGeneration {
        currentGeneration := generation;
        projection := DEFAULT_INFO;
        entries, activeOrder, completedOrder := map[], [], [];
      }
      current := true;
    }

    method MoveToActive(guid: string)
      requires NoDuplicates(activeOrder)
      requires forall g :: g in entries <==> g in activeOrder || g in completedOrder || g == guid
      modifies this`activeOrder, this`completedOrder, this`entries
      ensures activeOrder == Newest(Touched(old(activeOrder), guid), ACTIVE_LIMIT)
      ensures completedOrder == Without(old(completedOrder), guid)
      ensures entries == Held(old(entries), activeOrder, completedOrder)
    {
      TouchedOf(activeOrder, guid);
      WithoutMembers(activeOrder, guid);
      WithoutMembers(completedOrder, guid);
      activeOrder := Without(activeOrder, guid);
      completedOrder := Without(completedOrder, guid);
      activeOrder := activeOrder + [guid];
      activeOrder, entries := TrimDownloadOrder(activeOrder, ACTIVE_LIMIT, completedOrder, entries);
    }

    method MoveToCompleted(guid: string)
      requires NoDuplicates(completedOrder)
      requires forall g :: g in entries <==> g in activeOrder || g in completedOrder || g == guid
      modifies this`activeOrder, this`completedOrder, this`entries
      ensures activeOrder == Without(old(activeOrder), guid)
      ensures completedOrder == Newest(Touched(old(completedOrder), guid), COMPLETED_LIMIT)
      ensures entries == Held(old(entries), activeOrder, completedOrder)
    {
      TouchedOf(completedOrder, guid);
      WithoutMembers(activeOrder, guid);
      WithoutMembers(completedOrder, guid);
      activeOrder := Without(activeOrder, guid);
      completedOrder := Without(completedOrder, guid);
      completedOrder := completedOrder + [guid];
      completedOrder, entries := TrimDownloadOrder(completedOrder, COMPLETED_LIMIT, activeOrder, entries);
    }

    method RefreshProjectionLists()
      modifies this`projection
      ensures projection == old(projection).(activeDownloads := LookedUp(activeOrder, entries),
                                             completedDownloads := LookedUp(completedOrder, entries))
    {
      var activeDownloads := FilterMap(activeOrder, entries);
      var completedDownloads := FilterMap(completedOrder, entries);
      projection := projection.(activeDownloads := activeDownloads, completedDownloads := completedDownloads);
    }
  }

  method FilterMap(order: seq<string>, entries: map<string, Entry>) returns (found: seq<Entry>)
    ensures found == LookedUp(order, entries)
  {
    found := [];
    for i := 0 to |order|
      invariant found == LookedUp(order[..i], entries)
    {
      assert order[..i + 1][..i] == order[..i];
      if order[i] in entries {
        found := found + [entries[order[i]]];
      }
    }
    assert order[..|order|] == order;
  }

  /** `trim_download_order`: pop the oldest while the queue is too long, and forget what no queue holds. */
  method TrimDownloadOrder(order: seq<string>, limit: nat, retainedElsewhere: seq<string>, entries: map<string, Entry>)
    returns (trimmed: seq<string>, kept: map<string, Entry>)
    requires NoDuplicates(order)
    requires forall g :: g in entries <==> g in order || g in retainedElsewhere
    ensures trimmed == Newest(order, limit)
    ensures kept == Held(entries, trimmed, retainedElsewhere)
  {
    trimmed, kept := order, entries;
    ghost var popped := 0;
    assert order[0..] == order;
    while |trimmed| > limit
      invariant 0 <= popped <= |order| && trimmed == order[popped..]
      invariant popped > 0 ==> |trimmed| >= limit
      invariant kept == Held(entries, trimmed, retainedElsewhere)
      decreases |trimmed|
    {
      var oldest := trimmed[0];
      trimmed := trimmed[1..];
      popped := popped + 1;
      if oldest !in retainedElsewhere {
        kept := kept - {oldest};
      }
    }
  }

  lemma QueuesCover(s: State, e: Entry)
    requires QueuesFit(s)
    ensures forall g :: g in s.entries[e.guid := e] <==> g in s.active || g in s.completed || g == e.guid
  {
  }
}
