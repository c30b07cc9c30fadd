/** Parent walks over the frame tree, cyclic or not (frame_runtime.rs). */
module Frames {
  import opened Collections

  type Parents = map<string, Option<string>>

  function Parent(parents: Parents, frame: string): Option<string> {
    if frame in parents then parents[frame] else None
  }

  function Members(path: seq<string>): set<string> {
    set f | f in path
  }

  // ---------- meaning ----------

  /** Each frame is followed by its parent. */
  ghost predicate Climbs(parents: Parents, path: seq<string>) {
    forall i :: 0 <= i < |path| - 1 ==> path[i] in parents && parents[path[i]] == Some(path[i + 1])
  }

  /** The climb cannot go on without repeating a frame. */
  ghost predicate Complete(parents: Parents, path: seq<string>)
    requires path != []
  {
    var last := path[|path| - 1];
    last !in parents || parents[last] == None || parents[last].value in path
  }

  ghost predicate IsLineage(parents: Parents, frame: string, path: seq<string>) {
    path != [] && path[0] == frame && NoDuplicates(path) && Climbs(parents, path) && Complete(parents, path)
  }

  /** There is only one lineage, so the walk cannot do anything else. */
  lemma {:induction false} LineageIsUnique(parents: Parents, frame: string, a: seq<string>, b: seq<string>, n: nat)
    requires IsLineage(parents, frame, a) && IsLineage(parents, frame, b)
    requires n <= |a|
    ensures n <= |b| && a[..n] == b[..n]
    decreases n
  {
    if n > 0 {
      LineageIsUnique(parents, frame, a, b, n - 1);
      if n > 1 {
        var k := n - 2;
        assert a[..n - 1][k] == b[..n - 1][k];
        assert Parent(parents, a[k]) == Some(a[k + 1]);
        assert a[k + 1] !in a[..n - 1];
        TakeAll(b, n - 1);
        assert Parent(parents, b[k]) == Some(b[k + 1]);
      }
      assert a[..n] == a[..n - 1] + [a[n - 1]] && b[..n] == b[..n - 1] + [b[n - 1]];
    }
  }

  lemma TakeAll(path: seq<string>, n: nat)
    requires n <= |path|
    ensures n == |path| ==> path[..n] == path
  {
  }

  lemma OneLineage(parents: Parents, frame: string, a: seq<string>, b: seq<string>)
    requires IsLineage(parents, frame, a) && IsLineage(parents, frame, b)
    ensures a == b
  {
    LineageIsUnique(parents, frame, a, b, |a|);
    LineageIsUnique(parents, frame, b, a, |b|);
    assert a[..|a|] == a && b[..|b|] == b;
  }

  // ---------- the walk ----------

  /** Climb on from a path. */
  function Walk(parents: Parents, path: seq<string>): (r: seq<string>)
    requires path != [] && NoDuplicates(path)
    ensures path <= r
    decreases parents.Keys - Members(path[..|path| - 1])
  {
    var last := path[|path| - 1];
    match Parent(parents, last)
    case None => path
    case Some(p) =>
      if p in path then path
      else
        WalkDecreases(parents, path, p);
        Walk(parents, path + [p])
  }

  lemma WalkDecreases(parents: Parents, path: seq<string>, p: string)
    requires path != [] && NoDuplicates(path) && path[|path| - 1] in parents && p !in path
    ensures NoDuplicates(path + [p])
    ensures parents.Keys - Members((path + [p])[..|path + [p]| - 1]) < parents.Keys - Members(path[..|path| - 1])
  {
    var last := path[|path| - 1];
    assert (path + [p])[..|path + [p]| - 1] == path;
    assert last in Members(path) && last !in path[..|path| - 1];
    assert forall f :: f in path[..|path| - 1] ==> f in path;
  }

  function Lineage(parents: Parents, frame: string): seq<string> {
    Walk(parents, [frame])
  }

  lemma {:induction false} WalkIsLineage(parents: Parents, frame: string, path: seq<string>)
    requires path != [] && path[0] == frame && NoDuplicates(path) && Climbs(parents, path)
    ensures IsLineage(parents, frame, Walk(parents, path))
    decreases parents.Keys - Members(path[..|path| - 1])
  {
    var top := Parent(parents, path[|path| - 1]);
    if top.Some? && top.value !in path {
      WalkDecreases(parents, path, top.value);
      WalkIsLineage(parents, frame, path + [top.value]);
    }
  }

  /** The lineage of every frame of every parent map, cyclic or not. */
  lemma LineageMeans(parents: Parents, frame: string, path: seq<string>)
    ensures path == Lineage(parents, frame) <==> IsLineage(parents, frame, path)
  {
    WalkIsLineage(parents, frame, [frame]);
    if IsLineage(parents, frame, path) {
      OneLineage(parents, frame, path, Lineage(parents, frame));
    }
  }

  /** `collect_frame_lineage` over a parent map. */
  method CollectFrameLineage(frame: string, parents: Parents) returns (lineage: seq<string>)
    ensures IsLineage(parents, frame, lineage)
  {
    lineage := [];
    var current := Some(frame);
    while current.Some?
      invariant NoDuplicates(lineage) && Climbs(parents, lineage)
      invariant lineage == [] ==> current == Some(frame)
      invariant lineage != [] ==> lineage[0] == frame && current == Parent(parents, lineage[|lineage| - 1])
      decreases parents.Keys - Members(lineage), if current.Some? then 1 else 0
    {
      var frameId := current.value;
      if frameId in lineage {
        break;
      }
      ghost var before := lineage;
      current := Parent(parents, frameId);
      lineage := lineage + [frameId];
      assert Members(lineage) == Members(before) + {frameId};
    }
  }

  // ---------- depth ----------

  function IndexOf(path: seq<string>, f: string): (i: nat)
    requires f in path
    ensures i < |path| && path[i] == f && forall k :: 0 <= k < i ==> path[k] != f
  {
    if path[0] == f then 0
    else
      assert path == [path[0]] + path[1..];
      IndexOf(path[1..], f) + 1
  }

  /**
   * The depth of a frame: its distance to the main frame if that is among its ancestors; else the number of
   * parent links of an open chain, and one more for a chain that runs into a cycle.
   */
  function Depth(parents: Parents, main: string, frame: string): nat {
    var path := Lineage(parents, frame);
    if main in path then IndexOf(path, main)
    else if Parent(parents, path[|path| - 1]).Some? then |path|
    else |path| - 1
  }

  /** With a main frame that has no parent, depth is lineage length less one, and lineage length on cyclic chains. */
  lemma DepthFromLineage(parents: Parents, main: string, frame: string)
    requires Parent(parents, main).None?
    ensures var path := Lineage(parents, frame);
            Depth(parents, main, frame) == if Parent(parents, path[|path| - 1]).Some? then |path| else |path| - 1
  {
    var path := Lineage(parents, frame);
    LineageMeans(parents, frame, path);
    forall k | 0 <= k < |path| - 1
      ensures Parent(parents, path[k]).Some?
    {
      assert Parent(parents, path[k]) == Some(path[k + 1]);
    }
  }

  /** The walk from `frame` has got as far as `path` and has not met the main frame. */
  ghost predicate Walking(parents: Parents, frame: string, main: string, path: seq<string>) {
    && path != [] && path[0] == frame && NoDuplicates(path) && Climbs(parents, path) && main !in path
    && Walk(parents, path) == Lineage(parents, frame)
  }

  lemma WalkingNext(parents: Parents, frame: string, main: string, path: seq<string>, parent: string)
    requires Walking(parents, frame, main, path) && Parent(parents, path[|path| - 1]) == Some(parent)
    requires parent !in path && parent != main
    ensures Walking(parents, frame, main, path + [parent]) && (path + [parent])[..|path|] == path
    ensures parents.Keys - Members(path) < parents.Keys - Members(path[..|path| - 1])
  {
    WalkDecreases(parents, path, parent);
    assert (path + [parent])[..|path|] == path;
  }

  lemma MembersSnoc(path: seq<string>)
    requires path != []
    ensures Members(path) == Members(path[..|path| - 1]) + {path[|path| - 1]}
  {
    assert path == path[..|path| - 1] + [path[|path| - 1]];
  }

  /** The loop of `frame_depth`, for a frame other than the main one. */
  method MeasureDepth(frame: string, main: string, parents: Parents) returns (depth: nat)
    requires frame != main
    ensures depth == Depth(parents, main, frame)
  {
    var seen: set<string> := {};
    var current := frame;
    depth := 0;
    ghost var path := [frame];
    WalkIsLineage(parents, frame, [frame]);
    while Parent(parents, current).Some?
      invariant Walking(parents, frame, main, path)
      invariant current !in seen ==>
                  current == path[|path| - 1] && depth == |path| - 1 && seen == Members(path[..|path| - 1])
      invariant current in seen ==>
                  Parent(parents, path[|path| - 1]) == Some(current) && depth == |path| && seen == Members(path)
                  && forall f :: f in path ==> Parent(parents, f).Some?
      decreases parents.Keys - seen, if current in seen then 0 else 1
    {
      var parent := Parent(parents, current).value;
      if current in seen {
        break;
      }
      seen := seen + {current};
      MembersSnoc(path);
      depth := depth + 1;
      if parent == main {
        ReachesMain(parents, path, main);
        break;
      }
      current := parent;
      if parent !in path {
        WalkingNext(parents, frame, main, path, parent);
        path := path + [parent];
      } else {
        AllHaveParents(parents, path);
      }
    }
  }

  lemma AllHaveParents(parents: Parents, path: seq<string>)
    requires path != [] && Climbs(parents, path) && Parent(parents, path[|path| - 1]).Some?
    ensures forall f :: f in path ==> Parent(parents, f).Some?
  {
    forall f | f in path
      ensures Parent(parents, f).Some?
    {
      var i :| 0 <= i < |path| && path[i] == f;
      if i < |path| - 1 {
        assert Parent(parents, path[i]) == Some(path[i + 1]);
      }
    }
  }

  lemma ReachesMain(parents: Parents, path: seq<string>, main: string)
    requires path != [] && NoDuplicates(path) && main !in path
    requires Parent(parents, path[|path| - 1]) == Some(main)
    ensures main in Walk(parents, path) && IndexOf(Walk(parents, path), main) == |path|
  {
    WalkDecreases(parents, path, main);
    var r := Walk(parents, path);
    assert path + [main] <= r;
    assert r[|path|] == main;
    assert forall k :: 0 <= k < |path| ==> r[k] == path[k] && r[k] != main;
  }

  ghost predicate CacheAgrees(cache: map<string, nat>, parents: Parents, main: string) {
    forall f :: f in cache ==> cache[f] == Depth(parents, main, f)
  }

  /**
   * `frame_depth` with its cache: a cache that agrees is returned agreeing, so that any order of calls gives
   * every frame its uncached depth.
   */
  method FrameDepth(frame: string, main: string, parents: Parents, cache: map<string, nat>)
    returns (depth: nat, cache': map<string, nat>)
    requires CacheAgrees(cache, parents, main)
    ensures depth == Depth(parents, main, frame)
    ensures CacheAgrees(cache', parents, main) && frame in cache' && cache'.Keys == cache.Keys + {frame}
  {
    if frame in cache {
      return cache[frame], cache;
    }
    if frame == main {
      LineageMeans(parents, frame, Lineage(parents, frame));
      assert IndexOf(Lineage(parents, frame), main) == 0;
      return 0, cache[frame := 0];
    }
    depth := MeasureDepth(frame, main, parents);
    cache' := cache[frame := depth];
  }

  /** Depths for a whole inventory, in any order, through one shared cache. */
  method FrameDepths(frames: seq<string>, main: string, parents: Parents) returns (depths: seq<nat>)
    ensures |depths| == |frames| && forall i :: 0 <= i < |frames| ==> depths[i] == Depth(parents, main, frames[i])
  {
    depths := [];
    var cache: map<string, nat> := map[];
    for i := 0 to |frames|
      invariant |depths| == i && CacheAgrees(cache, parents, main)
      invariant forall k :: 0 <= k < i ==> depths[k] == Depth(parents, main, frames[k])
    {
      var depth: nat;
      depth, cache := FrameDepth(frames[i], main, parents, cache);
      depths := depths + [depth];
    }
  }
}
