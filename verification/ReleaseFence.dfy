/**
 * Publishers racing with the authority-release flag (dialogs.rs, downloads.rs), as interleaved steps over one
 * shared value behind one write lock: check the flag, take the lock, check again, write, check again, call back.
 */
module ReleaseFence {
  import opened Collections

  /** Where a publisher stands; `Checking(n)` has that many flag checks to go before it asks for the lock. */
  datatype Pc = Checking(left: nat) | Waiting | Locked | Writing | Written | Calling | Done(published: bool)

  /** A publisher that is not fenced (a hook install, say) ignores the flag. */
  datatype Publisher<!S> = Publisher(fenced: bool, write: S -> S, pc: Pc)

  datatype Mark = Wrote(who: nat) | Called(who: nat)

  datatype World<!S> = World(
    shared: S, releasing: bool, lock: Option<nat>, publishers: seq<Publisher<S>>, log: seq<Mark>)

  datatype Act = SetFlag | ClearFlag | Move(who: nat)

  // ---------- steps ----------

  ghost predicate Stopped<S>(w: World<S>, i: nat)
    requires i < |w.publishers|
  {
    w.publishers[i].fenced && w.releasing
  }

  ghost function At<S>(w: World<S>, i: nat, pc: Pc): World<S>
    requires i < |w.publishers|
  {
    w.(publishers := w.publishers[i := w.publishers[i].(pc := pc)])
  }

  /** One atomic step of publisher `i`; a step that must wait changes nothing. */
  ghost function Moved<S>(w: World<S>, i: nat): World<S>
    requires i < |w.publishers|
  {
    match w.publishers[i].pc
    case Checking(n) =>
      if Stopped(w, i) then At(w, i, Done(false)) else if n <= 1 then At(w, i, Waiting) else At(w, i, Checking(n - 1))
    case Waiting =>
      if w.lock.Some? then w else At(w, i, Locked).(lock := Some(i))
    case Locked =>
      if Stopped(w, i) then At(w, i, Done(false)).(lock := None) else At(w, i, Writing)
    case Writing =>
      At(w, i, Written).(shared := w.publishers[i].write(w.shared), lock := None, log := w.log + [Wrote(i)])
    case Written =>
      if Stopped(w, i) then At(w, i, Done(false)) else At(w, i, Calling)
    case Calling =>
      At(w, i, Done(true)).(log := w.log + [Called(i)])
    case Done(_) => w
  }

  ghost function Next<S>(w: World<S>, act: Act): World<S> {
    match act
    case SetFlag => w.(releasing := true)
    case ClearFlag => w.(releasing := false)
    case Move(i) => if i < |w.publishers| then Moved(w, i) else w
  }

  ghost function Run<S>(w: World<S>, acts: seq<Act>): World<S> {
    if acts == [] then w else Next(Run(w, acts[..|acts| - 1]), acts[|acts| - 1])
  }

  /** Nothing has happened yet. */
  ghost predicate Initial<S>(w: World<S>) {
    w.lock == None && w.log == [] && forall i :: 0 <= i < |w.publishers| ==> w.publishers[i].pc.Checking?
  }

  // ---------- what every publisher keeps ----------

  ghost predicate Once(log: seq<Mark>, m: Mark) {
    forall j, k :: 0 <= j < k < |log| ==> !(log[j] == m && log[k] == m)
  }

  ghost predicate CallsAfterWrites(log: seq<Mark>, i: nat) {
    forall k :: 0 <= k < |log| && log[k] == Called(i) ==> Wrote(i) in log[..k]
  }

  ghost predicate LogFits(pc: Pc, log: seq<Mark>, i: nat) {
    && (pc.Checking? || pc.Waiting? || pc.Locked? || pc.Writing? ==> Wrote(i) !in log)
    && (pc.Written? || pc.Calling? || pc == Done(true) ==> Wrote(i) in log)
    && (pc == Done(true) <==> Called(i) in log)
    && Once(log, Wrote(i)) && Once(log, Called(i)) && CallsAfterWrites(log, i)
  }

  ghost predicate Fits<S>(w: World<S>, i: nat) {
    && i < |w.publishers|
    && (w.lock == Some(i) <==> w.publishers[i].pc.Locked? || w.publishers[i].pc.Writing?)
    && LogFits(w.publishers[i].pc, w.log, i)
  }

  lemma MarkByOther(pc: Pc, log: seq<Mark>, i: nat, m: Mark)
    requires LogFits(pc, log, i) && m.who != i
    ensures LogFits(pc, log + [m], i)
  {
    assert forall k :: 0 <= k <= |log| ==> (log + [m])[..k] == log[..k];
  }

  lemma MarkWrite(log: seq<Mark>, i: nat)
    requires LogFits(Writing, log, i)
    ensures LogFits(Written, log + [Wrote(i)], i)
  {
    assert forall k :: 0 <= k <= |log| ==> (log + [Wrote(i)])[..k] == log[..k];
  }

  lemma MarkCall(log: seq<Mark>, i: nat)
    requires LogFits(Calling, log, i)
    ensures LogFits(Done(true), log + [Called(i)], i)
  {
    var log' := log + [Called(i)];
    assert forall k :: 0 <= k <= |log| ==> log'[..k] == log[..k];
    assert log'[|log|] == Called(i);
  }

  lemma OwnStepFits<S>(w: World<S>, i: nat)
    requires Fits(w, i)
    ensures Fits(Moved(w, i), i)
  {
    var pc := w.publishers[i].pc;
    if pc.Writing? {
      MarkWrite(w.log, i);
    } else if pc.Calling? {
      MarkCall(w.log, i);
    }
  }

  lemma OtherStepFits<S>(w: World<S>, i: nat, j: nat)
    requires Fits(w, i) && Fits(w, j) && i != j
    ensures Fits(Moved(w, j), i)
  {
    MarkByOther(w.publishers[i].pc, w.log, i, Wrote(j));
    MarkByOther(w.publishers[i].pc, w.log, i, Called(j));
  }

  ghost predicate AllFit<S>(w: World<S>) {
    forall i :: 0 <= i < |w.publishers| ==> Fits(w, i)
  }

  lemma StepFits<S>(w: World<S>, act: Act)
    requires AllFit(w)
    ensures AllFit(Next(w, act)) && |Next(w, act).publishers| == |w.publishers|
  {
    forall i | 0 <= i < |w.publishers|
      ensures Fits(Next(w, act), i)
    {
      assert Fits(w, i);
      if act.Move? && act.who < |w.publishers| {
        assert Fits(w, act.who);
        if i == act.who {
          OwnStepFits(w, i);
        } else {
          OtherStepFits(w, i, act.who);
        }
      }
    }
  }

  lemma {:induction false} RunFits<S>(w: World<S>, acts: seq<Act>)
    requires AllFit(w)
    ensures AllFit(Run(w, acts)) && |Run(w, acts).publishers| == |w.publishers|
    decreases |acts|
  {
    if acts != [] {
      RunFits(w, acts[..|acts| - 1]);
      StepFits(Run(w, acts[..|acts| - 1]), acts[|acts| - 1]);
    }
  }

  /** Over all interleavings a publisher writes at most once, calls back at most once, and only after its own write. */
  lemma CallbackFollowsWrite<S>(w: World<S>, acts: seq<Act>, i: nat)
    requires Initial(w) && i < |w.publishers|
    ensures var log := Run(w, acts).log;
            Once(log, Wrote(i)) && Once(log, Called(i)) && CallsAfterWrites(log, i)
    ensures i < |Run(w, acts).publishers|
    ensures Run(w, acts).publishers[i].pc == Done(true) <==> Called(i) in Run(w, acts).log
  {
    InitialFits(w);
    RunFits(w, acts);
    assert Fits(Run(w, acts), i);
  }

  lemma InitialFits<S>(w: World<S>)
    requires Initial(w)
    ensures AllFit(w)
  {
  }

  // ---------- the fence ----------

  ghost predicate NeverCleared(acts: seq<Act>) {
    forall k :: 0 <= k < |acts| ==> acts[k] != ClearFlag
  }

  /** A fenced publisher that, with the flag set, can neither write nor call any more. */
  predicate Harmless(pc: Pc) {
    !pc.Writing? && !pc.Calling?
  }

  ghost predicate Untouched<S>(before: World<S>, after: World<S>, i: nat) {
    (Wrote(i) in after.log ==> Wrote(i) in before.log) && (Called(i) in after.log ==> Called(i) in before.log)
  }

  /** What a set flag means for a fenced publisher, from `w` on. */
  ghost predicate Fenced<S>(w: World<S>, v: World<S>, i: nat)
    requires i < |w.publishers|
  {
    && v.releasing && i < |v.publishers| && v.publishers[i].fenced
    && (Harmless(w.publishers[i].pc) ==> Harmless(v.publishers[i].pc) && Untouched(w, v, i))
    && (w.publishers[i].pc.Writing? ==> v.publishers[i].pc.Writing? || Harmless(v.publishers[i].pc))
    && (w.publishers[i].pc.Writing? && Called(i) in v.log ==> Called(i) in w.log)
    && (w.publishers[i].pc.Calling? && Wrote(i) in v.log ==> Wrote(i) in w.log)
    && (w.publishers[i].pc.Calling? ==> v.publishers[i].pc.Calling? || v.publishers[i].pc.Done?)
  }

  lemma FenceStep<S>(w: World<S>, v: World<S>, act: Act, i: nat)
    requires i < |w.publishers| && Fenced(w, v, i) && act != ClearFlag
    ensures Fenced(w, Next(v, act), i)
  {
    if act.Move? && act.who < |v.publishers| {
      var j := act.who;
      assert forall m :: m in Next(v, act).log ==> m in v.log || m == Wrote(j) || m == Called(j);
    }
  }

  lemma {:induction false} FenceRun<S>(w: World<S>, acts: seq<Act>, i: nat)
    requires w.releasing && i < |w.publishers| && w.publishers[i].fenced && NeverCleared(acts)
    ensures Fenced(w, Run(w, acts), i)
    decreases |acts|
  {
    if acts != [] {
      assert NeverCleared(acts[..|acts| - 1]);
      FenceRun(w, acts[..|acts| - 1], i);
      FenceStep(w, Run(w, acts[..|acts| - 1]), acts[|acts| - 1], i);
    }
  }

  /**
   * The release fence. Once the flag is set and as long as it stays set: a fenced publisher writes only if it
   * had already rechecked the flag under the lock, and calls back only if it had already passed its last check.
   * In particular one that gets the lock later does neither.
   */
  lemma FenceHolds<S>(w: World<S>, acts: seq<Act>, i: nat)
    requires w.releasing && i < |w.publishers| && w.publishers[i].fenced && NeverCleared(acts)
    ensures Wrote(i) in Run(w, acts).log && Wrote(i) !in w.log ==> w.publishers[i].pc.Writing?
    ensures Called(i) in Run(w, acts).log && Called(i) !in w.log ==> w.publishers[i].pc.Calling?
  {
    FenceRun(w, acts, i);
  }

  /** At most one publisher is past the recheck: the holder of the lock. */
  lemma OneWriter<S>(w: World<S>, i: nat, j: nat)
    requires AllFit(w) && i < |w.publishers| && j < |w.publishers|
    requires w.publishers[i].pc.Writing? && w.publishers[j].pc.Writing?
    ensures i == j && w.lock == Some(i)
  {
    assert Fits(w, i) && Fits(w, j);
  }

  // ---------- the shared value ----------

  ghost function Replayed<S>(publishers: seq<Publisher<S>>, log: seq<Mark>, start: S): S {
    if log == [] then start
    else
      var front, last := Replayed(publishers, log[..|log| - 1], start), log[|log| - 1];
      if last.Wrote? && last.who < |publishers| then publishers[last.who].write(front) else front
  }

  ghost predicate SameWrites<S>(a: seq<Publisher<S>>, b: seq<Publisher<S>>) {
    |a| == |b| && forall i :: 0 <= i < |a| ==> a[i].write == b[i].write
  }

  lemma ReplayedNext<S>(publishers: seq<Publisher<S>>, log: seq<Mark>, m: Mark, start: S)
    ensures var front := Replayed(publishers, log, start);
            Replayed(publishers, log + [m], start) ==
            if m.Wrote? && m.who < |publishers| then publishers[m.who].write(front) else front
  {
    assert (log + [m])[..|log|] == log;
  }

  lemma MovedWrites<S>(v: World<S>, i: nat)
    requires i < |v.publishers|
    ensures SameWrites(v.publishers, Moved(v, i).publishers)
  {
  }

  lemma QuietMove<S>(v: World<S>, i: nat)
    requires i < |v.publishers| && !v.publishers[i].pc.Writing? && !v.publishers[i].pc.Calling?
    ensures Moved(v, i).log == v.log && Moved(v, i).shared == v.shared
  {
  }

  lemma WriteMove<S>(v: World<S>, i: nat)
    requires i < |v.publishers| && v.publishers[i].pc.Writing?
    ensures Moved(v, i).log == v.log + [Wrote(i)] && Moved(v, i).shared == v.publishers[i].write(v.shared)
  {
  }

  lemma CallMove<S>(v: World<S>, i: nat)
    requires i < |v.publishers| && v.publishers[i].pc.Calling?
    ensures Moved(v, i).log == v.log + [Called(i)] && Moved(v, i).shared == v.shared
  {
  }

  lemma MoveReplays<S>(publishers: seq<Publisher<S>>, start: S, v: World<S>, i: nat)
    requires SameWrites(publishers, v.publishers) && v.shared == Replayed(publishers, v.log, start)
    requires i < |v.publishers|
    ensures Moved(v, i).shared == Replayed(publishers, Moved(v, i).log, start)
  {
    if v.publishers[i].pc.Writing? {
      WriteMove(v, i);
      ReplayedNext(publishers, v.log, Wrote(i), start);
    } else if v.publishers[i].pc.Calling? {
      CallMove(v, i);
      ReplayedNext(publishers, v.log, Called(i), start);
    } else {
      QuietMove(v, i);
    }
  }

  lemma StepReplays<S>(publishers: seq<Publisher<S>>, start: S, v: World<S>, act: Act)
    requires SameWrites(publishers, v.publishers) && v.shared == Replayed(publishers, v.log, start)
    ensures SameWrites(publishers, Next(v, act).publishers)
    ensures Next(v, act).shared == Replayed(publishers, Next(v, act).log, start)
  {
    if act.Move? && act.who < |v.publishers| {
      MovedWrites(v, act.who);
      MoveReplays(publishers, start, v, act.who);
    }
  }

  /** Linearizability: the shared value is what the committed writes give one after the other, in log order. */
  lemma {:induction false} Linearizes<S>(w: World<S>, acts: seq<Act>)
    requires w.log == []
    ensures SameWrites(w.publishers, Run(w, acts).publishers)
    ensures Run(w, acts).shared == Replayed(w.publishers, Run(w, acts).log, w.shared)
    decreases |acts|
  {
    if acts != [] {
      Linearizes(w, acts[..|acts| - 1]);
      StepReplays(w.publishers, w.shared, Run(w, acts[..|acts| - 1]), acts[|acts| - 1]);
    }
  }

  /** What every write keeps, every interleaving keeps. */
  lemma {:induction false} InvariantReplayed<S>(publishers: seq<Publisher<S>>, log: seq<Mark>, start: S, inv: S -> bool)
    requires inv(start)
    requires forall i, s :: 0 <= i < |publishers| && inv(s) ==> inv(publishers[i].write(s))
    ensures inv(Replayed(publishers, log, start))
    decreases |log|
  {
    if log != [] {
      InvariantReplayed(publishers, log[..|log| - 1], start, inv);
    }
  }

  lemma InvariantUnderInterleaving<S>(w: World<S>, acts: seq<Act>, inv: S -> bool)
    requires w.log == [] && inv(w.shared)
    requires forall i, s :: 0 <= i < |w.publishers| && inv(s) ==> inv(w.publishers[i].write(s))
    ensures inv(Run(w, acts).shared)
  {
    Linearizes(w, acts);
    InvariantReplayed(w.publishers, Run(w, acts).log, w.shared, inv);
  }

  ghost predicate IsWriting<S>(w: World<S>, i: int) {
    0 <= i < |w.publishers| && w.publishers[i].pc.Writing?
  }

  ghost predicate OneWriteAtMost<S>(w: World<S>, v: World<S>) {
    || (v.shared == w.shared && forall i :: IsWriting(v, i) ==> IsWriting(w, i))
    || ((exists h :: IsWriting(w, h) && v.shared == w.publishers[h].write(w.shared)) && forall i :: !IsWriting(v, i))
  }

  lemma ReleaseStep<S>(w: World<S>, v: World<S>, act: Act)
    requires AllFit(v) && v.releasing && act != ClearFlag && OneWriteAtMost(w, v)
    requires SameWrites(w.publishers, v.publishers)
    requires forall i :: 0 <= i < |v.publishers| ==> v.publishers[i].fenced
    ensures OneWriteAtMost(w, Next(v, act))
  {
    if act.Move? && act.who < |v.publishers| {
      var i := act.who;
      if IsWriting(v, i) {
        forall j | IsWriting(v, j)
          ensures j == i
        {
          OneWriter(v, i, j);
        }
        assert forall j :: IsWriting(Next(v, act), j) ==> IsWriting(v, j) && j != i;
        assert IsWriting(w, i);
      } else {
        assert forall j :: IsWriting(Next(v, act), j) <==> IsWriting(v, j);
      }
    } else {
      assert forall j :: IsWriting(Next(v, act), j) <==> IsWriting(v, j);
    }
  }

  ghost predicate AllFenced<S>(w: World<S>) {
    forall i :: 0 <= i < |w.publishers| ==> w.publishers[i].fenced
  }

  /** When every publisher is fenced, a set flag lets at most one more write through: that of the lock's holder. */
  lemma {:induction false} ReleaseLetsOneWriteThrough<S>(w: World<S>, acts: seq<Act>)
    requires AllFit(w) && AllFenced(w) && w.releasing && NeverCleared(acts)
    ensures var v := Run(w, acts);
            OneWriteAtMost(w, v) && v.releasing && AllFenced(v) && SameWrites(w.publishers, v.publishers)
    decreases |acts|
  {
    if acts != [] {
      var front := acts[..|acts| - 1];
      assert NeverCleared(front);
      ReleaseLetsOneWriteThrough(w, front);
      RunFits(w, front);
      ReleaseStep(w, Run(w, front), acts[|acts| - 1]);
    }
  }
}
