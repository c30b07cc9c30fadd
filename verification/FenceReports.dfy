/** What a publisher's report means: when `false` stands for no write, and how far the release fence reaches. */
module FenceReports {
  import opened ReleaseFence

  lemma RunNext<S>(w: World<S>, acts: seq<Act>, act: Act)
    ensures Run(w, acts + [act]) == Next(Run(w, acts), act)
  {
    assert (acts + [act])[..|acts|] == acts;
  }

  lemma {:induction false} RunConcat<S>(w: World<S>, a: seq<Act>, b: seq<Act>)
    ensures Run(w, a + b) == Run(Run(w, a), b)
    decreases |b|
  {
    if b == [] {
      assert a + b == a;
    } else {
      var n := |b| - 1;
      assert a + b == a + b[..n] + [b[n]];
      RunConcat(w, a, b[..n]);
      RunNext(w, a + b[..n], b[n]);
    }
  }

  /** Only its own moves change where a publisher stands and what it has marked. */
  lemma OtherActKeeps<S>(v: World<S>, act: Act, i: nat)
    requires i < |v.publishers| && act != Move(i)
    ensures |Next(v, act).publishers| == |v.publishers| && Next(v, act).publishers[i] == v.publishers[i]
    ensures Wrote(i) in Next(v, act).log <==> Wrote(i) in v.log
  {
  }

  /** A publisher gives up only where it checks the flag, finding it set. */
  lemma GivesUpAtCheck<S>(v: World<S>, i: nat)
    requires Fits(v, i) && v.publishers[i].pc != Done(false) && Moved(v, i).publishers[i].pc == Done(false)
    ensures Stopped(v, i) && (v.publishers[i].pc.Checking? || v.publishers[i].pc.Locked? || v.publishers[i].pc.Written?)
    ensures Moved(v, i).log == v.log && (Wrote(i) in v.log <==> v.publishers[i].pc.Written?)
  {
  }

  ghost predicate GaveUp<S>(w: World<S>, i: nat) {
    i < |w.publishers| && w.publishers[i].pc == Done(false)
  }

  /** In world `v` publisher `i` meets the set flag, at a check before its write or at the one after it. */
  ghost predicate MeetsFlag<S>(v: World<S>, i: nat) {
    i < |v.publishers| && Stopped(v, i) &&
    (v.publishers[i].pc.Checking? || v.publishers[i].pc.Locked? || v.publishers[i].pc.Written?)
  }

  /**
   * A publisher that reports `false` met the set flag at one of its checks, and its write was committed exactly
   * when that was the check after the write.
   */
  lemma {:induction false} FalseIff<S>(w: World<S>, acts: seq<Act>, i: nat) returns (k: nat)
    requires Initial(w) && GaveUp(Run(w, acts), i)
    ensures k < |acts| && acts[k] == Move(i) && MeetsFlag(Run(w, acts[..k]), i)
    ensures Wrote(i) in Run(w, acts).log <==> Run(w, acts[..k]).publishers[i].pc.Written?
    decreases |acts|
  {
    assert acts != [];
    var n := |acts| - 1;
    var front, last := acts[..n], acts[n];
    InitialFits(w);
    RunFits(w, front);
    RunFits(w, acts);
    if GaveUp(Run(w, front), i) {
      k := FalseIff(w, front, i);
      assert front[..k] == acts[..k];
      GivenUpKeeps(Run(w, front), last, i);
    } else {
      k := n;
      assert Fits(Run(w, front), i);
      if last == Move(i) {
        GivesUpAtCheck(Run(w, front), i);
      } else {
        OtherActKeeps(Run(w, front), last, i);
        assert false;
      }
    }
  }

  lemma GivenUpKeeps<S>(v: World<S>, act: Act, i: nat)
    requires GaveUp(v, i)
    ensures GaveUp(Next(v, act), i) && (Wrote(i) in Next(v, act).log <==> Wrote(i) in v.log)
  {
    if act != Move(i) {
      OtherActKeeps(v, act, i);
    }
  }

  ghost predicate NeverSet(acts: seq<Act>) {
    forall k :: 0 <= k < |acts| ==> acts[k] != SetFlag
  }

  lemma {:induction false} NotReleasing<S>(w: World<S>, acts: seq<Act>)
    requires !w.releasing && NeverSet(acts)
    ensures !Run(w, acts).releasing
    decreases |acts|
  {
    if acts != [] {
      assert NeverSet(acts[..|acts| - 1]);
      NotReleasing(w, acts[..|acts| - 1]);
    }
  }

  /** Past the recheck: about to write, or written. */
  ghost predicate Committing<S>(w: World<S>, i: nat) {
    i < |w.publishers| && (w.publishers[i].pc.Writing? || Wrote(i) in w.log)
  }

  /** Past the last check: about to call back, or finished. */
  ghost predicate Published<S>(w: World<S>, i: nat) {
    i < |w.publishers| && (w.publishers[i].pc.Calling? || w.publishers[i].pc == Done(true))
  }

  lemma StageKept<S>(v: World<S>, act: Act, i: nat)
    ensures Committing(v, i) ==> Committing(Next(v, act), i)
    ensures Published(v, i) ==> Published(Next(v, act), i)
    ensures i < |v.publishers| ==>
              i < |Next(v, act).publishers| && Next(v, act).publishers[i].fenced == v.publishers[i].fenced
  {
    if i < |v.publishers| && act != Move(i) {
      OtherActKeeps(v, act, i);
    }
  }

  lemma {:induction false} StageKeptInRun<S>(v: World<S>, acts: seq<Act>, i: nat)
    ensures Committing(v, i) ==> Committing(Run(v, acts), i)
    ensures Published(v, i) ==> Published(Run(v, acts), i)
    ensures i < |v.publishers| ==>
              i < |Run(v, acts).publishers| && Run(v, acts).publishers[i].fenced == v.publishers[i].fenced
    decreases |acts|
  {
    if acts != [] {
      StageKeptInRun(v, acts[..|acts| - 1], i);
      StageKept(Run(v, acts[..|acts| - 1]), acts[|acts| - 1], i);
    }
  }

  /**
   * With a flag that is set once and stays set, what a report of `false` means is decided when the flag is set: the
   * write is committed exactly when the publisher was past the recheck at that moment.
   */
  lemma FalseIffLate<S>(w: World<S>, before: seq<Act>, after: seq<Act>, i: nat)
    requires Initial(w) && !w.releasing && i < |w.publishers| && NeverSet(before) && NeverCleared(after)
    requires GaveUp(Run(w, before + [SetFlag] + after), i)
    ensures i < |Run(w, before).publishers|
    ensures Wrote(i) in Run(w, before + [SetFlag] + after).log <==>
            Run(w, before).publishers[i].pc.Writing? || Run(w, before).publishers[i].pc.Written?
  {
    var m := Run(w, before);
    var flagged := Next(m, SetFlag);
    RunNext(w, before, SetFlag);
    RunConcat(w, before + [SetFlag], after);
    InitialFits(w);
    RunFits(w, before);
    assert Fits(m, i);
    GivenUpIsFenced(w, before, after, i);
    NotYetGivenUp(w, before, i);
    StageKeptInRun(flagged, after, i);
    if Harmless(m.publishers[i].pc) && !Committing(m, i) {
      FenceRun(flagged, after, i);
    }
  }

  lemma NotYetGivenUp<S>(w: World<S>, before: seq<Act>, i: nat)
    requires Initial(w) && !w.releasing && NeverSet(before)
    ensures !GaveUp(Run(w, before), i)
  {
    if GaveUp(Run(w, before), i) {
      var k := FalseIff(w, before, i);
      assert NeverSet(before[..k]);
      NotReleasing(w, before[..k]);
      assert false;
    }
  }

  lemma GivenUpIsFenced<S>(w: World<S>, before: seq<Act>, after: seq<Act>, i: nat)
    requires Initial(w) && i < |w.publishers| && GaveUp(Run(w, before + [SetFlag] + after), i)
    ensures w.publishers[i].fenced
    ensures i < |Run(w, before).publishers| && Run(w, before).publishers[i].fenced
  {
    var acts := before + [SetFlag] + after;
    var k := FalseIff(w, acts, i);
    StageKeptInRun(w, acts[..k], i);
    StageKeptInRun(w, before, i);
  }

  // ---------- a report made straight after the write ----------

  lemma {:induction false} MarksStay<S>(v: World<S>, acts: seq<Act>, i: nat)
    ensures Wrote(i) in v.log ==> Wrote(i) in Run(v, acts).log
    ensures GaveUp(v, i) ==> GaveUp(Run(v, acts), i) && (Wrote(i) in Run(v, acts).log <==> Wrote(i) in v.log)
    decreases |acts|
  {
    if acts != [] {
      var front, last := acts[..|acts| - 1], acts[|acts| - 1];
      MarksStay(v, front, i);
      LogGrows(Run(v, front), last);
      if GaveUp(v, i) {
        GivenUpKeeps(Run(v, front), last, i);
      }
    }
  }

  lemma LogGrows<S>(v: World<S>, act: Act)
    ensures v.log <= Next(v, act).log
  {
  }

  /**
   * A recorder that reports `true` straight after its write, and leaves the last check to its caller, is exact: it
   * reports `false` only from a check before the write, and then the write never happens.
   */
  lemma RecorderIsExact<S>(w: World<S>, acts: seq<Act>, more: seq<Act>, i: nat)
    requires Initial(w) && i < |Run(w, acts).publishers|
    ensures Run(w, acts).publishers[i].pc.Writing? ==> Wrote(i) in Run(w, acts + [Move(i)] + more).log
    ensures MeetsFlag(Run(w, acts), i) && !Run(w, acts).publishers[i].pc.Written? ==>
              Wrote(i) !in Run(w, acts + [Move(i)] + more).log
  {
    var v := Run(w, acts);
    InitialFits(w);
    RunFits(w, acts);
    assert Fits(v, i);
    RunNext(w, acts, Move(i));
    RunConcat(w, acts + [Move(i)], more);
    MarksStay(Moved(v, i), more, i);
    if v.publishers[i].pc.Writing? {
      WriteMove(v, i);
    }
  }

  // ---------- two runs that show the limits ----------

  /** Nothing has happened yet, and publisher `i` has one flag check to go before it asks for the lock. */
  ghost predicate Ready<S>(w: World<S>, i: nat) {
    && Initial(w) && !w.releasing && i < |w.publishers|
    && w.publishers[i].fenced && w.publishers[i].pc == Checking(1)
  }

  lemma ReachesLock<S>(w: World<S>, i: nat)
    requires Ready(w, i)
    ensures var v := Run(w, [Move(i), Move(i)]);
            && v.shared == w.shared && v.log == [] && !v.releasing && i < |v.publishers|
            && v.publishers[i] == w.publishers[i].(pc := Locked)
  {
    TwoActs(w, Move(i), Move(i));
  }

  lemma TwoActs<S>(w: World<S>, a: Act, b: Act)
    ensures Run(w, [a, b]) == Next(Next(w, a), b)
  {
    RunNext(w, [], a);
    assert [] + [a] == [a];
    RunNext(w, [a], b);
    assert [a] + [b] == [a, b];
  }

  lemma WritesFromLock<S>(v: World<S>, i: nat)
    requires i < |v.publishers| && v.publishers[i].pc == Locked && !v.releasing
    ensures var u := Run(v, [Move(i), Move(i)]);
            && i < |u.publishers| && u.publishers[i] == v.publishers[i].(pc := Written)
            && u.log == v.log + [Wrote(i)] && u.shared == v.publishers[i].write(v.shared)
  {
    TwoActs(v, Move(i), Move(i));
  }

  lemma GivesUpAfterWrite<S>(v: World<S>, i: nat)
    requires i < |v.publishers| && v.publishers[i].pc == Written && v.publishers[i].fenced
    ensures var u := Run(v, [SetFlag, Move(i)]); GaveUp(u, i) && u.log == v.log && u.shared == v.shared
  {
    TwoActs(v, SetFlag, Move(i));
    var flagged := Next(v, SetFlag);
    assert Stopped(flagged, i);
    assert Next(flagged, Move(i)) == At(flagged, i, Done(false));
  }

  lemma SetThenCleared<S>(v: World<S>)
    ensures Run(v, [SetFlag, ClearFlag]) == v.(releasing := false)
  {
    TwoActs(v, SetFlag, ClearFlag);
  }

  /** `false` does not mean unchanged: a publisher may commit its write and only then find the flag set. */
  lemma FalseAfterCommit<S>(w: World<S>, i: nat)
    requires Ready(w, i)
    ensures var v := Run(w, [Move(i), Move(i)] + [Move(i), Move(i)] + [SetFlag, Move(i)]);
            GaveUp(v, i) && v.log == [Wrote(i)] && v.shared == w.publishers[i].write(w.shared)
  {
    var two := [Move(i), Move(i)];
    ReachesLock(w, i);
    RunConcat(w, two, two);
    WritesFromLock(Run(w, two), i);
    RunConcat(w, two + two, [SetFlag, Move(i)]);
    GivesUpAfterWrite(Run(w, two + two), i);
  }

  /** The fence is gone with the flag: a publisher that had the lock when the flag was set writes once it is cleared. */
  lemma ClearedFlagLetsWriteThrough<S>(w: World<S>, i: nat)
    requires Ready(w, i)
    ensures var v := Run(w, [Move(i), Move(i)] + [SetFlag]);
            v.releasing && i < |v.publishers| && v.publishers[i].pc == Locked && v.log == []
    ensures Run(w, [Move(i), Move(i)] + [SetFlag, ClearFlag] + [Move(i), Move(i)]).log == [Wrote(i)]
  {
    var two, flags := [Move(i), Move(i)], [SetFlag, ClearFlag];
    ReachesLock(w, i);
    RunNext(w, two, SetFlag);
    RunConcat(w, two, flags);
    SetThenCleared(Run(w, two));
    RunConcat(w, two + flags, two);
    WritesFromLock(Run(w, two + flags), i);
  }
}
