/** The dialog runtime and the one-shot intercept of dialogs.rs and browser.rs. */
module Dialogs {
  import opened Collections
  import Fence = ReleaseFence

  datatype Kind = Alert | Confirm | Prompt | Beforeunload

  datatype Pending = Pending(
    kind: Kind, message: string, url: string, tab: Option<string>, frameId: Option<string>,
    defaultPrompt: Option<string>, hasBrowserHandler: bool, openedAt: string)

  datatype Resolution = Resolution(accepted: bool, userInput: Option<string>, closedAt: string)

  datatype Status = Inactive | Active | Degraded

  /** What the runtime knows, without the published status. */
  datatype Facts = Facts(
    pending: Option<Pending>, last: Option<Pending>, lastResult: Option<Resolution>, reason: Option<string>)

  const NOTHING: Facts := Facts(None, None, None, None)

  /** The status is a function of the facts: degraded wins, else a pending dialog makes it active. */
  function StatusOf(f: Facts): Status {
    if f.reason.Some? then Degraded else if f.pending.Some? then Active else Inactive
  }

  datatype Write =
    | Opening(dialog: Pending)
    | Closing(accepted: bool, userInput: string, now: string)
    | InterceptFailing(error: string)
    | StaleClearing(live: set<string>)
    | HookInstalling(degraded: Option<string>)

  /** A pending dialog whose tab is known and gone. */
  predicate Lost(pending: Option<Pending>, live: set<string>) {
    pending.Some? && pending.value.tab.Some? && pending.value.tab.value !in live
  }

  function Applied(f: Facts, w: Write): Facts {
    match w
    case Opening(dialog) => f.(pending := Some(dialog), last := Some(dialog))
    case Closing(accepted, userInput, now) =>
      var input := if f.last.Some? && f.last.value.kind == Prompt then Some(userInput) else None;
      f.(pending := None, lastResult := Some(Resolution(accepted, input, now)))
    case InterceptFailing(error) => f.(reason := Some("dialog_intercept_handle_failed:" + error))
    case StaleClearing(live) =>
      if Lost(f.pending, live) then f.(pending := None, reason := Some("pending_dialog_target_lost")) else f
    case HookInstalling(degraded) => if degraded.Some? then f.(reason := degraded) else f
  }

  function Run(writes: seq<Write>): Facts {
    if writes == [] then NOTHING else Applied(Run(writes[..|writes| - 1]), writes[|writes| - 1])
  }

  // ---------- the shared state ----------

  class DialogRuntime {
    var status: Status
    var pendingDialog: Option<Pending>
    var lastDialog: Option<Pending>
    var lastResult: Option<Resolution>
    var degradedReason: Option<string>

    ghost function Known(): Facts
      reads this
    {
      Facts(pendingDialog, lastDialog, lastResult, degradedReason)
    }

    /** The status updated step by step is the one the facts call for. */
    ghost predicate Coherent()
      reads this
    {
      status == StatusOf(Known())
    }

    constructor ()
      ensures Coherent() && Known() == NOTHING
    {
      status, pendingDialog, lastDialog, lastResult, degradedReason := Inactive, None, None, None, None;
    }

    /** `apply_dialog_runtime_status`. */
    method ApplyStatus(desired: Status)
      modifies this`status
      ensures status == if degradedReason.Some? then Degraded else desired
    {
      if degradedReason.Some? {
        status := Degraded;
      } else {
        status := desired;
      }
    }

    /** The locked part of `publish_dialog_opening`. */
    method WriteOpening(dialog: Pending)
      requires Coherent()
      modifies this
      ensures Coherent() && Known() == Applied(old(Known()), Opening(dialog))
    {
      ApplyStatus(Active);
      pendingDialog := Some(dialog);
      lastDialog := pendingDialog;
    }

    /** The locked part of `publish_dialog_closed`. */
    method WriteClosed(accepted: bool, userInput: string, now: string)
      requires Coherent()
      modifies this
      ensures Coherent() && Known() == Applied(old(Known()), Closing(accepted, userInput, now))
    {
      var promptInput := if lastDialog.Some? && lastDialog.value.kind == Prompt then Some(userInput) else None;
      ApplyStatus(Inactive);
      pendingDialog := None;
      lastResult := Some(Resolution(accepted, promptInput, now));
    }

    /** The locked part of `publish_dialog_intercept_failure`. */
    method WriteInterceptFailure(error: string)
      requires Coherent()
      modifies this
      ensures Coherent() && Known() == Applied(old(Known()), InterceptFailing(error))
    {
      degradedReason := Some("dialog_intercept_handle_failed:" + error);
      ApplyStatus(Degraded);
    }

    /** `clear_stale_pending_dialog_for_live_targets_if`. */
    method ClearStale(live: set<string>, shouldCommit: bool) returns (cleared: bool)
      requires Coherent()
      modifies this
      ensures Coherent()
      ensures cleared <==> Lost(old(pendingDialog), live) && shouldCommit
      ensures Known() == if shouldCommit then Applied(old(Known()), StaleClearing(live)) else old(Known())
    {
      if pendingDialog.None? || pendingDialog.value.tab.None? || pendingDialog.value.tab.value in live
         || !shouldCommit {
        return false;
      }
      pendingDialog := None;
      degradedReason := Some("pending_dialog_target_lost");
      ApplyStatus(Degraded);
      cleared := true;
    }

    /** `commit_dialog_hook_install_projection`. */
    method CommitHookInstall(degraded: Option<string>)
      requires Coherent()
      modifies this
      ensures Coherent() && Known() == Applied(old(Known()), HookInstalling(degraded))
    {
      if degraded.Some? {
        status := Degraded;
        degradedReason := degraded;
        return;
      }
      if pendingDialog.None? {
        ApplyStatus(Inactive);
        if status != Degraded {
          degradedReason := None;
        }
      }
    }
  }

  // ---------- every run ----------

  /** Degradation is sticky. */
  lemma DegradedStays(f: Facts, w: Write)
    ensures StatusOf(f) == Degraded ==> StatusOf(Applied(f, w)) == Degraded
  {
  }

  predicate Degrades(f: Facts, w: Write) {
    w.InterceptFailing? || (w.HookInstalling? && w.degraded.Some?) || (w.StaleClearing? && Lost(f.pending, w.live))
  }

  /** The i-th write of the run degraded the runtime. */
  predicate DegradedAt(writes: seq<Write>, i: nat) {
    i < |writes| && Degrades(Run(writes[..i]), writes[i])
  }

  lemma DegradedAtSnoc(front: seq<Write>, last: Write, i: nat)
    ensures DegradedAt(front + [last], i) <==> DegradedAt(front, i) || (i == |front| && Degrades(Run(front), last))
  {
    var writes := front + [last];
    if i < |front| {
      assert writes[..i] == front[..i] && writes[i] == front[i];
    } else if i == |front| {
      assert writes[..i] == front;
    }
  }

  lemma DegradedNext(f: Facts, w: Write)
    ensures StatusOf(Applied(f, w)) == Degraded <==> StatusOf(f) == Degraded || Degrades(f, w)
  {
  }

  /** Degraded exactly when some write of the run degraded the runtime. */
  lemma {:induction false} DegradedIff(writes: seq<Write>)
    ensures StatusOf(Run(writes)) == Degraded <==> exists i: nat :: DegradedAt(writes, i)
    decreases |writes|
  {
    if writes != [] {
      var n := |writes| - 1;
      var front, last := writes[..n], writes[n];
      assert writes == front + [last];
      DegradedIff(front);
      DegradedNext(Run(front), last);
      forall i: nat
        ensures DegradedAt(writes, i) <==> DegradedAt(front, i) || (i == n && Degrades(Run(front), last))
      {
        DegradedAtSnoc(front, last, i);
      }
      assert Degrades(Run(front), last) ==> DegradedAt(writes, n);
    }
  }

  /** Nothing after `i` replaced, closed or lost the dialog opened there. */
  ghost predicate StillOpen(writes: seq<Write>, i: int, dialog: Pending) {
    && 0 <= i < |writes| && writes[i] == Opening(dialog)
    && forall k :: i < k < |writes| ==>
         !writes[k].Opening? && !writes[k].Closing? && !(writes[k].StaleClearing? && Lost(Some(dialog), writes[k].live))
  }

  /** The pending dialog, from the history alone; and it is always the last one opened. */
  lemma {:induction false} PendingIff(writes: seq<Write>, dialog: Pending)
    ensures Run(writes).pending == Some(dialog) <==> exists i :: StillOpen(writes, i, dialog)
    ensures Run(writes).pending.Some? ==> Run(writes).last == Run(writes).pending
    decreases |writes|
  {
    if writes != [] {
      var n := |writes| - 1;
      var front, last := writes[..n], writes[n];
      PendingIff(front, dialog);
      assert forall i :: StillOpen(writes, i, dialog) <==>
          if i == n then last == Opening(dialog)
          else StillOpen(front, i, dialog) && !last.Opening? && !last.Closing?
               && !(last.StaleClearing? && Lost(Some(dialog), last.live));
      if Run(writes).pending == Some(dialog) {
        if last == Opening(dialog) {
          assert StillOpen(writes, n, dialog);
        } else {
          var i :| StillOpen(front, i, dialog);
          assert StillOpen(writes, i, dialog);
        }
      }
    }
  }

  ghost predicate LastOpening(writes: seq<Write>, n: nat, j: int)
    requires n <= |writes|
  {
    0 <= j < n && writes[j].Opening? && forall k :: j < k < n ==> !writes[k].Opening?
  }

  ghost predicate LastClosing(writes: seq<Write>, i: int) {
    0 <= i < |writes| && writes[i].Closing? && forall k :: i < k < |writes| ==> !writes[k].Closing?
  }

  /** The last dialog of a run's first `n` writes. */
  lemma {:induction false} LastDialogIs(writes: seq<Write>, n: nat, j: int)
    requires n <= |writes| && LastOpening(writes, n, j)
    ensures Run(writes[..n]).last == Some(writes[j].dialog)
    decreases n
  {
    var last := n - 1;
    assert writes[..n][..last] == writes[..last] && writes[..n][last] == writes[last];
    if j < last {
      LastDialogIs(writes, last, j);
    }
  }

  lemma {:induction false} NoDialog(writes: seq<Write>, n: nat)
    requires n <= |writes| && forall j :: 0 <= j < n ==> !writes[j].Opening?
    ensures Run(writes[..n]).last == None
    decreases n
  {
    if n > 0 {
      var last := n - 1;
      assert writes[..n][..last] == writes[..last] && writes[..n][last] == writes[last];
      NoDialog(writes, last);
    }
  }

  /** The result is that of the last closing; the user's input counts when the last dialog before it was a prompt. */
  ghost predicate ResultTold(writes: seq<Write>, i: int, result: Resolution)
    requires LastClosing(writes, i)
  {
    && result.accepted == writes[i].accepted && result.closedAt == writes[i].now
    && ((forall j :: 0 <= j < i ==> !writes[j].Opening?) ==> result.userInput == None)
    && (forall j :: LastOpening(writes, i, j) ==>
          result.userInput == if writes[j].dialog.kind == Prompt then Some(writes[i].userInput) else None)
  }

  lemma {:induction false} ResultKept(writes: seq<Write>, i: nat, n: nat)
    requires i < n <= |writes| && forall k :: i < k < n ==> !writes[k].Closing?
    ensures Run(writes[..n]).lastResult == Run(writes[..i + 1]).lastResult
    decreases n
  {
    var last := n - 1;
    if i < last {
      assert writes[..n][..last] == writes[..last] && writes[..n][last] == writes[last];
      ResultKept(writes, i, last);
    }
  }

  lemma ResultAt(writes: seq<Write>, i: nat)
    requires i < |writes| && writes[i].Closing?
    ensures var before, w := Run(writes[..i]), writes[i];
            var input := if before.last.Some? && before.last.value.kind == Prompt then Some(w.userInput) else None;
            Run(writes[..i + 1]).lastResult == Some(Resolution(w.accepted, input, w.now))
  {
    assert writes[..i + 1][..i] == writes[..i] && writes[..i + 1][i] == writes[i];
  }

  lemma LastResultIs(writes: seq<Write>, i: int)
    requires LastClosing(writes, i)
    ensures Run(writes).lastResult.Some? && ResultTold(writes, i, Run(writes).lastResult.value)
  {
    assert writes[..|writes|] == writes;
    ResultKept(writes, i, |writes|);
    ResultAt(writes, i);
    forall j | LastOpening(writes, i, j)
      ensures Run(writes[..i]).last == Some(writes[j].dialog)
    {
      LastDialogIs(writes, i, j);
    }
    if forall j :: 0 <= j < i ==> !writes[j].Opening? {
      NoDialog(writes, i);
    }
  }

  lemma {:induction false} NoResult(writes: seq<Write>)
    requires forall i :: 0 <= i < |writes| ==> !writes[i].Closing?
    ensures Run(writes).lastResult == None
  {
    if writes != [] {
      NoResult(writes[..|writes| - 1]);
    }
  }

  /** The reason is that of the last write that degraded the runtime. */
  lemma {:induction false} ReasonIs(writes: seq<Write>, i: nat)
    requires DegradedAt(writes, i) && forall k: nat :: DegradedAt(writes, k) ==> k <= i
    ensures Run(writes).reason
         == match writes[i]
            case InterceptFailing(error) => Some("dialog_intercept_handle_failed:" + error)
            case HookInstalling(degraded) => degraded
            case _ => Some("pending_dialog_target_lost")
    decreases |writes|
  {
    var n := |writes| - 1;
    var front, last := writes[..n], writes[n];
    assert writes == front + [last];
    if i < n {
      forall k: nat
        ensures DegradedAt(writes, k) <==> DegradedAt(front, k) || (k == n && Degrades(Run(front), last))
      {
        DegradedAtSnoc(front, last, k);
      }
      assert !DegradedAt(writes, n);
      ReasonIs(front, i);
    } else {
      assert writes[..i] == front;
    }
  }

  /** Over every interleaving of publishers and the release flag, a pending dialog is the last one. */
  lemma PendingIsLastUnderInterleaving(w: Fence.World<Facts>, acts: seq<Fence.Act>, writes: seq<Write>)
    requires w.log == [] && w.shared == NOTHING && |writes| == |w.publishers|
    requires forall i, f :: 0 <= i < |w.publishers| ==> w.publishers[i].write(f) == Applied(f, writes[i])
    ensures var f := Fence.Run(w, acts).shared; f.pending.Some? ==> f.last == f.pending
  {
    var inv := (f: Facts) => f.pending.Some? ==> f.last == f.pending;
    Fence.InvariantUnderInterleaving(w, acts, inv);
    assert inv(Fence.Run(w, acts).shared);
  }

  // ---------- the one-shot intercept ----------

  datatype Policy = Policy(accept: bool, promptText: Option<string>, targetTab: Option<string>)

  /** What arming sees of the browser: an authority commit, a contended projection lock, the open pages. */
  datatype Scene = Scene(commitInProgress: bool, lockFree: bool, pages: seq<string>)

  /** `bind_dialog_intercept_policy`. */
  function Bound(p: Policy, scene: Scene): (r: Option<Policy>)
    ensures r.Some? ==> r.value.targetTab.Some?
  {
    if p.targetTab.Some? then Some(p)
    else if scene.commitInProgress || !scene.lockFree || |scene.pages| != 1 then None
    else Some(p.(targetTab := Some(scene.pages[0])))
  }

  /** `intercept_policy_matches`. */
  predicate PolicyMatches(p: Policy, tab: string) {
    p.targetTab.None? || p.targetTab.value == tab
  }

  datatype SlotOp = Arm(policy: Policy, scene: Scene) | Disarm | Take(tab: string) | Poison

  /** The mutex around the slot may be poisoned by a panicking holder. */
  datatype Slot = Slot(policy: Option<Policy>, poisoned: bool)

  class DialogIntercept {
    var policy: Option<Policy>
    var poisoned: bool

    ghost function Held(): Slot
      reads this
    {
      Slot(policy, poisoned)
    }

    constructor ()
      ensures Held() == Slot(None, false)
    {
      policy, poisoned := None, false;
    }

    /** `set_dialog_intercept`. */
    method Set(p: Policy, scene: Scene) returns (ok: bool)
      modifies this
      ensures Held() == SlotStep(old(Held()), Arm(p, scene)).1
      ensures ok <==> Bound(p, scene).Some? && !old(poisoned)
    {
      var bound := Bound(p, scene);
      if bound.None? || poisoned {
        return false;
      }
      policy := bound;
      ok := true;
    }

    /** `clear_dialog_intercept`. */
    method Clear() returns (ok: bool)
      modifies this
      ensures Held() == SlotStep(old(Held()), Disarm).1
      ensures ok <==> !old(poisoned)
    {
      if poisoned {
        return false;
      }
      policy := None;
      ok := true;
    }

    /** `take_matching_intercept_policy`: recovers a poisoned lock, and takes only a matching policy. */
    method TakeMatching(tab: string) returns (taken: Option<Policy>)
      modifies this
      ensures (taken, Held()) == SlotStep(old(Held()), Take(tab))
    {
      var shouldConsume := policy.Some? && PolicyMatches(policy.value, tab);
      taken := None;
      if shouldConsume {
        taken := policy;
        policy := None;
      }
      poisoned := false;
    }
  }

  function SlotStep(s: Slot, op: SlotOp): (Option<Policy>, Slot) {
    match op
    case Arm(p, scene) =>
      (None, if Bound(p, scene).Some? && !s.poisoned then s.(policy := Bound(p, scene)) else s)
    case Disarm => (None, if s.poisoned then s else s.(policy := None))
    case Take(tab) =>
      if s.policy.Some? && PolicyMatches(s.policy.value, tab) then (s.policy, Slot(None, false))
      else (None, s.(poisoned := false))
    case Poison => (None, s.(poisoned := true))
  }

  function SlotRun(ops: seq<SlotOp>): Slot {
    if ops == [] then Slot(None, false) else SlotStep(SlotRun(ops[..|ops| - 1]), ops[|ops| - 1]).1
  }

  /** What the i-th operation of a run handed out. */
  function Consumed(ops: seq<SlotOp>, i: nat): Option<Policy>
    requires i < |ops|
  {
    SlotStep(SlotRun(ops[..i]), ops[i]).0
  }

  /** The i-th operation armed the slot with `p`. */
  predicate Armed(ops: seq<SlotOp>, i: nat, p: Policy)
    requires i < |ops|
  {
    ops[i].Arm? && Bound(ops[i].policy, ops[i].scene) == Some(p) && !SlotRun(ops[..i]).poisoned
  }

  /** The i-th operation ended the life of whatever was armed: by replacing, clearing or consuming it. */
  predicate Ends(ops: seq<SlotOp>, i: nat)
    requires i < |ops|
  {
    || (ops[i].Arm? && Bound(ops[i].policy, ops[i].scene).Some? && !SlotRun(ops[..i]).poisoned)
    || (ops[i].Disarm? && !SlotRun(ops[..i]).poisoned)
    || Consumed(ops, i).Some?
  }

  ghost predicate LiveArming(ops: seq<SlotOp>, i: int, n: int, p: Policy) {
    0 <= i < n <= |ops| && Armed(ops, i, p) && forall k :: i < k < n ==> !Ends(ops, k)
  }

  /** Arming gives a policy without a tab the only open page, and changes nothing else of it. */
  lemma ArmedAsGiven(ops: seq<SlotOp>, i: nat, p: Policy)
    requires i < |ops| && Armed(ops, i, p)
    ensures p.accept == ops[i].policy.accept && p.promptText == ops[i].policy.promptText
    ensures match ops[i].policy.targetTab
            case Some(tab) => p.targetTab == Some(tab)
            case None =>
              p.targetTab.Some? && ops[i].scene == Scene(false, true, [p.targetTab.value])
  {
    var scene := ops[i].scene;
    if ops[i].policy.targetTab.None? {
      assert scene.pages == [scene.pages[0]];
    }
  }

  /** Arming fails only for a policy without a tab, when the one open page cannot be told. */
  lemma UnboundIff(p: Policy, scene: Scene)
    ensures Bound(p, scene).None? <==>
            p.targetTab.None? && forall tab :: scene != Scene(false, true, [tab])
  {
    if |scene.pages| == 1 {
      assert scene.pages == [scene.pages[0]];
    }
  }

  lemma LiveArmingExtends(ops: seq<SlotOp>, i: int, n: nat, p: Policy)
    requires n <= |ops| && LiveArming(ops[..n], i, n, p)
    ensures LiveArming(ops, i, n, p)
  {
    forall k | 0 <= k < n
      ensures Ends(ops, k) <==> Ends(ops[..n], k)
      ensures ops[..n][k] == ops[k] && ops[..n][..k] == ops[..k]
    {
      assert ops[..n][..k] == ops[..k];
    }
  }

  /** What the slot holds was armed by an operation that nothing has ended since. */
  lemma {:induction false} SlotWasArmed(ops: seq<SlotOp>, p: Policy) returns (i: int)
    requires SlotRun(ops).policy == Some(p)
    ensures LiveArming(ops, i, |ops|, p)
    decreases |ops|
  {
    var n := |ops| - 1;
    var front, last := ops[..n], ops[n];
    if Armed(ops, n, p) {
      i := n;
    } else {
      i := SlotWasArmed(front, p);
      LiveArmingExtends(ops, i, n, p);
    }
  }

  /**
   * Every policy handed out was armed, bound to a tab, before; it goes to that tab and no other, and between the
   * arming and the hand-out nothing replaced, cleared or consumed it.
   */
  lemma ConsumedWasArmed(ops: seq<SlotOp>, j: nat, p: Policy) returns (i: int)
    requires j < |ops| && Consumed(ops, j) == Some(p)
    ensures LiveArming(ops, i, j, p)
    ensures ops[j].Take? && p.targetTab == Some(ops[j].tab)
  {
    i := SlotWasArmed(ops[..j], p);
    LiveArmingExtends(ops, i, j, p);
  }

  lemma {:induction false} LiveIsHeld(ops: seq<SlotOp>, i: int, n: nat, p: Policy)
    requires LiveArming(ops, i, n, p)
    ensures SlotRun(ops[..n]).policy == Some(p)
    decreases n
  {
    var last := n - 1;
    assert ops[..n][..last] == ops[..last] && ops[..n][last] == ops[last];
    if i < last {
      LiveIsHeld(ops, i, last, p);
      assert !Ends(ops, last);
    }
  }

  /** A take hands out exactly the policy that is armed for its tab. */
  lemma ConsumedIff(ops: seq<SlotOp>, j: nat, p: Policy)
    requires j < |ops|
    ensures Consumed(ops, j) == Some(p) <==>
            ops[j].Take? && p.targetTab == Some(ops[j].tab) && exists i :: LiveArming(ops, i, j, p)
  {
    if Consumed(ops, j) == Some(p) {
      var i := ConsumedWasArmed(ops, j, p);
    }
    if i :| ops[j].Take? && p.targetTab == Some(ops[j].tab) && LiveArming(ops, i, j, p) {
      LiveIsHeld(ops, i, j, p);
    }
  }

  /** One arming is consumed at most once. */
  lemma ConsumedOnce(ops: seq<SlotOp>, i: int, j: nat, k: nat, p: Policy, q: Policy)
    requires j < k < |ops| && Consumed(ops, j) == Some(p) && Consumed(ops, k) == Some(q)
    requires LiveArming(ops, i, j, p)
    ensures !LiveArming(ops, i, k, q)
  {
    assert Ends(ops, j);
  }
}
