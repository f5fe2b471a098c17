/** When a call of `stop` reaches a capture thread: the shutdown flag is also lowered, by a start
    call past its lock section and by a capture thread on its way out. */
module CaptureStops {
  import opened Bytes
  import opened CaptureSessions

  /** A start call that has lowered the flag already, or a capture thread that has not yet: whoever
      is there to heed a raised flag. */
  ghost predicate Heeding(m: Machine) {
    || (exists c :: c in m.calls && !m.calls[c].Claimed?)
    || (exists t :: t in m.threads && !m.threads[t].DropSenderNext? && !m.threads[t].ReleaseNext?)
  }

  /** The flag goes up. */
  predicate Raises(m: Machine, step: Step) {
    !m.shutdown && Apply(m, step).shutdown
  }

  /** A capture thread lowers the flag on its way out, or fails to spawn at all. */
  predicate Exits(m: Machine, step: Step) {
    || (step.ClearShutdown? && step.t in m.threads && m.threads[step.t].ClearShutdownNext?)
    || FailsToSpawn(m, step)
  }

  ghost predicate NoneExits(m: Machine, steps: seq<Step>) {
    forall i :: 0 <= i < |steps| ==> !Exits(RunFrom(m, steps[..i]), steps[i])
  }

  ghost predicate NoneRaises(m: Machine, steps: seq<Step>) {
    forall i :: 0 <= i < |steps| ==> !Raises(RunFrom(m, steps[..i]), steps[i])
  }

  // ---------------------------------------------------------------------------------------------
  // A flag raised for somebody
  // ---------------------------------------------------------------------------------------------

  lemma StartHoldsFlag(m: Machine, step: Step)
    requires Inv(m) && m.shutdown && Heeding(m) && !Exits(m, step)
    ensures ApplyStart(m, step).shutdown && Heeding(ApplyStart(m, step))
  {
    match step {
      case Spawn(c, t, ok) =>
        var n := ApplyStart(m, step);
        assert n != m ==> t in n.threads && n.threads[t].Starting?;
      case StartSetSender(c) =>
        var n := ApplyStart(m, step);
        assert n != m ==> c in n.calls && n.calls[c].SenderSet?;
      case _ =>
    }
  }

  lemma SessionHoldsFlag(m: Machine, t: nat, step: Step)
    requires m.shutdown && t in m.threads && m.threads[t].Session?
    ensures var n := ApplySession(m, t, step);
            n.shutdown && t in n.threads && !n.threads[t].DropSenderNext? && !n.threads[t].ReleaseNext?
  {
  }

  lemma LoopHoldsFlag(m: Machine, t: nat, step: Step)
    requires Inv(m) && m.shutdown && Heeding(m) && t in m.threads && ThreadOf(step) == Some(t)
    requires !Exits(m, step)
    ensures ApplyLoop(m, t, step).shutdown && Heeding(ApplyLoop(m, t, step))
  {
    assert !m.threads[t].DropSenderNext? && !m.threads[t].ReleaseNext?;
    var n := ApplyLoop(m, t, step);
    assert t in n.threads && !n.threads[t].DropSenderNext? && !n.threads[t].ReleaseNext?;
  }

  lemma StepHoldsFlag(m: Machine, step: Step)
    requires Inv(m) && m.shutdown && Heeding(m) && !Exits(m, step)
    ensures Apply(m, step).shutdown && Heeding(Apply(m, step))
  {
    hide ApplySession, ApplyLoop, ApplyStart;
    var thread := ThreadOf(step);
    if thread.None? {
      if !step.Set? && !step.Stop? {
        StartHoldsFlag(m, step);
      }
    } else if thread.value in m.threads {
      if m.threads[thread.value].Session? {
        SessionHoldsFlag(m, thread.value, step);
      } else {
        LoopHoldsFlag(m, thread.value, step);
      }
    }
  }

  lemma {:induction false} FlagHeld(m: Machine, steps: seq<Step>)
    requires Inv(m) && m.shutdown && Heeding(m) && NoneExits(m, steps)
    ensures RunFrom(m, steps).shutdown && Heeding(RunFrom(m, steps))
  {
    hide Apply, Inv, Heeding, Exits;
    if steps == [] {
    } else {
      var front := steps[..|steps| - 1];
      assert forall i :: 0 <= i < |front| ==> front[..i] == steps[..i];
      FlagHeld(m, front);
      RunKeepsInv(m, front);
      StepHoldsFlag(RunFrom(m, front), steps[|front|]);
    }
  }

  // ---------------------------------------------------------------------------------------------
  // A flag raised for nobody
  // ---------------------------------------------------------------------------------------------

  lemma StartMissesFlag(m: Machine, step: Step)
    requires Inv(m) && (Heeding(m) ==> !m.shutdown)
    ensures Heeding(ApplyStart(m, step)) ==> !ApplyStart(m, step).shutdown
  {
    match step {
      case Start(c, settings) =>
        assert forall d :: d in ApplyStart(m, step).calls && !ApplyStart(m, step).calls[d].Claimed? ==>
                 d in m.calls && !m.calls[d].Claimed?;
      case Spawn(c, t, ok) =>
        if ApplyStart(m, step) != m {
          assert c in m.calls && !m.calls[c].Claimed?;
        }
      case _ =>
    }
  }

  lemma ThreadMissesFlag(m: Machine, t: nat, step: Step)
    requires Inv(m) && (Heeding(m) ==> !m.shutdown) && t in m.threads
    requires m.shutdown || !ApplyThread(m, t, step).shutdown
    ensures Heeding(ApplyThread(m, t, step)) ==> !ApplyThread(m, t, step).shutdown
  {
    if m.shutdown {
      assert m.threads[t].DropSenderNext? || m.threads[t].ReleaseNext?;
    }
  }

  lemma StepMissesFlag(m: Machine, step: Step)
    requires Inv(m) && (Heeding(m) ==> !m.shutdown) && !Raises(m, step)
    ensures Heeding(Apply(m, step)) ==> !Apply(m, step).shutdown
  {
    hide ApplyThread, ApplyStart;
    var thread := ThreadOf(step);
    if thread.None? {
      if !step.Set? && !step.Stop? {
        StartMissesFlag(m, step);
      }
    } else if thread.value in m.threads {
      ThreadMissesFlag(m, thread.value, step);
    }
  }

  lemma {:induction false} FlagMissed(m: Machine, steps: seq<Step>)
    requires Inv(m) && (Heeding(m) ==> !m.shutdown) && NoneRaises(m, steps)
    ensures Heeding(RunFrom(m, steps)) ==> !RunFrom(m, steps).shutdown
  {
    hide Apply, Inv, Heeding, Raises;
    if steps == [] {
    } else {
      var front := steps[..|steps| - 1];
      assert forall i :: 0 <= i < |front| ==> front[..i] == steps[..i];
      FlagMissed(m, front);
      RunKeepsInv(m, front);
      StepMissesFlag(RunFrom(m, front), steps[|front|]);
    }
  }

  // ---------------------------------------------------------------------------------------------
  // Stopping
  // ---------------------------------------------------------------------------------------------

  lemma Stopped(before: seq<Step>, after: seq<Step>)
    ensures var m := Apply(Run(before), Stop);
            && Run(before + [Stop] + after) == RunFrom(m, after)
            && m.shutdown && Inv(m) && (Heeding(m) <==> Heeding(Run(before)))
  {
    ReachableInv(before);
    StepKeepsInv(Run(before), Stop);
    RunAppend(BOOT, before + [Stop], after);
    assert (before + [Stop])[..|before|] == before;
  }

  /** A stop made while somebody is there to heed it keeps the flag up until the capture thread
      lowers it on its way out or fails to spawn. */
  lemma StopHolds(before: seq<Step>, after: seq<Step>)
    requires Heeding(Run(before)) && NoneExits(Apply(Run(before), Stop), after)
    ensures Run(before + [Stop] + after).shutdown && Heeding(Run(before + [Stop] + after))
  {
    hide Run, Apply, Heeding, NoneExits;
    Stopped(before, after);
    FlagHeld(Apply(Run(before), Stop), after);
  }

  /** A stop made while nobody is there, or while a start call is still to lower the flag, is lost:
      until the flag is raised anew, nobody who would heed it finds it up. */
  lemma StopIsLost(before: seq<Step>, after: seq<Step>)
    requires !Heeding(Run(before)) && NoneRaises(Apply(Run(before), Stop), after)
    ensures Heeding(Run(before + [Stop] + after)) ==> !Run(before + [Stop] + after).shutdown
  {
    hide Run, Apply, Heeding, NoneRaises;
    Stopped(before, after);
    FlagMissed(Apply(Run(before), Stop), after);
  }

  /** So whoever is there to heed a stop, with no capture thread gone and the flag not raised anew
      in between, finds the flag up exactly when somebody was there when it was made. */
  lemma StopTakesEffectExactly(before: seq<Step>, after: seq<Step>)
    requires NoneExits(Apply(Run(before), Stop), after) && NoneRaises(Apply(Run(before), Stop), after)
    requires Heeding(Run(before + [Stop] + after))
    ensures Run(before + [Stop] + after).shutdown <==> Heeding(Run(before))
  {
    hide Run, Apply, Heeding, NoneExits, NoneRaises;
    if Heeding(Run(before)) {
      StopHolds(before, after);
    } else {
      StopIsLost(before, after);
    }
  }

  /** A capture thread that looks at the flag leaves its loop, or takes no further frame, exactly
      when it is up. */
  lemma ThreadHeedsFlag(m: Machine, t: nat, w: nat, h: nat)
    requires t in m.threads
    ensures m.threads[t].LoopTop? || m.threads[t].Ended? ==>
              (Apply(m, CheckShutdown(t)).threads[t].ClearShutdownNext? <==> m.shutdown)
    ensures m.threads[t].Session? && m.threads[t].callback.Idle? && !m.threads[t].stopping ==>
              var th := Apply(m, Arrive(t, w, h)).threads[t];
              && th.Session? && (th.stopping <==> m.shutdown)
              && th.callback == (if m.shutdown then Idle else FlagNext(w, h))
  {
  }

  /** A stop between a start call's lock section and its lowering of the flag: the thread it spawns
      goes on to capture. */
  lemma StopInsideStartIsLost()
    ensures exists steps :: var m := Run(steps);
              && Stop in steps && 0 in m.threads && m.threads[0].ReadNext? && !m.shutdown
  {
    var first := [Start(0, NO_SETTINGS), Stop, StartClearShutdown(0)];
    var second := [StartSetSender(0), Spawn(0, 0, true), Init(0, true)];
    var m := Run(first);
    LostStop();
    RunAppend(BOOT, first, second);
    hide RunFrom, Apply;
    RunThree(m, StartSetSender(0), Spawn(0, 0, true), Init(0, true));
    LostThread(m);
    RunOne(first + second, CheckShutdown(0));
    LostLook(Run(first + second));
    var steps := first + second + [CheckShutdown(0)];
    assert first[1] in steps;
  }

  lemma LostStop()
    ensures var m := Run([Start(0, NO_SETTINGS), Stop, StartClearShutdown(0)]);
            m.calls == map[0 := ShutdownCleared] && m.threads == map[] && !m.shutdown
  {
    RunThree(BOOT, Start(0, NO_SETTINGS), Stop, StartClearShutdown(0));
    hide RunFrom;
    var m := Apply(BOOT, Start(0, NO_SETTINGS));
    assert m.calls == map[0 := Claimed];
  }

  lemma LostLook(m: Machine)
    requires 0 in m.threads && m.threads[0] == LoopTop && !m.shutdown
    ensures var n := Apply(m, CheckShutdown(0));
            0 in n.threads && n.threads[0].ReadNext? && !n.shutdown
  {
  }

  lemma LostThread(m: Machine)
    requires m.calls == map[0 := ShutdownCleared] && m.threads == map[] && !m.shutdown
    ensures var n := Apply(Apply(Apply(m, StartSetSender(0)), Spawn(0, 0, true)), Init(0, true));
            0 in n.threads && n.threads[0] == LoopTop && !n.shutdown
  {
    var m1 := Apply(m, StartSetSender(0));
    assert m1.calls == map[0 := SenderSet];
    var m2 := Apply(m1, Spawn(0, 0, true));
    assert m2.threads == map[0 := Starting];
  }

  lemma RunOne(steps: seq<Step>, step: Step)
    ensures Run(steps + [step]) == Apply(Run(steps), step)
  {
    assert (steps + [step])[..|steps|] == steps;
  }

  // ---------------------------------------------------------------------------------------------
  // The flag and the sender slot over whole runs
  // ---------------------------------------------------------------------------------------------

  /** A call of `stop`, or a frame that cannot be sent on because the receiver is gone. */
  predicate AsksToStop(m: Machine, step: Step) {
    || step.Stop?
    || (step.FrameBody? && step.receiverGone && !step.failed
        && step.t in m.threads && m.threads[step.t].Session?
        && var th := m.threads[step.t];
           th.callback.BodyNext? && (th.dims.None? || th.dims.value == (th.callback.w, th.callback.h)))
  }

  /** A start call past its lock section, or a capture thread on its way out, lowers the flag. */
  predicate Lowers(m: Machine, step: Step) {
    || (step.StartClearShutdown? && step.c in m.calls && m.calls[step.c].Claimed?)
    || (step.ClearShutdown? && step.t in m.threads && m.threads[step.t].ClearShutdownNext?)
  }

  lemma FlagStep(m: Machine, step: Step)
    ensures Apply(m, step).shutdown <==> AsksToStop(m, step) || (m.shutdown && !Lowers(m, step))
  {
    hide ApplySession, ApplyLoop;
    var thread := ThreadOf(step);
    if thread.Some? && thread.value in m.threads {
      if m.threads[thread.value].Session? {
        SessionFlagStep(m, thread.value, step);
      } else {
        LoopFlagStep(m, thread.value, step);
      }
    }
  }

  lemma SessionFlagStep(m: Machine, t: nat, step: Step)
    requires t in m.threads && m.threads[t].Session? && ThreadOf(step) == Some(t)
    ensures ApplySession(m, t, step).shutdown <==> m.shutdown || AsksToStop(m, step)
  {
  }

  lemma LoopFlagStep(m: Machine, t: nat, step: Step)
    requires t in m.threads && !m.threads[t].Session? && ThreadOf(step) == Some(t)
    ensures ApplyLoop(m, t, step).shutdown <==> m.shutdown && !Lowers(m, step)
  {
  }

  /** Step `i` asks to stop and no later step lowers the flag. */
  ghost predicate AskStands(steps: seq<Step>, i: nat) {
    && i < |steps| && AsksToStop(Run(steps[..i]), steps[i])
    && forall j :: i < j < |steps| ==> !Lowers(Run(steps[..j]), steps[j])
  }

  lemma AskStandsSnoc(steps: seq<Step>)
    requires steps != []
    ensures var front := steps[..|steps| - 1];
            var m, last := Run(front), steps[|front|];
            (exists i :: AskStands(steps, i)) <==>
            AsksToStop(m, last) || ((exists i :: AskStands(front, i)) && !Lowers(m, last))
  {
    hide Run, Lowers, AsksToStop;
    var front := steps[..|steps| - 1];
    var m, last := Run(front), steps[|front|];
    assert forall i :: 0 <= i < |steps| ==> front[..i] == steps[..i];
    forall i: nat | i < |front|
      ensures AskStands(steps, i) <==>
              AskStands(front, i) && !Lowers(m, last)
    {
    }
    assert AskStands(steps, |front|) <==> AsksToStop(m, last);
  }

  /** In every run the flag is up exactly when somebody has asked to stop and neither a start call
      nor a leaving thread has lowered it since. */
  lemma {:induction false} FlagIsUpExactly(steps: seq<Step>)
    ensures Run(steps).shutdown <==> exists i :: AskStands(steps, i)
  {
    hide Apply, Lowers, AsksToStop;
    if steps == [] {
      assert forall i :: !AskStands(steps, i);
    } else {
      hide AskStands;
      var front := steps[..|steps| - 1];
      FlagIsUpExactly(front);
      AskStandsSnoc(steps);
      FlagStep(Run(front), steps[|front|]);
    }
  }

  /** Somebody the sender slot has been filled for: a start call about to spawn, a capture thread
      that has not emptied it, or nobody at all after a failed spawn. */
  ghost predicate SenderWanted(m: Machine) {
    || (exists c :: c in m.calls && m.calls[c].SenderSet?)
    || (exists t :: t in m.threads && !m.threads[t].ReleaseNext?)
    || Wedged(m)
  }

  lemma StartKeepsSender(m: Machine, step: Step)
    requires Inv(m) && (m.sender <==> SenderWanted(m)) && ThreadOf(step).None?
    ensures ApplyStart(m, step).sender <==> SenderWanted(ApplyStart(m, step))
  {
    var n := ApplyStart(m, step);
    match step {
      case Start(c, settings) =>
        assert forall d :: d in n.calls && n.calls[d].SenderSet? ==> d in m.calls;
      case StartClearShutdown(c) =>
        assert forall d :: d in n.calls && n.calls[d].SenderSet? <==> d in m.calls && m.calls[d].SenderSet?;
      case StartSetSender(c) =>
        assert n != m ==> c in n.calls && n.calls[c].SenderSet?;
      case Spawn(c, t, ok) =>
        if n != m {
          assert c in m.calls && m.calls[c].SenderSet?;
          assert ok ==> t in n.threads && n.threads[t].Starting?;
          if !ok {
            StepWedges(m, step);
          }
        }
      case _ =>
    }
  }

  lemma ThreadKeepsSender(m: Machine, t: nat, step: Step)
    requires Inv(m) && (m.sender <==> SenderWanted(m))
    requires t in m.threads && ThreadOf(step) == Some(t)
    ensures ApplyThread(m, t, step).sender <==> SenderWanted(ApplyThread(m, t, step))
  {
    assert m.sender <==> !m.threads[t].ReleaseNext?;
    ThreadSender(m, t, step);
    hide ApplyThread;
  }

  lemma ThreadSender(m: Machine, t: nat, step: Step)
    requires t in m.threads && ThreadOf(step) == Some(t)
    requires m.sender <==> !m.threads[t].ReleaseNext?
    ensures var n := ApplyThread(m, t, step);
            && n.calls == m.calls
            && (if t in n.threads then (n.sender <==> !n.threads[t].ReleaseNext?) else !n.sender)
            && n.threads.Keys <= m.threads.Keys
            && (t !in n.threads ==> !n.shared.running)
  {
    hide ApplySession, ApplyLoop;
    if m.threads[t].Session? {
      SessionSender(m, t, step);
    } else {
      LoopSender(m, t, step);
    }
  }

  lemma SessionSender(m: Machine, t: nat, step: Step)
    requires t in m.threads && m.threads[t].Session?
    ensures var n := ApplySession(m, t, step);
            && n.calls == m.calls && n.threads.Keys == m.threads.Keys && n.sender == m.sender
            && !n.threads[t].ReleaseNext?
  {
  }

  lemma LoopSender(m: Machine, t: nat, step: Step)
    requires t in m.threads && !m.threads[t].Session? && ThreadOf(step) == Some(t)
    requires m.sender <==> !m.threads[t].ReleaseNext?
    ensures var n := ApplyLoop(m, t, step);
            && n.calls == m.calls
            && (if t in n.threads then (n.sender <==> !n.threads[t].ReleaseNext?) else !n.sender)
            && n.threads.Keys <= m.threads.Keys
            && (t !in n.threads ==> !n.shared.running)
  {
  }

  lemma StepKeepsSender(m: Machine, step: Step)
    requires Inv(m) && (m.sender <==> SenderWanted(m))
    ensures Apply(m, step).sender <==> SenderWanted(Apply(m, step))
  {
    hide ApplyThread, ApplyStart;
    var thread := ThreadOf(step);
    if thread.None? {
      if !step.Set? && !step.Stop? {
        StartKeepsSender(m, step);
      }
    } else if thread.value in m.threads {
      ThreadKeepsSender(m, thread.value, step);
    }
  }

  /** In every run the sender slot is filled exactly from a start call's filling it until its capture
      thread empties it, and for good once that thread has failed to spawn. */
  lemma {:induction false} SenderIsThereExactly(steps: seq<Step>)
    ensures Run(steps).sender <==> SenderWanted(Run(steps))
  {
    hide Apply, SenderWanted;
    if steps == [] {
      NoSenderAtBoot();
    } else {
      var front := steps[..|steps| - 1];
      SenderIsThereExactly(front);
      ReachableInv(front);
      StepKeepsSender(Run(front), steps[|front|]);
    }
  }

  lemma NoSenderAtBoot()
    ensures !SenderWanted(BOOT)
  {
  }

  // ---------------------------------------------------------------------------------------------
  // Leaving
  // ---------------------------------------------------------------------------------------------

  /** The three steps with which a capture thread leaves. */
  function Leaving(t: nat): seq<Step> {
    [ClearShutdown(t), DropSender(t), Release(t)]
  }

  lemma LeavingReleases(m: Machine, t: nat)
    requires t in m.threads && m.threads[t].ClearShutdownNext?
    ensures var n := RunFrom(m, Leaving(t));
            && n.threads == m.threads - {t} && n.calls == m.calls && n.shared.settings == m.shared.settings
            && !n.shared.running && !n.shutdown && !n.sender
  {
    hide Apply, RunFrom;
    RunThree(m, ClearShutdown(t), DropSender(t), Release(t));
    LeavingSteps(m, t);
  }

  lemma LeavingSteps(m: Machine, t: nat)
    requires t in m.threads && m.threads[t].ClearShutdownNext?
    ensures var n := Apply(Apply(Apply(m, ClearShutdown(t)), DropSender(t)), Release(t));
            && n.threads == m.threads - {t} && n.calls == m.calls
            && n.shared == m.shared.(running := false) && !n.shutdown && !n.sender
  {
    hide ApplySession, ApplyStart;
    var m1 := Apply(m, ClearShutdown(t));
    assert m1 == m.(threads := m.threads[t := DropSenderNext], shutdown := false);
    var m2 := Apply(m1, DropSender(t));
    assert m2 == m1.(threads := m1.threads[t := ReleaseNext], sender := false);
    assert m2.threads - {t} == m.threads - {t};
  }

  /** However a capture thread comes to leave, by a failed initialisation, a monitor that cannot be
      found, or the flag, its three last steps give everything up: the next start succeeds. */
  lemma EveryWayOutReleases(m: Machine, t: nat, out: Step)
    requires Inv(m) && t in m.threads
    requires match m.threads[t]
             case Starting => out == Init(t, false)
             case Resolving(_, _, _) => out == Begin(t, false)
             case LoopTop => out == CheckShutdown(t) && m.shutdown
             case Ended => out == CheckShutdown(t) && m.shutdown
             case _ => false
    ensures var n := RunFrom(Apply(m, out), Leaving(t));
            && n.threads == map[] && n.calls == map[]
            && !n.shared.running && !n.shutdown && !n.sender
  {
    LeavingReleases(Apply(m, out), t);
    assert m.threads - {t} == map[];
    assert m.threads[t := ClearShutdownNext] - {t} == m.threads - {t};
    hide RunFrom;
  }
}
