/** What settings a capture session runs with, in terms of the calls made, and what a frame does to
    it. */
module CaptureSettings {
  import opened Bytes
  import opened CaptureSessions

  datatype Field = Width | Height | FrameRate | Bitrate | Display

  function Value(s: Settings, f: Field): nat {
    match f
    case Width => s.width
    case Height => s.height
    case FrameRate => s.fps
    case Bitrate => s.bitrateKbps
    case Display => s.displayId
  }

  /** What a step writes to a field: a start that succeeds writes them all, a setter called while
      running its own. */
  function Written(m: Machine, step: Step, f: Field): Option<nat> {
    match step
    case Start(c, settings) =>
      if m.shared.running || c in m.calls then None else Some(Value(settings, f))
    case Set(setter) =>
      if !m.shared.running then None
      else
        (match (setter, f)
         case (SelectDisplay(id), Display) => Some(id)
         case (SetBitrate(kbps), Bitrate) => Some(kbps)
         case (SetFps(fps), FrameRate) => Some(fps)
         case (SetResolution(w, _), Width) => Some(w)
         case (SetResolution(_, h), Height) => Some(h)
         case _ => None)
    case _ => None
  }

  /** Step `i` writes `v` to the field and no later step writes it. */
  ghost predicate LastWrite(steps: seq<Step>, f: Field, v: nat, i: nat) {
    && i < |steps| && Written(Run(steps[..i]), steps[i], f) == Some(v)
    && forall j :: i < j < |steps| ==> Written(Run(steps[..j]), steps[j], f) == None
  }

  ghost predicate NeverWritten(steps: seq<Step>, f: Field) {
    forall j :: 0 <= j < |steps| ==> Written(Run(steps[..j]), steps[j], f) == None
  }

  ghost predicate LastWritten(steps: seq<Step>, f: Field, v: nat) {
    (v == 0 && NeverWritten(steps, f)) || exists i :: LastWrite(steps, f, v, i)
  }

  lemma WriteStep(m: Machine, step: Step, f: Field)
    ensures Value(Apply(m, step).shared.settings, f)
            == match Written(m, step, f)
               case Some(v) => v
               case None => Value(m.shared.settings, f)
  {
    hide ApplySession, ApplyLoop;
    var thread := ThreadOf(step);
    if thread.Some? && thread.value in m.threads {
      if m.threads[thread.value].Session? {
        SessionWritesNothing(m, thread.value, step);
      } else {
        LoopWritesNothing(m, thread.value, step);
      }
    }
  }

  lemma SessionWritesNothing(m: Machine, t: nat, step: Step)
    requires t in m.threads && m.threads[t].Session?
    ensures ApplySession(m, t, step).shared.settings == m.shared.settings
  {
  }

  lemma LoopWritesNothing(m: Machine, t: nat, step: Step)
    requires t in m.threads
    ensures ApplyLoop(m, t, step).shared.settings == m.shared.settings
  {
  }

  lemma LastWriteSnoc(steps: seq<Step>, f: Field, v: nat, i: nat)
    requires i < |steps| - 1
    ensures var front := steps[..|steps| - 1];
            LastWrite(steps, f, v, i) <==>
            LastWrite(front, f, v, i) && Written(Run(front), steps[|front|], f) == None
  {
    hide Run, Written;
    var front := steps[..|steps| - 1];
    assert forall j :: 0 <= j < |steps| ==> front[..j] == steps[..j];
  }

  lemma LastWrittenSnoc(steps: seq<Step>, f: Field, v: nat)
    requires steps != []
    ensures var front := steps[..|steps| - 1];
            LastWritten(steps, f, v) <==>
            match Written(Run(front), steps[|front|], f)
            case Some(u) => u == v
            case None => LastWritten(front, f, v)
  {
    hide Run, Written;
    var front := steps[..|steps| - 1];
    var last := Written(Run(front), steps[|front|], f);
    assert NeverWritten(steps, f) <==> NeverWritten(front, f) && last == None by {
      assert forall i :: 0 <= i < |steps| ==> front[..i] == steps[..i];
    }
    assert LastWrite(steps, f, v, |front|) <==> last == Some(v);
    assert forall i: nat :: LastWrite(front, f, v, i) ==> i < |front|;
    assert forall i: nat :: LastWrite(steps, f, v, i) ==> i <= |front|;
    hide LastWrite, NeverWritten;
    forall i: nat | i < |front|
      ensures LastWrite(steps, f, v, i) <==> LastWrite(front, f, v, i) && last == None
    {
      LastWriteSnoc(steps, f, v, i);
    }
  }

  /** In every run each field of the publisher's settings is what was last written to it. */
  lemma {:induction false} SettingsAreLastWritten(steps: seq<Step>, f: Field, v: nat)
    ensures Value(Run(steps).shared.settings, f) == v <==> LastWritten(steps, f, v)
  {
    hide Apply, Written;
    if steps == [] {
      assert NeverWritten(steps, f);
    } else {
      hide LastWritten, Value;
      var front := steps[..|steps| - 1];
      SettingsAreLastWritten(front, f, v);
      LastWrittenSnoc(steps, f, v);
      WriteStep(Run(front), steps[|front|], f);
    }
  }

  // ---------------------------------------------------------------------------------------------
  // The settings a session has read
  // ---------------------------------------------------------------------------------------------

  /** What thread `t` runs with, or will. */
  function SnapshotOf(m: Machine, t: nat): Option<Settings> {
    if t !in m.threads then None
    else
      match m.threads[t]
      case ClearNext(snapshot, _) => Some(snapshot)
      case Resolving(snapshot, _, _) => Some(snapshot)
      case Session(_, snapshot, _, _, _, _, _) => Some(snapshot)
      case _ => None
  }

  lemma SnapshotStep(m: Machine, t: nat, step: Step)
    requires SnapshotOf(Apply(m, step), t).Some?
    ensures SnapshotOf(Apply(m, step), t)
            == if Reads(m, step, t) then Some(m.shared.settings) else SnapshotOf(m, t)
  {
    hide ApplySession, ApplyLoop;
    var thread := ThreadOf(step);
    if thread.Some? && thread.value in m.threads {
      if m.threads[thread.value].Session? {
        SessionKeepsSnapshot(m, thread.value, step, t);
      } else {
        LoopKeepsSnapshot(m, thread.value, step, t);
      }
    }
  }

  lemma SessionKeepsSnapshot(m: Machine, u: nat, step: Step, t: nat)
    requires u in m.threads && m.threads[u].Session?
    ensures SnapshotOf(ApplySession(m, u, step), t).Some? ==>
              SnapshotOf(ApplySession(m, u, step), t) == SnapshotOf(m, t)
  {
  }

  lemma LoopKeepsSnapshot(m: Machine, u: nat, step: Step, t: nat)
    requires u in m.threads && !m.threads[u].Session? && ThreadOf(step) == Some(u)
    ensures SnapshotOf(ApplyLoop(m, u, step), t).Some? ==>
              SnapshotOf(ApplyLoop(m, u, step), t)
              == if Reads(m, step, t) then Some(m.shared.settings) else SnapshotOf(m, t)
  {
  }

  /** Step `r` is thread `t`'s latest reading of the settings. */
  ghost predicate LatestRead(steps: seq<Step>, t: nat, r: nat) {
    && r < |steps| && Reads(Run(steps[..r]), steps[r], t)
    && forall j :: r < j < |steps| ==> !Reads(Run(steps[..j]), steps[j], t)
  }

  lemma {:induction false} SnapshotWasRead(steps: seq<Step>, t: nat) returns (r: nat)
    requires SnapshotOf(Run(steps), t).Some?
    ensures LatestRead(steps, t, r)
    ensures SnapshotOf(Run(steps), t) == Some(Run(steps[..r]).shared.settings)
    decreases |steps|
  {
    hide Apply, Reads;
    assert steps != [];
    hide Run, SnapshotOf;
    var front := steps[..|steps| - 1];
    RunOneMore(steps);
    SnapshotStep(Run(front), t, steps[|front|]);
    assert forall i :: 0 <= i < |steps| ==> front[..i] == steps[..i];
    if Reads(Run(front), steps[|front|], t) {
      r := |front|;
    } else {
      r := SnapshotWasRead(front, t);
    }
  }

  lemma RunOneMore(steps: seq<Step>)
    requires steps != []
    ensures Run(steps) == Apply(Run(steps[..|steps| - 1]), steps[|steps| - 1])
  {
  }

  /** In every run each field of a session's settings is what the last call to write it before the
      session read the settings wrote: the setter of that field, or the start. */
  lemma SessionRunsWithLastWritten(steps: seq<Step>, t: nat, f: Field, v: nat)
    requires t in Run(steps).threads && Run(steps).threads[t].Session?
    ensures exists r: nat :: LatestRead(steps, t, r)
    ensures forall r: nat :: LatestRead(steps, t, r) ==>
              (Value(Run(steps).threads[t].snapshot, f) == v <==> LastWritten(steps[..r], f, v))
  {
    hide Run, LastWritten, Value;
    var r := SnapshotWasRead(steps, t);
    SettingsAreLastWritten(steps[..r], f, v);
    forall q: nat | LatestRead(steps, t, q) ensures q == r {
      hide Reads;
    }
  }

  // ---------------------------------------------------------------------------------------------
  // A frame
  // ---------------------------------------------------------------------------------------------

  /** A frame of other dimensions than the session was configured for stops it and asks for a
      rebuild; one whose receiver is gone stops it and the publisher; one that cannot be encoded
      ends it; the first frame fixes the dimensions; otherwise nothing changes. */
  lemma FrameDecidesSession(m: Machine, t: nat, failed: bool, receiverGone: bool)
    requires t in m.threads && m.threads[t].Session? && m.threads[t].callback.BodyNext?
    ensures var th := m.threads[t];
            var n := Apply(m, FrameBody(t, failed, receiverGone));
            var size := (th.callback.w, th.callback.h);
            var resized := th.dims.Some? && th.dims.value != size;
            && t in n.threads
            && (n.shared.needsRebuild <==> m.shared.needsRebuild || resized)
            && (n.shutdown <==> m.shutdown || (receiverGone && !resized && !failed))
            && (n.threads[t].Ended? <==> failed && !resized)
            && (n.threads[t].Session? <==> resized || !failed)
            && (n.threads[t].Session? ==>
                  && n.threads[t].callback.Idle?
                  && (n.threads[t].stopping <==> resized || receiverGone)
                  && n.threads[t].dims == (if resized then th.dims else Some(size))
                  && n.threads[t].snapshot == th.snapshot && n.threads[t].number == th.number)
  {
  }

  /** The flag check of a frame callback: a raised flag stops the session, a lowered one lets the
      frame through. */
  lemma FlagDecidesFrame(m: Machine, t: nat)
    requires t in m.threads && m.threads[t].Session? && m.threads[t].callback.FlagNext?
    ensures var th, n := m.threads[t], Apply(m, ReadFlag(t));
            && t in n.threads && n.threads[t].Session?
            && (n.threads[t].stopping <==> th.stopping || m.shared.needsRebuild)
            && n.threads[t].callback == (if m.shared.needsRebuild then Idle
                                         else BodyNext(th.callback.w, th.callback.h))
            && n.shared == m.shared && n.shutdown == m.shutdown
  {
  }

  // ---------------------------------------------------------------------------------------------
  // The object's lock sections are the machine's steps
  // ---------------------------------------------------------------------------------------------

  method ClaimAsStep(state: SharedState, m: Machine, c: nat, settings: Settings) returns (ok: bool)
    requires state.View() == m.shared && c !in m.calls
    modifies state
    ensures state.View() == Apply(m, Start(c, settings)).shared
    ensures ok <==> c in Apply(m, Start(c, settings)).calls
  {
    ok := state.Claim(settings);
  }

  method SetAsStep(state: SharedState, m: Machine, setter: Setter) returns (ok: bool)
    requires state.View() == m.shared
    modifies state
    ensures state.View() == Apply(m, Set(setter)).shared && ok == m.shared.running
  {
    match setter {
      case SelectDisplay(id) => ok := state.Select(id);
      case SetBitrate(kbps) => ok := state.Bitrate(kbps);
      case SetFps(fps) => ok := state.Fps(fps);
      case SetResolution(w, h) => ok := state.Resolution(w, h);
    }
  }

  method ReadAsStep(state: SharedState, m: Machine, t: nat) returns (snapshot: Settings)
    requires state.View() == m.shared && t in m.threads && m.threads[t].ReadNext?
    ensures SnapshotOf(Apply(m, ReadSettings(t)), t) == Some(snapshot)
  {
    snapshot := state.ReadSettings();
  }

  method ClearAsStep(state: SharedState, m: Machine, t: nat)
    requires state.View() == m.shared && t in m.threads && m.threads[t].ClearNext?
    modifies state
    ensures state.View() == Apply(m, ClearFlag(t)).shared
  {
    state.ClearRebuild();
  }

  // ---------------------------------------------------------------------------------------------
  // A retune carried through
  // ---------------------------------------------------------------------------------------------

  /** The loop reads the settings, clears the flag and begins a session. */
  lemma LoopBegins(m: Machine, t: nat)
    requires t in m.threads && m.threads[t].ReadNext? && !m.shutdown
    ensures var n := Apply(Apply(Apply(m, ReadSettings(t)), ClearFlag(t)), Begin(t, true));
            && n.shared == m.shared.(needsRebuild := false) && !n.shutdown
            && t in n.threads
            && n.threads[t] == Session(m.sessions + 1, m.shared.settings, Revision(m), Revision(m),
                                       None, Idle, false)
  {
    var m1 := Apply(m, ReadSettings(t));
    assert m1.threads[t] == ClearNext(m.shared.settings, Revision(m));
    var m2 := Apply(m1, ClearFlag(t));
    assert m2.threads[t] == Resolving(m.shared.settings, Revision(m), Revision(m));
  }

  /** A change of the frame rate stops the session at its next frame and brings the loop back to
      reading the settings. */
  lemma RetuneStops(m: Machine, t: nat, fps: nat)
    requires t in m.threads && m.threads[t].Session? && m.threads[t].callback.Idle?
    requires !m.threads[t].stopping && !m.shutdown && m.shared.running
    ensures var n := Apply(Apply(Apply(m, Set(SetFps(fps))), Arrive(t, 0, 0)), ReadFlag(t));
            var o := Apply(Apply(Apply(n, End(t)), CheckShutdown(t)), CheckShutdown(t));
            && t in n.threads && n.threads[t].Session? && n.threads[t].stopping
            && !o.shutdown && t in o.threads && o.threads[t] == ReadNext
            && o.shared.settings == m.shared.settings.(fps := fps)
  {
    hide ApplyLoop, ApplyStart;
    var m1 := Apply(m, Set(SetFps(fps)));
    assert m1.threads == m.threads && m1.shared.needsRebuild;
    var m2 := Apply(m1, Arrive(t, 0, 0));
    assert m2.threads[t].callback == FlagNext(0, 0);
    var n := Apply(m2, ReadFlag(t));
    assert n.threads[t].stopping && n.threads[t].callback.Idle?;
    var e := Apply(n, End(t));
    assert e.threads[t] == Ended && !e.shutdown;
    BackToReading(e, t);
  }

  lemma BackToReading(e: Machine, t: nat)
    requires t in e.threads && e.threads[t] == Ended && !e.shutdown
    ensures var o := Apply(Apply(e, CheckShutdown(t)), CheckShutdown(t));
            !o.shutdown && t in o.threads && o.threads[t] == ReadNext && o.shared == e.shared
  {
    var o := Apply(e, CheckShutdown(t));
    assert o.threads[t] == LoopTop;
  }

  /** A concrete run: a session at frame rate 0 is told 60 and stops, and the next runs at 60. */
  lemma RetuneCarriedThrough()
    ensures exists steps :: var m := Run(steps);
              && 0 in m.threads && m.threads[0].Session? && m.threads[0].number == m.sessions
              && m.sessions > 0 && m.threads[0].snapshot.fps == 60 && !m.shared.needsRebuild
  {
    hide Apply, Run, RunFrom;
    var s0 := CLAIMING + SPAWNING;
    SpawningReachesRead();
    var begin := [ReadSettings(0), ClearFlag(0), Begin(0, true)];
    var s1 := s0 + begin;
    RunThreeMore(s0, ReadSettings(0), ClearFlag(0), Begin(0, true));
    LoopBegins(Run(s0), 0);
    var s2 := s1 + [Set(SetFps(60)), Arrive(0, 0, 0), ReadFlag(0)];
    RunThreeMore(s1, Set(SetFps(60)), Arrive(0, 0, 0), ReadFlag(0));
    var s3 := s2 + [End(0), CheckShutdown(0), CheckShutdown(0)];
    RunThreeMore(s2, End(0), CheckShutdown(0), CheckShutdown(0));
    RetuneStops(Run(s1), 0, 60);
    var s4 := s3 + begin;
    RunThreeMore(s3, ReadSettings(0), ClearFlag(0), Begin(0, true));
    LoopBegins(Run(s3), 0);
    ReachableInv(s4);
    assert Remembers(Run(s4), Run(s4).threads[0]);
  }

  lemma RunThreeMore(steps: seq<Step>, a: Step, b: Step, c: Step)
    ensures Run(steps + [a, b, c]) == Apply(Apply(Apply(Run(steps), a), b), c)
  {
    RunAppend(BOOT, steps, [a, b, c]);
    RunThree(Run(steps), a, b, c);
  }
}
