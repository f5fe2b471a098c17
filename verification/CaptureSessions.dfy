/** The Windows capturer's publisher: shared settings, the shutdown flag, start calls and capture
    threads, with each lock section and each atomic access a step of its own. */
module CaptureSessions {
  import opened Bytes

  datatype Settings = Settings(width: nat, height: nat, fps: nat, bitrateKbps: nat, displayId: nat)

  /** What the state mutex guards. */
  datatype Shared = Shared(settings: Settings, running: bool, needsRebuild: bool)

  datatype Setter =
    | SelectDisplay(displayId: nat)
    | SetBitrate(kbps: nat)
    | SetFps(fps: nat)
    | SetResolution(width: nat, height: nat)

  /** A setter has an effect while running, unless it selects the display already active. */
  predicate Effective(s: Shared, setter: Setter) {
    s.running && !(setter.SelectDisplay? && setter.displayId == s.settings.displayId)
  }

  function Changed(s: Settings, setter: Setter): Settings {
    match setter
    case SelectDisplay(id) => s.(displayId := id)
    case SetBitrate(kbps) => s.(bitrateKbps := kbps)
    case SetFps(fps) => s.(fps := fps)
    case SetResolution(w, h) => s.(width := w, height := h)
  }

  function AfterSetter(s: Shared, setter: Setter): Shared {
    if Effective(s, setter) then Shared(Changed(s.settings, setter), true, true) else s
  }

  class SharedState {
    var width: nat
    var height: nat
    var fps: nat
    var bitrateKbps: nat
    var displayId: nat
    var running: bool
    var needsRebuild: bool

    function View(): Shared
      reads this
    {
      Shared(Settings(width, height, fps, bitrateKbps, displayId), running, needsRebuild)
    }

    constructor ()
      ensures View() == Shared(Settings(0, 0, 0, 0, 0), false, false)
    {
      width, height, fps, bitrateKbps, displayId := 0, 0, 0, 0, 0;
      running, needsRebuild := false, false;
    }

    /** The lock section of `start`; false when a publisher is running already. */
    method Claim(settings: Settings) returns (ok: bool)
      modifies this
      ensures ok == !old(running)
      ensures View() == if ok then Shared(settings, true, false) else old(View())
      ensures ok ==> width == settings.width && height == settings.height && fps == settings.fps
                     && bitrateKbps == settings.bitrateKbps && displayId == settings.displayId
    {
      if running {
        return false;
      }
      width, height, fps := settings.width, settings.height, settings.fps;
      bitrateKbps, displayId := settings.bitrateKbps, settings.displayId;
      running, needsRebuild := true, false;
      return true;
    }

    method Select(id: nat) returns (ok: bool)
      modifies this
      ensures ok == old(running) && View() == AfterSetter(old(View()), SelectDisplay(id))
      ensures running == old(running) && width == old(width) && height == old(height)
              && fps == old(fps) && bitrateKbps == old(bitrateKbps)
      ensures displayId == if ok then id else old(displayId)
      ensures needsRebuild == (old(needsRebuild) || (ok && id != old(displayId)))
    {
      if !running {
        return false;
      }
      if displayId == id {
        return true;
      }
      displayId := id;
      needsRebuild := true;
      return true;
    }

    method Bitrate(kbps: nat) returns (ok: bool)
      modifies this
      ensures ok == old(running) && View() == AfterSetter(old(View()), SetBitrate(kbps))
      ensures running == old(running) && width == old(width) && height == old(height)
              && fps == old(fps) && displayId == old(displayId)
      ensures bitrateKbps == if ok then kbps else old(bitrateKbps)
      ensures needsRebuild == (old(needsRebuild) || ok)
    {
      if !running {
        return false;
      }
      bitrateKbps := kbps;
      needsRebuild := true;
      return true;
    }

    method Fps(value: nat) returns (ok: bool)
      modifies this
      ensures ok == old(running) && View() == AfterSetter(old(View()), SetFps(value))
      ensures running == old(running) && width == old(width) && height == old(height)
              && bitrateKbps == old(bitrateKbps) && displayId == old(displayId)
      ensures fps == if ok then value else old(fps)
      ensures needsRebuild == (old(needsRebuild) || ok)
    {
      if !running {
        return false;
      }
      fps := value;
      needsRebuild := true;
      return true;
    }

    method Resolution(w: nat, h: nat) returns (ok: bool)
      modifies this
      ensures ok == old(running) && View() == AfterSetter(old(View()), SetResolution(w, h))
      ensures running == old(running) && fps == old(fps)
              && bitrateKbps == old(bitrateKbps) && displayId == old(displayId)
      ensures width == if ok then w else old(width)
      ensures height == if ok then h else old(height)
      ensures needsRebuild == (old(needsRebuild) || ok)
    {
      if !running {
        return false;
      }
      width := w;
      height := h;
      needsRebuild := true;
      return true;
    }

    method ReadSettings() returns (snapshot: Settings)
      ensures snapshot == View().settings
      ensures snapshot.width == width && snapshot.height == height && snapshot.fps == fps
              && snapshot.bitrateKbps == bitrateKbps && snapshot.displayId == displayId
    {
      snapshot := Settings(width, height, fps, bitrateKbps, displayId);
    }

    method ClearRebuild()
      modifies this
      ensures View() == old(View()).(needsRebuild := false)
    {
      needsRebuild := false;
    }
  }

  // ---------------------------------------------------------------------------------------------
  // The machine
  // ---------------------------------------------------------------------------------------------

  /** A `start` call past its lock section. */
  datatype StartCall = Claimed | ShutdownCleared | SenderSet

  /** A frame callback: none, past the shutdown check, or past the rebuild check. */
  datatype Callback = Idle | FlagNext(w: nat, h: nat) | BodyNext(w: nat, h: nat)

  /** Where a capture thread is. A snapshot is of settings revision `seen`; the rebuild flag was
      cleared at revision `cleared`. */
  datatype Thread =
    | Starting
    | LoopTop
    | ReadNext
    | ClearNext(snapshot: Settings, seen: nat)
    | Resolving(snapshot: Settings, seen: nat, cleared: nat)
    | Session(number: nat, snapshot: Settings, seen: nat, cleared: nat,
              dims: Option<(nat, nat)>, callback: Callback, stopping: bool)
    | Ended
    | ClearShutdownNext
    | DropSenderNext
    | ReleaseNext

  /** `history[r]` is the settings at revision `r`; `sessions` counts the sessions begun. */
  datatype Machine = Machine(shared: Shared, shutdown: bool, sender: bool,
                             calls: map<nat, StartCall>, threads: map<nat, Thread>,
                             history: seq<Settings>, sessions: nat)

  datatype Step =
    | Start(c: nat, settings: Settings)
    | StartClearShutdown(c: nat)
    | StartSetSender(c: nat)
    | Spawn(c: nat, t: nat, ok: bool)
    | Stop
    | Set(setter: Setter)
    | Init(t: nat, ok: bool)
    | CheckShutdown(t: nat)
    | ReadSettings(t: nat)
    | ClearFlag(t: nat)
    | Begin(t: nat, ok: bool)
    | Arrive(t: nat, w: nat, h: nat)
    | ReadFlag(t: nat)
    | FrameBody(t: nat, failed: bool, receiverGone: bool)
    | End(t: nat)
    | ClearShutdown(t: nat)
    | DropSender(t: nat)
    | Release(t: nat)

  const NO_SETTINGS := Settings(0, 0, 0, 0, 0)
  const BOOT :=
    Machine(Shared(NO_SETTINGS, false, false), false, false, map[], map[], [NO_SETTINGS], 0)

  function Revision(m: Machine): nat {
    if m.history == [] then 0 else |m.history| - 1
  }

  function Moved(m: Machine, t: nat, th: Thread): Machine {
    m.(threads := m.threads[t := th])
  }

  function ApplyStart(m: Machine, step: Step): Machine {
    match step
    case Start(c, settings) =>
      if m.shared.running || c in m.calls then m
      else
        m.(shared := Shared(settings, true, false), history := m.history + [settings],
           calls := m.calls[c := Claimed])
    case StartClearShutdown(c) =>
      if c !in m.calls || !m.calls[c].Claimed? then m
      else m.(shutdown := false, calls := m.calls[c := ShutdownCleared])
    case StartSetSender(c) =>
      if c !in m.calls || !m.calls[c].ShutdownCleared? then m
      else m.(sender := true, calls := m.calls[c := SenderSet])
    case Spawn(c, t, ok) =>
      if c !in m.calls || !m.calls[c].SenderSet? || t in m.threads then m
      else if ok then m.(calls := m.calls - {c}, threads := m.threads[t := Starting])
      else m.(calls := m.calls - {c})
    case _ => m
  }

  /** The frame callback after its two checks; `failed` when the encoder cannot be failed or the
      frame not read. */
  function AfterBody(m: Machine, t: nat, th: Thread, failed: bool, receiverGone: bool): Machine
    requires th.Session? && th.callback.BodyNext?
  {
    var (w, h) := (th.callback.w, th.callback.h);
    if th.dims.Some? && th.dims.value != (w, h) then
      Moved(m, t, th.(callback := Idle, stopping := true))
        .(shared := m.shared.(needsRebuild := true))
    else if failed then Moved(m, t, Ended)
    else
      Moved(m, t, th.(dims := Some((w, h)), callback := Idle, stopping := receiverGone))
        .(shutdown := m.shutdown || receiverGone)
  }

  /** The steps of a running session. */
  function ApplySession(m: Machine, t: nat, step: Step): Machine
    requires t in m.threads && m.threads[t].Session?
  {
    var th := m.threads[t];
    match step
    case Arrive(_, w, h) =>
      if th.stopping || !th.callback.Idle? then m
      else if m.shutdown then Moved(m, t, th.(stopping := true))
      else Moved(m, t, th.(callback := FlagNext(w, h)))
    case ReadFlag(_) =>
      if !th.callback.FlagNext? then m
      else if m.shared.needsRebuild then Moved(m, t, th.(callback := Idle, stopping := true))
      else Moved(m, t, th.(callback := BodyNext(th.callback.w, th.callback.h)))
    case FrameBody(_, failed, receiverGone) =>
      if !th.callback.BodyNext? then m else AfterBody(m, t, th, failed, receiverGone)
    case End(_) => if th.callback.Idle? then Moved(m, t, Ended) else m
    case _ => m
  }

  /** The steps of the outer loop and of the thread's end. */
  function ApplyLoop(m: Machine, t: nat, step: Step): Machine
    requires t in m.threads
  {
    match (step, m.threads[t])
    case (Init(_, ok), Starting) => Moved(m, t, if ok then LoopTop else ClearShutdownNext)
    case (CheckShutdown(_), LoopTop) =>
      Moved(m, t, if m.shutdown then ClearShutdownNext else ReadNext)
    case (CheckShutdown(_), Ended) =>
      Moved(m, t, if m.shutdown then ClearShutdownNext else LoopTop)
    case (ReadSettings(_), ReadNext) => Moved(m, t, ClearNext(m.shared.settings, Revision(m)))
    case (ClearFlag(_), ClearNext(snapshot, seen)) =>
      Moved(m, t, Resolving(snapshot, seen, Revision(m)))
        .(shared := m.shared.(needsRebuild := false))
    case (Begin(_, ok), Resolving(snapshot, seen, cleared)) =>
      if ok
      then Moved(m, t, Session(m.sessions + 1, snapshot, seen, cleared, None, Idle, false))
             .(sessions := m.sessions + 1)
      else Moved(m, t, ClearShutdownNext)
    case (ClearShutdown(_), ClearShutdownNext) => Moved(m, t, DropSenderNext).(shutdown := false)
    case (DropSender(_), DropSenderNext) => Moved(m, t, ReleaseNext).(sender := false)
    case (Release(_), ReleaseNext) =>
      m.(threads := m.threads - {t}, shared := m.shared.(running := false))
    case _ => m
  }

  function ApplyThread(m: Machine, t: nat, step: Step): Machine
    requires t in m.threads
  {
    if m.threads[t].Session? then ApplySession(m, t, step) else ApplyLoop(m, t, step)
  }

  function ThreadOf(step: Step): Option<nat> {
    match step
    case Init(t, _) => Some(t)
    case CheckShutdown(t) => Some(t)
    case ReadSettings(t) => Some(t)
    case ClearFlag(t) => Some(t)
    case Begin(t, _) => Some(t)
    case Arrive(t, _, _) => Some(t)
    case ReadFlag(t) => Some(t)
    case FrameBody(t, _, _) => Some(t)
    case End(t) => Some(t)
    case ClearShutdown(t) => Some(t)
    case DropSender(t) => Some(t)
    case Release(t) => Some(t)
    case _ => None
  }

  /** A step that is not enabled changes nothing. */
  function Apply(m: Machine, step: Step): Machine {
    match step
    case Stop => m.(shutdown := true)
    case Set(setter) =>
      if Effective(m.shared, setter)
      then
        m.(shared := AfterSetter(m.shared, setter),
           history := m.history + [Changed(m.shared.settings, setter)])
      else m
    case _ =>
      match ThreadOf(step)
      case Some(t) => if t in m.threads then ApplyThread(m, t, step) else m
      case None => ApplyStart(m, step)
  }

  function RunFrom(m: Machine, steps: seq<Step>): Machine {
    if steps == [] then m
    else Apply(RunFrom(m, steps[..|steps| - 1]), steps[|steps| - 1])
  }

  function Run(steps: seq<Step>): Machine {
    RunFrom(BOOT, steps)
  }

  // ---------------------------------------------------------------------------------------------
  // The invariant
  // ---------------------------------------------------------------------------------------------

  /** Only one start call or capture thread exists at a time, and only while running. */
  ghost predicate Exclusive(m: Machine) {
    && (forall a, b :: a in m.calls && b in m.calls ==> a == b)
    && (forall a, b :: a in m.threads && b in m.threads ==> a == b)
    && (forall a, b :: a in m.calls && b in m.threads ==> false)
    && (!m.shared.running ==> m.calls == map[] && m.threads == map[])
  }

  ghost predicate SettingsAt(m: Machine, revision: nat, settings: Settings) {
    revision < |m.history| && m.history[revision] == settings
  }

  /** What a thread remembers is true of the settings' history, and a change after the clear has
      the flag up. */
  ghost predicate Remembers(m: Machine, th: Thread) {
    match th
    case ClearNext(snapshot, seen) => SettingsAt(m, seen, snapshot)
    case Resolving(snapshot, seen, cleared) =>
      && seen <= cleared <= Revision(m) && SettingsAt(m, seen, snapshot)
      && (cleared < Revision(m) ==> m.shared.needsRebuild)
    case Session(number, snapshot, seen, cleared, _, _, _) =>
      && number == m.sessions
      && seen <= cleared <= Revision(m) && SettingsAt(m, seen, snapshot)
      && (cleared < Revision(m) ==> m.shared.needsRebuild)
    case _ => true
  }

  ghost predicate Inv(m: Machine) {
    && Exclusive(m)
    && |m.history| > 0 && m.history[Revision(m)] == m.shared.settings
    && (forall t :: t in m.threads ==> Remembers(m, m.threads[t]))
  }

  lemma StartKeepsInv(m: Machine, step: Step)
    requires Inv(m)
    ensures Inv(ApplyStart(m, step))
  {
  }

  lemma SetKeepsInv(m: Machine, setter: Setter)
    requires Inv(m)
    ensures Inv(Apply(m, Set(setter)))
  {
  }

  /** The one thread there is moves on; flags aside, nothing else changes. */
  lemma MovedKeepsInv(m: Machine, n: Machine, t: nat, th: Thread)
    requires Inv(m) && t in m.threads
    requires n.threads == m.threads[t := th] && n.calls == m.calls && n.history == m.history
    requires n.shared.settings == m.shared.settings && n.shared.running == m.shared.running
    requires Remembers(n, th)
    ensures Inv(n)
  {
    hide Remembers;
  }

  lemma BodyKeepsInv(m: Machine, t: nat, failed: bool, receiverGone: bool)
    requires Inv(m) && t in m.threads && m.threads[t].Session? && m.threads[t].callback.BodyNext?
    ensures Inv(AfterBody(m, t, m.threads[t], failed, receiverGone))
  {
    assert Remembers(m, m.threads[t]);
    hide Inv;
    var n := AfterBody(m, t, m.threads[t], failed, receiverGone);
    MovedKeepsInv(m, n, t, n.threads[t]);
  }

  lemma SessionKeepsInv(m: Machine, t: nat, step: Step)
    requires Inv(m) && t in m.threads && m.threads[t].Session?
    ensures Inv(ApplySession(m, t, step))
  {
    assert Remembers(m, m.threads[t]);
    hide Inv, AfterBody;
    var n := ApplySession(m, t, step);
    if step.FrameBody? {
      if m.threads[t].callback.BodyNext? {
        BodyKeepsInv(m, t, step.failed, step.receiverGone);
      }
    } else if n != m {
      assert Remembers(n, n.threads[t]);
      MovedKeepsInv(m, n, t, n.threads[t]);
    }
  }

  lemma ReleaseKeepsInv(m: Machine, t: nat)
    requires Inv(m) && t in m.threads
    ensures Inv(m.(threads := m.threads - {t}, shared := m.shared.(running := false)))
  {
    hide Remembers;
  }

  lemma LoopKeepsInv(m: Machine, t: nat, step: Step)
    requires Inv(m) && t in m.threads
    ensures Inv(ApplyLoop(m, t, step))
  {
    assert Remembers(m, m.threads[t]) && |m.history| > 0;
    assert m.history[Revision(m)] == m.shared.settings;
    hide Inv;
    var n := ApplyLoop(m, t, step);
    if step.Release? && m.threads[t].ReleaseNext? {
      ReleaseKeepsInv(m, t);
    } else if n != m {
      assert Remembers(n, n.threads[t]);
      MovedKeepsInv(m, n, t, n.threads[t]);
    }
  }

  lemma ThreadKeepsInv(m: Machine, t: nat, step: Step)
    requires Inv(m) && t in m.threads
    ensures Inv(ApplyThread(m, t, step))
  {
    hide ApplySession, ApplyLoop;
    if m.threads[t].Session? {
      SessionKeepsInv(m, t, step);
    } else {
      LoopKeepsInv(m, t, step);
    }
  }

  lemma StepKeepsInv(m: Machine, step: Step)
    requires Inv(m)
    ensures Inv(Apply(m, step))
  {
    hide ApplyThread, ApplyStart;
    var thread := ThreadOf(step);
    if step.Set? {
      SetKeepsInv(m, step.setter);
    } else if !step.Stop? {
      if thread.None? {
        StartKeepsInv(m, step);
      } else if thread.value in m.threads {
        ThreadKeepsInv(m, thread.value, step);
      }
    }
  }

  lemma {:induction false} RunKeepsInv(m: Machine, steps: seq<Step>)
    requires Inv(m)
    ensures Inv(RunFrom(m, steps))
  {
    hide Apply, Inv;
    if steps == [] {
    } else {
      RunKeepsInv(m, steps[..|steps| - 1]);
      StepKeepsInv(RunFrom(m, steps[..|steps| - 1]), steps[|steps| - 1]);
    }
  }

  lemma ReachableInv(steps: seq<Step>)
    ensures Inv(Run(steps))
  {
    RunKeepsInv(BOOT, steps);
  }

  // ---------------------------------------------------------------------------------------------
  // What every run guarantees
  // ---------------------------------------------------------------------------------------------

  /** Capture sessions never overlap: there is at most one capture thread. */
  lemma SessionsNeverOverlap(steps: seq<Step>, t: nat, u: nat)
    requires t in Run(steps).threads && u in Run(steps).threads
    ensures t == u && Run(steps).shared.running
  {
    hide Run;
    ReachableInv(steps);
  }

  /** An effective change made since a session cleared the flag ends it at its next flag check. */
  lemma RetuneStopsSession(steps: seq<Step>, t: nat)
    requires t in Run(steps).threads && Run(steps).threads[t].Session?
    requires Run(steps).threads[t].callback.FlagNext?
    requires Run(steps).threads[t].cleared < Revision(Run(steps))
    ensures var th := Apply(Run(steps), ReadFlag(t)).threads[t];
            th.Session? && th.stopping && th.callback.Idle?
  {
    hide Run;
    ReachableInv(steps);
    assert Remembers(Run(steps), Run(steps).threads[t]);
  }

  lemma StoppingSessionStep(m: Machine, t: nat, step: Step)
    requires t in m.threads && m.threads[t].Session? && m.threads[t].stopping
    requires m.threads[t].callback.Idle?
    ensures t in ApplySession(m, t, step).threads
    ensures var th := ApplySession(m, t, step).threads[t]; th == m.threads[t] || th.Ended?
  {
  }

  /** Other threads' steps and start calls leave thread `t` where it is. */
  lemma StartLeavesThread(m: Machine, t: nat, step: Step)
    requires t in m.threads
    ensures t in ApplyStart(m, step).threads && ApplyStart(m, step).threads[t] == m.threads[t]
  {
  }

  lemma SessionLeavesThread(m: Machine, t: nat, u: nat, step: Step)
    requires t in m.threads && u in m.threads && u != t && m.threads[u].Session?
    ensures t in ApplySession(m, u, step).threads
    ensures ApplySession(m, u, step).threads[t] == m.threads[t]
  {
  }

  lemma LoopLeavesThread(m: Machine, t: nat, u: nat, step: Step)
    requires t in m.threads && u in m.threads && u != t
    ensures t in ApplyLoop(m, u, step).threads && ApplyLoop(m, u, step).threads[t] == m.threads[t]
  {
  }

  /** A stopping session takes no further frame: whatever happens next, it stays as it is or has
      ended. */
  lemma StoppingSessionOnlyEnds(m: Machine, t: nat, step: Step)
    requires t in m.threads && m.threads[t].Session? && m.threads[t].stopping
    requires m.threads[t].callback.Idle?
    ensures t in Apply(m, step).threads
    ensures Apply(m, step).threads[t] == m.threads[t] || Apply(m, step).threads[t].Ended?
  {
    hide ApplySession, ApplyLoop, ApplyStart;
    var thread := ThreadOf(step);
    if thread == Some(t) {
      StoppingSessionStep(m, t, step);
    } else if thread.None? {
      StartLeavesThread(m, t, step);
    } else if thread.value in m.threads {
      if m.threads[thread.value].Session? {
        SessionLeavesThread(m, t, thread.value, step);
      } else {
        LoopLeavesThread(m, t, thread.value, step);
      }
    }
  }

  /** Since session `number` ran at revision `rev`, any other snapshot is that recent. */
  ghost predicate SnapshotsSince(m: Machine, number: nat, rev: nat) {
    && rev <= Revision(m) && number <= m.sessions
    && forall t :: t in m.threads ==>
         match m.threads[t]
         case ClearNext(_, seen) => rev <= seen
         case Resolving(_, seen, _) => rev <= seen
         case Session(n, _, seen, _, _, _, _) => n == number || rev <= seen
         case _ => true
  }

  lemma SessionKeepsSnapshotsSince(m: Machine, number: nat, rev: nat, t: nat, step: Step)
    requires SnapshotsSince(m, number, rev) && t in m.threads && m.threads[t].Session?
    ensures SnapshotsSince(ApplySession(m, t, step), number, rev)
  {
  }

  lemma LoopKeepsSnapshotsSince(m: Machine, number: nat, rev: nat, t: nat, step: Step)
    requires SnapshotsSince(m, number, rev) && t in m.threads
    ensures SnapshotsSince(ApplyLoop(m, t, step), number, rev)
  {
  }

  lemma StartKeepsSnapshotsSince(m: Machine, number: nat, rev: nat, step: Step)
    requires SnapshotsSince(m, number, rev)
    ensures SnapshotsSince(ApplyStart(m, step), number, rev)
  {
  }

  lemma SetKeepsSnapshotsSince(m: Machine, number: nat, rev: nat, setter: Setter)
    requires SnapshotsSince(m, number, rev)
    ensures SnapshotsSince(Apply(m, Set(setter)), number, rev)
    ensures SnapshotsSince(Apply(m, Stop), number, rev)
  {
    hide ApplyThread, ApplyStart;
  }

  lemma StepKeepsSnapshotsSince(m: Machine, number: nat, rev: nat, step: Step)
    requires SnapshotsSince(m, number, rev)
    ensures SnapshotsSince(Apply(m, step), number, rev)
  {
    hide ApplySession, ApplyLoop, ApplyStart, SnapshotsSince;
    var thread := ThreadOf(step);
    if step.Stop? {
      SetKeepsSnapshotsSince(m, number, rev, SetFps(0));
    } else if step.Set? {
      SetKeepsSnapshotsSince(m, number, rev, step.setter);
    } else if thread.None? {
      StartKeepsSnapshotsSince(m, number, rev, step);
    } else if thread.value in m.threads {
      if m.threads[thread.value].Session? {
        SessionKeepsSnapshotsSince(m, number, rev, thread.value, step);
      } else {
        LoopKeepsSnapshotsSince(m, number, rev, thread.value, step);
      }
    }
  }

  lemma {:induction false} RunKeepsSnapshotsSince(m: Machine, number: nat, rev: nat, steps: seq<Step>)
    requires SnapshotsSince(m, number, rev)
    ensures SnapshotsSince(RunFrom(m, steps), number, rev)
  {
    hide Apply, SnapshotsSince;
    if steps == [] {
    } else {
      var front := steps[..|steps| - 1];
      RunKeepsSnapshotsSince(m, number, rev, front);
      StepKeepsSnapshotsSince(RunFrom(m, front), number, rev, steps[|steps| - 1]);
    }
  }

  lemma {:induction false} RunAppend(m: Machine, a: seq<Step>, b: seq<Step>)
    ensures RunFrom(m, a + b) == RunFrom(RunFrom(m, a), b)
  {
    hide Apply;
    if b == [] {
      assert a + b == a;
    } else {
      RunAppend(m, a, b[..|b| - 1]);
      assert (a + b)[..|a + b| - 1] == a + b[..|b| - 1];
    }
  }

  /** Every change made while a session runs is in the settings of every later session, unless a
      still later change has replaced it. */
  lemma RetuneReachesNextSession(before: seq<Step>, after: seq<Step>, t: nat, u: nat)
    requires t in Run(before).threads && Run(before).threads[t].Session?
    requires u in Run(before + after).threads && Run(before + after).threads[u].Session?
    requires Run(before + after).threads[u].number != Run(before).threads[t].number
    ensures var th := Run(before + after).threads[u];
            && Revision(Run(before)) <= th.seen < |Run(before + after).history|
            && th.snapshot == Run(before + after).history[th.seen]
  {
    var m := Run(before);
    ReachableInv(before);
    ReachableInv(before + after);
    RunAppend(BOOT, before, after);
    assert Remembers(m, m.threads[t]);
    RunKeepsSnapshotsSince(m, m.threads[t].number, Revision(m), after);
    assert Remembers(Run(before + after), Run(before + after).threads[u]);
  }

  /** A session whose flag is down runs with the current settings, unless they were changed
      between its reading them and its clearing the flag. */
  lemma UnflaggedSessionIsCurrent(steps: seq<Step>, t: nat)
    requires t in Run(steps).threads && Run(steps).threads[t].Session?
    requires !Run(steps).shared.needsRebuild
    ensures var th := Run(steps).threads[t];
            && th.cleared == Revision(Run(steps))
            && (th.seen == th.cleared ==> th.snapshot == Run(steps).shared.settings)
  {
    hide Run;
    ReachableInv(steps);
    assert Remembers(Run(steps), Run(steps).threads[t]);
  }

  lemma SessionHoldsClaim(m: Machine, t: nat, step: Step)
    requires t in m.threads && m.threads[t].Session?
    ensures ApplySession(m, t, step).threads.Keys == m.threads.Keys
  {
  }

  /** A thread is there until it releases the claim, and never becomes two. */
  lemma ThreadHoldsClaim(m: Machine, t: nat, step: Step)
    requires t in m.threads
    ensures var n := ApplyThread(m, t, step);
            && n.threads.Keys <= m.threads.Keys
            && (t in n.threads || !n.shared.running)
  {
    hide ApplySession;
    if m.threads[t].Session? {
      SessionHoldsClaim(m, t, step);
    }
  }

  // ---------------------------------------------------------------------------------------------
  // Changes between the two lock sections
  // ---------------------------------------------------------------------------------------------

  predicate Between(m: Machine, t: nat) {
    t in m.threads && m.threads[t].ClearNext?
  }

  predicate Changes(m: Machine, step: Step) {
    step.Set? && Effective(m.shared, step.setter)
  }

  /** Thread `t` reads the settings. */
  predicate Reads(m: Machine, step: Step, t: nat) {
    step == ReadSettings(t) && t in m.threads && m.threads[t].ReadNext?
  }

  /** At step `j` the settings change while thread `t` has read them and not yet cleared the flag,
      and it has not read them again since. */
  ghost predicate ChangesBetween(steps: seq<Step>, t: nat, j: nat) {
    && j < |steps| && Between(Run(steps[..j]), t) && Changes(Run(steps[..j]), steps[j])
    && forall i :: j < i < |steps| ==> !Reads(Run(steps[..i]), steps[i], t)
  }

  ghost predicate ChangedBetween(steps: seq<Step>, t: nat) {
    exists j :: ChangesBetween(steps, t, j)
  }

  lemma ChangedBetweenSnoc(steps: seq<Step>, t: nat)
    requires steps != []
    ensures var front := steps[..|steps| - 1];
            var m, last := Run(front), steps[|steps| - 1];
            ChangedBetween(steps, t) <==>
            (ChangedBetween(front, t) && !Reads(m, last, t)) || (Between(m, t) && Changes(m, last))
  {
    hide Run, Between, Changes, Reads;
    var front := steps[..|steps| - 1];
    assert forall i :: 0 <= i < |steps| ==> front[..i] == steps[..i];
    forall j: nat | j < |front|
      ensures ChangesBetween(steps, t, j) <==>
              ChangesBetween(front, t, j) && !Reads(Run(front), steps[|front|], t)
    {
    }
    assert ChangesBetween(steps, t, |front|) <==>
           Between(Run(front), t) && Changes(Run(front), steps[|front|]);
  }

  /** What a list of setters makes of some settings. */
  function Made(s: Settings, setters: seq<Setter>): Settings {
    if setters == [] then s
    else Changed(Made(s, setters[..|setters| - 1]), setters[|setters| - 1])
  }

  /** The setters that took effect between thread `t`'s latest reading of the settings and its
      clearing of the flag. */
  function SettersBetween(steps: seq<Step>, t: nat): seq<Setter> {
    if steps == [] then []
    else
      var front, last := steps[..|steps| - 1], steps[|steps| - 1];
      SettersNext(Run(front), last, t, SettersBetween(front, t))
  }

  function SettersNext(m: Machine, step: Step, t: nat, setters: seq<Setter>): seq<Setter> {
    if Reads(m, step, t) then []
    else if Between(m, t) && Changes(m, step) then setters + [step.setter]
    else setters
  }

  lemma {:induction false} SettersBetweenExactly(steps: seq<Step>, t: nat)
    ensures SettersBetween(steps, t) != [] <==> ChangedBetween(steps, t)
  {
    hide Run, Reads, Between, Changes;
    if steps == [] {
      assert forall j :: !ChangesBetween(steps, t, j);
    } else {
      hide ChangedBetween;
      var front, last := steps[..|steps| - 1], steps[|steps| - 1];
      SettersBetweenExactly(front, t);
      ChangedBetweenSnoc(steps, t);
      ReadIsNoChange(Run(front), last, t);
    }
  }

  lemma ReadIsNoChange(m: Machine, step: Step, t: nat)
    ensures Reads(m, step, t) ==> !Changes(m, step)
  {
  }

  /** What thread `t` read becomes, by `setters` and in revision numbers, what it is up to when it
      clears the flag. */
  ghost predicate ReadThenChanged(m: Machine, t: nat, setters: seq<Setter>) {
    t in m.threads ==>
      match m.threads[t]
      case ClearNext(snapshot, seen) =>
        (seen == Revision(m) <==> setters == []) && m.shared.settings == Made(snapshot, setters)
      case Resolving(snapshot, seen, cleared) =>
        (seen == cleared <==> setters == []) && SettingsAt(m, cleared, Made(snapshot, setters))
      case Session(_, snapshot, seen, cleared, _, _, _) =>
        (seen == cleared <==> setters == []) && SettingsAt(m, cleared, Made(snapshot, setters))
      case _ => true
  }

  lemma SessionKeepsRead(m: Machine, t: nat, step: Step, setters: seq<Setter>)
    requires ReadThenChanged(m, t, setters) && t in m.threads && m.threads[t].Session?
    ensures ReadThenChanged(ApplySession(m, t, step), t, setters)
  {
    hide Made;
  }

  lemma LoopKeepsRead(m: Machine, t: nat, step: Step, setters: seq<Setter>)
    requires Inv(m) && ReadThenChanged(m, t, setters)
    requires t in m.threads && ThreadOf(step) == Some(t)
    ensures ReadThenChanged(ApplyLoop(m, t, step), t, if Reads(m, step, t) then [] else setters)
  {
    if Reads(m, step, t) {
      assert Made(m.shared.settings, []) == m.shared.settings;
    }
    hide Made;
  }

  lemma StartKeepsRead(m: Machine, t: nat, step: Step, setters: seq<Setter>)
    requires Inv(m) && ReadThenChanged(m, t, setters)
    ensures ReadThenChanged(ApplyStart(m, step), t, setters)
  {
    hide Made;
  }

  lemma SetKeepsRead(m: Machine, t: nat, setter: Setter, setters: seq<Setter>)
    requires Inv(m) && ReadThenChanged(m, t, setters)
    ensures ReadThenChanged(Apply(m, Set(setter)), t, SettersNext(m, Set(setter), t, setters))
  {
    assert t in m.threads ==> Remembers(m, m.threads[t]);
    MadeSnoc(setters, setter);
    hide Made;
  }

  lemma MadeSnoc(setters: seq<Setter>, setter: Setter)
    ensures forall s :: Made(s, setters + [setter]) == Changed(Made(s, setters), setter)
  {
    assert (setters + [setter])[..|setters|] == setters;
  }

  lemma StepKeepsRead(m: Machine, t: nat, step: Step, setters: seq<Setter>)
    requires Inv(m) && ReadThenChanged(m, t, setters)
    ensures ReadThenChanged(Apply(m, step), t, SettersNext(m, step, t, setters))
  {
    hide ApplySession, ApplyLoop, ApplyStart, Effective, Changed, Made;
    var thread := ThreadOf(step);
    if step.Set? {
      SetKeepsRead(m, t, step.setter, setters);
    } else if thread.None? {
      if !step.Stop? {
        hide ReadThenChanged, Inv;
        StartKeepsRead(m, t, step, setters);
      }
    } else if thread.value in m.threads {
      if thread.value != t {
        assert t !in m.threads;
        ThreadHoldsClaim(m, thread.value, step);
      } else if m.threads[t].Session? {
        hide ReadThenChanged, Inv;
        SessionKeepsRead(m, t, step, setters);
      } else {
        hide ReadThenChanged;
        LoopKeepsRead(m, t, step, setters);
      }
    }
  }

  lemma {:induction false} RunKeepsRead(steps: seq<Step>, t: nat)
    ensures ReadThenChanged(Run(steps), t, SettersBetween(steps, t))
  {
    hide Apply, ReadThenChanged, SettersNext;
    if steps == [] {
      NothingRead(t);
    } else {
      var front := steps[..|steps| - 1];
      RunKeepsRead(front, t);
      ReachableInv(front);
      StepKeepsRead(Run(front), t, steps[|steps| - 1], SettersBetween(front, t));
    }
  }

  lemma NothingRead(t: nat)
    ensures ReadThenChanged(BOOT, t, [])
  {
  }

  /** In every run a session whose flag is down runs with the latest revision of the settings
      exactly when no effective change fell between its reading them and its clearing the flag;
      and what those changes make of its settings are the settings there are. */
  lemma UnflaggedSessionIsCurrentExactly(steps: seq<Step>, t: nat)
    requires t in Run(steps).threads && Run(steps).threads[t].Session?
    requires !Run(steps).shared.needsRebuild
    ensures var m := Run(steps);
            var th := m.threads[t];
            && (th.seen == Revision(m) <==> !ChangedBetween(steps, t))
            && m.shared.settings == Made(th.snapshot, SettersBetween(steps, t))
  {
    hide Run, ChangedBetween, SettersBetween, Made;
    RunKeepsRead(steps, t);
    SettersBetweenExactly(steps, t);
    UnflaggedSessionIsCurrent(steps, t);
    ReachableInv(steps);
  }

  /** Setters of the same settings. */
  predicate SameKind(a: Setter, b: Setter) {
    match a
    case SelectDisplay(_) => b.SelectDisplay?
    case SetBitrate(_) => b.SetBitrate?
    case SetFps(_) => b.SetFps?
    case SetResolution(_, _) => b.SetResolution?
  }

  /** The last setter of the kind of `like`. */
  function LastOf(setters: seq<Setter>, like: Setter): Option<Setter> {
    if setters == [] then None
    else if SameKind(like, setters[|setters| - 1]) then Some(setters[|setters| - 1])
    else LastOf(setters[..|setters| - 1], like)
  }

  function ChangedBy(s: Settings, setter: Option<Setter>): Settings {
    if setter.None? then s else Changed(s, setter.value)
  }

  lemma {:induction false} MadeByLasts(s: Settings, setters: seq<Setter>)
    ensures Made(s, setters)
            == ChangedBy(ChangedBy(ChangedBy(ChangedBy(s, LastOf(setters, SelectDisplay(0))),
                                             LastOf(setters, SetBitrate(0))),
                                   LastOf(setters, SetFps(0))),
                         LastOf(setters, SetResolution(0, 0)))
    ensures forall like :: LastOf(setters, like).Some? ==> SameKind(like, LastOf(setters, like).value)
  {
    if setters == [] {
    } else {
      MadeByLasts(s, setters[..|setters| - 1]);
    }
  }

  lemma {:induction false} LastOfKind(setters: seq<Setter>, a: Setter, b: Setter)
    requires SameKind(a, b)
    ensures LastOf(setters, a) == LastOf(setters, b)
  {
    if setters == [] {
    } else {
      LastOfKind(setters[..|setters| - 1], a, b);
    }
  }

  lemma MadeSameExactly(s: Settings, setters: seq<Setter>)
    ensures Made(s, setters) == s <==> forall like :: ChangedBy(s, LastOf(setters, like)) == s
  {
    hide Made, LastOf;
    MadeByLasts(s, setters);
    if Made(s, setters) == s {
      forall like ensures ChangedBy(s, LastOf(setters, like)) == s {
        match like {
          case SelectDisplay(_) => LastOfKind(setters, like, SelectDisplay(0));
          case SetBitrate(_) => LastOfKind(setters, like, SetBitrate(0));
          case SetFps(_) => LastOfKind(setters, like, SetFps(0));
          case SetResolution(_, _) => LastOfKind(setters, like, SetResolution(0, 0));
        }
      }
    }
  }

  /** So its settings are the ones there are exactly when the last change of each kind that fell
      in between, if any did, wrote the values it had read. */
  lemma UnflaggedSettingsAreCurrentExactly(steps: seq<Step>, t: nat)
    requires t in Run(steps).threads && Run(steps).threads[t].Session?
    requires !Run(steps).shared.needsRebuild
    ensures var snapshot := Run(steps).threads[t].snapshot;
            snapshot == Run(steps).shared.settings <==>
            forall like :: ChangedBy(snapshot, LastOf(SettersBetween(steps, t), like)) == snapshot
  {
    hide Run, ChangedBetween, SettersBetween, Made, LastOf, ChangedBy;
    UnflaggedSessionIsCurrentExactly(steps, t);
    MadeSameExactly(Run(steps).threads[t].snapshot, SettersBetween(steps, t));
  }

  /** A change between the two lock sections is lost: the session runs with the settings read
      before it, and nothing is flagged. */
  lemma RetuneBetweenSectionsIsLost(m: Machine, t: nat, setter: Setter)
    requires Inv(m) && t in m.threads && m.threads[t].ReadNext? && Effective(m.shared, setter)
    ensures var r := RunFrom(m, [ReadSettings(t), Set(setter), ClearFlag(t), Begin(t, true)]);
            && !r.shared.needsRebuild && t in r.threads && r.threads[t].Session?
            && r.threads[t].snapshot == m.shared.settings
            && r.shared.settings == Changed(m.shared.settings, setter)
  {
    hide Apply;
    var read, set1, clear, begin := ReadSettings(t), Set(setter), ClearFlag(t), Begin(t, true);
    RunFour(m, read, set1, clear, begin);
    FourSteps(m, t, setter);
  }

  // A start call and a capture thread, up to reading the settings.
  const CLAIMING := [Start(0, NO_SETTINGS), StartClearShutdown(0), StartSetSender(0)]
  const SPAWNING := [Spawn(0, 0, true), Init(0, true), CheckShutdown(0)]

  lemma RunThree(m: Machine, a: Step, b: Step, c: Step)
    ensures RunFrom(m, [a, b, c]) == Apply(Apply(Apply(m, a), b), c)
  {
    hide Apply;
    assert [a, b, c][..2] == [a, b] && [a, b][..1] == [a] && [a][..0] == [];
    assert RunFrom(m, [a, b]) == Apply(RunFrom(m, [a]), b);
  }

  lemma ClaimingReachesSpawn()
    ensures var m := Run(CLAIMING);
            m.calls == map[0 := SenderSet] && m.threads == map[] && !m.shutdown
            && m.shared.running && m.shared.settings == NO_SETTINGS
  {
    RunThree(BOOT, CLAIMING[0], CLAIMING[1], CLAIMING[2]);
    assert CLAIMING == [CLAIMING[0], CLAIMING[1], CLAIMING[2]];
    var s1 := Apply(BOOT, CLAIMING[0]);
    assert s1.calls == map[0 := Claimed];
    var s2 := Apply(s1, CLAIMING[1]);
    assert s2.calls == map[0 := ShutdownCleared];
  }

  lemma SpawningReachesRead()
    ensures var m := Run(CLAIMING + SPAWNING);
            0 in m.threads && m.threads[0].ReadNext? && !m.shutdown
            && m.shared.running && m.shared.settings == NO_SETTINGS
  {
    var m := Run(CLAIMING);
    ClaimingReachesSpawn();
    RunAppend(BOOT, CLAIMING, SPAWNING);
    RunThree(m, SPAWNING[0], SPAWNING[1], SPAWNING[2]);
    assert SPAWNING == [SPAWNING[0], SPAWNING[1], SPAWNING[2]];
  }

  /** Such a run: the session has the old frame rate, the publisher the new one, and nothing will
      tell the session. */
  lemma RetuneIsLostInSomeRun()
    ensures exists steps :: var m := Run(steps);
              && 0 in m.threads && m.threads[0].Session? && !m.shared.needsRebuild
              && m.threads[0].snapshot.fps == 0 && m.shared.settings.fps == 60
  {
    var opening := CLAIMING + SPAWNING;
    var m := Run(opening);
    SpawningReachesRead();
    ReachableInv(opening);
    RetuneBetweenSectionsIsLost(m, 0, SetFps(60));
    var rest := [ReadSettings(0), Set(SetFps(60)), ClearFlag(0), Begin(0, true)];
    RunAppend(BOOT, opening, rest);
    assert Run(opening + rest) == RunFrom(m, rest);
  }

  lemma RunFour(m: Machine, a: Step, b: Step, c: Step, d: Step)
    ensures RunFrom(m, [a, b, c, d]) == Apply(Apply(Apply(Apply(m, a), b), c), d)
  {
    hide Apply;
    assert [a, b, c, d][..3] == [a, b, c] && [a, b, c][..2] == [a, b] && [a, b][..1] == [a];
    assert [a][..0] == [];
    assert RunFrom(m, [a, b, c]) == Apply(RunFrom(m, [a, b]), c);
    assert RunFrom(m, [a, b]) == Apply(RunFrom(m, [a]), b);
  }

  lemma FourSteps(m: Machine, t: nat, setter: Setter)
    requires t in m.threads && m.threads[t].ReadNext? && Effective(m.shared, setter)
    ensures var r := Apply(Apply(Apply(Apply(m, ReadSettings(t)), Set(setter)), ClearFlag(t)),
                           Begin(t, true));
            && !r.shared.needsRebuild && t in r.threads && r.threads[t].Session?
            && r.threads[t].snapshot == m.shared.settings
            && r.shared.settings == Changed(m.shared.settings, setter)
  {
    hide ApplySession, ApplyStart, Changed, Effective;
    var s1 := Apply(m, ReadSettings(t));
    assert s1 == Moved(m, t, ClearNext(m.shared.settings, Revision(m)));
    var s2 := Apply(s1, Set(setter));
    assert s2.threads == s1.threads;
    var s3 := Apply(s2, ClearFlag(t));
    assert s3.threads[t] == Resolving(m.shared.settings, Revision(m), Revision(s2));
  }

  /** Nobody left to release the claim. */
  ghost predicate Wedged(m: Machine) {
    m.shared.running && m.calls == map[] && m.threads == map[]
  }

  lemma {:induction false} WedgedForGood(m: Machine, steps: seq<Step>)
    requires Wedged(m)
    ensures Wedged(RunFrom(m, steps))
  {
    if steps == [] {
    } else {
      WedgedForGood(m, steps[..|steps| - 1]);
    }
  }

  /** The capture thread of start call `c` fails to spawn. */
  predicate FailsToSpawn(m: Machine, step: Step) {
    && step.Spawn? && !step.ok
    && step.c in m.calls && m.calls[step.c].SenderSet? && step.t !in m.threads
  }

  ghost predicate SomeSpawnFailed(steps: seq<Step>) {
    exists i :: 0 <= i < |steps| && FailsToSpawn(Run(steps[..i]), steps[i])
  }

  lemma SpawnFailedSnoc(steps: seq<Step>)
    requires steps != []
    ensures var front := steps[..|steps| - 1];
            SomeSpawnFailed(steps) <==>
            SomeSpawnFailed(front) || FailsToSpawn(Run(front), steps[|front|])
  {
    hide Run, FailsToSpawn;
    var front := steps[..|steps| - 1];
    assert forall i :: 0 <= i < |front| ==> front[..i] == steps[..i];
  }

  lemma StartWedges(m: Machine, step: Step)
    requires Inv(m) && !Wedged(m) && ThreadOf(step).None?
    ensures Wedged(ApplyStart(m, step)) <==> FailsToSpawn(m, step)
  {
    match step {
      case Spawn(c, t, ok) =>
        if FailsToSpawn(m, step) {
          assert m.calls - {c} == map[];
          assert m.threads == map[];
        }
      case _ =>
    }
  }

  lemma StepWedges(m: Machine, step: Step)
    requires Inv(m) && !Wedged(m)
    ensures Wedged(Apply(m, step)) <==> FailsToSpawn(m, step)
  {
    hide ApplyThread, ApplyStart;
    var thread := ThreadOf(step);
    if thread.None? {
      if !step.Set? && !step.Stop? {
        StartWedges(m, step);
      }
    } else if thread.value in m.threads {
      ThreadHoldsClaim(m, thread.value, step);
    }
  }

  lemma WedgedStays(m: Machine, step: Step)
    requires Wedged(m)
    ensures Wedged(Apply(m, step))
  {
  }

  /** In every run, the publisher is claimed with nobody left to release it exactly when some
      capture thread has failed to spawn. */
  lemma {:induction false} WedgedExactly(steps: seq<Step>)
    ensures Wedged(Run(steps)) <==> SomeSpawnFailed(steps)
  {
    hide Apply, FailsToSpawn;
    if steps == [] {
      assert !SomeSpawnFailed(steps);
    } else {
      hide Wedged, SomeSpawnFailed;
      var front, last := steps[..|steps| - 1], steps[|steps| - 1];
      WedgedExactly(front);
      SpawnFailedSnoc(steps);
      ReachableInv(front);
      if Wedged(Run(front)) {
        WedgedStays(Run(front), last);
      } else {
        StepWedges(Run(front), last);
      }
    }
  }

  /** Such a run: the first start call of all wedges the publisher. */
  lemma FirstStartCanWedge()
    ensures Wedged(Run(CLAIMING + [Spawn(0, 0, false)]))
  {
    ClaimingReachesSpawn();
    FailedSpawnWedges(CLAIMING, 0, 0, []);
    assert CLAIMING + [Spawn(0, 0, false)] + [] == CLAIMING + [Spawn(0, 0, false)];
  }

  /** A thread that fails to spawn leaves the publisher claimed: no later `start` succeeds. */
  lemma FailedSpawnWedges(before: seq<Step>, c: nat, t: nat, after: seq<Step>)
    requires c in Run(before).calls && Run(before).calls[c].SenderSet?
    ensures Wedged(Run(before + [Spawn(c, t, false)] + after))
  {
    var m := Run(before);
    ReachableInv(before);
    RunAppend(BOOT, before + [Spawn(c, t, false)], after);
    RunAppend(BOOT, before, [Spawn(c, t, false)]);
    var step := [Spawn(c, t, false)];
    assert RunFrom(m, step) == Apply(m, step[0]) by { assert step[..0] == []; }
    assert m.threads == map[];
    assert m.calls - {c} == map[];
    WedgedForGood(Apply(m, step[0]), after);
  }
}
