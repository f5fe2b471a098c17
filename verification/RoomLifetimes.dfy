/** When a peer's room appears, is dropped, and outlives the publishers and viewers that used it. */
module RoomLifetimes {
  import opened Bytes
  import opened NalKinds
  import opened WarmupWindows
  import opened WarmupHistory
  import opened WarmupJoin
  import opened Rooms

  // ---------------------------------------------------------------------------------------------
  // Who watches a room
  // ---------------------------------------------------------------------------------------------

  /** Viewer `v` has not left since it joined. */
  ghost predicate NeverLeft(steps: seq<Step>, v: nat) {
    forall j :: 0 <= j < |steps| && steps[j] == Leave(v) ==> v !in Run(steps[..j]).viewers
  }

  /** At step `i` viewer `v` subscribes, having been given room `r`. */
  ghost predicate SubscribesAt(steps: seq<Step>, v: nat, r: nat, i: nat) {
    && i < |steps| && steps[i] == Subscribe(v)
    && v in Run(steps[..i]).viewers && Run(steps[..i]).viewers[v].room == r
  }

  /** Some viewer has subscribed to room `r` and not left. */
  ghost predicate Watched(steps: seq<Step>, r: nat) {
    exists v, i :: SubscribesAt(steps, v, r, i) && NeverLeft(steps, v)
  }

  ghost predicate Subscribes(steps: seq<Step>, v: nat, r: nat) {
    exists i :: SubscribesAt(steps, v, r, i)
  }

  lemma NeverLeftSnoc(steps: seq<Step>, v: nat)
    requires steps != []
    ensures var front := steps[..|steps| - 1];
            NeverLeft(steps, v) <==>
            NeverLeft(front, v) && (steps[|front|] == Leave(v) ==> v !in Run(front).viewers)
  {
    hide Run;
    var front := steps[..|steps| - 1];
    assert forall i :: 0 <= i < |steps| ==> front[..i] == steps[..i];
    assert steps[..|front|] == front;
  }

  lemma SubscribesSnoc(steps: seq<Step>, v: nat, r: nat)
    requires steps != []
    ensures var front := steps[..|steps| - 1];
            var s := Run(front);
            Subscribes(steps, v, r) <==>
            || Subscribes(front, v, r)
            || (steps[|front|] == Subscribe(v) && v in s.viewers && s.viewers[v].room == r)
  {
    hide Run;
    var front := steps[..|steps| - 1];
    assert forall i :: 0 <= i < |steps| ==> front[..i] == steps[..i];
    assert forall i: nat :: i < |front| ==>
             (SubscribesAt(steps, v, r, i) <==> SubscribesAt(front, v, r, i));
    assert SubscribesAt(steps, v, r, |front|) <==>
           steps[|front|] == Subscribe(v) && v in Run(front).viewers
           && Run(front).viewers[v].room == r;
  }

  lemma ViewerStep(s: System, step: Step, v: nat)
    requires v in s.viewers && s.viewers[v].room < |s.rooms|
    ensures var t := Apply(s, step);
            && v in t.viewers && t.viewers[v].room == s.viewers[v].room
            && (t.viewers[v].open <==> s.viewers[v].open && step != Leave(v))
            && (t.viewers[v].phase != Found <==>
                  s.viewers[v].phase != Found || (step == Subscribe(v) && s.viewers[v].open))
  {
    hide HasReceivers, Recorded, Snapshot;
  }

  lemma ViewerStarts(s: System, step: Step, v: nat)
    requires v !in s.viewers && v in Apply(s, step).viewers
    ensures Apply(s, step).viewers[v].open && Apply(s, step).viewers[v].phase == Found
    ensures step.Join?
  {
    hide HasReceivers, Recorded, Snapshot;
  }

  /** What the steps so far have made of viewer `v`. */
  ghost predicate ViewerIs(steps: seq<Step>, v: nat) {
    var s := Run(steps);
    && (v !in s.viewers ==> NeverLeft(steps, v) && forall r :: !Subscribes(steps, v, r))
    && (v in s.viewers ==>
          && (s.viewers[v].open <==> NeverLeft(steps, v))
          && (forall r :: Subscribes(steps, v, r) ==> r == s.viewers[v].room)
          && (NeverLeft(steps, v) ==>
                (s.viewers[v].phase != Found <==> Subscribes(steps, v, s.viewers[v].room))))
  }

  lemma {:induction false} ViewerOfRun(steps: seq<Step>, v: nat)
    ensures ViewerIs(steps, v)
  {
    hide Apply, Inv;
    if steps == [] {
      assert forall r, i :: !SubscribesAt(steps, v, r, i);
    } else {
      hide NeverLeft, Subscribes, Run;
      var front, last := steps[..|steps| - 1], steps[|steps| - 1];
      ViewerOfRun(front, v);
      NeverLeftSnoc(steps, v);
      forall r ensures Subscribes(steps, v, r) <==>
                       || Subscribes(front, v, r)
                       || (last == Subscribe(v) && v in Run(front).viewers
                           && Run(front).viewers[v].room == r)
      {
        SubscribesSnoc(steps, v, r);
      }
      assert front + [last] == steps;
      RunSnoc(front, last);
      if v in Run(front).viewers {
        ViewerInRoom(front, v);
        ViewerStep(Run(front), last, v);
      } else if v in Run(steps).viewers {
        ViewerStarts(Run(front), last, v);
      }
    }
  }

  lemma ViewerInRoom(steps: seq<Step>, v: nat)
    requires v in Run(steps).viewers
    ensures Run(steps).viewers[v].room < |Run(steps).rooms|
  {
    hide Run;
    RunKeepsInv(steps);
    assert ViewerOk(Run(steps).rooms, Run(steps).viewers[v]);
  }

  /** A room has receivers exactly when somebody has subscribed to it and not left since. */
  lemma ReceiversAreWatchers(steps: seq<Step>, r: nat)
    ensures HasReceivers(Run(steps), r) <==> Watched(steps, r)
  {
    hide Run, NeverLeft, SubscribesAt;
    if v :| v in Run(steps).viewers && Run(steps).viewers[v].room == r && Run(steps).viewers[v].open
            && Run(steps).viewers[v].phase != Found {
      ViewerOfRun(steps, v);
      assert Subscribes(steps, v, r);
    }
    if v, i: nat :| SubscribesAt(steps, v, r, i) && NeverLeft(steps, v) {
      ViewerOfRun(steps, v);
      assert Subscribes(steps, v, r);
    }
  }

  /** Viewer `v` subscribed at step `i` and took its snapshot at step `k`, both with effect. */
  ghost predicate JoinedAt(steps: seq<Step>, v: nat, i: nat, k: nat) {
    && i < k < |steps|
    && steps[i] == Subscribe(v) && Viewing(Run(steps[..i]), v, Found)
    && steps[k] == TakeSnapshot(v) && Viewing(Run(steps[..k]), v, Subscribed)
  }

  /** A viewer's positions are how much had been sent to its room when it subscribed and how much
      recorded when it took its snapshot. */
  ghost predicate PositionsAre(steps: seq<Step>, v: nat, i: nat, k: nat)
    requires v in Run(steps).viewers && JoinedAt(steps, v, i, k)
  {
    var w := Run(steps).viewers[v];
    && w.room < |Run(steps[..i]).rooms| && w.room < |Run(steps[..k]).rooms|
    && w.subscribedAt == |Run(steps[..i]).rooms[w.room].log|
    && w.snapshotAt == |Run(steps[..k]).rooms[w.room].history|
  }

  lemma PositionStep(s: System, step: Step, v: nat)
    requires v in s.viewers && s.viewers[v].room < |s.rooms|
    ensures var t, w := Apply(s, step), s.viewers[v];
            && v in t.viewers && t.viewers[v].room == w.room
            && (if step == Subscribe(v) && Viewing(s, v, Found)
                then t.viewers[v].phase == Subscribed
                     && t.viewers[v].subscribedAt == |s.rooms[w.room].log|
                else if step == TakeSnapshot(v) && Viewing(s, v, Subscribed)
                then t.viewers[v].phase == Live && t.viewers[v].subscribedAt == w.subscribedAt
                     && t.viewers[v].snapshotAt == |s.rooms[w.room].history|
                else t.viewers[v].phase == w.phase && t.viewers[v].subscribedAt == w.subscribedAt
                     && t.viewers[v].snapshotAt == w.snapshotAt)
  {
    hide HasReceivers, Recorded, Snapshot;
  }

  lemma {:induction false} SubscribedWhen(steps: seq<Step>, v: nat) returns (i: nat)
    requires v in Run(steps).viewers && Run(steps).viewers[v].phase != Found
    ensures i < |steps| && steps[i] == Subscribe(v) && Viewing(Run(steps[..i]), v, Found)
    ensures Run(steps).viewers[v].room < |Run(steps[..i]).rooms|
    ensures Run(steps).viewers[v].subscribedAt
            == |Run(steps[..i]).rooms[Run(steps).viewers[v].room].log|
    decreases |steps|
  {
    hide Apply, Viewing, Inv;
    assert steps != [];
    var front, last := steps[..|steps| - 1], steps[|steps| - 1];
    hide Run;
    assert front + [last] == steps;
    RunSnoc(front, last);
    assert forall i :: 0 <= i < |steps| ==> front[..i] == steps[..i];
    if v !in Run(front).viewers {
      ViewerStarts(Run(front), last, v);
      assert false;
    }
    ViewerInRoom(front, v);
    PositionStep(Run(front), last, v);
    if last == Subscribe(v) && Viewing(Run(front), v, Found) {
      i := |front|;
    } else {
      if Run(front).viewers[v].phase == Found {
        assert last == TakeSnapshot(v) && Viewing(Run(front), v, Subscribed);
        NotFound(Run(front), v);
      }
      i := SubscribedWhen(front, v);
    }
  }

  lemma NotFound(s: System, v: nat)
    requires Viewing(s, v, Subscribed)
    ensures s.viewers[v].phase == Subscribed
  {
  }

  /** So every live viewer subscribed, and took its snapshot later, at the positions it holds. */
  lemma {:induction false} LivePositions(steps: seq<Step>, v: nat) returns (i: nat, k: nat)
    requires v in Run(steps).viewers && Run(steps).viewers[v].phase == Live
    ensures JoinedAt(steps, v, i, k) && PositionsAre(steps, v, i, k)
    decreases |steps|
  {
    hide Apply, Viewing, Inv;
    assert steps != [];
    var front, last := steps[..|steps| - 1], steps[|steps| - 1];
    hide Run;
    assert front + [last] == steps;
    RunSnoc(front, last);
    assert forall i :: 0 <= i < |steps| ==> front[..i] == steps[..i];
    if v !in Run(front).viewers {
      ViewerStarts(Run(front), last, v);
      assert false;
    }
    ViewerInRoom(front, v);
    PositionStep(Run(front), last, v);
    if last == TakeSnapshot(v) && Viewing(Run(front), v, Subscribed) {
      NotFound(Run(front), v);
      i := SubscribedWhen(front, v);
      k := |front|;
    } else {
      i, k := LivePositions(front, v);
    }
  }

  /** A viewer that falls behind skips frames and is marked as lagging. */
  lemma LagSkips(s: System, v: nat, n: nat)
    requires Viewing(s, v, Live) && s.viewers[v].replay == []
    requires s.viewers[v].next + n <= |s.rooms[s.viewers[v].room].log|
    ensures var w := Apply(s, Lag(v, n)).viewers[v];
            w.lagged && w.next == s.viewers[v].next + n && w.sent == s.viewers[v].sent
  {
  }

  /** A viewer that has left takes nothing further. */
  lemma LeftViewerTakesNothing(s: System, v: nat, n: nat)
    requires v in s.viewers && !s.viewers[v].open
    ensures Apply(s, Subscribe(v)) == s && Apply(s, TakeSnapshot(v)) == s
    ensures Apply(s, ReplayNext(v)) == s && Apply(s, Receive(v)) == s && Apply(s, Lag(v, n)) == s
  {
  }

  /** A publisher that has ended records and sends nothing further, and ends only once. */
  lemma EndedPublisherIsSilent(s: System, p: nat, frame: Frame)
    requires p in s.publishers && !s.publishers[p].open
    ensures Apply(s, Record(p, frame)) == s && Apply(s, Send(p)) == s
    ensures Apply(s, Close(p)) == s && Apply(s, Fail(p)) == s
  {
  }

  // ---------------------------------------------------------------------------------------------
  // When a peer has a room
  // ---------------------------------------------------------------------------------------------

  /** A clean close that takes the peer's room out of the table: nobody who has subscribed to it is
      still there, though another publisher may be using it. */
  ghost predicate Drops(steps: seq<Step>, step: Step, peer: string) {
    var s := Run(steps);
    && step.Close? && Publishing(s, step.p) && s.publishers[step.p].inFlight.None?
    && s.publishers[step.p].peer == peer
    && peer in s.table && !Watched(steps, s.table[peer])
  }

  ghost predicate DropsNow(s: System, step: Step, peer: string) {
    && step.Close? && Publishing(s, step.p) && s.publishers[step.p].inFlight.None?
    && s.publishers[step.p].peer == peer
    && peer in s.table && !HasReceivers(s, s.table[peer])
  }

  lemma DropsIsNow(steps: seq<Step>, step: Step, peer: string)
    ensures Drops(steps, step, peer) <==> DropsNow(Run(steps), step, peer)
  {
    hide Run, Watched, HasReceivers;
    if peer in Run(steps).table {
      ReceiversAreWatchers(steps, Run(steps).table[peer]);
    }
  }

  /** A new publisher or a new viewer of the peer. */
  ghost predicate Admits(s: System, step: Step, peer: string) {
    || (step.Connect? && step.peer == peer && step.p !in s.publishers)
    || (step.Join? && step.peer == peer && step.v !in s.viewers)
  }

  /** Step `i` admits someone to the peer's room, and no later step drops it. */
  ghost predicate KeptSince(steps: seq<Step>, peer: string, i: nat) {
    && i < |steps| && Admits(Run(steps[..i]), steps[i], peer)
    && forall j :: i < j < |steps| ==> !Drops(steps[..j], steps[j], peer)
  }

  ghost predicate Kept(steps: seq<Step>, peer: string) {
    exists i :: KeptSince(steps, peer, i)
  }

  lemma KeptSnoc(steps: seq<Step>, peer: string)
    requires steps != []
    ensures var front := steps[..|steps| - 1];
            var s, last := Run(front), steps[|front|];
            Kept(steps, peer) <==>
            (Kept(front, peer) && !Drops(front, last, peer)) || Admits(s, last, peer)
  {
    hide Run, Drops, Admits;
    var front := steps[..|steps| - 1];
    assert forall i :: 0 <= i < |steps| ==> front[..i] == steps[..i];
    forall i: nat | i < |front|
      ensures KeptSince(steps, peer, i) <==>
              KeptSince(front, peer, i) && !Drops(front, steps[|front|], peer)
    {
    }
    assert KeptSince(steps, peer, |front|) <==> Admits(Run(front), steps[|front|], peer);
  }

  lemma TableStep(s: System, step: Step, peer: string)
    ensures peer in Apply(s, step).table <==>
            (peer in s.table && !DropsNow(s, step, peer)) || Admits(s, step, peer)
  {
    hide HasReceivers, Recorded, Snapshot;
  }

  /** In every run a peer has a room exactly when somebody was admitted to it and no clean close
      without subscribers has come since: neither a publisher's socket error nor the last viewer's
      leaving takes the room away. */
  lemma {:induction false} PeerHasRoomExactly(steps: seq<Step>, peer: string)
    ensures peer in Run(steps).table <==> Kept(steps, peer)
  {
    hide Apply, Drops, DropsNow, Admits;
    if steps == [] {
      assert forall i :: !KeptSince(steps, peer, i);
    } else {
      hide Kept;
      var front := steps[..|steps| - 1];
      PeerHasRoomExactly(front, peer);
      KeptSnoc(steps, peer);
      DropsIsNow(front, steps[|front|], peer);
      TableStep(Run(front), steps[|front|], peer);
    }
  }

  /** A clean close drops the peer's room exactly when nobody is subscribed to it; the next
      session then starts from an empty cache, and otherwise from the cache left behind. */
  lemma CloseDropsUnwatchedRoom(steps: seq<Step>, p: nat)
    requires var s := Run(steps);
             p in s.publishers && s.publishers[p].open && s.publishers[p].inFlight.None?
    ensures var s := Run(steps);
            var peer := s.publishers[p].peer;
            var t := Run(steps + [Close(p)]);
            && (peer in t.table <==> peer in s.table && Watched(steps, s.table[peer]))
            && (peer in t.table ==> s.table[peer] < |s.rooms|)
            && var (u, r) := RoomFor(t, peer);
               r < |u.rooms|
               && u.rooms[r].window == if peer in t.table then s.rooms[s.table[peer]].window else EMPTY
  {
    hide RoomOk, ViewerOk, WindowAfter, Watched, HasReceivers;
    var s := Run(steps);
    RunKeepsInv(steps);
    if s.publishers[p].peer in s.table {
      ReceiversAreWatchers(steps, s.table[s.publishers[p].peer]);
    }
    assert PublisherOk(s.rooms, p, s.publishers[p]);
    assert (steps + [Close(p)])[..|steps|] == steps;
    assert Run(steps + [Close(p)]) == Apply(s, Close(p));
  }

  // ---------------------------------------------------------------------------------------------
  // When a publisher and a later viewer of its peer meet
  // ---------------------------------------------------------------------------------------------

  /** Since publisher `p` connected, the room of its peer has been dropped. */
  ghost predicate DropsAt(steps: seq<Step>, p: nat, i: nat) {
    && i < |steps| && p in Run(steps[..i]).publishers
    && Drops(steps[..i], steps[i], Run(steps[..i]).publishers[p].peer)
  }

  ghost predicate DroppedSince(steps: seq<Step>, p: nat) {
    exists i :: DropsAt(steps, p, i)
  }

  ghost predicate Findable(s: System, p: nat)
    requires p in s.publishers
  {
    s.publishers[p].peer in s.table && s.table[s.publishers[p].peer] == s.publishers[p].room
  }

  lemma DroppedSinceSnoc(steps: seq<Step>, p: nat)
    requires steps != []
    ensures var front := steps[..|steps| - 1];
            DroppedSince(steps, p) <==> DroppedSince(front, p) || DropsAt(steps, p, |front|)
  {
    hide Run, Drops;
    var front := steps[..|steps| - 1];
    assert forall i :: 0 <= i < |steps| ==> front[..i] == steps[..i];
    assert forall i: nat :: i < |front| ==> (DropsAt(steps, p, i) <==> DropsAt(front, p, i));
  }

  lemma PublisherStays(s: System, step: Step, p: nat)
    requires p in s.publishers
    ensures p in Apply(s, step).publishers
    ensures Apply(s, step).publishers[p].peer == s.publishers[p].peer
    ensures Apply(s, step).publishers[p].room == s.publishers[p].room
  {
    hide HasReceivers, Recorded, Snapshot;
  }

  lemma FindableStep(s: System, step: Step, p: nat)
    requires Inv(s) && p in s.publishers
    ensures p in Apply(s, step).publishers
    ensures Findable(Apply(s, step), p) <==>
            Findable(s, p) && !DropsNow(s, step, s.publishers[p].peer)
  {
    hide HasReceivers, Recorded, Snapshot, RoomOk, ViewerOk;
    PublisherStays(s, step, p);
    assert PublisherOk(s.rooms, p, s.publishers[p]);
  }

  lemma NewPublisherFindable(s: System, step: Step, p: nat)
    requires p !in s.publishers && p in Apply(s, step).publishers
    ensures Findable(Apply(s, step), p)
  {
    hide HasReceivers, Recorded, Snapshot;
  }

  lemma {:induction false} FindableExactly(steps: seq<Step>, p: nat)
    ensures p !in Run(steps).publishers ==> !DroppedSince(steps, p)
    ensures p in Run(steps).publishers ==>
              (Findable(Run(steps), p) <==> !DroppedSince(steps, p))
  {
    hide Apply, Inv, Drops, DropsNow;
    if steps == [] {
      assert forall i :: !DropsAt(steps, p, i);
    } else {
      var front, last := steps[..|steps| - 1], steps[|steps| - 1];
      hide DroppedSince, Findable;
      FindableExactly(front, p);
      DroppedSinceSnoc(steps, p);
      RunKeepsInv(front);
      assert steps[..|front|] == front;
      if p in Run(front).publishers {
        FindableStep(Run(front), last, p);
        DropsIsNow(front, last, Run(front).publishers[p].peer);
      } else if p in Run(steps).publishers {
        NewPublisherFindable(Run(front), last, p);
      }
    }
  }

  /** In every run, a viewer that joins now is put into the room publisher `p` records to exactly
      when no clean close has dropped the peer's room since `p` connected. */
  lemma LaterViewerMeetsPublisherExactly(steps: seq<Step>, p: nat, v: nat)
    requires p in Run(steps).publishers && v !in Run(steps).viewers
    ensures var pub := Run(steps).publishers[p];
            var t := Run(steps + [Join(v, pub.peer)]);
            && v in t.viewers
            && (t.viewers[v].room == pub.room <==> !DroppedSince(steps, p))
  {
    hide Run, DroppedSince, RoomOk, ViewerOk;
    var s := Run(steps);
    RunKeepsInv(steps);
    FindableExactly(steps, p);
    RunSnoc(steps, Join(v, s.publishers[p].peer));
    assert PublisherOk(s.rooms, p, s.publishers[p]);
  }

  // ---------------------------------------------------------------------------------------------
  // Runs
  // ---------------------------------------------------------------------------------------------

  const SPS := Sample(0x67)
  const IDR := Sample(0x65)
  const SLICE := Sample(0x41)

  lemma SampleRoom()
    ensures Snapshot(WindowAfter([SPS, IDR])) == [SPS, IDR]
  {
    hide ClassifyNal, SortedKeys, Replay, WindowAfter, Sample;
    SampleWindow();
    OnlyKey(SortedKeys({7}), 7);
    assert map[7 := SPS].Keys == {7};
    assert [SPS, IDR, SLICE][..2] == [SPS, IDR];
  }

  lemma ConnectFirst()
    ensures var s := Apply(START, Connect(0, "a"));
            && s.rooms == [Room("a", [], EMPTY, [])] && s.table == map["a" := 0]
            && s.publishers == map[0 := Publisher("a", 0, None, true)] && s.viewers == map[]
  {
  }

  /** The room's sole publisher records and sends a frame. */
  lemma RecordAndSend(s: System, history: seq<Entry>, log: seq<nat>, frame: Frame)
    requires |s.rooms| == 1 && s.rooms[0].history == history && s.rooms[0].log == log
    requires 0 in s.publishers && s.publishers[0] == Publisher("a", 0, None, true)
    ensures var t := Apply(Apply(s, Record(0, frame)), Send(0));
            && |t.rooms| == 1 && t.rooms[0].history == history + [Entry(frame, 0)]
            && t.rooms[0].log == log + [|history|]
            && t.table == s.table && t.viewers == s.viewers
            && 0 in t.publishers && t.publishers == s.publishers
  {
    hide Recorded;
    var t := Apply(s, Record(0, frame));
    assert Publishing(s, 0);
    assert t.publishers == s.publishers[0 := Publisher("a", 0, Some(|history|), true)];
    assert Publishing(t, 0);
  }

  lemma RunTwoMore(steps: seq<Step>, a: Step, b: Step)
    ensures Run(steps + [a, b]) == Apply(Apply(Run(steps), a), b)
  {
    hide Apply;
    RunSnoc(steps, a);
    RunSnoc(steps + [a], b);
    assert steps + [a] + [b] == steps + [a, b];
  }

  /** A publisher of "a" has sent a parameter set and a keyframe, and nobody watches. */
  lemma OneSession() returns (steps: seq<Step>)
    ensures var s := Run(steps);
            && s.table == map["a" := 0] && s.viewers == map[]
            && s.publishers == map[0 := Publisher("a", 0, None, true)]
            && |s.rooms| == 1 && s.rooms[0].log == [0, 1]
            && s.rooms[0].history == [Entry(SPS, 0), Entry(IDR, 0)]
  {
    hide Apply, Run, Sample;
    RunStarts();
    var s1 := [Connect(0, "a")];
    RunSnoc([], Connect(0, "a"));
    assert [] + s1 == s1;
    ConnectFirst();
    RunTwoMore(s1, Record(0, SPS), Send(0));
    RecordAndSend(Run(s1), [], [], SPS);
    var s3 := s1 + [Record(0, SPS), Send(0)];
    assert [] + [Entry(SPS, 0)] == [Entry(SPS, 0)] && [] + [0] == [0];
    RunTwoMore(s3, Record(0, IDR), Send(0));
    RecordAndSend(Run(s3), [Entry(SPS, 0)], [0], IDR);
    steps := s3 + [Record(0, IDR), Send(0)];
  }

  lemma SessionIsCached(steps: seq<Step>)
    requires var s := Run(steps);
             |s.rooms| == 1 && s.rooms[0].history == [Entry(SPS, 0), Entry(IDR, 0)]
    ensures Snapshot(Run(steps).rooms[0].window) == [SPS, IDR]
  {
    hide Run, Snapshot, WindowAfter, Sample;
    RunKeepsInv(steps);
    SampleRoom();
    assert RoomOk(Run(steps).publishers, 0, Run(steps).rooms[0]);
    assert Frames(Run(steps).rooms[0].history) == [SPS, IDR];
  }

  /** The room of "a" is there with the last session's frames, though nobody publishes or
      watches. */
  ghost predicate Abandoned(s: System) {
    && (forall p :: p in s.publishers ==> !s.publishers[p].open)
    && (forall v :: v in s.viewers ==> !s.viewers[v].open)
    && "a" in s.table && s.table["a"] < |s.rooms|
    && Snapshot(s.rooms[s.table["a"]].window) == [SPS, IDR]
  }

  /** A publisher that ends on a socket error leaves its room and cache behind. */
  lemma ErroredPublisherLeavesRoom()
    ensures exists steps :: Abandoned(Run(steps))
  {
    hide Run, Snapshot, Sample;
    var opening := OneSession();
    var steps := opening + [Fail(0)];
    RunSnoc(opening, Fail(0));
    assert Publishing(Run(opening), 0);
    SessionIsCached(steps);
    assert Abandoned(Run(steps));
  }

  lemma ClosedWhileWatched(s: System)
    requires |s.rooms| == 1 && s.table == map["a" := 0] && s.viewers == map[]
    requires s.publishers == map[0 := Publisher("a", 0, None, true)]
    ensures var t := Apply(Apply(Apply(Apply(s, Join(0, "a")), Subscribe(0)), Close(0)), Leave(0));
            && t.rooms == s.rooms && t.table == s.table
            && t.publishers == map[0 := Publisher("a", 0, None, false)]
            && t.viewers.Keys == {0} && !t.viewers[0].open
  {
    var s1 := Apply(s, Join(0, "a"));
    var s2 := Apply(s1, Subscribe(0));
    assert s2.viewers[0].phase == Subscribed && s2.viewers[0].room == 0 && s2.viewers[0].open;
    assert HasReceivers(s2, 0);
  }

  /** So does one that closes cleanly while somebody watches, even once that viewer has left. */
  lemma WatchedRoomOutlivesItsViewers()
    ensures exists steps :: Abandoned(Run(steps))
                            && steps != [] && steps[|steps| - 1] == Leave(0)
  {
    hide Run, Apply, Snapshot, Sample;
    var opening := OneSession();
    var watched := opening + [Join(0, "a"), Subscribe(0)];
    RunTwoMore(opening, Join(0, "a"), Subscribe(0));
    var steps := watched + [Close(0), Leave(0)];
    RunTwoMore(watched, Close(0), Leave(0));
    ClosedWhileWatched(Run(opening));
    SessionIsCached(steps);
    assert Abandoned(Run(steps));
  }

  lemma ClosedAfterLeaving(s: System)
    requires |s.rooms| == 1 && s.table == map["a" := 0] && s.viewers == map[]
    requires s.publishers == map[0 := Publisher("a", 0, None, true)]
    ensures var t := Apply(Apply(Apply(Apply(s, Join(0, "a")), Subscribe(0)), Leave(0)), Close(0));
            && t.table == map[] && t.viewers.Keys == {0}
            && RoomFor(t, "a").0.rooms == t.rooms + [Room("a", [], EMPTY, [])]
            && RoomFor(t, "a").1 == |t.rooms|
  {
    var s1 := Apply(s, Join(0, "a"));
    var s2 := Apply(s1, Subscribe(0));
    assert s2.viewers[0].phase == Subscribed && s2.viewers[0].room == 0 && s2.viewers[0].open;
    var s3 := Apply(s2, Leave(0));
    assert !s3.viewers[0].open && s3.viewers.Keys == {0};
    assert !HasReceivers(s3, 0);
  }

  /** But once the last viewer has left, a clean close takes the room and its frames away: whoever
      comes next gets an empty one. */
  lemma UnwatchedRoomIsDropped()
    ensures exists steps :: var s := Run(steps);
              && s.viewers.Keys == {0} && "a" !in s.table && |s.rooms| > 0
              && Snapshot(s.rooms[0].window) == [SPS, IDR]
              && RoomFor(s, "a").1 < |RoomFor(s, "a").0.rooms|
              && RoomFor(s, "a").0.rooms[RoomFor(s, "a").1].window == EMPTY
  {
    hide Run, Apply, Snapshot, Sample;
    var opening := OneSession();
    var watched := opening + [Join(0, "a"), Subscribe(0)];
    RunTwoMore(opening, Join(0, "a"), Subscribe(0));
    var steps := watched + [Leave(0), Close(0)];
    RunTwoMore(watched, Leave(0), Close(0));
    ClosedAfterLeaving(Run(opening));
    ClosedKeepsRooms(Run(opening));
    SessionIsCached(steps);
  }

  lemma ClosedKeepsRooms(s: System)
    requires s.table == map["a" := 0] && s.viewers == map[]
    ensures Apply(Apply(Apply(Apply(s, Join(0, "a")), Subscribe(0)), Leave(0)), Close(0)).rooms
            == s.rooms
  {
  }

  /** A run in which they miss each other: of two publishers one closes, the other goes on into a
      room no viewer will find. */
  lemma PublisherLeftAlone()
    ensures exists steps :: var s := Run(steps);
              && 1 in s.publishers && s.publishers[1].open && s.publishers[1].peer == "a"
              && 0 in s.viewers && s.viewers[0].peer == "a"
              && s.viewers[0].room != s.publishers[1].room
  {
    hide Run;
    var s3 := [Connect(0, "a"), Connect(1, "a"), Close(0)];
    var a1 := Apply(START, s3[0]);
    var a2 := Apply(a1, s3[1]);
    var a3 := Apply(a2, s3[2]);
    assert a2.table == map["a" := 0] && a2.publishers[1] == Publisher("a", 0, None, true);
    assert !HasReceivers(a2, 0) && a3.table == map[];
    RunSnoc([], s3[0]);
    RunSnoc([s3[0]], s3[1]);
    RunSnoc([s3[0], s3[1]], s3[2]);
    assert [] + [s3[0]] == [s3[0]] && [s3[0]] + [s3[1]] == [s3[0], s3[1]]
           && [s3[0], s3[1]] + [s3[2]] == s3;
    RunSnoc(s3, Join(0, "a"));
    RunStarts();
  }

  lemma RunStarts()
    ensures Run([]) == START
  {
  }

  // ---------------------------------------------------------------------------------------------
  // A raced join in a run
  // ---------------------------------------------------------------------------------------------

  /** A viewer subscribes, the publisher records a slice, the viewer takes its snapshot, and only
      then is the slice sent. */
  lemma RaceSteps(s: System)
    requires |s.rooms| == 1 && s.table == map["a" := 0] && s.viewers == map[]
    requires s.publishers == map[0 := Publisher("a", 0, None, true)]
    requires s.rooms[0].log == [0, 1] && |s.rooms[0].history| == 2
    ensures var t := Apply(Apply(Apply(Apply(Apply(s, Join(0, "a")), Subscribe(0)),
                                       Record(0, SLICE)), TakeSnapshot(0)), Send(0));
            && |t.rooms| == 1 && t.rooms[0].log == [0, 1, 2]
            && t.rooms[0].history == s.rooms[0].history + [Entry(SLICE, 0)]
            && t.rooms[0].window == Recorded(s.rooms[0].window, SLICE)
            && 0 in t.viewers
            && t.viewers[0] == Viewer("a", 0, Live, true, 2, 3, Snapshot(t.rooms[0].window), 2, [],
                                      false)
  {
    hide Recorded, Snapshot, Sample;
    var s1 := Apply(s, Join(0, "a"));
    var s2 := Apply(s1, Subscribe(0));
    assert s2.viewers[0] == Viewer("a", 0, Subscribed, true, 2, 0, [], 2, [], false);
    assert Publishing(s2, 0);
    var s3 := Apply(s2, Record(0, SLICE));
    assert s3.publishers[0] == Publisher("a", 0, Some(2), true) && Viewing(s3, 0, Subscribed);
    var s4 := Apply(s3, TakeSnapshot(0));
    assert Publishing(s4, 0);
  }

  lemma ReplaySteps(s: System, f: Frame, g: Frame, h: Frame)
    requires Viewing(s, 0, Live) && s.viewers[0].replay == [f, g, h] && s.viewers[0].sent == []
    requires var room := s.rooms[s.viewers[0].room];
             s.viewers[0].next < |room.log| && room.log[s.viewers[0].next] < |room.history|
    ensures var t := Apply(Apply(Apply(Apply(s, ReplayNext(0)), ReplayNext(0)), ReplayNext(0)),
                           Receive(0));
            var w := s.viewers[0];
            var room := s.rooms[w.room];
            && t.rooms == s.rooms && 0 in t.viewers
            && t.viewers[0] == w.(sent := [f, g, h] + [room.history[room.log[w.next]].frame],
                                  replay := [], next := w.next + 1)
  {
    var w := s.viewers[0];
    var s1 := Apply(s, ReplayNext(0));
    assert s1.viewers[0] == w.(sent := [f], replay := [g, h]);
    var s2 := Apply(s1, ReplayNext(0));
    assert s2.viewers[0] == w.(sent := [f, g], replay := [h]);
    var s3 := Apply(s2, ReplayNext(0));
    assert s3.viewers[0] == w.(sent := [f, g, h], replay := []);
  }

  /** A viewer that was sent everything, replay and live, and is still out of step with its room. */
  lemma RacedViewerDiverges()
    ensures exists steps :: var s := Run(steps);
              && 0 in s.viewers && s.viewers[0].phase == Live && s.viewers[0].open
              && !s.viewers[0].lagged && s.viewers[0].replay == []
              && s.viewers[0].room < |s.rooms|
              && s.viewers[0].next == |s.rooms[s.viewers[0].room].log|
                 == |s.rooms[s.viewers[0].room].history|
              && WindowAfter(s.viewers[0].sent) != s.rooms[s.viewers[0].room].window
  {
    hide Run, Apply, Snapshot, WindowAfter, Sample, Recorded;
    var opening := OneSession();
    var s5 := opening + [Join(0, "a"), Subscribe(0)];
    RunTwoMore(opening, Join(0, "a"), Subscribe(0));
    var s7 := s5 + [Record(0, SLICE), TakeSnapshot(0)];
    RunTwoMore(s5, Record(0, SLICE), TakeSnapshot(0));
    var s8 := s7 + [Send(0)];
    RunSnoc(s7, Send(0));
    RaceSteps(Run(opening));
    RacedJoinDiverges();
    RacedRoom(s8);
    ReplaySteps(Run(s8), SPS, IDR, SLICE);
    RunTwoMore(s8, ReplayNext(0), ReplayNext(0));
    var s10 := s8 + [ReplayNext(0), ReplayNext(0)];
    RunTwoMore(s10, ReplayNext(0), Receive(0));
    var s12 := s10 + [ReplayNext(0), Receive(0)];
    assert [SPS, IDR, SLICE][2..] == [SLICE];
    assert Run(s12).viewers[0].sent == [SPS, IDR, SLICE] + [SLICE];
  }

  lemma RacedRoom(steps: seq<Step>)
    requires var s := Run(steps);
             && |s.rooms| == 1
             && s.rooms[0].history == [Entry(SPS, 0), Entry(IDR, 0)] + [Entry(SLICE, 0)]
    ensures Run(steps).rooms[0].window == WindowAfter([SPS, IDR, SLICE])
  {
    hide Run, WindowAfter, Sample;
    RunKeepsInv(steps);
    assert RoomOk(Run(steps).publishers, 0, Run(steps).rooms[0]);
    assert Frames(Run(steps).rooms[0].history) == [SPS, IDR, SLICE];
  }
}
