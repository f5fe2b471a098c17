/** Rooms, publishers and viewers of the stream relay as interleaved atomic steps.

    The broadcast channel is an append-only log of positions into the room's recorded history;
    each receiver holds the next position it will read. A frame is recorded by one step and sent
    by another; a viewer finds its room, subscribes, takes the snapshot, replays it and receives,
    each as a step of its own. A step that is not enabled changes nothing, so every sequence of
    steps is a run. */
module Rooms {
  import opened Bytes
  import opened WarmupWindows
  import opened WarmupHistory
  import opened WarmupJoin

  datatype Entry = Entry(frame: Frame, publisher: nat)

  datatype Room = Room(peer: string, history: seq<Entry>, window: Window, log: seq<nat>)

  datatype Publisher = Publisher(peer: string, room: nat, inFlight: Option<nat>, open: bool)

  datatype Phase = Found | Subscribed | Live

  datatype Viewer = Viewer(peer: string, room: nat, phase: Phase, open: bool,
                           subscribedAt: nat, snapshotAt: nat,
                           replay: seq<Frame>, next: nat, sent: seq<Frame>, lagged: bool)

  datatype System = System(rooms: seq<Room>, table: map<string, nat>,
                           publishers: map<nat, Publisher>, viewers: map<nat, Viewer>)

  datatype Step =
    | Connect(p: nat, peer: string)
    | Record(p: nat, frame: Frame)
    | Send(p: nat)
    | Close(p: nat)
    | Fail(p: nat)
    | Join(v: nat, peer: string)
    | Subscribe(v: nat)
    | TakeSnapshot(v: nat)
    | ReplayNext(v: nat)
    | Receive(v: nat)
    | Lag(v: nat, n: nat)
    | Leave(v: nat)

  const START := System([], map[], map[], map[])

  // ---------------------------------------------------------------------------------------------
  // Steps
  // ---------------------------------------------------------------------------------------------

  /** Look up the peer's room, creating it when there is none. */
  function RoomFor(s: System, peer: string): (System, nat) {
    if peer in s.table then (s, s.table[peer])
    else
      (s.(rooms := s.rooms + [Room(peer, [], EMPTY, [])], table := s.table[peer := |s.rooms|]),
       |s.rooms|)
  }

  /** Is anyone subscribed to room `r`? */
  ghost predicate HasReceivers(s: System, r: nat) {
    exists v :: v in s.viewers && s.viewers[v].room == r && s.viewers[v].open
                && s.viewers[v].phase != Found
  }

  ghost predicate Publishing(s: System, p: nat) {
    p in s.publishers && s.publishers[p].open && s.publishers[p].room < |s.rooms|
  }

  ghost predicate Viewing(s: System, v: nat, phase: Phase) {
    && v in s.viewers && s.viewers[v].open && s.viewers[v].room < |s.rooms|
    && s.viewers[v].phase == phase
  }

  ghost function Apply(s: System, step: Step): System {
    match step
    case Connect(p, peer) =>
      if p in s.publishers then s else
      var (t, r) := RoomFor(s, peer);
      t.(publishers := t.publishers[p := Publisher(peer, r, None, true)])
    case Record(p, frame) =>
      if !Publishing(s, p) || s.publishers[p].inFlight.Some? then s else
      var pub := s.publishers[p];
      var room := s.rooms[pub.room];
      s.(rooms := s.rooms[pub.room :=
           room.(history := room.history + [Entry(frame, p)],
                 window := Recorded(room.window, frame))],
         publishers := s.publishers[p := pub.(inFlight := Some(|room.history|))])
    case Send(p) =>
      if !Publishing(s, p) || s.publishers[p].inFlight.None? then s else
      var pub := s.publishers[p];
      var room := s.rooms[pub.room];
      s.(rooms := s.rooms[pub.room := room.(log := room.log + [pub.inFlight.value])],
         publishers := s.publishers[p := pub.(inFlight := None)])
    case Close(p) =>
      if !Publishing(s, p) || s.publishers[p].inFlight.Some? then s else
      var pub := s.publishers[p];
      s.(publishers := s.publishers[p := pub.(open := false)],
         table := if pub.peer in s.table && !HasReceivers(s, s.table[pub.peer])
                  then s.table - {pub.peer} else s.table)
    case Fail(p) =>
      if !Publishing(s, p) || s.publishers[p].inFlight.Some? then s else
      s.(publishers := s.publishers[p := s.publishers[p].(open := false)])
    case Join(v, peer) =>
      if v in s.viewers then s else
      var (t, r) := RoomFor(s, peer);
      t.(viewers := t.viewers[v := Viewer(peer, r, Found, true, 0, 0, [], 0, [], false)])
    case Subscribe(v) =>
      if !Viewing(s, v, Found) then s else
      var w := s.viewers[v];
      var at := |s.rooms[w.room].log|;
      s.(viewers := s.viewers[v := w.(phase := Subscribed, subscribedAt := at, next := at)])
    case TakeSnapshot(v) =>
      if !Viewing(s, v, Subscribed) then s else
      var w := s.viewers[v];
      var room := s.rooms[w.room];
      s.(viewers := s.viewers[v :=
           w.(phase := Live, snapshotAt := |room.history|, replay := Snapshot(room.window))])
    case ReplayNext(v) =>
      if !Viewing(s, v, Live) || s.viewers[v].replay == [] then s else
      var w := s.viewers[v];
      s.(viewers := s.viewers[v := w.(sent := w.sent + [w.replay[0]], replay := w.replay[1..])])
    case Receive(v) =>
      if !Viewing(s, v, Live) || s.viewers[v].replay != [] then s else
      var w := s.viewers[v];
      var room := s.rooms[w.room];
      if w.next >= |room.log| || room.log[w.next] >= |room.history| then s else
      s.(viewers := s.viewers[v :=
           w.(sent := w.sent + [room.history[room.log[w.next]].frame], next := w.next + 1)])
    case Lag(v, n) =>
      if !Viewing(s, v, Live) || s.viewers[v].replay != [] then s else
      var w := s.viewers[v];
      if w.next + n > |s.rooms[w.room].log| then s else
      s.(viewers := s.viewers[v := w.(next := w.next + n, lagged := true)])
    case Leave(v) =>
      if v !in s.viewers then s else
      s.(viewers := s.viewers[v := s.viewers[v].(open := false)])
  }

  ghost function Run(steps: seq<Step>): System {
    if steps == [] then START
    else Apply(Run(steps[..|steps| - 1]), steps[|steps| - 1])
  }

  // ---------------------------------------------------------------------------------------------
  // The invariant
  // ---------------------------------------------------------------------------------------------

  function Frames(history: seq<Entry>): seq<Frame> {
    seq(|history|, i requires 0 <= i < |history| => history[i].frame)
  }

  /** Every frame of the room was recorded by publisher `p`. */
  ghost predicate SolePublisher(room: Room, p: nat) {
    forall i :: 0 <= i < |room.history| ==> room.history[i].publisher == p
  }

  ghost predicate InFlightFrom(publishers: map<nat, Publisher>, r: nat, p: nat) {
    p in publishers && publishers[p].room == r && publishers[p].inFlight.Some?
  }

  /** A sole publisher's frames are sent in the order recorded, the last one perhaps still to
      come. */
  ghost predicate SoleInOrder(publishers: map<nat, Publisher>, r: nat, room: Room, p: nat) {
    && (forall i :: 0 <= i < |room.log| ==> room.log[i] == i)
    && (if InFlightFrom(publishers, r, p)
        then |room.history| == |room.log| + 1 && publishers[p].inFlight.value == |room.log|
        else |room.history| == |room.log|)
  }

  ghost predicate LogInRange(room: Room) {
    forall i :: 0 <= i < |room.log| ==> room.log[i] < |room.history|
  }

  ghost predicate RoomOk(publishers: map<nat, Publisher>, r: nat, room: Room) {
    && room.window == WindowAfter(Frames(room.history))
    && LogInRange(room)
    && (forall i :: 0 <= i < |room.history| ==>
          && room.history[i].publisher in publishers
          && publishers[room.history[i].publisher].room == r)
    && (forall p :: SolePublisher(room, p) ==> SoleInOrder(publishers, r, room, p))
  }

  ghost predicate PublisherOk(rooms: seq<Room>, p: nat, pub: Publisher) {
    && pub.room < |rooms|
    && rooms[pub.room].peer == pub.peer
    && (pub.inFlight.Some? ==>
          && pub.inFlight.value < |rooms[pub.room].history|
          && rooms[pub.room].history[pub.inFlight.value].publisher == p)
  }

  /** The frames at positions `from` to `to` of the room's log. */
  function Payloads(room: Room, from: nat, to: nat): seq<Frame>
    requires from <= to <= |room.log| && LogInRange(room)
  {
    seq(to - from, i requires 0 <= i < to - from => room.history[room.log[from + i]].frame)
  }

  /** Each frame sent so far is in the history the snapshot was computed from, or at or after
      the viewer's first receive position. */
  ghost predicate CachedOrLive(room: Room, w: Viewer) {
    forall i :: 0 <= i < |room.log| ==> room.log[i] < w.snapshotAt || w.subscribedAt <= i
  }

  /** What a viewer was sent: the snapshot, then the log from its subscription on. */
  ghost predicate SentInOrder(room: Room, w: Viewer)
    requires w.snapshotAt <= |room.history|
    requires w.subscribedAt <= w.next <= |room.log| && LogInRange(room)
  {
    w.sent + w.replay
    == Snapshot(WindowAfter(Frames(room.history[..w.snapshotAt])))
       + Payloads(room, w.subscribedAt, w.next)
  }

  ghost predicate LiveOk(room: Room, w: Viewer)
    requires w.subscribedAt <= w.next <= |room.log| && LogInRange(room)
  {
    && w.snapshotAt <= |room.history|
    && CachedOrLive(room, w)
    && (w.replay != [] ==> w.next == w.subscribedAt && !w.lagged)
    && (!w.lagged ==> SentInOrder(room, w))
    && (forall p :: SolePublisher(room, p) ==> w.subscribedAt <= w.snapshotAt)
  }

  ghost predicate ViewerOk(rooms: seq<Room>, w: Viewer) {
    && w.room < |rooms|
    && var room := rooms[w.room];
    && room.peer == w.peer
    && LogInRange(room)
    && match w.phase
       case Found => w.replay == [] && w.sent == [] && !w.lagged
       case Subscribed =>
         w.replay == [] && w.sent == [] && !w.lagged && w.next == w.subscribedAt <= |room.log|
       case Live => w.subscribedAt <= w.next <= |room.log| && LiveOk(room, w)
  }

  ghost predicate Inv(s: System) {
    && (forall peer :: peer in s.table ==>
          s.table[peer] < |s.rooms| && s.rooms[s.table[peer]].peer == peer)
    && (forall r :: 0 <= r < |s.rooms| ==> RoomOk(s.publishers, r, s.rooms[r]))
    && (forall p :: p in s.publishers ==> PublisherOk(s.rooms, p, s.publishers[p]))
    && (forall v :: v in s.viewers ==> ViewerOk(s.rooms, s.viewers[v]))
  }

  // ---------------------------------------------------------------------------------------------
  // Every step keeps it
  // ---------------------------------------------------------------------------------------------

  lemma EmptyRoomOk(publishers: map<nat, Publisher>, rooms: seq<Room>, peer: string)
    requires forall p :: p in publishers ==> PublisherOk(rooms, p, publishers[p])
    ensures RoomOk(publishers, |rooms|, Room(peer, [], EMPTY, []))
  {
    assert Frames([]) == [];
    assert WindowAfter([]) == EMPTY;
  }

  lemma RoomForKeepsInv(s: System, peer: string)
    requires Inv(s)
    ensures var (t, r) := RoomFor(s, peer);
            && Inv(t) && r < |t.rooms| && t.rooms[r].peer == peer
            && t.publishers == s.publishers && t.viewers == s.viewers
  {
    hide RoomOk, LiveOk;
    EmptyRoomOk(s.publishers, s.rooms, peer);
  }

  /** A publisher nobody has heard from yet. */
  lemma NewPublisherKeepsInv(s: System, p: nat, pub: Publisher)
    requires Inv(s) && p !in s.publishers && pub.inFlight.None? && PublisherOk(s.rooms, p, pub)
    ensures Inv(s.(publishers := s.publishers[p := pub]))
  {
    hide ViewerOk, WindowAfter;
    var publishers := s.publishers[p := pub];
    forall r | 0 <= r < |s.rooms| ensures RoomOk(publishers, r, s.rooms[r]) {
      assert RoomOk(s.publishers, r, s.rooms[r]);
      forall q | SolePublisher(s.rooms[r], q) ensures SoleInOrder(publishers, r, s.rooms[r], q) {
        assert SoleInOrder(s.publishers, r, s.rooms[r], q);
      }
    }
  }

  lemma ConnectKeepsInv(s: System, p: nat, peer: string)
    requires Inv(s)
    ensures Inv(Apply(s, Connect(p, peer)))
  {
    hide RoomOk, ViewerOk, RoomFor;
    if p !in s.publishers {
      RoomForKeepsInv(s, peer);
      var (t, r) := RoomFor(s, peer);
      NewPublisherKeepsInv(t, p, Publisher(peer, r, None, true));
    }
  }

  lemma WindowAfterSnoc(history: seq<Entry>, e: Entry)
    ensures WindowAfter(Frames(history + [e])) == Recorded(WindowAfter(Frames(history)), e.frame)
  {
    hide Recorded;
    assert Frames(history + [e]) == Frames(history) + [e.frame];
  }

  lemma RecordRoomOk(s: System, p: nat, frame: Frame)
    requires Inv(s) && Publishing(s, p) && s.publishers[p].inFlight.None?
    ensures var t, r := Apply(s, Record(p, frame)), s.publishers[p].room;
            RoomOk(t.publishers, r, t.rooms[r])
  {
    hide LiveOk, WindowAfter, Recorded;
    var t, r := Apply(s, Record(p, frame)), s.publishers[p].room;
    var before, after := s.rooms[r], t.rooms[r];
    assert RoomOk(s.publishers, r, before);
    WindowAfterSnoc(before.history, Entry(frame, p));
    forall q | SolePublisher(after, q) ensures SoleInOrder(t.publishers, r, after, q) {
      assert after.history[|before.history|].publisher == p;
      assert forall i :: 0 <= i < |before.history| ==> after.history[i] == before.history[i];
      assert SolePublisher(before, p) && SoleInOrder(s.publishers, r, before, p);
    }
  }

  lemma SentInOrderGrows(before: Room, after: Room, w: Viewer)
    requires w.snapshotAt <= |before.history|
    requires w.subscribedAt <= w.next <= |before.log| && LogInRange(before) && LogInRange(after)
    requires SentInOrder(before, w)
    requires before.history <= after.history && before.log <= after.log
    ensures SentInOrder(after, w)
  {
    hide Snapshot, WindowAfter, Frames;
    assert after.history[..w.snapshotAt] == before.history[..w.snapshotAt];
    assert Payloads(after, w.subscribedAt, w.next) == Payloads(before, w.subscribedAt, w.next);
  }

  lemma LiveOkGrows(before: Room, after: Room, w: Viewer)
    requires w.subscribedAt <= w.next <= |before.log| && LogInRange(before) && LogInRange(after)
    requires LiveOk(before, w)
    requires before.history <= after.history && before.log <= after.log
    ensures LiveOk(after, w)
  {
    if !w.lagged {
      SentInOrderGrows(before, after, w);
    }
    hide SentInOrder;
    forall p | SolePublisher(after, p) ensures SolePublisher(before, p) {
      assert forall i :: 0 <= i < |before.history| ==> after.history[i] == before.history[i];
    }
    assert forall i :: 0 <= i < |before.log| ==> after.log[i] == before.log[i];
  }

  /** A room that only grew leaves its viewers in order. */
  lemma ViewersKeepUp(s: System, r: nat, room: Room)
    requires Inv(s) && r < |s.rooms| && LogInRange(room)
    requires s.rooms[r].peer == room.peer
    requires s.rooms[r].history <= room.history && s.rooms[r].log <= room.log
    ensures forall v :: v in s.viewers ==> ViewerOk(s.rooms[r := room], s.viewers[v])
  {
    hide RoomOk, LiveOk;
    forall v | v in s.viewers ensures ViewerOk(s.rooms[r := room], s.viewers[v]) {
      var w := s.viewers[v];
      if w.room == r && w.phase == Live {
        LiveOkGrows(s.rooms[r], room, w);
      }
    }
  }

  lemma RecordKeepsInv(s: System, p: nat, frame: Frame)
    requires Inv(s)
    ensures Inv(Apply(s, Record(p, frame)))
  {
    hide ViewerOk, WindowAfter, Recorded, SolePublisher;
    if Publishing(s, p) && s.publishers[p].inFlight.None? {
      var t, r := Apply(s, Record(p, frame)), s.publishers[p].room;
      assert RoomOk(s.publishers, r, s.rooms[r]);
      RecordRoomOk(s, p, frame);
      ViewersKeepUp(s, r, t.rooms[r]);
      OtherRoomsOk(s, t, p);
    }
  }

  /** Publisher `p` moving on changes nothing for the other rooms. */
  lemma OtherRoomsOk(s: System, t: System, p: nat)
    requires Inv(s) && p in s.publishers && p in t.publishers
    requires |t.rooms| == |s.rooms|
    requires t.publishers == s.publishers[p := t.publishers[p]]
    requires t.publishers[p].room == s.publishers[p].room
    requires forall i :: 0 <= i < |s.rooms| && i != s.publishers[p].room ==> t.rooms[i] == s.rooms[i]
    ensures forall i :: 0 <= i < |s.rooms| && i != s.publishers[p].room ==>
              RoomOk(t.publishers, i, t.rooms[i])
  {
    hide WindowAfter;
    forall i | 0 <= i < |s.rooms| && i != s.publishers[p].room
      ensures RoomOk(t.publishers, i, t.rooms[i])
    {
      assert RoomOk(s.publishers, i, s.rooms[i]);
      forall q | SolePublisher(t.rooms[i], q) ensures SoleInOrder(t.publishers, i, t.rooms[i], q) {
        assert SoleInOrder(s.publishers, i, s.rooms[i], q);
      }
    }
  }

  lemma SendRoomOk(s: System, p: nat)
    requires Inv(s) && Publishing(s, p) && s.publishers[p].inFlight.Some?
    ensures var t, r := Apply(s, Send(p)), s.publishers[p].room;
            RoomOk(t.publishers, r, t.rooms[r])
  {
    hide LiveOk, WindowAfter;
    var t, r := Apply(s, Send(p)), s.publishers[p].room;
    var before, after := s.rooms[r], t.rooms[r];
    assert RoomOk(s.publishers, r, before) && PublisherOk(s.rooms, p, s.publishers[p]);
    forall q | SolePublisher(after, q) ensures SoleInOrder(t.publishers, r, after, q) {
      assert after.history == before.history;
      assert before.history[s.publishers[p].inFlight.value].publisher == p;
      assert q == p;
      assert SoleInOrder(s.publishers, r, before, p);
    }
  }

  lemma SendKeepsInv(s: System, p: nat)
    requires Inv(s)
    ensures Inv(Apply(s, Send(p)))
  {
    hide ViewerOk, WindowAfter, SolePublisher;
    if Publishing(s, p) && s.publishers[p].inFlight.Some? {
      var t, r := Apply(s, Send(p)), s.publishers[p].room;
      assert RoomOk(s.publishers, r, s.rooms[r]);
      SendRoomOk(s, p);
      ViewersKeepUp(s, r, t.rooms[r]);
      OtherRoomsOk(s, t, p);
    }
  }

  lemma FailKeepsInv(s: System, p: nat)
    requires Inv(s)
    ensures Inv(Apply(s, Fail(p)))
  {
    hide LiveOk, ViewerOk, WindowAfter;
    if Publishing(s, p) && s.publishers[p].inFlight.None? {
      var t := Apply(s, Fail(p));
      OtherRoomsOk(s, t, p);
      var r := s.publishers[p].room;
      assert RoomOk(s.publishers, r, s.rooms[r]);
      forall q | SolePublisher(t.rooms[r], q) ensures SoleInOrder(t.publishers, r, t.rooms[r], q) {
        assert SoleInOrder(s.publishers, r, s.rooms[r], q);
      }
      assert RoomOk(t.publishers, r, t.rooms[r]);
    }
  }

  lemma CloseKeepsInv(s: System, p: nat)
    requires Inv(s)
    ensures Inv(Apply(s, Close(p)))
  {
    hide RoomOk, ViewerOk, PublisherOk;
    FailKeepsInv(s, p);
  }

  /** A viewer's own step touches nothing else. */
  lemma ViewerStepKeepsInv(s: System, v: nat, w: Viewer)
    requires Inv(s) && ViewerOk(s.rooms, w)
    ensures Inv(s.(viewers := s.viewers[v := w]))
  {
    hide RoomOk, LiveOk, PublisherOk, ViewerOk;
  }

  lemma JoinKeepsInv(s: System, v: nat, peer: string)
    requires Inv(s)
    ensures Inv(Apply(s, Join(v, peer)))
  {
    hide LiveOk, WindowAfter;
    if v !in s.viewers {
      RoomForKeepsInv(s, peer);
      var (t, r) := RoomFor(s, peer);
      assert RoomOk(t.publishers, r, t.rooms[r]);
      ViewerStepKeepsInv(t, v, Viewer(peer, r, Found, true, 0, 0, [], 0, [], false));
    }
  }

  lemma TakeSnapshotKeepsInv(s: System, v: nat)
    requires Inv(s)
    ensures Inv(Apply(s, TakeSnapshot(v)))
  {
    hide WindowAfter, Snapshot;
    if Viewing(s, v, Subscribed) {
      var w := s.viewers[v];
      var room := s.rooms[w.room];
      assert RoomOk(s.publishers, w.room, room) && ViewerOk(s.rooms, w);
      var w' := Apply(s, TakeSnapshot(v)).viewers[v];
      assert room.history[..|room.history|] == room.history;
      assert Payloads(room, w'.subscribedAt, w'.next) == [];
      assert w'.sent + w'.replay == Snapshot(room.window) + [];
      forall p | SolePublisher(room, p) ensures w'.subscribedAt <= w'.snapshotAt {
        assert SoleInOrder(s.publishers, w.room, room, p);
      }
      ViewerStepKeepsInv(s, v, w');
    }
  }

  lemma ReplayNextKeepsInv(s: System, v: nat)
    requires Inv(s)
    ensures Inv(Apply(s, ReplayNext(v)))
  {
    hide WindowAfter, Snapshot, RoomOk, PublisherOk;
    if Viewing(s, v, Live) && s.viewers[v].replay != [] {
      var w := s.viewers[v];
      assert ViewerOk(s.rooms, w);
      assert w.sent + [w.replay[0]] + w.replay[1..] == w.sent + w.replay;
      ViewerStepKeepsInv(s, v, Apply(s, ReplayNext(v)).viewers[v]);
    }
  }

  lemma ReceiveKeepsInv(s: System, v: nat)
    requires Inv(s)
    ensures Inv(Apply(s, Receive(v)))
  {
    hide WindowAfter, Snapshot, RoomOk, PublisherOk;
    if Viewing(s, v, Live) && s.viewers[v].replay == [] {
      var w := s.viewers[v];
      var room := s.rooms[w.room];
      assert ViewerOk(s.rooms, w);
      if w.next < |room.log| {
        var f := room.history[room.log[w.next]].frame;
        assert Payloads(room, w.subscribedAt, w.next + 1)
               == Payloads(room, w.subscribedAt, w.next) + [f];
        assert w.sent + [f] + [] == w.sent + w.replay + [f];
        ViewerStepKeepsInv(s, v, Apply(s, Receive(v)).viewers[v]);
      }
    }
  }

  lemma SubscribeKeepsInv(s: System, v: nat)
    requires Inv(s)
    ensures Inv(Apply(s, Subscribe(v)))
  {
    hide RoomOk, PublisherOk, LiveOk;
    if Viewing(s, v, Found) {
      assert ViewerOk(s.rooms, s.viewers[v]);
      ViewerStepKeepsInv(s, v, Apply(s, Subscribe(v)).viewers[v]);
    }
  }

  lemma LagKeepsInv(s: System, v: nat, n: nat)
    requires Inv(s)
    ensures Inv(Apply(s, Lag(v, n)))
  {
    hide RoomOk, PublisherOk, SentInOrder;
    if Viewing(s, v, Live) && s.viewers[v].replay == []
       && s.viewers[v].next + n <= |s.rooms[s.viewers[v].room].log| {
      assert ViewerOk(s.rooms, s.viewers[v]);
      ViewerStepKeepsInv(s, v, Apply(s, Lag(v, n)).viewers[v]);
    }
  }

  lemma LeaveKeepsInv(s: System, v: nat)
    requires Inv(s)
    ensures Inv(Apply(s, Leave(v)))
  {
    hide RoomOk, PublisherOk, Snapshot, WindowAfter, Payloads;
    if v in s.viewers {
      assert ViewerOk(s.rooms, s.viewers[v]);
      ViewerStepKeepsInv(s, v, s.viewers[v].(open := false));
    }
  }

  lemma StepKeepsInv(s: System, step: Step)
    requires Inv(s)
    ensures Inv(Apply(s, step))
  {
    hide Inv, Apply;
    match step
    case Connect(p, peer) => ConnectKeepsInv(s, p, peer);
    case Record(p, frame) => RecordKeepsInv(s, p, frame);
    case Send(p) => SendKeepsInv(s, p);
    case Close(p) => CloseKeepsInv(s, p);
    case Fail(p) => FailKeepsInv(s, p);
    case Join(v, peer) => JoinKeepsInv(s, v, peer);
    case Subscribe(v) => SubscribeKeepsInv(s, v);
    case TakeSnapshot(v) => TakeSnapshotKeepsInv(s, v);
    case ReplayNext(v) => ReplayNextKeepsInv(s, v);
    case Receive(v) => ReceiveKeepsInv(s, v);
    case Lag(v, n) => LagKeepsInv(s, v, n);
    case Leave(v) => LeaveKeepsInv(s, v);
  }

  lemma {:induction false} RunKeepsInv(steps: seq<Step>)
    ensures Inv(Run(steps))
  {
    hide Apply;
    if steps == [] {
    } else {
      RunKeepsInv(steps[..|steps| - 1]);
      StepKeepsInv(Run(steps[..|steps| - 1]), steps[|steps| - 1]);
    }
  }

  // ---------------------------------------------------------------------------------------------
  // What every run guarantees
  // ---------------------------------------------------------------------------------------------

  /** Never neither: with any number of publishers and viewers, each frame sent to a room is in
      the history a viewer's snapshot was computed from or at or after its receive position. */
  lemma NeverNeither(steps: seq<Step>, v: nat, i: nat)
    requires v in Run(steps).viewers && Run(steps).viewers[v].phase == Live
    ensures var w := Run(steps).viewers[v];
            && w.room < |Run(steps).rooms|
            && var room := Run(steps).rooms[w.room];
            && w.snapshotAt <= |room.history|
            && (i < |room.log| ==> room.log[i] < w.snapshotAt || w.subscribedAt <= i)
  {
    hide Run;
    RunKeepsInv(steps);
    assert ViewerOk(Run(steps).rooms, Run(steps).viewers[v]);
  }

  /** A viewer is only ever sent frames of publishers connected under its own peer id. */
  lemma ViewersSeeTheirPeer(steps: seq<Step>, v: nat, i: nat)
    requires v in Run(steps).viewers
    ensures var s := Run(steps);
            var w := s.viewers[v];
            && w.room < |s.rooms|
            && (i < |s.rooms[w.room].history| ==>
                  && s.rooms[w.room].history[i].publisher in s.publishers
                  && s.publishers[s.rooms[w.room].history[i].publisher].peer == w.peer)
  {
    hide Run;
    RunKeepsInv(steps);
    var s := Run(steps);
    var w := s.viewers[v];
    assert ViewerOk(s.rooms, w);
    assert RoomOk(s.publishers, w.room, s.rooms[w.room]);
    if i < |s.rooms[w.room].history| {
      var p := s.rooms[w.room].history[i].publisher;
      assert PublisherOk(s.rooms, p, s.publishers[p]);
    }
  }

  lemma FramesPrefix(history: seq<Entry>, r: nat)
    requires r <= |history|
    ensures Frames(history[..r]) == Frames(history)[..r]
  {
  }

  /** Any number of publishers and no lag: the viewer is sent exactly the snapshot of the first R
      frames recorded in its room and then every frame sent there from its subscription on. */
  lemma ViewerStream(steps: seq<Step>, v: nat)
    requires v in Run(steps).viewers && Run(steps).viewers[v].phase == Live
    requires !Run(steps).viewers[v].lagged
    ensures var w := Run(steps).viewers[v];
            && w.room < |Run(steps).rooms|
            && var room := Run(steps).rooms[w.room];
            && w.snapshotAt <= |room.history| && LogInRange(room)
            && w.subscribedAt <= w.next <= |room.log|
            && w.sent + w.replay
               == Snapshot(WindowAfter(Frames(room.history[..w.snapshotAt])))
                  + Payloads(room, w.subscribedAt, w.next)
  {
    hide Run, Snapshot, WindowAfter;
    RunKeepsInv(steps);
    assert ViewerOk(Run(steps).rooms, Run(steps).viewers[v]);
  }

  /** One publisher and no lag: the viewer is sent exactly the snapshot of the first R frames
      recorded and then every frame from its subscription on, in order. */
  lemma SolePublisherStream(steps: seq<Step>, v: nat, p: nat)
    requires v in Run(steps).viewers && Run(steps).viewers[v].phase == Live
    requires !Run(steps).viewers[v].lagged
    requires Run(steps).viewers[v].room < |Run(steps).rooms|
    requires SolePublisher(Run(steps).rooms[Run(steps).viewers[v].room], p)
    ensures var w := Run(steps).viewers[v];
            var h := Frames(Run(steps).rooms[w.room].history);
            && w.subscribedAt <= w.snapshotAt <= |h|
            && w.subscribedAt <= w.next <= |h|
            && w.sent + w.replay
               == Snapshot(WindowAfter(h[..w.snapshotAt])) + h[w.subscribedAt..w.next]
  {
    hide Run, Snapshot, WindowAfter;
    RunKeepsInv(steps);
    ViewerStream(steps, v);
    var s := Run(steps);
    var w := s.viewers[v];
    var room := s.rooms[w.room];
    assert ViewerOk(s.rooms, w) && RoomOk(s.publishers, w.room, room);
    assert SoleInOrder(s.publishers, w.room, room, p);
    FramesPrefix(room.history, w.snapshotAt);
    assert Payloads(room, w.subscribedAt, w.next) == Frames(room.history)[w.subscribedAt..w.next];
  }

  /** Once past the frames its snapshot covers, a viewer folding `record` over what it was sent
      holds the room's window as of the last frame received exactly when a keyframe came live, or
      nothing but parameter sets reached it twice, or the room had dropped its cache. */
  lemma ViewerHealsExactly(steps: seq<Step>, v: nat, p: nat)
    requires v in Run(steps).viewers && Run(steps).viewers[v].phase == Live
    requires !Run(steps).viewers[v].lagged && Run(steps).viewers[v].replay == []
    requires Run(steps).viewers[v].room < |Run(steps).rooms|
    requires SolePublisher(Run(steps).rooms[Run(steps).viewers[v].room], p)
    requires Run(steps).viewers[v].snapshotAt <= Run(steps).viewers[v].next
    requires var w := Run(steps).viewers[v];
             var h := Frames(Run(steps).rooms[w.room].history);
             w.next <= |h| && Snapshot(WindowAfter(h[..w.snapshotAt])) != []
    ensures var w := Run(steps).viewers[v];
            var room := Run(steps).rooms[w.room];
            var h := Frames(room.history);
            && room.window == WindowAfter(h)
            && w.subscribedAt <= w.snapshotAt
            && (WindowAfter(w.sent) == WindowAfter(h[..w.next]) <==>
                || (exists k :: w.subscribedAt <= k < w.next && KindAt(h, k).Keyframe?)
                || (forall k :: w.subscribedAt <= k < w.snapshotAt ==> KindAt(h, k).ParamSet?)
                || WindowAfter(h[..w.next]).keyframe == [])
  {
    hide Run, Snapshot, WindowAfter, KindAt;
    RunKeepsInv(steps);
    SolePublisherStream(steps, v, p);
    var s := Run(steps);
    var w := s.viewers[v];
    var h := Frames(s.rooms[w.room].history);
    assert RoomOk(s.publishers, w.room, s.rooms[w.room]);
    assert w.sent + w.replay == w.sent;
    JoinHealsExactly(h, w.subscribedAt, w.snapshotAt, w.next);
  }

  lemma RunSnoc(steps: seq<Step>, step: Step)
    ensures Run(steps + [step]) == Apply(Run(steps), step)
  {
    assert (steps + [step])[..|steps|] == steps;
  }
}
