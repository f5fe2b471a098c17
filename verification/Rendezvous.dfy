/** The rendezvous server's UDP, TCP and WebSocket handlers as interleaved atomic steps: one per
    lock section of the registry and of the pending map. */
module Rendezvous {
  import opened Bytes
  import opened Registry

  // ---------------------------------------------------------------------------------------------
  // The pending map: target id to the channel of the requester waiting for it
  // ---------------------------------------------------------------------------------------------

  class PendingMap {
    var requesters: map<string, nat>

    constructor ()
      ensures requesters == map[]
    {
      requesters := map[];
    }

    /** The last lock section of `dispatch_punch`. */
    method Insert(target: string, requester: nat) returns (overwritten: Option<nat>)
      modifies this
      ensures requesters == old(requesters)[target := requester]
      ensures overwritten == if target in old(requesters) then Some(old(requesters)[target]) else None
    {
      overwritten := if target in requesters then Some(requesters[target]) else None;
      requesters := requesters[target := requester];
    }

    /** `dispatch_relay_ack`: whichever entry the map yields first is answered and removed. */
    method PopAny() returns (answered: Option<nat>, ghost key: string)
      modifies this
      ensures answered.Some? <==> old(requesters) != map[]
      ensures answered.Some? ==>
                && key in old(requesters)
                && answered.value == old(requesters)[key]
                && requesters == old(requesters) - {key}
      ensures answered.None? ==> requesters == old(requesters)
    {
      key := "";
      if requesters.Keys == {} {
        return None, key;
      }
      var k :| k in requesters.Keys;
      key := k;
      answered := Some(requesters[k]);
      requesters := requesters - {k};
    }
  }

  // ---------------------------------------------------------------------------------------------
  // Connections and steps
  // ---------------------------------------------------------------------------------------------

  /** Where a connection's handler is inside `dispatch_punch`. */
  datatype Punch = Quiet | LookedUp(target: string, reach: Reach) | Notified(target: string)

  /** A TCP connection acts on its first message only; a WebSocket connection remembers the last
      id it registered. `used` is every id it ever registered. */
  datatype Conn =
    | Tcp(open: bool, spent: bool, punch: Punch)
    | Ws(open: bool, myId: Option<string>, used: set<string>, punch: Punch)

  /** `log` is every registry event so far, `notices` every target told of a request. */
  datatype State = State(peers: Peers, log: seq<Event>, pending: map<string, nat>, conns: map<nat, Conn>,
                         notices: seq<Reach>,
                         inserts: multiset<nat>, responses: multiset<nat>,
                         overwritten: multiset<nat>, acks: nat)

  const START := State(map[], [], map[], map[], [], multiset{}, multiset{}, multiset{}, 0)

  datatype Step =
    | UdpRegister(id: string, addr: nat)
    | OpenTcp(c: nat)
    | OpenWs(c: nat)
    | RegisterPeer(c: nat, id: string)
    | RegisterPk(c: nat, id: string)
    | Lookup(c: nat, target: string)
    | Notify(c: nat)
    | Insert(c: nat)
    | Ack(c: nat, key: string)
    | Close(c: nat)

  function Registered(s: State, e: Event): State {
    s.(peers := Registry.Apply(s.peers, e), log := s.log + [e])
  }

  predicate Ready(s: State, c: nat) {
    c in s.conns && s.conns[c].open && s.conns[c].punch.Quiet?
    && (s.conns[c].Tcp? ==> !s.conns[c].spent)
  }

  function Spend(k: Conn): Conn {
    if k.Tcp? then k.(spent := true) else k
  }

  /** A WebSocket connection registers an id. */
  function WsRegistered(s: State, c: nat, id: string): State {
    if !Ready(s, c) || s.conns[c].Tcp? then s
    else
      var k := s.conns[c];
      Registered(s, Register(id, WsPush(c))).(
         conns := s.conns[c := k.(myId := Some(id), used := k.used + {id})])
  }

  function Apply(s: State, step: Step): State {
    match step
    case UdpRegister(id, addr) => Registered(s, Register(id, Udp(addr)))
    case OpenTcp(c) =>
      if c in s.conns then s else s.(conns := s.conns[c := Tcp(true, false, Quiet)])
    case OpenWs(c) =>
      if c in s.conns then s else s.(conns := s.conns[c := Ws(true, None, {}, Quiet)])
    case RegisterPeer(c, id) => WsRegistered(s, c, id)
    case RegisterPk(c, id) => if id == "" then s else WsRegistered(s, c, id)
    case Lookup(c, target) =>
      if !Ready(s, c) then s else
      var k := Spend(s.conns[c]);
      s.(conns := s.conns[c :=
           if target in s.peers then k.(punch := LookedUp(target, s.peers[target])) else k])
    case Notify(c) =>
      if c !in s.conns || !s.conns[c].punch.LookedUp? then s else
      var p := s.conns[c].punch;
      s.(notices := s.notices + [p.reach],
         conns := s.conns[c := s.conns[c].(punch := Notified(p.target))])
    case Insert(c) =>
      if c !in s.conns || !s.conns[c].punch.Notified? then s else
      var target := s.conns[c].punch.target;
      s.(pending := s.pending[target := c],
         overwritten := if target in s.pending then s.overwritten + multiset{s.pending[target]}
                        else s.overwritten,
         inserts := s.inserts + multiset{c},
         conns := s.conns[c := s.conns[c].(punch := Quiet)])
    case Ack(c, key) =>
      if !Ready(s, c) || (s.pending != map[] && key !in s.pending) then s else
      var t := s.(acks := s.acks + 1, conns := s.conns[c := Spend(s.conns[c])]);
      if s.pending == map[] then t
      else
        t.(pending := s.pending - {key}, responses := s.responses + multiset{s.pending[key]})
    case Close(c) =>
      if c !in s.conns || !s.conns[c].open || !s.conns[c].punch.Quiet? then s else
      var k := s.conns[c];
      (if k.Ws? && k.myId.Some? then Registered(s, Disconnect(k.myId.value, c)) else s).(
        conns := s.conns[c := k.(open := false)])
  }

  function Run(steps: seq<Step>): State {
    if steps == [] then START
    else Apply(Run(steps[..|steps| - 1]), steps[|steps| - 1])
  }

  /** The object and the machine agree: filing a requester is the machine's insert step. */
  method InsertAsStep(waiting: PendingMap, s: State, c: nat)
    requires waiting.requesters == s.pending
    requires c in s.conns && s.conns[c].punch.Notified?
    modifies waiting
    ensures waiting.requesters == Apply(s, Insert(c)).pending
  {
    var overwritten := waiting.Insert(s.conns[c].punch.target, c);
  }

  /** Answering is the machine's ack step for the key the map happened to yield. */
  method AckAsStep(waiting: PendingMap, s: State, d: nat)
    returns (answered: Option<nat>, ghost key: string)
    requires waiting.requesters == s.pending && Ready(s, d)
    modifies waiting
    ensures var t := Apply(s, Ack(d, key));
            && t.acks == s.acks + 1 && waiting.requesters == t.pending
            && t.responses
               == s.responses + if answered.Some? then multiset{answered.value} else multiset{}
  {
    answered, key := waiting.PopAny();
  }

  // ---------------------------------------------------------------------------------------------
  // Conservation of punch requests
  // ---------------------------------------------------------------------------------------------

  /** The targets requester `c` is waiting for. */
  function WaitingFor(pending: map<string, nat>, c: nat): set<string> {
    set k | k in pending && pending[k] == c
  }

  ghost predicate Conserved(s: State) {
    && |s.inserts| == |s.responses| + |s.overwritten| + |s.pending|
    && (forall c :: s.inserts[c] == s.responses[c] + s.overwritten[c] + |WaitingFor(s.pending, c)|)
    && |s.responses| <= s.acks
  }

  lemma WaitingAfterInsert(pending: map<string, nat>, target: string, c: nat, d: nat)
    ensures WaitingFor(pending[target := c], d)
            == if c == d then WaitingFor(pending, d) + {target}
               else WaitingFor(pending, d) - {target}
  {
  }

  lemma PendingInsert(pending: map<string, nat>, target: string, c: nat, d: nat)
    ensures |WaitingFor(pending[target := c], d)|
            == |WaitingFor(pending, d)| + (if c == d then 1 else 0)
               - (if target in pending && pending[target] == d then 1 else 0)
  {
    var before := WaitingFor(pending, d);
    assert target in before <==> target in pending && pending[target] == d;
    hide WaitingFor;
    WaitingAfterInsert(pending, target, c, d);
    Removed(before, target);
    if c == d && target in before {
      assert before + {target} == before;
    }
  }

  lemma PendingGrows(pending: map<string, nat>, target: string, c: nat)
    ensures |pending[target := c]| == |pending| + if target in pending then 0 else 1
  {
    var keys := pending.Keys;
    assert pending[target := c].Keys == keys + {target};
    assert |pending[target := c]| == |keys + {target}|;
    assert |pending| == |keys|;
    if target in keys {
      assert keys + {target} == keys;
    }
  }

  lemma PendingRemove(pending: map<string, nat>, key: string, d: nat)
    requires key in pending
    ensures |WaitingFor(pending - {key}, d)|
            == |WaitingFor(pending, d)| - if pending[key] == d then 1 else 0
    ensures |pending - {key}| == |pending| - 1
  {
    assert WaitingFor(pending - {key}, d) == WaitingFor(pending, d) - {key};
    Removed(WaitingFor(pending, d), key);
    assert (pending - {key}).Keys == pending.Keys - {key};
    Removed(pending.Keys, key);
    assert |pending - {key}| == |(pending - {key}).Keys|;
    assert |pending| == |pending.Keys|;
  }

  lemma Removed(s: set<string>, x: string)
    ensures |s - {x}| == |s| - if x in s then 1 else 0
  {
    if x !in s {
      assert s - {x} == s;
    }
  }

  lemma InsertConserves(s: State, c: nat)
    requires Conserved(s)
    ensures Conserved(Apply(s, Insert(c)))
  {
    hide WaitingFor;
    if c in s.conns && s.conns[c].punch.Notified? {
      var t := Apply(s, Insert(c));
      var target := s.conns[c].punch.target;
      forall d ensures t.inserts[d]
                       == t.responses[d] + t.overwritten[d] + |WaitingFor(t.pending, d)| {
        PendingInsert(s.pending, target, c, d);
      }
      PendingGrows(s.pending, target, c);
    }
  }

  /** Answering the entry under `key` moves one of its requester's requests. */
  lemma AnswerCounts(s: State, key: string, d: nat)
    requires Conserved(s) && key in s.pending
    ensures s.inserts[d] == (s.responses + multiset{s.pending[key]})[d] + s.overwritten[d]
                            + |WaitingFor(s.pending - {key}, d)|
  {
    hide WaitingFor;
    PendingRemove(s.pending, key, d);
  }

  lemma AckConserves(s: State, c: nat, key: string)
    requires Conserved(s)
    ensures Conserved(Apply(s, Ack(c, key)))
  {
    hide WaitingFor, Ready, Spend;
    if Ready(s, c) && key in s.pending {
      forall d ensures s.inserts[d]
                       == (s.responses + multiset{s.pending[key]})[d] + s.overwritten[d]
                          + |WaitingFor(s.pending - {key}, d)| {
        AnswerCounts(s, key, d);
      }
      PendingRemove(s.pending, key, c);
    }
  }

  lemma StepConserves(s: State, step: Step)
    requires Conserved(s)
    ensures Conserved(Apply(s, step))
  {
    hide WaitingFor;
    match step {
      case Insert(c) => InsertConserves(s, c);
      case Ack(c, key) => AckConserves(s, c, key);
      case _ =>
    }
  }

  /** In every interleaving, requests inserted are answered, overwritten or still pending, in
      total and for each requester, and nothing is answered without an ack. */
  lemma {:induction false} PunchesConserved(steps: seq<Step>)
    ensures Conserved(Run(steps))
  {
    hide Apply;
    if steps == [] {
      assert forall c :: WaitingFor(map[], c) == {};
    } else {
      PunchesConserved(steps[..|steps| - 1]);
      StepConserves(Run(steps[..|steps| - 1]), steps[|steps| - 1]);
    }
  }

  /** What a connection has inserted so far. */
  ghost predicate TcpInsertsOnce(s: State) {
    && (forall c :: c !in s.conns ==> s.inserts[c] == 0)
    && (forall c :: c in s.conns && s.conns[c].Tcp? ==>
          s.inserts[c] + (if s.conns[c].punch.Quiet? then 0 else 1)
          <= if s.conns[c].spent then 1 else 0)
  }

  lemma InsertKeepsTcpInserts(s: State, c: nat)
    requires TcpInsertsOnce(s)
    ensures TcpInsertsOnce(Apply(s, Insert(c)))
  {
  }

  /** A step that leaves the insertions alone and changes one connection. */
  lemma OneConnChanges(s: State, t: State, c: nat, k: Conn)
    requires TcpInsertsOnce(s)
    requires t.inserts == s.inserts && t.conns == s.conns[c := k]
    requires c in s.conns || k.Ws? || k.punch.Quiet?
    requires c in s.conns ==> (k.Tcp? <==> s.conns[c].Tcp?)
    requires c in s.conns && k.Tcp? ==>
               if k.punch.Quiet? == s.conns[c].punch.Quiet?
               then s.conns[c].spent ==> k.spent
               else k.spent && (k.punch.Quiet? || !s.conns[c].spent)
    ensures TcpInsertsOnce(t)
  {
  }

  lemma StepKeepsTcpInserts(s: State, step: Step)
    requires TcpInsertsOnce(s)
    ensures TcpInsertsOnce(Apply(s, step))
  {
    hide TcpInsertsOnce, Registry.Apply;
    var t := Apply(s, step);
    match step {
      case UdpRegister(id, addr) => SameConns(s, t);
      case Insert(c) => InsertKeepsTcpInserts(s, c);
      case OpenTcp(c) => ConnStep(s, t, c);
      case OpenWs(c) => ConnStep(s, t, c);
      case RegisterPeer(c, id) => ConnStep(s, t, c);
      case RegisterPk(c, id) => ConnStep(s, t, c);
      case Lookup(c, target) => ConnStep(s, t, c);
      case Notify(c) => ConnStep(s, t, c);
      case Ack(c, key) => ConnStep(s, t, c);
      case Close(c) => ConnStep(s, t, c);
    }
  }

  lemma SameConns(s: State, t: State)
    requires TcpInsertsOnce(s) && t.inserts == s.inserts && t.conns == s.conns
    ensures TcpInsertsOnce(t)
  {
  }

  lemma ConnStep(s: State, t: State, c: nat)
    requires TcpInsertsOnce(s) && t.inserts == s.inserts
    requires t.conns == s.conns || (c in t.conns && t.conns == s.conns[c := t.conns[c]])
    requires c in t.conns && c !in s.conns ==> t.conns[c].Ws? || t.conns[c].punch.Quiet?
    requires c in s.conns && c in t.conns ==> (t.conns[c].Tcp? <==> s.conns[c].Tcp?)
    requires c in s.conns && c in t.conns && t.conns[c].Tcp? ==>
               if t.conns[c].punch.Quiet? == s.conns[c].punch.Quiet?
               then s.conns[c].spent ==> t.conns[c].spent
               else t.conns[c].spent && (t.conns[c].punch.Quiet? || !s.conns[c].spent)
    ensures TcpInsertsOnce(t)
  {
    if t.conns != s.conns {
      OneConnChanges(s, t, c, t.conns[c]);
    }
  }

  lemma {:induction false} TcpInsertsAtMostOnce(steps: seq<Step>)
    ensures TcpInsertsOnce(Run(steps))
  {
    hide Apply;
    if steps == [] {
    } else {
      TcpInsertsAtMostOnce(steps[..|steps| - 1]);
      StepKeepsTcpInserts(Run(steps[..|steps| - 1]), steps[|steps| - 1]);
    }
  }

  /** A TCP requester is answered at most once. */
  lemma TcpAnsweredAtMostOnce(steps: seq<Step>, c: nat)
    requires c in Run(steps).conns && Run(steps).conns[c].Tcp?
    ensures Run(steps).responses[c] <= 1
  {
    hide Run, WaitingFor;
    PunchesConserved(steps);
    TcpInsertsAtMostOnce(steps);
    assert Run(steps).inserts[c] <= 1;
  }

  /** The target is told before the requester is filed: an ack that comes back in between
      answers nobody, and the requester stays pending. */
  lemma AckCanComeTooSoon()
    ensures exists steps :: var s := Run(steps);
              s.acks == 1 && s.responses == multiset{} && s.pending == map["t" := 1]
              && s.notices == [Udp(9)]
  {
    var s1 := [UdpRegister("t", 9)];
    var s2 := s1 + [OpenWs(1)];
    var s3 := s2 + [OpenTcp(2)];
    assert s1[..0] == [] && s2[..1] == s1 && s3[..2] == s2;
    assert Run(s1).peers == map["t" := Udp(9)];
    AckBetweenNotifyAndInsert(s3, 1, 2, "t", "t");
  }

  /** From any run, a request whose target acks before the requester is filed: the ack answers
      whichever other requester the map yields, and nobody exactly when none is pending; the
      target's own requester is filed only afterwards. */
  lemma AckBetweenNotifyAndInsert(steps: seq<Step>, c: nat, d: nat, target: string, key: string)
    requires Ready(Run(steps), c) && Ready(Run(steps), d) && c != d
    requires target in Run(steps).peers
    requires Run(steps).pending == map[] || key in Run(steps).pending
    ensures var s := Run(steps);
            var t := Run(steps + [Lookup(c, target), Notify(c), Ack(d, key), Insert(c)]);
            && t.acks == s.acks + 1 && t.notices == s.notices + [s.peers[target]]
            && t.pending == (s.pending - {key})[target := c]
            && t.responses == s.responses
                              + (if s.pending == map[] then multiset{} else multiset{s.pending[key]})
            && (t.responses == s.responses <==> s.pending == map[])
  {
    hide Run, Apply;
    var all := steps + [Lookup(c, target), Notify(c), Ack(d, key), Insert(c)];
    var s1, s2 := steps + [Lookup(c, target)], steps + [Lookup(c, target), Notify(c)];
    var s3 := steps + [Lookup(c, target), Notify(c), Ack(d, key)];
    assert s2 == s1 + [Notify(c)] && s3 == s2 + [Ack(d, key)] && all == s3 + [Insert(c)];
    RunSnoc(steps, Lookup(c, target));
    RunSnoc(s1, Notify(c));
    RunSnoc(s2, Ack(d, key));
    RunSnoc(s3, Insert(c));
    FourSteps(Run(steps), c, d, target, key);
    OneMoreDiffers(Run(steps));
  }

  lemma OneMoreDiffers(s: State)
    ensures forall c :: s.responses + multiset{c} != s.responses
  {
    forall c ensures s.responses + multiset{c} != s.responses {
      assert (s.responses + multiset{c})[c] == s.responses[c] + 1;
    }
  }

  lemma AckPops(s: State, d: nat, key: string)
    requires Ready(s, d) && key in s.pending
    ensures var t := Apply(s, Ack(d, key));
            && t.pending == s.pending - {key} && t.responses == s.responses + multiset{s.pending[key]}
            && t.acks == s.acks + 1
  {
  }

  /** Once a requester is filed, an ack serves that request exactly when the map yields it; that is
      sure exactly when no other target is pending, and that requester is sure to be answered
      exactly when it is the only one waiting. */
  lemma AckReachesOwnRequesterExactly(steps: seq<Step>, target: string, d: nat)
    requires target in Run(steps).pending && Ready(Run(steps), d)
    ensures var s := Run(steps);
            var c := s.pending[target];
            && (forall key :: key in s.pending ==>
                  (target in Run(steps + [Ack(d, key)]).pending <==> key != target))
            && ((forall key :: key in s.pending ==> target !in Run(steps + [Ack(d, key)]).pending)
                <==> s.pending.Keys == {target})
            && ((forall key :: key in s.pending ==>
                   Run(steps + [Ack(d, key)]).responses[c] == s.responses[c] + 1)
                <==> (forall key :: key in s.pending ==> s.pending[key] == c))
  {
    hide Run, Apply, Ready;
    var s := Run(steps);
    forall key | key in s.pending
      ensures var t := Run(steps + [Ack(d, key)]);
              t.pending == s.pending - {key} && t.responses == s.responses + multiset{s.pending[key]}
    {
      RunSnoc(steps, Ack(d, key));
      AckPops(s, d, key);
    }
    assert s.pending.Keys == {target} <==> forall key :: key in s.pending ==> key == target;
  }

  lemma RunSnoc(steps: seq<Step>, step: Step)
    ensures Run(steps + [step]) == Apply(Run(steps), step)
  {
    assert (steps + [step])[..|steps|] == steps;
  }

  lemma FourSteps(s: State, c: nat, d: nat, target: string, key: string)
    requires Ready(s, c) && Ready(s, d) && c != d
    requires target in s.peers && (s.pending == map[] || key in s.pending)
    ensures var t := Apply(Apply(Apply(Apply(s, Lookup(c, target)), Notify(c)), Ack(d, key)),
                           Insert(c));
            && t.acks == s.acks + 1 && t.notices == s.notices + [s.peers[target]]
            && t.pending == (s.pending - {key})[target := c]
            && t.responses == s.responses
                              + if s.pending == map[] then multiset{} else multiset{s.pending[key]}
  {
    var s1 := Apply(s, Lookup(c, target));
    assert s1.conns[c].punch == LookedUp(target, s.peers[target]) && s1.conns[d] == s.conns[d];
    var s2 := Apply(s1, Notify(c));
    assert s2.conns[c].punch == Notified(target) && s2.conns[d] == s.conns[d];
    var s3 := Apply(s2, Ack(d, key));
    assert s3.conns[c] == s2.conns[c] && s3.pending == s.pending - {key};
  }

  /** An undisturbed request files its requester. */
  lemma PunchFiles(steps: seq<Step>, c: nat, target: string)
    requires Ready(Run(steps), c) && target in Run(steps).peers
    ensures var s := Run(steps);
            var t := Run(steps + [Lookup(c, target), Notify(c), Insert(c)]);
            && t.pending == s.pending[target := c] && t.peers == s.peers
            && t.conns == s.conns[c := Spend(s.conns[c])]
            && t.responses == s.responses && t.acks == s.acks
  {
    hide Run, Apply;
    var s1, s2 := steps + [Lookup(c, target)], steps + [Lookup(c, target), Notify(c)];
    assert s2 == s1 + [Notify(c)];
    assert steps + [Lookup(c, target), Notify(c), Insert(c)] == s2 + [Insert(c)];
    RunSnoc(steps, Lookup(c, target));
    RunSnoc(s1, Notify(c));
    RunSnoc(s2, Insert(c));
    ThreeSteps(Run(steps), c, target);
  }

  lemma ThreeSteps(s: State, c: nat, target: string)
    requires Ready(s, c) && target in s.peers
    ensures var t := Apply(Apply(Apply(s, Lookup(c, target)), Notify(c)), Insert(c));
            && t.pending == s.pending[target := c] && t.peers == s.peers
            && t.conns == s.conns[c := Spend(s.conns[c])]
            && t.responses == s.responses && t.acks == s.acks
  {
    var s1 := Apply(s, Lookup(c, target));
    assert s1.conns[c].punch == LookedUp(target, s.peers[target]);
    var s2 := Apply(s1, Notify(c));
    assert s2.conns[c].punch == Notified(target);
  }

  /** Two peers and two requesters. */
  lemma TwoPeers() returns (steps: seq<Step>)
    ensures var s := Run(steps);
            && s.peers == map["a" := WsPush(3), "b" := Udp(9)] && s.pending == map[]
            && s.conns == map[3 := Ws(true, Some("a"), {"a"}, Quiet), 1 := Tcp(true, false, Quiet),
                              2 := Tcp(true, false, Quiet)]
            && s.responses == multiset{} && s.acks == 0
  {
    hide Run;
    RunNothing();
    RunSnoc([], OpenWs(3));
    var s1 := [OpenWs(3)];
    assert [] + s1 == s1;
    assert Run(s1) == START.(conns := map[3 := Ws(true, None, {}, Quiet)]);
    var s2 := s1 + [RegisterPeer(3, "a")];
    RunSnoc(s1, RegisterPeer(3, "a"));
    hide Apply;
    WsRegisters(Run(s1), 3, "a");
    assert {} + {"a"} == {"a"};
    var s3 := s2 + [UdpRegister("b", 9)];
    RunSnoc(s2, UdpRegister("b", 9));
    UdpRegisters(Run(s2), "b", 9);
    var s4 := s3 + [OpenTcp(1)];
    RunSnoc(s3, OpenTcp(1));
    TcpOpens(Run(s3), 1);
    steps := s4 + [OpenTcp(2)];
    RunSnoc(s4, OpenTcp(2));
    TcpOpens(Run(s4), 2);
  }

  lemma RunNothing()
    ensures Run([]) == START
  {
  }

  lemma WsRegisters(s: State, c: nat, id: string)
    requires Ready(s, c) && s.conns[c].Ws?
    ensures var t := Apply(s, RegisterPeer(c, id));
            var k := s.conns[c];
            && t.peers == s.peers[id := WsPush(c)]
            && t.conns == s.conns[c := k.(myId := Some(id), used := k.used + {id})]
            && t.pending == s.pending && t.responses == s.responses && t.acks == s.acks
  {
  }

  lemma UdpRegisters(s: State, id: string, addr: nat)
    ensures var t := Apply(s, UdpRegister(id, addr));
            && t.peers == s.peers[id := Udp(addr)] && t.conns == s.conns
            && t.pending == s.pending && t.responses == s.responses && t.acks == s.acks
  {
  }

  lemma TcpOpens(s: State, c: nat)
    requires c !in s.conns
    ensures Apply(s, OpenTcp(c)) == s.(conns := s.conns[c := Tcp(true, false, Quiet)])
  {
  }

  /** An ack can answer the wrong requester: connection 3 is peer "a" and acks, and connection 2,
      which asked for "b", is answered while 1, which asked for "a", stays pending. */
  lemma AckCanAnswerAnother()
    ensures exists steps :: var s, t := Run(steps), Run(steps + [Ack(3, "b")]);
              && s.peers == map["a" := WsPush(3), "b" := Udp(9)]
              && s.pending == map["a" := 1, "b" := 2] && s.responses == multiset{}
              && t.acks == 1 && t.pending == map["a" := 1] && t.responses == multiset{2}
  {
    hide Run, Apply;
    var s0 := TwoPeers();
    PunchFiles(s0, 1, "a");
    var s1 := s0 + [Lookup(1, "a"), Notify(1), Insert(1)];
    PunchFiles(s1, 2, "b");
    var s2 := s1 + [Lookup(2, "b"), Notify(2), Insert(2)];
    RunSnoc(s2, Ack(3, "b"));
    AckPops(Run(s2), 3, "b");
  }

  // ---------------------------------------------------------------------------------------------
  // Who owns a registry entry
  // ---------------------------------------------------------------------------------------------

  ghost predicate Owned(s: State) {
    && s.peers == After(s.log)
    && (forall id :: id in s.peers && s.peers[id].WsPush? ==>
          var c := s.peers[id].channel;
          && c in s.conns && s.conns[c].Ws? && id in s.conns[c].used
          && (!s.conns[c].open ==> s.conns[c].myId != Some(id)))
    && (forall c :: c in s.conns && s.conns[c].Ws? ==>
          if s.conns[c].myId.None? then s.conns[c].used == {}
          else s.conns[c].myId.value in s.conns[c].used)
  }

  lemma LogSnoc(log: seq<Event>, e: Event)
    ensures After(log + [e]) == Registry.Apply(After(log), e)
  {
    assert (log + [e])[..|log|] == log;
  }

  lemma RegistrationKeepsOwned(s: State, c: nat, id: string)
    requires Owned(s)
    ensures Owned(WsRegistered(s, c, id))
  {
    hide After;
    LogSnoc(s.log, Register(id, WsPush(c)));
  }

  lemma CloseKeepsOwned(s: State, c: nat)
    requires Owned(s)
    ensures Owned(Apply(s, Close(c)))
  {
    hide After;
    if c in s.conns && s.conns[c].Ws? && s.conns[c].myId.Some? {
      LogSnoc(s.log, Disconnect(s.conns[c].myId.value, c));
    }
  }

  lemma UdpKeepsOwned(s: State, id: string, addr: nat)
    requires Owned(s)
    ensures Owned(Apply(s, UdpRegister(id, addr)))
  {
    hide After;
    LogSnoc(s.log, Register(id, Udp(addr)));
  }

  /** A step that registers nothing and closes nothing. */
  lemma UnregisteredKeepsOwned(s: State, t: State, c: nat)
    requires Owned(s) && t.peers == s.peers && t.log == s.log
    requires t.conns == s.conns || (c in t.conns && t.conns == s.conns[c := t.conns[c]])
    requires c in s.conns && c in t.conns ==>
               (t.conns[c].Ws? <==> s.conns[c].Ws?)
               && (t.conns[c].Ws? ==> t.conns[c].open == s.conns[c].open
                                      && t.conns[c].myId == s.conns[c].myId
                                      && t.conns[c].used == s.conns[c].used)
    requires c !in s.conns && c in t.conns && t.conns[c].Ws? ==>
               t.conns[c].myId.None? && t.conns[c].used == {}
    ensures Owned(t)
  {
    hide After;
  }

  lemma OpenKeepsOwned(s: State, c: nat)
    requires Owned(s)
    ensures Owned(Apply(s, OpenTcp(c))) && Owned(Apply(s, OpenWs(c)))
  {
    hide Owned;
    UnregisteredKeepsOwned(s, Apply(s, OpenTcp(c)), c);
    UnregisteredKeepsOwned(s, Apply(s, OpenWs(c)), c);
  }

  lemma PunchKeepsOwned(s: State, c: nat, target: string)
    requires Owned(s)
    ensures Owned(Apply(s, Lookup(c, target))) && Owned(Apply(s, Notify(c)))
  {
    hide Owned;
    UnregisteredKeepsOwned(s, Apply(s, Lookup(c, target)), c);
    UnregisteredKeepsOwned(s, Apply(s, Notify(c)), c);
  }

  lemma PendingKeepsOwned(s: State, c: nat, key: string)
    requires Owned(s)
    ensures Owned(Apply(s, Insert(c))) && Owned(Apply(s, Ack(c, key)))
  {
    hide Owned;
    UnregisteredKeepsOwned(s, Apply(s, Insert(c)), c);
    UnregisteredKeepsOwned(s, Apply(s, Ack(c, key)), c);
  }

  lemma RegisterKeepsOwned(s: State, c: nat, id: string)
    requires Owned(s)
    ensures Owned(Apply(s, RegisterPeer(c, id))) && Owned(Apply(s, RegisterPk(c, id)))
  {
    hide Owned;
    RegistrationKeepsOwned(s, c, id);
  }

  lemma StepKeepsOwned(s: State, step: Step)
    requires Owned(s)
    ensures Owned(Apply(s, step))
  {
    hide Owned, Apply;
    match step {
      case UdpRegister(id, addr) => UdpKeepsOwned(s, id, addr);
      case OpenTcp(c) => OpenKeepsOwned(s, c);
      case OpenWs(c) => OpenKeepsOwned(s, c);
      case RegisterPeer(c, id) => RegisterKeepsOwned(s, c, id);
      case RegisterPk(c, id) => RegisterKeepsOwned(s, c, id);
      case Lookup(c, target) => PunchKeepsOwned(s, c, target);
      case Notify(c) => PunchKeepsOwned(s, c, "");
      case Insert(c) => PendingKeepsOwned(s, c, "");
      case Ack(c, key) => PendingKeepsOwned(s, c, key);
      case Close(c) => CloseKeepsOwned(s, c);
    }
  }

  lemma {:induction false} RunKeepsOwned(steps: seq<Step>)
    ensures Owned(Run(steps))
  {
    hide Apply;
    if steps == [] {
    } else {
      RunKeepsOwned(steps[..|steps| - 1]);
      StepKeepsOwned(Run(steps[..|steps| - 1]), steps[|steps| - 1]);
    }
  }

  /** In every run a lookup finds exactly the latest registration that survives. */
  lemma LookupInRun(steps: seq<Step>, id: string, reach: Reach)
    ensures var s := Run(steps);
            id in s.peers && s.peers[id] == reach <==>
            exists i: nat :: LatestSurviving(s.log, id, i) && s.log[i].reach == reach
  {
    hide Run;
    RunKeepsOwned(steps);
    LookupFindsLatestSurviving(Run(steps).log, id, reach);
  }

  /** A disconnect removes only the last id the connection registered, and only while the entry
      is still its own: never another channel's entry or a UDP address. */
  lemma DisconnectRemovesOnlyOwn(s: State, c: nat, id: string)
    requires c in s.conns && s.conns[c].open && s.conns[c].punch.Quiet?
    ensures var t := Apply(s, Close(c));
            && (id in s.peers && id !in t.peers <==>
                  && id in s.peers && s.peers[id] == WsPush(c)
                  && s.conns[c].Ws? && s.conns[c].myId == Some(id))
            && (id in t.peers ==> id in s.peers && t.peers[id] == s.peers[id])
  {
  }

  /** A closed connection that only ever used one id has left nothing behind, whatever runs
      later. */
  lemma OneIdLeavesNothing(steps: seq<Step>, c: nat, only: string, id: string)
    requires c in Run(steps).conns && Run(steps).conns[c].Ws? && !Run(steps).conns[c].open
    requires Run(steps).conns[c].used <= {only}
    ensures id in Run(steps).peers ==> Run(steps).peers[id] != WsPush(c)
  {
    hide Run;
    RunKeepsOwned(steps);
  }

  /** On disconnect something of the connection's is left exactly when an id other than its last
      still maps to it. */
  lemma DisconnectLeavesExactly(steps: seq<Step>, c: nat)
    requires var s := Run(steps);
             c in s.conns && s.conns[c].Ws? && s.conns[c].open && s.conns[c].punch.Quiet?
    ensures var s := Run(steps);
            var t := Run(steps + [Close(c)]);
            (exists id :: id in t.peers && t.peers[id] == WsPush(c)) <==>
            (exists id :: id in s.peers && s.peers[id] == WsPush(c) && s.conns[c].myId != Some(id))
  {
    hide Run, Apply;
    var s, t := Run(steps), Run(steps + [Close(c)]);
    RunSnoc(steps, Close(c));
    forall id ensures id in t.peers && t.peers[id] == WsPush(c) <==>
                      id in s.peers && s.peers[id] == WsPush(c) && s.conns[c].myId != Some(id)
    {
      DisconnectRemovesOnlyOwn(s, c, id);
    }
    if id :| id in s.peers && s.peers[id] == WsPush(c) && s.conns[c].myId != Some(id) {
      assert id in t.peers && t.peers[id] == WsPush(c);
    }
  }

  lemma ClosedByClose(s: State, c: nat)
    requires c in s.conns && s.conns[c].punch.Quiet?
    ensures c in Apply(s, Close(c)).conns && !Apply(s, Close(c)).conns[c].open
  {
  }

  /** A connection that registered two ids leaves the first behind. */
  lemma TwoIdsLeaveOne()
    ensures exists steps :: var s := Run(steps);
              && 1 in s.conns && !s.conns[1].open
              && "a" in s.peers && s.peers["a"] == WsPush(1) && "b" !in s.peers
  {
    var s1 := [OpenWs(1)];
    var s2 := s1 + [RegisterPeer(1, "a")];
    var s3 := s2 + [RegisterPeer(1, "b")];
    var s4 := s3 + [Close(1)];
    assert s1[..0] == [] && s2[..1] == s1 && s3[..2] == s2 && s4[..3] == s3;
    assert Run(s1).conns == map[1 := Ws(true, None, {}, Quiet)] && Run(s1).peers == map[];
    hide Run, Apply;
    RunSnoc(s1, RegisterPeer(1, "a"));
    WsRegisters(Run(s1), 1, "a");
    RunSnoc(s2, RegisterPeer(1, "b"));
    WsRegisters(Run(s2), 1, "b");
    RunSnoc(s3, Close(1));
    DisconnectRemovesOnlyOwn(Run(s3), 1, "a");
    DisconnectRemovesOnlyOwn(Run(s3), 1, "b");
    ClosedByClose(Run(s3), 1);
  }
}
