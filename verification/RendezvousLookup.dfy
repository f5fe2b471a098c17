/** Who a lookup finds and which ids a connection has, in terms of the messages handled alone. */
module RendezvousLookup {
  import opened Bytes
  import opened Registry
  import opened Rendezvous

  /** WebSocket connection `c` is between two messages. */
  predicate Listening(s: State, c: nat) {
    c in s.conns && s.conns[c].Ws? && s.conns[c].open && s.conns[c].punch.Quiet?
  }

  /** The id a step registers, and how it is reached: a UDP address, or the channel of a WebSocket
      connection, whose RegisterPk must name an id. */
  function Registration(s: State, step: Step): Option<(string, Reach)> {
    match step
    case UdpRegister(id, addr) => Some((id, Udp(addr)))
    case RegisterPeer(c, id) => if Listening(s, c) then Some((id, WsPush(c))) else None
    case RegisterPk(c, id) =>
      if id != "" && Listening(s, c) then Some((id, WsPush(c))) else None
    case _ => None
  }

  /** The id connection `c` registered last. */
  function LastId(steps: seq<Step>, c: nat): Option<string> {
    if steps == [] then None
    else
      var front := steps[..|steps| - 1];
      match Registration(Run(front), steps[|front|])
      case Some((id, reach)) => if reach == WsPush(c) then Some(id) else LastId(front, c)
      case None => LastId(front, c)
  }

  /** Every id it registered. */
  function IdsOf(steps: seq<Step>, c: nat): set<string> {
    if steps == [] then {}
    else
      var front := steps[..|steps| - 1];
      IdsOf(front, c)
      + match Registration(Run(front), steps[|front|])
        case Some((id, reach)) => if reach == WsPush(c) then {id} else {}
        case None => {}
  }

  /** A step that ends connection `c`, which registered `id` last. */
  ghost predicate ClosesUnder(steps: seq<Step>, step: Step, c: nat, id: string) {
    step == Close(c) && Listening(Run(steps), c) && LastId(steps, c) == Some(id)
  }

  // ---------------------------------------------------------------------------------------------
  // The ids of a connection
  // ---------------------------------------------------------------------------------------------

  lemma IdsStep(s: State, step: Step, c: nat)
    ensures c in s.conns ==> c in Rendezvous.Apply(s, step).conns
    ensures c in s.conns && s.conns[c].Ws? ==>
              var t := Rendezvous.Apply(s, step);
              var e := Registration(s, step);
              && t.conns[c].Ws?
              && (if e.Some? && e.value.1 == WsPush(c)
                  then t.conns[c].myId == Some(e.value.0)
                       && t.conns[c].used == s.conns[c].used + {e.value.0}
                  else t.conns[c].myId == s.conns[c].myId && t.conns[c].used == s.conns[c].used)
    ensures c in s.conns && s.conns[c].Tcp? ==> Rendezvous.Apply(s, step).conns[c].Tcp?
    ensures var t := Rendezvous.Apply(s, step);
            c !in s.conns && c in t.conns && t.conns[c].Ws? ==>
              t.conns[c].myId == None && t.conns[c].used == {}
    ensures c !in s.conns || s.conns[c].Tcp? ==>
              Registration(s, step).None? || Registration(s, step).value.1 != WsPush(c)
  {
    hide Registry.Apply;
  }

  /** In every run a connection remembers the id it registered last, and `used` is what it ever
      registered. */
  lemma {:induction false} ConnectionIds(steps: seq<Step>, c: nat)
    ensures c in Run(steps).conns && Run(steps).conns[c].Ws? ==>
              && Run(steps).conns[c].myId == LastId(steps, c)
              && Run(steps).conns[c].used == IdsOf(steps, c)
    ensures c !in Run(steps).conns || Run(steps).conns[c].Tcp? ==>
              LastId(steps, c) == None && IdsOf(steps, c) == {}
  {
    hide Rendezvous.Apply, Registration;
    if steps == [] {
    } else {
      var front := steps[..|steps| - 1];
      ConnectionIds(front, c);
      IdsStep(Run(front), steps[|front|], c);
    }
  }

  /** RegisterPk registers as RegisterPeer does, unless it names no id: then nothing changes. */
  lemma RegisterPkRegisters(s: State, c: nat, id: string)
    ensures id == "" ==> Rendezvous.Apply(s, RegisterPk(c, id)) == s
    ensures id != "" && Listening(s, c) ==>
              var t := Rendezvous.Apply(s, RegisterPk(c, id));
              && t.peers == s.peers[id := WsPush(c)]
              && c in t.conns && t.conns[c].Ws? && t.conns[c].myId == Some(id)
              && t.conns[c].used == s.conns[c].used + {id}
              && t == Rendezvous.Apply(s, RegisterPeer(c, id))
  {
  }

  /** A connection whose handler is inside a punch, or that is closed, or a TCP connection past its
      first message handles no message. */
  lemma BusyConnectionWaits(s: State, c: nat, id: string)
    requires c in s.conns
    requires !s.conns[c].open || !s.conns[c].punch.Quiet? || (s.conns[c].Tcp? && s.conns[c].spent)
    ensures Rendezvous.Apply(s, RegisterPeer(c, id)) == s
    ensures Rendezvous.Apply(s, RegisterPk(c, id)) == s
    ensures Rendezvous.Apply(s, Lookup(c, id)) == s && Rendezvous.Apply(s, Ack(c, id)) == s
    ensures !s.conns[c].open || !s.conns[c].punch.Quiet? ==> Rendezvous.Apply(s, Close(c)) == s
  {
  }

  /** A TCP connection's first message is its last, whether or not its target is found. */
  lemma FirstMessageIsLast(s: State, c: nat, id: string)
    requires Ready(s, c) && s.conns[c].Tcp?
    ensures var t := Rendezvous.Apply(s, Lookup(c, id));
            c in t.conns && t.conns[c].Tcp? && t.conns[c].spent
    ensures s.pending == map[] || id in s.pending ==>
              var t := Rendezvous.Apply(s, Ack(c, id));
              c in t.conns && t.conns[c].Tcp? && t.conns[c].spent
    ensures id !in s.peers ==> Rendezvous.Apply(s, Lookup(c, id)).conns[c].punch.Quiet?
  {
  }

  // ---------------------------------------------------------------------------------------------
  // Lookups
  // ---------------------------------------------------------------------------------------------

  /** Step `i` registers `id` as `reach`, no later step registers it, and the connection so
      registered does not close with that id as its last. */
  ghost predicate Survives(steps: seq<Step>, id: string, reach: Reach, i: nat) {
    && i < |steps| && Registration(Run(steps[..i]), steps[i]) == Some((id, reach))
    && forall j :: i < j < |steps| ==> !Unseats(steps[..j], steps[j], id, reach)
  }

  ghost predicate Unseats(steps: seq<Step>, step: Step, id: string, reach: Reach) {
    || (Registration(Run(steps), step).Some? && Registration(Run(steps), step).value.0 == id)
    || (reach.WsPush? && ClosesUnder(steps, step, reach.channel, id))
  }

  lemma PeersStep(s: State, step: Step, id: string, reach: Reach)
    ensures var e := Registration(s, step);
            var t := Rendezvous.Apply(s, step);
            id in t.peers && t.peers[id] == reach <==>
            if e.Some? && e.value.0 == id then e.value.1 == reach
            else
              && id in s.peers && s.peers[id] == reach
              && !(reach.WsPush? && step == Close(reach.channel) && Listening(s, reach.channel)
                   && s.conns[reach.channel].myId == Some(id))
  {
  }

  lemma SurvivesSnoc(steps: seq<Step>, id: string, reach: Reach)
    requires steps != []
    ensures var front := steps[..|steps| - 1];
            (exists i :: Survives(steps, id, reach, i)) <==>
            || Registration(Run(front), steps[|front|]) == Some((id, reach))
            || ((exists i :: Survives(front, id, reach, i))
                && !Unseats(front, steps[|front|], id, reach))
  {
    hide Run, Registration, Unseats;
    var front := steps[..|steps| - 1];
    assert forall i :: 0 <= i < |steps| ==> front[..i] == steps[..i];
    forall i: nat | i < |front|
      ensures Survives(steps, id, reach, i) <==>
              Survives(front, id, reach, i) && !Unseats(front, steps[|front|], id, reach)
    {
    }
    assert Survives(steps, id, reach, |front|) <==>
           Registration(Run(front), steps[|front|]) == Some((id, reach));
  }

  /** In every run a lookup finds `id` at `reach` exactly when some message registered it so, no
      later one registered it anew, and the WebSocket connection so registered has not closed with
      that id as its last. */
  lemma {:induction false} LookupFindsExactly(steps: seq<Step>, id: string, reach: Reach)
    ensures id in Run(steps).peers && Run(steps).peers[id] == reach <==>
            exists i :: Survives(steps, id, reach, i)
  {
    hide Rendezvous.Apply, Registration;
    if steps == [] {
      assert forall i :: !Survives(steps, id, reach, i);
    } else {
      hide Run;
      var front, last := steps[..|steps| - 1], steps[|steps| - 1];
      LookupFindsExactly(front, id, reach);
      SurvivesSnoc(steps, id, reach);
      hide Survives;
      assert front + [last] == steps;
      RunSnoc(front, last);
      PeersStep(Run(front), last, id, reach);
      if reach.WsPush? {
        ConnectionIds(front, reach.channel);
      }
    }
  }

  // ---------------------------------------------------------------------------------------------
  // Where the notice goes
  // ---------------------------------------------------------------------------------------------

  lemma LookedUpStays(s: State, step: Step, c: nat)
    requires c in s.conns && s.conns[c].punch.LookedUp? && step != Notify(c)
    ensures var t := Rendezvous.Apply(s, step);
            c in t.conns && t.conns[c].punch == s.conns[c].punch
  {
    hide Registry.Apply;
  }

  lemma {:induction false} LookedUpWaits(before: seq<Step>, c: nat, target: string, mid: seq<Step>)
    requires Ready(Run(before), c) && target in Run(before).peers
    requires forall i :: 0 <= i < |mid| ==> mid[i] != Notify(c)
    ensures var s := Run(before + [Lookup(c, target)] + mid);
            c in s.conns && s.conns[c].punch == LookedUp(target, Run(before).peers[target])
    decreases |mid|
  {
    var opening := before + [Lookup(c, target)];
    if mid == [] {
      RunSnoc(before, Lookup(c, target));
      assert opening + mid == opening;
    } else {
      hide Run, Rendezvous.Apply;
      var front := mid[..|mid| - 1];
      LookedUpWaits(before, c, target, front);
      assert opening + mid == opening + front + [mid[|mid| - 1]];
      RunSnoc(opening + front, mid[|mid| - 1]);
      LookedUpStays(Run(opening + front), mid[|mid| - 1], c);
    }
  }

  /** A target is notified where the lookup found it, whatever is registered or closed between. */
  lemma NoticeGoesWhereLookedUp(before: seq<Step>, c: nat, target: string, mid: seq<Step>)
    requires Ready(Run(before), c) && target in Run(before).peers
    requires forall i :: 0 <= i < |mid| ==> mid[i] != Notify(c)
    ensures var s := Run(before + [Lookup(c, target)] + mid);
            Run(before + [Lookup(c, target)] + mid + [Notify(c)]).notices
            == s.notices + [Run(before).peers[target]]
  {
    hide Run;
    LookedUpWaits(before, c, target, mid);
    RunSnoc(before + [Lookup(c, target)] + mid, Notify(c));
  }
}
