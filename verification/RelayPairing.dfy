/** The relay's single wait slot, taken and filled by the TCP and the WebSocket accept task under
    separate lock acquisitions. */
module RelayPairing {
  import opened Bytes

  // ---------------------------------------------------------------------------------------------
  // One call
  // ---------------------------------------------------------------------------------------------

  class WaitSlot<Side> {
    var waiting: Option<Side>

    constructor ()
      ensures waiting.None?
    {
      waiting := None;
    }

    /** The first lock section. */
    method Take() returns (partner: Option<Side>)
      modifies this
      ensures partner == old(waiting) && waiting.None?
    {
      partner := waiting;
      waiting := None;
    }

    /** The second lock section; whoever was waiting is dropped. */
    method Replace(side: Side) returns (displaced: Option<Side>)
      modifies this
      ensures displaced == old(waiting) && waiting == Some(side)
    {
      displaced := waiting;
      waiting := Some(side);
    }

    /** Uninterrupted, a call pairs with whoever waits or waits itself, and displaces nobody. */
    method PairOrWait(side: Side) returns (pair: Option<(Side, Side)>)
      modifies this
      ensures old(waiting).Some? ==> pair == Some((side, old(waiting).value)) && waiting.None?
      ensures old(waiting).None? ==> pair.None? && waiting == Some(side)
    {
      var partner := Take();
      match partner {
        case Some(other) => pair := Some((side, other));
        case None =>
          var displaced := Replace(side);
          pair := None;
      }
    }
  }

  // ---------------------------------------------------------------------------------------------
  // Two tasks, every interleaving of their lock sections
  // ---------------------------------------------------------------------------------------------

  datatype Task = Tcp | Ws

  /** Where a task's call is: none, before the take, or past a take that found nobody. */
  datatype Call = Idle | Arrived(conn: nat) | Holding(conn: nat)

  /** Connections are numbered in the order they are accepted. */
  datatype State = State(accepted: nat, waiting: Option<nat>, tcp: Call, ws: Call,
                         pairs: seq<(nat, nat)>, displaced: seq<nat>)

  datatype Step = Accept(task: Task) | Take(task: Task) | Put(task: Task)

  const START := State(0, None, Idle, Idle, [], [])

  function CallOf(s: State, t: Task): Call {
    if t.Tcp? then s.tcp else s.ws
  }

  function WithCall(s: State, t: Task, c: Call): State {
    if t.Tcp? then s.(tcp := c) else s.(ws := c)
  }

  /** A step that is not the task's next changes nothing. */
  function Apply(s: State, step: Step): State {
    match step
    case Accept(t) =>
      if !CallOf(s, t).Idle? then s
      else WithCall(s, t, Arrived(s.accepted)).(accepted := s.accepted + 1)
    case Take(t) =>
      if !CallOf(s, t).Arrived? then s
      else
        var side := CallOf(s, t).conn;
        if s.waiting.Some? then
          WithCall(s, t, Idle).(waiting := None, pairs := s.pairs + [(side, s.waiting.value)])
        else WithCall(s, t, Holding(side))
    case Put(t) =>
      if !CallOf(s, t).Holding? then s
      else
        WithCall(s, t, Idle).(
          waiting := Some(CallOf(s, t).conn),
          displaced := if s.waiting.Some? then s.displaced + [s.waiting.value] else s.displaced)
  }

  function Run(steps: seq<Step>): State {
    if steps == [] then START
    else Apply(Run(steps[..|steps| - 1]), steps[|steps| - 1])
  }

  /** The object and the machine agree: the first lock section is task `t`'s take. */
  method TakeAsStep(slot: WaitSlot<nat>, s: State, t: Task) returns (partner: Option<nat>)
    requires slot.waiting == s.waiting && CallOf(s, t).Arrived?
    modifies slot
    ensures var after := Apply(s, Take(t));
            && slot.waiting == after.waiting && after.displaced == s.displaced
            && CallOf(after, t) == (if partner.Some? then Idle else Holding(CallOf(s, t).conn))
            && after.pairs
               == s.pairs + if partner.Some? then [(CallOf(s, t).conn, partner.value)] else []
  {
    partner := slot.Take();
  }

  /** The second is its put, and whoever it finds waiting is dropped. */
  method PutAsStep(slot: WaitSlot<nat>, s: State, t: Task) returns (displaced: Option<nat>)
    requires slot.waiting == s.waiting && CallOf(s, t).Holding?
    modifies slot
    ensures var after := Apply(s, Put(t));
            && slot.waiting == after.waiting == Some(CallOf(s, t).conn)
            && after.pairs == s.pairs && CallOf(after, t).Idle?
            && after.displaced
               == s.displaced + if displaced.Some? then [displaced.value] else []
    ensures displaced == old(slot.waiting)
  {
    displaced := slot.Replace(CallOf(s, t).conn);
  }

  /** An uninterrupted call is task `t`'s two steps in a row. */
  method CallAsTwoSteps(slot: WaitSlot<nat>, s: State, t: Task)
    returns (pair: Option<(nat, nat)>)
    requires slot.waiting == s.waiting && CallOf(s, t).Arrived?
    modifies slot
    ensures var after := Apply(Apply(s, Take(t)), Put(t));
            && slot.waiting == after.waiting && CallOf(after, t).Idle?
            && after.displaced == s.displaced
            && after.pairs == s.pairs + if pair.Some? then [pair.value] else []
  {
    pair := slot.PairOrWait(CallOf(s, t).conn);
  }

  // ---------------------------------------------------------------------------------------------
  // Conservation
  // ---------------------------------------------------------------------------------------------

  function UpTo(n: nat): multiset<nat> {
    if n == 0 then multiset{} else UpTo(n - 1) + multiset{n - 1}
  }

  function Paired(pairs: seq<(nat, nat)>): multiset<nat> {
    if pairs == [] then multiset{}
    else
      Paired(pairs[..|pairs| - 1])
      + multiset{pairs[|pairs| - 1].0, pairs[|pairs| - 1].1}
  }

  function InCall(c: Call): multiset<nat> {
    if c.Idle? then multiset{} else multiset{c.conn}
  }

  function Waiting(w: Option<nat>): multiset<nat> {
    if w.None? then multiset{} else multiset{w.value}
  }

  function Everyone(s: State): multiset<nat> {
    Paired(s.pairs) + Waiting(s.waiting) + InCall(s.tcp) + InCall(s.ws) + multiset(s.displaced)
  }

  lemma PairedSnoc(pairs: seq<(nat, nat)>, a: nat, b: nat)
    ensures Paired(pairs + [(a, b)]) == Paired(pairs) + multiset{a, b}
  {
    assert (pairs + [(a, b)])[..|pairs|] == pairs;
  }

  /** The connections in both calls, the changed one apart. */
  function Elsewhere(s: State, task: Task): multiset<nat> {
    Paired(s.pairs) + multiset(s.displaced) + if task.Tcp? then InCall(s.ws) else InCall(s.tcp)
  }

  lemma EveryoneApart(s: State, task: Task)
    ensures Everyone(s) == Elsewhere(s, task) + Waiting(s.waiting) + InCall(CallOf(s, task))
  {
    hide Paired, InCall, Waiting;
  }

  lemma ElsewhereSame(s: State, t: State, task: Task)
    requires t.pairs == s.pairs && t.displaced == s.displaced
    requires if task.Tcp? then t.ws == s.ws else t.tcp == s.tcp
    ensures Elsewhere(t, task) == Elsewhere(s, task)
  {
  }

  lemma AcceptConserves(s: State, task: Task)
    requires Everyone(s) == UpTo(s.accepted)
    ensures Everyone(Apply(s, Accept(task))) == UpTo(Apply(s, Accept(task)).accepted)
  {
    hide Everyone, Elsewhere;
    if CallOf(s, task).Idle? {
      var t := Apply(s, Accept(task));
      EveryoneApart(s, task);
      EveryoneApart(t, task);
      ElsewhereSame(s, t, task);
      assert InCall(CallOf(t, task)) == multiset{s.accepted};
      assert Everyone(t) == Everyone(s) + multiset{s.accepted};
    }
  }

  lemma TakeConserves(s: State, task: Task)
    ensures Everyone(Apply(s, Take(task))) == Everyone(s)
    ensures Apply(s, Take(task)).accepted == s.accepted
  {
    hide Paired, Everyone;
    EveryoneApart(s, task);
    EveryoneApart(Apply(s, Take(task)), task);
    if CallOf(s, task).Arrived? && s.waiting.Some? {
      PairedSnoc(s.pairs, CallOf(s, task).conn, s.waiting.value);
    }
  }

  lemma PutConserves(s: State, task: Task)
    ensures Everyone(Apply(s, Put(task))) == Everyone(s)
    ensures Apply(s, Put(task)).accepted == s.accepted
  {
    hide Paired;
  }

  lemma StepConserves(s: State, step: Step)
    requires Everyone(s) == UpTo(s.accepted)
    ensures Everyone(Apply(s, step)) == UpTo(Apply(s, step).accepted)
  {
    hide Everyone, Apply, UpTo;
    match step {
      case Accept(task) => AcceptConserves(s, task);
      case Take(task) => TakeConserves(s, task);
      case Put(task) => PutConserves(s, task);
    }
  }

  /** In every interleaving each accepted connection is in exactly one place: a pair, the slot,
      a call under way, or dropped from the slot. */
  lemma {:induction false} EachInOnePlace(steps: seq<Step>)
    ensures Everyone(Run(steps)) == UpTo(Run(steps).accepted)
  {
    hide Apply;
    if steps == [] {
    } else {
      EachInOnePlace(steps[..|steps| - 1]);
      StepConserves(Run(steps[..|steps| - 1]), steps[|steps| - 1]);
    }
  }

  lemma {:induction false} UpToCounts(n: nat, c: nat)
    ensures |UpTo(n)| == n && UpTo(n)[c] == if c < n then 1 else 0
  {
    if n == 0 {
    } else {
      UpToCounts(n - 1, c);
    }
  }

  lemma {:induction false} PairedCounts(pairs: seq<(nat, nat)>)
    ensures |Paired(pairs)| == 2 * |pairs|
  {
    if pairs == [] {
    } else {
      PairedCounts(pairs[..|pairs| - 1]);
    }
  }

  lemma PairingConserves(steps: seq<Step>)
    ensures var s := Run(steps);
            s.accepted == 2 * |s.pairs| + |s.displaced|
                          + (if s.waiting.Some? then 1 else 0)
                          + (if s.tcp.Idle? then 0 else 1) + (if s.ws.Idle? then 0 else 1)
  {
    hide Run;
    var s := Run(steps);
    EachInOnePlace(steps);
    UpToCounts(s.accepted, 0);
    PairedCounts(s.pairs);
    assert |Everyone(s)| == |Paired(s.pairs)| + |Waiting(s.waiting)| + |InCall(s.tcp)|
                            + |InCall(s.ws)| + |multiset(s.displaced)|;
  }

  /** Everyone in pair `i`, and again in pair `j`. */
  lemma {:induction false} PairedContains(pairs: seq<(nat, nat)>, i: nat, j: nat)
    requires i < j < |pairs|
    ensures multiset{pairs[i].0, pairs[i].1} + multiset{pairs[j].0, pairs[j].1} <= Paired(pairs)
  {
    var front := pairs[..|pairs| - 1];
    if j < |pairs| - 1 {
      PairedContains(front, i, j);
    } else {
      PairedContainsOne(front, i);
    }
  }

  lemma {:induction false} PairedContainsOne(pairs: seq<(nat, nat)>, i: nat)
    requires i < |pairs|
    ensures multiset{pairs[i].0, pairs[i].1} <= Paired(pairs)
  {
    if i < |pairs| - 1 {
      PairedContainsOne(pairs[..|pairs| - 1], i);
    }
  }

  /** Nobody is paired with itself, and no two pairs share a connection. */
  lemma PairsDisjoint(steps: seq<Step>, i: nat, j: nat)
    requires i < |Run(steps).pairs| && j < |Run(steps).pairs|
    ensures var ps := Run(steps).pairs;
            && ps[i].0 != ps[i].1
            && (i != j ==> ps[i].0 != ps[j].0 && ps[i].0 != ps[j].1
                           && ps[i].1 != ps[j].0 && ps[i].1 != ps[j].1)
  {
    hide Run, Paired;
    var s := Run(steps);
    EachInOnePlace(steps);
    PairedContainsOne(s.pairs, i);
    var own := multiset{s.pairs[i].0, s.pairs[i].1};
    UpToCounts(s.accepted, s.pairs[i].0);
    UpToCounts(s.accepted, s.pairs[i].1);
    assert own <= Everyone(s);
    assert own[s.pairs[i].0] <= 1;
    if i != j {
      PairedContains(s.pairs, if i < j then i else j, if i < j then j else i);
      var both := own + multiset{s.pairs[j].0, s.pairs[j].1};
      assert both <= Everyone(s);
      assert both[s.pairs[i].0] <= 1 && both[s.pairs[i].1] <= 1;
    }
  }

  // ---------------------------------------------------------------------------------------------
  // When nobody is displaced
  // ---------------------------------------------------------------------------------------------

  /** A put that finds someone in the slot: another call filled it after this one's take. */
  predicate PutsOnWaiting(s: State, step: Step) {
    step.Put? && CallOf(s, step.task).Holding? && s.waiting.Some?
  }

  ghost predicate SomePutOnWaiting(steps: seq<Step>) {
    exists i :: 0 <= i < |steps| && PutsOnWaiting(Run(steps[..i]), steps[i])
  }

  lemma PutOnWaitingSnoc(steps: seq<Step>)
    requires steps != []
    ensures var front := steps[..|steps| - 1];
            SomePutOnWaiting(steps) <==>
            SomePutOnWaiting(front) || PutsOnWaiting(Run(front), steps[|front|])
  {
    hide Run, PutsOnWaiting;
    var front := steps[..|steps| - 1];
    assert forall i :: 0 <= i < |front| ==> front[..i] == steps[..i];
  }

  /** In every interleaving nobody is dropped exactly when no call puts its connection into a slot
      that another has filled since it looked. */
  lemma {:induction false} NobodyDisplacedExactly(steps: seq<Step>)
    ensures Run(steps).displaced == [] <==> !SomePutOnWaiting(steps)
  {
    if steps == [] {
      assert !SomePutOnWaiting(steps);
    } else {
      hide SomePutOnWaiting;
      NobodyDisplacedExactly(steps[..|steps| - 1]);
      PutOnWaitingSnoc(steps);
    }
  }

  /** At no point of the run are both tasks between a take that found nobody and the put. */
  ghost predicate NeverBothHolding(steps: seq<Step>) {
    forall i :: 0 <= i <= |steps| ==> !(Run(steps[..i]).tcp.Holding? && Run(steps[..i]).ws.Holding?)
  }

  /** At no point of the run are both tasks inside a call. */
  ghost predicate NeverOverlapping(steps: seq<Step>) {
    forall i :: 0 <= i <= |steps| ==> Run(steps[..i]).tcp.Idle? || Run(steps[..i]).ws.Idle?
  }

  /** While one task alone is past an empty take, the slot stays empty. */
  lemma {:induction false} LoneHolderFindsSlotEmpty(steps: seq<Step>)
    requires NeverBothHolding(steps)
    ensures Run(steps).tcp.Holding? || Run(steps).ws.Holding? ==> Run(steps).waiting.None?
  {
    if steps == [] {
    } else {
      var front := steps[..|steps| - 1];
      forall i | 0 <= i <= |front|
        ensures !(Run(front[..i]).tcp.Holding? && Run(front[..i]).ws.Holding?)
      {
        assert front[..i] == steps[..i];
      }
      LoneHolderFindsSlotEmpty(front);
      assert steps[..|steps|] == steps;
      assert steps[..|front|] == front;
    }
  }

  /** So nobody is dropped unless both tasks are past an empty take at once. */
  lemma NobodyDisplaced(steps: seq<Step>)
    requires NeverBothHolding(steps)
    ensures Run(steps).displaced == []
  {
    forall i | 0 <= i < |steps| ensures !PutsOnWaiting(Run(steps[..i]), steps[i]) {
      assert forall j :: 0 <= j <= i ==> steps[..i][..j] == steps[..j];
      LoneHolderFindsSlotEmpty(steps[..i]);
    }
    NobodyDisplacedExactly(steps);
  }

  /** Both tasks past an empty take, and still nobody dropped: a third connection takes the first
      out of the slot before the second is put there. */
  lemma BothHoldingNeedNotDisplace()
    ensures exists steps, i :: 0 <= i <= |steps|
              && Run(steps[..i]).tcp.Holding? && Run(steps[..i]).ws.Holding?
              && Run(steps).displaced == [] && Run(steps).tcp.Idle? && Run(steps).ws.Idle?
  {
    var s4 := [Accept(Tcp), Accept(Ws), Take(Tcp), Take(Ws)];
    var s8 := s4 + [Put(Tcp), Accept(Tcp), Take(Tcp), Put(Ws)];
    assert Run(s4) == State(2, None, Holding(0), Holding(1), [], []) by {
      assert s4[..3][..2][..1][..0] == [];
      assert s4[..1] == [Accept(Tcp)];
      assert Run(s4[..1]) == State(1, None, Arrived(0), Idle, [], []);
      assert s4[..2][..1] == s4[..1] && s4[..3][..2] == s4[..2];
      assert Run(s4[..2]) == State(2, None, Arrived(0), Arrived(1), [], []);
    }
    assert s8[..4] == s4 && s8[..5][..4] == s4 && s8[..6][..5] == s8[..5]
           && s8[..7][..6] == s8[..6];
    assert Run(s8[..5]) == State(2, Some(0), Idle, Holding(1), [], []);
    assert Run(s8[..6]) == State(3, Some(0), Arrived(2), Holding(1), [], []);
    assert Run(s8[..7]) == State(3, None, Idle, Holding(1), [(2, 0)], []);
    assert Run(s8) == State(3, Some(1), Idle, Idle, [(2, 0)], []);
  }

  /** Arrivals 0 and 1 are paired, 2 and 3, and so on. */
  ghost predicate InArrivalOrder(pairs: seq<(nat, nat)>) {
    forall i :: 0 <= i < |pairs| ==> pairs[i] == (2 * i + 1, 2 * i)
  }

  /** How far `n` finished calls get. */
  ghost predicate Settled(s: State, n: nat) {
    && |s.pairs| == n / 2
    && s.waiting == if n % 2 == 1 then Some(n - 1) else None
  }

  ghost predicate InOrder(s: State) {
    && s.displaced == []
    && InArrivalOrder(s.pairs)
    && match (s.tcp, s.ws)
       case (Idle, Idle) => Settled(s, s.accepted)
       case (Arrived(c), Idle) => s.accepted == c + 1 && Settled(s, c)
       case (Idle, Arrived(c)) => s.accepted == c + 1 && Settled(s, c)
       case (Holding(c), Idle) => s.accepted == c + 1 && Settled(s, c) && c % 2 == 0
       case (Idle, Holding(c)) => s.accepted == c + 1 && Settled(s, c) && c % 2 == 0
       case _ => false
  }

  lemma StartInOrder()
    ensures InOrder(START)
  {
  }

  lemma StepKeepsOrder(s: State, step: Step)
    requires InOrder(s)
    requires Apply(s, step).tcp.Idle? || Apply(s, step).ws.Idle?
    ensures InOrder(Apply(s, step))
  {
  }

  /** Calls that never overlap pair arrivals 2i and 2i+1 for every i and displace nobody. */
  lemma {:induction false} SerialCallsPairNeighbours(steps: seq<Step>)
    requires NeverOverlapping(steps)
    ensures InOrder(Run(steps))
  {
    hide Apply, InOrder;
    if steps == [] {
      StartInOrder();
    } else {
      var front := steps[..|steps| - 1];
      forall i | 0 <= i <= |front|
        ensures Run(front[..i]).tcp.Idle? || Run(front[..i]).ws.Idle?
      {
        assert front[..i] == steps[..i];
      }
      SerialCallsPairNeighbours(front);
      assert steps[..|steps|] == steps;
      StepKeepsOrder(Run(front), steps[|steps| - 1]);
    }
  }

  /** Two calls that both find the slot empty lose a connection. */
  lemma OverlapCanDisplace()
    ensures exists steps :: Run(steps).displaced == [0] && Run(steps).pairs == []
  {
    var s1 := [Accept(Tcp)];
    var s2 := s1 + [Accept(Ws)];
    var s3 := s2 + [Take(Tcp)];
    var s4 := s3 + [Take(Ws)];
    var s5 := s4 + [Put(Tcp)];
    var s6 := s5 + [Put(Ws)];
    assert s1[..0] == [] && s2[..1] == s1 && s3[..2] == s2 && s4[..3] == s3 && s5[..4] == s4
           && s6[..5] == s5;
    assert Run(s1) == State(1, None, Arrived(0), Idle, [], []);
    assert Run(s2) == State(2, None, Arrived(0), Arrived(1), [], []);
    assert Run(s4) == State(2, None, Holding(0), Holding(1), [], []);
    assert Run(s6) == State(2, Some(1), Idle, Idle, [], [0]);
  }
}
