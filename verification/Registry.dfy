/** The rendezvous server's peer registry. */
module Registry {
  import opened Bytes

  /** How a peer is reached: a UDP address, or the push channel of a WebSocket connection. */
  datatype Reach = Udp(addr: nat) | WsPush(channel: nat)

  type Peers = map<string, Reach>

  datatype Event =
    | Register(id: string, reach: Reach)
    | Disconnect(id: string, channel: nat)

  function Apply(m: Peers, e: Event): Peers {
    match e
    case Register(id, reach) => m[id := reach]
    case Disconnect(id, channel) =>
      if id in m && m[id] == WsPush(channel) then m - {id} else m
  }

  function After(log: seq<Event>): Peers {
    if log == [] then map[] else Apply(After(log[..|log| - 1]), log[|log| - 1])
  }

  class PeerRegistry {
    var inner: Peers

    constructor ()
      ensures inner == map[]
    {
      inner := map[];
    }

    method Upsert(id: string, reach: Reach)
      modifies this
      ensures inner == Apply(old(inner), Register(id, reach))
    {
      inner := inner[id := reach];
    }

    method Get(id: string) returns (reach: Option<Reach>)
      ensures reach.Some? <==> id in inner
      ensures reach.Some? ==> reach.value == inner[id]
    {
      reach := if id in inner then Some(inner[id]) else None;
    }

    method RemoveIfWs(id: string, sender: nat)
      modifies this
      ensures inner == Apply(old(inner), Disconnect(id, sender))
    {
      var dropIt := id in inner && inner[id].WsPush? && inner[id].channel == sender;
      if dropIt {
        inner := inner - {id};
      }
    }
  }

  /** Event `i` registers `id`, nothing registers it later, and the channel registered does not
      disconnect under it later. */
  ghost predicate LatestSurviving(log: seq<Event>, id: string, i: nat) {
    && i < |log|
    && log[i].Register? && log[i].id == id
    && forall j :: i < j < |log| && log[j].id == id ==>
         log[j].Disconnect? && log[i].reach != WsPush(log[j].channel)
  }

  lemma {:induction false} LookupOfLog(log: seq<Event>, id: string)
    ensures id in After(log) ==>
              exists i: nat :: LatestSurviving(log, id, i) && log[i].reach == After(log)[id]
    ensures forall i: nat :: LatestSurviving(log, id, i) ==>
              id in After(log) && After(log)[id] == log[i].reach
  {
    if log == [] {
    } else {
      var front, e := log[..|log| - 1], log[|log| - 1];
      LookupOfLog(front, id);
      if id in After(log) {
        if e.id == id && e.Register? {
          assert LatestSurviving(log, id, |log| - 1);
        } else {
          var i: nat :| LatestSurviving(front, id, i) && front[i].reach == After(front)[id];
          assert LatestSurviving(log, id, i);
        }
      }
      forall i: nat | LatestSurviving(log, id, i)
        ensures id in After(log) && After(log)[id] == log[i].reach
      {
        if i < |log| - 1 {
          assert LatestSurviving(front, id, i);
        }
      }
    }
  }

  /** Over every run of registrations and disconnects, a lookup finds exactly the latest
      registration that survives. */
  lemma LookupFindsLatestSurviving(log: seq<Event>, id: string, reach: Reach)
    ensures id in After(log) && After(log)[id] == reach <==>
            exists i: nat :: LatestSurviving(log, id, i) && log[i].reach == reach
  {
    LookupOfLog(log, id);
  }
}
