/** The per-agent concurrency of `scripts/dispatch-worker/index.ts`: `processMessage` checks and raises
    the agent's counter before its first await, and lowers it when its leg ends. */
module ActiveAgents {

  type Agent = string

  /** `caps` holds the configured caps, 1 where there is none; `known` the configured agents. */
  datatype Config = Config(caps: map<Agent, nat>, known: set<Agent>)

  function Cap(c: Config, a: Agent): nat {
    if a in c.caps then c.caps[a] else 1
  }

  /** The counters, and the legs between their first await and their end. */
  datatype System = System(active: map<Agent, nat>, legs: map<nat, Agent>)

  function Active(s: System, a: Agent): nat {
    if a in s.active then s.active[a] else 0
  }

  predicate Starts(c: Config, s: System, a: Agent) {
    Active(s, a) < Cap(c, a) && a in c.known
  }

  function Start(s: System, leg: nat, a: Agent): System {
    System(s.active[a := Active(s, a) + 1], s.legs[leg := a])
  }

  /** `Math.max(0, (activeByAgent.get(agent) ?? 1) - 1)` */
  function Lowered(s: System, a: Agent): nat {
    var n := if a in s.active then s.active[a] else 1;
    if n > 0 then n - 1 else 0
  }

  function End(s: System, leg: nat): System
    requires leg in s.legs
  {
    System(s.active[s.legs[leg] := Lowered(s, s.legs[leg])], s.legs - {leg})
  }

  /** A queued message comes up under a fresh leg number, or a leg ends, by success or failure. */
  datatype Event = Message(leg: nat, agent: Agent) | Finish(leg: nat)

  function Next(c: Config, s: System, e: Event): System {
    match e
    case Message(leg, a) => if leg !in s.legs && Starts(c, s, a) then Start(s, leg, a) else s
    case Finish(leg) => if leg in s.legs then End(s, leg) else s
  }

  function Run(c: Config, events: seq<Event>): System {
    if events == [] then System(map[], map[]) else Next(c, Run(c, events[..|events| - 1]), events[|events| - 1])
  }

  /** The legs an agent has in flight. */
  function InFlight(s: System, a: Agent): set<nat> {
    set leg | leg in s.legs && s.legs[leg] == a
  }

  ghost predicate InvAt(c: Config, s: System, a: Agent) {
    Active(s, a) == |InFlight(s, a)| && Active(s, a) <= Cap(c, a)
  }

  ghost predicate Inv(c: Config, s: System) {
    forall a :: InvAt(c, s, a)
  }

  lemma StartKeeps(c: Config, s: System, leg: nat, a: Agent, b: Agent)
    requires InvAt(c, s, b) && leg !in s.legs && Starts(c, s, a)
    ensures InvAt(c, Start(s, leg, a), b)
  {
    var t := Start(s, leg, a);
    assert InFlight(t, b) == InFlight(s, b) + if a == b then {leg} else {};
  }

  lemma EndKeeps(c: Config, s: System, leg: nat, b: Agent)
    requires InvAt(c, s, b) && leg in s.legs
    ensures InvAt(c, End(s, leg), b)
    ensures s.legs[leg] == b ==> b in s.active && s.active[b] >= 1
  {
    var t := End(s, leg);
    assert InFlight(t, b) == InFlight(s, b) - {leg};
    assert s.legs[leg] == b ==> leg in InFlight(s, b);
  }

  lemma NextKeeps(c: Config, s: System, e: Event)
    requires Inv(c, s)
    ensures Inv(c, Next(c, s, e))
  {
    hide InvAt, Start, End, Starts;
    forall b ensures InvAt(c, Next(c, s, e), b) {
      if e.Message? && e.leg !in s.legs && Starts(c, s, e.agent) {
        StartKeeps(c, s, e.leg, e.agent, b);
      } else if e.Finish? && e.leg in s.legs {
        EndKeeps(c, s, e.leg, b);
      }
    }
  }

  /** In every interleaving each counter is the number of its agent's legs in flight and stays within the
      cap; so a leg that ends finds a positive counter, and neither the default nor the floor of the
      decrement is ever used. */
  lemma {:induction false} CountersAreExact(c: Config, events: seq<Event>)
    ensures Inv(c, Run(c, events))
    ensures forall leg | leg in Run(c, events).legs ::
              var s := Run(c, events); s.legs[leg] in s.active && Lowered(s, s.legs[leg]) + 1 == s.active[s.legs[leg]]
  {
    hide Inv, Next;
    if events == [] {
      NothingInFlight(c);
    } else {
      CountersAreExact(c, events[..|events| - 1]);
      NextKeeps(c, Run(c, events[..|events| - 1]), events[|events| - 1]);
    }
    var t := Run(c, events);
    forall leg | leg in t.legs ensures t.legs[leg] in t.active && Lowered(t, t.legs[leg]) + 1 == t.active[t.legs[leg]] {
      InvOf(c, t, t.legs[leg]);
      EndKeeps(c, t, leg, t.legs[leg]);
    }
  }

  lemma InvOf(c: Config, s: System, a: Agent)
    requires Inv(c, s)
    ensures InvAt(c, s, a)
  {
  }

  lemma NothingInFlight(c: Config)
    ensures Inv(c, System(map[], map[]))
  {
    forall a ensures InvAt(c, System(map[], map[]), a) {
      assert InFlight(System(map[], map[]), a) == {};
    }
  }

  /** In every interleaving a message that comes up is taken exactly if its agent is configured and has
      fewer legs in flight than its cap, 1 if none is set; otherwise nothing changes. A leg that ends is
      gone, and makes room for one more. */
  lemma {:induction false} TakenIff(c: Config, events: seq<Event>, leg: nat, a: Agent)
    requires leg !in Run(c, events).legs
    ensures var s, t := Run(c, events), Run(c, events + [Message(leg, a)]);
            var room := |set l | l in s.legs && s.legs[l] == a| < (if a in c.caps then c.caps[a] else 1);
            if a in c.known && room then t.legs == s.legs[leg := a] else t == s
  {
    hide Inv;
    CountersAreExact(c, events);
    var s := Run(c, events);
    InvOf(c, s, a);
    assert InFlight(s, a) == set l | l in s.legs && s.legs[l] == a;
    assert (events + [Message(leg, a)])[..|events|] == events;
  }

  lemma EndedIsGone(c: Config, events: seq<Event>, leg: nat)
    ensures Run(c, events + [Finish(leg)]).legs == Run(c, events).legs - {leg}
  {
    assert (events + [Finish(leg)])[..|events|] == events;
  }

  class WorkerState {
    var activeByAgent: map<Agent, nat>

    constructor ()
      ensures activeByAgent == map[]
    {
      activeByAgent := map[];
    }

    /** `processMessage` before its first await. */
    method Begin(c: Config, agent: Agent, leg: nat, ghost legs: map<nat, Agent>) returns (started: bool)
      modifies this
      ensures var s := System(old(activeByAgent), legs);
              && started == Starts(c, s, agent)
              && activeByAgent == if started then Start(s, leg, agent).active else old(activeByAgent)
    {
      var active := if agent in activeByAgent then activeByAgent[agent] else 0;
      var cap := if agent in c.caps then c.caps[agent] else 1;
      if active >= cap {
        return false;
      }
      if agent !in c.known {
        return false;
      }
      activeByAgent := activeByAgent[agent := active + 1];
      started := true;
    }

    /** Its `finally` block. */
    method Finish(agent: Agent, leg: nat, ghost legs: map<nat, Agent>)
      requires leg in legs && legs[leg] == agent
      modifies this
      ensures activeByAgent == End(System(old(activeByAgent), legs), leg).active
    {
      var active: int := if agent in activeByAgent then activeByAgent[agent] else 1;
      activeByAgent := activeByAgent[agent := if active - 1 > 0 then active - 1 else 0];
    }
  }
}
