/** The session table of `packages/companion-mcp/src/server.ts`: admissions with least-recent eviction,
    idle sweeps and client closes, interleaved at every await. Session ids are random and fresh, so a
    running number stands for them; it also names the session's record. */
module SessionAdmissions {

  /** One entry of the map, which iterates in insertion order. */
  datatype Session = Session(id: nat, last: int)

  // ----- The table -----

  /** The index the search loop ends with: the first of the least recent. */
  function LeastRecent(ss: seq<Session>): (i: nat)
    requires ss != []
    ensures i < |ss| && forall j | 0 <= j < |ss| :: if j < i then ss[i].last < ss[j].last else ss[i].last <= ss[j].last
  {
    if |ss| == 1 then 0
    else
      var i := LeastRecent(ss[..|ss| - 1]);
      assert ss[..|ss| - 1][i] == ss[i];
      assert forall j | 0 <= j < |ss| - 1 :: ss[..|ss| - 1][j] == ss[j];
      if ss[|ss| - 1].last < ss[i].last then |ss| - 1 else i
  }

  function Remove(ss: seq<Session>, i: nat): seq<Session>
    requires i < |ss|
  {
    ss[..i] + ss[i + 1..]
  }

  predicate Expired(s: Session, now: int, idle: int) {
    now - s.last > idle
  }

  function Alive(ss: seq<Session>, now: int, idle: int): seq<Session> {
    if ss == [] then []
    else Alive(ss[..|ss| - 1], now, idle) + if Expired(ss[|ss| - 1], now, idle) then [] else [ss[|ss| - 1]]
  }

  /** The ids a sweep takes out, in order. */
  function Swept(ss: seq<Session>, now: int, idle: int): seq<nat> {
    if ss == [] then []
    else Swept(ss[..|ss| - 1], now, idle) + if Expired(ss[|ss| - 1], now, idle) then [ss[|ss| - 1].id] else []
  }

  function Touch(ss: seq<Session>, id: nat, now: int): (r: seq<Session>)
    ensures |r| == |ss| && forall i | 0 <= i < |ss| :: r[i] == if ss[i].id == id then ss[i].(last := now) else ss[i]
  {
    seq(|ss|, i requires 0 <= i < |ss| => if ss[i].id == id then ss[i].(last := now) else ss[i])
  }

  function Without(ss: seq<Session>, id: nat): seq<Session> {
    if ss == [] then [] else Without(ss[..|ss| - 1], id) + if ss[|ss| - 1].id == id then [] else [ss[|ss| - 1]]
  }

  // ----- The interleaved system -----

  datatype Stage = ClosingTransport | ClosingServer | Finished

  /** A run of closes: the record being closed, and those still waiting behind it. */
  datatype Task = Task(stage: Stage, current: nat, rest: seq<nat>)

  /** `queue`: admissions waiting their turn. `eviction`: the close the last admission waits for. The rest
      are logs: the sessions inserted (`admitted`), the records taken out of the map by an eviction or a
      sweep (`detached`), the calls of `transport.close` and `server.close`, the records whose transport
      did not close, so that their server was not asked to (`stranded`), and the records a failed sweep
      left behind (`leaked`). */
  datatype System = System(sessions: seq<Session>, queue: seq<Session>, eviction: Task, sweeps: seq<Task>,
                           admitted: seq<nat>, detached: seq<nat>, transports: seq<nat>, servers: seq<nat>,
                           stranded: seq<nat>, leaked: seq<nat>, next: nat)

  datatype Event =
    | Request(now: int)
    | Admit
    | EvictionDone(ok: bool)
    | TouchIt(id: nat, now: int)
    | ClientClose(id: nat)
    | Sweep(now: int, idle: int)
    | SweepDone(sweep: nat, ok: bool)

  const IDLE := Task(Finished, 0, [])

  const EMPTY := System([], [], IDLE, [], [], [], [], [], [], [], 0)

  predicate Enabled(s: System, e: Event) {
    match e
    case Admit => s.queue != [] && s.eviction.stage == Finished
    case EvictionDone(_) => s.eviction.stage != Finished
    case SweepDone(k, _) => k < |s.sweeps| && s.sweeps[k].stage != Finished
    case _ => true
  }

  function Next(s: System, e: Event, cap: nat): System
    requires Enabled(s, e)
  {
    match e
    case Request(now) => s.(queue := s.queue + [Session(s.next, now)], next := s.next + 1)
    case Admit =>
      var t := s.(queue := s.queue[1..], admitted := s.admitted + [s.queue[0].id]);
      if |s.sessions| < cap || s.sessions == [] then t.(sessions := s.sessions + [s.queue[0]])
      else
        var i := LeastRecent(s.sessions);
        var victim := s.sessions[i].id;
        t.(sessions := Remove(s.sessions, i) + [s.queue[0]], eviction := Task(ClosingTransport, victim, []),
           detached := s.detached + [victim], transports := s.transports + [victim])
    case EvictionDone(ok) =>
      var task := s.eviction;
      if task.stage == ClosingTransport then
        if ok then s.(eviction := task.(stage := ClosingServer), servers := s.servers + [task.current])
        else s.(eviction := IDLE, stranded := s.stranded + [task.current])
      else s.(eviction := IDLE)
    case TouchIt(id, now) => s.(sessions := Touch(s.sessions, id, now))
    case ClientClose(id) => s.(sessions := Without(s.sessions, id))
    case Sweep(now, idle) =>
      var out := Swept(s.sessions, now, idle);
      var t := s.(sessions := Alive(s.sessions, now, idle), detached := s.detached + out);
      if out == [] then t
      else t.(sweeps := s.sweeps + [Task(ClosingTransport, out[0], out[1..])], transports := s.transports + [out[0]])
    case SweepDone(k, ok) =>
      var task := s.sweeps[k];
      if !ok then
        s.(sweeps := s.sweeps[k := IDLE], leaked := s.leaked + task.rest,
           stranded := s.stranded + if task.stage == ClosingTransport then [task.current] else [])
      else if task.stage == ClosingTransport then
        s.(sweeps := s.sweeps[k := task.(stage := ClosingServer)], servers := s.servers + [task.current])
      else if task.rest == [] then s.(sweeps := s.sweeps[k := IDLE])
      else
        s.(sweeps := s.sweeps[k := Task(ClosingTransport, task.rest[0], task.rest[1..])], transports := s.transports + [task.rest[0]])
  }

  function Run(events: seq<Event>, cap: nat): System {
    if events == [] then EMPTY
    else
      var s, e := Run(events[..|events| - 1], cap), events[|events| - 1];
      if Enabled(s, e) then Next(s, e, cap) else s
  }

  // ----- What every step keeps -----

  function Count(ids: seq<nat>, id: nat): nat {
    multiset(ids)[id]
  }

  lemma CountConcat(a: seq<nat>, b: seq<nat>, id: nat)
    ensures Count(a + b, id) == Count(a, id) + Count(b, id)
  {
  }

  lemma CountOne(x: nat, id: nat)
    ensures Count([x], id) == (if x == id then 1 else 0) && Count([], id) == 0
  {
  }

  function Ids(ss: seq<Session>): (r: seq<nat>)
    ensures |r| == |ss| && forall i | 0 <= i < |ss| :: r[i] == ss[i].id
  {
    seq(|ss|, i requires 0 <= i < |ss| => ss[i].id)
  }

  /** How often an id is in a list of sessions. */
  function Held(ss: seq<Session>, id: nat): nat {
    Count(Ids(ss), id)
  }

  lemma HeldConcat(a: seq<Session>, b: seq<Session>, id: nat)
    ensures Held(a + b, id) == Held(a, id) + Held(b, id)
  {
    hide Count;
    assert Ids(a + b) == Ids(a) + Ids(b);
    CountConcat(Ids(a), Ids(b), id);
  }

  lemma HeldOne(x: Session, id: nat)
    ensures Held([x], id) == (if x.id == id then 1 else 0) && Held([], id) == 0
  {
    hide Count;
    assert Ids([x]) == [x.id] && Ids([]) == [];
    CountOne(x.id, id);
  }

  /** How often a record waits in the sweeps. */
  function Waiting(tasks: seq<Task>, id: nat): nat {
    if tasks == [] then 0 else Waiting(tasks[..|tasks| - 1], id) + Count(tasks[|tasks| - 1].rest, id)
  }

  /** Whether a record's transport is being closed. */
  function Opening(t: Task, id: nat): nat {
    if t.stage == ClosingTransport && t.current == id then 1 else 0
  }

  function OpeningAll(tasks: seq<Task>, id: nat): nat {
    if tasks == [] then 0 else OpeningAll(tasks[..|tasks| - 1], id) + Opening(tasks[|tasks| - 1], id)
  }

  /** A record is in one place: waiting for admission, in the map, or taken out once. One taken out had
      its transport closed, waits in a sweep, or leaked; one whose transport was asked to close is still
      at it, had its server asked too, or is stranded. */
  ghost predicate InvAt(s: System, id: nat) {
    && Held(s.sessions, id) + Held(s.queue, id) + Count(s.detached, id) <= 1
    && (Held(s.sessions, id) + Held(s.queue, id) + Count(s.detached, id) == 1 ==> id < s.next)
    && Count(s.detached, id) == Count(s.transports, id) + Waiting(s.sweeps, id) + Count(s.leaked, id)
    && Count(s.transports, id)
       == Count(s.servers, id) + Count(s.stranded, id) + Opening(s.eviction, id) + OpeningAll(s.sweeps, id)
  }

  ghost predicate Inv(s: System, cap: nat) {
    |s.sessions| <= cap && forall id :: InvAt(s, id)
  }

  lemma {:induction false} WaitingUpdate(tasks: seq<Task>, k: nat, t: Task, id: nat)
    requires k < |tasks|
    ensures Waiting(tasks[k := t], id) + Count(tasks[k].rest, id) == Waiting(tasks, id) + Count(t.rest, id)
  {
    hide Count;
    var n := |tasks| - 1;
    var u := tasks[k := t];
    if k < n {
      WaitingUpdate(tasks[..n], k, t, id);
      assert u[..n] == tasks[..n][k := t] && u[n] == tasks[n];
    } else {
      assert u[..n] == tasks[..n];
    }
  }

  lemma {:induction false} OpeningUpdate(tasks: seq<Task>, k: nat, t: Task, id: nat)
    requires k < |tasks|
    ensures OpeningAll(tasks[k := t], id) + Opening(tasks[k], id) == OpeningAll(tasks, id) + Opening(t, id)
  {
    hide Opening;
    var n := |tasks| - 1;
    var u := tasks[k := t];
    if k < n {
      OpeningUpdate(tasks[..n], k, t, id);
      assert u[..n] == tasks[..n][k := t] && u[n] == tasks[n];
    } else {
      assert u[..n] == tasks[..n];
    }
  }

  lemma OpeningPush(tasks: seq<Task>, t: Task, id: nat)
    ensures OpeningAll(tasks + [t], id) == OpeningAll(tasks, id) + Opening(t, id)
  {
    hide Opening;
    assert (tasks + [t])[..|tasks|] == tasks;
  }

  lemma WaitingPush(tasks: seq<Task>, t: Task, id: nat)
    ensures Waiting(tasks + [t], id) == Waiting(tasks, id) + Count(t.rest, id)
  {
    hide Count;
    assert (tasks + [t])[..|tasks|] == tasks;
  }

  lemma {:induction false} SweepSplits(ss: seq<Session>, now: int, idle: int, id: nat)
    ensures Held(ss, id) == Held(Alive(ss, now, idle), id) + Count(Swept(ss, now, idle), id)
    ensures |Alive(ss, now, idle)| <= |ss|
  {
    hide Count, Held;
    if ss == [] {
      HeldOne(Session(0, 0), id);
      CountOne(0, id);
    } else {
      var init, x := ss[..|ss| - 1], ss[|ss| - 1];
      SweepSplits(init, now, idle, id);
      assert ss == init + [x] && Alive(init, now, idle) + [] == Alive(init, now, idle) && Swept(init, now, idle) + [] == Swept(init, now, idle);
      HeldConcat(init, [x], id);
      HeldConcat(Alive(init, now, idle), [x], id);
      CountConcat(Swept(init, now, idle), [x.id], id);
      HeldOne(x, id);
      CountOne(x.id, id);
    }
  }

  lemma {:induction false} WithoutHeld(ss: seq<Session>, x: nat, id: nat)
    ensures Held(Without(ss, x), id) == (if id == x then 0 else Held(ss, id)) && |Without(ss, x)| <= |ss|
  {
    hide Held;
    if ss == [] {
      HeldOne(Session(0, 0), id);
    } else {
      var init, y := ss[..|ss| - 1], ss[|ss| - 1];
      WithoutHeld(init, x, id);
      assert ss == init + [y] && Without(init, x) + [] == Without(init, x);
      HeldConcat(init, [y], id);
      HeldConcat(Without(init, x), [y], id);
      HeldOne(y, id);
    }
  }

  lemma RemoveHeld(ss: seq<Session>, i: nat, id: nat)
    requires i < |ss|
    ensures Held(Remove(ss, i), id) + (if ss[i].id == id then 1 else 0) == Held(ss, id)
  {
    hide Held;
    assert ss == ss[..i] + ([ss[i]] + ss[i + 1..]);
    HeldConcat(ss[..i], [ss[i]] + ss[i + 1..], id);
    HeldConcat([ss[i]], ss[i + 1..], id);
    HeldConcat(ss[..i], ss[i + 1..], id);
    HeldOne(ss[i], id);
  }

  lemma RequestKeeps(s: System, now: int, cap: nat, id: nat)
    requires InvAt(s, id)
    ensures InvAt(Next(s, Request(now), cap), id)
  {
    hide Held, Count, Waiting, OpeningAll;
    HeldConcat(s.queue, [Session(s.next, now)], id);
    HeldOne(Session(s.next, now), id);
  }

  lemma AdmitKeeps(s: System, cap: nat, id: nat)
    requires InvAt(s, id) && Enabled(s, Admit)
    ensures InvAt(Next(s, Admit, cap), id)
  {
    hide Held, Count, Waiting, OpeningAll, Remove;
    var x := s.queue[0];
    assert s.queue == [x] + s.queue[1..];
    HeldConcat([x], s.queue[1..], id);
    HeldOne(x, id);
    HeldConcat(s.sessions, [x], id);
    if !(|s.sessions| < cap || s.sessions == []) {
      var i := LeastRecent(s.sessions);
      RemoveHeld(s.sessions, i, id);
      HeldConcat(Remove(s.sessions, i), [x], id);
      CountConcat(s.detached, [s.sessions[i].id], id);
      CountConcat(s.transports, [s.sessions[i].id], id);
      CountOne(s.sessions[i].id, id);
    }
  }

  lemma SweepKeeps(s: System, now: int, idle: int, cap: nat, id: nat)
    requires InvAt(s, id)
    ensures InvAt(Next(s, Sweep(now, idle), cap), id)
  {
    hide Alive, Swept, Held, Count, Waiting, OpeningAll;
    SweepSplits(s.sessions, now, idle, id);
    var out := Swept(s.sessions, now, idle);
    CountConcat(s.detached, out, id);
    CountOne(0, id);
    if out != [] {
      assert out == [out[0]] + out[1..];
      CountConcat([out[0]], out[1..], id);
      CountConcat(s.transports, [out[0]], id);
      WaitingPush(s.sweeps, Task(ClosingTransport, out[0], out[1..]), id);
      OpeningPush(s.sweeps, Task(ClosingTransport, out[0], out[1..]), id);
      CountOne(out[0], id);
    }
  }

  lemma SweepDoneKeeps(s: System, k: nat, ok: bool, cap: nat, id: nat)
    requires InvAt(s, id) && Enabled(s, SweepDone(k, ok))
    ensures InvAt(Next(s, SweepDone(k, ok), cap), id)
  {
    hide Held, Count, Waiting, OpeningAll;
    var task := s.sweeps[k];
    CountOne(task.current, id);
    CountConcat(s.servers, [task.current], id);
    CountConcat(s.stranded, [task.current], id);
    WaitingUpdate(s.sweeps, k, IDLE, id);
    OpeningUpdate(s.sweeps, k, IDLE, id);
    if !ok {
      CountConcat(s.leaked, task.rest, id);
      assert s.stranded + [] == s.stranded;
    } else if task.stage == ClosingTransport {
      WaitingUpdate(s.sweeps, k, task.(stage := ClosingServer), id);
      OpeningUpdate(s.sweeps, k, task.(stage := ClosingServer), id);
    } else if task.rest != [] {
      var t := Task(ClosingTransport, task.rest[0], task.rest[1..]);
      assert task.rest == [task.rest[0]] + task.rest[1..];
      CountConcat([task.rest[0]], task.rest[1..], id);
      CountConcat(s.transports, [task.rest[0]], id);
      CountOne(task.rest[0], id);
      WaitingUpdate(s.sweeps, k, t, id);
      OpeningUpdate(s.sweeps, k, t, id);
    }
  }

  lemma EvictionDoneKeeps(s: System, ok: bool, cap: nat, id: nat)
    requires InvAt(s, id) && Enabled(s, EvictionDone(ok))
    ensures InvAt(Next(s, EvictionDone(ok), cap), id)
  {
    hide Held, Count, Waiting, OpeningAll;
    CountOne(s.eviction.current, id);
    CountConcat(s.servers, [s.eviction.current], id);
    CountConcat(s.stranded, [s.eviction.current], id);
  }

  lemma TouchKeeps(s: System, x: nat, now: int, cap: nat, id: nat)
    requires InvAt(s, id)
    ensures InvAt(Next(s, TouchIt(x, now), cap), id)
  {
    hide Count, Waiting, OpeningAll;
    assert Ids(Touch(s.sessions, x, now)) == Ids(s.sessions);
  }

  lemma CloseKeeps(s: System, x: nat, cap: nat, id: nat)
    requires InvAt(s, id)
    ensures InvAt(Next(s, ClientClose(x), cap), id)
  {
    hide Held, Count, Waiting, OpeningAll, Without;
    WithoutHeld(s.sessions, x, id);
  }

  lemma NextKeepsAt(s: System, e: Event, cap: nat, id: nat)
    requires InvAt(s, id) && Enabled(s, e)
    ensures InvAt(Next(s, e, cap), id)
  {
    hide Held, Count, Waiting, OpeningAll;
    match e
    case Request(now) => RequestKeeps(s, now, cap, id);
    case Admit => AdmitKeeps(s, cap, id);
    case EvictionDone(ok) => EvictionDoneKeeps(s, ok, cap, id);
    case TouchIt(x, now) => TouchKeeps(s, x, now, cap, id);
    case ClientClose(x) => CloseKeeps(s, x, cap, id);
    case Sweep(now, idle) => SweepKeeps(s, now, idle, cap, id);
    case SweepDone(k, ok) => SweepDoneKeeps(s, k, ok, cap, id);
  }

  lemma CapKept(s: System, e: Event, cap: nat)
    requires |s.sessions| <= cap && Enabled(s, e) && cap > 0
    ensures |Next(s, e, cap).sessions| <= cap
  {
    match e
    case ClientClose(x) => WithoutHeld(s.sessions, x, 0);
    case Sweep(now, idle) => SweepSplits(s.sessions, now, idle, 0);
    case _ =>
  }

  lemma NextKeeps(s: System, e: Event, cap: nat)
    requires Inv(s, cap) && Enabled(s, e) && cap > 0
    ensures Inv(Next(s, e, cap), cap)
  {
    hide InvAt, Next;
    CapKept(s, e, cap);
    forall id ensures InvAt(Next(s, e, cap), id) {
      NextKeepsAt(s, e, cap, id);
    }
  }

  lemma {:induction false} Reachable(events: seq<Event>, cap: nat)
    requires cap > 0
    ensures Inv(Run(events, cap), cap)
  {
    hide Inv, Next;
    if events == [] {
      EmptyHolds(cap);
    } else {
      var init, e := events[..|events| - 1], events[|events| - 1];
      Reachable(init, cap);
      if Enabled(Run(init, cap), e) {
        NextKeeps(Run(init, cap), e, cap);
      }
    }
  }

  lemma EmptyHolds(cap: nat)
    ensures Inv(EMPTY, cap)
  {
    forall id ensures InvAt(EMPTY, id) {
      HeldOne(Session(0, 0), id);
    }
  }

  lemma CountIn(ids: seq<nat>, i: nat, j: nat)
    requires i <= j < |ids|
    ensures Count(ids, ids[i]) >= 1
    ensures i < j && ids[i] == ids[j] ==> Count(ids, ids[i]) >= 2
  {
    assert ids == ids[..j] + ids[j..];
    assert ids[j..][0] in multiset(ids[j..]);
    if i < j {
      assert ids[..j][i] in multiset(ids[..j]);
    }
  }

  /** In every interleaving the map stays within the cap, holds no session twice, and no record is taken
      out, or has its transport closed, twice. */
  lemma {:induction false} CappedAndClosedOnce(events: seq<Event>, cap: nat)
    requires cap > 0
    ensures var s := Run(events, cap);
            && |s.sessions| <= cap
            && (forall i, j | 0 <= i < j < |s.sessions| :: s.sessions[i].id != s.sessions[j].id)
            && (forall id :: Count(s.transports, id) <= Count(s.detached, id) <= 1)
            && (forall i, j | 0 <= i < |s.sessions| && 0 <= j < |s.detached| :: s.sessions[i].id != s.detached[j])
  {
    hide Run, Count, Waiting;
    Reachable(events, cap);
    var s := Run(events, cap);
    forall id ensures Count(s.transports, id) <= Count(s.detached, id) <= 1 {
      assert InvAt(s, id);
    }
    forall i, j | 0 <= i < j < |s.sessions| ensures s.sessions[i].id != s.sessions[j].id {
      CountIn(Ids(s.sessions), i, j);
      assert InvAt(s, s.sessions[i].id);
    }
    forall i, j | 0 <= i < |s.sessions| && 0 <= j < |s.detached| ensures s.sessions[i].id != s.detached[j] {
      CountIn(Ids(s.sessions), i, i);
      CountIn(s.detached, j, j);
      assert InvAt(s, s.detached[j]);
    }
  }

  /** The victim of an admission is the first of the least recent among those present, and never the
      session being admitted; nothing is evicted below the cap. */
  lemma {:induction false} VictimIsLeastRecent(events: seq<Event>, cap: nat)
    requires cap > 0 && Enabled(Run(events, cap), Admit)
    ensures var s := Run(events, cap); var t := Next(s, Admit, cap);
            && (|s.sessions| < cap ==> t.detached == s.detached && t.sessions == s.sessions + [s.queue[0]])
            && (|s.sessions| == cap ==>
                  exists i | 0 <= i < cap ::
                    && t.detached == s.detached + [s.sessions[i].id] && s.sessions[i].id != s.queue[0].id
                    && t.sessions == s.sessions[..i] + s.sessions[i + 1..] + [s.queue[0]]
                    && forall j | 0 <= j < cap ::
                         if j < i then s.sessions[i].last < s.sessions[j].last else s.sessions[i].last <= s.sessions[j].last)
  {
    hide Run, Count, Waiting;
    Reachable(events, cap);
    var s := Run(events, cap);
    if |s.sessions| == cap {
      var i := LeastRecent(s.sessions);
      CountIn(Ids(s.sessions), i, i);
      CountIn(Ids(s.queue), 0, 0);
      assert InvAt(s, s.queue[0].id);
      assert s.sessions[i].id != s.queue[0].id;
    }
  }

  // ----- Who is taken out -----

  lemma {:induction false} AliveAre(ss: seq<Session>, now: int, idle: int, x: Session)
    ensures x in Alive(ss, now, idle) <==> x in ss && now - x.last <= idle
  {
    if ss != [] {
      AliveAre(ss[..|ss| - 1], now, idle, x);
      assert x in ss <==> x in ss[..|ss| - 1] || x == ss[|ss| - 1];
    }
  }

  lemma {:induction false} SweptAre(ss: seq<Session>, now: int, idle: int, id: nat)
    ensures id in Swept(ss, now, idle) <==> exists x :: x in ss && x.id == id && now - x.last > idle
  {
    if ss != [] {
      SweptAre(ss[..|ss| - 1], now, idle, id);
      assert forall x :: x in ss <==> x in ss[..|ss| - 1] || x == ss[|ss| - 1];
    }
  }

  /** Both in the order of the map. */
  lemma {:induction false} SweepKeepsOrder(a: seq<Session>, b: seq<Session>, now: int, idle: int)
    ensures Alive(a + b, now, idle) == Alive(a, now, idle) + Alive(b, now, idle)
    ensures Swept(a + b, now, idle) == Swept(a, now, idle) + Swept(b, now, idle)
  {
    if b == [] {
      assert a + b == a;
    } else {
      SweepKeepsOrder(a, b[..|b| - 1], now, idle);
      assert (a + b)[..|a + b| - 1] == a + b[..|b| - 1];
    }
  }

  /** A sweep takes out exactly the sessions idle for longer than the limit, at any point of any run. */
  lemma {:induction false} SweepTakesTheIdle(events: seq<Event>, cap: nat, now: int, idle: int)
    ensures var s, t := Run(events, cap), Run(events + [Sweep(now, idle)], cap);
            && (forall x :: x in t.sessions <==> x in s.sessions && now - x.last <= idle)
            && s.detached <= t.detached
            && (forall id :: id in t.detached[|s.detached|..] <==> exists x :: x in s.sessions && x.id == id && now - x.last > idle)
  {
    hide Alive, Swept;
    var s, t := Run(events, cap), Run(events + [Sweep(now, idle)], cap);
    assert (events + [Sweep(now, idle)])[..|events|] == events;
    assert t.detached[|s.detached|..] == Swept(s.sessions, now, idle);
    forall x ensures x in t.sessions <==> x in s.sessions && now - x.last <= idle {
      AliveAre(s.sessions, now, idle, x);
    }
    forall id: nat ensures id in t.detached[|s.detached|..] <==> exists x :: x in s.sessions && x.id == id && now - x.last > idle {
      SweptAre(s.sessions, now, idle, id);
    }
  }

  // ----- The queue of admissions -----

  function Numbers(n: nat): (r: seq<nat>)
    ensures |r| == n && forall i | 0 <= i < n :: r[i] == i
  {
    seq(n, i requires 0 <= i < n => i)
  }

  lemma AdmitTakesTheFirst(s: System, cap: nat)
    requires Enabled(s, Admit)
    ensures var t := Next(s, Admit, cap); t.queue == s.queue[1..] && t.admitted == s.admitted + [s.queue[0].id]
  {
    hide LeastRecent, Remove;
  }

  lemma IdsTail(ss: seq<Session>)
    requires ss != []
    ensures Ids(ss) == [ss[0].id] + Ids(ss[1..])
  {
  }

  lemma AdmitStep(s: System, cap: nat)
    requires Enabled(s, Admit)
    ensures var t := Next(s, Admit, cap); |t.queue| < |s.queue| && t.admitted + Ids(t.queue) == s.admitted + Ids(s.queue)
  {
    hide Next, Ids;
    AdmitTakesTheFirst(s, cap);
    IdsTail(s.queue);
    assert s.admitted + ([s.queue[0].id] + Ids(s.queue[1..])) == (s.admitted + [s.queue[0].id]) + Ids(s.queue[1..]);
  }

  lemma RequestStep(s: System, now: int, cap: nat)
    ensures var t := Next(s, Request(now), cap);
            t.admitted + Ids(t.queue) == (s.admitted + Ids(s.queue)) + [s.next] && t.next == s.next + 1
  {
    assert Ids(s.queue + [Session(s.next, now)]) == Ids(s.queue) + [s.next];
    assert s.admitted + (Ids(s.queue) + [s.next]) == (s.admitted + Ids(s.queue)) + [s.next];
  }

  lemma QueueStays(s: System, e: Event, cap: nat)
    requires Enabled(s, e) && !e.Request?
    ensures Next(s, e, cap).next == s.next
    ensures !e.Admit? ==> Next(s, e, cap).queue == s.queue && Next(s, e, cap).admitted == s.admitted
  {
    hide LeastRecent, Remove, Alive, Swept, Without, Touch;
  }

  lemma QueueStep(s: System, e: Event, cap: nat)
    requires Enabled(s, e) && s.admitted + Ids(s.queue) == Numbers(s.next)
    ensures var t := Next(s, e, cap); t.admitted + Ids(t.queue) == Numbers(t.next)
  {
    hide Next, Ids;
    if e.Request? {
      RequestStep(s, e.now, cap);
      assert Numbers(s.next + 1) == Numbers(s.next) + [s.next];
    } else {
      QueueStays(s, e, cap);
      if e.Admit? {
        AdmitStep(s, cap);
      }
    }
  }

  /** Whatever else happens, sessions are inserted in the order of their requests, none left out: those
      inserted and then those queued are all that were requested. */
  lemma {:induction false} FirstComeFirstServed(events: seq<Event>, cap: nat)
    ensures var s := Run(events, cap); s.admitted + Ids(s.queue) == Numbers(s.next)
  {
    hide Next, Enabled;
    if events == [] {
      assert Ids([]) == [] && Numbers(0) == [];
    } else {
      var s, e := Run(events[..|events| - 1], cap), events[|events| - 1];
      FirstComeFirstServed(events[..|events| - 1], cap);
      if Enabled(s, e) {
        QueueStep(s, e, cap);
      }
    }
  }

  /** The queue left to itself: an admission as soon as none is waiting for a close, and otherwise the
      answer of that close, the `i`th of `answers`. */
  function Drain(s: System, answers: nat -> bool, i: nat, cap: nat): System
    decreases |s.queue|, if s.eviction.stage == Finished then 0 else if s.eviction.stage == ClosingServer then 1 else 2
  {
    if s.eviction.stage != Finished then Drain(Next(s, EvictionDone(answers(i)), cap), answers, i + 1, cap)
    else if s.queue != [] then Drain(Next(s, Admit, cap), answers, i, cap)
    else s
  }

  lemma CloseStep(s: System, ok: bool, cap: nat)
    requires s.eviction.stage != Finished
    ensures var t := Next(s, EvictionDone(ok), cap);
            && t.queue == s.queue && t.admitted == s.admitted
            && (t.eviction.stage == Finished || (s.eviction.stage == ClosingTransport && t.eviction.stage == ClosingServer))
  {
  }

  /** From any state and whatever the closes answer, failure or not, every queued admission is inserted,
      in order, and the queue empties. */
  lemma {:induction false} QueueDrains(s: System, answers: nat -> bool, i: nat, cap: nat)
    ensures var t := Drain(s, answers, i, cap);
            t.queue == [] && t.eviction.stage == Finished && t.admitted == s.admitted + Ids(s.queue)
    decreases |s.queue|, if s.eviction.stage == Finished then 0 else if s.eviction.stage == ClosingServer then 1 else 2
  {
    hide Next, Ids;
    if s.eviction.stage != Finished {
      CloseStep(s, answers(i), cap);
      QueueDrains(Next(s, EvictionDone(answers(i)), cap), answers, i + 1, cap);
    } else if s.queue != [] {
      AdmitStep(s, cap);
      QueueDrains(Next(s, Admit, cap), answers, i, cap);
    } else {
      assert Ids([]) == [];
    }
  }

  // ----- What a failed close leaves behind -----

  /** The close that a sweep waits for fails while the record waits behind it. */
  ghost predicate LeavesBehind(s: System, e: Event, id: nat) {
    e.SweepDone? && !e.ok && Enabled(s, e) && Count(s.sweeps[e.sweep].rest, id) > 0
  }

  /** The record's own transport fails to close. */
  ghost predicate Strands(s: System, e: Event, id: nat) {
    && Enabled(s, e)
    && match e
       case EvictionDone(ok) => !ok && Opening(s.eviction, id) == 1
       case SweepDone(k, ok) => !ok && Opening(s.sweeps[k], id) == 1
       case _ => false
  }

  ghost predicate Happened(how: (System, Event, nat) -> bool, events: seq<Event>, cap: nat, id: nat) {
    exists n :: 0 <= n < |events| && how(Run(events[..n], cap), events[n], id)
  }

  lemma HappenedStep(how: (System, Event, nat) -> bool, init: seq<Event>, e: Event, cap: nat, id: nat)
    ensures Happened(how, init + [e], cap, id) <==> Happened(how, init, cap, id) || how(Run(init, cap), e, id)
  {
    var all := init + [e];
    assert all[..|init|] == init && all[|init|] == e;
    assert forall n | 0 <= n < |init| :: all[..n] == init[..n] && all[n] == init[n];
  }

  lemma NothingHappened(cap: nat, id: nat)
    ensures !Happened(LeavesBehind, [], cap, id) && !Happened(Strands, [], cap, id)
  {
  }

  lemma LeftBehindStep(s: System, e: Event, cap: nat, id: nat)
    ensures var t := if Enabled(s, e) then Next(s, e, cap) else s;
            && (Count(t.leaked, id) > 0 <==> Count(s.leaked, id) > 0 || LeavesBehind(s, e, id))
            && (Count(t.stranded, id) > 0 <==> Count(s.stranded, id) > 0 || Strands(s, e, id))
  {
    hide Count, LeastRecent, Alive, Swept, Without, Touch;
    if Enabled(s, e) && e.SweepDone? {
      CountConcat(s.leaked, s.sweeps[e.sweep].rest, id);
      CountConcat(s.stranded, [s.sweeps[e.sweep].current], id);
      CountOne(s.sweeps[e.sweep].current, id);
      assert s.stranded + [] == s.stranded;
    }
    if Enabled(s, e) && e.EvictionDone? {
      CountConcat(s.stranded, [s.eviction.current], id);
      CountOne(s.eviction.current, id);
    }
  }

  /** Over every run: a record leaks exactly if at some point a close of its sweep fails before its turn,
      and is stranded exactly if its own transport fails to close. */
  lemma {:induction false} LeftBehindIff(events: seq<Event>, cap: nat, id: nat)
    ensures Count(Run(events, cap).leaked, id) > 0 <==> Happened(LeavesBehind, events, cap, id)
    ensures Count(Run(events, cap).stranded, id) > 0 <==> Happened(Strands, events, cap, id)
  {
    hide Happened, Count, Enabled, LeavesBehind, Strands;
    if events == [] {
      CountOne(0, id);
      NothingHappened(cap, id);
    } else {
      var init, e := events[..|events| - 1], events[|events| - 1];
      assert events == init + [e];
      LeftBehindIff(init, cap, id);
      HappenedStep(LeavesBehind, init, e, cap, id);
      HappenedStep(Strands, init, e, cap, id);
      LeftBehindStep(Run(init, cap), e, cap, id);
    }
  }

  /** A close fails in a sweep that has records behind it. */
  ghost predicate Abandons(s: System, e: Event) {
    e.SweepDone? && !e.ok && Enabled(s, e) && s.sweeps[e.sweep].rest != []
  }

  /** So anything leaks exactly if at some point that happens; a failing close of the last record of a
      sweep leaks nothing. */
  lemma {:induction false} LeaksIff(events: seq<Event>, cap: nat)
    ensures Run(events, cap).leaked != [] <==> exists n :: 0 <= n < |events| && Abandons(Run(events[..n], cap), events[n])
  {
    hide Run, Count;
    var leaked := Run(events, cap).leaked;
    if leaked != [] {
      CountIn(leaked, 0, 0);
      LeftBehindIff(events, cap, leaked[0]);
      var n :| 0 <= n < |events| && LeavesBehind(Run(events[..n], cap), events[n], leaked[0]);
      CountOne(0, leaked[0]);
      assert Abandons(Run(events[..n], cap), events[n]);
    }
    forall n | 0 <= n < |events| && Abandons(Run(events[..n], cap), events[n]) ensures leaked != [] {
      var rest := Run(events[..n], cap).sweeps[events[n].sweep].rest;
      CountIn(rest, 0, 0);
      assert LeavesBehind(Run(events[..n], cap), events[n], rest[0]);
      LeftBehindIff(events, cap, rest[0]);
      CountOne(0, rest[0]);
    }
  }

  /** A failing close leaks exactly the records behind it in its sweep: each is out of the map, and its
      transport was not closed. */
  lemma {:induction false} FailureLeaks(s: System, k: nat, cap: nat, id: nat)
    requires Inv(s, cap) && Enabled(s, SweepDone(k, false)) && Count(s.sweeps[k].rest, id) > 0
    ensures var t := Next(s, SweepDone(k, false), cap);
            t.leaked == s.leaked + s.sweeps[k].rest && Count(t.leaked, id) == 1
            && Count(t.transports, id) == 0 && Held(t.sessions, id) == 0
  {
    hide Count, Waiting, Held;
    assert InvAt(s, id);
    NextKeepsAt(s, SweepDone(k, false), cap, id);
    CountConcat(s.leaked, s.sweeps[k].rest, id);
  }

  /** It happens: two idle sessions, and the transport of the first does not close. */
  lemma SweepCanLeak()
    ensures exists events :: Run(events, 2).leaked == [1] && Run(events, 2).stranded == [0]
  {
    var a := Extend([], Request(0));
    var b := Extend(a, Request(0));
    var c := Extend(b, Admit);
    assert Run(c, 2).sessions == [Session(0, 0)] && Run(c, 2).queue == [Session(1, 0)];
    var d := Extend(c, Admit);
    var s := Run(d, 2);
    assert s.sessions == [Session(0, 0), Session(1, 0)];
    BothExpired(s.sessions);
    var e := Extend(d, Sweep(9, 1));
    assert Run(e, 2).sweeps == [Task(ClosingTransport, 0, [1])];
    var f := Extend(e, SweepDone(0, false));
    assert Run(f, 2).leaked == [1];
  }

  lemma BothExpired(ss: seq<Session>)
    requires ss == [Session(0, 0), Session(1, 0)]
    ensures Swept(ss, 9, 1) == [0, 1]
  {
    assert ss[..1] == [Session(0, 0)] && [Session(0, 0)][..0] == [];
    assert Swept([Session(0, 0)], 9, 1) == [] + [0];
  }

  lemma Extend(events: seq<Event>, e: Event) returns (more: seq<Event>)
    requires Enabled(Run(events, 2), e)
    ensures Run(more, 2) == Next(Run(events, 2), e, 2)
  {
    more := events + [e];
    assert more[..|events|] == events;
  }

  /** And for good: no later event closes it. */
  lemma {:induction false} LeakedStays(s: System, e: Event, cap: nat, id: nat)
    requires Inv(s, cap) && Enabled(s, e) && Count(s.leaked, id) == 1
    ensures var t := Next(s, e, cap); Count(t.leaked, id) == 1 && Count(t.transports, id) == 0
  {
    hide Count, Waiting, Held, LeastRecent, Alive, Swept, Without, Touch;
    assert InvAt(s, id);
    NextKeepsAt(s, e, cap, id);
    if e.SweepDone? && !e.ok {
      CountConcat(s.leaked, s.sweeps[e.sweep].rest, id);
    }
  }

  lemma {:induction false} NothingWaiting(tasks: seq<Task>, id: nat)
    requires forall i | 0 <= i < |tasks| :: tasks[i] == IDLE
    ensures Waiting(tasks, id) == 0 && OpeningAll(tasks, id) == 0
  {
    hide Count;
    if tasks != [] {
      NothingWaiting(tasks[..|tasks| - 1], id);
      CountOne(0, id);
    }
  }

  /** When every eviction and sweep has run its course, a record taken out had its transport and its
      server asked to close, unless it is stranded, its transport alone asked, or leaked, neither. */
  lemma {:induction false} AllClosedBut(events: seq<Event>, cap: nat, id: nat)
    requires cap > 0 && Run(events, cap).eviction.stage == Finished && forall t | t in Run(events, cap).sweeps :: t == IDLE
    ensures var s := Run(events, cap);
            && Count(s.detached, id) == Count(s.transports, id) + Count(s.leaked, id)
            && Count(s.transports, id) == Count(s.servers, id) + Count(s.stranded, id)
  {
    hide Run, Count, Waiting, OpeningAll, Held;
    Reachable(events, cap);
    assert InvAt(Run(events, cap), id);
    var tasks := Run(events, cap).sweeps;
    assert forall i | 0 <= i < |tasks| :: tasks[i] in tasks;
    NothingWaiting(tasks, id);
  }

  // ----- The code -----

  class SessionTable {
    const maxSessions: nat
    var sessions: seq<Session>

    constructor (maxSessions: nat)
      ensures this.maxSessions == maxSessions && sessions == []
    {
      this.maxSessions := maxSessions;
      sessions := [];
    }

    /** `detachLeastRecentIfAtCap`; a search that finds nothing detaches nothing. */
    method DetachLeastRecentIfAtCap() returns (found: bool, victim: Session)
      modifies this`sessions
      ensures found == (|old(sessions)| >= maxSessions && old(sessions) != [])
      ensures !found ==> sessions == old(sessions)
      ensures found ==>
                var i := LeastRecent(old(sessions));
                victim == old(sessions)[i] && sessions == Remove(old(sessions), i)
    {
      found, victim := false, Session(0, 0);
      if |sessions| < maxSessions || |sessions| == 0 {
        return;
      }
      var oldest, oldestMs, i := 0, sessions[0].last, 1;
      assert sessions[..1] == [sessions[0]];
      while i < |sessions|
        invariant 1 <= i <= |sessions| && oldest == LeastRecent(sessions[..i]) && oldestMs == sessions[oldest].last
      {
        assert sessions[..i + 1][..i] == sessions[..i];
        if sessions[i].last < oldestMs {
          oldest, oldestMs := i, sessions[i].last;
        }
        i := i + 1;
      }
      assert sessions[..i] == sessions;
      found, victim := true, sessions[oldest];
      sessions := sessions[..oldest] + sessions[oldest + 1..];
    }

    /** The part of an admission before its await. */
    method Admit(session: Session) returns (evicted: bool, victim: Session)
      modifies this`sessions
      ensures forall s: System | s.sessions == old(sessions) && s.queue != [] && s.queue[0] == session && s.eviction.stage == Finished ::
                var t := Next(s, Event.Admit, maxSessions);
                t.sessions == sessions && t.detached == s.detached + if evicted then [victim.id] else []
    {
      evicted, victim := DetachLeastRecentIfAtCap();
      sessions := sessions + [session];
    }

    /** `touchSession` */
    method TouchSession(id: nat, now: int)
      modifies this`sessions
      ensures sessions == Touch(old(sessions), id, now)
    {
      sessions := seq(|sessions|, i requires 0 <= i < |sessions| reads this => if sessions[i].id == id then sessions[i].(last := now) else sessions[i]);
    }

    /** `sweepIdleSessions` up to its first await. */
    method TakeExpired(now: int, idle: int) returns (expired: seq<nat>)
      modifies this`sessions
      ensures expired == Swept(old(sessions), now, idle) && sessions == Alive(old(sessions), now, idle)
    {
      var all, kept, i := sessions, [], 0;
      expired := [];
      while i < |all|
        invariant 0 <= i <= |all| && expired == Swept(all[..i], now, idle) && kept == Alive(all[..i], now, idle)
      {
        assert all[..i + 1][..i] == all[..i];
        if now - all[i].last > idle {
          expired := expired + [all[i].id];
        } else {
          kept := kept + [all[i]];
        }
        i := i + 1;
      }
      assert all[..i] == all;
      sessions := kept;
    }
  }
}
