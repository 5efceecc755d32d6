/** The PID lock of `scripts/dispatch-worker/instance-lock.ts` over any run of starts, deaths and
    releases, each acquire and release taken as one step; and the reader of its death log. */
module InstanceLock {
  import opened Outcomes

  /** The lock file. `nth` numbers the acquisitions; the file itself holds the pid and a start time. */
  datatype Lock = Missing | Unreadable | Held(pid: int, nth: nat)

  /** A worker process: its pid may be reused once it is dead. `mine` is the number of its last
      acquisition, while it has one that is not released. */
  datatype Process = Process(pid: int, alive: bool, mine: Option<nat>)

  /** What became of an acquisition whose record left the lock file. */
  datatype Fate = Journaled | Released | RenewedByItsPid

  /** `others`: pids of live processes that are no workers. `fates` logs what happened to each record
      that was overwritten or removed. */
  datatype System = System(lock: Lock, workers: map<nat, Process>, others: set<int>, next: nat, fates: seq<(nat, Fate)>)

  datatype Event =
    | Spawn(w: nat, pid: int)
    | SpawnOther(pid: int)
    | Die(w: nat)
    | DieOther(pid: int)
    | Acquire(w: nat)
    | Release(w: nat)

  predicate Alive(s: System, pid: int) {
    pid > 0 && (pid in s.others || exists w :: w in s.workers && s.workers[w].pid == pid && s.workers[w].alive)
  }

  /** `acquireInstanceLock` throws: another live process has the pid in the lock. */
  predicate Blocked(s: System, pid: int) {
    s.lock.Held? && s.lock.pid != pid && Alive(s, s.lock.pid)
  }

  predicate Enabled(s: System, e: Event) {
    match e
    case Spawn(w, pid) => w !in s.workers && pid > 0 && !Alive(s, pid)
    case SpawnOther(pid) => pid > 0 && !Alive(s, pid)
    case Die(w) => w in s.workers && s.workers[w].alive
    case DieOther(pid) => pid in s.others
    case Acquire(w) => w in s.workers && s.workers[w].alive
    case Release(w) => w in s.workers && s.workers[w].alive && s.workers[w].mine.Some?
  }

  function Update(s: System, w: nat, p: Process): System {
    s.(workers := s.workers[w := p])
  }

  function Next(s: System, e: Event): System
    requires Enabled(s, e)
  {
    match e
    case Spawn(w, pid) => Update(s, w, Process(pid, true, None))
    case SpawnOther(pid) => s.(others := s.others + {pid})
    case Die(w) => Update(s, w, s.workers[w].(alive := false))
    case DieOther(pid) => s.(others := s.others - {pid})
    case Acquire(w) =>
      var p := s.workers[w];
      if Blocked(s, p.pid) then s
      else
        Update(s, w, p.(mine := Some(s.next)))
        .(lock := Held(p.pid, s.next), next := s.next + 1,
          fates := s.fates + if !s.lock.Held? then [] else [(s.lock.nth, if s.lock.pid == p.pid then RenewedByItsPid else Journaled)])
    case Release(w) =>
      var p := s.workers[w];
      var t := Update(s, w, p.(mine := None));
      if s.lock.Held? && s.lock.pid == p.pid then t.(lock := Missing, fates := s.fates + [(s.lock.nth, Released)]) else t
  }

  function Run(start: Lock, events: seq<Event>): System {
    if events == [] then System(start, map[], {}, 1, [])
    else
      var s, e := Run(start, events[..|events| - 1]), events[|events| - 1];
      if Enabled(s, e) then Next(s, e) else s
  }

  // ----- What every step keeps -----

  /** No two live processes share a pid. */
  ghost predicate PidsDistinct(s: System) {
    && (forall w | w in s.workers && s.workers[w].alive :: s.workers[w].pid > 0 && s.workers[w].pid !in s.others)
    && (forall v, w | v in s.workers && w in s.workers && s.workers[v].alive && s.workers[w].alive && s.workers[v].pid == s.workers[w].pid :: v == w)
  }

  /** A live worker that acquired and did not release has its own record in the lock. */
  ghost predicate HoldersHold(s: System) {
    forall w | w in s.workers && s.workers[w].alive && s.workers[w].mine.Some? :: s.lock == Held(s.workers[w].pid, s.workers[w].mine.value)
  }

  /** Every acquisition is in the lock or met one fate, in order. */
  ghost predicate Accounted(s: System, start: Lock) {
    && (s.lock.Held? ==> s.lock.nth < s.next)
    && (forall i | 0 <= i < |s.fates| :: s.fates[i].0 < s.next && (s.lock.Held? ==> s.fates[i].0 < s.lock.nth))
    && (forall i, j | 0 <= i < j < |s.fates| :: s.fates[i].0 < s.fates[j].0)
    && |s.fates| + (if s.lock.Held? then 1 else 0) == s.next - 1 + if start.Held? then 1 else 0
  }

  ghost predicate Inv(s: System, start: Lock) {
    PidsDistinct(s) && HoldersHold(s) && Accounted(s, start)
  }

  lemma AcquireKeeps(s: System, w: nat, start: Lock)
    requires Inv(s, start) && Enabled(s, Acquire(w))
    ensures Inv(Next(s, Acquire(w)), start)
  {
    var t, p := Next(s, Acquire(w)), s.workers[w];
    if !Blocked(s, p.pid) {
      assert forall v | v in s.workers && v != w && s.workers[v].alive && s.workers[v].mine.Some? :: Alive(s, s.workers[v].pid);
    }
  }

  lemma SpawnKeeps(s: System, e: Event, start: Lock)
    requires Inv(s, start) && Enabled(s, e) && (e.Spawn? || e.SpawnOther?)
    ensures Inv(Next(s, e), start)
  {
    hide Accounted;
    assert Accounted(Next(s, e), start) by { SameLock(s, Next(s, e), start); }
    assert forall v | v in s.workers && s.workers[v].alive :: s.workers[v].pid != e.pid;
  }

  lemma SameLock(s: System, t: System, start: Lock)
    requires Accounted(s, start) && t.lock == s.lock && t.next == s.next && t.fates == s.fates
    ensures Accounted(t, start)
  {
  }

  lemma DieKeeps(s: System, e: Event, start: Lock)
    requires Inv(s, start) && Enabled(s, e) && (e.Die? || e.DieOther?)
    ensures Inv(Next(s, e), start)
  {
    hide Accounted;
    assert Accounted(Next(s, e), start) by { SameLock(s, Next(s, e), start); }
  }

  lemma ReleaseKeeps(s: System, w: nat, start: Lock)
    requires Inv(s, start) && Enabled(s, Release(w))
    ensures Inv(Next(s, Release(w)), start)
  {
  }

  lemma NextKeeps(s: System, e: Event, start: Lock)
    requires Inv(s, start) && Enabled(s, e)
    ensures Inv(Next(s, e), start)
  {
    hide Inv, Next, Enabled;
    if e.Acquire? {
      AcquireKeeps(s, e.w, start);
    } else if e.Release? {
      ReleaseKeeps(s, e.w, start);
    } else if e.Spawn? || e.SpawnOther? {
      SpawnKeeps(s, e, start);
    } else {
      DieKeeps(s, e, start);
    }
  }

  lemma {:induction false} Reachable(start: Lock, events: seq<Event>)
    requires start.Held? ==> start.nth == 0
    ensures Inv(Run(start, events), start)
  {
    hide Inv, Next;
    if events == [] {
      StartHolds(start);
    } else {
      var s, e := Run(start, events[..|events| - 1]), events[|events| - 1];
      Reachable(start, events[..|events| - 1]);
      if Enabled(s, e) {
        NextKeeps(s, e, start);
      }
    }
  }

  lemma StartHolds(start: Lock)
    requires start.Held? ==> start.nth == 0
    ensures Inv(System(start, map[], {}, 1, []), start)
  {
  }

  /** At most one live worker holds, its record is in the lock, and no step of another process, whatever
      it is, changes the lock. */
  lemma {:induction false} HolderIsSafe(start: Lock, events: seq<Event>, w: nat, e: Event)
    requires start.Held? ==> start.nth == 0
    requires var s := Run(start, events); w in s.workers && s.workers[w].alive && s.workers[w].mine.Some?
    requires Enabled(Run(start, events), e) && ((e.Acquire? || e.Release?) ==> e.w != w)
    ensures var s := Run(start, events);
            && s.lock == Held(s.workers[w].pid, s.workers[w].mine.value)
            && (forall v | v in s.workers && s.workers[v].alive && s.workers[v].mine.Some? :: v == w)
            && Next(s, e).lock == s.lock
  {
    hide Run;
    Reachable(start, events);
    var s := Run(start, events);
    assert Alive(s, s.workers[w].pid);
  }

  /** Each acquisition's record leaves the lock once: journaled by a worker with another pid, replaced by
      one with its own, or removed by a release. None is lost without a trace. */
  lemma {:induction false} EveryRecordIsAccounted(start: Lock, events: seq<Event>)
    requires start.Held? ==> start.nth == 0
    ensures Accounted(Run(start, events), start)
  {
    hide Run;
    Reachable(start, events);
  }

  // How a record can leave the lock.

  /** A worker with another pid takes over the record while no live process has its pid. */
  ghost predicate TakesOver(s: System, e: Event, nth: nat) {
    && e.Acquire? && Enabled(s, e) && s.lock.Held? && s.lock.nth == nth
    && s.workers[e.w].pid != s.lock.pid && !Alive(s, s.lock.pid)
  }

  /** A worker with the record's own pid replaces it. */
  ghost predicate Renews(s: System, e: Event, nth: nat) {
    e.Acquire? && Enabled(s, e) && s.lock.Held? && s.lock.nth == nth && s.workers[e.w].pid == s.lock.pid
  }

  /** A worker with the record's pid releases. */
  ghost predicate Removes(s: System, e: Event, nth: nat) {
    e.Release? && Enabled(s, e) && s.lock.Held? && s.lock.nth == nth && s.workers[e.w].pid == s.lock.pid
  }

  ghost predicate Happened(how: (System, Event, nat) -> bool, start: Lock, events: seq<Event>, nth: nat) {
    exists m :: 0 <= m < |events| && how(Run(start, events[..m]), events[m], nth)
  }

  lemma HappenedStep(how: (System, Event, nat) -> bool, start: Lock, init: seq<Event>, e: Event, nth: nat)
    ensures Happened(how, start, init + [e], nth) <==> Happened(how, start, init, nth) || how(Run(start, init), e, nth)
  {
    var all := init + [e];
    assert all[..|init|] == init && all[|init|] == e;
    assert forall m | 0 <= m < |init| :: all[..m] == init[..m] && all[m] == init[m];
  }

  /** Over every run: the death log has exactly the records that a worker with another pid replaced while
      their own pid was dead; the others left by a worker with their own pid, or by a release. */
  lemma {:induction false} FatesMean(start: Lock, events: seq<Event>, nth: nat)
    ensures var fates := Run(start, events).fates;
            && ((nth, Journaled) in fates <==> Happened(TakesOver, start, events, nth))
            && ((nth, RenewedByItsPid) in fates <==> Happened(Renews, start, events, nth))
            && ((nth, Released) in fates <==> Happened(Removes, start, events, nth))
  {
    hide Happened, Enabled;
    if events == [] {
      NothingHappened(start, nth);
    } else {
      var init, e := events[..|events| - 1], events[|events| - 1];
      assert events == init + [e];
      FatesMean(start, init, nth);
      HappenedStep(TakesOver, start, init, e, nth);
      HappenedStep(Renews, start, init, e, nth);
      HappenedStep(Removes, start, init, e, nth);
      FateStep(Run(start, init), e, nth);
    }
  }

  lemma NothingHappened(start: Lock, nth: nat)
    ensures !Happened(TakesOver, start, [], nth) && !Happened(Renews, start, [], nth) && !Happened(Removes, start, [], nth)
  {
  }

  lemma FateStep(s: System, e: Event, nth: nat)
    ensures var t := if Enabled(s, e) then Next(s, e) else s;
            && ((nth, Journaled) in t.fates <==> (nth, Journaled) in s.fates || TakesOver(s, e, nth))
            && ((nth, RenewedByItsPid) in t.fates <==> (nth, RenewedByItsPid) in s.fates || Renews(s, e, nth))
            && ((nth, Released) in t.fates <==> (nth, Released) in s.fates || Removes(s, e, nth))
  {
    hide Alive;
  }

  /** So a death goes unrecorded when the next worker is given the dead one's pid. */
  lemma SamePidLeavesNoLine()
    ensures exists events ::
              var s := Run(Missing, events);
              && 1 in s.workers && !s.workers[1].alive && 2 in s.workers && s.workers[2].mine == Some(2)
              && s.fates == [(1, RenewedByItsPid)]
  {
    var a := Extend([], Spawn(1, 10));
    var b := Extend(a, Acquire(1));
    var c := Extend(b, Die(1));
    var d := Extend(c, Spawn(2, 10));
    var e := Extend(d, Acquire(2));
    assert Run(Missing, e) == System(Held(10, 2), map[1 := Process(10, false, Some(1)), 2 := Process(10, true, Some(2))], {}, 3,
                                     [(1, RenewedByItsPid)]);
  }

  /** A start takes the lock, whatever is in it, unless another live process has the pid that is; and then
      nothing changes. */
  lemma AcquiresIff(s: System, w: nat)
    requires Enabled(s, Acquire(w))
    ensures var t, pid := Next(s, Acquire(w)), s.workers[w].pid;
            if s.lock.Held? && s.lock.pid != pid && s.lock.pid > 0
               && (s.lock.pid in s.others || exists v :: v in s.workers && s.workers[v].pid == s.lock.pid && s.workers[v].alive)
            then t == s
            else t.lock == Held(pid, s.next) && t.next == s.next + 1 && t.workers[w].mine == Some(s.next)
  {
  }

  /** A start is blocked only by a live process with the lock's pid. When the worker that wrote the lock
      is dead, that is exactly a process that was given its pid since. */
  lemma BlockedIff(s: System, start: Lock, w: nat)
    requires Inv(s, start) && Enabled(s, Acquire(w)) && s.lock.Held?
    requires forall v | v in s.workers && s.workers[v].mine == Some(s.lock.nth) :: !s.workers[v].alive
    ensures Next(s, Acquire(w)) == s
       <==> s.lock.pid > 0 && s.lock.pid != s.workers[w].pid
            && (s.lock.pid in s.others
                || exists v :: v in s.workers && s.workers[v].pid == s.lock.pid && s.workers[v].alive && s.workers[v].mine != Some(s.lock.nth))
  {
    var t := Next(s, Acquire(w));
    assert !Blocked(s, s.workers[w].pid) ==> t.next == s.next + 1;
  }

  /** So a dead worker's lock can block: its pid went to an unrelated process. */
  lemma ReusedPidBlocks()
    ensures exists events ::
              var s := Run(Missing, events);
              && 2 in s.workers && s.workers[2].alive && s.lock == Held(10, 1) && Next(s, Acquire(2)) == s
              && (forall v | v in s.workers && s.workers[v].alive :: s.workers[v].pid != 10)
  {
    var a := Extend([], Spawn(1, 10));
    var b := Extend(a, Acquire(1));
    var c := Extend(b, Die(1));
    var d := Extend(c, SpawnOther(10));
    var e := Extend(d, Spawn(2, 20));
    var s := Run(Missing, e);
    assert s == System(Held(10, 1), map[1 := Process(10, false, Some(1)), 2 := Process(20, true, None)], {10}, 2, []);
  }

  lemma Extend(events: seq<Event>, e: Event) returns (more: seq<Event>)
    requires Enabled(Run(Missing, events), e)
    ensures Run(Missing, more) == Next(Run(Missing, events), e)
  {
    more := events + [e];
    assert more[..|events|] == events;
  }

  // ----- The death log -----

  /** One line of the log, as the reader takes it apart; a time is none when it does not parse. */
  datatype Line = Blank | NoObject | Fields(pid: Option<int>, startedAt: Option<string>, reclaimedAt: Option<string>, time: Option<int>)

  datatype Entry = Entry(pid: int, startedAt: string, reclaimedAt: string)

  const MAX_AGE := 24 * 60 * 60 * 1000
  const MAX_ENTRIES := 20

  predicate Admissible(l: Line, now: Option<int>) {
    && l.Fields? && l.pid.Some? && l.startedAt.Some? && l.reclaimedAt.Some?
    && (now.Some? && l.time.Some? ==> l.time.value >= now.value - MAX_AGE)
  }

  function Entries(lines: seq<Line>, now: Option<int>): seq<Entry> {
    if lines == [] then []
    else
      var l := lines[|lines| - 1];
      Entries(lines[..|lines| - 1], now)
      + if Admissible(l, now) then [Entry(l.pid.value, l.startedAt.value, l.reclaimedAt.value)] else []
  }

  /** A line is evidence exactly if its three fields are there and it is not known to be older than a day. */
  lemma {:induction false} EntriesAre(a: seq<Line>, l: Line, b: seq<Line>, now: Option<int>)
    ensures var aged := l.Fields? && now.Some? && l.time.Some? && now.value - l.time.value > 86_400_000;
            (Entries(a + [l] + b, now)
             == Entries(a, now)
                + (if l.Fields? && l.pid.Some? && l.startedAt.Some? && l.reclaimedAt.Some? && !aged
                   then [Entry(l.pid.value, l.startedAt.value, l.reclaimedAt.value)] else [])
                + Entries(b, now))
  {
    var t := a + [l] + b;
    if b == [] {
      assert t[..|t| - 1] == a;
    } else {
      EntriesAre(a, l, b[..|b| - 1], now);
      assert t[..|t| - 1] == a + [l] + b[..|b| - 1];
    }
  }

  /** `readRestartEvidence`: the last twenty admissible entries, oldest first. */
  method ReadRestartEvidence(lines: seq<Line>, now: Option<int>) returns (r: seq<Entry>)
    ensures var all := Entries(lines, now); r == all[if |all| > 20 then |all| - 20 else 0..]
  {
    var cutoff := if now.Some? then Some(now.value - MAX_AGE) else None;
    var entries, i := [], 0;
    while i < |lines|
      invariant 0 <= i <= |lines| && entries == Entries(lines[..i], now)
    {
      var l := lines[i];
      assert lines[..i + 1][..i] == lines[..i];
      i := i + 1;
      if l.Blank? || l.NoObject? {
        continue;
      }
      if l.pid.None? || l.startedAt.None? || l.reclaimedAt.None? {
        continue;
      }
      if cutoff.Some? && l.time.Some? && l.time.value < cutoff.value {
        continue;
      }
      entries := entries + [Entry(l.pid.value, l.startedAt.value, l.reclaimedAt.value)];
    }
    assert lines[..i] == lines;
    r := if |entries| > MAX_ENTRIES then entries[|entries| - MAX_ENTRIES..] else entries;
  }

  // ----- The code -----

  /** What a call writes, in order: a line of the death log, or the lock file. */
  datatype Write = DeathLine(nth: nat) | Overwrite(nth: nat)

  class LockFile {
    var lock: Lock
    var next: nat
    var writes: seq<Write>

    constructor ()
      ensures lock == Missing && next == 1 && writes == []
    {
      lock, next, writes := Missing, 1, [];
    }

    /** `acquireInstanceLock` by worker `w` of the system `s`; `holderAlive` is what `isAlive` answers for
        the pid in the lock. The death line is written before the lock is overwritten, and the two are
        the system's step. */
    method AcquireLock(pid: int, holderAlive: bool, ghost s: System, ghost w: nat) returns (ok: bool)
      requires s.lock == lock && s.next == next && Enabled(s, Acquire(w)) && s.workers[w].pid == pid
      requires lock.Held? ==> (holderAlive <==> Alive(s, lock.pid))
      modifies this
      ensures var t := Next(s, Acquire(w));
              && lock == t.lock && next == t.next && ok == (t != s)
      ensures writes == old(writes) + if !ok then []
                                      else (if TakesOver(s, Acquire(w), if old(lock).Held? then old(lock).nth else 0)
                                            then [DeathLine(old(lock).nth)] else []) + [Overwrite(old(next))]
    {
      if lock.Held? && lock.pid != pid && holderAlive {
        return false;
      }
      if lock.Held? && lock.pid != pid && !holderAlive {
        writes := writes + [DeathLine(lock.nth)];
      }
      writes := writes + [Overwrite(next)];
      lock, next := Held(pid, next), next + 1;
      ok := true;
    }

    /** `release` of one acquisition, likewise; a second call does nothing. */
    method ReleaseLock(pid: int, released: bool, ghost s: System, ghost w: nat) returns (done: bool)
      requires s.lock == lock && Enabled(s, Release(w)) && s.workers[w].pid == pid
      modifies this`lock
      ensures done && lock == if released then old(lock) else Next(s, Release(w)).lock
    {
      done := true;
      if released {
        return;
      }
      if lock.Held? && lock.pid == pid {
        lock := Missing;
      }
    }
  }
}
