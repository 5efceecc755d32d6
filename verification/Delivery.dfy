/** The crash-recoverable delivery of one operator card on one channel:
    `packages/overseer/src/escalation-delivery.ts` over the store of
    `packages/core/src/db/overseer-briefing.ts`. Any number of runs overlap, leases may be judged
    expired at any moment, and a run may die between any two awaits. */
module Delivery {
  import Outcomes

  datatype Outcome = Succeeded | TransientFailure | PermanentFailure | Indeterminate

  datatype JobState = Pending | Leased | JobSucceeded | Exhausted | JobIndeterminate

  datatype Owner = NoOwner | Owner(name: string)

  datatype Job = Job(state: JobState, attempts: nat, owner: Owner, fence: nat)

  datatype Phase = Started | Terminal(outcome: Outcome)

  datatype Receipt = Receipt(attempt: nat, phase: Phase, fence: nat)

  /** The job's row and its receipts. */
  datatype Db = Db(job: Job, receipts: seq<Receipt>)

  datatype Stored = Ok(db: Db) | Refused

  // ----- The store's transactions -----

  predicate Claimable(job: Job) {
    (job.state == Pending && job.attempts < 3) || job.state == Leased
  }

  /** `claimDueDeliveryJob`: a pending job starts its next attempt, an expired one keeps its attempt. */
  function Claim(db: Db, owner: string): Db {
    var job := db.job;
    var next := if job.state == Pending then job.attempts + 1 else job.attempts;
    db.(job := Job(Leased, next, Owner(owner), job.fence + 1))
  }

  predicate SamePhase(p: Phase, q: Phase) { p.Started? <==> q.Started? }

  predicate Has(receipts: seq<Receipt>, attempt: nat, p: Phase) {
    exists r :: r in receipts && r.attempt == attempt && SamePhase(r.phase, p)
  }

  predicate HoldsLease(job: Job, owner: string, fence: nat) {
    job.state == Leased && job.owner == Owner(owner) && job.fence == fence
  }

  /** `appendDeliveryReceipt`: refused on a stale fence, or when the unique index has the phase already. */
  function Append(db: Db, owner: string, attempt: nat, phase: Phase, fence: nat): Stored {
    if !HoldsLease(db.job, owner, fence) || db.job.attempts != attempt then Refused
    else if Has(db.receipts, attempt, phase) then Refused
    else Ok(db.(receipts := db.receipts + [Receipt(attempt, phase, fence)]))
  }

  /** The state a completed attempt leaves the job in. */
  function StateAfter(outcome: Outcome, attempts: nat): JobState {
    match outcome
    case Succeeded => JobSucceeded
    case Indeterminate => JobIndeterminate
    case PermanentFailure => Exhausted
    case TransientFailure => if attempts >= 3 then Exhausted else Pending
  }

  /** `completeDeliveryJob` */
  function Complete(db: Db, owner: string, fence: nat, outcome: Outcome): Stored {
    if !HoldsLease(db.job, owner, fence) then Refused
    else Ok(db.(job := db.job.(state := StateAfter(outcome, db.job.attempts), owner := NoOwner)))
  }

  /** The three transactions field by field. A claim takes a pending job with attempts left to its next
      attempt, and an expired one to the same again, under a new token; a receipt goes in exactly for the
      holder of the lease, for its own attempt, once per phase; a completion takes the holder's lease away. */
  lemma TransactionsMean(db: Db, owner: string, attempt: nat, phase: Phase, fence: nat, outcome: Outcome)
    ensures Claimable(db.job) <==> (db.job.state == Pending && db.job.attempts <= 2) || db.job.state == Leased
    ensures var t := Claim(db, owner);
            && t.receipts == db.receipts && t.job.state == Leased && t.job.owner == Owner(owner) && t.job.fence == db.job.fence + 1
            && t.job.attempts == db.job.attempts + if db.job.state == Pending then 1 else 0
    ensures var held := db.job.state == Leased && db.job.owner == Owner(owner) && db.job.fence == fence;
            var there := exists i :: 0 <= i < |db.receipts| && db.receipts[i].attempt == attempt
                                     && (db.receipts[i].phase.Started? <==> phase.Started?);
            Append(db, owner, attempt, phase, fence)
            == if held && db.job.attempts == attempt && !there
               then Ok(Db(db.job, db.receipts + [Receipt(attempt, phase, fence)])) else Refused
    ensures var held := db.job.state == Leased && db.job.owner == Owner(owner) && db.job.fence == fence;
            match Complete(db, owner, fence, outcome)
            case Refused => !held
            case Ok(t) =>
              held && t.receipts == db.receipts && t.job.owner == NoOwner && t.job.attempts == db.job.attempts && t.job.fence == fence
              && t.job.state == match outcome
                                case Succeeded => JobSucceeded
                                case Indeterminate => JobIndeterminate
                                case PermanentFailure => Exhausted
                                case TransientFailure => if db.job.attempts <= 2 then Pending else Exhausted
  {
    if Has(db.receipts, attempt, phase) {
      var r :| r in db.receipts && r.attempt == attempt && SamePhase(r.phase, phase);
      var i :| 0 <= i < |db.receipts| && db.receipts[i] == r;
    }
    assert forall i | 0 <= i < |db.receipts| :: db.receipts[i] in db.receipts;
  }

  // ----- The runs -----

  /** Where a run stands, between two awaits. */
  datatype Point =
    | Claimed
    | Starting
    | Delivering
    | Reconciling
    | Closing(outcome: Outcome)
    | Completing(outcome: Outcome)

  /** One run of one claim. The claim's fencing token identifies it. */
  datatype Run = Run(owner: string, attempt: nat, at: Point)

  /** What a channel answers: an outcome, a result outside the four outcomes, or an exception. */
  datatype Reply = Answered(outcome: Outcome) | Invalid | Threw

  /** `normalizeResult` and the catch block. */
  function Normalize(reply: Reply): Outcome {
    if reply.Answered? then reply.outcome else Indeterminate
  }

  datatype Call = Call(attempt: nat, fence: nat)

  datatype Completion = Completion(attempt: nat, outcome: Outcome)

  /** The store, the live runs by fencing token, and two logs: the calls of `channel.deliver` and the
      completions. */
  datatype System = System(db: Db, runs: map<nat, Run>, delivered: seq<Call>, completed: seq<Completion>)

  datatype Event =
    | ClaimDue(owner: string)
    | Read(fence: nat)
    | Retire(fence: nat)
    | AppendStarted(fence: nat)
    | Deliver(fence: nat, reply: Reply)
    | Reconcile(fence: nat, reply: Reply)
    | AppendTerminal(fence: nat)
    | CompleteJob(fence: nat)
    | Crash(fence: nat)

  /** The terminal receipt of an attempt, as `card.receipts.find` meets it. */
  function TerminalOf(receipts: seq<Receipt>, attempt: nat): (o: Outcome)
    requires exists r :: r in receipts && r.attempt == attempt && r.phase.Terminal?
    ensures exists r :: r in receipts && r.attempt == attempt && r.phase == Terminal(o)
  {
    if receipts[0].attempt == attempt && receipts[0].phase.Terminal? then receipts[0].phase.outcome
    else TerminalOf(receipts[1..], attempt)
  }

  /** Where `deliverOperatorCard` goes once it has read the receipts. */
  function Decide(receipts: seq<Receipt>, attempt: nat): Point {
    if exists r :: r in receipts && r.attempt == attempt && r.phase.Terminal?
    then Completing(TerminalOf(receipts, attempt))
    else if Has(receipts, attempt, Started) then Reconciling
    else Starting
  }

  function Goto(s: System, fence: nat, at: Point): System
    requires fence in s.runs
  {
    s.(runs := s.runs[fence := s.runs[fence].(at := at)])
  }

  function Stop(s: System, fence: nat): System {
    s.(runs := s.runs - {fence})
  }

  /** A run whose store call was refused ends with an exception; otherwise it goes on. */
  function After(s: System, fence: nat, stored: Stored, at: Point): System
    requires fence in s.runs
  {
    match stored
    case Refused => Stop(s, fence)
    case Ok(db) => Goto(s.(db := db), fence, at)
  }

  predicate Enabled(s: System, e: Event) {
    if e.ClaimDue? then Claimable(s.db.job)
    else
      e.fence in s.runs &&
      var at := s.runs[e.fence].at;
      match e
      case Read(_) => at.Claimed?
      case Retire(_) => at.Claimed?
      case AppendStarted(_) => at.Starting?
      case Deliver(_, _) => at.Delivering?
      case Reconcile(_, _) => at.Reconciling?
      case AppendTerminal(_) => at.Closing?
      case CompleteJob(_) => at.Completing?
      case _ => true
  }

  function Next(s: System, e: Event): System
    requires Enabled(s, e)
  {
    match e
    case ClaimDue(owner) =>
      var db := Claim(s.db, owner);
      s.(db := db, runs := s.runs[db.job.fence := Run(owner, db.job.attempts, Claimed)])
    case Read(f) => Goto(s, f, Decide(s.db.receipts, s.runs[f].attempt))
    case Retire(f) =>
      var r := s.runs[f];
      After(s, f, Append(s.db, r.owner, r.attempt, Terminal(PermanentFailure), f), Completing(PermanentFailure))
    case AppendStarted(f) =>
      var r := s.runs[f];
      After(s, f, Append(s.db, r.owner, r.attempt, Started, f), Delivering)
    case Deliver(f, reply) =>
      Goto(s, f, Closing(Normalize(reply))).(delivered := s.delivered + [Call(s.runs[f].attempt, f)])
    case Reconcile(f, reply) => Goto(s, f, Closing(Normalize(reply)))
    case AppendTerminal(f) =>
      var r := s.runs[f];
      After(s, f, Append(s.db, r.owner, r.attempt, Terminal(r.at.outcome), f), Completing(r.at.outcome))
    case CompleteJob(f) =>
      var r := s.runs[f];
      (match Complete(s.db, r.owner, f, r.at.outcome)
       case Refused => Stop(s, f)
       case Ok(db) =>
         Stop(s, f).(db := db, completed := s.completed + [Completion(r.attempt, r.at.outcome)]))
    case Crash(f) => Stop(s, f)
  }

  const INITIAL := System(Db(Job(Pending, 0, NoOwner, 0), []), map[], [], [])

  /** An event that is not enabled does not happen. */
  function Happen(s: System, e: Event): System {
    if Enabled(s, e) then Next(s, e) else s
  }

  /** The state that a sequence of events leads to. */
  function From(s: System, events: seq<Event>): System {
    if events == [] then s else Happen(From(s, events[..|events| - 1]), events[|events| - 1])
  }

  // ----- What every step keeps -----

  ghost predicate ReceiptsOnce(s: System) {
    && (forall r | r in s.db.receipts :: 1 <= r.attempt <= s.db.job.attempts && r.fence <= s.db.job.fence)
    && (forall i, j | 0 <= i < j < |s.db.receipts| ::
          s.db.receipts[i].attempt == s.db.receipts[j].attempt ==>
            !SamePhase(s.db.receipts[i].phase, s.db.receipts[j].phase))
  }

  ghost predicate RunsFenced(s: System) {
    forall f | f in s.runs ::
      && f <= s.db.job.fence
      && s.runs[f].attempt <= s.db.job.attempts
      && (f == s.db.job.fence ==> s.runs[f].attempt == s.db.job.attempts)
  }

  ghost predicate HasTerminal(s: System, attempt: nat, outcome: Outcome) {
    exists r :: r in s.db.receipts && r.attempt == attempt && r.phase == Terminal(outcome)
  }

  /** A run past its started receipt owns it; one past its terminal receipt carries its outcome. */
  ghost predicate RunsBacked(s: System) {
    forall f | f in s.runs ::
      && (s.runs[f].at.Delivering? ==> Receipt(s.runs[f].attempt, Started, f) in s.db.receipts)
      && (s.runs[f].at.Completing? ==> HasTerminal(s, s.runs[f].attempt, s.runs[f].at.outcome))
  }

  /** Each call of `deliver` was made by the run that wrote the started receipt, once. */
  ghost predicate CallsBacked(s: System) {
    && (forall c | c in s.delivered :: Receipt(c.attempt, Started, c.fence) in s.db.receipts)
    && (forall c | c in s.delivered && c.fence in s.runs :: s.runs[c.fence].at.Closing? || s.runs[c.fence].at.Completing?)
    && (forall i, j | 0 <= i < j < |s.delivered| :: s.delivered[i].fence != s.delivered[j].fence)
  }

  ghost predicate CompletionsBacked(s: System) {
    && (forall c | c in s.completed :: 1 <= c.attempt <= s.db.job.attempts && HasTerminal(s, c.attempt, c.outcome))
    && (forall i, j | 0 <= i < j < |s.completed| :: s.completed[i].attempt < s.completed[j].attempt)
    && (s.db.job.state == Leased ==> forall c | c in s.completed :: c.attempt < s.db.job.attempts)
  }

  /** The job's state is the one its last completion left, and every earlier attempt failed transiently. */
  ghost predicate JobFollows(s: System) {
    var job := s.db.job;
    && job.attempts <= 3
    && (job.state == Leased ==> 1 <= job.attempts)
    && (job.state != Leased ==>
          if s.completed == [] then job.state == Pending && job.attempts == 0
          else var c := s.completed[|s.completed| - 1];
               c.attempt == job.attempts && job.state == StateAfter(c.outcome, job.attempts))
    && (forall k | 1 <= k < job.attempts :: Completion(k, TransientFailure) in s.completed)
  }

  ghost predicate Inv(s: System) {
    ReceiptsOnce(s) && RunsFenced(s) && RunsBacked(s) && CallsBacked(s) && CompletionsBacked(s) && JobFollows(s)
  }

  lemma ClaimKeeps(s: System, owner: string)
    requires Inv(s) && Claimable(s.db.job)
    ensures Inv(Next(s, ClaimDue(owner)))
  {
    var t := Next(s, ClaimDue(owner));
    assert t.db.receipts == s.db.receipts;
    assert forall a, o | HasTerminal(s, a, o) :: HasTerminal(t, a, o);
    assert forall f | f in s.runs :: f in t.runs && t.runs[f] == s.runs[f];
    ClaimFollows(s, owner);
  }

  lemma ClaimFollows(s: System, owner: string)
    requires Inv(s) && Claimable(s.db.job)
    ensures JobFollows(Next(s, ClaimDue(owner)))
  {
    hide HasTerminal, Has;
    var t := Next(s, ClaimDue(owner));
    forall k | 1 <= k < t.db.job.attempts ensures Completion(k, TransientFailure) in t.completed {
      if k == s.db.job.attempts {
        var c := s.completed[|s.completed| - 1];
        assert c == Completion(k, TransientFailure);
      }
    }
  }

  lemma StopKeeps(s: System, f: nat)
    requires Inv(s)
    ensures Inv(Stop(s, f))
  {
    var t := Stop(s, f);
    assert forall a, o | HasTerminal(s, a, o) :: HasTerminal(t, a, o);
  }

  /** A run moves to a point it has the receipts for. */
  lemma GotoKeeps(s: System, f: nat, at: Point)
    requires Inv(s) && f in s.runs
    requires at.Completing? ==> HasTerminal(s, s.runs[f].attempt, at.outcome)
    requires at.Delivering? ==> Receipt(s.runs[f].attempt, Started, f) in s.db.receipts
    requires (exists c :: c in s.delivered && c.fence == f) ==> at.Closing? || at.Completing?
    ensures Inv(Goto(s, f, at))
  {
    var t := Goto(s, f, at);
    assert forall a, o | HasTerminal(s, a, o) :: HasTerminal(t, a, o);
  }

  lemma AppendKeeps(s: System, f: nat, phase: Phase, at: Point)
    requires Inv(s) && f in s.runs
    requires at == if phase.Started? then Delivering else Completing(phase.outcome)
    requires phase.Started? ==> s.runs[f].at.Starting?
    ensures var r := s.runs[f]; Inv(After(s, f, Append(s.db, r.owner, r.attempt, phase, f), at))
  {
    hide Inv;
    var r := s.runs[f];
    var stored := Append(s.db, r.owner, r.attempt, phase, f);
    match stored
    case Refused => StopKeeps(s, f);
    case Ok(db) =>
      AppendedKeeps(s, f, phase);
      var t := s.(db := db);
      assert db.receipts[|s.db.receipts|] == Receipt(r.attempt, phase, f);
      assert Receipt(r.attempt, phase, f) in t.db.receipts;
      assert phase.Terminal? ==> HasTerminal(t, r.attempt, phase.outcome);
      assert Inv(s) ==> CallsBacked(s) by { InvParts(s); }
      GotoKeeps(t, f, at);
  }

  lemma InvParts(s: System)
    ensures Inv(s) ==> CallsBacked(s)
  {
  }

  lemma AppendedKeeps(s: System, f: nat, phase: Phase)
    requires Inv(s) && f in s.runs
    requires Append(s.db, s.runs[f].owner, s.runs[f].attempt, phase, f).Ok?
    ensures Inv(s.(db := Append(s.db, s.runs[f].owner, s.runs[f].attempt, phase, f).db))
  {
    var r := s.runs[f];
    var t := s.(db := Append(s.db, r.owner, r.attempt, phase, f).db);
    assert t.db.receipts == s.db.receipts + [Receipt(r.attempt, phase, f)];
    assert forall x | x in s.db.receipts :: x in t.db.receipts;
    assert forall a, o | HasTerminal(s, a, o) :: HasTerminal(t, a, o);
    forall i | 0 <= i < |s.db.receipts| && s.db.receipts[i].attempt == r.attempt
      ensures !SamePhase(s.db.receipts[i].phase, phase)
    {
      assert s.db.receipts[i] in s.db.receipts;
    }
  }

  lemma DeliverKeeps(s: System, f: nat, reply: Reply)
    requires Inv(s) && Enabled(s, Deliver(f, reply))
    ensures Inv(Next(s, Deliver(f, reply)))
  {
    GotoKeeps(s, f, Closing(Normalize(reply)));
    LogCall(Goto(s, f, Closing(Normalize(reply))), Call(s.runs[f].attempt, f));
  }

  lemma LogCall(s: System, c: Call)
    requires Inv(s) && Receipt(c.attempt, Started, c.fence) in s.db.receipts
    requires (forall x | x in s.delivered :: x.fence != c.fence) && (c.fence in s.runs ==> s.runs[c.fence].at.Closing?)
    ensures Inv(s.(delivered := s.delivered + [c]))
  {
    var t := s.(delivered := s.delivered + [c]);
    assert ReceiptsOnce(t) && RunsFenced(t) && JobFollows(t);
    assert forall a, o | HasTerminal(s, a, o) :: HasTerminal(t, a, o);
    assert CallsBacked(t) by {
      hide ReceiptsOnce, RunsFenced, RunsBacked, CompletionsBacked, JobFollows;
      assert forall i | 0 <= i < |s.delivered| :: s.delivered[i] in s.delivered;
    }
  }

  lemma CompleteKeeps(s: System, f: nat)
    requires Inv(s) && Enabled(s, CompleteJob(f))
    ensures Inv(Next(s, CompleteJob(f)))
  {
    hide Inv;
    var r := s.runs[f];
    StopKeeps(s, f);
    if HoldsLease(s.db.job, r.owner, f) {
      assert s.db.job.attempts == r.attempt && HasTerminal(s, r.attempt, r.at.outcome) by { CompletingFacts(s, f); }
      LogCompletion(Stop(s, f), r.owner, f, r.at.outcome);
    }
  }

  lemma CompletingFacts(s: System, f: nat)
    requires Inv(s) && Enabled(s, CompleteJob(f))
    ensures var r := s.runs[f];
            HasTerminal(s, r.attempt, r.at.outcome) && (f == s.db.job.fence ==> r.attempt == s.db.job.attempts)
  {
  }

  lemma LogCompletion(s: System, owner: string, f: nat, outcome: Outcome)
    requires Inv(s) && f !in s.runs && HoldsLease(s.db.job, owner, f) && HasTerminal(s, s.db.job.attempts, outcome)
    ensures Inv(s.(db := Complete(s.db, owner, f, outcome).db,
                   completed := s.completed + [Completion(s.db.job.attempts, outcome)]))
  {
    var c := Completion(s.db.job.attempts, outcome);
    var t := s.(db := Complete(s.db, owner, f, outcome).db, completed := s.completed + [c]);
    assert t.db.receipts == s.db.receipts;
    assert forall a, o | HasTerminal(s, a, o) :: HasTerminal(t, a, o);
    assert ReceiptsOnce(t) && RunsFenced(t) && RunsBacked(t) && CallsBacked(t);
    assert CompletionsBacked(t) by {
      hide ReceiptsOnce, RunsFenced, RunsBacked, CallsBacked;
      assert forall i | 0 <= i < |s.completed| :: s.completed[i] in s.completed;
    }
    assert t.completed[|t.completed| - 1] == c;
  }

  lemma {:induction false} NextKeeps(s: System, e: Event)
    requires Inv(s) && Enabled(s, e)
    ensures Inv(Next(s, e))
  {
    match e
    case ClaimDue(owner) => ClaimKeeps(s, owner);
    case Read(f) => ReadKeeps(s, f);
    case Retire(f) => AppendKeeps(s, f, Terminal(PermanentFailure), Completing(PermanentFailure));
    case AppendStarted(f) => AppendKeeps(s, f, Started, Delivering);
    case Deliver(f, reply) => DeliverKeeps(s, f, reply);
    case Reconcile(f, reply) => GotoKeeps(s, f, Closing(Normalize(reply)));
    case AppendTerminal(f) => AppendKeeps(s, f, Terminal(s.runs[f].at.outcome), Completing(s.runs[f].at.outcome));
    case CompleteJob(f) => CompleteKeeps(s, f);
    case Crash(f) => StopKeeps(s, f);
  }

  lemma ReadKeeps(s: System, f: nat)
    requires Inv(s) && Enabled(s, Read(f))
    ensures Inv(Next(s, Read(f)))
  {
    var at := Decide(s.db.receipts, s.runs[f].attempt);
    GotoKeeps(s, f, at);
  }

  lemma {:induction false} FromKeeps(s: System, events: seq<Event>)
    requires Inv(s)
    ensures Inv(From(s, events))
  {
    hide Inv, Next;
    if events != [] {
      FromKeeps(s, events[..|events| - 1]);
      var t, e := From(s, events[..|events| - 1]), events[|events| - 1];
      if Enabled(t, e) {
        NextKeeps(t, e);
      }
    }
  }

  lemma InitialHolds()
    ensures Inv(INITIAL)
  {
  }

  /** The invariant of every schedule of claims, overlapping runs, lost leases and crashes. */
  lemma {:induction false} Reachable(events: seq<Event>)
    ensures Inv(From(INITIAL, events))
  {
    hide Inv, From;
    InitialHolds();
    FromKeeps(INITIAL, events);
  }

  // ----- Safety -----

  lemma DistinctCount(attempts: seq<nat>)
    requires forall i, j | 0 <= i < j < |attempts| :: attempts[i] != attempts[j]
    ensures |set i | 0 <= i < |attempts| :: attempts[i]| == |attempts|
  {
    var all := set i | 0 <= i < |attempts| :: attempts[i];
    if attempts != [] {
      var n := |attempts| - 1;
      var init := set i | 0 <= i < n :: attempts[..n][i];
      DistinctCount(attempts[..n]);
      assert all == init + {attempts[n]};
    }
  }

  lemma SubsetSize(a: set<nat>, b: set<nat>)
    requires a <= b
    ensures |a| <= |b|
  {
    assert b == a + (b - a);
  }

  lemma AtMostThree(attempts: seq<nat>)
    requires forall i | 0 <= i < |attempts| :: 1 <= attempts[i] <= 3
    requires forall i, j | 0 <= i < j < |attempts| :: attempts[i] != attempts[j]
    ensures |attempts| <= 3
  {
    DistinctCount(attempts);
    SubsetSize(set i | 0 <= i < |attempts| :: attempts[i], {1, 2, 3});
  }

  function Attempts(calls: seq<Call>): (r: seq<nat>)
    ensures |r| == |calls| && forall i | 0 <= i < |calls| :: r[i] == calls[i].attempt
  {
    seq(|calls|, i requires 0 <= i < |calls| => calls[i].attempt)
  }

  lemma StartedOnce(s: System, c: Call, d: Call)
    requires Inv(s) && c in s.delivered && d in s.delivered && c.attempt == d.attempt
    ensures c.fence == d.fence
  {
    var rs := s.db.receipts;
    var i :| 0 <= i < |rs| && rs[i] == Receipt(c.attempt, Started, c.fence);
    var j :| 0 <= j < |rs| && rs[j] == Receipt(d.attempt, Started, d.fence);
  }

  /** On every schedule, `deliver` is called at most once per attempt, at most three times in all, and
      never again after an attempt that did not fail transiently. */
  lemma {:induction false} DeliversOnce(events: seq<Event>)
    ensures var s := From(INITIAL, events);
            && (forall i, j | 0 <= i < j < |s.delivered| :: s.delivered[i].attempt != s.delivered[j].attempt)
            && |s.delivered| <= 3
            && (forall c, k | c in s.delivered && 1 <= k < c.attempt :: Completion(k, TransientFailure) in s.completed)
  {
    hide From;
    Reachable(events);
    var s := From(INITIAL, events);
    forall i, j | 0 <= i < j < |s.delivered| ensures s.delivered[i].attempt != s.delivered[j].attempt {
      if s.delivered[i].attempt == s.delivered[j].attempt {
        StartedOnce(s, s.delivered[i], s.delivered[j]);
      }
    }
    forall i | 0 <= i < |s.delivered| ensures 1 <= s.delivered[i].attempt <= s.db.job.attempts {
      assert s.delivered[i] in s.delivered;
    }
    AtMostThree(Attempts(s.delivered));
  }

  /** Each attempt has at most one started and one terminal receipt and is completed at most once, with
      the outcome of its terminal receipt; the job's state is what its last completion says. */
  lemma {:induction false} CompletesWithItsReceipt(events: seq<Event>)
    ensures var s := From(INITIAL, events); var rs := s.db.receipts;
            && (forall i, j | 0 <= i < j < |rs| && rs[i].attempt == rs[j].attempt :: !SamePhase(rs[i].phase, rs[j].phase))
            && (forall i, j | 0 <= i < j < |s.completed| :: s.completed[i].attempt < s.completed[j].attempt)
            && (forall c | c in s.completed ::
                  && (exists r :: r in rs && r.attempt == c.attempt && r.phase.Terminal?)
                  && (forall r | r in rs && r.attempt == c.attempt && r.phase.Terminal? :: r.phase.outcome == c.outcome))
            && (s.db.job.state != Leased && s.completed != [] ==>
                  var c := s.completed[|s.completed| - 1];
                  && c.attempt == s.db.job.attempts
                  && match c.outcome
                     case Succeeded => s.db.job.state == JobSucceeded
                     case Indeterminate => s.db.job.state == JobIndeterminate
                     case PermanentFailure => s.db.job.state == Exhausted
                     case TransientFailure => s.db.job.state == if c.attempt < 3 then Pending else Exhausted)
  {
    hide From;
    Reachable(events);
    var s := From(INITIAL, events);
    var rs := s.db.receipts;
    forall c | c in s.completed
      ensures exists r :: r in rs && r.attempt == c.attempt && r.phase.Terminal?
      ensures forall r | r in rs && r.attempt == c.attempt && r.phase.Terminal? :: r.phase.outcome == c.outcome
    {
      var x :| x in rs && x.attempt == c.attempt && x.phase == Terminal(c.outcome);
      var i :| 0 <= i < |rs| && rs[i] == x;
      forall r | r in rs && r.attempt == c.attempt && r.phase.Terminal? ensures r.phase.outcome == c.outcome {
        var j :| 0 <= j < |rs| && rs[j] == r;
        assert i == j;
      }
    }
  }

  /** A due job is claimed until it has ended, so a transient failure is retried until the third attempt. */
  lemma {:induction false} ClaimedUntilEnded(events: seq<Event>, owner: string)
    ensures var job := From(INITIAL, events).db.job;
            && (Enabled(From(INITIAL, events), ClaimDue(owner)) <==> job.state == Pending || job.state == Leased)
            && (job.state == Pending ==> job.attempts < 3)
  {
    hide From;
    Reachable(events);
  }

  /** The event gives the attempt its outcome: the channel asked for it answered just that, or, for an
      indeterminate one, threw or answered something else; or the channel is retired. */
  ghost predicate Gives(s: System, e: Event, attempt: nat, outcome: Outcome) {
    && Enabled(s, e) && !e.ClaimDue? && s.runs[e.fence].attempt == attempt
    && if e.Deliver? || e.Reconcile? then
         match outcome
         case Indeterminate => e.reply == Answered(Indeterminate) || e.reply == Invalid || e.reply == Threw
         case _ => e.reply == Answered(outcome)
       else e.Retire? && outcome == PermanentFailure
  }

  ghost predicate Given(events: seq<Event>, attempt: nat, outcome: Outcome) {
    exists n :: 0 <= n < |events| && Gives(From(INITIAL, events[..n]), events[n], attempt, outcome)
  }

  lemma GivenStep(init: seq<Event>, e: Event, attempt: nat, outcome: Outcome)
    requires Given(init, attempt, outcome) || Gives(From(INITIAL, init), e, attempt, outcome)
    ensures Given(init + [e], attempt, outcome)
  {
    hide Gives, From;
    var all := init + [e];
    assert all[..|init|] == init && all[|init|] == e;
    assert forall n | 0 <= n < |init| :: all[..n] == init[..n] && all[n] == init[n];
  }

  ghost predicate AllGiven(s: System, given: (nat, Outcome) -> bool) {
    && (forall r | r in s.db.receipts && r.phase.Terminal? :: given(r.attempt, r.phase.outcome))
    && (forall f | f in s.runs && s.runs[f].at.Closing? :: given(s.runs[f].attempt, s.runs[f].at.outcome))
  }

  lemma GivenKept(s: System, e: Event, before: (nat, Outcome) -> bool, after: (nat, Outcome) -> bool)
    requires Enabled(s, e) && AllGiven(s, before)
    requires forall a: nat, o :: before(a, o) || Gives(s, e, a, o) ==> after(a, o)
    ensures AllGiven(Next(s, e), after)
  {
    hide Has, HoldsLease, TerminalOf, StateAfter;
    if e.Deliver? || e.Reconcile? {
      assert Gives(s, e, s.runs[e.fence].attempt, if e.reply.Answered? then e.reply.outcome else Indeterminate);
    }
    if e.Retire? {
      assert Gives(s, e, s.runs[e.fence].attempt, PermanentFailure);
    }
  }

  lemma {:induction false} AllAreGiven(events: seq<Event>)
    ensures AllGiven(From(INITIAL, events), (a: nat, o: Outcome) => Given(events, a, o))
  {
    hide Next, Enabled, Given, Gives;
    if events != [] {
      var init, e := events[..|events| - 1], events[|events| - 1];
      assert events == init + [e];
      AllAreGiven(init);
      var s := From(INITIAL, init);
      forall a: nat, o | Given(init, a, o) || Gives(s, e, a, o) ensures Given(events, a, o) {
        GivenStep(init, e, a, o);
      }
      if Enabled(s, e) {
        GivenKept(s, e, (a: nat, o: Outcome) => Given(init, a, o), (a: nat, o: Outcome) => Given(events, a, o));
      }
    }
  }

  /** On every schedule, an attempt is recorded or completed as succeeded only if the channel said so when
      it was asked for that attempt; and likewise, in its own way, with every other outcome. */
  lemma {:induction false} OutcomesAreAnswers(events: seq<Event>, attempt: nat, outcome: Outcome)
    requires var s := From(INITIAL, events);
             HasTerminal(s, attempt, outcome) || Completion(attempt, outcome) in s.completed
    ensures Given(events, attempt, outcome)
  {
    hide From, Given;
    Reachable(events);
    AllAreGiven(events);
  }

  // ----- Recovery -----

  /** `deliverOperatorCard` without an interruption. */
  function Uninterrupted(s: System, f: nat, delivered: Reply, reconciled: Reply): System
    requires Enabled(s, Read(f))
  {
    var u := Next(s, Read(f));
    match u.runs[f].at
    case Completing(_) => Happen(u, CompleteJob(f))
    case Reconciling => Happen(Happen(Happen(u, Reconcile(f, reconciled)), AppendTerminal(f)), CompleteJob(f))
    case _ =>
      Happen(Happen(Happen(Happen(u, AppendStarted(f)), Deliver(f, delivered)), AppendTerminal(f)), CompleteJob(f))
  }

  predicate Holding(s: System, f: nat) {
    f in s.runs && HoldsLease(s.db.job, s.runs[f].owner, f) && s.db.job.attempts == s.runs[f].attempt
  }

  /** While the run holds the lease, an append succeeds exactly when the phase is missing. */
  lemma AppendWhileHolding(s: System, f: nat, phase: Phase, at: Point)
    requires Holding(s, f) && !Has(s.db.receipts, s.runs[f].attempt, phase)
    ensures var r := s.runs[f]; var t := After(s, f, Append(s.db, r.owner, r.attempt, phase, f), at);
            && Holding(t, f) && t.runs[f] == r.(at := at)
            && t.db == s.db.(receipts := s.db.receipts + [Receipt(r.attempt, phase, f)])
            && t.delivered == s.delivered && t.completed == s.completed
  {
  }

  ghost predicate HasStarted(s: System, attempt: nat) {
    exists r :: r in s.db.receipts && r.attempt == attempt && r.phase.Started?
  }

  ghost predicate HasEnded(s: System, attempt: nat) {
    exists r :: r in s.db.receipts && r.attempt == attempt && r.phase.Terminal?
  }

  /** From reading the receipts, a run that keeps its lease completes the job. An attempt that has a
      terminal receipt gets its outcome. Otherwise one that was started is reconciled and one that was
      not is delivered, and gets the answer, or `Indeterminate` if the channel threw or answered none of
      the four; and that is then its terminal receipt. */
  lemma {:induction false} FinishesWhileHolding(s: System, f: nat, delivered: Reply, reconciled: Reply)
    requires Enabled(s, Read(f)) && Holding(s, f)
    ensures var a := s.runs[f].attempt; var t := Uninterrupted(s, f, delivered, reconciled);
            && t.db.job.state != Leased && |t.completed| == |s.completed| + 1
            && t.completed[|s.completed|].attempt == a
            && HasTerminal(t, a, t.completed[|s.completed|].outcome)
            && t.delivered == if HasStarted(s, a) || HasEnded(s, a) then s.delivered else s.delivered + [Call(a, f)]
    ensures var a := s.runs[f].attempt; var t := Uninterrupted(s, f, delivered, reconciled);
            var outcome := t.completed[|s.completed|].outcome;
            if HasEnded(s, a) then HasTerminal(s, a, outcome)
            else match if HasStarted(s, a) then reconciled else delivered
                 case Answered(Succeeded) => outcome == Succeeded
                 case Answered(TransientFailure) => outcome == TransientFailure
                 case Answered(PermanentFailure) => outcome == PermanentFailure
                 case Answered(Indeterminate) => outcome == Indeterminate
                 case Invalid => outcome == Indeterminate
                 case Threw => outcome == Indeterminate
  {
    hide After, Append, TerminalOf, Complete;
    var a := s.runs[f].attempt;
    var u := Next(s, Read(f));
    TerminalSeen(s.db.receipts, a);
    assert Has(s.db.receipts, a, Started) <==> HasStarted(s, a);
    hide Has;
    if u.runs[f].at.Completing? {
      CompleteWhileHolding(u, f);
    } else if u.runs[f].at.Reconciling? {
      CloseWhileHolding(Next(u, Reconcile(f, reconciled)), f);
    } else {
      AppendWhileHolding(u, f, Started, Delivering);
      var v := Next(u, AppendStarted(f));
      StartedIsNoTerminal(u.db.receipts, a, f);
      CloseWhileHolding(Next(v, Deliver(f, delivered)), f);
    }
  }

  lemma TerminalSeen(receipts: seq<Receipt>, a: nat)
    ensures forall o :: Has(receipts, a, Terminal(o)) <==> exists r :: r in receipts && r.attempt == a && r.phase.Terminal?
  {
    forall o ensures Has(receipts, a, Terminal(o)) <==> exists r :: r in receipts && r.attempt == a && r.phase.Terminal? {
      if Has(receipts, a, Terminal(o)) {
        var r :| r in receipts && r.attempt == a && SamePhase(r.phase, Terminal(o));
        assert r.phase.Terminal?;
      }
    }
  }

  lemma StartedIsNoTerminal(receipts: seq<Receipt>, a: nat, f: nat)
    ensures forall o :: Has(receipts + [Receipt(a, Started, f)], a, Terminal(o)) <==> Has(receipts, a, Terminal(o))
  {
  }

  lemma CompleteWhileHolding(s: System, f: nat)
    requires Enabled(s, CompleteJob(f)) && Holding(s, f)
    ensures var o := s.runs[f].at.outcome; var t := Next(s, CompleteJob(f));
            && t.db == s.db.(job := s.db.job.(state := StateAfter(o, s.db.job.attempts), owner := NoOwner))
            && t.completed == s.completed + [Completion(s.runs[f].attempt, o)] && t.delivered == s.delivered
  {
  }

  lemma CloseWhileHolding(s: System, f: nat)
    requires Enabled(s, AppendTerminal(f)) && Holding(s, f)
    requires !Has(s.db.receipts, s.runs[f].attempt, Terminal(s.runs[f].at.outcome))
    ensures var o, a := s.runs[f].at.outcome, s.runs[f].attempt;
            var t := Happen(Happen(s, AppendTerminal(f)), CompleteJob(f));
            && t.db.job.state == StateAfter(o, a) && t.delivered == s.delivered
            && t.completed == s.completed + [Completion(a, o)] && HasTerminal(t, a, o)
  {
    hide Has, After, Append;
    var r := s.runs[f];
    AppendWhileHolding(s, f, Terminal(r.at.outcome), Completing(r.at.outcome));
    var t := Next(s, AppendTerminal(f));
    CompleteWhileHolding(t, f);
    assert t.db.receipts[|s.db.receipts|] == Receipt(r.attempt, Terminal(r.at.outcome), f);
  }

  /** Whatever state runs and crashes left behind, one uninterrupted run after the next claim of an
      active channel's job completes the claimed attempt. */
  lemma {:induction false} NextClaimRecovers(s: System, owner: string, delivered: Reply, reconciled: Reply)
    requires Claimable(s.db.job)
    ensures var c := Next(s, ClaimDue(owner)); var f := c.db.job.fence;
            && Enabled(c, Read(f))
            && var t := Uninterrupted(c, f, delivered, reconciled);
               t.db.job.state != Leased && t.completed != [] && t.completed[|t.completed| - 1].attempt == c.db.job.attempts
  {
    hide Uninterrupted;
    var c := Next(s, ClaimDue(owner));
    FinishesWhileHolding(c, c.db.job.fence, delivered, reconciled);
  }

  // ----- A retired channel -----

  /** The attempt already has its terminal receipt, the job is still leased, and no run is about to
      complete it. */
  ghost predicate Stuck(s: System) {
    && s.db.job.state == Leased
    && Has(s.db.receipts, s.db.job.attempts, Terminal(PermanentFailure))
    && (s.db.job.fence in s.runs ==> !s.runs[s.db.job.fence].at.Completing?)
  }

  /** Retiring a channel never reads the receipts. So once the attempt has a terminal receipt, every
      append is refused and the job stays leased for ever. */
  lemma {:induction false} StuckForever(s: System, events: seq<Event>)
    requires Inv(s) && Stuck(s) && forall e | e in events :: !e.Read?
    ensures Stuck(From(s, events))
  {
    hide Inv, Next, Stuck;
    if events != [] {
      var e := events[|events| - 1];
      StuckForever(s, events[..|events| - 1]);
      FromKeeps(s, events[..|events| - 1]);
      StuckStep(From(s, events[..|events| - 1]), e);
    }
  }

  lemma StuckStep(s: System, e: Event)
    requires Inv(s) && Stuck(s) && !e.Read?
    ensures Stuck(Happen(s, e))
  {
    hide ReceiptsOnce, RunsBacked, CallsBacked, CompletionsBacked, JobFollows;
    assert forall o :: Has(s.db.receipts, s.db.job.attempts, Terminal(o)) by {
      TerminalSeen(s.db.receipts, s.db.job.attempts);
    }
    hide Has;
    if Enabled(s, e) && e.AppendStarted? {
      HasGrows(s.db.receipts, Receipt(s.runs[e.fence].attempt, Started, e.fence), s.db.job.attempts);
    }
  }

  lemma HasGrows(receipts: seq<Receipt>, r: Receipt, a: nat)
    ensures Has(receipts, a, Terminal(PermanentFailure)) ==> Has(receipts + [r], a, Terminal(PermanentFailure))
  {
    if Has(receipts, a, Terminal(PermanentFailure)) {
      var x :| x in receipts && x.attempt == a && SamePhase(x.phase, Terminal(PermanentFailure));
      assert x in receipts + [r];
    }
  }

  /** It happens: the process dies between the two calls of `retireInactiveOperatorCardChannel`. */
  lemma RetirementCanGetStuck()
    ensures Stuck(From(INITIAL, [ClaimDue("a"), Retire(1), Crash(1)]))
  {
    var one, two := [ClaimDue("a")], [ClaimDue("a"), Retire(1)];
    var three := [ClaimDue("a"), Retire(1), Crash(1)];
    assert one[..0] == [] && two[..1] == one && three[..2] == two;
    assert From(INITIAL, one).db == Db(Job(Leased, 1, Owner("a"), 1), []);
    assert From(INITIAL, two).db.receipts == [Receipt(1, Terminal(PermanentFailure), 1)];
    assert From(INITIAL, three).db == From(INITIAL, two).db;
    assert Receipt(1, Terminal(PermanentFailure), 1) in From(INITIAL, three).db.receipts;
  }

  /** Exactly then: a fresh claim of an inactive channel's job retires it if and only if its attempt has
      no terminal receipt. */
  lemma RetiresIff(s: System, owner: string)
    requires Claimable(s.db.job)
    ensures var c := Next(s, ClaimDue(owner)); var f := c.db.job.fence;
            var t := Happen(Happen(c, Retire(f)), CompleteJob(f));
            t.db.job.state == Exhausted <==> !Has(s.db.receipts, c.db.job.attempts, Terminal(PermanentFailure))
  {
    hide Has;
  }

  // ----- The code -----

  class DeliveryStore {
    var job: Job
    var receipts: seq<Receipt>

    function Contents(): Db
      reads this
    {
      Db(job, receipts)
    }

    constructor ()
      ensures Contents() == INITIAL.db
    {
      job, receipts := Job(Pending, 0, NoOwner, 0), [];
    }

    /** `due`: the row's `next_attempt_at` or `lease_expires_at` has passed. */
    method ClaimDueDeliveryJob(owner: string, due: bool) returns (claimed: bool)
      modifies this
      ensures claimed == (due && Claimable(old(job)))
      ensures Contents() == if claimed then Claim(old(Contents()), owner) else old(Contents())
    {
      claimed := due && ((job.state == Pending && job.attempts < 3) || job.state == Leased);
      if claimed {
        var nextAttempt := if job.state == Pending then job.attempts + 1 else job.attempts;
        job := job.(state := Leased, attempts := nextAttempt, owner := Owner(owner), fence := job.fence + 1);
      }
    }

    method AppendDeliveryReceipt(owner: string, attempt: nat, phase: Phase, fence: nat) returns (ok: bool)
      modifies this`receipts
      ensures var r := Append(old(Contents()), owner, attempt, phase, fence);
              ok == r.Ok? && Contents() == if ok then r.db else old(Contents())
    {
      if job.state != Leased || job.owner != Owner(owner) || job.fence != fence || job.attempts != attempt {
        return false;
      }
      var unique := !exists r :: r in receipts && r.attempt == attempt && SamePhase(r.phase, phase);
      if unique {
        receipts := receipts + [Receipt(attempt, phase, fence)];
      }
      ok := unique;
    }

    method CompleteDeliveryJob(owner: string, fence: nat, outcome: Outcome) returns (ok: bool)
      modifies this`job
      ensures var r := Complete(old(Contents()), owner, fence, outcome);
              ok == r.Ok? && Contents() == if ok then r.db else old(Contents())
    {
      if job.state != Leased || job.owner != Owner(owner) || job.fence != fence {
        return false;
      }
      var state;
      if outcome == Succeeded {
        state := JobSucceeded;
      } else if outcome == Indeterminate {
        state := JobIndeterminate;
      } else if outcome == PermanentFailure || job.attempts >= 3 {
        state := Exhausted;
      } else {
        state := Pending;
      }
      job := job.(state := state, owner := NoOwner);
      ok := true;
    }
  }

  /** The end of `deliverOperatorCard`: the terminal receipt, then the job. */
  method CloseAttempt(store: DeliveryStore, owner: string, attempt: nat, fence: nat, outcome: Outcome, ghost s: System)
    returns (ok: bool)
    requires s.db == store.Contents() && fence in s.runs && s.runs[fence] == Run(owner, attempt, Closing(outcome))
    modifies store
    ensures var t := Happen(Happen(s, AppendTerminal(fence)), CompleteJob(fence));
            && store.Contents() == t.db && t.delivered == s.delivered && |t.completed| >= |s.completed|
            && ok == (|t.completed| > |s.completed|)
  {
    hide Has, Append, HoldsLease, TerminalOf, StateAfter;
    ok := store.AppendDeliveryReceipt(owner, attempt, Terminal(outcome), fence);
    ghost var u := Happen(s, AppendTerminal(fence));
    assert store.Contents() == u.db;
    if ok {
      ok := store.CompleteDeliveryJob(owner, fence, outcome);
    }
  }

  /** `deliverOperatorCard` for the claim with token `fence`, when nothing else touches the store during
      it: the protocol's own events, in a row. `called` tells whether it called `deliver`; not `ok` is an
      exception. */
  method DeliverOperatorCard(store: DeliveryStore, owner: string, attempt: nat, fence: nat,
                             delivered: Reply, reconciled: Reply, ghost s: System)
    returns (ok: bool, called: bool)
    requires s.db == store.Contents() && fence in s.runs && s.runs[fence] == Run(owner, attempt, Claimed)
    modifies store
    ensures var t := Uninterrupted(s, fence, delivered, reconciled);
            && store.Contents() == t.db
            && ok == (|t.completed| > |s.completed|)
            && called == (|t.delivered| > |s.delivered|)
  {
    hide Has, Append, Complete, TerminalOf;
    called := false;
    ghost var u := Next(s, Read(fence));
    if exists r :: r in store.receipts && r.attempt == attempt && r.phase.Terminal? {
      ok := store.CompleteDeliveryJob(owner, fence, TerminalOf(store.receipts, attempt));
      return;
    }
    var recovering := Has(store.receipts, attempt, Started);
    if !recovering {
      ok := store.AppendDeliveryReceipt(owner, attempt, Started, fence);
      u := Happen(u, AppendStarted(fence));
      if !ok {
        return;
      }
      called := true;
    }
    var reply := if recovering then reconciled else delivered;
    var outcome := if reply.Answered? then reply.outcome else Indeterminate;
    u := Happen(u, if recovering then Reconcile(fence, reply) else Deliver(fence, reply));
    ok := CloseAttempt(store, owner, attempt, fence, outcome, u);
  }

  /** `retireInactiveOperatorCardChannel` for the claim with token `fence`, likewise. */
  method RetireInactiveChannel(store: DeliveryStore, owner: string, attempt: nat, fence: nat, ghost s: System) returns (ok: bool)
    requires s.db == store.Contents() && fence in s.runs && s.runs[fence] == Run(owner, attempt, Claimed)
    modifies store
    ensures var t := Happen(Happen(s, Retire(fence)), CompleteJob(fence));
            && store.Contents() == t.db && |t.completed| == |s.completed| + (if ok then 1 else 0)
  {
    hide Has, Append, HoldsLease, StateAfter;
    ok := store.AppendDeliveryReceipt(owner, attempt, Terminal(PermanentFailure), fence);
    ghost var u := Happen(s, Retire(fence));
    assert store.Contents() == u.db;
    if ok {
      ok := store.CompleteDeliveryJob(owner, fence, PermanentFailure);
    }
  }

  /** The events of an uninterrupted `deliverOperatorCard`. */
  function Script(s: System, f: nat, delivered: Reply, reconciled: Reply): seq<Event>
    requires Enabled(s, Read(f))
  {
    match Next(s, Read(f)).runs[f].at
    case Completing(_) => [Read(f), CompleteJob(f)]
    case Reconciling => [Read(f), Reconcile(f, reconciled), AppendTerminal(f), CompleteJob(f)]
    case _ => [Read(f), AppendStarted(f), Deliver(f, delivered), AppendTerminal(f), CompleteJob(f)]
  }

  lemma FromFirst(s: System, e: Event, es: seq<Event>)
    ensures From(s, [e] + es) == From(Happen(s, e), es)
    decreases |es|
  {
    hide Happen;
    var all := [e] + es;
    if es == [] {
      assert all[..0] == [] && From(s, []) == s;
    } else {
      var n := |es| - 1;
      FromFirst(s, e, es[..n]);
      assert all[..|all| - 1] == [e] + es[..n];
    }
  }

  lemma {:induction false} FromConcat(s: System, a: seq<Event>, b: seq<Event>)
    ensures From(s, a + b) == From(From(s, a), b)
  {
    hide Happen;
    if b == [] {
      assert a + b == a;
    } else {
      FromConcat(s, a, b[..|b| - 1]);
      assert (a + b)[..|a + b| - 1] == a + b[..|b| - 1];
    }
  }

  lemma ScriptRuns(s: System, f: nat, delivered: Reply, reconciled: Reply)
    requires Enabled(s, Read(f))
    ensures From(s, Script(s, f, delivered, reconciled)) == Uninterrupted(s, f, delivered, reconciled)
  {
    hide From, Happen, Next, Enabled;
    var u := Next(s, Read(f));
    ReadHappens(s, f);
    var last := [AppendTerminal(f), CompleteJob(f)];
    if u.runs[f].at.Completing? {
      TwoEvents(s, Read(f), CompleteJob(f));
    } else if u.runs[f].at.Reconciling? {
      var tail := [Reconcile(f, reconciled)] + last;
      FromFirst(s, Read(f), tail);
      FromFirst(u, Reconcile(f, reconciled), last);
      TwoEvents(Happen(u, Reconcile(f, reconciled)), AppendTerminal(f), CompleteJob(f));
      assert Script(s, f, delivered, reconciled) == [Read(f)] + tail;
    } else {
      var mid := [Deliver(f, delivered)] + last;
      var tail := [AppendStarted(f)] + mid;
      FromFirst(s, Read(f), tail);
      FromFirst(u, AppendStarted(f), mid);
      FromFirst(Happen(u, AppendStarted(f)), Deliver(f, delivered), last);
      TwoEvents(Happen(Happen(u, AppendStarted(f)), Deliver(f, delivered)), AppendTerminal(f), CompleteJob(f));
      assert Script(s, f, delivered, reconciled) == [Read(f)] + tail;
    }
  }

  lemma ReadHappens(s: System, f: nat)
    requires Enabled(s, Read(f))
    ensures Happen(s, Read(f)) == Next(s, Read(f)) && f in Next(s, Read(f)).runs
  {
  }

  lemma TwoEvents(s: System, d: Event, e: Event)
    ensures From(s, [d, e]) == Happen(Happen(s, d), e)
  {
    hide Happen, From;
    FromFirst(s, d, [e]);
    FromFirst(Happen(s, d), e, []);
    FromNothing(Happen(Happen(s, d), e));
    assert [d, e] == [d] + [e] && [e] == [e] + [];
  }

  lemma FromNothing(s: System)
    ensures From(s, []) == s
  {
  }

  lemma ClaimedRun(t: System, owner: string)
    requires Claimable(t.db.job)
    ensures var c := Next(t, ClaimDue(owner)); var f := c.db.job.fence;
            && Happen(t, ClaimDue(owner)) == c && c.db == Claim(t.db, owner) && c.completed == t.completed
            && f in c.runs && c.runs[f] == Run(owner, c.db.job.attempts, Claimed)
  {
  }

  lemma OneCompletion(s: System, f: nat, delivered: Reply, reconciled: Reply)
    requires Enabled(s, Read(f))
    ensures var t := Uninterrupted(s, f, delivered, reconciled); |s.completed| <= |t.completed| <= |s.completed| + 1
  {
    hide Has, Append, HoldsLease, StateAfter, TerminalOf;
  }

  /** What a turn's events may be: an active channel is never retired, an inactive one neither read nor
      delivered. */
  predicate Fits(e: Event, active: bool) {
    if active then !e.Retire? else !e.Read? && !e.Deliver? && !e.Reconcile?
  }

  /** The events of one turn for a job that can be claimed. */
  function TurnEvents(s: System, owner: string, active: bool, registered: bool, delivered: Reply, reconciled: Reply): seq<Event>
    requires Claimable(s.db.job)
  {
    var c := Next(s, ClaimDue(owner));
    var f := c.db.job.fence;
    [ClaimDue(owner)]
    + if !active then [Retire(f), CompleteJob(f)] else if !registered then [] else Script(c, f, delivered, reconciled)
  }

  /** One turn of the loop for a job just claimed, with nothing else touching it. */
  method TakeTurn(store: DeliveryStore, owner: string, active: bool, registered: bool,
                  delivered: Reply, reconciled: Reply, ghost s: System)
    returns (ok: bool, ghost events: seq<Event>)
    requires Claimable(s.db.job) && store.Contents() == Claim(s.db, owner)
    modifies store
    ensures var t := From(s, events);
            store.Contents() == t.db && |t.completed| == |s.completed| + if ok then 1 else 0
    ensures events == TurnEvents(s, owner, active, registered, delivered, reconciled)
    ensures forall e | e in events :: Fits(e, active)
    ensures !registered && active ==> !ok
  {
    hide Has, Append, Complete, Decide, HoldsLease, Claim, From;
    ghost var c := Next(s, ClaimDue(owner));
    var attempt, fence := store.job.attempts, store.job.fence;
    ClaimedRun(s, owner);
    ghost var rest;
    if !active {
      ok := RetireInactiveChannel(store, owner, attempt, fence, c);
      TwoEvents(c, Retire(fence), CompleteJob(fence));
      rest := [Retire(fence), CompleteJob(fence)];
    } else if !registered {
      FromNothing(c);
      ok, rest := false, [];
    } else {
      var called;
      ok, called := DeliverOperatorCard(store, owner, attempt, fence, delivered, reconciled, c);
      ScriptRuns(c, fence, delivered, reconciled);
      OneCompletion(c, fence, delivered, reconciled);
      rest := Script(c, fence, delivered, reconciled);
    }
    FromFirst(s, ClaimDue(owner), rest);
    events := [ClaimDue(owner)] + rest;
  }

  /** A turn: the row the claim selects, if any is due, and how the channel would answer. */
  datatype Turn = Turn(selected: Outcomes.Option<nat>, delivered: Reply, reconciled: Reply)

  /** Job `j` went from `s` through the events to `db`, with as many completions as the result lists. */
  ghost predicate Went(db: Db, s: System, events: seq<Event>, active: bool, completed: seq<nat>, j: nat) {
    && db == From(s, events).db
    && |From(s, events).completed| == |s.completed| + multiset(completed)[j]
    && forall e | e in events :: Fits(e, active)
  }

  lemma NothingWent(s: System, active: bool, j: nat)
    ensures Went(s.db, s, [], active, [], j)
  {
    FromNothing(s);
  }

  lemma OthersStay(db: Db, s: System, events: seq<Event>, active: bool, completed: seq<nat>, j: nat, i: nat)
    requires i != j && Went(db, s, events, active, completed, j)
    ensures Went(db, s, events, active, completed + [i], j)
  {
  }

  lemma WentOn(db: Db, s: System, events: seq<Event>, more: seq<Event>, active: bool, completed: seq<nat>, j: nat, ok: bool)
    requires Went(From(s, events).db, s, events, active, completed, j) && forall e | e in more :: Fits(e, active)
    requires var t := From(s, events);
             db == From(t, more).db && |From(t, more).completed| == |t.completed| + if ok then 1 else 0
    ensures Went(db, s, events + more, active, if ok then completed + [j] else completed, j)
  {
    hide From, Fits;
    FromConcat(s, events, more);
  }

  lemma WentDb(db: Db, s: System, events: seq<Event>, active: bool, completed: seq<nat>, j: nat)
    requires Went(db, s, events, active, completed, j)
    ensures db == From(s, events).db
  {
  }

  lemma TurnNotEmpty(s: System, owner: string, active: bool, registered: bool, delivered: Reply, reconciled: Reply)
    requires Claimable(s.db.job)
    ensures TurnEvents(s, owner, active, registered, delivered, reconciled) != []
  {
  }

  /** `runDueOperatorCardDeliveries`, with nothing else touching the store: turn after turn a due job is
      claimed and delivered, or retired if its channel is inactive, until nothing is due, a call throws
      or the turns are used up. What happens to each job is a schedule of the protocol, and the jobs
      returned are the completions made. */
  method RunDueDeliveries(jobs: seq<DeliveryStore>, owner: string, active: nat -> bool, registered: nat -> bool,
                          turns: seq<Turn>, ghost ss: seq<System>)
    returns (ok: bool, completed: seq<nat>, ghost events: seq<seq<Event>>)
    requires forall i, j | 0 <= i < j < |jobs| :: jobs[i] != jobs[j]
    requires |ss| == |jobs| && forall j | 0 <= j < |jobs| :: jobs[j].Contents() == ss[j].db
    requires forall t | t in turns && t.selected.Some? :: t.selected.value < |jobs|
    modifies set j | 0 <= j < |jobs| :: jobs[j]
    ensures |events| == |jobs|
    ensures forall j | 0 <= j < |jobs| :: Went(jobs[j].Contents(), ss[j], events[j], active(j), completed, j)
    ensures |completed| <= |turns| && forall k | 0 <= k < |completed| :: turns[k].selected == Outcomes.Some(completed[k])
    ensures |completed| < |turns| ==>
              var selected := turns[|completed|].selected;
              && (ok ==> selected.None? || !Claimable(jobs[selected.value].job))
              && (!ok ==> selected.Some? && events[selected.value] != [])
    ensures |completed| == |turns| ==> ok
  {
    hide Claim, From, Went, Claimable, Fits, TurnEvents;
    ok, completed, events := true, [], seq(|jobs|, _ => []);
    forall j | 0 <= j < |jobs| ensures Went(jobs[j].Contents(), ss[j], events[j], active(j), completed, j) {
      NothingWent(ss[j], active(j), j);
    }
    var count := 0;
    while count < |turns|
      invariant 0 <= count <= |turns| && |events| == |jobs| && ok && |completed| == count
      invariant forall k | 0 <= k < count :: turns[k].selected == Outcomes.Some(completed[k])
      invariant forall j | 0 <= j < |jobs| :: Went(jobs[j].Contents(), ss[j], events[j], active(j), completed, j)
    {
      var turn := turns[count];
      assert turn in turns;
      if turn.selected.None? {
        return;
      }
      var i := turn.selected.value;
      ghost var s := From(ss[i], events[i]);
      assert jobs[i].Contents() == s.db by { WentDb(jobs[i].Contents(), ss[i], events[i], active(i), completed, i); }
      forall j | 0 <= j < |jobs| && j != i
        ensures Went(jobs[j].Contents(), ss[j], events[j], active(j), completed + [i], j)
      {
        OthersStay(jobs[j].Contents(), ss[j], events[j], active(j), completed, j, i);
      }
      var claimed := jobs[i].ClaimDueDeliveryJob(owner, true);
      if !claimed {
        return;
      }
      ghost var more;
      ok, more := TakeTurn(jobs[i], owner, active(i), registered(i), turn.delivered, turn.reconciled, s);
      assert more != [] by { TurnNotEmpty(s, owner, active(i), registered(i), turn.delivered, turn.reconciled); }
      WentOn(jobs[i].Contents(), ss[i], events[i], more, active(i), completed, i, ok);
      events := events[i := events[i] + more];
      if !ok {
        return;
      }
      completed := completed + [i];
      count := count + 1;
    }
  }
}
