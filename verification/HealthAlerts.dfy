/** Alert deduplication in `scripts/ci/n8n-health.js`: the signature of a failing set, and the notices
    sent over any sequence of runs that share one state file. */
module HealthAlerts {
  import opened Utf16
  import Lexical

  const NEWLINE: Unit := 0x0A

  // ----- The signature -----

  /** The text `computeSignature` hashes. */
  function SignatureText(names: seq<Text>): Text {
    Lexical.Join(Sort(names), [NEWLINE])
  }

  /** Nothing failed, or the digest of a text; different texts are taken to have different digests. */
  datatype Signature = Empty | Digest(text: Text)

  function ComputeSignature(failed: seq<Text>): Signature {
    if failed == [] then Empty else Digest(SignatureText(failed))
  }

  /** The signature depends on which names fail, not on their order. */
  lemma {:induction false} SignatureOfPermutation(a: seq<Text>, b: seq<Text>)
    requires multiset(a) == multiset(b)
    ensures ComputeSignature(a) == ComputeSignature(b)
  {
    hide LexLt, Sort;
    SortSpec(a);
    SortSpec(b);
    SortedUnique(Sort(a), Sort(b));
    assert |multiset(a)| == |a| && |multiset(b)| == |b|;
  }

  predicate NoNewline(ts: seq<Text>) {
    forall i | 0 <= i < |ts| :: NEWLINE !in ts[i]
  }

  /** Where a text first has the character: its length if nowhere. */
  function IndexOf(t: Text, c: Unit): (n: nat)
    ensures n <= |t|
  {
    if t == [] || t[0] == c then 0 else 1 + IndexOf(t[1..], c)
  }

  lemma {:induction false} IndexAfter(t: Text, rest: Text, c: Unit)
    requires c !in t
    ensures IndexOf(t + [c] + rest, c) == |t| && IndexOf(t, c) == |t|
  {
    if t == [] {
      assert [] + [c] + rest == [c] + rest;
    } else {
      assert c !in t[1..] && (t + [c] + rest)[1..] == t[1..] + [c] + rest;
      IndexAfter(t[1..], rest, c);
    }
  }

  /** Lines without newlines are determined by their joined text. */
  lemma {:induction false} JoinInjective(a: seq<Text>, b: seq<Text>)
    requires a != [] && b != [] && NoNewline(a) && NoNewline(b) && Lexical.Join(a, [NEWLINE]) == Lexical.Join(b, [NEWLINE])
    ensures a == b
  {
    var x, y := Lexical.Join(a, [NEWLINE]), Lexical.Join(b, [NEWLINE]);
    IndexAfter(a[0], Lexical.Join(a[1..], [NEWLINE]), NEWLINE);
    IndexAfter(b[0], Lexical.Join(b[1..], [NEWLINE]), NEWLINE);
    assert IndexOf(x, NEWLINE) == |a[0]| == |b[0]|;
    assert a[0] == x[..|a[0]|] && b[0] == y[..|b[0]|];
    assert |a| == 1 <==> |b| == 1;
    if |a| > 1 {
      assert x[|a[0]| + 1..] == Lexical.Join(a[1..], [NEWLINE]) && y[|b[0]| + 1..] == Lexical.Join(b[1..], [NEWLINE]);
      JoinInjective(a[1..], b[1..]);
    }
    assert a == [a[0]] + a[1..] && b == [b[0]] + b[1..];
  }

  lemma SortKeepsNoNewline(ts: seq<Text>)
    requires NoNewline(ts)
    ensures NoNewline(Sort(ts)) && |Sort(ts)| == |ts|
  {
    SortSpec(ts);
    var r := Sort(ts);
    forall i | 0 <= i < |r| ensures NEWLINE !in r[i] {
      assert r[i] in multiset(r);
    }
    assert |multiset(ts)| == |ts| && |multiset(r)| == |r|;
  }

  /** And when no name has a newline, it tells the failing multisets apart. */
  lemma {:induction false} SignatureTellsApart(a: seq<Text>, b: seq<Text>)
    requires NoNewline(a) && NoNewline(b)
    ensures ComputeSignature(a) == ComputeSignature(b) <==> multiset(a) == multiset(b)
  {
    hide LexLt, Sort;
    if multiset(a) == multiset(b) {
      SignatureOfPermutation(a, b);
    }
    if ComputeSignature(a) == ComputeSignature(b) && a != [] {
      SortKeepsNoNewline(a);
      SortKeepsNoNewline(b);
      JoinInjective(Sort(a), Sort(b));
      SortSpec(a);
      SortSpec(b);
    }
  }

  /** A name with a newline passes for two names. */
  lemma NewlineConfuses()
    ensures ComputeSignature([[0x61, NEWLINE, 0x62]]) == ComputeSignature([[0x61], [0x62]])
    ensures multiset([[0x61, NEWLINE, 0x62]]) != multiset([[0x61], [0x62]])
  {
    var a, b: seq<Text> := [[0x61, NEWLINE, 0x62]], [[0x61], [0x62]];
    assert a[1..] == [] && Sort([]) == [] && Sort(a) == a;
    assert b[1..] == [[0x62]] && b[1..][1..] == [] && Sort(b[1..]) == [[0x62]];
    assert !LexLt([0x62], [0x61]) && Sort(b) == b;
    assert Lexical.Join(b, [NEWLINE]) == [0x61] + [NEWLINE] + [0x62];
    assert |multiset(a)| == 1 && |multiset(b)| == 2;
  }

  // ----- One run -----

  datatype Decision = NewFailure | ChangedFailure | ReAlert | Suppress | Recovery | Silent

  /** The state file: the last alerted signature, and when (0 when it holds none). */
  datatype State = State(signature: Signature, lastAlertAt: nat)

  const FRESH := State(Empty, 0)

  /** `decideNotification` */
  function Decide(current: Signature, state: State, now: nat, interval: nat): Decision {
    if current != Empty then
      if state.signature == Empty then NewFailure
      else if state.signature != current then ChangedFailure
      else if state.lastAlertAt == 0 || now - state.lastAlertAt >= interval then ReAlert
      else Suppress
    else if state.signature != Empty then Recovery
    else Silent
  }

  predicate IsAlert(d: Decision) {
    d == NewFailure || d == ChangedFailure || d == ReAlert
  }

  predicate IsNotice(d: Decision) {
    IsAlert(d) || d == Recovery
  }

  /** A run: what failed, the clock read for the decision and the one stamped on the alert, whether the
      notice could be sent, and whether the state file could be written. A failed send is logged only. */
  datatype Run = Run(failed: seq<Text>, now: nat, stamp: nat, sent: bool, stored: bool)

  function DecisionOf(state: State, run: Run, interval: nat): Decision {
    Decide(ComputeSignature(run.failed), state, run.now, interval)
  }

  function StateAfter(state: State, run: Run, interval: nat): State {
    var d := DecisionOf(state, run, interval);
    if !run.stored then state
    else if IsAlert(d) then State(ComputeSignature(run.failed), run.stamp)
    else if d == Recovery then FRESH
    else state
  }

  // ----- All runs -----

  function Final(runs: seq<Run>, interval: nat): State {
    if runs == [] then FRESH else StateAfter(Final(runs[..|runs| - 1], interval), runs[|runs| - 1], interval)
  }

  /** A notice whose state was stored. */
  datatype Notice = Notice(decision: Decision, signature: Signature, now: nat, stamp: nat)

  /** The stored notices of a sequence of runs. */
  function Notices(runs: seq<Run>, interval: nat): seq<Notice> {
    if runs == [] then []
    else
      var init, r := runs[..|runs| - 1], runs[|runs| - 1];
      var d := DecisionOf(Final(init, interval), r, interval);
      Notices(init, interval)
      + if IsNotice(d) && r.stored then [Notice(d, ComputeSignature(r.failed), r.now, r.stamp)] else []
  }

  /** The clock never goes back, and an alert is stamped after it was decided. */
  predicate Ticking(runs: seq<Run>) {
    && (forall i | 0 <= i < |runs| :: 0 < runs[i].now <= runs[i].stamp)
    && (forall i, j | 0 <= i < j < |runs| :: runs[i].stamp <= runs[j].now)
  }

  /** What a notice may follow: the first one, or one after a recovery, is a new failure; within an
      episode there are changes, repetitions a full interval later, and the recovery that ends it. */
  predicate Follows(before: seq<Notice>, n: Notice, interval: nat) {
    if before == [] || before[|before| - 1].decision == Recovery then n.decision == NewFailure && n.signature != Empty
    else
      var last := before[|before| - 1];
      match n.decision
      case Recovery => n.signature == Empty
      case ChangedFailure => n.signature != Empty && n.signature != last.signature
      case ReAlert => n.signature == last.signature && n.now >= last.stamp + interval
      case _ => false
  }

  predicate WellOrdered(ns: seq<Notice>, interval: nat) {
    forall i | 0 <= i < |ns| :: Follows(ns[..i], ns[i], interval)
  }

  /** The state file says exactly what the last stored notice was. */
  predicate Reflects(state: State, ns: seq<Notice>) {
    if ns == [] || ns[|ns| - 1].decision == Recovery then state == FRESH
    else state == State(ns[|ns| - 1].signature, ns[|ns| - 1].stamp) && state.signature != Empty && state.lastAlertAt > 0
  }

  lemma NoticeFollows(ns: seq<Notice>, state: State, r: Run, interval: nat)
    requires Reflects(state, ns) && 0 < r.stamp
    ensures var d := DecisionOf(state, r, interval); var n := Notice(d, ComputeSignature(r.failed), r.now, r.stamp);
            if IsNotice(d) && r.stored then Follows(ns, n, interval) && Reflects(StateAfter(state, r, interval), ns + [n])
            else Reflects(StateAfter(state, r, interval), ns)
  {
    hide SignatureText;
  }

  lemma {:induction false} NoticesWellOrdered(runs: seq<Run>, interval: nat)
    requires Ticking(runs)
    ensures WellOrdered(Notices(runs, interval), interval) && Reflects(Final(runs, interval), Notices(runs, interval))
  {
    hide SignatureText, Follows, Reflects, StateAfter, DecisionOf, ComputeSignature;
    if runs == [] {
      assert Reflects(FRESH, []) by { NothingReflected(); }
    } else {
      var init, r := runs[..|runs| - 1], runs[|runs| - 1];
      NoticesWellOrdered(init, interval);
      var ns, ms := Notices(init, interval), Notices(runs, interval);
      NoticeFollows(ns, Final(init, interval), r, interval);
      assert ns + [] == ns;
      if |ms| > |ns| {
        assert ms[..|ns|] == ns;
        assert forall i | 0 <= i < |ns| :: ms[..i] == ns[..i] && ms[i] == ns[i];
      }
    }
  }

  lemma NothingReflected()
    ensures Reflects(FRESH, [])
  {
  }

  /** How many of the notices are of a kind. */
  function Count(ns: seq<Notice>, d: Decision): nat {
    if ns == [] then 0 else Count(ns[..|ns| - 1], d) + if ns[|ns| - 1].decision == d then 1 else 0
  }

  /** New-failure and recovery notices alternate: at every point as many recoveries as new failures, or
      one less while an episode is open; and changes and repetitions only come inside one. */
  lemma {:induction false} EpisodesAlternate(ns: seq<Notice>, interval: nat)
    requires WellOrdered(ns, interval)
    ensures Count(ns, NewFailure)
         == Count(ns, Recovery) + if ns == [] || ns[|ns| - 1].decision == Recovery then 0 else 1
  {
    if ns != [] {
      var init := ns[..|ns| - 1];
      assert forall i | 0 <= i < |init| :: init[..i] == ns[..i];
      EpisodesAlternate(init, interval);
      assert Follows(init, ns[|ns| - 1], interval);
    }
  }

  lemma {:induction false} InsideAnEpisode(runs: seq<Run>, interval: nat, i: nat)
    requires Ticking(runs) && i < |Notices(runs, interval)|
    ensures var ns := Notices(runs, interval);
            && (ns[i].decision == NewFailure ==> Count(ns[..i], NewFailure) == Count(ns[..i], Recovery))
            && (ns[i].decision != NewFailure ==> Count(ns[..i], NewFailure) == Count(ns[..i], Recovery) + 1)
  {
    hide Notices, Ticking, Final, Reflects;
    NoticesWellOrdered(runs, interval);
    var ns := Notices(runs, interval);
    assert Follows(ns[..i], ns[i], interval);
    assert forall k | 0 <= k < i :: ns[..i][..k] == ns[..k];
    EpisodesAlternate(ns[..i], interval);
  }

  // ----- Sent and stored -----

  /** What the run with this number decides. */
  function At(runs: seq<Run>, i: nat, interval: nat): Decision
    requires i < |runs|
  {
    DecisionOf(Final(runs[..i], interval), runs[i], interval)
  }

  predicate Stores(runs: seq<Run>, i: nat, interval: nat)
    requires i < |runs|
  {
    IsNotice(At(runs, i, interval)) && runs[i].stored
  }

  /** The last run before `j` that stored its notice. */
  predicate LastStored(runs: seq<Run>, k: nat, j: nat, interval: nat)
    requires j < |runs|
  {
    k < j && Stores(runs, k, interval) && forall m | k < m < j :: !Stores(runs, m, interval)
  }

  /** Between two runs no notice was attempted. */
  predicate Quiet(runs: seq<Run>, i: nat, j: nat, interval: nat)
    requires j < |runs|
  {
    forall m | i < m < j :: !IsNotice(At(runs, m, interval))
  }

  lemma StepAt(runs: seq<Run>, i: nat, interval: nat)
    requires i < |runs|
    ensures Final(runs[..i + 1], interval) == StateAfter(Final(runs[..i], interval), runs[i], interval)
    ensures !Stores(runs, i, interval) ==> Final(runs[..i + 1], interval) == Final(runs[..i], interval)
  {
    assert runs[..i + 1][..i] == runs[..i];
  }

  lemma {:induction false} StateKept(runs: seq<Run>, i: nat, j: nat, interval: nat)
    requires i <= j <= |runs| && forall m | i <= m < j :: !Stores(runs, m, interval)
    ensures Final(runs[..j], interval) == Final(runs[..i], interval)
    decreases j - i
  {
    hide Final, Stores;
    if i < j {
      StateKept(runs, i, j - 1, interval);
      StepAt(runs, j - 1, interval);
    }
  }

  /** The state file holds what the last stored notice put there. */
  lemma {:induction false} StateSince(runs: seq<Run>, k: nat, j: nat, interval: nat)
    requires j < |runs| && LastStored(runs, k, j, interval)
    ensures Final(runs[..j], interval)
         == if IsAlert(At(runs, k, interval)) then State(ComputeSignature(runs[k].failed), runs[k].stamp) else FRESH
  {
    hide Final, ComputeSignature;
    StateKept(runs, k + 1, j, interval);
    StepAt(runs, k, interval);
  }

  lemma {:induction false} StoredOrNot(runs: seq<Run>, j: nat, interval: nat)
    requires j < |runs|
    ensures Final(runs[..j], interval) == FRESH || exists k: nat :: LastStored(runs, k, j, interval)
  {
    hide Stores;
    var k: nat := j;
    while k > 0 && !Stores(runs, k - 1, interval)
      invariant 0 <= k <= j && forall m | k <= m < j :: !Stores(runs, m, interval)
    {
      k := k - 1;
    }
    if k > 0 {
      assert LastStored(runs, k - 1, j, interval);
    } else {
      StateKept(runs, 0, j, interval);
    }
  }

  /** An alert repeats one for the same failing set inside the interval, with no other notice attempted
      between, exactly if that one could not be stored; sent or not makes no difference. */
  lemma {:induction false} RepeatsIff(runs: seq<Run>, i: nat, j: nat, interval: nat)
    requires Ticking(runs) && i < j < |runs| && IsAlert(At(runs, i, interval)) && Quiet(runs, i, j, interval)
    requires ComputeSignature(runs[i].failed) == ComputeSignature(runs[j].failed) && runs[j].now < runs[i].stamp + interval
    ensures IsAlert(At(runs, j, interval)) <==> !runs[i].stored
  {
    hide Final, ComputeSignature;
    StateKept(runs, i + 1, j, interval);
    StepAt(runs, i, interval);
  }

  /** A recovery notice is repeated exactly if it could not be stored. */
  lemma {:induction false} RecoveryRepeatsIff(runs: seq<Run>, i: nat, j: nat, interval: nat)
    requires i < j < |runs| && At(runs, i, interval) == Recovery && Quiet(runs, i, j, interval) && runs[j].failed == []
    ensures At(runs, j, interval) == Recovery <==> !runs[i].stored
  {
    hide Final, SignatureText;
    StateKept(runs, i + 1, j, interval);
    StepAt(runs, i, interval);
  }

  /** So over any runs, of all alerts attempted, sent or not: two for one failing set with no other notice
      between are an interval apart, unless the first could not be stored. */
  lemma {:induction false} AlertsAreSpaced(runs: seq<Run>, i: nat, j: nat, interval: nat)
    requires Ticking(runs) && i < j < |runs| && Quiet(runs, i, j, interval)
    requires IsAlert(At(runs, i, interval)) && IsAlert(At(runs, j, interval))
    requires ComputeSignature(runs[i].failed) == ComputeSignature(runs[j].failed)
    ensures runs[j].now >= runs[i].stamp + interval || !runs[i].stored
  {
    hide At, ComputeSignature, Quiet, Ticking;
    if runs[j].now < runs[i].stamp + interval {
      RepeatsIff(runs, i, j, interval);
    }
  }

  /** The last stored notice was an alert for the failing set of `j`, less than an interval old. */
  predicate Covers(runs: seq<Run>, k: nat, j: nat, interval: nat)
    requires j < |runs|
  {
    && LastStored(runs, k, j, interval)
    && IsAlert(At(runs, k, interval)) && ComputeSignature(runs[k].failed) == ComputeSignature(runs[j].failed)
    && runs[j].now < runs[k].stamp + interval
  }

  /** A failing run is silent exactly if the last stored notice covers it. */
  lemma {:induction false} SilentIff(runs: seq<Run>, j: nat, interval: nat)
    requires Ticking(runs) && j < |runs| && runs[j].failed != []
    ensures !IsNotice(At(runs, j, interval)) <==> exists k: nat :: Covers(runs, k, j, interval)
  {
    hide Final, SignatureText, LastStored;
    StoredOrNot(runs, j, interval);
    forall k: nat | LastStored(runs, k, j, interval)
      ensures Covers(runs, k, j, interval) <==> !IsNotice(At(runs, j, interval))
    {
      assert k < j && 0 < runs[k].stamp by { assert LastStored(runs, k, j, interval); Earlier(runs, k, j, interval); }
      StateSince(runs, k, j, interval);
    }
  }

  /** The last stored notice before run `j` was an alert: an episode is open. */
  predicate OpenSince(runs: seq<Run>, k: nat, j: nat, interval: nat)
    requires j < |runs|
  {
    k < j && LastStored(runs, k, j, interval) && IsAlert(At(runs, k, interval))
  }

  /** Exactly which decision a run makes: by whether an episode is open, and if so by the failing set of the
      last stored notice and its age. */
  lemma {:induction false} DecisionIff(runs: seq<Run>, j: nat, interval: nat)
    requires Ticking(runs) && j < |runs|
    ensures (forall k: nat :: !OpenSince(runs, k, j, interval)) ==> At(runs, j, interval) == if runs[j].failed != [] then NewFailure else Silent
    ensures forall k: nat | OpenSince(runs, k, j, interval) ::
              (At(runs, j, interval)
               == if runs[j].failed == [] then Recovery
                  else if ComputeSignature(runs[j].failed) != ComputeSignature(runs[k].failed) then ChangedFailure
                  else if runs[j].now >= runs[k].stamp + interval then ReAlert
                  else Suppress)
  {
    hide Final, SignatureText, LastStored;
    StoredOrNot(runs, j, interval);
    forall k: nat | LastStored(runs, k, j, interval)
      ensures k < j && Final(runs[..j], interval)
                       == if IsAlert(At(runs, k, interval)) then State(ComputeSignature(runs[k].failed), runs[k].stamp) else FRESH
    {
      Earlier(runs, k, j, interval);
      StateSince(runs, k, j, interval);
    }
    if Final(runs[..j], interval) != FRESH {
      var k: nat :| LastStored(runs, k, j, interval);
      assert OpenSince(runs, k, j, interval);
    }
    forall k: nat | OpenSince(runs, k, j, interval) ensures k < j && 0 < runs[k].stamp && runs[k].failed != [] {
      Earlier(runs, k, j, interval);
    }
  }

  lemma Earlier(runs: seq<Run>, k: nat, j: nat, interval: nat)
    requires j < |runs| && LastStored(runs, k, j, interval) && Ticking(runs)
    ensures k < j && 0 < runs[k].stamp
  {
  }

  /** Run `m` tells somebody that the failing set of `j` fails. */
  predicate Tells(runs: seq<Run>, m: nat, j: nat, interval: nat)
    requires m < |runs| && j < |runs|
  {
    && IsAlert(At(runs, m, interval)) && runs[m].sent
    && ComputeSignature(runs[m].failed) == ComputeSignature(runs[j].failed)
  }

  /** Since the notice that keeps it silent, somebody was told of the failing set exactly if that very
      notice was sent; no run in between made up for it. */
  lemma {:induction false} ToldIff(runs: seq<Run>, k: nat, j: nat, interval: nat)
    requires Ticking(runs) && j < |runs| && runs[j].failed != [] && Covers(runs, k, j, interval)
    ensures (exists m :: k <= m < j && Tells(runs, m, j, interval)) <==> runs[k].sent
  {
    hide At, SignatureText, Stores, Ticking;
    forall m | k < m < j ensures !Tells(runs, m, j, interval) {
      if ComputeSignature(runs[m].failed) == ComputeSignature(runs[j].failed) {
        Between(runs, m, j);
        assert Covers(runs, k, m, interval);
        SilentIff(runs, m, interval);
      }
    }
    assert runs[k].sent ==> Tells(runs, k, j, interval);
  }

  lemma Between(runs: seq<Run>, m: nat, j: nat)
    requires Ticking(runs) && m < j < |runs|
    ensures runs[m].now <= runs[j].now
  {
  }

  /** So it can be that nobody was ever told: the first alert is stored though it was not sent, and a run
      with the same failing set inside the interval is silent. */
  lemma NobodyTold(run: Run, next: Run, interval: nat)
    requires run.failed != [] && next.failed == run.failed && run.stored && !run.sent
    requires Ticking([run, next]) && next.now < run.stamp + interval
    ensures At([run, next], 1, interval) == Suppress && forall m | 0 <= m < 2 :: !Tells([run, next], m, 1, interval)
  {
    hide SignatureText;
    var runs := [run, next];
    assert runs[..0] == [] && runs[..1] == [run] && [run][..0] == [] && runs[0] == run && runs[1] == next;
    assert Final([], interval) == FRESH && At(runs, 0, interval) == NewFailure;
    assert Final([run], interval) == State(ComputeSignature(run.failed), run.stamp);
    assert 0 < run.stamp <= next.now;
  }

  // ----- The code -----

  class StateFile {
    var state: State

    constructor ()
      ensures state == FRESH
    {
      state := FRESH;
    }

    /** The end of `main`: decide, notify, persist. A notice that fails to send is persisted all the same. */
    method Finish(run: Run, interval: nat) returns (decision: Decision)
      modifies this
      ensures decision == DecisionOf(old(state), run, interval)
      ensures state == StateAfter(old(state), run, interval)
    {
      hide SignatureText;
      var current := ComputeSignature(run.failed);
      decision := Decide(current, state, run.now, interval);
      if decision == NewFailure || decision == ChangedFailure || decision == ReAlert {
        if run.stored {
          state := State(current, run.stamp);
        }
      } else if decision == Recovery {
        if run.stored {
          state := State(Empty, 0);
        }
      }
    }
  }
}
