/** What the pre-merge scope recheck decides, stated on the answers it was given: which changes are wide,
    exactly when a pull request passes, and what each refusal says. */
module CeRecheckMeaning {
  import opened Outcomes
  import opened CeRecheck

  // ----- Wide changes -----

  predicate Mentions(files: seq<File>, path: string) {
    exists f :: f in files && (f.name == path || f.previous == Some(path))
  }

  /** A file is removed from the directory, or renamed out of it. */
  predicate TakenFrom(f: File, dir: string) {
    || (f.status == "removed" && dir <= f.name)
    || (f.status == "renamed" && f.previous.Some? && dir <= f.previous.value && !(dir <= f.name))
  }

  /** Paths under `src/components/ce/` that occur as a file's name or previous name. */
  ghost predicate CePaths(files: seq<File>, paths: set<string>) {
    forall p | p in paths :: "src/components/ce/" <= p && Mentions(files, p)
  }

  ghost predicate IsBroad(files: seq<File>) {
    || (exists paths :: CePaths(files, paths) && |paths| >= 11)
    || (exists f :: f in files && (TakenFrom(f, "src/components/ce/") || TakenFrom(f, "tests/ce-regression/")))
  }

  lemma {:induction false} CeNamesAre(files: seq<File>)
    ensures forall p :: p in CeNames(files) <==> "src/components/ce/" <= p && Mentions(files, p)
  {
    if files != [] {
      var init, f := files[..|files| - 1], files[|files| - 1];
      CeNamesAre(init);
      assert forall x :: x in files <==> x in init || x == f;
      forall p ensures p in CeNames(files) <==> "src/components/ce/" <= p && Mentions(files, p) {
        assert Mentions(files, p) <==> Mentions(init, p) || f.name == p || f.previous == Some(p);
      }
    }
  }

  lemma OneZone(path: string)
    ensures !("src/components/ce/" <= path && "tests/ce-regression/" <= path)
  {
    assert "src/components/ce/" <= path ==> path[0] == 's';
    assert "tests/ce-regression/" <= path ==> path[0] == 't';
  }

  lemma LeavesIff(f: File)
    ensures LeavesZone(f) <==> TakenFrom(f, "src/components/ce/") || TakenFrom(f, "tests/ce-regression/")
  {
    OneZone(f.name);
    if f.previous.Some? {
      OneZone(f.previous.value);
    }
  }

  lemma SubsetSize(a: set<string>, b: set<string>)
    requires a <= b
    ensures |a| <= |b|
  {
    assert b == a + (b - a);
  }

  /** A change is wide exactly if it touches at least eleven paths of the one directory, or takes a file out
      of one of the two. */
  lemma {:induction false} WideIff(files: seq<File>)
    ensures Wide(files) <==> IsBroad(files)
  {
    CeNamesAre(files);
    assert CePaths(files, CeNames(files));
    forall paths | CePaths(files, paths) ensures |paths| <= |CeNames(files)| {
      SubsetSize(paths, CeNames(files));
    }
    forall f | f in files ensures LeavesZone(f) <==> TakenFrom(f, "src/components/ce/") || TakenFrom(f, "tests/ce-regression/") {
      LeavesIff(f);
    }
  }

  // ----- The approval -----

  /** The first approval recorded for the subject. */
  ghost predicate FirstRecorded(log: seq<BoardEvent>, subject: Subject, i: nat) {
    && i < |log| && log[i].Recorded? && log[i].subject == subject
    && forall j | 0 <= j < i && log[j].Recorded? :: log[j].subject != subject
  }

  ghost predicate RevokedIn(log: seq<BoardEvent>, id: nat) {
    exists j :: 0 <= j < |log| && log[j].Revoked? && log[j].id == id
  }

  /** It has conditions, is for the release branch and is not revoked. */
  ghost predicate Approved(log: seq<BoardEvent>, subject: Subject) {
    exists i: nat :: FirstRecorded(log, subject, i) && log[i].hasConditions && log[i].target == "release/ce" && !RevokedIn(log, log[i].id)
  }

  lemma {:induction false} RecordingIsFirst(log: seq<BoardEvent>, subject: Subject)
    ensures Recording(log, subject).Some? ==> FirstRecorded(log, subject, Recording(log, subject).value)
    ensures forall i: nat | FirstRecorded(log, subject, i) :: Recording(log, subject) == Some(i)
  {
    if log != [] {
      RecordingIsFirst(log[1..], subject);
      assert forall j | 0 < j < |log| :: log[j] == log[1..][j - 1];
      if !(log[0].Recorded? && log[0].subject == subject) {
        forall i: nat | FirstRecorded(log, subject, i) ensures Recording(log, subject) == Some(i) {
          assert i > 0 && FirstRecorded(log[1..], subject, i - 1);
        }
      }
    }
  }

  lemma RevokedIff(log: seq<BoardEvent>, id: nat)
    ensures IsRevoked(log, id) <==> RevokedIn(log, id)
  {
  }

  /** What the decision on a log says. */
  lemma DecisionMeans(log: seq<BoardEvent>, subject: Subject)
    ensures match Approval(log, subject)
            case Allow(s, target) =>
              s == subject && exists i: nat :: FirstRecorded(log, subject, i) && log[i].hasConditions && log[i].target == target && !RevokedIn(log, log[i].id)
            case Deny(true) => exists i: nat :: FirstRecorded(log, subject, i) && log[i].hasConditions && RevokedIn(log, log[i].id)
            case Deny(false) => forall i: nat | FirstRecorded(log, subject, i) :: !log[i].hasConditions
    ensures Approval(log, subject) == Allow(subject, "release/ce") <==> Approved(log, subject)
  {
    hide IsRevoked, RevokedIn, FirstRecorded;
    RecordingIsFirst(log, subject);
    RecordingFinds(log, subject);
    if Recording(log, subject).Some? {
      RevokedIff(log, log[Recording(log, subject).value].id);
    }
  }

  /** At one look a narrow change needs nothing, a wide one its approval. */
  lemma AuthorityIff(pr: Pr, repo: string, base: string, wide: bool, first: Read<seq<BoardEvent>>, second: Read<seq<BoardEvent>>)
    ensures Authority(pr, repo, base, wide, first, second) == Ok
       <==> first.Got? && (wide ==> second.Got? && Approved(second.value, Subject(repo, pr.number, pr.head, base)))
  {
    hide Approval, Approved;
    if second.Got? {
      DecisionMeans(second.value, Subject(repo, pr.number, pr.head, base));
    }
  }

  // ----- The gate -----

  predicate IsGate(r: GateRun, pr: Pr) {
    r.path == ".github/workflows/ce-change-scope-gate.yml" && r.branch == pr.headRef && r.event == "pull_request_target"
  }

  predicate StartedLater(a: GateRun, b: GateRun) {
    a.startedText > b.startedText || (a.startedText == b.startedText && a.attempt > b.attempt)
  }

  /** The latest of the gate's runs, the first one among equals. */
  ghost predicate LatestGate(runs: seq<GateRun>, pr: Pr, i: nat) {
    && i < |runs| && IsGate(runs[i], pr)
    && forall j | 0 <= j < |runs| && IsGate(runs[j], pr) ::
         if j < i then StartedLater(runs[i], runs[j]) else !StartedLater(runs[j], runs[i])
  }

  lemma {:induction false} SelectedIsLatest(runs: seq<GateRun>, pr: Pr)
    ensures match Selected(runs, pr)
            case None => forall j | 0 <= j < |runs| :: !IsGate(runs[j], pr)
            case Some(r) => exists i: nat :: i < |runs| && LatestGate(runs, pr, i) && runs[i] == r
  {
    if runs != [] {
      var k := |runs| - 1;
      var init, r := runs[..k], runs[k];
      SelectedIsLatest(init, pr);
      assert forall j | 0 <= j < k :: runs[j] == init[j];
      assert Pinned(r, pr) && r.event == TARGET <==> IsGate(r, pr);
      match Selected(init, pr) {
        case None =>
          assert IsGate(r, pr) ==> LatestGate(runs, pr, k);
        case Some(held) =>
          var i: nat :| i < |init| && LatestGate(init, pr, i) && init[i] == held;
          if IsGate(r, pr) && StartedLater(r, held) {
            assert LatestGate(runs, pr, k);
          } else {
            assert LatestGate(runs, pr, i);
          }
      }
    }
  }

  lemma OneLatest(runs: seq<GateRun>, pr: Pr, i: nat, j: nat)
    requires LatestGate(runs, pr, i) && LatestGate(runs, pr, j)
    ensures i == j
  {
  }

  /** The check comes from a run of the gate's workflow. */
  predicate FromTheGate(runs: seq<GateRun>, c: Check) {
    exists r :: r in runs && r.path == ".github/workflows/ce-change-scope-gate.yml"
                && (r.event == "pull_request_target" || r.event == "pull_request") && r.suite == c.suite
  }

  /** The latest run is green, every check that bears the gate's name comes from the gate, and one of the
      latest run's is green. */
  ghost predicate GateIsGreen(runs: seq<GateRun>, checks: seq<Check>, pr: Pr, i: nat) {
    && LatestGate(runs, pr, i) && runs[i].success
    && (forall c | c in checks && c.name == "CE Change Scope Gate" :: FromTheGate(runs, c))
    && (exists c :: c in checks && c.name == "CE Change Scope Gate" && c.suite == runs[i].suite && c.success)
  }

  lemma {:induction false} GateIff(runs: Read<seq<GateRun>>, checks: Read<seq<Check>>, pr: Pr)
    ensures GateVerdict(runs, checks, pr) == Ok <==> runs.Got? && checks.Got? && exists i: nat :: GateIsGreen(runs.value, checks.value, pr, i)
    ensures GateVerdict(runs, checks, pr) == Ok ==>
              exists i: nat :: i < |runs.value| && GateIsGreen(runs.value, checks.value, pr, i) && Selected(runs.value, pr) == Some(runs.value[i])
  {
    hide Selected, LatestGate;
    if runs.Got? {
      SelectedIsLatest(runs.value, pr);
      if Selected(runs.value, pr).Some? {
        var i: nat :| i < |runs.value| && LatestGate(runs.value, pr, i) && runs.value[i] == Selected(runs.value, pr).value;
        forall j: nat | LatestGate(runs.value, pr, j) ensures j == i {
          OneLatest(runs.value, pr, i, j);
        }
        if checks.Got? {
          assert GateVerdict(runs, checks, pr) == Ok <==> GateIsGreen(runs.value, checks.value, pr, i);
        }
      } else {
        assert forall j: nat :: !LatestGate(runs.value, pr, j) by { NoGateNoLatest(runs.value, pr); }
      }
    }
  }

  lemma NoGateNoLatest(runs: seq<GateRun>, pr: Pr)
    requires forall j | 0 <= j < |runs| :: !IsGate(runs[j], pr)
    ensures forall i: nat :: !LatestGate(runs, pr, i)
  {
  }

  // ----- The whole recheck -----

  /** Every revocation on the pull request is older than the run. */
  ghost predicate OlderThan(log: seq<BoardEvent>, repo: string, pr: int, green: GateRun) {
    forall i | 0 <= i < |log| && log[i].Revoked? && log[i].repo == repo && log[i].pr == pr ::
      green.startedAt.Some? && log[i].at < green.startedAt.value
  }

  lemma OlderIff(log: seq<BoardEvent>, repo: string, pr: int, green: GateRun)
    ensures GreenAfter(Some(green), NewestRevoked(log, repo, pr)) <==> OlderThan(log, repo, pr, green)
  {
    hide NewestRevoked;
    NewestIsNewest(log, repo, pr);
  }

  /** The pull request is open and on the release branch, and everything its merge needs is there. */
  ghost predicate MayMerge(repo: string, w: Answers) {
    && w.pr.Got? && w.pr.value.isOpen && w.pr.value.baseRef == "release/ce"
    && w.base.Got? && w.comparison.Got? && w.comparison.value.complete
    && w.comparison.value.files.Some? && |w.comparison.value.files.value| <= 299
    && w.log1.Got? && w.log3.Got? && w.finalBase == w.base
    && w.runs.Got? && w.checks.Got?
    && (exists i: nat :: GateIsGreen(w.runs.value, w.checks.value, w.pr.value, i)
                         && OlderThan(w.log3.value, repo, w.pr.value.number, w.runs.value[i]))
    && (IsBroad(w.comparison.value.files.value) ==>
          var subject := Subject(repo, w.pr.value.number, w.pr.value.head, w.base.value);
          w.log2.Got? && w.log4.Got? && Approved(w.log2.value, subject) && Approved(w.log4.value, subject))
  }

  /** A release pull request passes exactly if it may merge. */
  lemma {:induction false} PassesExactly(repo: string, w: Answers)
    ensures Verdict(true, repo, w) == Ok && w.pr.Got? && w.pr.value.baseRef == "release/ce" <==> MayMerge(repo, w)
  {
    hide Authority, GateVerdict, NewestRevoked, Selected, Wide, IsBroad, Approved, GateIsGreen, OlderThan;
    if w.pr.Got? && w.base.Got? && w.comparison.Got? && w.comparison.value.files.Some? {
      var pr, base, files := w.pr.value, w.base.value, w.comparison.value.files.value;
      WideIff(files);
      AuthorityIff(pr, repo, base, Wide(files), w.log1, w.log2);
      AuthorityIff(pr, repo, base, Wide(files), w.log3, w.log4);
      GateIff(w.runs, w.checks, pr);
      if GateVerdict(w.runs, w.checks, pr) == Ok && w.log3.Got? {
        var i: nat :| i < |w.runs.value| && GateIsGreen(w.runs.value, w.checks.value, pr, i) && Selected(w.runs.value, pr) == Some(w.runs.value[i]);
        OlderIff(w.log3.value, repo, pr.number, w.runs.value[i]);
        forall j: nat | GateIsGreen(w.runs.value, w.checks.value, pr, j) ensures j == i {
          OneGreen(w.runs.value, w.checks.value, pr, i, j);
        }
      }
    }
  }

  lemma OneGreen(runs: seq<GateRun>, checks: seq<Check>, pr: Pr, i: nat, j: nat)
    requires GateIsGreen(runs, checks, pr, i) && GateIsGreen(runs, checks, pr, j)
    ensures i == j
  {
    OneLatest(runs, pr, i, j);
  }

  /** So a change of eleven paths under `src/components/ce/` that has no approval on the log never passes. */
  lemma {:induction false} ElevenPathsNeedApproval(repo: string, w: Answers, paths: set<string>)
    requires w.pr.Got? && w.pr.value.baseRef == "release/ce" && w.base.Got?
    requires w.comparison.Got? && w.comparison.value.files.Some? && CePaths(w.comparison.value.files.value, paths) && |paths| == 11
    requires w.log4.Got? && forall e | e in w.log4.value && e.Recorded? ::
               e.subject != Subject(repo, w.pr.value.number, w.pr.value.head, w.base.value)
    ensures Verdict(true, repo, w) != Ok
  {
    hide Verdict, GateIsGreen, OlderThan, CePaths;
    PassesExactly(repo, w);
  }

  /** What each refusal says is true of the answers. */
  lemma {:induction false} RefusalsAreTrue(repo: string, w: Answers)
    requires Verdict(true, repo, w).No?
    ensures match Verdict(true, repo, w).reason
            case PrNotOpen => w.pr.Got? && !w.pr.value.isOpen
            case CompareTruncated =>
              w.comparison.Failed? || !w.comparison.value.complete || w.comparison.value.files.None?
              || |w.comparison.value.files.value| >= 300
            case ApprovalError =>
              w.pr.Failed? || w.base.Failed? || w.log1.Failed? || w.log2.Failed? || w.runs.Failed? || w.checks.Failed?
              || w.finalBase.Failed? || w.log3.Failed? || w.log4.Failed?
            case WasRevoked => LooksRevoked(repo, w, w.log2) || LooksRevoked(repo, w, w.log4)
            case ApprovalMissing => LooksMissing(repo, w, w.log1, w.log2, false) || LooksMissing(repo, w, w.log3, w.log4, false)
            case BaseMoved =>
              || LooksMissing(repo, w, w.log1, w.log2, true) || LooksMissing(repo, w, w.log3, w.log4, true)
              || (w.finalBase.Got? && w.finalBase != w.base)
            case ApprovalMalformed => LooksMalformed(repo, w, w.log2) || LooksMalformed(repo, w, w.log4)
            case WrongGateEvent =>
              && w.pr.Got? && w.runs.Got? && (forall r | r in w.runs.value :: !IsGate(r, w.pr.value))
              && exists r :: r in w.runs.value && r.path == ".github/workflows/ce-change-scope-gate.yml" && r.branch == w.pr.value.headRef
            case GateNotGreen =>
              w.pr.Got? && w.runs.Got? && forall i: nat | LatestGate(w.runs.value, w.pr.value, i) ::
                !w.runs.value[i].success
                || (w.checks.Got? && forall c | c in w.checks.value && c.name == "CE Change Scope Gate" && c.suite == w.runs.value[i].suite :: !c.success)
            case DuplicateGateCheck =>
              w.runs.Got? && w.checks.Got? && exists c :: c in w.checks.value && c.name == "CE Change Scope Gate" && !FromTheGate(w.runs.value, c)
            case RevokedAfterGreen =>
              w.pr.Got? && w.runs.Got? && w.log3.Got? && exists i: nat ::
                LatestGate(w.runs.value, w.pr.value, i) && !OlderThan(w.log3.value, repo, w.pr.value.number, w.runs.value[i])
  {
    hide Authority, GateVerdict, NewestRevoked, Selected, Wide, Approved, LooksRevoked, LooksMissing, LooksMalformed, LatestGate, OlderThan;
    if w.pr.Got? && w.base.Got? {
      var pr, base := w.pr.value, w.base.value;
      var wide := w.comparison.Got? && w.comparison.value.files.Some? && Wide(w.comparison.value.files.value);
      LookMeans(repo, w, wide, w.log1, w.log2);
      LookMeans(repo, w, wide, w.log3, w.log4);
      AuthorityIff(pr, repo, base, wide, w.log3, w.log4);
      GateRefusals(w.runs, w.checks, pr);
      if GateVerdict(w.runs, w.checks, pr) == Ok {
        GateIff(w.runs, w.checks, pr);
        var i: nat :| i < |w.runs.value| && GateIsGreen(w.runs.value, w.checks.value, pr, i) && Selected(w.runs.value, pr) == Some(w.runs.value[i]);
        if w.log3.Got? {
          OlderIff(w.log3.value, repo, pr.number, w.runs.value[i]);
        }
      }
    }
  }

  /** The subject's approval has conditions and is revoked. */
  ghost predicate LooksRevoked(repo: string, w: Answers, log: Read<seq<BoardEvent>>) {
    log.Got? && w.pr.Got? && w.base.Got?
    && exists i: nat :: FirstRecorded(log.value, Subject(repo, w.pr.value.number, w.pr.value.head, w.base.value), i)
                        && log.value[i].hasConditions && RevokedIn(log.value, log.value[i].id)
  }

  /** The subject has no approval with conditions; `other` tells whether the head has one that stands. */
  ghost predicate LooksMissing(repo: string, w: Answers, first: Read<seq<BoardEvent>>, second: Read<seq<BoardEvent>>, other: bool) {
    && first.Got? && second.Got? && w.pr.Got? && w.base.Got?
    && (forall i: nat | FirstRecorded(second.value, Subject(repo, w.pr.value.number, w.pr.value.head, w.base.value), i) :: !second.value[i].hasConditions)
    && (other <==> exists e :: e in first.value && e.Recorded? && !RevokedIn(first.value, e.id)
                               && e.subject.repo == repo && e.subject.pr == w.pr.value.number && e.subject.head == w.pr.value.head)
  }

  /** The subject's approval is for another branch. */
  ghost predicate LooksMalformed(repo: string, w: Answers, log: Read<seq<BoardEvent>>) {
    log.Got? && w.pr.Got? && w.base.Got?
    && exists i: nat :: FirstRecorded(log.value, Subject(repo, w.pr.value.number, w.pr.value.head, w.base.value), i) && log.value[i].target != "release/ce"
  }

  lemma LookMeans(repo: string, w: Answers, wide: bool, first: Read<seq<BoardEvent>>, second: Read<seq<BoardEvent>>)
    requires w.pr.Got? && w.base.Got?
    ensures match Authority(w.pr.value, repo, w.base.value, wide, first, second)
            case Ok => true
            case No(ApprovalError) => first.Failed? || second.Failed?
            case No(WasRevoked) => LooksRevoked(repo, w, second)
            case No(ApprovalMissing) => LooksMissing(repo, w, first, second, false)
            case No(BaseMoved) => LooksMissing(repo, w, first, second, true)
            case No(ApprovalMalformed) => LooksMalformed(repo, w, second)
            case No(_) => false
  {
    hide Approval, FirstRecorded, RevokedIn, IsRevoked;
    if first.Got? && second.Got? {
      DecisionMeans(second.value, Subject(repo, w.pr.value.number, w.pr.value.head, w.base.value));
      forall e | e in first.value && e.Recorded? ensures IsRevoked(first.value, e.id) <==> RevokedIn(first.value, e.id) {
        RevokedIff(first.value, e.id);
      }
    }
  }

  lemma GateRefusals(runs: Read<seq<GateRun>>, checks: Read<seq<Check>>, pr: Pr)
    ensures match GateVerdict(runs, checks, pr)
            case Ok => true
            case No(ApprovalError) => runs.Failed? || checks.Failed?
            case No(WrongGateEvent) =>
              && runs.Got? && (forall r | r in runs.value :: !IsGate(r, pr))
              && exists r :: r in runs.value && r.path == ".github/workflows/ce-change-scope-gate.yml" && r.branch == pr.headRef
            case No(GateNotGreen) =>
              runs.Got? && forall i: nat | LatestGate(runs.value, pr, i) ::
                !runs.value[i].success
                || (checks.Got? && forall c | c in checks.value && c.name == "CE Change Scope Gate" && c.suite == runs.value[i].suite :: !c.success)
            case No(DuplicateGateCheck) =>
              runs.Got? && checks.Got? && exists c :: c in checks.value && c.name == "CE Change Scope Gate" && !FromTheGate(runs.value, c)
            case No(_) => false
  {
    hide Selected, LatestGate;
    if runs.Got? {
      SelectedIsLatest(runs.value, pr);
      if Selected(runs.value, pr).Some? {
        var i: nat :| i < |runs.value| && LatestGate(runs.value, pr, i) && runs.value[i] == Selected(runs.value, pr).value;
        forall j: nat | LatestGate(runs.value, pr, j) ensures j == i {
          OneLatest(runs.value, pr, i, j);
        }
      } else {
        NoGateNoLatest(runs.value, pr);
      }
    }
  }
}
