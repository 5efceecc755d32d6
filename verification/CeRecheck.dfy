/** The pre-merge scope recheck of `packages/overseer/src/ce-scope-premerge-recheck.ts` against a world
    that moves between any two of its reads, with the append-only approval log of
    `packages/core/src/db/board-scope-approvals.ts`. */
module CeRecheck {
  import opened Outcomes

  // ----- The approval log -----

  /** What an approval is for. */
  datatype Subject = Subject(repo: string, pr: int, head: string, base: string)

  datatype BoardEvent =
    | Recorded(id: nat, subject: Subject, target: string, hasConditions: bool)
    | Revoked(id: nat, repo: string, pr: int, at: int)

  /** The log, append-only. Its unique index lets one approval in per subject, and one revocation per
      approval; a second record for a subject is dropped. */
  ghost predicate LogOk(log: seq<BoardEvent>) {
    forall i, j | 0 <= i < j < |log| && log[i].Recorded? && log[j].Recorded? ::
      log[i].subject != log[j].subject && log[i].id != log[j].id
  }

  datatype Decision = Allow(subject: Subject, target: string) | Deny(revoked: bool)

  /** The recorded approval of a subject. */
  function Recording(log: seq<BoardEvent>, subject: Subject): Option<nat> {
    if log == [] then None
    else if log[0].Recorded? && log[0].subject == subject then Some(0)
    else match Recording(log[1..], subject)
         case None => None
         case Some(i) => Some(i + 1)
  }

  lemma {:induction false} RecordingFinds(log: seq<BoardEvent>, subject: Subject)
    ensures match Recording(log, subject)
            case None => forall i | 0 <= i < |log| && log[i].Recorded? :: log[i].subject != subject
            case Some(i) => i < |log| && log[i].Recorded? && log[i].subject == subject
  {
    if log != [] && !(log[0].Recorded? && log[0].subject == subject) {
      RecordingFinds(log[1..], subject);
      assert forall i | 0 < i < |log| :: log[i] == log[1..][i - 1];
    }
  }

  predicate IsRevoked(log: seq<BoardEvent>, id: nat) {
    exists e :: e in log && e.Revoked? && e.id == id
  }

  /** `getScopeApprovalDecision` */
  function Approval(log: seq<BoardEvent>, subject: Subject): Decision {
    RecordingFinds(log, subject);
    match Recording(log, subject)
    case None => Deny(false)
    case Some(i) =>
      if !log[i].hasConditions then Deny(false)
      else if IsRevoked(log, log[i].id) then Deny(true)
      else Allow(log[i].subject, log[i].target)
  }

  /** The newest revocation on a pull request. */
  function NewestRevoked(log: seq<BoardEvent>, repo: string, pr: int): Option<int> {
    if log == [] then None
    else
      var e, rest := log[|log| - 1], NewestRevoked(log[..|log| - 1], repo, pr);
      if e.Revoked? && e.repo == repo && e.pr == pr && (rest.None? || e.at > rest.value) then Some(e.at) else rest
  }

  lemma {:induction false} NewestIsNewest(log: seq<BoardEvent>, repo: string, pr: int)
    ensures var n := NewestRevoked(log, repo, pr);
            && (n.None? <==> forall i | 0 <= i < |log| && log[i].Revoked? :: !(log[i].repo == repo && log[i].pr == pr))
            && (n.Some? ==> forall i | 0 <= i < |log| && log[i].Revoked? && log[i].repo == repo && log[i].pr == pr :: log[i].at <= n.value)
            && (n.Some? ==> exists i :: 0 <= i < |log| && log[i].Revoked? && log[i].repo == repo && log[i].pr == pr && log[i].at == n.value)
  {
    if log != [] {
      var k := |log| - 1;
      NewestIsNewest(log[..k], repo, pr);
      assert forall i | 0 <= i < k :: log[i] == log[..k][i];
      var rest := NewestRevoked(log[..k], repo, pr);
      if rest.Some? {
        var i :| 0 <= i < k && log[..k][i].Revoked? && log[..k][i].repo == repo && log[..k][i].pr == pr && log[..k][i].at == rest.value;
        assert log[i].at == rest.value;
      }
    }
  }

  /** Some approval of the head is recorded and not revoked. */
  predicate HasOtherBase(log: seq<BoardEvent>, repo: string, pr: int, head: string) {
    exists e :: e in log && e.Recorded? && e.subject.repo == repo && e.subject.pr == pr && e.subject.head == head && !IsRevoked(log, e.id)
  }

  datatype Metadata = Metadata(hasOtherBase: bool, newestRevokedAt: Option<int>)

  /** `getScopeApprovalMetadata` */
  function MetadataOf(log: seq<BoardEvent>, repo: string, pr: int, head: string): Metadata {
    Metadata(HasOtherBase(log, repo, pr, head), NewestRevoked(log, repo, pr))
  }

  // ----- What GitHub answers -----

  datatype Pr = Pr(isOpen: bool, number: int, head: string, headRef: string, baseRef: string)

  datatype File = File(name: string, status: string, previous: Option<string>)

  datatype Comparison = Comparison(files: Option<seq<File>>, complete: bool)

  /** `startedText` ranks the start time as text, `startedAt` is the time it parses to. */
  datatype GateRun = GateRun(path: string, event: string, branch: string, startedText: int, startedAt: Option<int>, attempt: int,
                             success: bool, suite: int)

  datatype Check = Check(name: string, success: bool, suite: int)

  /** The answers of one recheck, in the order it asks. The approval log is looked at twice early on and
      twice at the end; the second look of each pair, for the approval, only happens for a wide change. */
  datatype Answers = Answers(pr: Read<Pr>, base: Read<string>, comparison: Read<Comparison>,
                             log1: Read<seq<BoardEvent>>, log2: Read<seq<BoardEvent>>,
                             runs: Read<seq<GateRun>>, checks: Read<seq<Check>>, finalBase: Read<string>,
                             log3: Read<seq<BoardEvent>>, log4: Read<seq<BoardEvent>>)

  const RELEASE := "release/ce"
  const GATE_PATH := ".github/workflows/ce-change-scope-gate.yml"
  const GATE_NAME := "CE Change Scope Gate"
  const TARGET := "pull_request_target"
  const CE_DIR := "src/components/ce/"
  const TEST_DIR := "tests/ce-regression/"

  datatype Reason = PrNotOpen | CompareTruncated | ApprovalError | WasRevoked | BaseMoved | ApprovalMissing | ApprovalMalformed
                  | WrongGateEvent | GateNotGreen | DuplicateGateCheck | RevokedAfterGreen

  datatype Result = Ok | No(reason: Reason)

  // ----- Breadth -----

  function Zone(path: string): int {
    if CE_DIR <= path then 1 else if TEST_DIR <= path then 2 else 0
  }

  /** The names a file entry counts under: both sides of a rename. */
  function CeNamesOf(f: File): set<string> {
    (if CE_DIR <= f.name then {f.name} else {})
    + if f.previous.Some? && CE_DIR <= f.previous.value then {f.previous.value} else {}
  }

  function CeNames(files: seq<File>): set<string> {
    if files == [] then {} else CeNames(files[..|files| - 1]) + CeNamesOf(files[|files| - 1])
  }

  predicate LeavesZone(f: File) {
    || (f.status == "removed" && Zone(f.name) != 0)
    || (f.status == "renamed" && f.previous.Some? && Zone(f.previous.value) != 0 && Zone(f.previous.value) != Zone(f.name))
  }

  predicate Wide(files: seq<File>) {
    |CeNames(files)| > 10 || exists f :: f in files && LeavesZone(f)
  }

  // ----- The gate run -----

  predicate Pinned(r: GateRun, pr: Pr) {
    r.path == GATE_PATH && r.branch == pr.headRef
  }

  predicate Newer(a: GateRun, b: GateRun) {
    a.startedText > b.startedText || (a.startedText == b.startedText && a.attempt > b.attempt)
  }

  /** The first run of the sorted list: the newest gate run of the pull request, the first of equals. */
  function Selected(runs: seq<GateRun>, pr: Pr): Option<GateRun> {
    if runs == [] then None
    else
      var r, held := runs[|runs| - 1], Selected(runs[..|runs| - 1], pr);
      if Pinned(r, pr) && r.event == TARGET && (held.None? || Newer(r, held.value)) then Some(r) else held
  }

  lemma {:induction false} SelectedIsNewest(runs: seq<GateRun>, pr: Pr)
    ensures var s := Selected(runs, pr);
            && (s.Some? ==> s.value in runs && Pinned(s.value, pr) && s.value.event == TARGET)
            && (forall r | r in runs && Pinned(r, pr) && r.event == TARGET :: s.Some? && !Newer(r, s.value))
  {
    if runs != [] {
      SelectedIsNewest(runs[..|runs| - 1], pr);
      assert runs == runs[..|runs| - 1] + [runs[|runs| - 1]];
    }
  }

  predicate Trusted(runs: seq<GateRun>, suite: int) {
    exists r :: r in runs && r.path == GATE_PATH && (r.event == TARGET || r.event == "pull_request") && r.suite == suite
  }

  /** `checkAuthority` on the two looks at the log. */
  function Authority(pr: Pr, repo: string, base: string, wide: bool, first: Read<seq<BoardEvent>>, second: Read<seq<BoardEvent>>): Result {
    if first.Failed? then No(ApprovalError)
    else if !wide then Ok
    else if second.Failed? then No(ApprovalError)
    else
      match Approval(second.value, Subject(repo, pr.number, pr.head, base))
      case Deny(revoked) =>
        No(if revoked then WasRevoked
           else if MetadataOf(first.value, repo, pr.number, pr.head).hasOtherBase then BaseMoved else ApprovalMissing)
      case Allow(subject, target) =>
        if subject != Subject(repo, pr.number, pr.head, base) || target != RELEASE then No(ApprovalMalformed) else Ok
  }

  /** The verdict on the gate's runs. */
  function RunsVerdict(runs: seq<GateRun>, pr: Pr): Result {
    var selected := Selected(runs, pr);
    if selected.None? && (exists r :: r in runs && Pinned(r, pr) && r.event != TARGET) then No(WrongGateEvent)
    else if selected.None? || !selected.value.success then No(GateNotGreen)
    else Ok
  }

  /** The verdict on the gate's checks, once its newest run is green. */
  function ChecksVerdict(runs: seq<GateRun>, checks: seq<Check>, pr: Pr): Result
    requires RunsVerdict(runs, pr) == Ok
  {
    if exists c :: c in checks && c.name == GATE_NAME && !Trusted(runs, c.suite) then No(DuplicateGateCheck)
    else if !exists c :: c in checks && c.name == GATE_NAME && c.suite == Selected(runs, pr).value.suite && c.success
    then No(GateNotGreen)
    else Ok
  }

  /** The two reads of the gate's state, the second only after green runs. */
  function GateVerdict(runs: Read<seq<GateRun>>, checks: Read<seq<Check>>, pr: Pr): Result {
    if runs.Failed? then No(ApprovalError)
    else if RunsVerdict(runs.value, pr) != Ok then RunsVerdict(runs.value, pr)
    else if checks.Failed? then No(ApprovalError)
    else ChecksVerdict(runs.value, checks.value, pr)
  }

  /** Whether a change is wide: the protected names, counted in a loop over the files, or a file that
      leaves its zone. */
  method IsWideChange(files: seq<File>) returns (wide: bool)
    ensures wide == Wide(files)
  {
    var ceNames := {};
    var i := 0;
    while i < |files|
      invariant 0 <= i <= |files| && ceNames == CeNames(files[..i])
    {
      var file := files[i];
      assert files[..i + 1][..i] == files[..i];
      if CE_DIR <= file.name {
        ceNames := ceNames + {file.name};
      }
      if file.previous.Some? && CE_DIR <= file.previous.value {
        ceNames := ceNames + {file.previous.value};
      }
      i := i + 1;
    }
    assert files[..i] == files;
    wide := |ceNames| > 10 || exists f :: f in files && LeavesZone(f);
  }

  // ----- The recheck -----

  /** Everything an open release pull request needs for a pass. */
  ghost predicate Passes(repo: string, w: Answers) {
    && w.pr.Got? && w.base.Got? && w.comparison.Got? && w.runs.Got? && w.checks.Got? && w.finalBase.Got?
    && w.comparison.value.complete && w.comparison.value.files.Some? && |w.comparison.value.files.value| < 300
    && var pr, base, wide := w.pr.value, w.base.value, Wide(w.comparison.value.files.value);
       && w.finalBase.value == base
       && Authority(pr, repo, base, wide, w.log1, w.log2) == Ok
       && Authority(pr, repo, base, wide, w.log3, w.log4) == Ok
       && RunsVerdict(w.runs.value, pr) == Ok && ChecksVerdict(w.runs.value, w.checks.value, pr) == Ok
       && w.log3.Got?
       && GreenAfter(Selected(w.runs.value, pr), NewestRevoked(w.log3.value, repo, pr.number))
  }

  predicate GreenAfter(green: Option<GateRun>, revoked: Option<int>) {
    revoked.None? || (green.Some? && green.value.startedAt.Some? && green.value.startedAt.value > revoked.value)
  }

  /** The first thing that fails once the early look at the authority found nothing. */
  function Inspection(repo: string, pr: Pr, base: string, wide: bool, runs: Read<seq<GateRun>>, checks: Read<seq<Check>>,
                      finalBase: Read<string>, log3: Read<seq<BoardEvent>>, log4: Read<seq<BoardEvent>>): Result {
    var final := Authority(pr, repo, base, wide, log3, log4);
    if GateVerdict(runs, checks, pr) != Ok then GateVerdict(runs, checks, pr)
    else if finalBase.Failed? then No(ApprovalError)
    else if finalBase.value != base then No(BaseMoved)
    else if final != Ok then final
    else if !GreenAfter(Selected(runs.value, pr), NewestRevoked(log3.value, repo, pr.number)) then No(RevokedAfterGreen)
    else Ok
  }

  /** The first thing that fails, in the order the answers are asked for. */
  function Verdict(isProtected: bool, repo: string, w: Answers): Result {
    if !isProtected then Ok
    else if w.pr.Failed? then No(ApprovalError)
    else if !w.pr.value.isOpen then No(PrNotOpen)
    else if w.pr.value.baseRef != RELEASE then Ok
    else if w.base.Failed? then No(ApprovalError)
    else if w.comparison.Failed? || !w.comparison.value.complete || w.comparison.value.files.None?
            || |w.comparison.value.files.value| >= 300
    then No(CompareTruncated)
    else
      var pr, base, wide := w.pr.value, w.base.value, Wide(w.comparison.value.files.value);
      var early := Authority(pr, repo, base, wide, w.log1, w.log2);
      if early != Ok then early
      else Inspection(repo, pr, base, wide, w.runs, w.checks, w.finalBase, w.log3, w.log4)
  }

  lemma PassesIff(repo: string, w: Answers)
    ensures Verdict(true, repo, w) == Ok
       <==> w.pr.Got? && w.pr.value.isOpen && (w.pr.value.baseRef != RELEASE || Passes(repo, w))
  {
    hide Approval, NewestRevoked, Selected, GATE_NAME, GATE_PATH, TARGET, RELEASE, Wide, HasOtherBase, Trusted;
  }

  // ----- The moving world -----

  /** The world at one instant. */
  datatype Moment = Moment(pr: Pr, tip: string, comparisons: map<(string, string), Comparison>,
                           runs: map<string, seq<GateRun>>, checks: map<string, seq<Check>>, log: seq<BoardEvent>)

  type Timeline = nat -> Moment

  /** When a read happens, and whether it throws. */
  datatype Tick = Tick(instant: nat, fails: bool)

  /** The environment chooses the tick of the first read, of the second, and so on. */
  type Schedule = nat -> Tick

  function ReadPr(tl: Timeline, t: Tick): Read<Pr> {
    if t.fails then Failed else Got(tl(t.instant).pr)
  }

  function ReadTip(tl: Timeline, t: Tick): Read<string> {
    if t.fails then Failed else Got(tl(t.instant).tip)
  }

  function ReadComparison(tl: Timeline, t: Tick, base: string, head: string): Read<Comparison> {
    if t.fails || (base, head) !in tl(t.instant).comparisons then Failed else Got(tl(t.instant).comparisons[(base, head)])
  }

  function ReadRuns(tl: Timeline, t: Tick, head: string): Read<seq<GateRun>> {
    if t.fails then Failed
    else if head in tl(t.instant).runs then Got(tl(t.instant).runs[head]) else Got([])
  }

  function ReadChecks(tl: Timeline, t: Tick, head: string): Read<seq<Check>> {
    if t.fails then Failed
    else if head in tl(t.instant).checks then Got(tl(t.instant).checks[head]) else Got([])
  }

  function ReadLog(tl: Timeline, t: Tick): Read<seq<BoardEvent>> {
    if t.fails then Failed else Got(tl(t.instant).log)
  }

  predicate IsWide(comparison: Read<Comparison>) {
    comparison.Got? && comparison.value.files.Some? && Wide(comparison.value.files.value)
  }

  /** How many reads the first look at the authority takes beyond its first. */
  function Extra(wide: bool): nat {
    if wide then 1 else 0
  }

  /** The answers, read one after the other: the pull request, the branch's tip, the comparison, the
      authority, the runs, the checks, the tip again, and the authority again. */
  function AnswersOf(tl: Timeline, sch: Schedule): Answers {
    var pr, base := ReadPr(tl, sch(0)), ReadTip(tl, sch(1));
    var head, from := if pr.Got? then pr.value.head else "", if base.Got? then base.value else "";
    var comparison := ReadComparison(tl, sch(2), from, head);
    var wide := IsWide(comparison);
    var k := Extra(wide);
    Answers(pr, base, comparison, ReadLog(tl, sch(3)), if wide then ReadLog(tl, sch(4)) else Failed,
            ReadRuns(tl, sch(4 + k), head), ReadChecks(tl, sch(5 + k), head), ReadTip(tl, sch(6 + k)),
            ReadLog(tl, sch(7 + k)), if wide then ReadLog(tl, sch(8 + k)) else Failed)
  }

  // ----- The code -----

  /** GitHub and the approval log, as one recheck meets them: each call is the next read. */
  class Surroundings {
    const timeline: Timeline
    const schedule: Schedule
    var asked: nat

    constructor (timeline: Timeline, schedule: Schedule)
      ensures this.timeline == timeline && this.schedule == schedule && asked == 0
    {
      this.timeline, this.schedule, asked := timeline, schedule, 0;
    }

    method GetPullRequest() returns (r: Read<Pr>)
      modifies this`asked
      ensures asked == old(asked) + 1 && r == ReadPr(timeline, schedule(old(asked)))
    {
      r := ReadPr(timeline, schedule(asked));
      asked := asked + 1;
    }

    method GetBranchTip() returns (r: Read<string>)
      modifies this`asked
      ensures asked == old(asked) + 1 && r == ReadTip(timeline, schedule(old(asked)))
    {
      r := ReadTip(timeline, schedule(asked));
      asked := asked + 1;
    }

    method Compare(base: string, head: string) returns (r: Read<Comparison>)
      modifies this`asked
      ensures asked == old(asked) + 1 && r == ReadComparison(timeline, schedule(old(asked)), base, head)
    {
      r := ReadComparison(timeline, schedule(asked), base, head);
      asked := asked + 1;
    }

    method ListWorkflowRuns(head: string) returns (r: Read<seq<GateRun>>)
      modifies this`asked
      ensures asked == old(asked) + 1 && r == ReadRuns(timeline, schedule(old(asked)), head)
    {
      r := ReadRuns(timeline, schedule(asked), head);
      asked := asked + 1;
    }

    method ListCheckRuns(head: string) returns (r: Read<seq<Check>>)
      modifies this`asked
      ensures asked == old(asked) + 1 && r == ReadChecks(timeline, schedule(old(asked)), head)
    {
      r := ReadChecks(timeline, schedule(asked), head);
      asked := asked + 1;
    }

    method ReadBoard() returns (r: Read<seq<BoardEvent>>)
      modifies this`asked
      ensures asked == old(asked) + 1 && r == ReadLog(timeline, schedule(old(asked)))
    {
      r := ReadLog(timeline, schedule(asked));
      asked := asked + 1;
    }

    /** `checkAuthority` */
    method CheckAuthority(pr: Pr, repo: string, base: string, wide: bool) returns (result: Result, newestRevokedAt: Option<int>)
      modifies this`asked
      ensures var first, second := ReadLog(timeline, schedule(old(asked))), if wide then ReadLog(timeline, schedule(old(asked) + 1)) else Failed;
              && result == Authority(pr, repo, base, wide, first, second)
              && (result == Ok ==> first.Got? && newestRevokedAt == NewestRevoked(first.value, repo, pr.number)
                                   && asked == old(asked) + 1 + Extra(wide))
    {
      hide Approval, NewestRevoked, HasOtherBase;
      newestRevokedAt := None;
      var board := ReadBoard();
      if board.Failed? {
        return No(ApprovalError), None;
      }
      var metadata := MetadataOf(board.value, repo, pr.number, pr.head);
      if wide {
        var again := ReadBoard();
        if again.Failed? {
          return No(ApprovalError), None;
        }
        var decision := Approval(again.value, Subject(repo, pr.number, pr.head, base));
        if decision.Deny? {
          if decision.revoked {
            return No(WasRevoked), None;
          }
          return No(if metadata.hasOtherBase then BaseMoved else ApprovalMissing), None;
        }
        if decision.subject != Subject(repo, pr.number, pr.head, base) || decision.target != RELEASE {
          return No(ApprovalMalformed), None;
        }
      }
      result, newestRevokedAt := Ok, metadata.newestRevokedAt;
    }

    /** The part of `ceScopePremergeRecheck` that asks for the gate's runs and checks. */
    method CheckGate(pr: Pr) returns (result: Result, selected: Option<GateRun>)
      modifies this`asked
      ensures var runs, checks := ReadRuns(timeline, schedule(old(asked)), pr.head), ReadChecks(timeline, schedule(old(asked) + 1), pr.head);
              && result == GateVerdict(runs, checks, pr)
              && (result == Ok ==> asked == old(asked) + 2 && selected == Selected(runs.value, pr) && selected.Some?)
    {
      hide Selected, GATE_NAME, GATE_PATH, TARGET, Trusted, ReadRuns, ReadChecks;
      selected := None;
      var runs := ListWorkflowRuns(pr.head);
      if runs.Failed? {
        return No(ApprovalError), None;
      }
      selected := Selected(runs.value, pr);
      if selected.None? && (exists r :: r in runs.value && Pinned(r, pr) && r.event != TARGET) {
        return No(WrongGateEvent), None;
      }
      if selected.None? || !selected.value.success {
        return No(GateNotGreen), None;
      }
      var checks := ListCheckRuns(pr.head);
      if checks.Failed? {
        return No(ApprovalError), None;
      }
      if exists c :: c in checks.value && c.name == GATE_NAME && !Trusted(runs.value, c.suite) {
        return No(DuplicateGateCheck), None;
      }
      if !exists c :: c in checks.value && c.name == GATE_NAME && c.suite == selected.value.suite && c.success {
        return No(GateNotGreen), None;
      }
      result := Ok;
    }

    /** The rest of `ceScopePremergeRecheck`, from the gate to the last look at the authority. */
    method Inspect(pr: Pr, repo: string, base: string, wide: bool) returns (result: Result)
      modifies this`asked
      ensures var n := old(asked);
              result == Inspection(repo, pr, base, wide, ReadRuns(timeline, schedule(n), pr.head), ReadChecks(timeline, schedule(n + 1), pr.head),
                                   ReadTip(timeline, schedule(n + 2)), ReadLog(timeline, schedule(n + 3)),
                                   if wide then ReadLog(timeline, schedule(n + 4)) else Failed)
    {
      hide Authority, NewestRevoked, Selected, Extra, ReadTip, ReadRuns, ReadChecks, ReadLog, GateVerdict;
      var selected;
      result, selected := CheckGate(pr);
      if result != Ok {
        return;
      }
      var finalBase := GetBranchTip();
      if finalBase.Failed? {
        return No(ApprovalError);
      }
      if finalBase.value != base {
        return No(BaseMoved);
      }
      var newestRevokedAt;
      result, newestRevokedAt := CheckAuthority(pr, repo, base, wide);
      if result != Ok {
        return;
      }
      if newestRevokedAt.Some? {
        if selected.value.startedAt.None? || selected.value.startedAt.value <= newestRevokedAt.value {
          return No(RevokedAfterGreen);
        }
      }
    }

    /** `ceScopePremergeRecheck` */
    method Recheck(isProtected: bool, repo: string) returns (result: Result)
      requires asked == 0
      modifies this`asked
      ensures result == Verdict(isProtected, repo, AnswersOf(timeline, schedule))
    {
      hide Authority, RELEASE, Wide, ReadPr, ReadTip, ReadComparison, ReadRuns, ReadChecks, ReadLog, Inspection;
      if !isProtected {
        return Ok;
      }
      var pr := GetPullRequest();
      if pr.Failed? {
        return No(ApprovalError);
      }
      if !pr.value.isOpen {
        return No(PrNotOpen);
      }
      if pr.value.baseRef != RELEASE {
        return Ok;
      }
      var base := GetBranchTip();
      if base.Failed? {
        return No(ApprovalError);
      }
      var comparison := Compare(base.value, pr.value.head);
      if comparison.Failed? || !comparison.value.complete || comparison.value.files.None? || |comparison.value.files.value| >= 300 {
        return No(CompareTruncated);
      }
      var wide := IsWideChange(comparison.value.files.value);
      var newestRevokedAt;
      result, newestRevokedAt := CheckAuthority(pr.value, repo, base.value, wide);
      if result != Ok {
        return;
      }
      result := Inspect(pr.value, repo, base.value, wide);
    }
  }

  lemma GreenRun(runs: seq<GateRun>, pr: Pr)
    requires RunsVerdict(runs, pr) == Ok
    ensures Selected(runs, pr).Some? && Selected(runs, pr).value.success
  {
    hide Selected;
  }

  // ----- What a pass means while the world moves -----

  ghost predicate Forward(sch: Schedule) {
    forall i, j | 0 <= i <= j :: sch(i).instant <= sch(j).instant
  }

  /** The log only grows. */
  ghost predicate AppendOnly(tl: Timeline) {
    (forall i, j | 0 <= i <= j :: tl(i).log <= tl(j).log) && forall i: nat :: LogOk(tl(i).log)
  }

  /** A revocation on the pull request that does not predate the gate run. */
  predicate NotOlder(e: BoardEvent, repo: string, pr: int, green: GateRun) {
    e.Revoked? && e.repo == repo && e.pr == pr && !(green.startedAt.Some? && e.at < green.startedAt.value)
  }

  /** A recheck of an open pull request on the release branch that passed. */
  ghost predicate Passed(repo: string, tl: Timeline, sch: Schedule) {
    var w := AnswersOf(tl, sch);
    Verdict(true, repo, w) == Ok && w.pr.Got? && w.pr.value.baseRef == RELEASE && Passes(repo, w)
  }

  lemma PassedIff(repo: string, tl: Timeline, sch: Schedule)
    ensures var w := AnswersOf(tl, sch);
            Verdict(true, repo, w) == Ok && w.pr.Got? && w.pr.value.baseRef == RELEASE <==> Passed(repo, tl, sch)
  {
    hide AnswersOf, Verdict, Passes;
    PassesIff(repo, AnswersOf(tl, sch));
  }

  /** A pass says, of the instants at which its reads happened: the release branch had the tip it was
      compared at when GitHub was asked for the last time; every question to GitHub came no later than
      the last look at the approval log; the newest gate run of the head is green; and every revocation
      on the pull request committed by that look, so every one committed during the requests to GitHub,
      predates that run. */
  lemma {:induction false} PassMeans(repo: string, tl: Timeline, sch: Schedule)
    requires Forward(sch) && AppendOnly(tl) && Passed(repo, tl, sch)
    ensures var w := AnswersOf(tl, sch); var k := Extra(IsWide(w.comparison));
            var lastGitHub, lastLook := sch(6 + k).instant, sch(7 + k).instant;
            && tl(sch(1).instant).tip == w.base.value == tl(lastGitHub).tip
            && (forall i | 0 <= i <= 6 + k :: sch(i).instant <= lastGitHub)
            && lastGitHub <= lastLook <= sch(8 + k).instant
    ensures var w := AnswersOf(tl, sch); var k := Extra(IsWide(w.comparison));
            var green := Selected(w.runs.value, w.pr.value);
            && w.runs == ReadRuns(tl, sch(4 + k), w.pr.value.head)
            && green.Some? && green.value.success
            && (forall r | r in w.runs.value && Pinned(r, w.pr.value) && r.event == TARGET :: !Newer(r, green.value))
            && forall t, e | 0 <= t <= sch(7 + k).instant && e in tl(t).log :: !NotOlder(e, repo, w.pr.value.number, green.value)
  {
    hide Selected, NewestRevoked, Wide, Authority, Trusted, LogOk, ReadComparison, ReadRuns, ReadChecks, Verdict, ChecksVerdict;
    var w := AnswersOf(tl, sch);
    var k := Extra(IsWide(w.comparison));
    SelectedIsNewest(w.runs.value, w.pr.value);
    GreenRun(w.runs.value, w.pr.value);
    var green := Selected(w.runs.value, w.pr.value).value;
    var log := tl(sch(7 + k).instant).log;
    assert w.log3 == Got(log);
    NoneNotOlder(log, repo, w.pr.value.number, green);
    forall t, e | 0 <= t <= sch(7 + k).instant && e in tl(t).log ensures !NotOlder(e, repo, w.pr.value.number, green) {
      assert tl(t).log <= log;
      assert e in log;
    }
  }

  lemma NoneNotOlder(log: seq<BoardEvent>, repo: string, pr: int, green: GateRun)
    requires GreenAfter(Some(green), NewestRevoked(log, repo, pr))
    ensures forall e | e in log :: !NotOlder(e, repo, pr, green)
  {
    hide NewestRevoked;
    NewestIsNewest(log, repo, pr);
  }

  /** For a wide change the last read of all found the approval of exactly this repository, number, head
      and base on record, and it had not been revoked at any instant up to then. */
  lemma {:induction false} WideWasApproved(repo: string, tl: Timeline, sch: Schedule) returns (e: BoardEvent)
    requires Forward(sch) && AppendOnly(tl) && Passed(repo, tl, sch) && IsWide(AnswersOf(tl, sch).comparison)
    ensures var w := AnswersOf(tl, sch);
            && e in tl(sch(9).instant).log && e.Recorded? && e.target == RELEASE && e.hasConditions
            && e.subject == Subject(repo, w.pr.value.number, w.pr.value.head, w.base.value)
            && forall t | 0 <= t <= sch(9).instant :: !IsRevoked(tl(t).log, e.id)
  {
    hide Selected, NewestRevoked, Wide, Recording, IsRevoked, Trusted, LogOk, ReadComparison, ReadRuns, ReadChecks, Verdict,
         ChecksVerdict, RunsVerdict, HasOtherBase;
    var w := AnswersOf(tl, sch);
    var subject, log := Subject(repo, w.pr.value.number, w.pr.value.head, w.base.value), tl(sch(9).instant).log;
    assert w.log4 == ReadLog(tl, sch(9));
    RecordingFinds(log, subject);
    e := log[Recording(log, subject).value];
    forall t | 0 <= t <= sch(9).instant ensures !IsRevoked(tl(t).log, e.id) {
      RevokedStays(tl(t).log, log, e.id);
    }
  }

  lemma RevokedStays(log: seq<BoardEvent>, later: seq<BoardEvent>, id: nat)
    requires log <= later
    ensures IsRevoked(log, id) ==> IsRevoked(later, id)
  {
    if IsRevoked(log, id) {
      var e :| e in log && e.Revoked? && e.id == id;
      assert e in later;
    }
  }

  /** A revoked approval stays revoked, however the log grows: recording it again changes nothing. */
  lemma {:induction false} RevokedForGood(log: seq<BoardEvent>, more: seq<BoardEvent>, i: nat)
    requires LogOk(log + more) && i < |log| && log[i].Recorded? && IsRevoked(log, log[i].id)
    ensures Approval(log + more, log[i].subject).Deny?
  {
    var all := log + more;
    RecordingFinds(all, log[i].subject);
    assert all[i] == log[i];
    assert Recording(all, log[i].subject) == Some(i);
    var e :| e in log && e.Revoked? && e.id == log[i].id;
    assert e in all;
  }

  // ----- Which revocations a pass can miss -----

  /** A narrow change misses none: what its last read sees all predates the gate run. A wide one misses
      exactly what is committed between its last two reads, and of that never the approval it used. */
  lemma {:induction false} MissedIff(repo: string, tl: Timeline, sch: Schedule)
    requires Forward(sch) && AppendOnly(tl) && Passed(repo, tl, sch)
    ensures var w := AnswersOf(tl, sch); var green := Selected(w.runs.value, w.pr.value).value;
            !IsWide(w.comparison) ==> forall e | e in tl(sch(7).instant).log :: !NotOlder(e, repo, w.pr.value.number, green)
    ensures var w := AnswersOf(tl, sch); var green := Selected(w.runs.value, w.pr.value).value;
            var seen, last := tl(sch(8).instant).log, tl(sch(9).instant).log;
            IsWide(w.comparison) ==>
              && seen <= last
              && ((exists e | e in last :: NotOlder(e, repo, w.pr.value.number, green))
                  <==> exists i | |seen| <= i < |last| :: NotOlder(last[i], repo, w.pr.value.number, green))
  {
    hide AnswersOf, Verdict, Authority, RunsVerdict, ChecksVerdict, GreenAfter, Selected, LogOk, NotOlder, Wide;
    PassMeans(repo, tl, sch);
    var w := AnswersOf(tl, sch);
    var green, n := Selected(w.runs.value, w.pr.value).value, w.pr.value.number;
    if IsWide(w.comparison) {
      var seen, last := tl(sch(8).instant).log, tl(sch(9).instant).log;
      assert seen <= last;
      forall e | e in last && NotOlder(e, repo, n, green) ensures exists i | |seen| <= i < |last| :: NotOlder(last[i], repo, n, green) {
        assert forall j | 0 <= j < |seen| :: seen[j] in seen && last[j] == seen[j];
      }
    }
  }

  /** The world of a wide change whose approval stands, while that of another base is revoked at instant
      9, after the last look at the revocations and before the last read. */
  function QuietTimeline(pr: Pr, green: GateRun, before: seq<BoardEvent>, after: seq<BoardEvent>): Timeline {
    (t: nat) => Moment(pr, "b", map[("b", "h") := Comparison(Some([File(TEST_DIR, "removed", None)]), true)],
                       map["h" := [green]], map["h" := [Check(GATE_NAME, true, green.suite)]], if t < 9 then before else after)
  }

  function OneByOne(): Schedule {
    (i: nat) => Tick(i, false)
  }

  /** Such a revocation is missed, although it is newer than the gate run. */
  lemma LateRevocationIsMissed(repo: string) returns (tl: Timeline, sch: Schedule)
    ensures Forward(sch) && AppendOnly(tl) && Passed(repo, tl, sch)
    ensures var w := AnswersOf(tl, sch);
            && Selected(w.runs.value, w.pr.value).Some?
            && exists e | e in tl(sch(9).instant).log :: NotOlder(e, repo, w.pr.value.number, Selected(w.runs.value, w.pr.value).value)
  {
    hide GATE_PATH, GATE_NAME, TARGET, TEST_DIR, CE_DIR, RELEASE, Approval, NewestRevoked, Selected, Wide, Trusted, LogOk;
    var pr := Pr(true, 7, "h", "f", RELEASE);
    var green := GateRun(GATE_PATH, TARGET, "f", 5, Some(5), 1, true, 9);
    var before := [Recorded(1, Subject(repo, 7, "h", "b"), RELEASE, true), Recorded(2, Subject(repo, 7, "h", "a"), RELEASE, true)];
    var late := Revoked(2, repo, 7, 6);
    var after := before + [late];
    tl, sch := QuietTimeline(pr, green, before, after), OneByOne();
    QuietLogs(repo, before, after);
    QuietGate(pr, green);
    WideRemoval();
    assert AnswersOf(tl, sch) == Answers(Got(pr), Got("b"), Got(Comparison(Some([File(TEST_DIR, "removed", None)]), true)),
        Got(before), Got(before), Got([green]), Got([Check(GATE_NAME, true, green.suite)]), Got("b"), Got(before), Got(after));
    PassedIff(repo, tl, sch);
    PassesIff(repo, AnswersOf(tl, sch));
    assert late in tl(sch(9).instant).log;
  }

  lemma OnlyRun(green: GateRun, pr: Pr)
    requires Pinned(green, pr) && green.event == TARGET
    ensures Selected([green], pr) == Some(green)
  {
    assert [green][..0] == [];
  }

  lemma QuietLogs(repo: string, before: seq<BoardEvent>, after: seq<BoardEvent>)
    requires before == [Recorded(1, Subject(repo, 7, "h", "b"), RELEASE, true), Recorded(2, Subject(repo, 7, "h", "a"), RELEASE, true)]
    requires after == before + [Revoked(2, repo, 7, 6)]
    ensures NewestRevoked(before, repo, 7) == None && before <= after && LogOk(before) && LogOk(after)
    ensures Approval(before, Subject(repo, 7, "h", "b")) == Allow(Subject(repo, 7, "h", "b"), RELEASE)
    ensures Approval(after, Subject(repo, 7, "h", "b")) == Allow(Subject(repo, 7, "h", "b"), RELEASE)
  {
    hide RELEASE;
    NewestIsNewest(before, repo, 7);
    assert after[0] == before[0] && after[1] == before[1];
  }

  lemma QuietGate(pr: Pr, green: GateRun)
    requires Pinned(green, pr) && green.event == TARGET && green.success
    ensures Selected([green], pr) == Some(green) && RunsVerdict([green], pr) == Ok
    ensures ChecksVerdict([green], [Check(GATE_NAME, true, green.suite)], pr) == Ok
  {
    hide GATE_PATH, GATE_NAME, TARGET;
    OnlyRun(green, pr);
    assert green in [green] && Trusted([green], green.suite);
    assert Check(GATE_NAME, true, green.suite) in [Check(GATE_NAME, true, green.suite)];
  }

  lemma WideRemoval()
    ensures Wide([File(TEST_DIR, "removed", None)])
  {
    var files := [File(TEST_DIR, "removed", None)];
    assert files[0] in files && LeavesZone(files[0]);
  }
}
