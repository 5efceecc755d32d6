/** The staged authorization of `packages/overseer/src/action-policy.ts`: gates evaluated in a fixed
    order, each dependency read only when its gate is reached, every decision audited. */
module ActionPolicy {
  import opened Outcomes

  datatype Capability = Escalation | Repair | Branch | Lifecycle | Merging

  datatype Kind =
    | MERGE | CLOSE | REOPEN | REFRESH | REBASE | PUSH | RETARGET | REPAIR | REFIRE | COMMENT | LABEL | ASSIGN
    | REVIEW | STAGING_MUTATION | PRODUCTION_MUTATION | DEPLOY

  /** A value that should be a boolean: exactly `true`, exactly `false`, or anything else. */
  datatype Flag = True | False | Other

  /** `Date.parse`, none for NaN. */
  type Instant = Option<int>

  /** `flags` is none when the object is missing, which makes its lookup throw. */
  datatype Policy = Policy(serviceEnabled: Flag, emergencyStop: Flag, legacyDryRun: Flag, flags: Option<map<Capability, Flag>>)

  datatype State = State(capability: Capability, actionEnabled: Flag, circuit: string, policyDigest: string, registryDigest: string)

  /** What a permit and a proposal must agree on. */
  datatype Binding = Binding(proposalId: string, executionId: string, repository: string, prNumber: int, headSha: string,
                             baseBranch: string, baseSha: string, snapshotId: string, kind: Kind, capability: string)

  datatype Proposal = Proposal(bound: Binding, policyDigest: string, registryDigest: string)

  datatype Permit = Permit(bound: Binding, validUntil: Instant)

  datatype Reason =
    | ServiceDisabled | EmergencyStop | LegacyDryRun | FlagDisabled
    | StateMissing | StateDisabled | CircuitOpen
    | ProposalMissing | ProposalIdMismatch | ExecutionIdMismatch | RepositoryMismatch | PrNumberMismatch | HeadShaMismatch
    | BaseBranchMismatch | BaseShaMismatch | SnapshotIdMismatch | KindMismatch | ProposalCapabilityMismatch
    | UnsupportedKind | CoarseCapabilityMismatch | PolicyDigestMalformed | RegistryDigestMalformed
    | ExpiryInvalid | Expired | PolicyDigestMismatch | RegistryMismatch
    | PolicyReadFailed | StateReadFailed | ProposalReadFailed | ClockReadFailed | EvaluationFailed | AuditFailed

  datatype Decision = Allowed(capability: Capability, bound: Binding, validUntil: Instant, policyDigest: string, registryDigest: string)
                    | Denied(capability: Capability, reason: Reason)

  datatype Stage = StateStage | ProposalStage | ClockStage

  datatype Staged = Decided(decision: Decision) | Required(stage: Stage) | Threw

  datatype Available = Available(state: bool, proposal: bool, clock: bool)

  datatype Input = Input(policy: Policy, capability: Capability, permit: Permit, state: Option<State>,
                         proposal: Option<Proposal>, now: Instant)

  function CoarseCapability(kind: Kind): Option<Capability> {
    match kind
    case MERGE => Some(Merging)
    case REPAIR => Some(Repair)
    case REFIRE => Some(Repair)
    case REFRESH => Some(Branch)
    case REBASE => Some(Branch)
    case PUSH => Some(Branch)
    case RETARGET => Some(Branch)
    case STAGING_MUTATION => Some(Escalation)
    case PRODUCTION_MUTATION => None
    case DEPLOY => None
    case _ => Some(Lifecycle)
  }

  function LowerCase(kind: Kind): string {
    match kind
    case MERGE => "merge"
    case CLOSE => "close"
    case REOPEN => "reopen"
    case REFRESH => "refresh"
    case REBASE => "rebase"
    case PUSH => "push"
    case RETARGET => "retarget"
    case REPAIR => "repair"
    case REFIRE => "refire"
    case COMMENT => "comment"
    case LABEL => "label"
    case ASSIGN => "assign"
    case REVIEW => "review"
    case STAGING_MUTATION => "staging_mutation"
    case PRODUCTION_MUTATION => "production_mutation"
    case DEPLOY => "deploy"
  }

  /** `/^[0-9a-f]{64}$/` */
  predicate IsDigest(s: string) {
    |s| == 64 && forall c | c in s :: '0' <= c <= '9' || 'a' <= c <= 'f'
  }

  /** `evaluateStagedActionPolicy` */
  function EvaluateStaged(i: Input, available: Available): Staged {
    var deny := (r: Reason) => Decided(Denied(i.capability, r));
    if i.policy.serviceEnabled != True then deny(ServiceDisabled)
    else if i.policy.emergencyStop != False then deny(EmergencyStop)
    else if i.policy.legacyDryRun != False then deny(LegacyDryRun)
    else if i.policy.flags.None? then Threw
    else if i.capability !in i.policy.flags.value || i.policy.flags.value[i.capability] != True then deny(FlagDisabled)
    else if !available.state then Required(StateStage)
    else if i.state.None? || i.state.value.capability != i.capability then deny(StateMissing)
    else if i.state.value.actionEnabled != True then deny(StateDisabled)
    else if i.state.value.circuit != "closed" then deny(CircuitOpen)
    else if !available.proposal then Required(ProposalStage)
    else if i.proposal.None? then deny(ProposalMissing)
    else
      var p, m := i.proposal.value.bound, i.permit.bound;
      if m.proposalId != p.proposalId then deny(ProposalIdMismatch)
      else if m.executionId != p.executionId then deny(ExecutionIdMismatch)
      else if m.repository != p.repository then deny(RepositoryMismatch)
      else if m.prNumber != p.prNumber then deny(PrNumberMismatch)
      else if m.headSha != p.headSha then deny(HeadShaMismatch)
      else if m.baseBranch != p.baseBranch then deny(BaseBranchMismatch)
      else if m.baseSha != p.baseSha then deny(BaseShaMismatch)
      else if m.snapshotId != p.snapshotId then deny(SnapshotIdMismatch)
      else if m.kind != p.kind then deny(KindMismatch)
      else if m.capability != p.capability then deny(ProposalCapabilityMismatch)
      else if CoarseCapability(p.kind).None? then deny(UnsupportedKind)
      else if CoarseCapability(p.kind).value != i.capability then deny(CoarseCapabilityMismatch)
      else if p.capability != "overseer.m31." + LowerCase(p.kind) then deny(ProposalCapabilityMismatch)
      else if !IsDigest(i.proposal.value.policyDigest) then deny(PolicyDigestMalformed)
      else if !IsDigest(i.proposal.value.registryDigest) then deny(RegistryDigestMalformed)
      else if !available.clock then Required(ClockStage)
      else if i.now.None? || i.permit.validUntil.None? then deny(ExpiryInvalid)
      else if i.now.value > i.permit.validUntil.value then deny(Expired)
      else if i.state.value.policyDigest != i.proposal.value.policyDigest then deny(PolicyDigestMismatch)
      else if i.state.value.registryDigest != i.proposal.value.registryDigest then deny(RegistryMismatch)
      else Decided(Allowed(i.capability, p, i.permit.validUntil, i.proposal.value.policyDigest, i.proposal.value.registryDigest))
  }

  const ALL := Available(true, true, true)

  /** `evaluateActionPolicy` */
  function Evaluate(i: Input): Staged {
    EvaluateStaged(i, ALL)
  }

  // ----- The gates, one predicate per dependency -----

  predicate PolicyOpen(policy: Policy, c: Capability) {
    && policy.serviceEnabled == True && policy.emergencyStop == False && policy.legacyDryRun == False
    && policy.flags.Some? && c in policy.flags.value && policy.flags.value[c] == True
  }

  predicate StateOpen(state: Option<State>, c: Capability) {
    state.Some? && state.value.capability == c && state.value.actionEnabled == True && state.value.circuit == "closed"
  }

  predicate ProposalOpen(proposal: Option<Proposal>, permit: Permit, c: Capability) {
    && proposal.Some? && permit.bound == proposal.value.bound
    && CoarseCapability(permit.bound.kind) == Some(c)
    && permit.bound.capability == "overseer.m31." + LowerCase(permit.bound.kind)
    && IsDigest(proposal.value.policyDigest) && IsDigest(proposal.value.registryDigest)
  }

  predicate TimeOpen(now: Instant, permit: Permit, state: Option<State>, proposal: Option<Proposal>) {
    && now.Some? && permit.validUntil.Some? && now.value <= permit.validUntil.value
    && state.Some? && proposal.Some?
    && state.value.policyDigest == proposal.value.policyDigest
    && state.value.registryDigest == proposal.value.registryDigest
  }

  /** What the evaluator decides is a matter of these gates alone, and names what the permit bound. */
  lemma StagedMeans(i: Input, available: Available)
    ensures EvaluateStaged(i, available) == Required(StateStage)
       <==> PolicyOpen(i.policy, i.capability) && !available.state
    ensures EvaluateStaged(i, available) == Required(ProposalStage)
       <==> PolicyOpen(i.policy, i.capability) && available.state && StateOpen(i.state, i.capability) && !available.proposal
    ensures EvaluateStaged(i, available) == Required(ClockStage)
       <==> PolicyOpen(i.policy, i.capability) && available.state && StateOpen(i.state, i.capability) && available.proposal
            && ProposalOpen(i.proposal, i.permit, i.capability) && !available.clock
    ensures EvaluateStaged(i, available).Decided? && EvaluateStaged(i, available).decision.Allowed?
       <==> PolicyOpen(i.policy, i.capability) && available.state && StateOpen(i.state, i.capability) && available.proposal
            && ProposalOpen(i.proposal, i.permit, i.capability) && available.clock && TimeOpen(i.now, i.permit, i.state, i.proposal)
    ensures EvaluateStaged(i, available).Decided? && EvaluateStaged(i, available).decision.Allowed? ==>
              EvaluateStaged(i, available).decision.bound == i.permit.bound
    ensures EvaluateStaged(i, available).Decided? ==> EvaluateStaged(i, available).decision.capability == i.capability
  {
    hide IsDigest, LowerCase, CoarseCapability;
  }

  /** What a reason of the evaluator claims about its inputs. */
  predicate Claims(r: Reason, i: Input) {
    match r
    case ServiceDisabled => i.policy.serviceEnabled != True
    case EmergencyStop => i.policy.emergencyStop != False
    case LegacyDryRun => i.policy.legacyDryRun != False
    case FlagDisabled => i.policy.flags.Some? && !(i.capability in i.policy.flags.value && i.policy.flags.value[i.capability] == True)
    case StateMissing => i.state.None? || i.state.value.capability != i.capability
    case StateDisabled => i.state.Some? && i.state.value.actionEnabled != True
    case CircuitOpen => i.state.Some? && i.state.value.circuit != "closed"
    case ProposalMissing => i.proposal.None?
    case ExpiryInvalid => i.now.None? || i.permit.validUntil.None?
    case Expired => i.now.Some? && i.permit.validUntil.Some? && i.permit.validUntil.value < i.now.value
    case PolicyDigestMismatch => i.state.Some? && i.proposal.Some? && i.state.value.policyDigest != i.proposal.value.policyDigest
    case RegistryMismatch => i.state.Some? && i.proposal.Some? && i.state.value.registryDigest != i.proposal.value.registryDigest
    case _ => i.proposal.Some? && ClaimsOfProposal(r, i.permit.bound, i.proposal.value, i.capability)
  }

  predicate ClaimsOfProposal(r: Reason, m: Binding, p: Proposal, c: Capability) {
    match r
    case ProposalIdMismatch => m.proposalId != p.bound.proposalId
    case ExecutionIdMismatch => m.executionId != p.bound.executionId
    case RepositoryMismatch => m.repository != p.bound.repository
    case PrNumberMismatch => m.prNumber != p.bound.prNumber
    case HeadShaMismatch => m.headSha != p.bound.headSha
    case BaseBranchMismatch => m.baseBranch != p.bound.baseBranch
    case BaseShaMismatch => m.baseSha != p.bound.baseSha
    case SnapshotIdMismatch => m.snapshotId != p.bound.snapshotId
    case KindMismatch => m.kind != p.bound.kind
    case ProposalCapabilityMismatch => m.capability != p.bound.capability || p.bound.capability != "overseer.m31." + LowerCase(p.bound.kind)
    case UnsupportedKind => CoarseCapability(p.bound.kind).None?
    case CoarseCapabilityMismatch => CoarseCapability(p.bound.kind).Some? && CoarseCapability(p.bound.kind) != Some(c)
    case PolicyDigestMalformed => !IsDigest(p.policyDigest)
    case RegistryDigestMalformed => !IsDigest(p.registryDigest)
    case _ => false
  }

  /** A denial gives a reason that is true of the inputs. */
  lemma DenialsAreTrue(i: Input, available: Available)
    ensures var e := EvaluateStaged(i, available);
            e.Decided? && e.decision.Denied? ==> e.decision.capability == i.capability && Claims(e.decision.reason, i)
  {
    hide IsDigest, LowerCase, CoarseCapability;
  }

  /** And an allowed action has none against it. */
  lemma AllowedHasNoReason(i: Input, available: Available, r: Reason)
    ensures var e := EvaluateStaged(i, available); e.Decided? && e.decision.Allowed? ==> !Claims(r, i)
  {
    hide IsDigest, LowerCase, CoarseCapability, EvaluateStaged;
    StagedMeans(i, available);
  }

  /** Once it decides, reading more changes nothing; and what is not available is not looked at. */
  lemma DecisionIsFinal(i: Input, available: Available, state: Option<State>, proposal: Option<Proposal>, now: Instant)
    requires !EvaluateStaged(i, available).Required?
    ensures var full := i.(state := if available.state then i.state else state,
                           proposal := if available.proposal then i.proposal else proposal,
                           now := if available.clock then i.now else now);
            Evaluate(full) == EvaluateStaged(i, available)
  {
    hide IsDigest, LowerCase, CoarseCapability;
  }

  // ----- The same, on the values themselves -----

  /** Which kinds of action each capability covers. */
  const COVERED := map[
    Merging := {MERGE},
    Repair := {REPAIR, REFIRE},
    Branch := {REFRESH, REBASE, PUSH, RETARGET},
    Lifecycle := {CLOSE, REOPEN, COMMENT, LABEL, ASSIGN, REVIEW},
    Escalation := {STAGING_MUTATION}
  ]

  lemma CoveredIs(kind: Kind, c: Capability)
    ensures CoarseCapability(kind) == Some(c) <==> c in COVERED && kind in COVERED[c]
    ensures CoarseCapability(kind).None? <==> kind == PRODUCTION_MUTATION || kind == DEPLOY
  {
  }

  /** The letters of a kind's name in lower case. */
  lemma NamesAre(kind: Kind)
    ensures var name := LowerCase(kind); (kind, name) in {
              (MERGE, "merge"), (CLOSE, "close"), (REOPEN, "reopen"), (REFRESH, "refresh"), (REBASE, "rebase"), (PUSH, "push"),
              (RETARGET, "retarget"), (REPAIR, "repair"), (REFIRE, "refire"), (COMMENT, "comment"), (LABEL, "label"), (ASSIGN, "assign"),
              (REVIEW, "review"), (STAGING_MUTATION, "staging_mutation"), (PRODUCTION_MUTATION, "production_mutation"), (DEPLOY, "deploy")}
  {
  }

  predicate IsHex64(s: string) {
    |s| == 64 && forall i | 0 <= i < 64 :: '0' <= s[i] <= '9' || 'a' <= s[i] <= 'f'
  }

  lemma DigestIff(s: string)
    ensures IsDigest(s) <==> IsHex64(s)
  {
    assert forall i | 0 <= i < |s| :: s[i] in s;
  }

  /** An action is allowed exactly if the service runs, nothing stops it, its flag is set, its capability is
      enabled and its circuit closed, the stored proposal is just what the permit binds, its kind is one
      the capability covers and is named in full, both digests are well formed and those of the state, and
      the permit has not expired. */
  lemma {:induction false} AllowedExactly(i: Input)
    ensures Evaluate(i).Decided? && Evaluate(i).decision.Allowed?
       <==> && i.policy.serviceEnabled == True && i.policy.emergencyStop == False && i.policy.legacyDryRun == False
            && i.policy.flags.Some? && i.capability in i.policy.flags.value && i.policy.flags.value[i.capability] == True
            && i.state.Some? && i.state.value.capability == i.capability && i.state.value.actionEnabled == True
            && i.state.value.circuit == "closed"
            && i.proposal.Some? && i.proposal.value.bound == i.permit.bound
            && i.capability in COVERED && i.permit.bound.kind in COVERED[i.capability]
            && i.permit.bound.capability == "overseer.m31." + LowerCase(i.permit.bound.kind)
            && IsHex64(i.proposal.value.policyDigest) && i.state.value.policyDigest == i.proposal.value.policyDigest
            && IsHex64(i.proposal.value.registryDigest) && i.state.value.registryDigest == i.proposal.value.registryDigest
            && i.now.Some? && i.permit.validUntil.Some? && i.now.value <= i.permit.validUntil.value
  {
    hide EvaluateStaged, IsDigest, IsHex64, LowerCase, CoarseCapability, COVERED;
    StagedMeans(i, ALL);
    CoveredIs(i.permit.bound.kind, i.capability);
    if i.proposal.Some? {
      DigestIff(i.proposal.value.policyDigest);
      DigestIff(i.proposal.value.registryDigest);
    }
  }

  /** The order in which the reasons are looked for. */
  function RankOf(r: Reason): nat {
    match r
    case ServiceDisabled => 0
    case EmergencyStop => 1
    case LegacyDryRun => 2
    case FlagDisabled => 3
    case StateMissing => 4
    case StateDisabled => 5
    case CircuitOpen => 6
    case ProposalMissing => 7
    case ProposalIdMismatch => 8
    case ExecutionIdMismatch => 9
    case RepositoryMismatch => 10
    case PrNumberMismatch => 11
    case HeadShaMismatch => 12
    case BaseBranchMismatch => 13
    case BaseShaMismatch => 14
    case SnapshotIdMismatch => 15
    case KindMismatch => 16
    case ProposalCapabilityMismatch => 17
    case UnsupportedKind => 18
    case CoarseCapabilityMismatch => 19
    case PolicyDigestMalformed => 21
    case RegistryDigestMalformed => 22
    case ExpiryInvalid => 23
    case Expired => 24
    case PolicyDigestMismatch => 25
    case _ => 26
  }

  /** A capability's name is looked at twice: against the proposal's, and later against the kind's. */
  function RankIn(r: Reason, i: Input): nat {
    if r == ProposalCapabilityMismatch && i.proposal.Some? && i.permit.bound.capability == i.proposal.value.bound.capability then 20
    else RankOf(r)
  }

  /** A denial gives the first reason that is true. */
  lemma {:induction false} FirstTrueReason(i: Input, r: Reason)
    requires Evaluate(i).Decided? && Evaluate(i).decision.Denied? && Claims(r, i)
    ensures Claims(Evaluate(i).decision.reason, i) && RankIn(Evaluate(i).decision.reason, i) <= RankIn(r, i)
  {
    DenialsAreTrue(i, ALL);
    hide IsDigest, LowerCase, CoarseCapability;
  }

  // ----- The lazy loop -----

  /** What the dependencies answer when they are asked. */
  datatype Deps = Deps(policy: Read<Policy>, state: Read<Option<State>>, proposal: Read<Option<Proposal>>,
                       now: Read<Instant>, firstAppend: bool, secondAppend: bool)

  /** An event in the audit log: the identity is the permit's, or detached. */
  datatype Event = Event(capability: Capability, allowed: bool, reason: Option<Reason>, attached: bool)

  datatype Result = Result(decision: Decision, auditRecorded: bool)

  /** The decision a run must reach: the first gate, in order, that cannot be read or does not hold. */
  function Outcome(c: Capability, permit: Permit, deps: Deps): Decision {
    if deps.policy.Failed? then Denied(c, PolicyReadFailed)
    else
      var policy := deps.policy.value;
      var input := Input(policy, c, permit,
                         if deps.state.Got? then deps.state.value else None,
                         if deps.proposal.Got? then deps.proposal.value else None,
                         if deps.now.Got? then deps.now.value else None);
      if PolicyOpen(policy, c) && deps.state.Failed? then Denied(c, StateReadFailed)
      else if PolicyOpen(policy, c) && StateOpen(input.state, c) && deps.proposal.Failed? then Denied(c, ProposalReadFailed)
      else if PolicyOpen(policy, c) && StateOpen(input.state, c) && ProposalOpen(input.proposal, permit, c) && deps.now.Failed?
      then Denied(c, ClockReadFailed)
      else if Evaluate(input).Decided? then Evaluate(input).decision
      else Denied(c, EvaluationFailed)
  }

  /** The dependencies a run may ask, each only behind the gates before it. */
  function Reads(c: Capability, permit: Permit, deps: Deps): seq<Stage> {
    if deps.policy.Failed? || !PolicyOpen(deps.policy.value, c) then []
    else if deps.state.Failed? || !StateOpen(deps.state.value, c) then [StateStage]
    else if deps.proposal.Failed? || !ProposalOpen(deps.proposal.value, permit, c) then [StateStage, ProposalStage]
    else [StateStage, ProposalStage, ClockStage]
  }

  /** A failed read is denied by name, exactly if the gates before it held; and so is an evaluation that
      throws, which takes a policy without flags. */
  lemma {:induction false} ReadFailures(c: Capability, permit: Permit, deps: Deps)
    ensures var d := Outcome(c, permit, deps); var reason := if d.Denied? then Some(d.reason) else None;
            var pOpen := deps.policy.Got? && PolicyOpen(deps.policy.value, c);
            var sOpen := pOpen && deps.state.Got? && StateOpen(deps.state.value, c);
            && (reason == Some(PolicyReadFailed) <==> deps.policy.Failed?)
            && (reason == Some(StateReadFailed) <==> pOpen && deps.state.Failed?)
            && (reason == Some(ProposalReadFailed) <==> sOpen && deps.proposal.Failed?)
            && (reason == Some(ClockReadFailed) <==>
                  sOpen && deps.proposal.Got? && ProposalOpen(deps.proposal.value, permit, c) && deps.now.Failed?)
            && (reason == Some(EvaluationFailed) <==>
                  deps.policy.Got? && deps.policy.value.serviceEnabled == True && deps.policy.value.emergencyStop == False
                  && deps.policy.value.legacyDryRun == False && deps.policy.value.flags.None?)
  {
    hide IsDigest, LowerCase, CoarseCapability;
    if deps.policy.Got? {
      var input := Input(deps.policy.value, c, permit,
                         if deps.state.Got? then deps.state.value else None,
                         if deps.proposal.Got? then deps.proposal.value else None,
                         if deps.now.Got? then deps.now.value else None);
      NoReadReason(input);
    }
  }

  lemma NoReadReason(i: Input)
    ensures !Evaluate(i).Required?
    ensures Evaluate(i).Decided? && Evaluate(i).decision.Denied? ==>
              Evaluate(i).decision.reason !in {PolicyReadFailed, StateReadFailed, ProposalReadFailed, ClockReadFailed, EvaluationFailed, AuditFailed}
    ensures Evaluate(i) == Threw <==> i.policy.serviceEnabled == True && i.policy.emergencyStop == False
                                      && i.policy.legacyDryRun == False && i.policy.flags.None?
  {
    hide IsDigest, LowerCase, CoarseCapability;
  }

  /** The state, the proposal and the clock are asked for at most once, in that order, and each exactly if the
      gates before it held. */
  lemma ReadsMean(c: Capability, permit: Permit, deps: Deps)
    ensures Reads(c, permit, deps) <= [StateStage, ProposalStage, ClockStage]
    ensures var n := |Reads(c, permit, deps)|;
            && (n >= 1 <==> deps.policy.Got? && PolicyOpen(deps.policy.value, c))
            && (n >= 2 <==> n >= 1 && deps.state.Got? && StateOpen(deps.state.value, c))
            && (n == 3 <==> n >= 2 && deps.proposal.Got? && ProposalOpen(deps.proposal.value, permit, c))
  {
  }

  /** `recordDecision`: the decision is audited first; if that fails, it becomes a denial. */
  method RecordDecision(c: Capability, decision: Decision, deps: Deps) returns (result: Result, log: seq<Event>)
    requires decision.capability == c
    ensures deps.firstAppend ==>
              result == Result(decision, true)
              && log == [Event(c, decision.Allowed?, if decision.Denied? then Some(decision.reason) else None, true)]
    ensures !deps.firstAppend ==>
              result == Result(Denied(c, AuditFailed), deps.secondAppend)
              && log == if deps.secondAppend then [Event(c, false, Some(AuditFailed), false)] else []
  {
    log := [];
    if deps.firstAppend {
      log := log + [Event(c, decision.Allowed?, if decision.Denied? then Some(decision.reason) else None, true)];
      return Result(decision, true), log;
    }
    var auditFailure := Denied(c, AuditFailed);
    if deps.secondAppend {
      log := log + [Event(c, false, Some(AuditFailed), false)];
      return Result(auditFailure, true), log;
    }
    result := Result(auditFailure, false);
  }

  /** `authorizeOverseerAction` up to its audit: a loop that reads what the evaluator asks for. */
  method Decide(c: Capability, permit: Permit, deps: Deps) returns (decision: Decision, asked: seq<Stage>)
    ensures decision == Outcome(c, permit, deps)
    ensures asked == Reads(c, permit, deps)
  {
    hide EvaluateStaged, PolicyOpen, StateOpen, ProposalOpen, TimeOpen;
    asked := [];
    if deps.policy.Failed? {
      return Denied(c, PolicyReadFailed), asked;
    }
    var input, available := Input(deps.policy.value, c, permit, None, None, None), Available(false, false, false);
    while true
      invariant (available.state ==> deps.state.Got?) && (available.proposal ==> deps.proposal.Got?)
                && (available.clock ==> deps.now.Got?)
      invariant input == Input(deps.policy.value, c, permit,
                               if available.state then deps.state.value else None,
                               if available.proposal then deps.proposal.value else None,
                               if available.clock then deps.now.value else None)
      invariant available.clock ==> available.proposal && ProposalOpen(input.proposal, permit, c)
      invariant available.proposal ==> available.state && StateOpen(input.state, c)
      invariant available.state ==> PolicyOpen(deps.policy.value, c)
      invariant asked == if available.clock then [StateStage, ProposalStage, ClockStage]
                         else if available.proposal then [StateStage, ProposalStage]
                         else if available.state then [StateStage] else []
      decreases !available.state, !available.proposal, !available.clock
    {
      StagedMeans(input, available);
      var staged := EvaluateStaged(input, available);
      if !staged.Required? {
        DecisionIsFinal(input, available,
                        if deps.state.Got? then deps.state.value else None,
                        if deps.proposal.Got? then deps.proposal.value else None,
                        if deps.now.Got? then deps.now.value else None);
        decision := if staged.Decided? then staged.decision else Denied(c, EvaluationFailed);
        return;
      }
      match staged.stage {
        case StateStage =>
          asked := asked + [StateStage];
          if deps.state.Failed? {
            return Denied(c, StateReadFailed), asked;
          }
          input, available := input.(state := deps.state.value), available.(state := true);
        case ProposalStage =>
          asked := asked + [ProposalStage];
          if deps.proposal.Failed? {
            return Denied(c, ProposalReadFailed), asked;
          }
          input, available := input.(proposal := deps.proposal.value), available.(proposal := true);
        case ClockStage =>
          asked := asked + [ClockStage];
          if deps.now.Failed? {
            return Denied(c, ClockReadFailed), asked;
          }
          input, available := input.(now := deps.now.value), available.(clock := true);
      }
    }
  }

  /** `authorizeOverseerAction`: allowed exactly when every gate was read and held and the allowing
      event was appended. */
  method Authorize(c: Capability, permit: Permit, deps: Deps) returns (result: Result, asked: seq<Stage>, log: seq<Event>)
    ensures result.decision.Allowed?
       <==> && deps.policy.Got? && PolicyOpen(deps.policy.value, c)
            && deps.state.Got? && StateOpen(deps.state.value, c)
            && deps.proposal.Got? && ProposalOpen(deps.proposal.value, permit, c)
            && deps.now.Got? && TimeOpen(deps.now.value, permit, deps.state.value, deps.proposal.value)
            && deps.firstAppend
    ensures result.decision.Allowed? ==> log == [Event(c, true, None, true)] && result.decision.bound == permit.bound
    ensures result.auditRecorded <==> |log| == 1
    ensures forall e | e in log :: e.allowed == result.decision.Allowed? && e.capability == c
    ensures deps.firstAppend ==> result.decision == Outcome(c, permit, deps)
    ensures asked == Reads(c, permit, deps)
  {
    hide PolicyOpen, StateOpen, ProposalOpen, TimeOpen, EvaluateStaged, Evaluate;
    var decision;
    decision, asked := Decide(c, permit, deps);
    OutcomeMeans(c, permit, deps);
    result, log := RecordDecision(c, decision, deps);
  }

  lemma OutcomeMeans(c: Capability, permit: Permit, deps: Deps)
    ensures Outcome(c, permit, deps).capability == c
    ensures Outcome(c, permit, deps).Allowed? ==> Outcome(c, permit, deps).bound == permit.bound
    ensures Outcome(c, permit, deps).Allowed?
       <==> && deps.policy.Got? && PolicyOpen(deps.policy.value, c)
            && deps.state.Got? && StateOpen(deps.state.value, c)
            && deps.proposal.Got? && ProposalOpen(deps.proposal.value, permit, c)
            && deps.now.Got? && TimeOpen(deps.now.value, permit, deps.state.value, deps.proposal.value)
  {
    hide PolicyOpen, StateOpen, ProposalOpen, EvaluateStaged;
    if deps.policy.Got? {
      StagedMeans(Input(deps.policy.value, c, permit,
                        if deps.state.Got? then deps.state.value else None,
                        if deps.proposal.Got? then deps.proposal.value else None,
                        if deps.now.Got? then deps.now.value else None), ALL);
      assert StateOpen(None, c) == false && ProposalOpen(None, permit, c) == false by { ClosedWithout(permit, c); }
    }
  }

  lemma ClosedWithout(permit: Permit, c: Capability)
    ensures !StateOpen(None, c) && !ProposalOpen(None, permit, c)
  {
  }

  /** When every read succeeds, the lazy loop decides as the eager evaluator on the same values. */
  lemma LazyIsEager(c: Capability, permit: Permit, deps: Deps)
    requires deps.policy.Got? && deps.state.Got? && deps.proposal.Got? && deps.now.Got?
    ensures var e := Evaluate(Input(deps.policy.value, c, permit, deps.state.value, deps.proposal.value, deps.now.value));
            !e.Required? && Outcome(c, permit, deps) == if e.Decided? then e.decision else Denied(c, EvaluationFailed)
  {
    hide PolicyOpen, StateOpen, ProposalOpen, EvaluateStaged;
    EagerDecides(Input(deps.policy.value, c, permit, deps.state.value, deps.proposal.value, deps.now.value));
  }

  lemma EagerDecides(i: Input)
    ensures !Evaluate(i).Required?
  {
  }
}
