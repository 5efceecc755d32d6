# Verified models of the build harness

A Dafny model of the parts of the repository whose guarantees hold over every input or every
interleaving, with proofs of those guarantees. `dafny verify dfyconfig.toml` verifies the whole
project. Each file is one module, named after what it models.

| files | component |
|---|---|
| `PyText`, `QuoteFix`, `QuoteFixLine`, `QuoteFixBlock`, `QuoteFixFile`, `QuoteFixTwice`, `QuoteFixScripts`, `QuoteFixPatterns`, `QuoteFixHoist` | the quote-fix sweep of workflow files and the cleanup that undoes it |
| `Lexical`, `Utf16`, `JsonReader`, `CanonicalJson`, `JsonPrint` | text order, a reader of JSON texts, and canonical JSON of the activation package |
| `Utf8`, `BrokerCapture` | the byte-bounded output capture of the review broker |
| `CanaryPublication` | concurrent write-once publication of canary artifacts |
| `Delivery` | crash-recoverable delivery of operator cards, over its lease and receipt store |
| `ActionPolicy` | staged authorization of overseer actions |
| `LatestReview`, `MergeReadiness`, `MergeDecision` | the merge-readiness decision |
| `CeRecheck`, `CeRecheckMeaning` | the pre-merge scope recheck against a moving world |
| `SessionAdmissions` | session admissions, eviction and sweeps of the companion server |
| `HealthAlerts` | alert deduplication of the n8n health suite |
| `WorkerLog`, `InstanceLock`, `ActiveAgents` | the dispatch worker's log rotation, PID lock and per-agent concurrency |
| `BundledText` | text normalization of the bundled defaults |
| `IsolationResolver` | reuse, adoption and creation of isolated worktrees |

Pure code is modelled by functions, code that works step by step by methods and classes proved
against those functions. Protocols are state machines: a system state, the events that may happen
between two awaits, a `Next` function, and lemmas over every sequence of events. An event stands for
one synchronous stretch of the JavaScript event loop, one SQL transaction, or one file-system call.

## Where the code does not do what its documentation or tests suggest

The members in brackets show the failure and prove the exact condition under which the code does meet
the property.

- The cleanup is described as the reverse of the sweep. It is, exactly on the files whose blocks all
  satisfy `RoundTrips`; not, for one, on a reference with a field, or directly followed by
  `[A-Z0-9_]` (`FileRoundTrip`).
- The canonical JSON text loses an own key named `__proto__` (`ProtoIsLost`, `CanonicalText`).
- The trim of the broker's output does not keep replacement characters away from arbitrary bytes
  (`StrayContinuationStays`, `TrimValidIff`).
- A partial canary publication whose writer died is final: every later writer is refused
  (`CanBeAbandoned`, `AbandonedForever`, `FinalIff`).
- A crash while a retired delivery channel is being closed leaves its job leased for ever
  (`RetirementCanGetStuck`, `StuckForever`, `RetiresIff`).
- A failed check whose name contains "queued" or "in_progress" counts as pending
  (`FailedCanCountAsPending`, `RedIff`).
- A scope recheck of a wide change does not see a revocation of another approval that falls between
  its last two reads (`LateRevocationIsMissed`, `MissedIff`).
- A close that fails during an idle sweep leaks the sessions behind it (`SweepCanLeak`, `LeaksIff`); and
  the server of a session whose transport fails to close stays open (`LeftBehindIff`).
- A health notice whose state cannot be written is repeated (`RepeatsIff`, `RecoveryRepeatsIff`). One
  that cannot be sent is recorded as sent all the same, so its failure goes unreported until the
  interval has passed (`NobodyTold`, `ToldIff`).
- The bundled-text normalization is not idempotent on CR CR LF (`IdempotentIff`).
- A dead worker's lock blocks a start once another process has its pid (`ReusedPidBlocks`,
  `BlockedIff`); and a worker that has the dead one's pid itself takes the lock over without a line in
  the death log (`SamePidLeavesNoLine`, `FatesMean`).
- With `maxFiles` 0, which no caller in the repository passes, the log still keeps one rotated file
  (`ZeroKeepsOne`). The branch that removes a file is never taken, for any `maxFiles`
  (`RotateIfNeeded`).
- A worktree the provider merely found on disk is destroyed if it cannot be recorded (`CreateNew`). And
  an existing environment named by the conversation is returned without asking whose worktree it is
  (`ExistingIff`).

## Model

| member | source | states |
|---|---|---|
| PyText.SplitLinesShape | scripts/wo154-quote-fix-sweep.py:67-67 | `splitlines(keepends=True)` cuts a text into lines that each end at a line break, the last one possibly without, and joining them gives the text back |
| PyText.SplitJoin | scripts/wo154-quote-fix-sweep.py:190-190 | lines of that shape are what splitting their joined text gives: splitting and joining are inverse both ways |
| QuoteFixPatterns.SpacesAre | scripts/wo154-quote-fix-sweep.py:67-67 | white space and line ends are these characters |
| QuoteFixPatterns.MatchRefIff | scripts/wo154-quote-fix-sweep.py:47-47 | a reference is matched at a place exactly if the text there starts with `$`, a node id, `.output` and a field, and the field taken is the longest |
| QuoteFixPatterns.RefsAre | scripts/wo154-quote-fix-sweep.py:115-115 | references never overlap: `findall` finds one at every place where the pattern matches |
| QuoteFixPatterns.NamedAfter | scripts/wo154-quote-fix-sweep.py:50-58 | the variable is the node id, `_OUTPUT` and the field, letter by letter in upper case, with underscores for hyphens and dots |
| QuoteFixPatterns.MatchUseIff | scripts/wo159-quote-fix-cleanup.py:132-135 | a use is matched at a place exactly if `${VAR}` stands there, or `$VAR` with no `[A-Z0-9_]` behind it |
| QuoteFixPatterns.SetLineIff | scripts/wo154-quote-fix-sweep.py:161-161 | white space, `set`, white space, a hyphen and a small letter |
| QuoteFixPatterns.BashKeyIff | scripts/wo154-quote-fix-sweep.py:70-74 | white space, which is the indentation, `bash:`, white space and a bar |
| QuoteFixPatterns.HeaderLineIff | scripts/wo159-quote-fix-cleanup.py:48-52 | white space, `#`, white space and one of the three marks |
| QuoteFixPatterns.ParseAssignIff | scripts/wo159-quote-fix-cleanup.py:43-45 | white space, a variable, `=$`, a node id, `.output`, segments with a letter or underscore after every dot, and white space to the end |
| QuoteFixPatterns.SweepAssignIff | scripts/wo159-quote-fix-cleanup.py:107-120 | such a line counts as the sweep's exactly if the variable is named after its node id and field |
| QuoteFixPatterns.LastAssignCounts | scripts/wo159-quote-fix-cleanup.py:118-119 | a variable is put back as the value of the last line that assigns it |
| QuoteFixPatterns.RevertFirstUse | scripts/wo159-quote-fix-cleanup.py:137-147 | the first use of a mapped variable is put back, what precedes it stays, and what follows is treated in the same way |
| QuoteFixPatterns.RevertPlain | scripts/wo159-quote-fix-cleanup.py:137-147 | a text without such a use stays as it is |
| QuoteFixPatterns.IndentIs | scripts/wo154-quote-fix-sweep.py:82-85 | indentation is the number of leading spaces; a blank line is all white space |
| QuoteFixPatterns.ScanExact | scripts/wo154-quote-fix-sweep.py:77-98 | the body scan passes blank lines; the first other line sets the indentation if it is deeper than the key, and then the scan ends at the first line that is neither blank nor as deep |
| QuoteFixPatterns.BlocksAre | scripts/wo154-quote-fix-sweep.py:67-105 | the blocks are exactly those that follow a `bash:` key which is not within a block itself |
| QuoteFixHoist.SubstPlain | scripts/wo154-quote-fix-sweep.py:151-155 | text without references stays as it is |
| QuoteFixHoist.SubstFirstRef | scripts/wo154-quote-fix-sweep.py:151-155 | the first reference of a text becomes its variable, what precedes it stays, and what follows is treated in the same way |
| QuoteFixHoist.EveryRefIsAssigned | scripts/wo154-quote-fix-sweep.py:117-148 | for every reference of a swept block, with a field or without, the swept block has an indented line of its own that assigns the variable put in its place, and whose value is the bare output of its node |
| QuoteFixHoist.HeaderIs | scripts/wo154-quote-fix-sweep.py:117-148 | the header is the three comment lines and then one assignment per variable, none twice, in the order in which the references first appear |
| QuoteFixHoist.SweptLayout | scripts/wo154-quote-fix-sweep.py:113-164 | a swept block is its substituted text with that header at the top, or after a first `set -` line |
| QuoteFixHoist.SweptIff | scripts/wo154-quote-fix-sweep.py:108-116 | a block is swept if and only if a reference occurs in it and the mark of the header does not |
| QuoteFixLine.NodeToVarInjective | scripts/wo154-quote-fix-sweep.py:50-58 | two node ids with the same variable are the same id, so the reverse substitution has one answer |
| QuoteFixLine.SubstLeavesNoRef | scripts/wo154-quote-fix-sweep.py:151-155 | after the substitution no `$node.output` reference is left anywhere in the text |
| QuoteFixLine.RefFound | scripts/wo159-quote-fix-cleanup.py:130-146 | the variable put in place of a reference is found again and turned back, when no `[A-Z0-9_]` follows |
| QuoteFixLine.RefLost | scripts/wo159-quote-fix-cleanup.py:132-135 | a reference run into a following `[A-Z0-9_]` never comes back: the lookahead finds another variable or none |
| QuoteFixLine.UseLost | scripts/wo159-quote-fix-cleanup.py:137-141 | a use of a generated variable that was there before the sweep is turned into a reference, so the text changes |
| QuoteFixLine.LineRoundTrip | scripts/wo159-quote-fix-cleanup.py:128-147 | for every line whose references are bare and whose variables are mapped: substitution and reversal give it back if and only if no reference runs into `[A-Z0-9_]` and no mapped variable was used before |
| QuoteFixBlock.VarMapSpec | scripts/wo159-quote-fix-cleanup.py:97-120 | pass 1 collects exactly the variables that some assignment line following the sweep's naming convention defines, with that line's target |
| QuoteFixBlock.PatchedVarMap | scripts/wo159-quote-fix-cleanup.py:107-120 | over a swept block, pass 1 recovers exactly the variables of the bare references; an assignment written for a reference with a field is not recognised |
| QuoteFixBlock.NoHeaderSurvives | scripts/wo159-quote-fix-cleanup.py:100-105 | no line the cleanup keeps is a comment header line |
| QuoteFixBlock.CleanUnswept | scripts/wo159-quote-fix-cleanup.py:122-152 | the cleanup leaves a block as it is if and only if it finds no header line and no sweep assignment in it |
| QuoteFixBlock.GluedFails | scripts/wo154-quote-fix-sweep.py:157-164 | a one-line block that is a `set -` line without a line end never comes back: the header is glued to it |
| QuoteFixBlock.BlockRoundTrip | scripts/wo159-quote-fix-cleanup.py:90-154 | for every block: cleaning the swept block gives the block back if and only if `RoundTrips` holds of it - references bare, none run into `[A-Z0-9_]`, no header line, no earlier use of a generated variable, not one unterminated `set -` line; for a block the sweep skips, nothing for the cleanup to drop |
| QuoteFixFile.ScanFacts | scripts/wo154-quote-fix-sweep.py:80-101 | the body scan takes only blank lines, or a first line deeper than the key and then lines at least as deep, and stops at the first that is not |
| QuoteFixFile.SweptScan | scripts/wo159-quote-fix-cleanup.py:66-85 | scanning the swept file afresh finds the image of the original body, with the same indentation, whatever follows |
| QuoteFixFile.Align | scripts/wo159-quote-fix-cleanup.py:167-173 | two bodies followed by one terminating line agree as a whole or not at all, so a change in one block is not made up for by the next |
| QuoteFixFile.FileRoundTrip | scripts/wo159-quote-fix-cleanup.py:157-182 | for every file text: cleaning the swept text gives the text back if and only if every bash block of the original satisfies `RoundTrips` |
| QuoteFixTwice.SweptIsPatched | scripts/wo154-quote-fix-sweep.py:108-110 | the header the sweep writes into a block is what it later recognises as already patched |
| QuoteFixTwice.SweepTwice | scripts/wo154-quote-fix-sweep.py:167-195 | sweeping any file a second time changes nothing |
| QuoteFixScripts.ScanBodyLines | scripts/wo154-quote-fix-sweep.py:78-101 | the inner loop over `j` and `body_indent` ends, in bounds, where the recursive scan ends |
| QuoteFixScripts.FindBashBlocks | scripts/wo154-quote-fix-sweep.py:61-105 | the scanner loop terminates and yields the blocks of the specification |
| QuoteFixScripts.BlocksOrdered | scripts/wo154-quote-fix-sweep.py:67-105 | the ranges yielded are nonempty, in bounds, disjoint and increasing |
| QuoteFixScripts.BlockEnds | scripts/wo154-quote-fix-sweep.py:96-101 | each ends at the end of the file, at a non-blank line indented less than its body, or, if it holds only blank lines, at the malformed first line |
| QuoteFixScripts.SplicedIsRewrite | scripts/wo154-quote-fix-sweep.py:175-190 | replacing every found block at once - gaps kept, each block by its image - is the rewrite that walks down the file |
| QuoteFixScripts.SpliceStep | scripts/wo154-quote-fix-sweep.py:178-186 | going from the last block to the first, replacing one more block by index gives the simultaneous replacement of the remaining ones: the indices stay right |
| QuoteFixScripts.TransformBashBlock | scripts/wo154-quote-fix-sweep.py:113-164 | the loops over `seen` and `dedup_assigns` write the header of the distinct assignments and substitute the body; the count is the number of references |
| QuoteFixScripts.SweepProcessFile | scripts/wo154-quote-fix-sweep.py:167-195 | the splicing loop computes the sweep of the file |
| QuoteFixScripts.RevertBlock | scripts/wo159-quote-fix-cleanup.py:90-154 | the two passes compute the cleaned block, and count the header lines and assignments dropped and the uses put back |
| QuoteFixScripts.CleanProcessFile | scripts/wo159-quote-fix-cleanup.py:157-182 | the splicing loop computes the cleanup of the file |
| QuoteFixScripts.BlocksRoundTripEach | scripts/wo159-quote-fix-cleanup.py:55-87 | the condition on the file is the condition on each block `find_bash_blocks` yields |
| QuoteFixScripts.SweepThenClean | scripts/wo159-quote-fix-cleanup.py:157-182 | running the two scripts one after the other restores the file if and only if every block found in it satisfies `RoundTrips` |
| Lexical.SortSpec | packages/overseer/src/activation-package.ts:145-145 | sorting texts under a strict order of their characters gives an ordered permutation |
| Utf16.SortSpec | packages/overseer/src/activation-package.ts:145-145 | `.sort()` gives an ordered permutation under the order of UTF-16 code units |
| Utf16.SortedUnique | packages/overseer/src/activation-package.ts:145-145 | two ordered lists of the same strings are the same list |
| CanonicalJson.KeyOrder | packages/overseer/src/activation-package.ts:144-148 | the order in which the own keys of the built object enumerate - array indices by number, then the others by code unit - is a strict total order |
| CanonicalJson.IndexIff | packages/overseer/src/activation-package.ts:144-148 | an array index is the decimal text of a number below 2^32 - 1 |
| CanonicalJson.KeyLtMeans | packages/overseer/src/activation-package.ts:144-148 | the order in plain terms: array indices by number, then the other keys by the first code unit in which they differ, a prefix first |
| CanonicalJson.SortMembersSpec | packages/overseer/src/activation-package.ts:143-149 | the key loop builds exactly the members of the object other than `__proto__`, in enumeration order |
| CanonicalJson.SortedIffSame | packages/overseer/src/activation-package.ts:140-151 | two trees sort to one tree if and only if they are the same up to key order at every depth, once `__proto__` members are left out |
| JsonPrint.EscapeReads | packages/overseer/src/activation-package.ts:136-138 | an escaped string reads back by the grammar of section 7 of RFC 8259, whatever follows, lone surrogates included |
| JsonPrint.EscapePrefix | packages/overseer/src/activation-package.ts:136-138 | so it determines the string and where it ends |
| JsonPrint.EscapeConcat | packages/overseer/src/activation-package.ts:136-138 | strings are escaped in parts, as long as no surrogate pair is cut |
| JsonPrint.PlainStandsForItself | packages/overseer/src/activation-package.ts:136-138 | text without a quotation mark, backslash, control character or lone surrogate stands for itself |
| JsonPrint.EscapeOne | packages/overseer/src/activation-package.ts:136-138 | those are escaped in the short form where there is one, and otherwise as `\u` and four lower-case digits |
| JsonPrint.PrintReads | packages/overseer/src/activation-package.ts:136-138 | the printed text of a tree reads back as the tree by the grammar of sections 2 to 7 of RFC 8259, wherever it stands, and has no white space |
| JsonPrint.PrintPrefix | packages/overseer/src/activation-package.ts:136-138 | so it determines the tree and where its text ends, whatever delimiter follows |
| JsonPrint.CanonicalText | packages/overseer/src/activation-package.ts:135-151 | two trees have equal canonical texts if and only if they are the same up to object key order at every depth, once `__proto__` members are left out |
| JsonPrint.CanonicalIsStable | packages/overseer/src/activation-package.ts:135-138 | without a `__proto__` key, equal text is equality up to key order, in both directions |
| JsonPrint.ProtoIsLost | packages/overseer/src/activation-package.ts:144-146 | `{}` and `{"__proto__": null}` differ and have one canonical text |
| JsonPrint.SortIdempotent | packages/overseer/src/activation-package.ts:140-151 | sorting a sorted tree changes nothing |
| JsonPrint.CanonicalReads | packages/overseer/src/activation-package.ts:135-151 | the canonical text reads back as the tree itself without its `__proto__` members, up to key order, with the keys in enumeration order at every depth |
| JsonPrint.SortKeysOf | packages/overseer/src/activation-package.ts:140-151 | the recursive code with its key loop computes the sort |
| BrokerCapture.TrimPartialUtf8 | scripts/overseer-reviewer-broker.ts:169-180 | the backward loop over continuations computes the trim |
| BrokerCapture.TrimLoses | scripts/overseer-reviewer-broker.ts:169-180 | the trim returns the bytes unchanged, or a prefix at most three bytes shorter, and what it cuts is a leading byte with fewer continuations than it announces |
| BrokerCapture.TrimKeepsWholeCharacters | scripts/overseer-reviewer-broker.ts:165-180 | UTF-8 text cut at any byte is trimmed to whole characters of it, and no longer run of whole characters fits before the cut; complete text is unchanged |
| BrokerCapture.TrimValidIff | scripts/overseer-reviewer-broker.ts:165-180 | for arbitrary bytes the result is valid UTF-8 if and only if they were valid up to one incomplete character at the end |
| BrokerCapture.StrayContinuationStays | scripts/overseer-reviewer-broker.ts:165-180 | a stray continuation byte survives, so the comment's "no U+FFFD" does not hold of every output |
| BrokerCapture.CaptureHolds | scripts/overseer-reviewer-broker.ts:205-246 | for every interleaving of the chunks of two streams: the bytes retained are the smaller of the limit and what arrived, each stream keeps a prefix of what it produced and all of it unless the limit was crossed, truncation is flagged if and only if more than the limit arrived, and the group is killed for it exactly once |
| BrokerCapture.CapturedText | scripts/overseer-reviewer-broker.ts:281-291 | a stream that starts UTF-8 text is reported as the longest run of whole characters in its retained bytes, and both results together stay within the limit |
| BrokerCapture.Capture.Consume | scripts/overseer-reviewer-broker.ts:226-242 | one iteration of `consume` on the shared variables is one step of the specification |
| BrokerCapture.Capture.Decode | scripts/overseer-reviewer-broker.ts:281-284 | the chunks of one stream are concatenated in order and trimmed |
| CanaryPublication.WrittenOnce | packages/canary-suite/src/report.ts:103-109 | no step of any writer changes a published file |
| CanaryPublication.PublishedStays | packages/canary-suite/src/report.ts:103-109 | nor does any sequence of steps |
| CanaryPublication.PublicationIsOneWriters | packages/canary-suite/src/report.ts:87-116 | on every schedule of writers, failures and crashes the published files are a prefix of plan, summary and markdown, all equal to one writer's contents; a writer that returned finds all three equal to its own; two that returned have equal contents |
| CanaryPublication.AbandonedForever | packages/canary-suite/src/report.ts:93-109 | once part of the files is published and no writer is left whose contents and reads let it finish, no further file ever appears and no writer, present or future, ever returns |
| CanaryPublication.FinalIff | packages/canary-suite/src/report.ts:87-116 | exactly then: from any other state that can be reached, some schedule lets a writer, one there or a newcomer, return |
| CanaryPublication.CanBeAbandoned | packages/canary-suite/src/report.ts:103-115 | one writer that stops between two links leaves such a state |
| CanaryPublication.Directory.WriteCanaryArtifacts | packages/canary-suite/src/report.ts:93-116 | alone in the directory: it succeeds if and only if all three files are there with its contents, or none is and no link is refused; other contents change nothing; a refused link leaves what was published before it |
| Delivery.NextKeeps | packages/overseer/src/escalation-delivery.ts:197-319 | the invariant of the protocol - receipts unique per attempt and phase, runs fenced, calls and completions backed by receipts, the job's state that of its last completion - is kept by every claim, store call, channel call and crash |
| Delivery.Reachable | packages/overseer/src/escalation-delivery.ts:197-346 | so it holds on every schedule of overlapping runs, lost leases and crashes |
| Delivery.DeliversOnce | packages/overseer/src/escalation-delivery.ts:207-244 | `channel.deliver` runs at most once per attempt and at most three times per job, and never after an attempt that did not fail transiently |
| Delivery.CompletesWithItsReceipt | packages/overseer/src/escalation-delivery.ts:205-291 | each attempt has at most one started and one terminal receipt and is completed at most once, with the outcome of its terminal receipt; the job's state follows from its last completion |
| Delivery.TransactionsMean | packages/core/src/db/overseer-briefing.ts:375-547 | each transaction of the store, field by field: when it is refused and what it writes |
| Delivery.ClaimedUntilEnded | packages/core/src/db/overseer-briefing.ts:388-398 | on every schedule a job can be claimed exactly while it is pending or leased, and a pending one has attempts left |
| Delivery.OutcomesAreAnswers | packages/overseer/src/escalation-delivery.ts:172-264 | on every schedule an attempt is recorded or completed as succeeded only if the channel, asked for that attempt, answered just that; and so with a transient or permanent failure, or a retirement; as indeterminate only if it answered that, threw, or answered none of the four |
| Delivery.FinishesWhileHolding | packages/overseer/src/escalation-delivery.ts:204-291 | a run that keeps its lease completes its attempt: with the outcome of its terminal receipt if it has one; otherwise with the answer of `reconcile` if it was started and of `deliver` if not, and as indeterminate if that threw or was none of the four; `deliver` is called if and only if the attempt had no receipt |
| Delivery.NextClaimRecovers | packages/overseer/src/escalation-delivery.ts:204-291 | whatever runs and crashes left behind, one uninterrupted run after the next claim completes the claimed attempt |
| Delivery.RetirementCanGetStuck | packages/overseer/src/escalation-delivery.ts:293-319 | a crash between the two calls of `retireInactiveOperatorCardChannel` leaves a leased job with a terminal receipt |
| Delivery.StuckForever | packages/overseer/src/escalation-delivery.ts:299-318 | since retiring never reads the receipts, from there every append is refused and no schedule without a reading run ever completes the job |
| Delivery.RetiresIff | packages/overseer/src/escalation-delivery.ts:293-319 | a fresh claim of an inactive channel's job retires it if and only if its attempt has no terminal receipt |
| Delivery.DeliveryStore.ClaimDueDeliveryJob | packages/core/src/db/overseer-briefing.ts:375-429 | a due job is leased under a new fencing token; a pending one starts its next attempt, an expired one keeps it; nothing else changes |
| Delivery.DeliveryStore.AppendDeliveryReceipt | packages/core/src/db/overseer-briefing.ts:431-484 | the receipt is added exactly if the caller holds the lease of that attempt and the phase is not there yet; otherwise nothing changes |
| Delivery.DeliveryStore.CompleteDeliveryJob | packages/core/src/db/overseer-briefing.ts:486-547 | the job takes the state of the outcome exactly if the caller holds the lease; otherwise nothing changes |
| Delivery.RetireInactiveChannel | packages/overseer/src/escalation-delivery.ts:293-319 | the code, uninterrupted, is the protocol's two steps in a row |
| Delivery.TakeTurn | packages/overseer/src/escalation-delivery.ts:332-343 | one turn for a claimed job is exactly the protocol's events for it: a retirement if its channel is inactive, nothing more if the channel is missing, a delivery otherwise; it succeeds exactly if it completes the job |
| Delivery.RunDueDeliveries | packages/overseer/src/escalation-delivery.ts:321-346 | over any number of jobs, turn after turn until nothing is due, a call throws or the turns are used up: what happens to each job is a schedule of the protocol, an active channel is never retired, an inactive one never read or delivered, and the jobs returned are the completions made |
| Delivery.CloseAttempt | packages/overseer/src/escalation-delivery.ts:266-290 | the terminal receipt and the completion, as two steps of the protocol |
| Delivery.DeliverOperatorCard | packages/overseer/src/escalation-delivery.ts:197-291 | the code, uninterrupted, is the protocol's steps in a row: same store, same calls |
| ActionPolicy.StagedMeans | packages/overseer/src/action-policy.ts:166-247 | the evaluator asks for a stage exactly when every gate before it holds, and allows exactly when all hold, naming what the permit bound |
| ActionPolicy.DenialsAreTrue | packages/overseer/src/action-policy.ts:166-247 | every denial gives a reason that is true of the inputs |
| ActionPolicy.AllowedHasNoReason | packages/overseer/src/action-policy.ts:166-247 | an allowed action has no such reason against it |
| ActionPolicy.CoveredIs | packages/overseer/src/action-policy.ts:20-35 | which kinds of action each capability covers |
| ActionPolicy.NamesAre | packages/overseer/src/action-policy.ts:208-210 | the name of each kind in lower case |
| ActionPolicy.AllowedExactly | packages/overseer/src/action-policy.ts:166-247 | an action is allowed if and only if all of these hold of the values themselves: stops, flags, state, circuit, binding, capability table, name, digests and expiry |
| ActionPolicy.FirstTrueReason | packages/overseer/src/action-policy.ts:166-247 | a denial gives the first true reason in the order of the gates |
| ActionPolicy.ReadFailures | packages/overseer/src/action-policy.ts:376-457 | a failed read is denied by name, if and only if the gates before it held |
| ActionPolicy.ReadsMean | packages/overseer/src/action-policy.ts:376-457 | state, proposal and clock are asked for in that order, at most once, and each if and only if the gates before it held |
| ActionPolicy.DecisionIsFinal | packages/overseer/src/action-policy.ts:250-260 | once it decides, no later read changes the decision, and what was not read was not looked at |
| ActionPolicy.RecordDecision | packages/overseer/src/action-policy.ts:306-350 | the decision stands exactly if its event is appended; otherwise it is a denial, audited without the permit's identity or not at all |
| ActionPolicy.Decide | packages/overseer/src/action-policy.ts:376-457 | the lazy loop terminates, reaches the decision of the first gate in order that fails or cannot be read, and reads each dependency at most once and only behind the gates before it |
| ActionPolicy.LazyIsEager | packages/overseer/src/action-policy.ts:250-260 | when every read succeeds, that is the decision of `evaluateActionPolicy` on the same values |
| ActionPolicy.Authorize | packages/overseer/src/action-policy.ts:361-458 | over all read, evaluation and audit failures: allowed if and only if every gate was read and held and the allowing event was appended |
| LatestReview.NewestIsLatest | packages/grimoire-mcp/src/decide-card.ts:18-20 | the newest review has the greatest time and is the last in the list of those that have it |
| LatestReview.SortedLast | packages/grimoire-mcp/src/decide-card.ts:18-20 | the last element of the stably sorted list is the newest of the list |
| LatestReview.SortByKey | packages/grimoire-mcp/src/decide-card.ts:25-29 | a stable sort by time and a selection by reviewer commute |
| LatestReview.LatestByReviewer | packages/grimoire-mcp/src/decide-card.ts:25-29 | the sort-then-fill loop gives every reviewer exactly their newest review on the head |
| MergeReadiness.ReviewVerdictOf | packages/grimoire-mcp/src/decide-card.ts:15-37 | the code computes the review verdict of the specification, text included |
| MergeReadiness.CurrentIsFirstLatest | packages/grimoire-mcp/src/decide-card.ts:48-52 | the status that counts for a context has the greatest time and is the first in the list of those that have it |
| MergeReadiness.LatestStatuses | packages/grimoire-mcp/src/decide-card.ts:48-52 | the map-filling loop finds it, with the contexts in order of first appearance |
| MergeReadiness.ChecksVerdictOf | packages/grimoire-mcp/src/decide-card.ts:39-54 | the loops compute the checks verdict of the specification, text included |
| MergeReadiness.ApprovedIsOk | packages/grimoire-mcp/src/decide-card.ts:15-37 | the verdict is OK if and only if the bot's newest review approves the head and no reviewer's newest review there asks for changes |
| MergeReadiness.GreenIsOk | packages/grimoire-mcp/src/decide-card.ts:39-54 | the verdict is OK if and only if something was reported, every run is completed and acceptable, and every context's current status is a success |
| MergeReadiness.MergeReadyIff | packages/grimoire-mcp/src/decide-card.ts:82-104 | the whole decision is `merge_ready` if and only if the pull request is open, no draft, not conflicting, not on a production base, GitHub answered, the reviews approve, the checks are green and no required context is missing |
| MergeReadiness.WaitingIff | packages/grimoire-mcp/src/decide-card.ts:64-72 | whether the joined verdict text counts as waiting is decided entry by entry |
| MergeReadiness.RedIff | packages/grimoire-mcp/src/decide-card.ts:64-101 | with the reviews in order, checks count as red if and only if an entry is bad and neither a bad entry nor a missing context has "in_progress", "queued" or "=pending" in it |
| MergeReadiness.FailedCanCountAsPending | packages/grimoire-mcp/src/decide-card.ts:64-101 | a check named "queued" that failed for good counts as pending |
| MergeDecision.StandingIs | packages/grimoire-mcp/src/decide-card.ts:15-37 | what the review text says of the bot's newest review and of everybody's newest review of the head |
| MergeDecision.BadAre | packages/grimoire-mcp/src/decide-card.ts:39-54 | the entries listed as not green are exactly those of the runs not completed well and of the contexts whose latest status is no success |
| MergeDecision.DecisionIff | packages/grimoire-mcp/src/decide-card.ts:15-104 | for each of the eleven outcomes, exactly when it is reported, on the reviews, runs, statuses and missing contexts themselves |
| CeRecheck.NewestIsNewest | packages/core/src/db/board-scope-approvals.ts:347-361 | the revocation reported is the newest on the pull request, and none is reported only if there is none |
| CeRecheck.SelectedIsNewest | packages/overseer/src/ce-scope-premerge-recheck.ts:150-157 | the run selected is a gate run of this branch and no other such run is newer |
| CeRecheck.Surroundings.CheckAuthority | packages/overseer/src/ce-scope-premerge-recheck.ts:119-148 | one look at the authority is one read of the log, or two for a wide change, with the metadata judged on the first and the approval on the second |
| CeRecheck.Surroundings.CheckGate | packages/overseer/src/ce-scope-premerge-recheck.ts:150-180 | the gate's runs are read before its checks, and the checks only behind a green newest run |
| CeRecheck.IsWideChange | packages/overseer/src/ce-scope-premerge-recheck.ts:98-117 | the loop counts the protected names, both sides of a rename |
| CeRecheckMeaning.WideIff | packages/overseer/src/ce-scope-premerge-recheck.ts:87-117 | a change is wide if and only if at least eleven paths under `src/components/ce/` occur in it as a name or previous name, or a file is removed from one of the two directories or renamed out of it |
| CeRecheckMeaning.AuthorityIff | packages/overseer/src/ce-scope-premerge-recheck.ts:121-147 | at one look a narrow change needs nothing, a wide one an approval for exactly its subject, with conditions, for the release branch and not revoked |
| CeRecheckMeaning.GateIff | packages/overseer/src/ce-scope-premerge-recheck.ts:150-181 | the gate holds if and only if its latest run is green, every check of its name comes from it, and one of that run's is green |
| CeRecheckMeaning.PassesExactly | packages/overseer/src/ce-scope-premerge-recheck.ts:66-200 | a release pull request passes if and only if all of these hold of the answers |
| CeRecheckMeaning.ElevenPathsNeedApproval | packages/overseer/src/ce-scope-premerge-recheck.ts:98-147 | so a change of eleven such paths without an approval on the log never passes |
| CeRecheckMeaning.RefusalsAreTrue | packages/overseer/src/ce-scope-premerge-recheck.ts:66-200 | what each of the eleven refusals says is true of the answers |
| CeRecheck.Surroundings.Inspect | packages/overseer/src/ce-scope-premerge-recheck.ts:150-200 | after the early look: the gate, the branch's tip again, then the authority again, in that order |
| CeRecheck.Surroundings.Recheck | packages/overseer/src/ce-scope-premerge-recheck.ts:66-200 | over a world that moves, with every read at an instant the environment chooses, the code returns the first failing condition on the answers in the order of its reads |
| CeRecheck.PassesIff | packages/overseer/src/ce-scope-premerge-recheck.ts:66-200 | a protected repository's pull request passes if and only if it is open and either not on the release branch or meets every condition on all ten answers |
| CeRecheck.PassedIff | packages/overseer/src/ce-scope-premerge-recheck.ts:66-200 | so on a timeline too |
| CeRecheck.PassMeans | packages/overseer/src/ce-scope-premerge-recheck.ts:119-196 | of the instants of a pass's reads: the release branch had the compared tip when GitHub was asked for the last time; every question to GitHub came no later than the last look at the log; the newest gate run is green; and every revocation on the pull request committed by that look, so every one committed during the requests to GitHub, is older than it |
| CeRecheck.RevokedForGood | packages/core/src/db/board-scope-approvals.ts:209-243 | recording a revoked approval again changes nothing, however the log grows |
| CeRecheck.WideWasApproved | packages/overseer/src/ce-scope-premerge-recheck.ts:121-148 | the approval behind a wide pass is of exactly this repository, number, head and base, and is not revoked at the last read of all, nor was it at any earlier look |
| CeRecheck.MissedIff | packages/overseer/src/ce-scope-premerge-recheck.ts:123-131 | a passing narrow change never misses a revocation that does not predate the gate run; a passing wide one misses one exactly if it was committed between its last two reads |
| CeRecheck.LateRevocationIsMissed | packages/overseer/src/ce-scope-premerge-recheck.ts:123-131 | and it can: a wide pass with such a revocation of another approval of the pull request |
| WorkerLog.RotateReads | scripts/dispatch-worker/worker-log.ts:30-60 | a rotation leaves what a reader of all files sees unchanged, or takes exactly the oldest file off it |
| WorkerLog.RotateExactly | scripts/dispatch-worker/worker-log.ts:30-60 | a rotation happens if and only if the active file has reached `maxBytes`; then every file moves up one place and the last is overwritten, or stays if the one below it is missing |
| WorkerLog.RetainsEnough | scripts/dispatch-worker/worker-log.ts:30-80 | from an empty disk, what is read back is everything written, or at least `maxBytes` times the number of rotated files |
| WorkerLog.RetainsASuffix | scripts/dispatch-worker/worker-log.ts:30-80 | from any disk and over any writes, reading `.N` down to `.1` and then the active file gives a suffix of what was there and was appended since |
| WorkerLog.StaysBounded | scripts/dispatch-worker/worker-log.ts:30-80 | at most `maxFiles` rotated files exist (one, if `maxFiles` is 0), and together with the active file they hold at most (files + 1) times (maxBytes - 1 + longest line) bytes |
| WorkerLog.ZeroKeepsOne | scripts/dispatch-worker/worker-log.ts:30-60 | with `maxFiles` 0 there is a rotated file after a rotation if and only if there was one or the active file was full |
| WorkerLog.Log.MoveUp | scripts/dispatch-worker/worker-log.ts:46-56 | one turn of the loop, with its branch that drops a file |
| WorkerLog.Log.RotateIfNeeded | scripts/dispatch-worker/worker-log.ts:30-60 | the descending rename loop computes the rotation, and never takes the dropping branch |
| WorkerLog.Log.WriteLine | scripts/dispatch-worker/worker-log.ts:69-81 | one link of the write chain rotates, then appends |
| SessionAdmissions.LeastRecent | packages/companion-mcp/src/server.ts:110-117 | the entry found is the first of those with the least activity time |
| SessionAdmissions.Reachable | packages/companion-mcp/src/server.ts:92-180 | in every interleaving of requests, admissions, touches, sweeps, client closes and finishing closes the invariant holds: within the cap, every record in one place; every record taken out had its transport asked to close, waits or leaked; every record so asked had its server asked too, is still at its transport or is stranded |
| SessionAdmissions.CappedAndClosedOnce | packages/companion-mcp/src/server.ts:103-180 | the map never exceeds the cap nor holds a session twice, and no record is taken out, or has its transport closed, twice |
| SessionAdmissions.VictimIsLeastRecent | packages/companion-mcp/src/server.ts:150-154 | an admission at the cap evicts the first of the least recent sessions present, never the admitted one, and inserts the admitted one last; below the cap it evicts nothing |
| SessionAdmissions.SweepTakesTheIdle | packages/companion-mcp/src/server.ts:164-175 | at any point of any run a sweep takes out exactly the sessions idle for longer than the limit |
| SessionAdmissions.SweepKeepsOrder | packages/companion-mcp/src/server.ts:164-175 | in the order of the map |
| SessionAdmissions.FirstComeFirstServed | packages/companion-mcp/src/server.ts:149-160 | in every interleaving the sessions inserted and then those queued are all that were requested, in order: none is lost or overtaken |
| SessionAdmissions.QueueDrains | packages/companion-mcp/src/server.ts:149-160 | from any state and whatever each close answers, every queued admission is inserted, in order, and the queue empties |
| SessionAdmissions.LeftBehindIff | packages/companion-mcp/src/server.ts:126-180 | over every run: a record leaks if and only if a close of its sweep failed before its turn, and its server is left open after its own turn if and only if its own transport failed to close |
| SessionAdmissions.LeaksIff | packages/companion-mcp/src/server.ts:176-179 | anything leaks if and only if a close failed in a sweep with records waiting behind it |
| SessionAdmissions.FailureLeaks | packages/companion-mcp/src/server.ts:176-179 | a failing close leaks exactly the records behind it in its sweep: out of the map, their transports never asked to close |
| SessionAdmissions.SweepCanLeak | packages/companion-mcp/src/server.ts:126-179 | a sweep of two sessions leaks the second, and leaves the first one's server open, when the first one's transport does not close |
| SessionAdmissions.LeakedStays | packages/companion-mcp/src/server.ts:176-179 | no later step closes a leaked record |
| SessionAdmissions.AllClosedBut | packages/companion-mcp/src/server.ts:126-180 | when every eviction and sweep has run its course, the records taken out are those whose transport was asked to close and the leaked ones, and the former are those whose server was asked too and the stranded ones |
| SessionAdmissions.SessionTable.DetachLeastRecentIfAtCap | packages/companion-mcp/src/server.ts:103-124 | the search loop removes the least recent entry at the cap and nothing below it |
| SessionAdmissions.SessionTable.Admit | packages/companion-mcp/src/server.ts:150-152 | the part of an admission before its await is the system's step |
| SessionAdmissions.SessionTable.TouchSession | packages/companion-mcp/src/server.ts:92-101 | exactly the entry of the id gets the new activity time |
| SessionAdmissions.SessionTable.TakeExpired | packages/companion-mcp/src/server.ts:164-175 | the loop takes out exactly the expired entries, in order |
| HealthAlerts.SignatureOfPermutation | scripts/ci/n8n-health.js:346-355 | the signature depends only on the multiset of failing names |
| HealthAlerts.SignatureTellsApart | scripts/ci/n8n-health.js:346-355 | when no name has a newline, equal signatures are equal multisets |
| HealthAlerts.NewlineConfuses | scripts/ci/n8n-health.js:346-355 | a name with a newline passes for two names |
| HealthAlerts.NoticesWellOrdered | scripts/ci/n8n-health.js:383-394 | over any runs, every stored notice may follow the one before it, and the state file says exactly what the last one was |
| HealthAlerts.EpisodesAlternate | scripts/ci/n8n-health.js:383-394 | new-failure and recovery notices alternate |
| HealthAlerts.InsideAnEpisode | scripts/ci/n8n-health.js:383-394 | a new failure comes only outside an episode; changed, repeated and recovery notices only inside one |
| HealthAlerts.RepeatsIff | scripts/ci/n8n-health.js:560-575 | over any runs: inside the interval, with no other notice attempted between, an alert repeats one for the same failing set if and only if that one could not be stored |
| HealthAlerts.RecoveryRepeatsIff | scripts/ci/n8n-health.js:576-586 | a recovery notice is repeated if and only if it could not be stored |
| HealthAlerts.AlertsAreSpaced | scripts/ci/n8n-health.js:383-394 | of all alerts attempted, two for one failing set with no other notice between are at least the interval apart, unless the first could not be stored |
| HealthAlerts.SilentIff | scripts/ci/n8n-health.js:552-598 | a failing run sends nothing if and only if the last stored notice was an alert for its failing set, less than the interval old |
| HealthAlerts.DecisionIff | scripts/ci/n8n-health.js:383-394 | exactly which of the six decisions a run makes, by the last stored notice, its failing set and its age |
| HealthAlerts.ToldIff | scripts/ci/n8n-health.js:560-575 | since that notice somebody was told of the failing set if and only if that very notice was sent; no run in between makes up for it |
| HealthAlerts.NobodyTold | scripts/ci/n8n-health.js:560-575 | so a failing run can be silent though no alert was ever sent |
| HealthAlerts.StateFile.Finish | scripts/ci/n8n-health.js:552-598 | the end of `main` decides and persists as specified |
| BundledText.PassesAreOneMap | scripts/generate-bundled-defaults.ts:59-76 | the character passes and the final filter together are one left-to-right map |
| BundledText.ImageIsTheTable | scripts/generate-bundled-defaults.ts:59-73 | the map takes a character to its own rule's text wherever the rule stands, ASCII to itself, everything else to nothing |
| BundledText.ImageIsSpelled | scripts/generate-bundled-defaults.ts:59-76 | each character outside ASCII becomes just these letters, or nothing |
| BundledText.CollapseFirst | scripts/generate-bundled-defaults.ts:58-58 | the first CRLF becomes one line feed, what precedes it stays, and what follows is treated in the same way |
| BundledText.NormalizeIsOneMap | scripts/generate-bundled-defaults.ts:55-77 | the whole function is that map after the CRLF collapse; stripping the byte order mark first makes no difference |
| BundledText.OutputIsAscii | scripts/generate-bundled-defaults.ts:74-76 | the output is ASCII for every input |
| BundledText.AsciiNormalized | scripts/generate-bundled-defaults.ts:55-77 | an ASCII text only has its CRLFs collapsed, and is unchanged if and only if it has none |
| BundledText.FragileIff | scripts/generate-bundled-defaults.ts:58-76 | a scan of the input finds exactly the texts whose result still has a CRLF |
| BundledText.IdempotentIff | scripts/generate-bundled-defaults.ts:55-77 | the function is idempotent on a text if and only if no remaining carriage return meets a remaining line end across dropped characters |
| BundledText.IdempotentWithoutReturns | scripts/generate-bundled-defaults.ts:55-77 | so on every text without a carriage return, and not on CR CR LF |
| InstanceLock.Reachable | scripts/dispatch-worker/instance-lock.ts:105-165 | over any run of starts, deaths, pid reuse and releases: live pids are distinct, a live holder's record is in the lock, and every record is accounted for |
| InstanceLock.HolderIsSafe | scripts/dispatch-worker/instance-lock.ts:105-165 | at most one live worker holds the lock, and no step of another process overwrites or removes it |
| InstanceLock.AcquiresIff | scripts/dispatch-worker/instance-lock.ts:105-148 | a start takes the lock, whatever is in it, if and only if no other live process has the pid that is |
| InstanceLock.EveryRecordIsAccounted | scripts/dispatch-worker/instance-lock.ts:121-165 | each acquisition's record leaves the lock at most once, in order, with one of three fates, and the one in the lock is the last |
| InstanceLock.FatesMean | scripts/dispatch-worker/instance-lock.ts:121-165 | over every run: a record is in the death log if and only if a worker with another pid replaced it while its own pid was dead; it is renewed if and only if a worker with its own pid did, and released if and only if one removed it |
| InstanceLock.SamePidLeavesNoLine | scripts/dispatch-worker/instance-lock.ts:121-135 | a death is not recorded when the next worker is given the dead one's pid |
| InstanceLock.BlockedIff | scripts/dispatch-worker/instance-lock.ts:111-117 | when the worker that wrote the lock is dead, a start is blocked if and only if another live process has the lock's pid |
| InstanceLock.ReusedPidBlocks | scripts/dispatch-worker/instance-lock.ts:66-80 | a dead worker's lock blocks a start once its pid went to an unrelated process |
| InstanceLock.EntriesAre | scripts/dispatch-worker/instance-lock.ts:186-213 | a line of the death log is evidence if and only if its three fields are there and it is not known to be older than a day |
| InstanceLock.ReadRestartEvidence | scripts/dispatch-worker/instance-lock.ts:176-219 | the loop returns the last twenty, or fewer, admissible entries in order |
| InstanceLock.LockFile.AcquireLock | scripts/dispatch-worker/instance-lock.ts:105-148 | the code is the system's step: refused exactly if it is; otherwise the lock is overwritten, after the death line if the step takes over another pid's record |
| InstanceLock.LockFile.ReleaseLock | scripts/dispatch-worker/instance-lock.ts:150-164 | the first release is the system's step, a second does nothing |
| IsolationResolver.PlanMeans | packages/isolation/src/resolver.ts:88-191 | by the order of resolution, what is reused or shared has an existing worktree of this repository, under the key or a linked issue's; something is adopted or made only if neither has a live row, whoever's |
| IsolationResolver.CodebasePlanIff | packages/isolation/src/resolver.ts:144-191 | within a codebase, exactly when which answer is given: the key's worktree if it is ours; without one, that of the first linked issue that has one, if it is ours; without either, the one listed for the branch, if it is ours; without that, a new one; and an exception if and only if the first of these is another clone's |
| IsolationResolver.PlanIff | packages/isolation/src/resolver.ts:88-142 | and before that: a named environment, no codebase, or a repository path that does not resolve |
| IsolationResolver.ExistingIff | packages/isolation/src/resolver.ts:92-118 | an environment named by the conversation is given out if and only if its row and its worktree exist, whosever the worktree is |
| IsolationResolver.Isolation.Reuse | packages/isolation/src/resolver.ts:285-314 | a live row of the key decides: returned if its worktree is of this repository, and otherwise an exception; without one, at most a row of a missing worktree is marked destroyed |
| IsolationResolver.Isolation.ReuseLinked | packages/isolation/src/resolver.ts:326-360 | the loop does so for the first linked issue that has a live row, and returns nothing if and only if none has |
| IsolationResolver.Isolation.AdoptOrCreate | packages/isolation/src/resolver.ts:150-191 | the worktree of the pull request's branch is adopted if there is one of this repository; without one a new one is made |
| IsolationResolver.Isolation.CreateNew | packages/isolation/src/resolver.ts:428-560 | a worktree that cannot be recorded is handed to `destroy`, exactly it and once; the disk is then as before if and only if the provider had not merely found it |
| IsolationResolver.Isolation.StoreCreate | packages/core/src/db/isolation-environments.ts:67-95 | a new row, or the active row of the key made over; keys stay unique |
| IsolationResolver.Isolation.ResolveIn | packages/isolation/src/resolver.ts:120-191 | within a codebase the code follows the plan made from the rows and the disk as the call found them, though it marks rows on the way |
| IsolationResolver.Isolation.Resolve | packages/isolation/src/resolver.ts:88-191 | for all rows, disks and failures the answer, the new row, the disk and the provider's calls are those of the plan, and a row changes only if its worktree was missing |
| ActiveAgents.CountersAreExact | scripts/dispatch-worker/index.ts:777-784 | in every interleaving each agent's counter is the number of its legs in flight and within its cap, and the default and the floor of the final decrement are never used |
| ActiveAgents.TakenIff | scripts/dispatch-worker/index.ts:777-784 | in every interleaving a message is taken if and only if its agent is configured and has fewer legs in flight than its cap, 1 if none is set |
| ActiveAgents.WorkerState.Begin | scripts/dispatch-worker/index.ts:777-784 | the test and the increment before the first await are one step |
| ActiveAgents.WorkerState.Finish | scripts/dispatch-worker/index.ts:871-873 | the `finally` block is the other |
## Left out

- QuoteFix: the character classes `\w`, `\s`, `[A-Z]` and `upper()` are modelled on ASCII letters and digits and on Python's white space; letters outside ASCII in a field are not. `\r` never reaches the scripts, since reading a text file turns it into `\n`.
- QuoteFixScripts.CleanProcessFile: the printed summaries, the dry-run flag and the list of files are left out.
- JsonPrint.CanonicalText: a number is given by the token that is printed for it, which is one by section 6 of RFC 8259, so the conversion of doubles to decimal (section 3.2.2.3 of RFC 8785) is not modelled; `undefined`, functions, dates and `toJSON` are not JSON and are left out.
- BrokerCapture.CapturedText: what the text decoder does after the trim, dropping a leading byte order mark and replacing invalid bytes, is not modelled; neither are the timers, beyond the fact that decoding may happen after any number of chunks.
- CanaryPublication.PublicationIsOneWriters: the temporary files are not modelled. Their names are random and unique, and no writer reads another's.
- Delivery.DeliversOnce: it is about the interface's `deliver`. The dispatch channel's `reconcile` sends again under the same idempotency key, and the mailbox behind that key is not part of this model.
- Delivery.NextClaimRecovers: times are left out; a lease may be judged expired, and a job due, at any moment. The card's other fields are not modelled.
- Delivery.RunDueDeliveries: which due row a claim selects is the environment's choice, and nothing else touches the store during the loop; runs that overlap are the subject of `Reachable` and `DeliversOnce`, job by job.
- ActionPolicy.StagedMeans: action kinds are the closed vocabulary of the store; a name inherited from `Object.prototype` is not modelled. The digests and details copied into audit events are not either.
- MergeReadiness.MergeReadyIff: timestamps are ranks, so a difference between `localeCompare` and `>` on texts of different formats is not modelled; the card's owner, actions and findings are presentation.
- CeRecheck.PassMeans: the two queries behind one metadata or approval read are taken as one look at the log, and reading all pages of a GitHub list as one answer. That the log only grows is what the trigger at migrations/029_board_authority_foundation.sql:58 enforces.
- CeRecheck.LateRevocationIsMissed: GitHub's merge call that follows a pass is not modelled, so neither is the window before it, which the code names itself.
- SessionAdmissions.CappedAndClosedOnce: the shutdown of the whole server is left out, and so is a session that closes while its admission waits.
- WorkerLog.RetainsASuffix: a rename succeeds when its source exists. One that fails for another reason is swallowed by the code and can lose a file from the middle.
- InstanceLock.HolderIsSafe: acquire and release are one step each, and a process has one acquisition it has not released; the code does not claim to close the window between reading and writing the lock.
- InstanceLock.LockFile.AcquireLock: a death line that cannot be written is swallowed by the code; the model counts the attempt.
- HealthAlerts.SignatureTellsApart: the hash is taken to be injective.
- IsolationResolver.Isolation.Resolve: one call with nothing beside it. Two calls for one key that both find nothing each create a worktree, and the second record takes the first one's row over. Base-branch warnings, error texts and the provider's own naming are not modelled.
- ActiveAgents.CountersAreExact: claiming a message, renewing its lease and posting its result are not modelled; a leg is what lies between the increment and the `finally` block.
- The database packages beyond the tables named above, the channels' HTTP calls, secret scanning and redaction, token and cookie checks, CLI parsing, report formatting and the docs site are not modelled.
- Classification tables such as `classify.ts` and `github-rate-limit.ts` would only add one-branch facts.
