/** The merge-readiness decision of `packages/grimoire-mcp/src/decide-card.ts`: exactly when a pull
    request is ready to merge, and when its checks count as red. */
module MergeReadiness {
  import opened Outcomes
  import opened LatestReview
  import opened Lexical

  datatype CheckRun = CheckRun(name: string, status: string, conclusion: Option<string>)

  datatype Status = Status(context: string, state: string, at: nat)

  // ----- Texts -----

  predicate CharLt(a: char, b: char) {
    a < b
  }

  /** `ts.sort()` */
  function SortTexts(ts: seq<string>): seq<string> {
    Sort(ts, CharLt)
  }

  function Show(s: Option<string>): string {
    if s.None? then "null" else s.value
  }

  function Short(s: string): string {
    if |s| <= 8 then s else s[..8]
  }

  // ----- reviewVerdict -----

  const OK := "OK"

  const CHANGES := "CHANGES_REQUESTED"

  const REVIEWED_ELSEWHERE := "latest Overseer review is on "

  const REVIEWED_AS := "latest Overseer review is "

  const ASKED_BY := "CHANGES_REQUESTED at head (latest review) by "

  /** The reviewers whose latest review on the head asks for changes. */
  function Blocking(onHead: seq<Review>, keys: seq<string>): seq<string> {
    if keys == [] then []
    else
      var k := keys[|keys| - 1];
      Blocking(onHead, keys[..|keys| - 1]) + if AsksForChanges(onHead, k) then [k] else []
  }

  predicate AsksForChanges(onHead: seq<Review>, key: string) {
    ByKey(onHead, key) != [] && Newest(ByKey(onHead, key)).state == Some(CHANGES)
  }

  function ReviewVerdict(reviews: seq<Review>, head: string): string {
    if Bots(reviews) == [] then "no Overseer review"
    else
      var bot := Newest(Bots(reviews));
      if bot.commit != Some(head) then REVIEWED_ELSEWHERE + Short(Show(bot.commit)) + ", head is " + Short(head)
      else if bot.state != Some("APPROVED") then REVIEWED_AS + Show(bot.state)
      else
        var blocking := Blocking(OnHead(reviews, head), Keys(SortByTime(OnHead(reviews, head))));
        if blocking != [] then ASKED_BY + Join(SortTexts(blocking), ",")
        else OK
  }

  /** The filter over the filled map. */
  method BlockingReviewers(onHead: seq<Review>, latest: map<string, Review>, order: seq<string>) returns (blocking: seq<string>)
    requires forall k | k in order :: k in latest && ByKey(onHead, k) != [] && latest[k] == Newest(ByKey(onHead, k))
    ensures blocking == Blocking(onHead, order)
  {
    hide Newest, ByKey, CHANGES;
    var i := 0;
    blocking := [];
    while i < |order|
      invariant 0 <= i <= |order| && blocking == Blocking(onHead, order[..i])
    {
      var k := order[i];
      assert k in order && order[..i + 1][..i] == order[..i];
      if latest[k].state == Some(CHANGES) {
        blocking := blocking + [k];
      }
      i := i + 1;
    }
    assert order[..i] == order;
  }

  /** `reviewVerdict` */
  method ReviewVerdictOf(reviews: seq<Review>, head: string) returns (verdict: string)
    ensures verdict == ReviewVerdict(reviews, head)
  {
    hide Newest, SortByTime, SortTexts, Join, Keys, ByKey, Bots, OnHead, Short, Show, Key, REVIEWED_ELSEWHERE, REVIEWED_AS, ASKED_BY;
    var bots := Bots(reviews);
    if |bots| == 0 {
      return "no Overseer review";
    }
    var sorted := SortByTime(bots);
    SortedLast(bots);
    var latestBot := Last(sorted);
    if latestBot.commit != Some(head) {
      return REVIEWED_ELSEWHERE + Short(Show(latestBot.commit)) + ", head is " + Short(head);
    }
    if latestBot.state != Some("APPROVED") {
      return REVIEWED_AS + Show(latestBot.state);
    }
    var onHead := OnHead(reviews, head);
    var latest, order := LatestByReviewer(onHead);
    var blocking := BlockingReviewers(onHead, latest, order);
    verdict := if |blocking| != 0 then ASKED_BY + Join(SortTexts(blocking), ",") else OK;
  }

  // ----- checksVerdict -----

  predicate Green(r: CheckRun) {
    r.status == "completed" && (r.conclusion == Some("success") || r.conclusion == Some("skipped") || r.conclusion == Some("neutral"))
  }

  function RunText(r: CheckRun): string {
    r.name + "=" + if r.status != "completed" then r.status else Show(r.conclusion)
  }

  function BadRuns(runs: seq<CheckRun>): seq<string> {
    if runs == [] then []
    else BadRuns(runs[..|runs| - 1]) + if Green(runs[|runs| - 1]) then [] else [RunText(runs[|runs| - 1])]
  }

  /** The status of a context that counts: the first in the list of those with the greatest time. */
  function Current(ss: seq<Status>, context: string): Option<Status> {
    if ss == [] then None
    else
      var held, s := Current(ss[..|ss| - 1], context), ss[|ss| - 1];
      if s.context == context && (held.None? || s.at > held.value.at) then Some(s) else held
  }

  /** The status at `i` is of this context; no status of the context is later, and none before it as late. */
  predicate FirstLatestAt(ss: seq<Status>, context: string, i: nat)
    requires i < |ss|
  {
    ss[i].context == context
    && forall j | 0 <= j < |ss| && ss[j].context == context :: if j < i then ss[j].at < ss[i].at else ss[j].at <= ss[i].at
  }

  lemma {:induction false} CurrentIsFirstLatest(ss: seq<Status>, context: string) returns (i: nat)
    ensures if Current(ss, context).None? then forall j | 0 <= j < |ss| :: ss[j].context != context
            else i < |ss| && ss[i] == Current(ss, context).value && FirstLatestAt(ss, context, i)
  {
    i := 0;
    if ss != [] {
      var n := |ss| - 1;
      var init := ss[..n];
      i := CurrentIsFirstLatest(init, context);
      assert forall j | 0 <= j < n :: ss[j] == init[j];
      var held := Current(init, context);
      if ss[n].context == context && (held.None? || ss[n].at > held.value.at) {
        i := n;
      }
    }
  }

  function Contexts(ss: seq<Status>): seq<string> {
    if ss == [] then []
    else
      var init, c := Contexts(ss[..|ss| - 1]), ss[|ss| - 1].context;
      if c in init then init else init + [c]
  }

  lemma {:induction false} ContextsOf(ss: seq<Status>, context: string)
    ensures context in Contexts(ss) <==> Current(ss, context).Some?
  {
    if ss != [] {
      ContextsOf(ss[..|ss| - 1], context);
    }
  }

  predicate Failing(ss: seq<Status>, context: string) {
    Current(ss, context).Some? && Current(ss, context).value.state != "success"
  }

  function BadStatuses(ss: seq<Status>, contexts: seq<string>): seq<string> {
    if contexts == [] then []
    else
      var c := contexts[|contexts| - 1];
      BadStatuses(ss, contexts[..|contexts| - 1]) + if Failing(ss, c) then [c + "=" + Current(ss, c).value.state] else []
  }

  function Bad(runs: seq<CheckRun>, statuses: seq<Status>): seq<string> {
    BadRuns(runs) + BadStatuses(statuses, Contexts(statuses))
  }

  const NONE_REPORTED := "no checks reported for head"

  const NOT_GREEN := "checks not green:" + [' ']

  const NOT_REPORTED := "required" + [' '] + ("checks not reported:" + [' '])

  function ChecksVerdict(runs: seq<CheckRun>, statuses: seq<Status>): string {
    if runs == [] && statuses == [] then NONE_REPORTED
    else if Bad(runs, statuses) != [] then NOT_GREEN + Join(SortTexts(Bad(runs, statuses)), ", ")
    else OK
  }

  /** `checksVerdict` */
  method ChecksVerdictOf(runs: seq<CheckRun>, statuses: seq<Status>) returns (verdict: string)
    ensures verdict == ChecksVerdict(runs, statuses)
  {
    hide SortTexts, Join, NOT_GREEN, NONE_REPORTED, Current, Contexts, Show;
    if |runs| == 0 && |statuses| == 0 {
      return NONE_REPORTED;
    }
    var bad, i := [], 0;
    while i < |runs|
      invariant 0 <= i <= |runs| && bad == BadRuns(runs[..i])
    {
      var c := runs[i];
      assert runs[..i + 1][..i] == runs[..i];
      if c.status != "completed" {
        bad := bad + [c.name + "=" + c.status];
      } else if c.conclusion != Some("success") && c.conclusion != Some("skipped") && c.conclusion != Some("neutral") {
        bad := bad + [c.name + "=" + Show(c.conclusion)];
      }
      i := i + 1;
    }
    assert runs[..i] == runs;
    var latest, order := LatestStatuses(statuses);
    i := 0;
    ghost var runsBad := bad;
    assert bad + [] == bad;
    while i < |order|
      invariant 0 <= i <= |order| && bad == runsBad + BadStatuses(statuses, order[..i])
    {
      var c := order[i];
      assert c in order && order[..i + 1][..i] == order[..i];
      if latest[c].state != "success" {
        bad := bad + [c + "=" + latest[c].state];
      }
      i := i + 1;
    }
    assert order[..i] == order;
    verdict := if |bad| != 0 then NOT_GREEN + Join(SortTexts(bad), ", ") else OK;
  }

  /** The map-filling loop over the statuses. */
  method LatestStatuses(statuses: seq<Status>) returns (latest: map<string, Status>, order: seq<string>)
    ensures order == Contexts(statuses)
    ensures forall c | c in order :: c in latest && Current(statuses, c) == Some(latest[c])
  {
    var i := 0;
    latest, order := map[], [];
    while i < |statuses|
      invariant 0 <= i <= |statuses| && order == Contexts(statuses[..i])
      invariant forall c :: Current(statuses[..i], c) == if c in latest then Some(latest[c]) else None
    {
      var s := statuses[i];
      assert statuses[..i + 1][..i] == statuses[..i];
      ContextsOf(statuses[..i], s.context);
      if s.context !in latest {
        order := order + [s.context];
      }
      if s.context !in latest || s.at > latest[s.context].at {
        latest := latest[s.context := s];
      }
      i := i + 1;
    }
    assert statuses[..i] == statuses;
    forall c | c in order ensures c in latest {
      ContextsOf(statuses, c);
    }
  }

  /** `withRequiredContexts` */
  function WithRequired(verdict: string, missing: seq<string>): string {
    if missing == [] then verdict
    else if verdict == OK then NOT_REPORTED + Join(SortTexts(missing), ", ")
    else verdict + "; " + NOT_REPORTED + Join(SortTexts(missing), ", ")
  }

  // ----- decideBlocker -----

  datatype Pr = Pr(state: string, draft: bool, conflicting: bool, productionBase: bool, head: string)

  datatype Blocker = Closed | Draft | Conflicting | ChangesRequested | StaleReview | NoReview | RunFailed | ChecksRed
                   | ChecksPending | NeedsMotion | MergeReady

  predicate IsPending(text: string) {
    Contains(text, "in_progress") || Contains(text, "queued") || Contains(text, "=pending")
  }

  /** `checksStillWaiting` */
  predicate StillWaiting(verdict: string) {
    NONE_REPORTED <= verdict || NOT_REPORTED[..|NOT_REPORTED| - 2] <= verdict || IsPending(verdict)
  }

  function DecideKind(pr: Pr, review: string, checks: string, githubAvailable: bool, runFailed: bool): Blocker {
    if pr.state != "OPEN" && pr.state != "open" then Closed
    else if pr.draft then Draft
    else if pr.conflicting then Conflicting
    else if Contains(review, CHANGES) then ChangesRequested
    else if REVIEWED_ELSEWHERE <= review then StaleReview
    else if !githubAvailable then NoReview
    else if review != OK then (if runFailed then RunFailed else NoReview)
    else if checks != OK && !StillWaiting(checks) then ChecksRed
    else if checks != OK then ChecksPending
    else if pr.productionBase then NeedsMotion
    else MergeReady
  }

  /** The whole decision on what was read about a pull request. */
  function Decision(pr: Pr, reviews: seq<Review>, runs: seq<CheckRun>, statuses: seq<Status>, missing: seq<string>,
                    githubAvailable: bool, runFailed: bool): Blocker {
    DecideKind(pr, ReviewVerdict(reviews, pr.head), WithRequired(ChecksVerdict(runs, statuses), missing), githubAvailable, runFailed)
  }

  /** The bot's newest review is an approval of the head, and nobody's newest one there asks for changes. */
  ghost predicate Approved(reviews: seq<Review>, head: string) {
    && Bots(reviews) != []
    && Newest(Bots(reviews)).commit == Some(head) && Newest(Bots(reviews)).state == Some("APPROVED")
    && forall key :: !AsksForChanges(OnHead(reviews, head), key)
  }

  /** Something was reported, every run is green, and every context's current status is a success. */
  ghost predicate AllGreen(runs: seq<CheckRun>, statuses: seq<Status>) {
    && (runs != [] || statuses != [])
    && (forall r | r in runs :: Green(r))
    && (forall c :: !Failing(statuses, c))
  }

  lemma {:induction false} BlockingOf(onHead: seq<Review>, keys: seq<string>)
    ensures Blocking(onHead, keys) == [] <==> forall k | k in keys :: !AsksForChanges(onHead, k)
  {
    hide AsksForChanges;
    if keys != [] {
      var n := |keys| - 1;
      BlockingOf(onHead, keys[..n]);
      assert keys[n] in keys && forall k :: k in keys <==> k == keys[n] || k in keys[..n];
    }
  }

  lemma {:induction false} ApprovedIsOk(reviews: seq<Review>, head: string)
    ensures ReviewVerdict(reviews, head) == OK <==> Approved(reviews, head)
  {
    hide Newest, ByKey, SortByTime, Keys, SortTexts, Join, Blocking, Bots;
    var onHead := OnHead(reviews, head);
    var keys := Keys(SortByTime(onHead));
    BlockingOf(onHead, keys);
    forall k ensures k in keys <==> ByKey(onHead, k) != [] {
      KeysOf(SortByTime(onHead), k);
      SortByKey(onHead, k);
      SortedLast(ByKey(onHead, k));
    }
  }

  lemma BadRunsOf(runs: seq<CheckRun>)
    ensures BadRuns(runs) == [] <==> forall r | r in runs :: Green(r)
  {
    hide Green, RunText;
    if runs != [] {
      var n := |runs| - 1;
      BadRunsOf(runs[..n]);
      assert runs == runs[..n] + [runs[n]];
    }
  }

  lemma {:induction false} BadStatusesOf(ss: seq<Status>, contexts: seq<string>)
    ensures BadStatuses(ss, contexts) == [] <==> forall c | c in contexts :: !Failing(ss, c)
  {
    hide Current, Failing;
    if contexts != [] {
      var n := |contexts| - 1;
      BadStatusesOf(ss, contexts[..n]);
      assert contexts[n] in contexts && forall c :: c in contexts <==> c == contexts[n] || c in contexts[..n];
    }
  }

  lemma {:induction false} GreenIsOk(runs: seq<CheckRun>, statuses: seq<Status>)
    ensures ChecksVerdict(runs, statuses) == OK <==> AllGreen(runs, statuses)
  {
    hide Current, Contexts, BadRuns, BadStatuses, Green, SortTexts, Join;
    BadRunsOf(runs);
    BadStatusesOf(statuses, Contexts(statuses));
    forall c ensures c in Contexts(statuses) <==> Current(statuses, c).Some? {
      ContextsOf(statuses, c);
    }
    assert NONE_REPORTED[0] != OK[0] && NOT_GREEN[0] != OK[0];
  }

  /** A pull request is ready to merge exactly if it is open, not a draft, not conflicting and not on a
      production base, GitHub answered, the reviews approve, the checks are green, and no required
      context is missing. */
  lemma {:induction false} MergeReadyIff(pr: Pr, reviews: seq<Review>, runs: seq<CheckRun>, statuses: seq<Status>, missing: seq<string>,
                      githubAvailable: bool, runFailed: bool)
    ensures Decision(pr, reviews, runs, statuses, missing, githubAvailable, runFailed) == MergeReady
       <==> && (pr.state == "OPEN" || pr.state == "open") && !pr.draft && !pr.conflicting && !pr.productionBase
            && githubAvailable && Approved(reviews, pr.head) && AllGreen(runs, statuses) && missing == []
  {
    hide ReviewVerdict, ChecksVerdict, Approved, AllGreen, Join, SortTexts, StillWaiting;
    ApprovedIsOk(reviews, pr.head);
    GreenIsOk(runs, statuses);
    var v := ChecksVerdict(runs, statuses);
    if missing != [] {
      assert WithRequired(v, missing) != OK by {
        assert v == OK ==> WithRequired(v, missing)[0] == NOT_REPORTED[0] != OK[0];
        assert v != OK ==> |WithRequired(v, missing)| > |OK|;
      }
    }
    assert !Contains(OK, CHANGES) && !(REVIEWED_ELSEWHERE <= OK);
  }

  // ----- Red or still waiting -----

  /** A text cut at a character the needle does not have. */
  lemma ContainsSplit(a: string, c: char, b: string, needle: string)
    requires needle != [] && c !in needle
    ensures Contains(a + [c] + b, needle) <==> Contains(a, needle) || Contains(b, needle)
  {
    var t := a + [c] + b;
    assert a == t[..|a|] && b == t[|a| + 1..];
    forall i | 0 <= i <= |t| && OccursAt(t, needle, i) ensures OccursAt(a, needle, i) || (i > |a| && OccursAt(b, needle, i - |a| - 1)) {
      NoneInNeedle(t, needle, i, c);
      assert t[|a|] == c;
      if i <= |a| < i + |needle| {
        assert false;
      } else if i + |needle| <= |a| {
        assert t[i..i + |needle|] == a[i..i + |needle|];
      } else {
        assert t[i..i + |needle|] == b[i - |a| - 1..i - |a| - 1 + |needle|];
      }
    }
    forall i | 0 <= i <= |a| && OccursAt(a, needle, i) ensures OccursAt(t, needle, i) {
      assert t[i..i + |needle|] == a[i..i + |needle|];
    }
    forall i | 0 <= i <= |b| && OccursAt(b, needle, i) ensures OccursAt(t, needle, |a| + 1 + i) {
      assert t[|a| + 1 + i..|a| + 1 + i + |needle|] == b[i..i + |needle|];
    }
  }

  lemma NoneInNeedle(t: string, needle: string, i: nat, c: char)
    requires OccursAt(t, needle, i) && c !in needle
    ensures forall k | i <= k < i + |needle| :: t[k] != c
  {
    forall k | i <= k < i + |needle| ensures t[k] != c {
      assert t[i..i + |needle|][k - i] == t[k] && needle[k - i] in needle;
    }
  }

  lemma PendingSplit(a: string, c: char, b: string)
    requires c == ' ' || c == ',' || c == ';'
    ensures IsPending(a + [c] + b) <==> IsPending(a) || IsPending(b)
  {
    hide Contains;
    ContainsSplit(a, c, b, "in_progress");
    ContainsSplit(a, c, b, "queued");
    ContainsSplit(a, c, b, "=pending");
  }

  lemma Lacks(a: string, needle: string, k: nat)
    requires k < |needle| && needle[k] !in a
    ensures !Contains(a, needle)
  {
    forall i | 0 <= i <= |a| ensures !OccursAt(a, needle, i) {
      if i + |needle| <= |a| {
        assert a[i + k] == a[i..i + |needle|][k];
      }
    }
  }

  /** A word without `q`, `=` and `_`. */
  lemma PlainWord(a: string)
    requires 'q' !in a && '=' !in a && '_' !in a
    ensures !IsPending(a)
  {
    hide Contains;
    Lacks(a, "in_progress", 2);
    Lacks(a, "queued", 0);
    Lacks(a, "=pending", 0);
  }

  lemma TheWordRequired()
    ensures !IsPending("required")
  {
    var a := "required";
    Lacks(a, "in_progress", 2);
    Lacks(a, "=pending", 0);
    forall i | 0 <= i <= |a| ensures !OccursAt(a, "queued", i) {
      if i + 6 <= |a| {
        assert a[i..i + 6][2] == a[i + 2] != 'e';
      }
    }
  }

  lemma PendingAfterNotGreen(t: string)
    ensures IsPending(NOT_GREEN + t) <==> IsPending(t)
  {
    hide IsPending;
    PlainWord("checks not green:");
    PendingSplit("checks not green:", ' ', t);
    assert NOT_GREEN + t == "checks not green:" + [' '] + t;
  }

  lemma PendingAfterNotReported(t: string)
    ensures IsPending(NOT_REPORTED + t) <==> IsPending(t)
  {
    hide IsPending;
    var tail := "checks not reported:";
    TheWordRequired();
    PlainWord(tail);
    PendingSplit("required", ' ', tail + [' '] + t);
    PendingSplit(tail, ' ', t);
    assert NOT_REPORTED + t == "required" + [' '] + (tail + [' '] + t);
  }

  lemma {:induction false} PendingJoined(ts: seq<string>)
    ensures IsPending(Join(ts, ", ")) <==> exists t :: t in ts && IsPending(t)
  {
    hide IsPending;
    PlainWord("");
    if |ts| == 1 {
      assert ts[0] in ts;
    } else if ts != [] {
      var rest := Join(ts[1..], ", ");
      PendingJoined(ts[1..]);
      PendingSplit(ts[0], ',', [' '] + rest);
      PendingSplit("", ' ', rest);
      assert Join(ts, ", ") == ts[0] + [','] + ([' '] + rest) && "" + [' '] + rest == [' '] + rest;
      assert forall t :: t in ts <==> t == ts[0] || t in ts[1..];
    }
  }

  lemma SortTextsKeeps(ts: seq<string>)
    ensures forall x :: x in SortTexts(ts) <==> x in ts
  {
    SortSpec(ts, CharLt);
    assert forall x :: (x in multiset(ts) <==> x in ts) && (x in multiset(SortTexts(ts)) <==> x in SortTexts(ts));
  }

  /** Whether the whole verdict text counts as waiting is decided entry by entry. */
  lemma {:induction false} WaitingIff(runs: seq<CheckRun>, statuses: seq<Status>, missing: seq<string>)
    requires Bad(runs, statuses) != []
    ensures var v := WithRequired(ChecksVerdict(runs, statuses), missing);
            v != OK && (StillWaiting(v) <==> exists t :: t in Bad(runs, statuses) + missing && IsPending(t))
  {
    hide Bad, IsPending, SortTexts, Join;
    var bad := Bad(runs, statuses);
    var joined, required := Join(SortTexts(bad), ", "), Join(SortTexts(missing), ", ");
    assert runs != [] || statuses != [] by { NothingBad(); }
    var v := NOT_GREEN + joined;
    SortTextsKeeps(bad);
    SortTextsKeeps(missing);
    PendingJoined(SortTexts(bad));
    PendingJoined(SortTexts(missing));
    PendingAfterNotGreen(joined);
    PendingAfterNotReported(required);
    PendingSplit("", ' ', NOT_REPORTED + required);
    PlainWord("");
    PendingSplit(v, ';', [' '] + (NOT_REPORTED + required));
    assert "" + [' '] + (NOT_REPORTED + required) == [' '] + (NOT_REPORTED + required);
    assert v + "; " + NOT_REPORTED + required == v + [';'] + ([' '] + (NOT_REPORTED + required));
    assert v[0] == 'c' && (v + "; " + NOT_REPORTED + required)[0] == 'c';
  }

  lemma NothingBad()
    ensures Bad([], []) == []
  {
  }

  /** With the reviews in order, the checks count as red exactly if some check or status is bad and no
      bad entry, nor any missing required context, has "in_progress", "queued" or "=pending" in it. */
  lemma {:induction false} RedIff(pr: Pr, reviews: seq<Review>, runs: seq<CheckRun>, statuses: seq<Status>, missing: seq<string>, runFailed: bool)
    requires (pr.state == "OPEN" || pr.state == "open") && !pr.draft && !pr.conflicting && Approved(reviews, pr.head)
    ensures Decision(pr, reviews, runs, statuses, missing, true, runFailed) == ChecksRed
       <==> Bad(runs, statuses) != [] && forall t | t in Bad(runs, statuses) + missing :: !IsPending(t)
  {
    hide Bad, IsPending, ReviewVerdict, Approved, Join, SortTexts;
    ApprovedIsOk(reviews, pr.head);
    assert !Contains(OK, CHANGES) && !(REVIEWED_ELSEWHERE <= OK);
    if Bad(runs, statuses) != [] {
      WaitingIff(runs, statuses, missing);
    } else {
      NotBadIsNotRed(runs, statuses, missing);
    }
  }

  lemma NotBadIsNotRed(runs: seq<CheckRun>, statuses: seq<Status>, missing: seq<string>)
    requires Bad(runs, statuses) == []
    ensures var v := WithRequired(ChecksVerdict(runs, statuses), missing); v == OK || StillWaiting(v)
  {
    hide Bad, IsPending, Join, SortTexts;
  }

  /** So a check that failed for good counts as pending if its name says "queued". */
  lemma FailedCanCountAsPending(pr: Pr, reviews: seq<Review>)
    requires (pr.state == "OPEN" || pr.state == "open") && !pr.draft && !pr.conflicting && Approved(reviews, pr.head)
    ensures Decision(pr, reviews, [CheckRun("queued", "completed", Some("failure"))], [], [], true, false) == ChecksPending
  {
    hide IsPending, Approved, ReviewVerdict, Join, SortTexts;
    var runs := [CheckRun("queued", "completed", Some("failure"))];
    ApprovedIsOk(reviews, pr.head);
    assert !Contains(OK, CHANGES) && !(REVIEWED_ELSEWHERE <= OK);
    assert runs[..0] == [] && !Green(runs[0]) && RunText(runs[0]) == "queued=failure";
    assert BadRuns(runs) == ["queued=failure"];
    assert Bad(runs, []) == ["queued=failure"] && Bad(runs, [])[0] in Bad(runs, []) + [];
    assert IsPending("queued=failure") by {
      assert OccursAt("queued=failure", "queued", 0);
      NamesQueued("queued=failure");
    }
    WaitingIff(runs, [], []);
  }

  lemma NamesQueued(t: string)
    requires OccursAt(t, "queued", 0)
    ensures IsPending(t)
  {
  }
}
