/** Every outcome of the merge-readiness decision, on the reviews, checks and statuses themselves: exactly
    when each kind of blocker is reported. */
module MergeDecision {
  import opened Outcomes
  import opened Lexical
  import opened LatestReview
  import opened MergeReadiness

  // ----- The newest review of those that count -----

  function Pick(rs: seq<Review>, p: Review -> bool): seq<Review> {
    if rs == [] then [] else (if p(rs[0]) then [rs[0]] else []) + Pick(rs[1..], p)
  }

  /** Of the reviews that count none is later than this one, and none after it in the list is as late. */
  ghost predicate NewestAt(rs: seq<Review>, p: Review -> bool, i: nat) {
    && i < |rs| && p(rs[i])
    && forall j | 0 <= j < |rs| && p(rs[j]) :: if j <= i then rs[j].at <= rs[i].at else rs[j].at < rs[i].at
  }

  lemma {:induction false} NewestPick(rs: seq<Review>, p: Review -> bool)
    ensures Pick(rs, p) == [] <==> forall j | 0 <= j < |rs| :: !p(rs[j])
    ensures Pick(rs, p) != [] ==> exists i: nat :: i < |rs| && NewestAt(rs, p, i) && rs[i] == Newest(Pick(rs, p))
  {
    if rs != [] {
      var rest := rs[1..];
      NewestPick(rest, p);
      assert forall j | 0 < j < |rs| :: rs[j] == rest[j - 1];
      var picked := Pick(rest, p);
      assert p(rs[0]) ==> ([rs[0]] + picked)[1..] == picked;
      if picked != [] {
        var i: nat :| i < |rest| && NewestAt(rest, p, i) && rest[i] == Newest(picked);
        if p(rs[0]) && rs[0].at > rest[i].at {
          assert NewestAt(rs, p, 0);
        } else {
          assert NewestAt(rs, p, i + 1);
          assert !p(rs[0]) ==> [] + picked == picked;
        }
      } else if p(rs[0]) {
        assert NewestAt(rs, p, 0) && [rs[0]] + picked == [rs[0]];
      }
    }
  }

  lemma OneNewest(rs: seq<Review>, p: Review -> bool, i: nat, j: nat)
    requires NewestAt(rs, p, i) && NewestAt(rs, p, j)
    ensures i == j && i < |rs|
  {
  }

  predicate ByBot(r: Review) {
    r.login == Some("thinman-overseer[bot]")
  }

  predicate ByUser(r: Review, head: string, user: string) {
    r.commit == Some(head) && (match r.login case Some(login) => login case None => "?") == user
  }

  function UserOnHead(head: string, user: string): Review -> bool {
    (r: Review) => ByUser(r, head, user)
  }

  lemma {:induction false} BotsArePicked(rs: seq<Review>)
    ensures Bots(rs) == Pick(rs, ByBot)
  {
    if rs != [] {
      BotsArePicked(rs[1..]);
    }
  }

  lemma {:induction false} UserIsPicked(rs: seq<Review>, head: string, user: string)
    ensures ByKey(OnHead(rs, head), user) == Pick(rs, UserOnHead(head, user))
  {
    if rs != [] {
      UserIsPicked(rs[1..], head, user);
      var r, rest := rs[0], OnHead(rs[1..], head);
      assert ([r] + rest)[1..] == rest && [] + rest == rest;
      assert ByKey(rest, user) == [] + ByKey(rest, user);
    }
  }

  /** The bot's newest review. */
  ghost predicate BotsNewest(reviews: seq<Review>, i: nat) {
    NewestAt(reviews, ByBot, i)
  }

  ghost predicate NoBot(reviews: seq<Review>) {
    forall j | 0 <= j < |reviews| :: !ByBot(reviews[j])
  }

  /** The user's newest review of the head asks for changes. */
  ghost predicate Objects(reviews: seq<Review>, head: string, user: string) {
    exists i: nat :: i < |reviews| && NewestAt(reviews, UserOnHead(head, user), i) && reviews[i].state == Some("CHANGES_REQUESTED")
  }

  ghost predicate SomebodyObjects(reviews: seq<Review>, head: string) {
    exists user :: Objects(reviews, head, user)
  }

  lemma UserObjects(reviews: seq<Review>, head: string, user: string)
    ensures AsksForChanges(OnHead(reviews, head), user) <==> Objects(reviews, head, user)
  {
    hide NewestAt, Newest;
    var p := UserOnHead(head, user);
    UserIsPicked(reviews, head, user);
    NewestPick(reviews, p);
    if Pick(reviews, p) != [] {
      var i: nat :| i < |reviews| && NewestAt(reviews, p, i) && reviews[i] == Newest(Pick(reviews, p));
      forall j: nat | NewestAt(reviews, p, j) ensures j == i {
        OneNewest(reviews, p, i, j);
      }
    } else {
      assert forall j: nat :: !NewestAt(reviews, p, j) by { NoneNewest(reviews, p); }
    }
  }

  lemma NoneNewest(rs: seq<Review>, p: Review -> bool)
    requires forall j | 0 <= j < |rs| :: !p(rs[j])
    ensures forall i: nat :: !NewestAt(rs, p, i)
  {
  }

  lemma ObjectionIff(reviews: seq<Review>, head: string)
    ensures SomebodyObjects(reviews, head) <==> exists key :: AsksForChanges(OnHead(reviews, head), key)
  {
    hide Objects, AsksForChanges;
    if SomebodyObjects(reviews, head) {
      var user :| Objects(reviews, head, user);
      UserObjects(reviews, head, user);
    }
    if key :| AsksForChanges(OnHead(reviews, head), key) {
      UserObjects(reviews, head, key);
    }
  }

  // ----- What the review text says -----

  /** What the bot's newest review makes of the pull request. */
  datatype Standing = NoBotReview | OtherCommit | NotAnApproval(state: string) | Objected | Fine

  ghost predicate Stands(reviews: seq<Review>, head: string, s: Standing) {
    match s
    case NoBotReview => NoBot(reviews)
    case OtherCommit => exists i: nat :: BotsNewest(reviews, i) && reviews[i].commit != Some(head)
    case NotAnApproval(state) =>
      exists i: nat :: BotsNewest(reviews, i) && reviews[i].commit == Some(head) && reviews[i].state != Some("APPROVED")
                       && state == (match reviews[i].state case Some(x) => x case None => "null")
    case Objected =>
      (exists i: nat :: BotsNewest(reviews, i) && reviews[i].commit == Some(head) && reviews[i].state == Some("APPROVED"))
      && SomebodyObjects(reviews, head)
    case Fine =>
      (exists i: nat :: BotsNewest(reviews, i) && reviews[i].commit == Some(head) && reviews[i].state == Some("APPROVED"))
      && !SomebodyObjects(reviews, head)
  }

  lemma WordsWithoutC()
    ensures !Contains("no Overseer review", CHANGES) && !Contains("latest Overseer review is on", CHANGES)
    ensures !Contains("latest Overseer review is", CHANGES) && !Contains("head is", CHANGES)
  {
    Lacks("no Overseer review", CHANGES, 0);
    Lacks("latest Overseer review is on", CHANGES, 0);
    Lacks("latest Overseer review is", CHANGES, 0);
    Lacks("head is", CHANGES, 0);
  }

  lemma TooShort(t: string, needle: string)
    requires |t| < |needle|
    ensures !Contains(t, needle)
  {
  }

  lemma ElsewhereText(commit: string, head: string)
    requires |commit| <= 8 && |head| <= 8
    ensures var v := REVIEWED_ELSEWHERE + commit + ", head is " + head;
            !Contains(v, CHANGES) && REVIEWED_ELSEWHERE <= v && v[0] == 'l'
  {
    hide Contains;
    var v := REVIEWED_ELSEWHERE + commit + ", head is " + head;
    var tail := "head is" + [' '] + head;
    var mid := (commit + ",") + [' '] + tail;
    WordsWithoutC();
    TooShort(head, CHANGES);
    TooShort(commit + ",", CHANGES);
    ContainsSplit("head is", ' ', head, CHANGES);
    ContainsSplit(commit + ",", ' ', tail, CHANGES);
    ContainsSplit("latest Overseer review is on", ' ', mid, CHANGES);
    assert v == "latest Overseer review is on" + [' '] + mid by {
      assert REVIEWED_ELSEWHERE == "latest Overseer review is on" + [' '];
      assert ", head is " == "," + [' '] + "head is" + [' '];
    }
  }

  lemma StateText(state: string)
    ensures var v := REVIEWED_AS + state;
            && (Contains(v, CHANGES) <==> Contains(state, CHANGES))
            && (REVIEWED_ELSEWHERE <= v <==> "on " <= state) && v[0] == 'l'
  {
    hide Contains;
    var v, n := REVIEWED_AS + state, |REVIEWED_AS|;
    WordsWithoutC();
    ContainsSplit("latest Overseer review is", ' ', state, CHANGES);
    assert v == "latest Overseer review is" + [' '] + state by {
      assert REVIEWED_AS == "latest Overseer review is" + [' '];
    }
    assert REVIEWED_ELSEWHERE == REVIEWED_AS + "on ";
    assert v[..n] == REVIEWED_AS && v[n..] == state;
    if REVIEWED_ELSEWHERE <= v {
      assert state[..3] == v[n..n + 3] == REVIEWED_ELSEWHERE[n..n + 3] == "on ";
    }
    if "on " <= state {
      assert v[..n + 3] == REVIEWED_AS + state[..3];
    }
  }

  lemma ObjectedText(users: string)
    ensures var v := ASKED_BY + users; Contains(v, CHANGES) && |v| > 2 && v[0] == 'C'
  {
    var v := ASKED_BY + users;
    assert |CHANGES| == 17 && |ASKED_BY| > 17 && ASKED_BY[..17] == CHANGES;
    assert v[0] == ASKED_BY[..17][0] == CHANGES[0] == 'C';
    assert v[0..17] == ASKED_BY[..17];
    assert OccursAt(v, CHANGES, 0) && 0 <= |v|;
  }

  /** What decides whether a text counts as a request for changes, or as a review of another commit. */
  ghost predicate Reads(s: Standing, v: string) {
    && (Contains(v, CHANGES) <==> s.Objected? || (s.NotAnApproval? && Contains(s.state, "CHANGES_REQUESTED")))
    && (REVIEWED_ELSEWHERE <= v <==> s.OtherCommit? || (s.NotAnApproval? && "on " <= s.state))
    && (v == OK <==> s.Fine?)
  }

  lemma {:induction false} StandingIs(reviews: seq<Review>, head: string) returns (s: Standing)
    ensures Stands(reviews, head, s) && Reads(s, ReviewVerdict(reviews, head))
  {
    hide Newest, Bots, Blocking, SortByTime, Keys, SortTexts, Join, Contains, SomebodyObjects, REVIEWED_ELSEWHERE, REVIEWED_AS, ASKED_BY, NewestAt;
    var v := ReviewVerdict(reviews, head);
    BotsArePicked(reviews);
    NewestPick(reviews, ByBot);
    if Bots(reviews) == [] {
      s := NoBotReview;
      WordsWithoutC();
      PlainTexts();
    } else {
      var i: nat :| i < |reviews| && NewestAt(reviews, ByBot, i) && reviews[i] == Newest(Pick(reviews, ByBot));
      var bot := reviews[i];
      assert BotsNewest(reviews, i);
      PlainTexts();
      if bot.commit != Some(head) {
        s := OtherCommit;
        ElsewhereText(Short(Show(bot.commit)), Short(head));
      } else if bot.state != Some("APPROVED") {
        s := NotAnApproval(Show(bot.state));
        StateText(Show(bot.state));
      } else {
        ObjectionIff(reviews, head);
        ApprovedIsOk(reviews, head);
        BlockedText(reviews, head);
        s := if SomebodyObjects(reviews, head) then Objected else Fine;
      }
    }
  }

  lemma PlainTexts()
    ensures !(REVIEWED_ELSEWHERE <= "no Overseer review") && !Contains(OK, CHANGES) && !(REVIEWED_ELSEWHERE <= OK)
    ensures REVIEWED_ELSEWHERE[0] == 'l' && |REVIEWED_ELSEWHERE| > 0
  {
  }

  lemma BlockedText(reviews: seq<Review>, head: string)
    requires Bots(reviews) != [] && Newest(Bots(reviews)).commit == Some(head) && Newest(Bots(reviews)).state == Some("APPROVED")
    ensures ReviewVerdict(reviews, head) == OK
            || (Contains(ReviewVerdict(reviews, head), CHANGES) && ReviewVerdict(reviews, head)[0] == 'C' && |ReviewVerdict(reviews, head)| > 2)
  {
    hide Newest, Bots, Blocking, SortByTime, Keys, SortTexts, Join, Contains, ASKED_BY;
    var blocking := Blocking(OnHead(reviews, head), Keys(SortByTime(OnHead(reviews, head))));
    ObjectedText(Join(SortTexts(blocking), ","));
  }

  lemma OneStanding(reviews: seq<Review>, head: string, s: Standing, t: Standing)
    requires Stands(reviews, head, s) && Stands(reviews, head, t)
    ensures s == t
  {
    hide SomebodyObjects;
    forall i: nat, j: nat | BotsNewest(reviews, i) && BotsNewest(reviews, j) ensures i == j {
      OneNewest(reviews, ByBot, i, j);
    }
  }

  // ----- What is bad among the checks -----

  /** The entry of a run that has not completed well. */
  ghost predicate BadRun(runs: seq<CheckRun>, i: nat, t: string) {
    && i < |runs|
    && if runs[i].status != "completed" then t == runs[i].name + "=" + runs[i].status
       else match runs[i].conclusion
            case None => t == runs[i].name + "=" + "null"
            case Some(c) => c != "success" && c != "skipped" && c != "neutral" && t == runs[i].name + "=" + c
  }

  /** The entry of a context whose latest status, the first one among equals, is no success. */
  ghost predicate BadStatus(ss: seq<Status>, i: nat, t: string) {
    && i < |ss| && ss[i].state != "success" && t == ss[i].context + "=" + ss[i].state
    && forall j | 0 <= j < |ss| && ss[j].context == ss[i].context :: if j < i then ss[j].at < ss[i].at else ss[j].at <= ss[i].at
  }

  ghost predicate IsBad(runs: seq<CheckRun>, ss: seq<Status>, t: string) {
    (exists i: nat :: BadRun(runs, i, t)) || (exists i: nat :: BadStatus(ss, i, t))
  }

  lemma {:induction false} BadRunsAre(runs: seq<CheckRun>, t: string)
    ensures t in BadRuns(runs) <==> exists i: nat :: BadRun(runs, i, t)
  {
    if runs != [] {
      var n := |runs| - 1;
      BadRunsAre(runs[..n], t);
      assert forall i: nat | i < n :: BadRun(runs, i, t) <==> BadRun(runs[..n], i, t);
      assert BadRun(runs, n, t) <==> !Green(runs[n]) && t == RunText(runs[n]);
    }
  }

  lemma {:induction false} BadStatusesAre(ss: seq<Status>, contexts: seq<string>, t: string)
    ensures t in BadStatuses(ss, contexts) <==> exists c :: c in contexts && Failing(ss, c) && t == c + "=" + Current(ss, c).value.state
  {
    hide Current;
    if contexts != [] {
      var n := |contexts| - 1;
      BadStatusesAre(ss, contexts[..n], t);
      assert forall c :: c in contexts <==> c == contexts[n] || c in contexts[..n];
    }
  }

  lemma {:induction false} BadAre(runs: seq<CheckRun>, ss: seq<Status>, t: string)
    ensures t in Bad(runs, ss) <==> IsBad(runs, ss, t)
  {
    hide Current, Contexts, BadRun;
    BadRunsAre(runs, t);
    BadStatusesAre(ss, Contexts(ss), t);
    forall c | c in Contexts(ss) && Failing(ss, c) && t == c + "=" + Current(ss, c).value.state
      ensures exists i: nat :: BadStatus(ss, i, t)
    {
      var i := CurrentIsFirstLatest(ss, c);
      assert BadStatus(ss, i, t);
    }
    forall i: nat | BadStatus(ss, i, t) ensures t in BadStatuses(ss, Contexts(ss)) {
      var c := ss[i].context;
      var k := CurrentIsFirstLatest(ss, c);
      ContextsOf(ss, c);
      assert k == i;
    }
  }

  /** The entry says that something still runs or waits. */
  ghost predicate Waits(t: string) {
    exists i :: OccursAt(t, "in_progress", i) || OccursAt(t, "queued", i) || OccursAt(t, "=pending", i)
  }

  lemma WaitsIff(t: string)
    ensures IsPending(t) <==> Waits(t)
  {
  }

  lemma GreenIff(runs: seq<CheckRun>, ss: seq<Status>)
    ensures AllGreen(runs, ss) <==> (runs != [] || ss != []) && forall t :: !IsBad(runs, ss, t)
  {
    hide Current, Contexts, BadRuns, BadStatuses, IsBad, AllGreen;
    forall t ensures t in Bad(runs, ss) <==> IsBad(runs, ss, t) {
      BadAre(runs, ss, t);
    }
    GreenIsBadless(runs, ss);
    if Bad(runs, ss) != [] {
      assert Bad(runs, ss)[0] in Bad(runs, ss);
    }
  }

  lemma GreenIsBadless(runs: seq<CheckRun>, ss: seq<Status>)
    ensures AllGreen(runs, ss) <==> (runs != [] || ss != []) && Bad(runs, ss) == []
  {
    hide Current, Contexts, BadRuns, BadStatuses, Green;
    BadRunsOf(runs);
    BadStatusesOf(ss, Contexts(ss));
    forall c ensures c in Contexts(ss) <==> Current(ss, c).Some? {
      ContextsOf(ss, c);
    }
  }

  // ----- The decision -----

  ghost predicate Settled(runs: seq<CheckRun>, ss: seq<Status>, missing: seq<string>) {
    (runs != [] || ss != []) && missing == [] && forall t :: !IsBad(runs, ss, t)
  }

  /** Something is bad, and no bad entry nor missing context says that it waits. */
  ghost predicate RedForGood(runs: seq<CheckRun>, ss: seq<Status>, missing: seq<string>) {
    (exists t :: IsBad(runs, ss, t)) && (forall t | IsBad(runs, ss, t) :: !Waits(t)) && forall t | t in missing :: !Waits(t)
  }

  /** The outcome for a pull request that is open, no draft and not conflicting. */
  ghost predicate OpenOutcome(pr: Pr, s: Standing, runs: seq<CheckRun>, ss: seq<Status>, missing: seq<string>,
                              githubAvailable: bool, runFailed: bool, b: Blocker) {
    var asked := s.Objected? || (s.NotAnApproval? && exists i :: OccursAt(s.state, "CHANGES_REQUESTED", i));
    var elsewhere := s.OtherCommit? || (s.NotAnApproval? && "on " <= s.state);
    match b
    case ChangesRequested => asked
    case StaleReview => !asked && elsewhere
    case NoReview => !asked && !elsewhere && (!githubAvailable || (!s.Fine? && !runFailed))
    case RunFailed => !asked && !elsewhere && githubAvailable && !s.Fine? && runFailed
    case ChecksRed => s.Fine? && githubAvailable && RedForGood(runs, ss, missing)
    case ChecksPending => s.Fine? && githubAvailable && !Settled(runs, ss, missing) && !RedForGood(runs, ss, missing)
    case NeedsMotion => s.Fine? && githubAvailable && Settled(runs, ss, missing) && pr.productionBase
    case MergeReady => s.Fine? && githubAvailable && Settled(runs, ss, missing) && !pr.productionBase
    case _ => false
  }

  /** Exactly which outcome is reported when, for all of them. */
  lemma {:induction false} DecisionIff(pr: Pr, reviews: seq<Review>, runs: seq<CheckRun>, ss: seq<Status>, missing: seq<string>,
                                       githubAvailable: bool, runFailed: bool, s: Standing, b: Blocker)
    requires Stands(reviews, pr.head, s)
    ensures Decision(pr, reviews, runs, ss, missing, githubAvailable, runFailed) == b
       <==> if pr.state != "OPEN" && pr.state != "open" then b == Closed
            else if pr.draft then b == Draft
            else if pr.conflicting then b == Conflicting
            else OpenOutcome(pr, s, runs, ss, missing, githubAvailable, runFailed, b)
  {
    hide ReviewVerdict, ChecksVerdict, StillWaiting, RedForGood, Settled, Stands, REVIEWED_ELSEWHERE, Contains;
    var t := StandingIs(reviews, pr.head);
    OneStanding(reviews, pr.head, s, t);
    ContainsIff(ReviewVerdict(reviews, pr.head), CHANGES);
    if s.NotAnApproval? {
      ContainsIff(s.state, "CHANGES_REQUESTED");
    }
    ChecksAre(runs, ss, missing);
  }

  lemma ContainsIff(t: string, needle: string)
    ensures Contains(t, needle) <==> exists i :: OccursAt(t, needle, i)
  {
  }

  lemma {:induction false} ChecksAre(runs: seq<CheckRun>, ss: seq<Status>, missing: seq<string>)
    ensures var v := WithRequired(ChecksVerdict(runs, ss), missing);
            && (v == OK <==> Settled(runs, ss, missing))
            && (v != OK && !StillWaiting(v) <==> RedForGood(runs, ss, missing))
  {
    hide Bad, IsPending, StillWaiting, IsBad, Waits, Join, SortTexts, ChecksVerdict;
    var v := WithRequired(ChecksVerdict(runs, ss), missing);
    GreenIsOk(runs, ss);
    GreenIff(runs, ss);
    MissingIsNotOk(ChecksVerdict(runs, ss), missing);
    forall t ensures (t in Bad(runs, ss) <==> IsBad(runs, ss, t)) && (IsPending(t) <==> Waits(t)) {
      BadAre(runs, ss, t);
      WaitsIff(t);
    }
    if Bad(runs, ss) != [] {
      assert Bad(runs, ss)[0] in Bad(runs, ss);
      WaitingIff(runs, ss, missing);
    } else {
      NotBadIsNotRed(runs, ss, missing);
    }
  }

  lemma MissingIsNotOk(verdict: string, missing: seq<string>)
    ensures missing != [] ==> WithRequired(verdict, missing) != OK
  {
    hide Join, SortTexts;
    if missing != [] {
      assert verdict == OK ==> WithRequired(verdict, missing)[0] == NOT_REPORTED[0] != OK[0];
      assert verdict != OK ==> |WithRequired(verdict, missing)| > |OK|;
    }
  }
}
