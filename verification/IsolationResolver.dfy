/** `IsolationResolver.resolve` of `packages/isolation/src/resolver.ts` over the table of environments
    (`packages/core/src/db/isolation-environments.ts`) and the worktrees on disk, for one call with
    nothing running beside it. */
module IsolationResolver {
  import opened Outcomes

  type Path = string

  /** What an environment is for. One active row per key. */
  datatype Key = Key(codebase: string, kind: string, workflow: string)

  datatype Row = Row(key: Key, path: Path, branch: string, active: bool)

  type Table = map<nat, Row>

  datatype Method = Existing | WorkflowReuse | LinkedIssueReuse(issue: string) | BranchAdoption | Created

  datatype Resolution = Resolved(id: nat, how: Method) | StaleCleaned | NoIsolation | Blocked | Threw

  /** A call into git or the provider: it succeeds, fails in a way the resolver knows, or otherwise. */
  datatype Attempt<T> = Success(value: T) | KnownFailure | UnknownFailure

  datatype Request = Request(existing: Option<nat>, codebase: Option<string>, kind: string, workflow: string,
                             linked: seq<string>, prBranch: Option<string>)

  /** What the surroundings answer during the call. `branchPath` is the worktree git lists for the pull
      request's branch, `newPath` the one the provider hands over: a new one, or one of this repository
      that was there already. The flags say which store and provider calls fail. */
  datatype Surroundings = Surroundings(canonical: Attempt<string>, branchPath: Option<Path>, newPath: Attempt<Path>,
                                       newBranch: string, statusFails: bool, createFails: bool, destroyFails: bool)

  /** The provider hands over no worktree of another clone. */
  predicate ProviderOk(disk: map<Path, string>, w: Surroundings) {
    w.newPath.Success? && w.canonical.Success? && w.newPath.value in disk ==> disk[w.newPath.value] == w.canonical.value
  }

  predicate UniqueKeys(t: Table) {
    forall i, j | i in t && j in t && t[i].active && t[j].active && t[i].key == t[j].key :: i == j
  }

  /** The difference one call may make to the rows that were there: one of a missing worktree is marked
      destroyed, or taken over by the new environment of its key. */
  ghost predicate OnlyStaleRowsChange(before: Table, after: Table, disk: map<Path, string>) {
    forall i | i in before ::
      i in after
      && (after[i] == before[i]
          || (before[i].active && before[i].path !in disk
              && (after[i] == before[i].(active := false) || (after[i].active && after[i].key == before[i].key))))
  }

  lemma StaleTwice(a: Table, b: Table, c: Table, disk: map<Path, string>)
    requires OnlyStaleRowsChange(a, b, disk) && OnlyStaleRowsChange(b, c, disk)
    requires forall i | i in a :: b[i] == a[i] || !b[i].active
    ensures OnlyStaleRowsChange(a, c, disk)
  {
  }

  // ----- What a call must answer -----

  /** The row is active for the key and its worktree exists. */
  ghost predicate IsLive(t: Table, disk: map<Path, string>, key: Key, i: nat) {
    i in t && t[i].active && t[i].key == key && t[i].path in disk
  }

  ghost function Live(t: Table, disk: map<Path, string>, key: Key): (r: Option<nat>)
    ensures r.Some? ==> IsLive(t, disk, key, r.value)
    ensures r.None? ==> forall i :: !IsLive(t, disk, key, i)
  {
    if exists i :: IsLive(t, disk, key, i) then
      var i :| IsLive(t, disk, key, i);
      Some(i)
    else None
  }

  /** The first linked issue with a live row, and the row. */
  ghost function FirstLinked(t: Table, disk: map<Path, string>, codebase: string, linked: seq<string>): (r: Option<(string, nat)>)
    ensures r.Some? ==> r.value.0 in linked && IsLive(t, disk, Key(codebase, "issue", r.value.0), r.value.1)
  {
    if linked == [] then None
    else
      match Live(t, disk, Key(codebase, "issue", linked[0]))
      case Some(i) => Some((linked[0], i))
      case None => FirstLinked(t, disk, codebase, linked[1..])
  }

  /** An answer that needs no new row, or what has to be recorded. */
  datatype Plan = Give(r: Resolution) | Adopt(path: Path) | Make

  /** A worktree is given out only to the repository it belongs to. */
  function IfOurs(owner: string, canonical: string, r: Resolution): Resolution {
    if owner == canonical then r else Resolution.Threw
  }

  /** The worktree of the pull request's branch is adopted, or a new one made. */
  ghost function RecordPlan(disk: map<Path, string>, q: Request, ours: string, w: Surroundings): Plan {
    if q.prBranch.Some? && w.branchPath.Some? && w.branchPath.value in disk then
      if disk[w.branchPath.value] == ours then Adopt(w.branchPath.value) else Give(Threw)
    else Make
  }

  /** The order of resolution within a codebase, over the rows and the disk as the call finds them. */
  ghost function CodebasePlan(t: Table, disk: map<Path, string>, q: Request, codebase: string, ours: string, w: Surroundings): Plan {
    match Live(t, disk, Key(codebase, q.kind, q.workflow))
    case Some(i) => Give(IfOurs(disk[t[i].path], ours, Resolved(i, WorkflowReuse)))
    case None =>
      match FirstLinked(t, disk, codebase, q.linked)
      case Some(found) => Give(IfOurs(disk[t[found.1].path], ours, Resolved(found.1, LinkedIssueReuse(found.0))))
      case None => RecordPlan(disk, q, ours, w)
  }

  ghost function PlanOf(t: Table, disk: map<Path, string>, q: Request, w: Surroundings): Plan {
    if q.existing.Some? then
      Give(if q.existing.value in t && t[q.existing.value].path in disk then Resolved(q.existing.value, Existing) else StaleCleaned)
    else if q.codebase.None? then Give(NoIsolation)
    else if !w.canonical.Success? then Give(if w.canonical.KnownFailure? then Blocked else Threw)
    else CodebasePlan(t, disk, q, q.codebase.value, w.canonical.value, w)
  }

  /** Row `i` is active for this purpose and its worktree is on disk. */
  predicate HasWorktree(t: Table, disk: map<Path, string>, codebase: string, kind: string, workflow: string, i: nat) {
    && i in t && t[i].active && t[i].path in disk
    && t[i].key.codebase == codebase && t[i].key.kind == kind && t[i].key.workflow == workflow
  }

  /** Linked issue `n` is the first that has one, in row `i`. */
  ghost predicate FirstShared(t: Table, disk: map<Path, string>, codebase: string, linked: seq<string>, n: nat, i: nat) {
    && n < |linked| && HasWorktree(t, disk, codebase, "issue", linked[n], i)
    && forall m, j: nat | 0 <= m < n :: !HasWorktree(t, disk, codebase, "issue", linked[m], j)
  }

  predicate KeyWorktree(t: Table, disk: map<Path, string>, q: Request, codebase: string, i: nat) {
    HasWorktree(t, disk, codebase, q.kind, q.workflow, i)
  }

  /** The first linked issue that has one is this issue. */
  ghost predicate SharedWorktree(t: Table, disk: map<Path, string>, q: Request, codebase: string, issue: string, i: nat) {
    && i in t && t[i].path in disk
    && exists n: nat :: n < |q.linked| && q.linked[n] == issue && FirstShared(t, disk, codebase, q.linked, n, i)
  }

  ghost predicate NoneOfTheKey(t: Table, disk: map<Path, string>, q: Request, codebase: string) {
    forall i: nat :: !HasWorktree(t, disk, codebase, q.kind, q.workflow, i)
  }

  ghost predicate NoneShared(t: Table, disk: map<Path, string>, q: Request, codebase: string) {
    forall n, i: nat | 0 <= n < |q.linked| :: !HasWorktree(t, disk, codebase, "issue", q.linked[n], i)
  }

  /** Git lists this worktree for the pull request's branch, and it is on disk. */
  predicate Listed(disk: map<Path, string>, q: Request, w: Surroundings, path: Path) {
    q.prBranch.Some? && w.branchPath == Some(path) && path in disk
  }

  lemma LiveHas(t: Table, disk: map<Path, string>, codebase: string, kind: string, workflow: string)
    ensures var live := Live(t, disk, Key(codebase, kind, workflow));
            && (live.None? <==> forall i: nat :: !HasWorktree(t, disk, codebase, kind, workflow, i))
            && (live.Some? ==> HasWorktree(t, disk, codebase, kind, workflow, live.value))
            && (UniqueKeys(t) ==> forall i: nat | HasWorktree(t, disk, codebase, kind, workflow, i) :: live == Some(i))
  {
    hide Live;
    var key := Key(codebase, kind, workflow);
    assert forall i: nat :: HasWorktree(t, disk, codebase, kind, workflow, i) <==> IsLive(t, disk, key, i);
    if UniqueKeys(t) {
      forall i: nat | IsLive(t, disk, key, i) ensures Live(t, disk, key) == Some(i) {
        LiveIs(t, disk, key, i);
      }
    }
  }

  lemma {:induction false} FirstLinkedIs(t: Table, disk: map<Path, string>, codebase: string, linked: seq<string>)
    ensures match FirstLinked(t, disk, codebase, linked)
            case Some(found) => exists n: nat :: n < |linked| && FirstShared(t, disk, codebase, linked, n, found.1) && linked[n] == found.0
            case None => forall n, i: nat | 0 <= n < |linked| :: !HasWorktree(t, disk, codebase, "issue", linked[n], i)
  {
    hide Live, HasWorktree;
    if linked != [] {
      LiveHas(t, disk, codebase, "issue", linked[0]);
      var live := Live(t, disk, Key(codebase, "issue", linked[0]));
      if live.Some? {
        assert FirstShared(t, disk, codebase, linked, 0, live.value);
      } else {
        FirstLinkedIs(t, disk, codebase, linked[1..]);
        assert forall m | 0 < m < |linked| :: linked[m] == linked[1..][m - 1];
        if FirstLinked(t, disk, codebase, linked[1..]).Some? {
          var found := FirstLinked(t, disk, codebase, linked[1..]).value;
          var n: nat :| n < |linked| - 1 && FirstShared(t, disk, codebase, linked[1..], n, found.1) && linked[1..][n] == found.0;
          assert FirstShared(t, disk, codebase, linked, n + 1, found.1);
        }
      }
    }
  }

  lemma OneShared(t: Table, disk: map<Path, string>, codebase: string, linked: seq<string>, m: nat, i: nat, n: nat, j: nat)
    requires UniqueKeys(t) && FirstShared(t, disk, codebase, linked, m, i) && FirstShared(t, disk, codebase, linked, n, j)
    ensures m == n && i == j
  {
  }

  lemma SharedIff(t: Table, disk: map<Path, string>, q: Request, codebase: string)
    requires UniqueKeys(t)
    ensures var found := FirstLinked(t, disk, codebase, q.linked);
            && (found.None? <==> NoneShared(t, disk, q, codebase))
            && (forall n: nat, i: nat | FirstShared(t, disk, codebase, q.linked, n, i) :: found == Some((q.linked[n], i)))
            && (found.Some? ==>
                  exists n: nat :: n < |q.linked| && FirstShared(t, disk, codebase, q.linked, n, found.value.1) && q.linked[n] == found.value.0)
  {
    hide FirstLinked, HasWorktree;
    FirstLinkedIs(t, disk, codebase, q.linked);
    forall n: nat, i: nat | FirstShared(t, disk, codebase, q.linked, n, i)
      ensures FirstLinked(t, disk, codebase, q.linked) == Some((q.linked[n], i))
    {
      var found := FirstLinked(t, disk, codebase, q.linked).value;
      var m: nat :| m < |q.linked| && FirstShared(t, disk, codebase, q.linked, m, found.1) && q.linked[m] == found.0;
      OneShared(t, disk, codebase, q.linked, m, found.1, n, i);
    }
  }

  lemma SharedIsLive(t: Table, disk: map<Path, string>, codebase: string, linked: seq<string>, n: nat, i: nat)
    requires FirstShared(t, disk, codebase, linked, n, i)
    ensures n < |linked| && i in t && t[i].path in disk
  {
  }

  /** Within a codebase, exactly which answer is given when. A worktree of the key is reused if it is ours;
      without one, that of the first linked issue that has one is shared, if it is ours; without either,
      the one git lists for the branch is adopted, if it is ours; and without that a new one is made. It
      is an exception exactly if the first of these is another clone's. */
  lemma {:induction false} CodebasePlanIff(t: Table, disk: map<Path, string>, q: Request, codebase: string, ours: string, w: Surroundings)
    requires UniqueKeys(t)
    ensures var plan := CodebasePlan(t, disk, q, codebase, ours, w);
            && (forall i: nat :: plan == Give(Resolved(i, WorkflowReuse)) <==> KeyWorktree(t, disk, q, codebase, i) && disk[t[i].path] == ours)
            && (forall i: nat, issue :: plan == Give(Resolved(i, LinkedIssueReuse(issue))) <==>
                  NoneOfTheKey(t, disk, q, codebase) && SharedWorktree(t, disk, q, codebase, issue, i) && disk[t[i].path] == ours)
            && (forall path :: plan == Adopt(path) <==>
                  NoneOfTheKey(t, disk, q, codebase) && NoneShared(t, disk, q, codebase) && Listed(disk, q, w, path) && disk[path] == ours)
            && (plan == Make <==>
                  NoneOfTheKey(t, disk, q, codebase) && NoneShared(t, disk, q, codebase) && forall path :: !Listed(disk, q, w, path))
            && (plan == Give(Threw) <==>
                  || (exists i: nat :: KeyWorktree(t, disk, q, codebase, i) && disk[t[i].path] != ours)
                  || (NoneOfTheKey(t, disk, q, codebase)
                      && exists issue, i: nat :: SharedWorktree(t, disk, q, codebase, issue, i) && disk[t[i].path] != ours)
                  || (NoneOfTheKey(t, disk, q, codebase) && NoneShared(t, disk, q, codebase)
                      && exists path :: Listed(disk, q, w, path) && disk[path] != ours))
  {
    hide Live, FirstLinked, FirstShared, IsLive;
    LiveHas(t, disk, codebase, q.kind, q.workflow);
    SharedIff(t, disk, q, codebase);
    var live := Live(t, disk, Key(codebase, q.kind, q.workflow));
    var found := FirstLinked(t, disk, codebase, q.linked);
    assert live.Some? ==> KeyWorktree(t, disk, q, codebase, live.value);
    if found.Some? {
      var n: nat :| n < |q.linked| && FirstShared(t, disk, codebase, q.linked, n, found.value.1) && q.linked[n] == found.value.0;
      SharedIsLive(t, disk, codebase, q.linked, n, found.value.1);
      assert SharedWorktree(t, disk, q, codebase, found.value.0, found.value.1);
    }
    forall path | Listed(disk, q, w, path) ensures w.branchPath.Some? && w.branchPath.value == path {
    }
    assert q.prBranch.Some? && w.branchPath.Some? && w.branchPath.value in disk ==> Listed(disk, q, w, w.branchPath.value);
  }

  /** And before that: an environment the conversation names, no codebase, or a repository path that does
      not resolve. */
  lemma PlanIff(t: Table, disk: map<Path, string>, q: Request, w: Surroundings)
    ensures var plan := PlanOf(t, disk, q, w);
            if q.existing.Some? then
              plan == Give(if q.existing.value in t && t[q.existing.value].path in disk then Resolved(q.existing.value, Existing) else StaleCleaned)
            else
              && (plan == Give(NoIsolation) <==> q.codebase.None?)
              && (plan == Give(Blocked) <==> q.codebase.Some? && w.canonical == KnownFailure)
              && (q.codebase.Some? && w.canonical == UnknownFailure ==> plan == Give(Threw))
              && (q.codebase.Some? && w.canonical.Success? ==>
                    plan == CodebasePlan(t, disk, q, q.codebase.value, w.canonical.value, w))
  {
    if q.existing.None? && q.codebase.Some? && w.canonical.Success? {
      PlanMeans(t, disk, q, q.codebase.value, w.canonical.value, w);
    }
  }

  /** What is reused or shared has an existing worktree of this repository; and something new is adopted or
      made only if neither the key nor a linked issue has a live row, whoever's. */
  lemma PlanMeans(t: Table, disk: map<Path, string>, q: Request, codebase: string, ours: string, w: Surroundings)
    ensures match CodebasePlan(t, disk, q, codebase, ours, w)
            case Give(Resolved(i, how)) =>
              && i in t && t[i].active && t[i].path in disk && disk[t[i].path] == ours
              && ((how == WorkflowReuse && t[i].key == Key(codebase, q.kind, q.workflow))
                  || (how.LinkedIssueReuse? && how.issue in q.linked && t[i].key == Key(codebase, "issue", how.issue)))
            case Give(r) => r == Threw
            case Adopt(path) => path in disk && disk[path] == ours && NothingLive(t, disk, q, codebase)
            case Make => NothingLive(t, disk, q, codebase)
  {
    FirstLinkedNone(t, disk, codebase, q.linked);
  }

  ghost predicate NothingLive(t: Table, disk: map<Path, string>, q: Request, codebase: string) {
    && (forall i :: !IsLive(t, disk, Key(codebase, q.kind, q.workflow), i))
    && (forall k, i | 0 <= k < |q.linked| :: !IsLive(t, disk, Key(codebase, "issue", q.linked[k]), i))
  }

  lemma {:induction false} FirstLinkedNone(t: Table, disk: map<Path, string>, codebase: string, linked: seq<string>)
    ensures FirstLinked(t, disk, codebase, linked).None? ==>
              forall k, i | 0 <= k < |linked| :: !IsLive(t, disk, Key(codebase, "issue", linked[k]), i)
  {
    if linked != [] {
      FirstLinkedNone(t, disk, codebase, linked[1..]);
      assert forall k | 0 < k < |linked| :: linked[k] == linked[1..][k - 1];
    }
  }

  /** An environment named by the conversation is given out exactly if its row and its worktree exist,
      whosever the worktree is: another clone's, for one. */
  lemma ExistingIff(t: Table, disk: map<Path, string>, q: Request, w: Surroundings, id: nat)
    requires q.existing == Some(id)
    ensures PlanOf(t, disk, q, w) == Give(Resolved(id, Existing)) <==> id in t && t[id].path in disk
    ensures var row := Row(Key("c", "issue", "1"), "p", "b", true);
            PlanOf(map[id := row], map["p" := "theirs"], q, w.(canonical := Success("ours"))) == Give(Resolved(id, Existing))
  {
  }

  lemma LiveIs(t: Table, disk: map<Path, string>, key: Key, i: nat)
    requires UniqueKeys(t) && IsLive(t, disk, key, i)
    ensures Live(t, disk, key) == Some(i)
  {
  }

  /** Marking rows of missing worktrees changes no live row. */
  lemma LiveKept(a: Table, b: Table, disk: map<Path, string>, key: Key)
    requires UniqueKeys(a) && UniqueKeys(b) && OnlyStaleRowsChange(a, b, disk)
    requires a.Keys == b.Keys && forall i | i in a :: b[i] == a[i] || !b[i].active
    ensures Live(b, disk, key) == Live(a, disk, key)
  {
    hide OnlyStaleRowsChange;
    assert forall i :: IsLive(a, disk, key, i) ==> IsLive(b, disk, key, i) by { LiveStays(a, b, disk, key); }
    assert forall i :: IsLive(b, disk, key, i) ==> IsLive(a, disk, key, i);
    if i :| IsLive(a, disk, key, i) {
      LiveIs(a, disk, key, i);
      LiveIs(b, disk, key, i);
    }
  }

  lemma {:induction false} FirstLinkedKept(a: Table, b: Table, disk: map<Path, string>, codebase: string, linked: seq<string>)
    requires UniqueKeys(a) && UniqueKeys(b) && OnlyStaleRowsChange(a, b, disk)
    requires a.Keys == b.Keys && forall i | i in a :: b[i] == a[i] || !b[i].active
    ensures FirstLinked(b, disk, codebase, linked) == FirstLinked(a, disk, codebase, linked)
  {
    hide OnlyStaleRowsChange, Live;
    if linked != [] {
      LiveKept(a, b, disk, Key(codebase, "issue", linked[0]));
      FirstLinkedKept(a, b, disk, codebase, linked[1..]);
    }
  }

  lemma LiveStays(a: Table, b: Table, disk: map<Path, string>, key: Key)
    requires OnlyStaleRowsChange(a, b, disk)
    ensures forall i :: IsLive(a, disk, key, i) ==> IsLive(b, disk, key, i)
  {
  }

  /** Recording over the row of a key without a live row changes, if any, a row of a missing worktree. */
  lemma TakenOver(a: Table, b: Table, disk: map<Path, string>, key: Key, id: nat)
    requires (forall i | i in a && i != id :: i in b && b[i] == a[i]) && id in b && b[id].active && b[id].key == key
    requires (id in a ==> a[id].active && a[id].key == key) && forall i :: !IsLive(a, disk, key, i)
    ensures OnlyStaleRowsChange(a, b, disk)
  {
    assert !IsLive(a, disk, key, id);
  }

  /** The first linked row is one that was not changed. */
  lemma SameWorktree(a: Table, b: Table, disk: map<Path, string>, codebase: string, linked: seq<string>)
    requires FirstLinked(b, disk, codebase, linked) == FirstLinked(a, disk, codebase, linked)
    requires a.Keys == b.Keys && forall i | i in a :: b[i] == a[i] || !b[i].active
    ensures FirstLinked(a, disk, codebase, linked).Some? ==>
              b[FirstLinked(a, disk, codebase, linked).value.1] == a[FirstLinked(a, disk, codebase, linked).value.1]
  {
    hide FirstLinked;
  }

  lemma NoRowsChange(t: Table, disk: map<Path, string>)
    ensures OnlyStaleRowsChange(t, t, disk)
  {
  }

  class Isolation {
    var rows: Table
    /** The worktrees on disk, with the repository each belongs to. */
    var disk: map<Path, string>
    var created: seq<Path>
    var destroyCalls: seq<Path>

    constructor (rows: Table, disk: map<Path, string>)
      ensures this.rows == rows && this.disk == disk && created == [] && destroyCalls == []
    {
      this.rows, this.disk, created, destroyCalls := rows, disk, [], [];
    }

    method MarkDestroyed(id: nat, w: Surroundings)
      requires id in rows && rows[id].active && rows[id].path !in disk && UniqueKeys(rows)
      modifies this`rows
      ensures UniqueKeys(rows) && OnlyStaleRowsChange(old(rows), rows, disk) && rows.Keys == old(rows).Keys
      ensures forall i | i in rows :: rows[i] == old(rows)[i] || !rows[i].active
      ensures !w.statusFails ==> !rows[id].active
    {
      if !w.statusFails {
        rows := rows[id := rows[id].(active := false)];
      }
    }

    method FindActive(key: Key) returns (id: Option<nat>)
      requires UniqueKeys(rows)
      ensures id.Some? ==> id.value in rows && rows[id.value].active && rows[id.value].key == key
      ensures id.None? ==> forall i | i in rows && rows[i].active :: rows[i].key != key
    {
      var left := rows.Keys;
      id := None;
      while left != {}
        invariant left <= rows.Keys && id.None?
        invariant forall i | i in rows && i !in left && rows[i].active :: rows[i].key != key
        decreases |left|
      {
        var i :| i in left;
        if rows[i].active && rows[i].key == key {
          return Some(i);
        }
        left := left - {i};
      }
    }

    /** `store.create`: a new row, or the active one of the key made over. */
    method StoreCreate(key: Key, path: Path, branch: string) returns (id: nat)
      requires UniqueKeys(rows)
      modifies this`rows
      ensures UniqueKeys(rows) && id in rows && rows[id] == Row(key, path, branch, true)
      ensures forall i | i in old(rows) && i != id :: i in rows && rows[i] == old(rows)[i]
      ensures id in old(rows) ==> old(rows)[id].active && old(rows)[id].key == key
      ensures rows.Keys == old(rows).Keys + {id}
    {
      var held := FindActive(key);
      if held.Some? {
        id := held.value;
      } else {
        id := FreshId();
      }
      rows := rows[id := Row(key, path, branch, true)];
    }

    method FreshId() returns (id: nat)
      ensures id !in rows
    {
      var left, top := rows.Keys, 0;
      while left != {}
        invariant left <= rows.Keys && forall i | i in rows && i !in left :: i < top
        decreases |left|
      {
        var i :| i in left;
        if i >= top {
          top := i + 1;
        }
        left := left - {i};
      }
      id := top;
    }

    /** `findReusable` and one turn of `findLinkedIssueEnv`: nothing found, an environment of this
        repository, or another clone's, which throws. A row whose worktree is gone is marked destroyed. */
    method Reuse(key: Key, canonical: string, w: Surroundings) returns (found: Option<nat>, threw: bool)
      requires UniqueKeys(rows)
      modifies this`rows
      ensures UniqueKeys(rows) && OnlyStaleRowsChange(old(rows), rows, disk) && rows.Keys == old(rows).Keys
      ensures forall i | i in rows :: rows[i] == old(rows)[i] || !rows[i].active
      ensures match Live(old(rows), disk, key)
              case Some(i) =>
                && rows == old(rows)
                && (if disk[rows[i].path] == canonical then found == Some(i) && !threw else found.None? && threw)
              case None =>
                && found.None? && !threw
                && (!w.statusFails ==> forall i | i in rows && rows[i].key == key :: !rows[i].active)
    {
      found, threw := None, false;
      var id := FindActive(key);
      if id.None? {
        return;
      }
      var env := rows[id.value];
      if env.path in disk {
        LiveIs(rows, disk, key, id.value);
        if disk[env.path] != canonical {
          threw := true;
          return;
        }
        return id, false;
      }
      assert forall i :: !IsLive(rows, disk, key, i);
      MarkDestroyed(id.value, w);
    }

    /** `findLinkedIssueEnv` */
    method ReuseLinked(codebase: string, linked: seq<string>, canonical: string, w: Surroundings)
      returns (found: Option<nat>, issue: string, threw: bool)
      requires UniqueKeys(rows)
      modifies this`rows
      ensures UniqueKeys(rows) && OnlyStaleRowsChange(old(rows), rows, disk) && rows.Keys == old(rows).Keys
      ensures forall i | i in rows :: rows[i] == old(rows)[i] || !rows[i].active
      ensures match FirstLinked(old(rows), disk, codebase, linked)
              case Some(first) =>
                && rows[first.1] == old(rows)[first.1]
                && (if disk[rows[first.1].path] == canonical then found == Some(first.1) && issue == first.0 && !threw
                    else found.None? && threw)
              case None => found.None? && !threw
    {
      hide OnlyStaleRowsChange, Live;
      found, issue, threw := None, "", false;
      var n := 0;
      NoRowsChange(rows, disk);
      assert linked[0..] == linked;
      while n < |linked|
        invariant 0 <= n <= |linked| && UniqueKeys(rows) && rows.Keys == old(rows).Keys && found.None? && !threw
        invariant OnlyStaleRowsChange(old(rows), rows, disk)
        invariant forall i | i in rows :: rows[i] == old(rows)[i] || !rows[i].active
        invariant FirstLinked(old(rows), disk, codebase, linked) == FirstLinked(old(rows), disk, codebase, linked[n..])
      {
        ghost var before, key := rows, Key(codebase, "issue", linked[n]);
        LiveKept(old(rows), before, disk, key);
        assert linked[n..][0] == linked[n] && linked[n..][1..] == linked[n + 1..];
        found, threw := Reuse(Key(codebase, "issue", linked[n]), canonical, w);
        StaleTwice(old(rows), before, rows, disk);
        if threw || found.Some? {
          issue := linked[n];
          return;
        }
        n := n + 1;
      }
      assert linked[n..] == [];
    }

    /** `createNewEnvironment`: a worktree that could not be recorded is destroyed again. */
    method CreateNew(key: Key, w: Surroundings) returns (r: Resolution)
      requires UniqueKeys(rows) && forall i | i in rows && rows[i].active && rows[i].key == key :: rows[i].path !in disk
      requires w.canonical.Success?
      modifies this
      ensures UniqueKeys(rows) && OnlyStaleRowsChange(old(rows), rows, old(disk))
      ensures r.Resolved? ==>
                && r.how == Created && w.newPath.Success? && r.id in rows && rows[r.id].active && rows[r.id].key == key
                && rows[r.id] == Row(key, w.newPath.value, w.newBranch, true)
                && disk == old(disk)[w.newPath.value := w.canonical.value] && destroyCalls == old(destroyCalls)
                && created == old(created) + [w.newPath.value]
      ensures r.Resolved? <==> w.newPath.Success? && !w.createFails
      ensures !r.Resolved? ==> rows == old(rows) && r == if w.newPath.KnownFailure? then Blocked else Threw
      ensures !r.Resolved? && w.newPath.Success? ==>
                && destroyCalls == old(destroyCalls) + [w.newPath.value] && created == old(created) + [w.newPath.value]
                && (!w.destroyFails ==> disk == old(disk) - {w.newPath.value}
                                        && (disk == old(disk) <==> w.newPath.value !in old(disk)))
      ensures !w.newPath.Success? ==> disk == old(disk) && created == old(created) && destroyCalls == old(destroyCalls)
    {
      if w.newPath.KnownFailure? {
        return Blocked;
      }
      if w.newPath.UnknownFailure? {
        return Threw;
      }
      var path := w.newPath.value;
      disk := disk[path := w.canonical.value];
      created := created + [path];
      if w.createFails {
        destroyCalls := destroyCalls + [path];
        if !w.destroyFails {
          disk := disk - {path};
        }
        return Threw;
      }
      var id := StoreCreate(key, path, w.newBranch);
      r := Resolved(id, Created);
    }

    /** `tryBranchAdoption` and then `createNewEnvironment`. */
    method AdoptOrCreate(q: Request, key: Key, canonical: string, w: Surroundings) returns (r: Resolution)
      requires UniqueKeys(rows) && ProviderOk(disk, w) && w.canonical == Success(canonical) && created == [] && destroyCalls == []
      requires forall i :: !IsLive(rows, disk, key, i)
      modifies this
      ensures UniqueKeys(rows) && OnlyStaleRowsChange(old(rows), rows, old(disk))
      ensures Follows(RecordPlan(old(disk), q, canonical, w), r, key, q, w, old(disk))
    {
      hide OnlyStaleRowsChange;
      if q.prBranch.Some? && w.branchPath.Some? && w.branchPath.value in disk {
        NoRowsChange(rows, disk);
        if disk[w.branchPath.value] != canonical {
          return Threw;
        }
        if w.createFails {
          return Threw;
        }
        ghost var before := rows;
        var id := StoreCreate(key, w.branchPath.value, q.prBranch.value);
        TakenOver(before, rows, disk, key, id);
        return Resolved(id, BranchAdoption);
      }
      assert forall i | i in rows && rows[i].active && rows[i].key == key :: !IsLive(rows, disk, key, i);
      r := CreateNew(key, w);
      assert w.newPath.Success? ==> created == [w.newPath.value] && (w.createFails ==> destroyCalls == [w.newPath.value]);
    }

    /** How an answer, the rows, the disk and the provider's calls follow from a plan. */
    ghost predicate Follows(plan: Plan, r: Resolution, key: Key, q: Request, w: Surroundings, before: map<Path, string>)
      reads this
    {
      match plan
      case Give(x) => r == x && disk == before && created == destroyCalls == []
      case Adopt(path) =>
        && disk == before && created == destroyCalls == []
        && if w.createFails then r == Threw
           else q.prBranch.Some? && r.Resolved? && r.how == BranchAdoption && r.id in rows
                && rows[r.id] == Row(key, path, q.prBranch.value, true)
      case Make =>
        if !w.newPath.Success? then
          disk == before && created == destroyCalls == [] && r == if w.newPath.KnownFailure? then Blocked else Threw
        else if w.createFails then
          r == Threw && created == destroyCalls == [w.newPath.value] && (!w.destroyFails ==> disk == before - {w.newPath.value})
        else
          && r.Resolved? && r.how == Created && r.id in rows && rows[r.id] == Row(key, w.newPath.value, w.newBranch, true)
          && w.canonical.Success? && disk == before[w.newPath.value := w.canonical.value]
          && created == [w.newPath.value] && destroyCalls == []
    }

    /** `resolve` within a codebase. */
    method ResolveIn(q: Request, codebase: string, canonical: string, w: Surroundings) returns (r: Resolution)
      requires UniqueKeys(rows) && ProviderOk(disk, w) && w.canonical == Success(canonical) && created == [] && destroyCalls == []
      modifies this
      ensures OnlyStaleRowsChange(old(rows), rows, old(disk))
      ensures Follows(CodebasePlan(old(rows), old(disk), q, codebase, canonical, w), r, Key(codebase, q.kind, q.workflow), q, w, old(disk))
    {
      hide OnlyStaleRowsChange, Live, FirstLinked, RecordPlan;
      var key := Key(codebase, q.kind, q.workflow);
      var found, threw := Reuse(key, canonical, w);
      if threw {
        return Threw;
      }
      if found.Some? {
        return Resolved(found.value, WorkflowReuse);
      }
      ghost var afterReuse := rows;
      FirstLinkedKept(old(rows), rows, disk, codebase, q.linked);
      SameWorktree(old(rows), rows, disk, codebase, q.linked);
      var issue;
      found, issue, threw := ReuseLinked(codebase, q.linked, canonical, w);
      StaleTwice(old(rows), afterReuse, rows, disk);
      if threw {
        return Threw;
      }
      if found.Some? {
        return Resolved(found.value, LinkedIssueReuse(issue));
      }
      ghost var afterLinked := rows;
      LiveKept(old(rows), rows, disk, key);
      r := AdoptOrCreate(q, key, canonical, w);
      StaleTwice(old(rows), afterLinked, rows, old(disk));
    }

    /** `resolve`: exactly the answer of the plan made from the rows and the disk as the call found them,
        with nothing else changed but rows whose worktree was missing. */
    method Resolve(q: Request, w: Surroundings) returns (r: Resolution)
      requires UniqueKeys(rows) && ProviderOk(disk, w) && created == [] && destroyCalls == []
      modifies this
      ensures OnlyStaleRowsChange(old(rows), rows, old(disk))
      ensures Follows(PlanOf(old(rows), old(disk), q, w), r,
                      if q.codebase.Some? then Key(q.codebase.value, q.kind, q.workflow) else Key("", "", ""), q, w, old(disk))
      ensures q.existing.Some? && q.existing.value in rows && r == StaleCleaned && !w.statusFails ==> !rows[q.existing.value].active
    {
      hide OnlyStaleRowsChange, CodebasePlan;
      NoRowsChange(rows, disk);
      if q.existing.Some? {
        var id := q.existing.value;
        if id in rows && rows[id].path in disk {
          return Resolved(id, Existing);
        }
        if id in rows && rows[id].active {
          MarkDestroyed(id, w);
        }
        return StaleCleaned;
      }
      if q.codebase.None? {
        return NoIsolation;
      }
      if w.canonical.KnownFailure? {
        return Blocked;
      }
      if w.canonical.UnknownFailure? {
        return Threw;
      }
      r := ResolveIn(q, q.codebase.value, w.canonical.value, w);
    }
  }
}
