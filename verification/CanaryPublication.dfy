/** The write-once publication of the three canary files, `writeCanaryArtifacts` of
    `packages/canary-suite/src/report.ts`: any number of writers, each stopping for good at any await. */
module CanaryPublication {

  datatype File = Absent | Present(text: string)

  /** `plan.json`, `summary.json` and `summary.md`, in that order. */
  type Files = fs: seq<File> | |fs| == 3 witness [Absent, Absent, Absent]

  type Contents = cs: seq<string> | |cs| == 3 witness ["", "", ""]

  datatype Seen = Unread | Saw(file: File)

  /** What the concurrent reads of the three paths have brought so far. */
  type Reads = rs: seq<Seen> | |rs| == 3 witness [Unread, Unread, Unread]

  datatype Point =
    | Reading(seen: Reads)
    | Staging                     // no file was there: write the temporary files
    | Linking(index: nat)
    | Comparing(index: nat)       // the link failed: read the published file back
    | Returned
    | Stopped                     // threw or crashed

  datatype Writer = Writer(contents: Contents, at: Point)

  /** The directory, and every writer that ever started. */
  datatype System = System(files: Files, writers: map<nat, Writer>)

  datatype Event =
    | Start(w: nat, contents: Contents)
    | Read(w: nat, index: nat)
    | Judge(w: nat)
    | Stage(w: nat)
    | Link(w: nat, broken: bool)  // `broken`: the file system refuses for a reason of its own
    | Compare(w: nat)
    | Stop(w: nat)

  predicate Same(file: File, text: string) {
    file == Present(text)
  }

  function Goto(s: System, w: nat, at: Point): System
    requires w in s.writers
  {
    s.(writers := s.writers[w := s.writers[w].(at := at)])
  }

  /** After the file at `index` is there with the writer's own text. */
  function Onwards(index: nat): Point {
    if index == 2 then Returned else Linking(index + 1)
  }

  /** The two tests on the files read up front. */
  function Verdict(seen: Reads, contents: Contents): Point {
    if forall i | 0 <= i < 3 :: seen[i] == Saw(Present(contents[i])) then Returned
    else if exists i :: 0 <= i < 3 && seen[i] != Saw(Absent) then Stopped
    else Staging
  }

  predicate Enabled(s: System, e: Event) {
    if e.Start? then e.w !in s.writers
    else
      e.w in s.writers &&
      var at := s.writers[e.w].at;
      match e
      case Read(_, index) => at.Reading? && index < 3 && at.seen[index] == Unread
      case Judge(_) => at.Reading? && forall i | 0 <= i < 3 :: at.seen[i] != Unread
      case Stage(_) => at.Staging?
      case Link(_, _) => at.Linking? && at.index < 3
      case Compare(_) => at.Comparing? && at.index < 3
      case _ => at != Returned && at != Stopped
  }

  function Next(s: System, e: Event): System
    requires Enabled(s, e)
  {
    match e
    case Start(w, contents) => s.(writers := s.writers[w := Writer(contents, Reading([Unread, Unread, Unread]))])
    case Read(w, i) => Goto(s, w, Reading(s.writers[w].at.seen[i := Saw(s.files[i])]))
    case Judge(w) => Goto(s, w, Verdict(s.writers[w].at.seen, s.writers[w].contents))
    case Stage(w) => Goto(s, w, Linking(0))
    case Link(w, broken) =>
      var i := s.writers[w].at.index;
      if broken || s.files[i] != Absent then Goto(s, w, Comparing(i))
      else Goto(s, w, Onwards(i)).(files := s.files[i := Present(s.writers[w].contents[i])])
    case Compare(w) =>
      var i := s.writers[w].at.index;
      Goto(s, w, if Same(s.files[i], s.writers[w].contents[i]) then Onwards(i) else Stopped)
    case Stop(w) => Goto(s, w, Stopped)
  }

  function Happen(s: System, e: Event): System {
    if Enabled(s, e) then Next(s, e) else s
  }

  function From(s: System, events: seq<Event>): System {
    if events == [] then s else Happen(From(s, events[..|events| - 1]), events[|events| - 1])
  }

  const EMPTY := System([Absent, Absent, Absent], map[])

  // ----- What every step keeps -----

  /** The first `n` files carry the contents. */
  ghost predicate Agrees(files: Files, contents: Contents, n: nat) {
    forall i | 0 <= i < n && i < 3 :: Same(files[i], contents[i])
  }

  /** How far a writer has seen its own contents published. */
  function Progress(at: Point): nat {
    match at
    case Linking(i) => i
    case Comparing(i) => i
    case Returned => 3
    case _ => 0
  }

  ghost predicate IsPrefix(files: Files) {
    (files[1] != Absent ==> files[0] != Absent) && (files[2] != Absent ==> files[1] != Absent)
  }

  /** Every published file carries this writer's contents. */
  ghost predicate Covers(s: System, w: nat) {
    w in s.writers && forall i | 0 <= i < 3 && s.files[i] != Absent :: Same(s.files[i], s.writers[w].contents[i])
  }

  ghost predicate ReadsHeld(s: System, w: nat)
    requires w in s.writers
  {
    s.writers[w].at.Reading? ==>
      forall i | 0 <= i < 3 && s.writers[w].at.seen[i].Saw? && s.writers[w].at.seen[i].file != Absent ::
        s.files[i] == s.writers[w].at.seen[i].file
  }

  ghost predicate Inv(s: System) {
    && IsPrefix(s.files)
    && (forall w | w in s.writers :: Agrees(s.files, s.writers[w].contents, Progress(s.writers[w].at)) && ReadsHeld(s, w))
    && (s.files[0] != Absent ==> exists w :: Covers(s, w))
  }

  /** A file, once published, stays as it is. */
  lemma WrittenOnce(s: System, e: Event, i: nat)
    requires i < 3 && s.files[i] != Absent
    ensures Happen(s, e).files[i] == s.files[i]
  {
  }

  /** A step that publishes nothing only moves one writer. */
  lemma WriterMoves(s: System, w: nat, x: Writer)
    requires Inv(s) && (w in s.writers ==> x.contents == s.writers[w].contents)
    requires Agrees(s.files, x.contents, Progress(x.at)) && ReadsHeld(s.(writers := s.writers[w := x]), w)
    ensures Inv(s.(writers := s.writers[w := x]))
  {
    var t := s.(writers := s.writers[w := x]);
    assert forall v | Covers(s, v) :: Covers(t, v);
    assert forall v | v in s.writers && v != w :: ReadsHeld(s, v) && ReadsHeld(t, v);
  }

  lemma NextKeeps(s: System, e: Event)
    requires Inv(s) && Enabled(s, e)
    ensures Inv(Next(s, e))
  {
    var t := Next(s, e);
    if e.Link? && t.files != s.files {
      PublishKeeps(s, e);
    } else {
      assert t == s.(writers := s.writers[e.w := t.writers[e.w]]);
      if e.w in s.writers {
        assert Agrees(s.files, s.writers[e.w].contents, Progress(s.writers[e.w].at)) && ReadsHeld(s, e.w);
        hide Covers, IsPrefix;
        MoveIsBacked(s, e);
      }
      WriterMoves(s, e.w, t.writers[e.w]);
    }
  }

  lemma MoveIsBacked(s: System, e: Event)
    requires Enabled(s, e) && e.w in s.writers && Next(s, e).files == s.files
    requires Agrees(s.files, s.writers[e.w].contents, Progress(s.writers[e.w].at)) && ReadsHeld(s, e.w)
    ensures var x := Next(s, e).writers[e.w];
            && x.contents == s.writers[e.w].contents
            && Agrees(s.files, x.contents, Progress(x.at)) && ReadsHeld(Next(s, e), e.w)
  {
    var x := s.writers[e.w];
    if e.Judge? {
      assert Verdict(x.at.seen, x.contents) != Stopped && Verdict(x.at.seen, x.contents) != Staging ==>
          forall i | 0 <= i < 3 :: x.at.seen[i].file == Present(x.contents[i]);
    }
  }

  /** The writer that publishes has seen its own contents in every file before. */
  lemma PublishKeeps(s: System, e: Event)
    requires Inv(s) && Enabled(s, e) && e.Link? && Next(s, e).files != s.files
    ensures Inv(Next(s, e))
  {
    var t := Next(s, e);
    var i := s.writers[e.w].at.index;
    assert t.files == s.files[i := Present(s.writers[e.w].contents[i])];
    assert Agrees(s.files, s.writers[e.w].contents, i);
    assert Covers(t, e.w);
  }

  lemma {:induction false} Reachable(events: seq<Event>)
    ensures Inv(From(EMPTY, events))
  {
    hide Inv, Next;
    if events == [] {
      assert Inv(EMPTY) by { EmptyHolds(); }
    } else {
      var s, e := From(EMPTY, events[..|events| - 1]), events[|events| - 1];
      Reachable(events[..|events| - 1]);
      if Enabled(s, e) {
        NextKeeps(s, e);
      }
    }
  }

  lemma EmptyHolds()
    ensures Inv(EMPTY)
  {
  }

  /** On every schedule the published files are a prefix of the three, all from the contents of one
      writer; a writer that returned finds all three equal to its own; so two that returned agree. */
  lemma PublicationIsOneWriters(events: seq<Event>)
    ensures var s := From(EMPTY, events);
            && IsPrefix(s.files)
            && (s.files[0] != Absent ==> exists w :: Covers(s, w))
            && (forall w | w in s.writers && s.writers[w].at.Returned? ::
                  forall i | 0 <= i < 3 :: s.files[i] == Present(s.writers[w].contents[i]))
            && (forall v, w | v in s.writers && w in s.writers && s.writers[v].at.Returned? && s.writers[w].at.Returned? ::
                  s.writers[v].contents == s.writers[w].contents)
  {
    hide From;
    Reachable(events);
    var s := From(EMPTY, events);
    forall w | w in s.writers && s.writers[w].at.Returned?
      ensures forall i | 0 <= i < 3 :: s.files[i] == Present(s.writers[w].contents[i])
    {
      assert Agrees(s.files, s.writers[w].contents, 3);
    }
    forall v, w | v in s.writers && w in s.writers && s.writers[v].at.Returned? && s.writers[w].at.Returned?
      ensures s.writers[v].contents == s.writers[w].contents
    {
      assert forall i | 0 <= i < 3 :: s.files[i] == Present(s.writers[v].contents[i]) == Present(s.writers[w].contents[i]);
    }
  }

  /** What was published before stays, over any further events. */
  lemma {:induction false} PublishedStays(s: System, events: seq<Event>, i: nat)
    requires i < 3 && s.files[i] != Absent
    ensures From(s, events).files[i] == s.files[i]
  {
    hide Next;
    if events != [] {
      PublishedStays(s, events[..|events| - 1], i);
      WrittenOnce(From(s, events[..|events| - 1]), events[|events| - 1], i);
    }
  }

  // ----- A partial publication nobody finishes -----

  /** A writer that can still get all its files seen: its contents agree with what is published, and it is
      past its first look; or it has only seen absent files so far and has no other to come; or all three
      files are there and its own, and it is still looking at them. */
  ghost predicate Hopeful(s: System, w: nat) {
    && Covers(s, w)
    && var x := s.writers[w];
       match x.at
       case Reading(seen) =>
         || (forall i | 0 <= i < 3 :: seen[i] == Saw(Absent) || (seen[i] == Unread && s.files[i] == Absent))
         || (forall i | 0 <= i < 3 :: Same(s.files[i], x.contents[i]) && (seen[i] == Unread || seen[i] == Saw(s.files[i])))
       case Staging => true
       case Linking(i) => i < 3
       case Comparing(i) => i < 3 && s.files[i] != Absent
       case _ => false
  }

  /** A first file is there, the last is not, and no writer has hope. */
  ghost predicate Abandoned(s: System) {
    s.files[0] != Absent && s.files[2] == Absent && forall w :: !Hopeful(s, w)
  }

  /** Only a hopeful writer publishes. */
  lemma PublisherHopes(s: System, e: Event)
    requires Inv(s) && Enabled(s, e) && Next(s, e).files != s.files
    ensures Hopeful(s, e.w)
  {
    var i := s.writers[e.w].at.index;
    assert Agrees(s.files, s.writers[e.w].contents, i);
    assert forall j | i <= j < 3 :: s.files[j] == Absent;
  }

  lemma NoNewHope(s: System, e: Event, w: nat)
    requires Inv(s) && Enabled(s, e) && Next(s, e).files == s.files && s.files[0] != Absent && s.files[2] == Absent
    requires Hopeful(Next(s, e), w)
    ensures Hopeful(s, w)
  {
    var t := Next(s, e);
    if w == e.w {
      assert w in s.writers && s.writers[w].contents == t.writers[w].contents;
      if e.Read? {
        var seen, i := s.writers[w].at.seen, e.index;
        assert forall j | 0 <= j < 3 && j != i :: t.writers[w].at.seen[j] == seen[j];
        assert !Same(s.files[2], t.writers[w].contents[2]);
        assert t.writers[w].at.seen[i] == Saw(s.files[i]);
      }
    } else {
      assert t.writers[w] == s.writers[w];
    }
  }

  lemma AbandonedStep(s: System, e: Event)
    requires Abandoned(s) && Enabled(s, e) && Inv(s)
    ensures Abandoned(Next(s, e)) && Next(s, e).files == s.files
  {
    hide Inv, Hopeful, Enabled, Next;
    if Next(s, e).files != s.files {
      PublisherHopes(s, e);
    }
    forall w ensures !Hopeful(Next(s, e), w) {
      if Hopeful(Next(s, e), w) {
        NoNewHope(s, e, w);
      }
    }
  }

  /** Such a publication is final: no file is added, and no writer, present or future, ever returns. */
  lemma {:induction false} AbandonedForever(s: System, events: seq<Event>)
    requires Abandoned(s) && Inv(s)
    ensures var t := From(s, events);
            Abandoned(t) && Inv(t) && t.files == s.files && forall w | w in t.writers :: !t.writers[w].at.Returned?
  {
    hide Inv, Next, Abandoned;
    if events != [] {
      var t, e := From(s, events[..|events| - 1]), events[|events| - 1];
      AbandonedForever(s, events[..|events| - 1]);
      if Enabled(t, e) {
        AbandonedStep(t, e);
        NextKeeps(t, e);
      }
    }
    NobodyReturned(From(s, events));
  }

  lemma NobodyReturned(s: System)
    requires Inv(s) && Abandoned(s)
    ensures forall w | w in s.writers :: !s.writers[w].at.Returned?
  {
    forall w | w in s.writers ensures !s.writers[w].at.Returned? {
      assert Progress(s.writers[w].at) == 3 ==> Same(s.files[2], s.writers[w].contents[2]);
    }
  }

  // And only then.

  function Unreads(seen: Reads): nat {
    (if seen[0] == Unread then 1 else 0) + (if seen[1] == Unread then 1 else 0) + (if seen[2] == Unread then 1 else 0)
  }

  /** How many steps a hopeful writer needs at most. */
  function Left(at: Point): nat {
    match at
    case Reading(seen) => 9 + Unreads(seen)
    case Staging => 8
    case Linking(i) => if i < 3 then 7 - 2 * i else 0
    case Comparing(i) => if i < 3 then 6 - 2 * i else 0
    case _ => 0
  }

  ghost predicate Back(s: System, w: nat) {
    w in s.writers && s.writers[w].at.Returned?
  }

  /** The step a hopeful writer takes when nothing goes wrong. */
  function NextMove(w: nat, at: Point): Event {
    match at
    case Reading(seen) =>
      if seen[0] == Unread then Read(w, 0) else if seen[1] == Unread then Read(w, 1) else if seen[2] == Unread then Read(w, 2)
      else Judge(w)
    case Staging => Stage(w)
    case Linking(_) => Link(w, false)
    case _ => Compare(w)
  }

  lemma HopefulReads(s: System, w: nat)
    requires Hopeful(s, w) && s.writers[w].at.Reading?
    ensures var e := NextMove(w, s.writers[w].at); var t := Happen(s, e);
            Enabled(s, e) && (Back(t, w) || (w in t.writers && Hopeful(t, w) && Left(t.writers[w].at) < Left(s.writers[w].at)))
  {
    var x, e := s.writers[w], NextMove(w, s.writers[w].at);
    var t := Happen(s, e);
    if e.Read? {
      var seen := x.at.seen;
      assert t.writers[w] == Writer(x.contents, Reading(seen[e.index := Saw(s.files[e.index])])) && t.files == s.files;
    } else {
      assert x.at.seen[0] != Unread && x.at.seen[1] != Unread && x.at.seen[2] != Unread;
      if x.at.seen[0] == Saw(Absent) {
        assert forall i | 0 <= i < 3 :: x.at.seen[i] == Saw(Absent);
        assert x.at.seen[0] != Saw(Present(x.contents[0]));
      }
    }
  }

  lemma HopefulPublishes(s: System, w: nat)
    requires Hopeful(s, w) && !s.writers[w].at.Reading?
    ensures var e := NextMove(w, s.writers[w].at); var t := Happen(s, e);
            Enabled(s, e) && (Back(t, w) || (w in t.writers && Hopeful(t, w) && Left(t.writers[w].at) < Left(s.writers[w].at)))
  {
    var x := s.writers[w];
    var t := Happen(s, NextMove(w, x.at));
    assert t.writers[w].contents == x.contents;
    assert forall i | 0 <= i < 3 && s.files[i] != Absent :: Same(s.files[i], x.contents[i]);
  }

  lemma {:induction false} HopefulReturns(s: System, w: nat)
    requires w in s.writers && Hopeful(s, w)
    ensures exists events :: Back(From(s, events), w)
    decreases Left(s.writers[w].at)
  {
    hide Hopeful, Enabled, Back, Left, NextMove, Happen, Covers;
    var e := NextMove(w, s.writers[w].at);
    if s.writers[w].at.Reading? {
      HopefulReads(s, w);
    } else {
      HopefulPublishes(s, w);
    }
    var t := Happen(s, e);
    if Back(t, w) {
      FromOne(s, e, []);
      assert Back(From(s, [e] + []), w);
    } else {
      HopefulReturns(t, w);
      var events :| Back(From(t, events), w);
      FromOne(s, e, events);
      assert Back(From(s, [e] + events), w);
    }
  }

  lemma {:induction false} FromOne(s: System, e: Event, es: seq<Event>)
    ensures From(s, [e] + es) == From(Happen(s, e), es)
  {
    hide Happen;
    var all := [e] + es;
    if es == [] {
      assert all[..0] == [] && From(s, []) == s;
    } else {
      FromOne(s, e, es[..|es| - 1]);
      assert all[..|all| - 1] == [e] + es[..|es| - 1];
    }
  }

  /** Contents for a newcomer: those published, if any are. */
  lemma Fitting(s: System) returns (c: Contents)
    requires Inv(s)
    ensures forall i | 0 <= i < 3 && s.files[i] != Absent :: Same(s.files[i], c[i])
  {
    if s.files[0] != Absent {
      var w :| Covers(s, w);
      c := s.writers[w].contents;
    } else {
      c := ["", "", ""];
    }
  }

  lemma Newcomer(s: System) returns (w: nat)
    ensures w !in s.writers
  {
    var left := s.writers.Keys;
    w := 0;
    while left != {}
      invariant left <= s.writers.Keys && forall v | v in s.writers && v !in left :: v < w
      decreases |left|
    {
      var v :| v in left;
      if v >= w {
        w := v + 1;
      }
      left := left - {v};
    }
  }

  lemma NewcomerHopes(s: System, w: nat, c: Contents)
    requires Inv(s) && w !in s.writers && (s.files[0] == Absent || s.files[2] != Absent)
    requires forall i | 0 <= i < 3 && s.files[i] != Absent :: Same(s.files[i], c[i])
    ensures var t := Happen(s, Start(w, c)); w in t.writers && Hopeful(t, w)
  {
  }

  /** Exactly then: from any state that can be reached, somebody can still return, a newcomer or one who is
      there, if and only if the publication is not abandoned. */
  lemma {:induction false} FinalIff(s: System)
    requires Inv(s)
    ensures (exists events: seq<Event>, w: nat :: Back(From(s, events), w)) <==> !Abandoned(s)
  {
    hide Inv, From, Back, Hopeful, Happen;
    if Abandoned(s) {
      forall events, w ensures !Back(From(s, events), w) {
        AbandonedForever(s, events);
        NotBack(From(s, events), w);
      }
    } else if s.files[0] == Absent || s.files[2] != Absent {
      var c := Fitting(s);
      var w := Newcomer(s);
      NewcomerHopes(s, w, c);
      HopefulReturns(Happen(s, Start(w, c)), w);
      var events :| Back(From(Happen(s, Start(w, c)), events), w);
      FromOne(s, Start(w, c), events);
      assert Back(From(s, [Start(w, c)] + events), w);
    } else {
      var w :| Hopeful(s, w);
      assert w in s.writers by { HopefulIsThere(s, w); }
      HopefulReturns(s, w);
    }
  }

  lemma HopefulIsThere(s: System, w: nat)
    requires Hopeful(s, w)
    ensures w in s.writers
  {
  }

  lemma NotBack(s: System, w: nat)
    requires forall v | v in s.writers :: !s.writers[v].at.Returned?
    ensures !Back(s, w)
  {
  }

  /** It takes one writer that stops between two links. */
  lemma CanBeAbandoned(c: Contents)
    ensures exists events :: Abandoned(From(EMPTY, events))
  {
    var none: Reads := [Saw(Absent), Saw(Absent), Saw(Absent)];
    var read := ReadsAll(c);
    var s := System(EMPTY.files, map[0 := Writer(c, Reading(none))]);
    assert Verdict(none, c) == Staging by {
      assert none[0] != Saw(Present(c[0])) && forall i | 0 <= i < 3 :: none[i] == Saw(Absent);
    }
    var judged := Advance(read, s, Judge(0));
    var staged := Advance(judged, Next(s, Judge(0)), Stage(0));
    var staging := System(EMPTY.files, map[0 := Writer(c, Linking(0))]);
    var linked := Advance(staged, staging, Link(0, false));
    var stopped := Advance(linked, Next(staging, Link(0, false)), Stop(0));
    assert Abandoned(From(EMPTY, stopped));
  }

  lemma ReadsAll(c: Contents) returns (events: seq<Event>)
    ensures From(EMPTY, events) == System(EMPTY.files, map[0 := Writer(c, Reading([Saw(Absent), Saw(Absent), Saw(Absent)]))])
  {
    var s0 := Next(EMPTY, Start(0, c));
    var s1 := Next(s0, Read(0, 0));
    var s2 := Next(s1, Read(0, 1));
    events := Advance([], EMPTY, Start(0, c));
    events := Advance(events, s0, Read(0, 0));
    events := Advance(events, s1, Read(0, 1));
    events := Advance(events, s2, Read(0, 2));
    assert Next(s2, Read(0, 2)).writers[0].at.seen == [Saw(Absent), Saw(Absent), Saw(Absent)];
  }

  lemma Advance(events: seq<Event>, s: System, e: Event) returns (more: seq<Event>)
    requires From(EMPTY, events) == s && Enabled(s, e)
    ensures From(EMPTY, more) == Next(s, e)
  {
    more := events + [e];
    assert more[..|events|] == events;
  }

  // ----- The code, without interference -----

  /** The directory with the first `n` files of the contents. */
  function Published(contents: Contents, n: nat): Files {
    [if n > 0 then Present(contents[0]) else Absent,
     if n > 1 then Present(contents[1]) else Absent,
     if n > 2 then Present(contents[2]) else Absent]
  }

  class Directory {
    var files: Files

    constructor ()
      ensures files == [Absent, Absent, Absent]
    {
      files := [Absent, Absent, Absent];
    }

    /** `link`: creates the name, or fails if it exists or the file system refuses. */
    method LinkFile(index: nat, text: string, refuses: bool) returns (ok: bool)
      requires index < 3
      modifies this
      ensures ok == (!refuses && old(files)[index] == Absent)
      ensures files == if ok then old(files)[index := Present(text)] else old(files)
    {
      ok := !refuses && files[index] == Absent;
      if ok {
        files := files[index := Present(text)];
      }
    }

    /** `writeCanaryArtifacts` alone in the directory, with a file system that refuses link number
        `broken`: a repeated call with the same contents changes nothing, other contents are refused,
        and a refused link leaves what was published before it. */
    method WriteCanaryArtifacts(contents: Contents, broken: nat) returns (ok: bool)
      modifies this
      ensures ok <==> old(files) == Published(contents, 3) || (old(files) == Published(contents, 0) && broken >= 3)
      ensures files == if old(files) != Published(contents, 0) then old(files) else Published(contents, broken)
    {
      var existing := files;
      if forall i | 0 <= i < 3 :: existing[i] == Present(contents[i]) {
        return true;
      }
      if exists i :: 0 <= i < 3 && existing[i] != Absent {
        return false;
      }
      var index := 0;
      while index < 3
        invariant index <= 3 && index <= broken && files == Published(contents, index)
      {
        var linked := LinkFile(index, contents[index], index == broken);
        if !linked {
          var published := files[index];
          if published != Present(contents[index]) {
            return false;
          }
        }
        index := index + 1;
      }
      ok := true;
    }
  }
}
