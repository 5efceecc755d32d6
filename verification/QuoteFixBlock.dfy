/** One bash block through the sweep and back: exactly which blocks come back unchanged. */
module QuoteFixBlock {
  import opened Outcomes
  import opened PyText
  import opened QuoteFix
  import opened QuoteFixLine

  function SubstLines(ls: seq<string>): (r: seq<string>)
    ensures |r| == |ls| && forall i | 0 <= i < |ls| :: r[i] == Subst(ls[i])
  {
    seq(|ls|, i requires 0 <= i < |ls| => Subst(ls[i]))
  }

  /** The variables the sweep assigns and the cleanup recognises: those of the bare references. */
  function SweptVars(rs: seq<Ref>): set<string> {
    set r | r in rs && r.field == "" :: NodeToVar(r.node, "")
  }

  /** The one line of the block is a `set -` line without a line end: the header is glued to it. */
  predicate Glued(ls: seq<string>) {
    |ls| == 1 && IsSetLine(Subst(ls[0])) && !Terminated(ls[0])
  }

  /** The blocks the cleanup gives back as they were before the sweep. */
  predicate RoundTrips(ls: seq<string>) {
    var rs := Refs(Join(ls));
    if AlreadyPatched(Join(ls)) then forall l | l in ls :: !IsDropped(l)
    else
      && (forall l | l in ls :: !IsHeaderLine(l) && LineClean(l, SweptVars(rs)))
      && (forall r | r in rs :: r.field == "")
      && (rs != [] ==> !Glued(ls))
  }

  // ----- Substituting a whole body is substituting its lines -----

  lemma {:induction false} SubstJoin(ls: seq<string>)
    requires WellSplit(ls)
    ensures Subst(Join(ls)) == Join(SubstLines(ls))
    ensures forall r :: r in Refs(Join(ls)) <==> exists l :: l in ls && r in Refs(l)
    ensures Refs(Join(ls)) == [] ==> forall l | l in ls :: Refs(l) == []
  {
    hide Subst, Refs, IsBreak;
    if ls == [] {
      SubstEmpty();
      PlainText("", map[]);
    } else {
      SubstJoin(ls[1..]);
      SubstAppend(ls[0], Join(ls[1..]));
      assert SubstLines(ls)[1..] == SubstLines(ls[1..]);
      forall r
        ensures r in Refs(Join(ls)) <==> exists l :: l in ls && r in Refs(l)
      {
        assert forall l :: l in ls <==> l == ls[0] || l in ls[1..];
      }
    }
  }

  lemma SubstLinesShape(ls: seq<string>)
    requires WellSplit(ls)
    ensures WellSplit(SubstLines(ls))
    ensures forall i | 0 <= i < |ls| :: Terminated(SubstLines(ls)[i]) <==> Terminated(ls[i])
  {
    hide Subst, IsLine, Terminated;
    forall i | 0 <= i < |ls|
      ensures IsLine(SubstLines(ls)[i]) && (Terminated(SubstLines(ls)[i]) <==> Terminated(ls[i]))
    {
      SubstLine(ls[i]);
    }
  }

  lemma SplitSubst(ls: seq<string>)
    requires WellSplit(ls)
    ensures SplitLines(Subst(Join(ls))) == SubstLines(ls)
  {
    hide Subst, SplitLines, Join, WellSplit;
    SubstJoin(ls);
    SubstLinesShape(ls);
    SplitJoin(SubstLines(ls));
  }

  // ----- The lines the sweep inserts -----

  lemma SpacesRun(n: nat, t: string)
    requires t != "" && !IsSpace(t[0])
    ensures Run(IsSpace, Spaces(n) + t) == n && Run(IsBlankChar, Spaces(n) + t) == n
    ensures (Spaces(n) + t)[n..] == t && !IsBlank(Spaces(n) + t)
  {
    var s := Spaces(n) + t;
    assert s[n] == t[0];
    assert forall i | 0 <= i < n :: s[i] == ' ';
    RunIs(IsSpace, s, n);
    RunIs(IsBlankChar, s, n);
  }

  lemma CommentIsHeader(n: nat, mark: string, tail: string)
    requires HasMark(mark) && mark != "" && !IsSpace(mark[0])
    ensures IsHeaderLine(Spaces(n) + ("# " + mark + tail))
  {
    hide IsSpace, HasMark, StartsWith, Run;
    var t := "# " + mark + tail;
    HashIsNotSpace();
    SpacesRun(n, t);
    assert t[0] == '#' && t[1..] == " " + (mark + tail);
    OneSpace(mark, tail);
    MarkExtends(mark, tail);
    assert t[1 + 1..] == mark + tail;
  }

  lemma OneSpace(mark: string, tail: string)
    requires mark != "" && !IsSpace(mark[0])
    ensures Run(IsSpace, " " + (mark + tail)) == 1
  {
    var u := " " + (mark + tail);
    assert u[1] == mark[0];
    RunIs(IsSpace, u, 1);
  }

  lemma HashIsNotSpace()
    ensures !IsSpace('#') && IsSpace(' ')
  {
  }

  lemma MarkExtends(mark: string, tail: string)
    requires HasMark(mark)
    ensures HasMark(mark + tail)
  {
  }

  lemma CommentsAreHeaders(n: nat)
    ensures forall i | 0 <= i < 3 :: IsHeaderLine(Spaces(n) + COMMENT_LINES[i] + "\n")
  {
    hide IsHeaderLine;
    var t1 := " substituteNodeOutputRefs" + "(escapedForBash=true) wraps";
    var t2, t3 := " mis-tokenizes", ".";
    CommentIsHeader(n, HEADER_MARK_1, t1 + "\n");
    CommentIsHeader(n, HEADER_MARK_2, t2 + "\n");
    CommentIsHeader(n, HEADER_MARK_3, t3 + "\n");
    LineAssoc(n, "# " + HEADER_MARK_1, t1);
    LineAssoc(n, "# " + HEADER_MARK_2, t2);
    LineAssoc(n, "# " + HEADER_MARK_3, t3);
  }

  lemma LineAssoc(n: nat, a: string, b: string)
    ensures Spaces(n) + (a + b) + "\n" == Spaces(n) + (a + (b + "\n"))
  {
  }

  lemma AssignRestOf(v: string, node: string)
    requires IsNode(node)
    ensures AssignRest(v, "=$" + node + OUTPUT + "\n") == Some(Assign(v, node, ""))
  {
    var e := "=$" + node + OUTPUT + "\n";
    assert e[2..] == node + OUTPUT + "\n" && e[2] == node[0];
    NodeRun(node, "\n");
    assert e[2 + |node|..] == OUTPUT + "\n";
    assert (OUTPUT + "\n")[|OUTPUT|..] == "\n";
    assert e[2..2 + |node|] == node;
  }

  lemma InsertedAssign(n: nat, r: Ref)
    requires IsNode(r.node) && IsField(r.field)
    ensures var l := AssignLine(n, r);
            && !IsHeaderLine(l)
            && SweepAssign(l) == if r.field == "" then Some(Assign(NodeToVar(r.node, ""), r.node, "")) else None
  {
    hide NodeToVar, IsSpace, AssignRest;
    var l, v := AssignLine(n, r), NodeToVar(r.node, r.field);
    var e := "=$" + r.node + OUTPUT + "\n";
    VarShape(r.node, r.field);
    VarShape(r.node, "");
    assert l == Spaces(n) + (v + e);
    UpperIsNotSpace(v[0]);
    SpacesRun(n, v + e);
    RunIs(IsVarChar, v + e, |v|);
    assert (v + e)[..|v|] == v && (v + e)[|v|..] == e;
    AssignRestOf(v, r.node);
    assert ParseAssign(l) == Some(Assign(v, r.node, ""));
  }

  lemma UpperIsNotSpace(c: char)
    requires IsUpper(c)
    ensures !IsSpace(c) && c != '#'
  {
  }

  function AssignLine(n: nat, r: Ref): string {
    Spaces(n) + AssignText(r) + "\n"
  }

  predicate IsAssignLine(l: string, n: nat, rs: seq<Ref>) {
    exists r :: r in rs && l == AssignLine(n, r)
  }

  predicate SomeComment(l: string, n: nat) {
    exists i :: 0 <= i < 3 && l == Spaces(n) + COMMENT_LINES[i] + "\n"
  }

  /** The header the sweep inserts, as lines. */
  function Header(n: nat, rs: seq<Ref>): seq<string> {
    Indented(Spaces(n), HeaderTexts(rs))
  }

  lemma HeaderLines(n: nat, rs: seq<Ref>)
    ensures |Header(n, rs)| >= 3
    ensures forall l | l in Header(n, rs) :: SomeComment(l, n) || IsAssignLine(l, n, rs)
    ensures forall r | r in rs :: AssignLine(n, r) in Header(n, rs)
  {
    hide AssignText, Distinct, Spaces;
    var ts := HeaderTexts(rs);
    var ds := Distinct(rs);
    var asg := AssignTexts(ds);
    var h := Header(n, rs);
    assert ts == COMMENT_LINES + Distinct(asg);
    forall l | l in h
      ensures SomeComment(l, n) || IsAssignLine(l, n, rs)
    {
      var i :| 0 <= i < |h| && h[i] == l;
      if i < 3 {
        assert ts[i] == COMMENT_LINES[i];
      } else {
        assert ts[i] == Distinct(asg)[i - 3] && ts[i] in asg;
        var j :| 0 <= j < |asg| && asg[j] == ts[i];
        assert ds[j] in ds && l == AssignLine(n, ds[j]);
      }
    }
    forall r | r in rs
      ensures AssignLine(n, r) in h
    {
      var j :| 0 <= j < |ds| && ds[j] == r;
      assert asg[j] in Distinct(asg);
      var k :| 0 <= k < |Distinct(asg)| && Distinct(asg)[k] == asg[j];
      assert ts[3 + k] == asg[j] && h[3 + k] == AssignLine(n, r);
    }
  }

  // ----- Reverting a list of lines -----

  lemma RevertLinesAppend(a: seq<string>, b: seq<string>, m: VarMap)
    ensures RevertLines(a + b, m) == RevertLines(a, m) + RevertLines(b, m)
  {
    hide RevertText, IsDropped;
    if b == [] {
      assert a + b == a;
    } else {
      assert (a + b)[..|a + b| - 1] == a + b[..|b| - 1];
      RevertLinesAppend(a, b[..|b| - 1], m);
    }
  }

  /** Pass 2 keeps exactly the lines it does not drop. */
  lemma {:induction false} RevertLinesCount(ls: seq<string>, m: VarMap)
    ensures |RevertLines(ls, m)| <= |ls|
    ensures |RevertLines(ls, m)| == |ls| <==> forall l | l in ls :: !IsDropped(l)
    ensures RevertLines(ls, m) == [] <==> forall l | l in ls :: IsDropped(l)
    ensures (forall l | l in ls :: !IsDropped(l)) ==> forall i | 0 <= i < |ls| :: RevertLines(ls, m)[i] == RevertText(ls[i], m)
    ensures forall x | x in RevertLines(ls, m) :: exists l :: l in ls && !IsDropped(l) && x == RevertText(l, m)
  {
    hide RevertText, IsDropped;
    if ls != [] {
      var init, l := ls[..|ls| - 1], ls[|ls| - 1];
      RevertLinesCount(init, m);
      assert l in ls && forall x :: x in ls <==> x in init || x == l;
      assert forall i | 0 <= i < |init| :: ls[i] == init[i];
    }
  }

  /** An assignment line that defines `v` as `target`. */
  predicate Defines(l: string, v: string, target: string) {
    SweepAssign(l).Some? && SweepAssign(l).value.variable == v && SweepAssign(l).value.Target() == target
  }

  /** Pass 1 finds exactly the variables some line of the block defines. */
  lemma {:induction false} VarMapSpec(ls: seq<string>)
    ensures forall v | v in VarMapOf(ls) :: exists l :: l in ls && Defines(l, v, VarMapOf(ls)[v])
    ensures forall l, v, t | l in ls && Defines(l, v, t) :: v in VarMapOf(ls)
  {
    hide SweepAssign;
    if ls != [] {
      var init, last := ls[..|ls| - 1], ls[|ls| - 1];
      VarMapSpec(init);
      assert forall x :: x in ls <==> x in init || x == last;
      forall v | v in VarMapOf(ls)
        ensures exists l :: l in ls && Defines(l, v, VarMapOf(ls)[v])
      {
        if SweepAssign(last).Some? && SweepAssign(last).value.variable == v {
          assert Defines(last, v, VarMapOf(ls)[v]);
        } else {
          assert VarMapOf(ls) == AddAssign(VarMapOf(init), last);
          assert v in VarMapOf(init);
          var l :| l in init && Defines(l, v, VarMapOf(init)[v]);
          assert l in ls && VarMapOf(ls)[v] == VarMapOf(init)[v];
        }
      }
    }
  }

  // ----- The swept block, line by line -----

  lemma HeaderNoAssign(l: string)
    requires IsHeaderLine(l)
    ensures SweepAssign(l).None?
  {
    hide IsSpace, HasMark, AssignRest;
  }

  lemma NoBreaksIn(n: nat, t: string)
    requires Printable(t)
    ensures IsLine(Spaces(n) + t + "\n") && Terminated(Spaces(n) + t + "\n")
  {
    var l := Spaces(n) + t + "\n";
    forall i | 0 <= i < |l| - 1 ensures !IsBreak(l[i]) {
      assert l[i] == if i < n then ' ' else t[i - n];
    }
  }

  predicate Printable(t: string) {
    forall i | 0 <= i < |t| :: ' ' <= t[i] <= '~'
  }

  lemma PrintableMarks()
    ensures Printable(HEADER_MARK_1) && Printable(HEADER_MARK_2) && Printable(HEADER_MARK_3)
  {
    hide Printable;
    PrintableMark1();
    PrintableMark2();
    PrintableMark3();
  }

  lemma PrintableMark1()
    ensures Printable(HEADER_MARK_1)
  {
  }

  lemma {:induction false} PrintableMark2()
    ensures Printable(HEADER_MARK_2)
  {
    assert Printable("output in single quotes. ") && Printable("Wrapping in additional ");
    assert Printable("double quotes");
  }

  lemma {:induction false} PrintableMark3()
    ensures Printable(HEADER_MARK_3)
  {
    assert Printable("multi-line content. ") && Printable("Engine fix: ");
    assert Printable("WO-HARNESS-NODE-") && Printable("OUTPUT-BASH-QUOTING-01");
  }

  lemma {:induction false} PrintableTails()
    ensures Printable(" substituteNodeOutputRefs" + "(escapedForBash=true) wraps")
    ensures Printable(" mis-tokenizes")
  {
    assert Printable(" substituteNodeOutputRefs") && Printable("(escapedForBash=true) wraps");
  }

  lemma PrintableAppend(a: string, b: string)
    requires Printable(a) && Printable(b)
    ensures Printable(a + b)
  {
  }

  lemma PrintableComments()
    ensures forall i | 0 <= i < 3 :: Printable(COMMENT_LINES[i])
  {
    hide Printable;
    PrintableMarks();
    PrintableTails();
    assert Printable("# ") && Printable(".") by { PrintableSmall(); }
    PrintableAppend("# ", HEADER_MARK_1);
    PrintableAppend("# ", HEADER_MARK_2);
    PrintableAppend("# ", HEADER_MARK_3);
    PrintableAppend("# " + HEADER_MARK_1, " substituteNodeOutputRefs" + "(escapedForBash=true) wraps");
    PrintableAppend("# " + HEADER_MARK_2, " mis-tokenizes");
    PrintableAppend("# " + HEADER_MARK_3, ".");
  }

  lemma PrintableSmall()
    ensures Printable("# ") && Printable(".") && Printable("=$") && Printable(OUTPUT)
  {
  }

  lemma PrintableAssign(r: Ref)
    requires IsNode(r.node) && IsField(r.field)
    ensures Printable(AssignText(r))
  {
    hide NodeToVar;
    VarShape(r.node, r.field);
    PrintableSmall();
    assert Printable(NodeToVar(r.node, r.field)) && Printable(r.node);
    PrintableAppend(NodeToVar(r.node, r.field), "=$");
    PrintableAppend(NodeToVar(r.node, r.field) + "=$", r.node);
    PrintableAppend(NodeToVar(r.node, r.field) + "=$" + r.node, OUTPUT);
  }

  lemma HeaderTerminated(n: nat, rs: seq<Ref>)
    requires forall r | r in rs :: IsNode(r.node) && IsField(r.field)
    ensures AllTerminated(Header(n, rs))
  {
    hide Spaces, HeaderTexts, AssignText, IsLine, Terminated, IsNode, IsField;
    HeaderLines(n, rs);
    PrintableComments();
    forall l | l in Header(n, rs)
      ensures IsLine(l) && Terminated(l)
    {
      if SomeComment(l, n) {
        var i :| 0 <= i < 3 && l == Spaces(n) + COMMENT_LINES[i] + "\n";
        NoBreaksIn(n, COMMENT_LINES[i]);
      } else {
        var r :| r in rs && l == AssignLine(n, r);
        PrintableAssign(r);
        NoBreaksIn(n, AssignText(r));
      }
    }
  }

  lemma RefsWellFormed(s: string)
    ensures forall r | r in Refs(s) :: IsNode(r.node) && IsField(r.field)
  {
    hide IsField, IsNode, MatchRef;
    if s != "" {
      if MatchRef(s).Some? {
        MatchRefField(s);
      }
      RefsWellFormed(s[Taken(s)..]);
    }
  }

  /** The lines of the block with the header put in at line `at`. */
  function Patched(ls: seq<string>, n: nat): seq<string> {
    var s := SubstLines(ls);
    s[..InsertAt(s)] + Header(n, Refs(Join(ls))) + s[InsertAt(s)..]
  }

  lemma SweptLines(ls: seq<string>, n: nat)
    requires WellSplit(ls) && Refs(Join(ls)) != [] && !Glued(ls)
    ensures SplitLines(SweepBody(Join(ls), Spaces(n))) == Patched(ls, n)
  {
    hide Spaces, HeaderTexts, IsLine, Terminated, IsNode, IsField, Subst, Refs, IsSetLine, SplitLines, Join;
    var s, rs := SubstLines(ls), Refs(Join(ls));
    var at, h := InsertAt(s), Header(n, rs);
    SplitSubst(ls);
    SubstLinesShape(ls);
    RefsWellFormed(Join(ls));
    HeaderTerminated(n, rs);
    assert WellSplit(Patched(ls, n));
    JoinAppend(s[..at] + h, s[at..]);
    JoinAppend(s[..at], h);
    SplitJoin(Patched(ls, n));
  }

  // ----- Reverting the swept block -----

  lemma SweptLineIsNoAssign(l: string)
    ensures SweepAssign(Subst(l)).None?
  {
    hide Subst, Refs, ParseAssign;
    SubstLeavesNoRef(l);
    if ParseAssign(Subst(l)).Some? {
      AssignHasRef(Subst(l));
    }
  }

  lemma CommentDropped(l: string, n: nat)
    requires SomeComment(l, n)
    ensures IsHeaderLine(l)
  {
    hide IsHeaderLine, Spaces;
    CommentsAreHeaders(n);
  }

  /** What the header contributes: the assignments of bare references define their variables. */
  lemma HeaderLineKind(l: string, n: nat, rs: seq<Ref>)
    requires l in Header(n, rs) && forall r | r in rs :: IsNode(r.node) && IsField(r.field)
    ensures IsHeaderLine(l) <==> SomeComment(l, n)
    ensures forall r | r in rs && l == AssignLine(n, r) :: !IsHeaderLine(l) &&
              SweepAssign(l) == if r.field == "" then Some(Assign(NodeToVar(r.node, ""), r.node, "")) else None
    ensures SomeComment(l, n) ==> SweepAssign(l).None?
  {
    hide IsHeaderLine, SweepAssign, AssignLine, SomeComment, NodeToVar, Header;
    HeaderLines(n, rs);
    forall r | r in rs && l == AssignLine(n, r)
      ensures !IsHeaderLine(l)
      ensures SweepAssign(l) == if r.field == "" then Some(Assign(NodeToVar(r.node, ""), r.node, "")) else None
    {
      InsertedAssign(n, r);
    }
    if SomeComment(l, n) {
      CommentDropped(l, n);
      HeaderNoAssign(l);
    }
  }

  lemma InPatched(ls: seq<string>, n: nat, l: string)
    requires l in Patched(ls, n)
    ensures l in Header(n, Refs(Join(ls))) || exists i :: 0 <= i < |ls| && l == Subst(ls[i])
  {
    hide Header, Refs, Subst;
    var s := SubstLines(ls);
    if l !in Header(n, Refs(Join(ls))) {
      assert l in s;
      var i :| 0 <= i < |s| && s[i] == l;
    }
  }

  /** A line of the patched block that defines a variable is the assignment of a bare reference. */
  lemma PatchedDefines(ls: seq<string>, n: nat, l: string) returns (r: Ref)
    requires l in Patched(ls, n) && SweepAssign(l).Some?
    ensures r in Refs(Join(ls)) && r.field == "" && l == AssignLine(n, r) && IsNode(r.node)
    ensures SweepAssign(l) == Some(Assign(NodeToVar(r.node, ""), r.node, ""))
  {
    hide Header, Refs, Subst, SweepAssign, AssignLine, SomeComment, NodeToVar, IsField, IsNode;
    var rs := Refs(Join(ls));
    RefsWellFormed(Join(ls));
    InPatched(ls, n, l);
    if l in Header(n, rs) {
      HeaderLines(n, rs);
      HeaderLineKind(l, n, rs);
      r :| r in rs && l == AssignLine(n, r);
    } else {
      var i :| 0 <= i < |ls| && l == Subst(ls[i]);
      SweptLineIsNoAssign(ls[i]);
      assert false;
    }
  }

  /** Pass 1 over the patched block recovers exactly the bare references' variables. */
  lemma {:induction false} PatchedVarMap(ls: seq<string>, n: nat)
    ensures var m := VarMapOf(Patched(ls, n)); IsSweepMap(m) && m.Keys == SweptVars(Refs(Join(ls)))
  {
    hide Header, Refs, SweepAssign, AssignLine, NodeToVar, IsField, IsNode, VarMapOf, Patched;
    var p, rs := Patched(ls, n), Refs(Join(ls));
    var m := VarMapOf(p);
    VarMapSpec(p);
    RefsWellFormed(Join(ls));
    forall v | v in m
      ensures v in SweptVars(rs) && exists node :: MapsTo(m, v, node)
    {
      var l :| l in p && Defines(l, v, m[v]);
      var r := PatchedDefines(ls, n, l);
      assert MapsTo(m, v, r.node);
    }
    forall r | r in rs && r.field == ""
      ensures NodeToVar(r.node, "") in m
    {
      HeaderLines(n, rs);
      HeaderLineKind(AssignLine(n, r), n, rs);
      AssignLineInPatched(ls, n, r);
      assert Defines(AssignLine(n, r), NodeToVar(r.node, ""), "$" + r.node + OUTPUT + "");
    }
  }

  lemma AssignLineInPatched(ls: seq<string>, n: nat, r: Ref)
    requires AssignLine(n, r) in Header(n, Refs(Join(ls)))
    ensures AssignLine(n, r) in Patched(ls, n)
  {
    hide Header, Refs, AssignLine, Subst, IsSetLine;
  }

  /** The inserted header disappears exactly when every reference is bare. */
  lemma HeaderReverts(n: nat, rs: seq<Ref>, m: VarMap)
    requires forall r | r in rs :: IsNode(r.node) && IsField(r.field)
    ensures RevertLines(Header(n, rs), m) == [] <==> forall r | r in rs :: r.field == ""
  {
    hide Header, SweepAssign, IsHeaderLine, AssignLine, SomeComment, NodeToVar, IsField, IsNode;
    var h := Header(n, rs);
    RevertLinesCount(h, m);
    HeaderLines(n, rs);
    forall l | l in h
      ensures IsDropped(l) <==> SomeComment(l, n) || exists r :: r in rs && l == AssignLine(n, r) && r.field == ""
    {
      HeaderLineKind(l, n, rs);
    }
    forall r | r in rs && r.field != ""
      ensures AssignLine(n, r) in h && !IsDropped(AssignLine(n, r))
    {
      HeaderLineKind(AssignLine(n, r), n, rs);
    }
  }

  /** Pass 2 over the substituted lines of the block. */
  lemma BodyReverts(ls: seq<string>, m: VarMap)
    requires IsSweepMap(m)
    ensures var out := RevertLines(SubstLines(ls), m);
            && (|out| == |ls| <==> forall l | l in ls :: !IsHeaderLine(l))
            && (|out| == |ls| ==> forall i | 0 <= i < |ls| :: out[i] == RevertText(Subst(ls[i]), m))
  {
    hide SweepAssign, IsHeaderLine, Subst, IsSweepMap, RevertText;
    var s := SubstLines(ls);
    RevertLinesCount(s, m);
    forall i | 0 <= i < |ls|
      ensures IsDropped(s[i]) <==> IsHeaderLine(ls[i])
    {
      SweptLineIsNoAssign(ls[i]);
      SubstKeepsHeader(ls[i]);
    }
    assert forall i | 0 <= i < |ls| :: s[i] in s && ls[i] in ls;
  }

  /** No comment header survives the cleanup. */
  lemma {:induction false} NoHeaderSurvives(ls: seq<string>, m: VarMap)
    requires IsSweepMap(m)
    ensures forall x | x in RevertLines(ls, m) :: !IsHeaderLine(x)
  {
    hide IsHeaderLine, SweepAssign, IsSweepMap, RevertText, RevertLines;
    RevertLinesCount(ls, m);
    forall x | x in RevertLines(ls, m)
      ensures !IsHeaderLine(x)
    {
      var l :| l in ls && !IsDropped(l) && x == RevertText(l, m);
      RevertKeepsHeader(l, m);
    }
  }

  lemma LinesRoundTrip(ls: seq<string>, m: VarMap)
    requires WellSplit(ls) && IsSweepMap(m) && m.Keys == SweptVars(Refs(Join(ls)))
    requires forall r | r in Refs(Join(ls)) :: r.field == ""
    ensures forall i | 0 <= i < |ls| :: RevertText(Subst(ls[i]), m) == ls[i] <==> LineClean(ls[i], m.Keys)
  {
    hide Subst, Refs, IsSweepMap, RevertText, LineClean, NodeToVar, WellSplit, Join;
    SubstJoin(ls);
    forall i | 0 <= i < |ls|
      ensures RevertText(Subst(ls[i]), m) == ls[i] <==> LineClean(ls[i], m.Keys)
    {
      assert ls[i] in ls;
      LineRoundTrip(ls[i], m);
    }
  }

  lemma PatchedRoundTrip(ls: seq<string>, n: nat)
    requires WellSplit(ls)
    ensures CleanBlock(Patched(ls, n)) == ls
            <==> && (forall l | l in ls :: !IsHeaderLine(l) && LineClean(l, SweptVars(Refs(Join(ls)))))
                 && (forall r | r in Refs(Join(ls)) :: r.field == "")
  {
    hide Subst, Refs, IsSweepMap, RevertText, LineClean, NodeToVar, WellSplit, Join, Header, IsSetLine,
         IsHeaderLine, VarMapOf, RevertLines, IsNode, IsField, SweptVars;
    var s, rs := SubstLines(ls), Refs(Join(ls));
    var at, h := InsertAt(s), Header(n, rs);
    var m := VarMapOf(Patched(ls, n));
    PatchedVarMap(ls, n);
    RefsWellFormed(Join(ls));
    HeaderReverts(n, rs, m);
    BodyReverts(ls, m);
    NoHeaderSurvives(Patched(ls, n), m);
    RevertLinesAppend(s[..at] + h, s[at..], m);
    RevertLinesAppend(s[..at], h, m);
    assert s == s[..at] + s[at..];
    RevertLinesAppend(s[..at], s[at..], m);
    var p, q, out := RevertLines(s[..at], m), RevertLines(s[at..], m), RevertLines(h, m);
    assert CleanBlock(Patched(ls, n)) == p + out + q && RevertLines(s, m) == p + q;
    if forall r | r in rs :: r.field == "" {
      assert p + out + q == p + q;
      LinesRoundTrip(ls, m);
      assert p + q == ls ==> forall i | 0 <= i < |ls| :: (p + q)[i] == ls[i];
      if forall l | l in ls :: !IsHeaderLine(l) && LineClean(l, m.Keys) {
        assert forall i | 0 <= i < |ls| :: ls[i] in ls;
        assert p + q == ls;
      }
    } else {
      assert |out| > 0;
      assert |p + out + q| == |ls| ==> |p + q| != |ls|;
    }
  }

  // ----- Blocks that are not swept, and the block whose header is glued on -----

  lemma NothingDefined(ls: seq<string>)
    requires forall l | l in ls :: SweepAssign(l).None?
    ensures VarMapOf(ls) == map[]
  {
    hide SweepAssign;
    if ls != [] {
      NothingDefined(ls[..|ls| - 1]);
    }
  }

  lemma RevertNothing(s: string)
    ensures RevertText(s, map[]) == s
  {
    if s != "" {
      RevertNothing(s[1..]);
      assert MatchUse(s, {}).None?;
    }
  }

  /** The cleanup leaves alone exactly the blocks in which it finds nothing to drop. */
  lemma {:induction false} CleanUnswept(ls: seq<string>)
    ensures CleanBlock(ls) == ls <==> forall l | l in ls :: !IsDropped(l)
  {
    hide SweepAssign, IsHeaderLine, RevertText, RevertLines, VarMapOf;
    RevertLinesCount(ls, VarMapOf(ls));
    if forall l | l in ls :: !IsDropped(l) {
      NothingDefined(ls);
      forall i | 0 <= i < |ls| ensures CleanBlock(ls)[i] == ls[i] {
        RevertNothing(ls[i]);
      }
    }
  }

  lemma NoRefsClean(s: string)
    requires Refs(s) == []
    ensures LineClean(s, {})
  {
    hide MatchRef;
    if s != "" {
      NoRefsClean(s[Taken(s)..]);
    }
  }

  lemma NoRefsRoundTrip(ls: seq<string>)
    requires WellSplit(ls) && Refs(Join(ls)) == []
    ensures (forall l | l in ls :: !IsDropped(l)) <==> forall l | l in ls :: !IsHeaderLine(l) && LineClean(l, {})
  {
    hide Subst, Refs, ParseAssign, IsHeaderLine, LineClean, Join, WellSplit;
    SubstJoin(ls);
    forall l | l in ls
      ensures SweepAssign(l).None? && LineClean(l, {})
    {
      NoRefsClean(l);
      if ParseAssign(l).Some? {
        AssignHasRef(l);
      }
    }
  }

  lemma {:induction false} SweepAssignVar(l: string)
    requires SweepAssign(l).Some?
    ensures var a := SweepAssign(l).value; a.variable != "" && a.Target()[0] == '$'
  {
    hide IsSpace, NodeToVar;
    var t := l[Run(IsSpace, l)..];
    RunAtLeast(IsVarChar, t, 1);
  }

  lemma VarMapShape(ls: seq<string>)
    ensures var m := VarMapOf(ls); "" !in m && forall v | v in m :: m[v] != "" && m[v][0] == '$'
  {
    hide SweepAssign, VarMapOf;
    var m := VarMapOf(ls);
    VarMapSpec(ls);
    forall v | v in m
      ensures v != "" && m[v] != "" && m[v][0] == '$'
    {
      var l :| l in ls && Defines(l, v, m[v]);
      SweepAssignVar(l);
    }
  }

  lemma CleanTerminated(p: seq<string>)
    requires forall l | l in p :: Terminated(l)
    ensures forall x | x in CleanBlock(p) :: Terminated(x)
  {
    hide SweepAssign, IsHeaderLine, RevertText, VarMapOf, RevertLines, Terminated;
    var m := VarMapOf(p);
    VarMapShape(p);
    RevertLinesCount(p, m);
    forall x | x in CleanBlock(p)
      ensures Terminated(x)
    {
      var l :| l in p && !IsDropped(l) && x == RevertText(l, m);
      RevertTerminated(l, m);
    }
  }

  lemma GlueLine(a: string, b: string)
    requires IsLine(a) && !Terminated(a) && IsLine(b) && Terminated(b)
    ensures IsLine(a + b) && Terminated(a + b)
  {
    hide IsBreak;
  }

  /** A single unterminated `set -` line takes the first header line onto itself. */
  lemma {:induction false} GluedLines(ls: seq<string>, n: nat)
    requires WellSplit(ls) && Refs(Join(ls)) != [] && Glued(ls)
    ensures var h := Header(n, Refs(Join(ls)));
            && |h| >= 3 && AllTerminated([Subst(ls[0]) + h[0]] + h[1..])
            && SplitLines(SweepBody(Join(ls), Spaces(n))) == [Subst(ls[0]) + h[0]] + h[1..]
  {
    hide Spaces, HeaderTexts, IsLine, Terminated, IsNode, IsField, Subst, Refs, IsSetLine, SplitLines;
    var s, rs := SubstLines(ls), Refs(Join(ls));
    var h := Header(n, rs);
    HeaderLines(n, rs);
    RefsWellFormed(Join(ls));
    HeaderTerminated(n, rs);
    SplitSubst(ls);
    SubstLinesShape(ls);
    GlueLine(s[0], h[0]);
    var p := [s[0] + h[0]] + h[1..];
    assert p[1..] == h[1..];
    SplitJoin(p);
    assert s[..1] == [s[0]] && s[1..] == [];
    JoinOne(s[0]);
    assert InsertAt(s) == 1;
    assert SweepBody(Join(ls), Spaces(n)) == s[0] + Join(h) + "";
    assert Join(p) == (s[0] + h[0]) + Join(h[1..]) && Join(h) == h[0] + Join(h[1..]);
    assert Join(p) == SweepBody(Join(ls), Spaces(n));
  }

  lemma JoinOne(l: string)
    ensures Join([l]) == l && Join([]) == ""
  {
    assert [l][1..] == [];
  }

  /** With the header glued to its only line, the block does not come back. */
  lemma {:induction false} GluedFails(ls: seq<string>, n: nat)
    requires WellSplit(ls) && Refs(Join(ls)) != [] && Glued(ls)
    ensures CleanBlock(SplitLines(SweepBody(Join(ls), Spaces(n)))) != ls
  {
    hide Spaces, HeaderTexts, IsLine, Terminated, Subst, Refs, IsSetLine, SplitLines, SweepBody, CleanBlock, Join;
    GluedLines(ls, n);
    CleanTerminated(SplitLines(SweepBody(Join(ls), Spaces(n))));
    assert ls[0] in ls;
  }

  /** Cleaning a swept block gives the block back exactly when `RoundTrips` holds of it. */
  lemma {:induction false} BlockRoundTrip(ls: seq<string>, n: nat)
    requires WellSplit(ls)
    ensures CleanBlock(SplitLines(SweepBlock(Join(ls), Spaces(n)))) == ls <==> RoundTrips(ls)
  {
    hide Spaces, HeaderTexts, WellSplit, Subst, Refs, Glued, SplitLines, CleanBlock, Join, IsHeaderLine, SweepAssign,
         LineClean, AlreadyPatched, Patched, NodeToVar;
    var rs := Refs(Join(ls));
    SplitJoin(ls);
    if AlreadyPatched(Join(ls)) {
      CleanUnswept(ls);
    } else if rs == [] {
      CleanUnswept(ls);
      NoRefsRoundTrip(ls);
      assert SweptVars(rs) == {};
    } else if Glued(ls) {
      GluedFails(ls, n);
    } else {
      SweptLines(ls, n);
      PatchedRoundTrip(ls, n);
    }
  }
}
