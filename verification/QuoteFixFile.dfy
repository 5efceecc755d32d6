/** Whole workflow files through the sweep and back. The cleanup scans the swept file afresh, so
    its blocks must be found to be the images of the original ones. */
module QuoteFixFile {
  import opened Outcomes
  import opened PyText
  import opened QuoteFix
  import opened QuoteFixLine
  import opened QuoteFixBlock

  /** Every block body replaced by its image under `f`, everything else kept in place. */
  function Rewrite(lines: seq<string>, f: (seq<string>, nat) -> seq<string>): seq<string>
    decreases |lines|
  {
    if lines == [] then []
    else match BashKey(lines[0])
      case None => [lines[0]] + Rewrite(lines[1..], f)
      case Some(k) =>
        var r := BodyScan(lines[1..], k, None);
        [lines[0]] + Image(lines[1..1 + r.0], r.1, f) + Rewrite(lines[1 + r.0..], f)
  }

  function Image(body: seq<string>, indent: Option<nat>, f: (seq<string>, nat) -> seq<string>): seq<string> {
    if indent.Some? && body != [] then f(body, indent.value) else body
  }

  function SweptBody(body: seq<string>, n: nat): seq<string> {
    SplitLines(SweepBlock(Join(body), Spaces(n)))
  }

  function CleanedBody(body: seq<string>, n: nat): seq<string> {
    CleanBlock(body)
  }

  /** Every block of the file satisfies `RoundTrips`. */
  predicate BlocksRoundTrip(lines: seq<string>)
    decreases |lines|
  {
    lines == [] ||
    match BashKey(lines[0])
    case None => BlocksRoundTrip(lines[1..])
    case Some(k) =>
      var r := BodyScan(lines[1..], k, None);
      (r.1.Some? && r.0 > 0 ==> RoundTrips(lines[1..1 + r.0])) && BlocksRoundTrip(lines[1 + r.0..])
  }

  // ----- Where a block body ends -----

  /** The line continues a body whose indentation is `n`. */
  predicate InBody(l: string, n: nat) {
    IsBlank(l) || IndentOf(l) >= n
  }

  predicate AllInBody(ls: seq<string>, n: nat) {
    forall l | l in ls :: InBody(l, n)
  }

  predicate Ends(rest: seq<string>, n: nat) {
    rest == [] || !InBody(rest[0], n)
  }

  predicate SameHead(a: seq<string>, b: seq<string>) {
    (a == [] <==> b == []) && (a != [] ==> a[0] == b[0])
  }

  predicate AllBlank(ls: seq<string>) {
    forall l | l in ls :: IsBlank(l)
  }

  lemma ScanBody(p: seq<string>, rest: seq<string>, k: nat, n: nat)
    requires AllInBody(p, n) && Ends(rest, n)
    ensures BodyScan(p + rest, k, Some(n)) == (|p|, Some(n))
  {
    hide IsBlank, IndentOf;
    if p == [] {
      assert p + rest == rest;
    } else {
      assert (p + rest)[1..] == p[1..] + rest && (p + rest)[0] == p[0];
      assert p[0] in p && forall l | l in p[1..] :: l in p;
      ScanBody(p[1..], rest, k, n);
    }
  }

  /** The scan only looks at the first line after the body. */
  lemma ScanPrefix(body: seq<string>, rest: seq<string>, rest': seq<string>, k: nat, bi: Option<nat>)
    requires SameHead(rest, rest') && BodyScan(body + rest, k, bi).0 == |body|
    ensures BodyScan(body + rest', k, bi) == BodyScan(body + rest, k, bi)
  {
    hide IsBlank, IndentOf;
    if body == [] {
      assert body + rest == rest && body + rest' == rest';
    } else {
      assert (body + rest)[1..] == body[1..] + rest && (body + rest')[1..] == body[1..] + rest';
      var ind := IndentOf(body[0]);
      var bi' := if !IsBlank(body[0]) && bi.None? then Some(ind) else bi;
      ScanPrefix(body[1..], rest, rest', k, bi');
    }
  }

  lemma ScanSomeFacts(lines: seq<string>, k: nat, n: nat)
    ensures var r := BodyScan(lines, k, Some(n)); AllInBody(lines[..r.0], n) && Ends(lines[r.0..], n)
  {
    hide IsBlank, IndentOf;
    if lines != [] && InBody(lines[0], n) {
      ScanSomeFacts(lines[1..], k, n);
      var r := BodyScan(lines, k, Some(n));
      assert lines[..r.0] == [lines[0]] + lines[1..][..r.0 - 1];
      assert lines[r.0..] == lines[1..][r.0 - 1..];
    }
  }

  /** What the scan of a body says about its lines: blank ones only, or a first line indented deeper
      than the key followed by lines at least as deep, up to the first that is not. */
  lemma {:induction false} ScanFacts(lines: seq<string>, k: nat)
    ensures var r := BodyScan(lines, k, None);
            AllBlank(lines[..r.0])
            || (&& r.1.Some? && r.1.value > k && AllInBody(lines[..r.0], r.1.value) && Ends(lines[r.0..], r.1.value)
                && r.0 > 0 && (!IsBlank(lines[0]) ==> IndentOf(lines[0]) == r.1.value))
  {
    hide IsBlank, IndentOf;
    var r := BodyScan(lines, k, None);
    if lines != [] && IsBlank(lines[0]) {
      ScanFacts(lines[1..], k);
      assert lines[..r.0] == [lines[0]] + lines[1..][..r.0 - 1];
      assert lines[r.0..] == lines[1..][r.0 - 1..];
    } else if lines != [] && IndentOf(lines[0]) > k {
      var n := IndentOf(lines[0]);
      ScanSomeFacts(lines[1..], k, n);
      assert lines[..r.0] == [lines[0]] + lines[1..][..r.0 - 1];
      assert lines[r.0..] == lines[1..][r.0 - 1..];
    }
  }

  // ----- The swept body is found again -----

  lemma DollarIsNotSpace()
    ensures !IsSpace('$')
  {
  }

  lemma BlankHasNoRefs(ls: seq<string>)
    requires WellSplit(ls) && AllBlank(ls)
    ensures Refs(Join(ls)) == [] && forall l | l in ls :: !IsDropped(l)
  {
    hide IsSpace, WellSplit, IsBreak, SweepAssign, Refs;
    DollarIsNotSpace();
    forall l | l in ls
      ensures Refs(l) == [] && !IsDropped(l)
    {
      assert NoDollar(l);
      PlainText(l, map[]);
      BlankNotDropped(l);
    }
    SubstJoin(ls);
    if Refs(Join(ls)) != [] {
      assert Refs(Join(ls))[0] in Refs(Join(ls));
    }
  }

  lemma BlankNotDropped(l: string)
    requires IsBlank(l)
    ensures !IsDropped(l)
  {
    hide IsSpace;
    assert l[|l|..] == "";
  }

  lemma {:induction false} HeaderIndent(n: nat, rs: seq<Ref>)
    requires forall r | r in rs :: IsNode(r.node) && IsField(r.field)
    ensures forall l | l in Header(n, rs) :: !IsBlank(l) && IndentOf(l) == n
  {
    hide Spaces, AssignText, IsSpace, IsNode, IsField, Header, IsBlank;
    HeaderLines(n, rs);
    forall l | l in Header(n, rs)
      ensures !IsBlank(l) && IndentOf(l) == n
    {
      if SomeComment(l, n) {
        var i :| 0 <= i < 3 && l == Spaces(n) + COMMENT_LINES[i] + "\n";
        CommentStart(i);
        SpacesRun(n, COMMENT_LINES[i] + "\n");
        assert l == Spaces(n) + (COMMENT_LINES[i] + "\n");
      } else {
        var r :| r in rs && l == AssignLine(n, r);
        AssignStart(r);
        SpacesRun(n, AssignText(r) + "\n");
        assert l == Spaces(n) + (AssignText(r) + "\n");
      }
    }
  }

  lemma CommentStart(i: nat)
    requires i < 3
    ensures COMMENT_LINES[i] != "" && !IsSpace(COMMENT_LINES[i][0])
  {
    assert COMMENT_LINES[i][0] == '#';
  }

  lemma AssignStart(r: Ref)
    requires IsNode(r.node) && IsField(r.field)
    ensures AssignText(r) != "" && !IsSpace(AssignText(r)[0])
  {
    hide NodeToVar, IsSpace;
    VarShape(r.node, r.field);
    UpperIsNotSpace(NodeToVar(r.node, r.field)[0]);
  }

  lemma SetLineNotBlank(l: string)
    requires IsSetLine(l)
    ensures !IsBlank(l)
  {
    hide IsSpace;
  }

  lemma GluedIndent(a: string, b: string)
    requires !IsBlank(a)
    ensures !IsBlank(a + b) && IndentOf(a + b) == IndentOf(a)
  {
    hide IsSpace;
    RunAppend(IsSpace, a, b);
    BlankRunShort(a);
    RunAppend(IsBlankChar, a, b);
  }

  lemma BlankRunShort(a: string)
    requires !IsBlank(a)
    ensures IndentOf(a) < |a|
  {
    RunAtLeast(IsSpace, a, IndentOf(a));
  }

  /** A swept body is a body of the same indentation, and says so on its first line. */
  lemma SweptShape(body: seq<string>, n: nat)
    requires WellSplit(body) && body != [] && !AlreadyPatched(Join(body)) && Refs(Join(body)) != []
    requires AllInBody(body, n) && (!IsBlank(body[0]) ==> IndentOf(body[0]) == n)
    ensures var p := SweptBody(body, n); p != [] && AllInBody(p, n) && !IsBlank(p[0]) && IndentOf(p[0]) == n
  {
    hide Spaces, IsBlank, IndentOf, Header, Refs, Subst, IsSetLine, WellSplit, Terminated, SplitLines, Join, AlreadyPatched,
         IsNode, IsField;
    var s, rs := SubstLines(body), Refs(Join(body));
    var h, p := Header(n, rs), SweptBody(body, n);
    RefsWellFormed(Join(body));
    HeaderIndent(n, rs);
    HeaderLines(n, rs);
    forall i | 0 <= i < |body|
      ensures InBody(s[i], n) && IsBlank(s[i]) == IsBlank(body[i]) && IndentOf(s[i]) == IndentOf(body[i])
    {
      assert body[i] in body;
      SubstKeepsIndent(body[i]);
    }
    if IsSetLine(s[0]) {
      SetLineNotBlank(s[0]);
    }
    if Glued(body) {
      GluedLines(body, n);
      GluedIndent(s[0], h[0]);
      assert AllInBody([s[0] + h[0]] + h[1..], n);
    } else {
      SweptLines(body, n);
      assert p == Patched(body, n);
      assert AllInBody(s, n);
    }
  }

  lemma UnsweptBody(body: seq<string>, n: nat)
    requires WellSplit(body) && (AlreadyPatched(Join(body)) || Refs(Join(body)) == [])
    ensures SweptBody(body, n) == body
  {
    hide WellSplit, SplitLines, Join, Refs, AlreadyPatched, Spaces;
    SplitJoin(body);
  }

  /** Rescanning the file after the sweep finds the image of the body, with the same indentation. */
  lemma {:induction false} SweptScan(lines: seq<string>, k: nat, rest': seq<string>)
    requires WellSplit(lines)
    requires SameHead(lines[BodyScan(lines, k, None).0..], rest')
    ensures var r := BodyScan(lines, k, None);
            var p := Image(lines[..r.0], r.1, SweptBody);
            BodyScan(p + rest', k, None) == (|p|, r.1) && (p == [] <==> r.0 == 0)
  {
    hide IsBlank, IndentOf, IsLine, Terminated, Refs, AlreadyPatched, SweptBody, Join;
    var r := BodyScan(lines, k, None);
    var body, rest := lines[..r.0], lines[r.0..];
    var p := Image(body, r.1, SweptBody);
    assert lines == body + rest;
    ScanFacts(lines, k);
    if r.1.None? || r.0 == 0 || AlreadyPatched(Join(body)) || Refs(Join(body)) == [] {
      if r.1.Some? && r.0 > 0 {
        UnsweptBody(body, r.1.value);
      }
      ScanPrefix(body, rest, rest', k, None);
    } else {
      if AllBlank(body) {
        BlankHasNoRefs(body);
      }
      var n := r.1.value;
      SweptShape(body, n);
      assert (p + rest')[0] == p[0] && (p + rest')[1..] == p[1..] + rest';
      assert forall l | l in p[1..] :: l in p;
      ScanBody(p[1..], rest', k, n);
    }
  }

  // ----- Cleaned lines stay body lines -----

  lemma RevertKeepsIndent(l: string, m: VarMap)
    requires "" !in m && forall v | v in m :: m[v] != "" && m[v][0] == '$'
    ensures IndentOf(RevertText(l, m)) == IndentOf(l) && IsBlank(RevertText(l, m)) == IsBlank(l)
  {
    hide RevertText, PlainLen, IsSpace, IsBreak;
    DollarIsNotSpace();
    var n := PlainLen(l);
    var x, y := l[..n], l[n..];
    assert l == x + y;
    RevertAppend(x, y, m);
    PlainText(x, m);
    if y != "" {
      RevertFirst(y, m);
    } else {
      RevertEmpty(m);
    }
    var z := RevertText(y, m);
    RunAppend(IsBlankChar, x, y);
    RunAppend(IsBlankChar, x, z);
    SpaceRunPlain(x, y);
    SpaceRunPlain(x, z);
  }

  lemma CleanedInBody(p: seq<string>, n: nat)
    requires AllInBody(p, n)
    ensures AllInBody(CleanBlock(p), n)
  {
    hide IsBlank, IndentOf, RevertLines, VarMapOf, RevertText, SweepAssign, IsHeaderLine;
    var m := VarMapOf(p);
    VarMapShape(p);
    RevertLinesCount(p, m);
    forall x | x in CleanBlock(p)
      ensures InBody(x, n)
    {
      var l :| l in p && !IsDropped(l) && x == RevertText(l, m);
      RevertKeepsIndent(l, m);
    }
  }

  /** Two bodies followed by the same terminating line can only agree as a whole. */
  lemma {:induction false} Align(c: seq<string>, y: seq<string>, body: seq<string>, rest: seq<string>, n: nat)
    requires AllInBody(c, n) && AllInBody(body, n) && Ends(rest, n) && SameHead(rest, y)
    ensures c + y == body + rest <==> c == body && y == rest
  {
    hide InBody;
    if |c| == |body| {
      assert (c + y)[..|c|] == c && (c + y)[|c|..] == y;
      assert (body + rest)[..|c|] == body && (body + rest)[|c|..] == rest;
    } else if y != [] && |c| < |body| {
      assert (c + y)[|c|] == rest[0] && (body + rest)[|c|] == body[|c|] && body[|c|] in body;
    } else if y != [] {
      assert (c + y)[|body|] == c[|body|] && c[|body|] in c && (body + rest)[|body|] == rest[0];
    }
  }

  lemma BlankBodyKept(body: seq<string>, indent: Option<nat>)
    requires WellSplit(body) && AllBlank(body)
    ensures Image(Image(body, indent, SweptBody), indent, CleanedBody) == body
    ensures RoundTrips(body)
  {
    hide WellSplit, SplitLines, Join, Refs, AlreadyPatched, Spaces, IsBlank, CleanBlock, SweptBody, RoundTrips;
    BlankHasNoRefs(body);
    if indent.Some? && body != [] {
      UnsweptBody(body, indent.value);
      CleanUnswept(body);
      BlockRoundTrip(body, indent.value);
      BlankRoundTrips(body, indent.value);
    } else {
      UnsweptBody(body, 0);
      CleanUnswept(body);
      BlankRoundTrips(body, 0);
    }
  }

  lemma BlankRoundTrips(body: seq<string>, n: nat)
    requires WellSplit(body) && SweptBody(body, n) == body && CleanBlock(body) == body
    ensures RoundTrips(body)
  {
    hide CleanBlock, RoundTrips;
    BlockRoundTrip(body, n);
  }

  // ----- The whole file -----

  lemma SweptTerminated(body: seq<string>, n: nat)
    requires AllTerminated(body)
    ensures AllTerminated(SweptBody(body, n))
  {
    hide Spaces, IsLine, Terminated, SplitLines, Join, Refs, AlreadyPatched, Subst, IsNode, IsField, Header, IsSetLine;
    if AlreadyPatched(Join(body)) || Refs(Join(body)) == [] {
      UnsweptBody(body, n);
    } else {
      RefsWellFormed(Join(body));
      HeaderTerminated(n, Refs(Join(body)));
      SweptLines(body, n);
      SubstLinesShape(body);
    }
  }

  /** A rewrite of bodies that keeps line shapes: lines stay lines, and stay terminated. */
  ghost predicate KeepsShape(f: (seq<string>, nat) -> seq<string>) {
    forall body, n :: WellSplit(body) ==> WellSplit(f(body, n)) && (AllTerminated(body) ==> AllTerminated(f(body, n)))
  }

  lemma SweptKeepsShape()
    ensures KeepsShape(SweptBody)
  {
    hide WellSplit, AllTerminated, SplitLines;
    forall body, n | WellSplit(body)
      ensures WellSplit(SweptBody(body, n)) && (AllTerminated(body) ==> AllTerminated(SweptBody(body, n)))
    {
      SplitLinesShape(SweepBlock(Join(body), Spaces(n)));
      if AllTerminated(body) {
        SweptTerminated(body, n);
      }
    }
  }

  lemma SubWellSplit(ls: seq<string>, i: nat, j: nat)
    requires WellSplit(ls) && i <= j <= |ls|
    ensures WellSplit(ls[i..j]) && (j < |ls| ==> AllTerminated(ls[i..j]))
  {
  }

  lemma RewriteHead(lines: seq<string>, f: (seq<string>, nat) -> seq<string>)
    ensures SameHead(lines, Rewrite(lines, f))
  {
  }

  lemma WellSplitCons(l: string, xs: seq<string>)
    requires IsLine(l) && WellSplit(xs) && (xs != [] ==> Terminated(l))
    ensures WellSplit([l] + xs)
  {
  }

  lemma RewriteEmpty(f: (seq<string>, nat) -> seq<string>)
    ensures Rewrite([], f) == []
  {
  }

  lemma RewriteKey(lines: seq<string>, k: nat, f: (seq<string>, nat) -> seq<string>)
    requires lines != [] && BashKey(lines[0]) == Some(k)
    ensures var r := BodyScan(lines[1..], k, None);
            Rewrite(lines, f) == [lines[0]] + (Image(lines[1..1 + r.0], r.1, f) + Rewrite(lines[1 + r.0..], f))
  {
    hide BodyScan, BashKey, Image;
  }

  lemma RewritePlain(lines: seq<string>, f: (seq<string>, nat) -> seq<string>)
    requires lines != [] && BashKey(lines[0]).None?
    ensures Rewrite(lines, f) == [lines[0]] + Rewrite(lines[1..], f)
  {
    hide BodyScan, BashKey, Image;
  }

  /** The rewritten lines are what splitting the rewritten text gives. */
  lemma {:induction false} RewriteShape(lines: seq<string>, f: (seq<string>, nat) -> seq<string>)
    requires WellSplit(lines) && KeepsShape(f)
    ensures WellSplit(Rewrite(lines, f))
    decreases |lines|
  {
    hide BodyScan, IsLine, Terminated, BashKey, Rewrite;
    if lines == [] {
      RewriteEmpty(f);
    } else {
      match BashKey(lines[0])
      case None =>
        RewriteShape(lines[1..], f);
        RewriteHead(lines[1..], f);
        RewritePlain(lines, f);
        WellSplitCons(lines[0], Rewrite(lines[1..], f));
      case Some(k) =>
        var r := BodyScan(lines[1..], k, None);
        var body, rest := lines[1..1 + r.0], lines[1 + r.0..];
        var img, out := Image(body, r.1, f), Rewrite(rest, f);
        RewriteShape(rest, f);
        RewriteHead(rest, f);
        RewriteKey(lines, k, f);
        SubWellSplit(lines, 1, 1 + r.0);
        assert WellSplit(img) && (AllTerminated(body) ==> AllTerminated(img));
        WellSplitAppend(img, out);
        WellSplitCons(lines[0], img + out);
    }
  }

  lemma CutHead<T>(h: T, a: seq<T>, b: seq<T>)
    ensures [h] + a == [h] + b <==> a == b
  {
    assert ([h] + a)[1..] == a && ([h] + b)[1..] == b;
  }

  /** One key and its body: the lines after the key come back exactly when the body and the rest do. */
  lemma OneBlock(after: seq<string>, k: nat, y: seq<string>)
    requires WellSplit(after)
    requires SameHead(after[BodyScan(after, k, None).0..], y)
    ensures var r := BodyScan(after, k, None);
            var body, rest := after[..r.0], after[r.0..];
            Image(Image(body, r.1, SweptBody), r.1, CleanedBody) + y == after
            <==> (r.1.Some? && r.0 > 0 ==> RoundTrips(body)) && y == rest
  {
    hide InBody, Terminated, IsLine, SweptBody, RoundTrips, IsBlank, IndentOf, CleanBlock, Join, AlreadyPatched, Refs;
    var r := BodyScan(after, k, None);
    var body, rest := after[..r.0], after[r.0..];
    assert after == body + rest;
    ScanFacts(after, k);
    SubWellSplit(after, 0, r.0);
    if AllBlank(body) {
      BlankBodyKept(body, r.1);
      CutLines(body, y, rest);
    } else {
      var n := r.1.value;
      SweptInBody(body, n);
      CleanedInBody(SweptBody(body, n), n);
      BodyRoundTrip(body, n);
      SweptNonEmpty(body, n);
      Align(CleanBlock(SweptBody(body, n)), y, body, rest, n);
    }
  }

  lemma CutLines(p: seq<string>, x: seq<string>, y: seq<string>)
    ensures p + x == p + y <==> x == y
  {
    assert (p + x)[|p|..] == x && (p + y)[|p|..] == y;
  }

  lemma BodyRoundTrip(body: seq<string>, n: nat)
    requires WellSplit(body)
    ensures CleanBlock(SweptBody(body, n)) == body <==> RoundTrips(body)
  {
    hide CleanBlock, RoundTrips, WellSplit;
    BlockRoundTrip(body, n);
  }

  lemma SweptNonEmpty(body: seq<string>, n: nat)
    requires WellSplit(body) && body != [] && AllInBody(body, n) && (!IsBlank(body[0]) ==> IndentOf(body[0]) == n)
    ensures SweptBody(body, n) != []
  {
    hide SweptBody, AlreadyPatched, Refs, Join, IsBlank, IndentOf, WellSplit;
    if AlreadyPatched(Join(body)) || Refs(Join(body)) == [] {
      UnsweptBody(body, n);
    } else {
      SweptShape(body, n);
    }
  }

  lemma SweptInBody(body: seq<string>, n: nat)
    requires WellSplit(body) && body != [] && AllInBody(body, n) && (!IsBlank(body[0]) ==> IndentOf(body[0]) == n)
    ensures AllInBody(SweptBody(body, n), n)
  {
    hide SweptBody, AlreadyPatched, Refs, Join, IsBlank, IndentOf, WellSplit;
    if AlreadyPatched(Join(body)) || Refs(Join(body)) == [] {
      UnsweptBody(body, n);
    } else {
      SweptShape(body, n);
    }
  }

  lemma {:induction false} FileLines(lines: seq<string>)
    requires WellSplit(lines)
    ensures Rewrite(Rewrite(lines, SweptBody), CleanedBody) == lines <==> BlocksRoundTrip(lines)
    decreases |lines|
  {
    hide BodyScan, SweptBody, CleanedBody, RoundTrips, BashKey, IsLine, Terminated, Image, Rewrite;
    if lines == [] {
      RewriteEmpty(SweptBody);
      RewriteEmpty(CleanedBody);
    } else {
      var swept := Rewrite(lines, SweptBody);
      match BashKey(lines[0])
      case None =>
        FileLines(lines[1..]);
        RewritePlain(lines, SweptBody);
        RewritePlain(swept, CleanedBody);
        assert swept[0] == lines[0] && swept[1..] == Rewrite(lines[1..], SweptBody);
        CutHead(lines[0], Rewrite(swept[1..], CleanedBody), lines[1..]);
        assert lines == [lines[0]] + lines[1..];
      case Some(k) =>
        FileBlock(lines, k, CleanedBody);
        var r := BodyScan(lines[1..], k, None);
        var rest := lines[1 + r.0..];
        FileLines(rest);
        var y := Rewrite(Rewrite(rest, SweptBody), CleanedBody);
        RewriteHead(rest, SweptBody);
        RewriteHead(Rewrite(rest, SweptBody), CleanedBody);
        assert lines[1..][r.0..] == rest && lines[1..][..r.0] == lines[1..1 + r.0];
        SubWellSplit(lines, 1, |lines|);
        assert lines[1..|lines|] == lines[1..];
        OneBlock(lines[1..], k, y);
        CutHead(lines[0], Image(Image(lines[1..1 + r.0], r.1, SweptBody), r.1, CleanedBody) + y, lines[1..]);
        assert lines == [lines[0]] + lines[1..];
    }
  }

  /** What a second pass makes of one swept block and what follows it. */
  lemma FileBlock(lines: seq<string>, k: nat, f: (seq<string>, nat) -> seq<string>)
    requires WellSplit(lines) && lines != [] && BashKey(lines[0]) == Some(k)
    ensures var r := BodyScan(lines[1..], k, None);
            var rest := lines[1 + r.0..];
            Rewrite(Rewrite(lines, SweptBody), f)
            == [lines[0]] + (Image(Image(lines[1..1 + r.0], r.1, SweptBody), r.1, f)
                             + Rewrite(Rewrite(rest, SweptBody), f))
  {
    hide BodyScan, SweptBody, BashKey, IsLine, Terminated, Rewrite, Image;
    var r := BodyScan(lines[1..], k, None);
    var body, rest := lines[1..1 + r.0], lines[1 + r.0..];
    var p, out := Image(body, r.1, SweptBody), Rewrite(rest, SweptBody);
    RewriteKey(lines, k, SweptBody);
    RewriteHead(rest, SweptBody);
    SubWellSplit(lines, 1, |lines|);
    assert lines[1..|lines|] == lines[1..] && lines[1..][r.0..] == rest && lines[1..][..r.0] == body;
    SweptScan(lines[1..], k, out);
    var swept := [lines[0]] + (p + out);
    assert swept[1..] == p + out && swept[1..1 + |p|] == p && swept[1 + |p|..] == out;
    RewriteKey(swept, k, f);
  }

  // ----- From lines to text -----

  /** What the sweep's `process_file` makes of a file. */
  function SweepFile(text: string): string {
    Join(Rewrite(SplitLines(text), SweptBody))
  }

  /** What the cleanup's `process_file` makes of a file. */
  function CleanFile(text: string): string {
    Join(Rewrite(SplitLines(text), CleanedBody))
  }

  lemma RevertKeepsBreaks(s: string, m: VarMap)
    requires forall v | v in m :: forall i | 0 <= i < |m[v]| :: !IsBreak(m[v][i])
    requires forall i | 0 <= i < |s| :: !IsBreak(s[i])
    ensures forall i | 0 <= i < |RevertText(s, m)| :: !IsBreak(RevertText(s, m)[i])
    decreases |s|
  {
    hide MatchUse, IsBreak;
    if s != "" {
      RevertKeepsBreaks(s[UseTaken(s, m)..], m);
    }
  }

  lemma RevertLine(l: string, m: VarMap)
    requires IsLine(l) && "" !in m
    requires forall v | v in m :: m[v] != "" && m[v][0] == '$' && forall i | 0 <= i < |m[v]| :: !IsBreak(m[v][i])
    ensures IsLine(RevertText(l, m))
  {
    hide RevertText, IsBreak;
    RevertFirst(l, m);
    if Terminated(l) {
      var a, b := l[..|l| - 1], l[|l| - 1..];
      assert l == a + b;
      RevertAppend(a, b, m);
      RevertKeepsBreaks(a, m);
      BreakAlone(b, m);
    } else {
      RevertKeepsBreaks(l, m);
    }
  }

  lemma SegmentsPlain(s: string)
    ensures forall i | 0 <= i < SegmentsLen(s) :: !IsBreak(s[i])
  {
    if SegmentsLen(s) > 0 {
      var k := 2 + Run(IsWord, s[2..]);
      SegmentsPlain(s[k..]);
      forall i | 0 <= i < SegmentsLen(s)
        ensures !IsBreak(s[i])
      {
        if 2 <= i < k {
          assert s[i] == s[2..][i - 2];
        } else if k <= i {
          assert s[i] == s[k..][i - k];
        }
      }
    }
  }

  lemma AssignRestPlain(v: string, e: string)
    requires AssignRest(v, e).Some?
    ensures var a := AssignRest(v, e).value;
            (forall i | 0 <= i < |a.node| :: !IsBreak(a.node[i])) && (forall i | 0 <= i < |a.field| :: !IsBreak(a.field[i]))
  {
    hide SegmentsLen, IsBlank;
    var n := Run(IsIdChar, e[2..]);
    SegmentsPlain(e[2 + n..][|OUTPUT|..]);
    assert forall i | 0 <= i < n :: e[2..2 + n][i] == e[2..][i];
  }

  lemma TargetPlain(l: string)
    requires SweepAssign(l).Some?
    ensures var t := SweepAssign(l).value.Target(); forall i | 0 <= i < |t| :: !IsBreak(t[i])
  {
    hide IsSpace, AssignRest, NodeToVar, IsBreak;
    var t := l[Run(IsSpace, l)..];
    var v := Run(IsVarChar, t);
    AssignRestPlain(t[..v], t[v..]);
    OutputHasNoStop();
    DollarNoBreak();
  }

  lemma CleanKeepsLines(p: seq<string>)
    requires forall l | l in p :: IsLine(l)
    ensures forall x | x in CleanBlock(p) :: IsLine(x)
  {
    hide SweepAssign, IsHeaderLine, RevertText, VarMapOf, RevertLines, IsLine;
    var m := VarMapOf(p);
    VarMapShape(p);
    VarMapSpec(p);
    forall v | v in m
      ensures forall i | 0 <= i < |m[v]| :: !IsBreak(m[v][i])
    {
      var l :| l in p && Defines(l, v, m[v]);
      TargetPlain(l);
    }
    RevertLinesCount(p, m);
    forall x | x in CleanBlock(p)
      ensures IsLine(x)
    {
      var l :| l in p && !IsDropped(l) && x == RevertText(l, m);
      RevertLine(l, m);
    }
  }

  lemma RevertLinesWellSplit(ls: seq<string>, m: VarMap)
    requires WellSplit(ls) && "" !in m
    requires forall x | x in RevertLines(ls, m) :: IsLine(x)
    ensures WellSplit(RevertLines(ls, m))
  {
    hide IsDropped, RevertText, IsLine, Terminated;
    if ls != [] {
      var init, l := ls[..|ls| - 1], ls[|ls| - 1];
      RevertLinesTerminated(init, m);
    }
  }

  lemma RevertLinesTerminated(ls: seq<string>, m: VarMap)
    requires "" !in m && forall i | 0 <= i < |ls| :: Terminated(ls[i])
    ensures forall i | 0 <= i < |RevertLines(ls, m)| :: Terminated(RevertLines(ls, m)[i])
  {
    hide IsDropped, RevertText, Terminated;
    if ls != [] {
      RevertLinesTerminated(ls[..|ls| - 1], m);
      RevertTerminated(ls[|ls| - 1], m);
    }
  }

  lemma CleanedKeepsShape()
    ensures KeepsShape(CleanedBody)
  {
    hide CleanBlock, IsLine, Terminated;
    forall body: seq<string>, n: nat | WellSplit(body)
      ensures WellSplit(CleanedBody(body, n)) && (AllTerminated(body) ==> AllTerminated(CleanedBody(body, n)))
    {
      CleanShape(body);
    }
  }

  lemma CleanShape(body: seq<string>)
    requires WellSplit(body)
    ensures WellSplit(CleanBlock(body)) && (AllTerminated(body) ==> AllTerminated(CleanBlock(body)))
  {
    hide RevertLines, VarMapOf, IsLine, Terminated;
    CleanKeepsLines(body);
    VarMapShape(body);
    RevertLinesWellSplit(body, VarMapOf(body));
    if AllTerminated(body) {
      RevertLinesTerminated(body, VarMapOf(body));
    }
  }

  /** Cleaning a swept file gives the file back exactly when every one of its bash blocks does. */
  lemma {:induction false} FileRoundTrip(text: string)
    ensures CleanFile(SweepFile(text)) == text <==> BlocksRoundTrip(SplitLines(text))
  {
    hide Rewrite, WellSplit, SplitLines, Join, SweptBody, CleanedBody;
    var lines := SplitLines(text);
    SplitLinesShape(text);
    SweptKeepsShape();
    CleanedKeepsShape();
    RewriteShape(lines, SweptBody);
    var swept := Rewrite(lines, SweptBody);
    SplitJoin(swept);
    RewriteShape(swept, CleanedBody);
    SplitJoin(Rewrite(swept, CleanedBody));
    FileLines(lines);
  }
}
