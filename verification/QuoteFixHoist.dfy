/** What the sweep writes into a block, read back without its own functions: the block's text with every
    reference replaced by a variable, and a header that assigns each such variable its node's output. */
module QuoteFixHoist {
  import opened Outcomes
  import Lexical
  import opened PyText
  import opened QuoteFix
  import opened QuoteFixLine
  import opened QuoteFixBlock
  import opened QuoteFixTwice
  import opened QuoteFixPatterns

  // ----- The text -----

  /** Text without references stays as it is. */
  lemma {:induction false} SubstPlain(s: string)
    requires forall i | 0 <= i < |s| :: MatchRef(s[i..]).None?
    ensures Subst(s) == s
  {
    hide MatchRef;
    if s != "" {
      assert s[0..] == s && s == [s[0]] + s[1..];
      forall i | 0 <= i < |s[1..]| ensures MatchRef(s[1..][i..]).None? {
        Later(s, 1, i);
      }
      SubstPlain(s[1..]);
    }
  }

  /** The first reference of a text is replaced by its variable; what precedes it stays, and what follows
      is treated in the same way. */
  lemma {:induction false} SubstFirstRef(a: string, s: string, r: Ref)
    requires MatchRef(s) == Some(r) && forall i | 0 <= i < |a| :: MatchRef((a + s)[i..]).None?
    ensures r.Text() <= s && Subst(a + s) == a + ("$" + NodeToVar(r.node, r.field) + Subst(s[|r.Text()|..]))
  {
    hide MatchRef, NodeToVar, Subst;
    SubstHere(s, r);
    if a == "" {
      assert a + s == s;
    } else {
      assert (a + s)[0..] == a + s && (a + s)[1..] == a[1..] + s;
      forall i | 0 <= i < |a[1..]| ensures MatchRef((a[1..] + s)[i..]).None? {
        Later(a + s, 1, i);
      }
      SubstFirstRef(a[1..], s, r);
      SubstChar(a + s);
      Cons(a, Subst(s));
    }
  }

  lemma SubstHere(s: string, r: Ref)
    requires MatchRef(s) == Some(r)
    ensures r.Text() <= s && Subst(s) == "$" + NodeToVar(r.node, r.field) + Subst(s[|r.Text()|..])
  {
    hide MatchRef, NodeToVar;
    assert s != "" by { MatchIsRefAt(s); }
  }

  lemma SubstChar(s: string)
    requires s != "" && MatchRef(s).None?
    ensures Subst(s) == [s[0]] + Subst(s[1..])
  {
    hide MatchRef;
  }

  lemma Cons(a: string, x: string)
    requires a != ""
    ensures a + x == [a[0]] + (a[1..] + x)
  {
  }

  // ----- A reader of assignments -----

  /** Where the first `=` stands, or the length. */
  function FirstEquals(t: string): (n: nat)
    ensures n <= |t|
  {
    if t == "" || t[0] == '=' then 0 else 1 + FirstEquals(t[1..])
  }

  /** An indented line, taken apart at its first `=`: the name and the value. */
  function ReadAssignment(l: string, indent: nat): Option<(string, string)> {
    if |l| < indent || exists i :: 0 <= i < indent && l[i] != ' ' then None
    else
      var t := l[indent..];
      var e := FirstEquals(t);
      if e < |t| then Some((t[..e], t[e + 1..])) else None
  }

  /** The line assigns the variable that the substitution puts for the reference, and its value has one
      reference, the node's bare output. */
  ghost predicate Hoists(l: string, indent: nat, r: Ref) {
    var a := ReadAssignment(l, indent);
    && a.Some?
    && "$" + a.value.0 == Subst(r.Text())
    && a.value.1 == "$" + r.node + ".output" + "\n" && Refs(a.value.1) == [Ref(r.node, "")]
  }

  lemma FirstEqualsAt(v: string, x: string)
    requires forall i | 0 <= i < |v| :: v[i] != '='
    ensures FirstEquals(v + "=" + x) == |v| && (v + "=" + x)[..|v|] == v && (v + "=" + x)[|v| + 1..] == x
  {
    if v != "" {
      assert (v + "=" + x)[1..] == v[1..] + "=" + x;
      FirstEqualsAt(v[1..], x);
    }
  }

  lemma SubstOwnText(body: string, r: Ref)
    requires r in Refs(body)
    ensures IsNodeId(r.node) && IsFieldPath(r.field) && Subst(r.Text()) == "$" + NodeToVar(r.node, r.field)
  {
    hide MatchRef, NodeToVar, IsNodeId, IsFieldPath, Subst;
    RefsAre(body, r);
    var i :| 0 <= i < |body| && MatchRef(body[i..]) == Some(r);
    MatchIsRefAt(body[i..]);
    var t := r.Text();
    RefAtOwn(t, r);
    assert "" + t == t && t[|t|..] == "";
    SubstFirstRef("", t, r);
    SubstEmpty();
    assert "" + ("$" + NodeToVar(r.node, r.field) + "") == "$" + NodeToVar(r.node, r.field);
  }

  lemma RefAtOwn(t: string, r: Ref)
    requires t == r.Text() && IsNodeId(r.node) && IsFieldPath(r.field)
    ensures MatchRef(t) == Some(r)
  {
    hide IsNodeId, IsFieldPath, MatchRef;
    assert t == "$" + r.node + ".output" + r.field;
    assert RefAt(t, r.node, r.field);
    forall g | RefAt(t, r.node, g) ensures |g| <= |r.field| {
      assert |"$" + r.node + ".output" + g| <= |t|;
    }
    MatchRefIff(t, r.node, r.field);
  }

  lemma BareValue(n: string)
    requires IsNodeId(n)
    ensures Refs("$" + n + ".output" + "\n") == [Ref(n, "")]
  {
    hide IsNodeId, MatchRef;
    var t := "$" + n + ".output" + "\n";
    var r := Ref(n, "");
    assert t[..|t| - 1] == "$" + n + ".output" + "";
    assert RefAt(t, n, "");
    forall g | RefAt(t, n, g) ensures |g| <= 0 {
      assert |"$" + n + ".output" + g| <= |t|;
      ShortField(g);
    }
    MatchRefIff(t, n, "");
    assert t[|r.Text()|..] == "\n";
    NewlineHasNoRefs();
    assert FoundHere(t) == [r] && Refs(t) == [r] + Refs("\n");
  }

  lemma ShortField(g: string)
    ensures IsFieldPath(g) && |g| <= 1 ==> g == ""
  {
  }

  lemma NewlineHasNoRefs()
    ensures Refs("\n") == []
  {
    var t := "\n";
    assert t[1..] == "";
  }

  lemma AssignLineHoists(body: string, n: nat, r: Ref)
    requires r in Refs(body)
    ensures Hoists(AssignLine(n, r), n, r)
  {
    hide NodeToVar, IsNodeId, IsFieldPath, Refs, Subst;
    SubstOwnText(body, r);
    RefsWellFormed(body);
    VarShape(r.node, r.field);
    BareValue(r.node);
    var v, x := NodeToVar(r.node, r.field), "$" + r.node + ".output" + "\n";
    var l := AssignLine(n, r);
    assert forall i | 0 <= i < |v| :: IsVarChar(v[i]);
    FirstEqualsAt(v, x);
    LineParts(n, v, r.node);
    assert l == Spaces(n) + (v + "=" + x) && l[n..] == v + "=" + x;
  }

  lemma LineParts(n: nat, v: string, node: string)
    ensures Spaces(n) + (v + "=$" + node + OUTPUT) + "\n" == Spaces(n) + (v + "=" + ("$" + node + ".output" + "\n"))
  {
  }

  /** Every reference of a block that is swept, with a field or without, has a line of its own in the swept
      block that assigns it. */
  lemma {:induction false} EveryRefIsAssigned(body: string, n: nat, r: Ref)
    requires !AlreadyPatched(body) && r in Refs(body)
    ensures exists l :: l in SplitLines(SweepBlock(body, Spaces(n))) && Hoists(l, n, r)
  {
    hide Refs, Subst, SplitLines, Join, Hoists, AssignLine, SweepBody, Spaces, Header, AlreadyPatched, IsSetLine;
    var ls := SplitLines(body);
    SplitLinesShape(body);
    AssignLineHoists(body, n, r);
    var l := AssignLine(n, r);
    HeaderLines(n, Refs(body));
    if Glued(ls) {
      GluedLines(ls, n);
      var h := Header(n, Refs(body));
      RefsWellFormed(body);
      FirstIsComment(n, Refs(body), r);
      assert l in h[1..];
    } else {
      SweptLines(ls, n);
      assert l in Patched(ls, n);
    }
  }

  lemma FirstIsComment(n: nat, rs: seq<Ref>, r: Ref)
    requires IsNode(r.node) && IsField(r.field)
    ensures |Header(n, rs)| >= 3 && Header(n, rs)[0] != AssignLine(n, r)
  {
    hide Spaces, IsNode, IsField, NodeToVar;
    HeaderLines(n, rs);
    var a, v := COMMENT_LINES[0], NodeToVar(r.node, r.field);
    VarShape(r.node, r.field);
    assert Header(n, rs)[0] == Spaces(n) + a + "\n" && a[0] == '#';
    assert (Spaces(n) + a + "\n")[n] == a[0];
    assert AssignLine(n, r)[n] == AssignText(r)[0] == v[0];
  }

  // ----- The header -----

  function Snoc<T(==)>(d: seq<T>, x: T): seq<T> {
    if x in d then d else d + [x]
  }

  lemma DistinctSnoc<T(!new)>(s: seq<T>, x: T)
    ensures Distinct(s + [x]) == Snoc(Distinct(s), x)
  {
    assert (s + [x])[..|s|] == s;
  }

  lemma {:induction false} DistinctTexts(rs: seq<Ref>)
    ensures Distinct(AssignTexts(Distinct(rs))) == Distinct(AssignTexts(rs))
  {
    hide AssignText, Distinct;
    if rs != [] {
      var init, x := rs[..|rs| - 1], rs[|rs| - 1];
      var d := Distinct(init);
      DistinctTexts(init);
      assert rs == init + [x];
      DistinctSnoc(init, x);
      assert AssignTexts(rs) == AssignTexts(init) + [AssignText(x)];
      DistinctSnoc(AssignTexts(init), AssignText(x));
      if x in d {
        var i :| 0 <= i < |init| && init[i] == x;
        assert AssignTexts(init)[i] == AssignText(x);
        assert AssignText(x) in Distinct(AssignTexts(init));
      } else {
        assert AssignTexts(d + [x]) == AssignTexts(d) + [AssignText(x)];
        DistinctSnoc(AssignTexts(d), AssignText(x));
      }
    } else {
      assert Distinct<Ref>([]) == [] by { NothingDistinct(); }
    }
  }

  lemma NothingDistinct()
    ensures Distinct<Ref>([]) == []
  {
  }

  /** Elements are in the order of their first appearance. */
  ghost predicate Earlier<T(!new)>(s: seq<T>, x: T, y: T) {
    exists p :: 0 <= p < |s| && s[p] == x && y !in s[..p + 1]
  }

  lemma {:induction false} DistinctOrder<T(!new)>(s: seq<T>, i: nat, j: nat)
    requires i < j < |Distinct(s)|
    ensures Earlier(s, Distinct(s)[i], Distinct(s)[j])
  {
    var init, z := s[..|s| - 1], s[|s| - 1];
    var d := Distinct(init);
    var x, y := Distinct(s)[i], Distinct(s)[j];
    assert s == init + [z];
    if j < |d| {
      DistinctOrder(init, i, j);
      var p :| 0 <= p < |init| && init[p] == x && y !in init[..p + 1];
      assert s[p] == x && s[..p + 1] == init[..p + 1];
    } else {
      assert x in init && y !in init;
      var p :| 0 <= p < |init| && init[p] == x;
      assert s[p] == x && s[..p + 1] == init[..p + 1];
    }
  }

  /** Three comment lines; then assignments, one for each variable with no line twice, every reference
      hoisted by one, in the order in which the references first appear. */
  ghost predicate IsHeader(h: seq<string>, rs: seq<Ref>, n: nat) {
    && |h| >= 3
    && h[0] == Spaces(n) + ("# " + "2026-05-16 quote-fix:" + (" substituteNodeOutputRefs" + "(escapedForBash=true) wraps")) + "\n"
    && h[1] == Spaces(n) + ("# " + ("output in single quotes. " + "Wrapping in additional " + "double quotes") + " mis-tokenizes") + "\n"
    && h[2] == Spaces(n) + ("# " + ("multi-line content. " + "Engine fix: " + "WO-HARNESS-NODE-" + "OUTPUT-BASH-QUOTING-01") + ".") + "\n"
    && (forall i | 3 <= i < |h| :: HoistsSome(h[i], rs, n))
    && (forall i, j | 3 <= i < j < |h| :: FirstUsed(h[i], h[j], rs, n))
    && (forall r | r in rs :: exists i :: 3 <= i < |h| && Hoists(h[i], n, r))
  }

  ghost predicate HoistsSome(l: string, rs: seq<Ref>, n: nat) {
    exists r :: r in rs && Hoists(l, n, r)
  }

  /** Some reference that `a` hoists comes before every reference that `b` does. */
  ghost predicate FirstUsed(a: string, b: string, rs: seq<Ref>, n: nat) {
    exists p :: 0 <= p < |rs| && Hoists(a, n, rs[p]) && forall q | 0 <= q <= p :: !Hoists(b, n, rs[q])
  }

  /** A line that hoists a reference is determined by it. */
  lemma OneLineHoists(body: string, l: string, n: nat, r: Ref)
    requires r in Refs(body) && Hoists(l, n, r)
    ensures l == AssignLine(n, r)
  {
    hide NodeToVar, IsNodeId, IsFieldPath, Refs, Subst;
    SubstOwnText(body, r);
    var a := ReadAssignment(l, n).value;
    var v := NodeToVar(r.node, r.field);
    var d: string := "$";
    assert a.0 == (d + a.0)[1..] == (d + v)[1..] == v;
    var t := l[n..];
    FirstEqualsIs(t);
    assert t == t[..FirstEquals(t)] + "=" + t[FirstEquals(t) + 1..];
    assert l[..n] == Spaces(n);
    assert l == l[..n] + t;
    LineParts(n, v, r.node);
  }

  lemma FirstEqualsIs(t: string)
    ensures FirstEquals(t) < |t| ==> t[FirstEquals(t)] == '='
  {
  }

  lemma HeaderIs(body: string, n: nat)
    ensures IsHeader(Header(n, Refs(body)), Refs(body), n)
  {
    hide Refs, Hoists, AssignLine, Spaces, AssignText, Distinct, AssignTexts;
    var rs := Refs(body);
    var h := Header(n, rs);
    HeaderCut(n, rs);
    DistinctTexts(rs);
    var texts := AssignTexts(rs);
    var d := Distinct(texts);
    forall i | 3 <= i < |h| ensures HoistsSome(h[i], rs, n) {
      var p := TextOf(rs, d[i - 3]);
      AssignLineHoists(body, n, rs[p]);
      assert h[i] == AssignLine(n, rs[p]) by { LineOf(n, rs[p]); }
    }
    forall i, j | 3 <= i < j < |h| ensures FirstUsed(h[i], h[j], rs, n) {
      DistinctOrder(texts, i - 3, j - 3);
      HeaderOrder(body, n, h[i], h[j], d[i - 3], d[j - 3]);
    }
    forall r | r in rs ensures exists i :: 3 <= i < |h| && Hoists(h[i], n, r) {
      AssignLineHoists(body, n, r);
      var p :| 0 <= p < |rs| && rs[p] == r;
      TextAt(rs, p);
      assert texts[p] in d;
      var k :| 0 <= k < |d| && d[k] == texts[p];
      assert h[3 + k] == AssignLine(n, r) by { LineOf(n, r); }
    }
  }

  lemma HeaderCut(n: nat, rs: seq<Ref>)
    ensures var d, h := Distinct(AssignTexts(Distinct(rs))), Header(n, rs);
            && |h| == 3 + |d| && forall i | 3 <= i < |h| :: h[i] == Spaces(n) + d[i - 3] + "\n"
    ensures var h := Header(n, rs);
            && h[0] == Spaces(n) + ("# " + "2026-05-16 quote-fix:" + (" substituteNodeOutputRefs" + "(escapedForBash=true) wraps")) + "\n"
            && h[1] == Spaces(n) + ("# " + ("output in single quotes. " + "Wrapping in additional " + "double quotes") + " mis-tokenizes") + "\n"
            && h[2] == Spaces(n) + ("# " + ("multi-line content. " + "Engine fix: " + "WO-HARNESS-NODE-" + "OUTPUT-BASH-QUOTING-01") + ".") + "\n"
  {
    hide Spaces, Distinct, AssignTexts, AssignText;
    var ts := HeaderTexts(rs);
    assert ts[0] == COMMENT_LINES[0] && ts[1] == COMMENT_LINES[1] && ts[2] == COMMENT_LINES[2];
  }

  lemma TextOf(rs: seq<Ref>, t: string) returns (p: nat)
    requires t in Distinct(AssignTexts(rs))
    ensures p < |rs| && t == AssignText(rs[p])
  {
    hide AssignText;
    var texts := AssignTexts(rs);
    p :| 0 <= p < |texts| && texts[p] == t;
  }

  lemma TextAt(rs: seq<Ref>, p: nat)
    requires p < |rs|
    ensures |AssignTexts(rs)| == |rs| && AssignTexts(rs)[p] == AssignText(rs[p])
  {
    hide AssignText;
  }

  lemma LineOf(n: nat, r: Ref)
    ensures AssignLine(n, r) == Spaces(n) + AssignText(r) + "\n"
  {
  }

  lemma HeaderOrder(body: string, n: nat, a: string, b: string, x: string, y: string)
    requires a == Spaces(n) + x + "\n" && b == Spaces(n) + y + "\n" && Earlier(AssignTexts(Refs(body)), x, y)
    ensures FirstUsed(a, b, Refs(body), n)
  {
    hide Refs, Hoists, Spaces, AssignText, AssignLine;
    var rs := Refs(body);
    var texts := AssignTexts(rs);
    var p :| 0 <= p < |texts| && texts[p] == x && y !in texts[..p + 1];
    LineOf(n, rs[p]);
    AssignLineHoists(body, n, rs[p]);
    forall q | 0 <= q <= p ensures !Hoists(b, n, rs[q]) {
      assert texts[..p + 1][q] == texts[q];
      HoistedText(body, n, b, y, q);
    }
  }

  lemma HoistedText(body: string, n: nat, b: string, y: string, q: nat)
    requires b == Spaces(n) + y + "\n" && q < |Refs(body)|
    ensures Hoists(b, n, Refs(body)[q]) ==> AssignTexts(Refs(body))[q] == y
  {
    hide Refs, Hoists, Spaces, AssignText, AssignLine;
    var r := Refs(body)[q];
    if Hoists(b, n, r) {
      OneLineHoists(body, b, n, r);
      LineOf(n, r);
      SameText(n, y, AssignText(r));
      TextAt(Refs(body), q);
    }
  }

  lemma SameText(n: nat, x: string, y: string)
    requires Spaces(n) + x + "\n" == Spaces(n) + y + "\n"
    ensures x == y
  {
    var a, b := Spaces(n) + x + "\n", Spaces(n) + y + "\n";
    assert x == a[n..|a| - 1] && y == b[n..|b| - 1];
  }

  /** The first line of a text, if it is a `set -` line. */
  ghost predicate IsSetHead(first: string, text: string) {
    if text != "" && exists i: nat, j: nat :: SetLineAt(SplitLines(text)[0], i, j) then first == SplitLines(text)[0]
    else first == ""
  }

  /** A swept block is its substituted text with the header put in at the top, or after a first `set -` line. */
  lemma {:induction false} SweptLayout(body: string, n: nat)
    requires !AlreadyPatched(body) && Refs(body) != []
    ensures exists first, h, rest :: Laid(body, n, first, h, rest) && SweepBlock(body, Spaces(n)) == first + Join(h) + rest
  {
    hide Refs, Subst, SplitLines, Join, Spaces, HeaderTexts, AlreadyPatched, IsSetLine, SetLineAt, IsHeader;
    var text := Subst(body);
    var lines := SplitLines(text);
    SplitLinesShape(text);
    var at := InsertAt(lines);
    var h := Header(n, Refs(body));
    HeaderIs(body, n);
    JoinAppend(lines[..at], lines[at..]);
    assert lines == lines[..at] + lines[at..];
    if lines != [] {
      SetLineIff(lines[0]);
      JoinOne(lines[0]);
      assert at == 1 ==> lines[..at] == [lines[0]];
    }
    JoinOne("");
    assert text == "" ==> lines == [] by { NoLines(text); }
    assert at == 0 ==> lines[..at] == [];
    assert Laid(body, n, Join(lines[..at]), h, Join(lines[at..]));
  }

  lemma NoLines(s: string)
    ensures s == "" ==> SplitLines(s) == []
  {
  }

  ghost predicate Laid(body: string, n: nat, first: string, h: seq<string>, rest: string) {
    first + rest == Subst(body) && IsSetHead(first, Subst(body)) && IsHeader(h, Refs(body), n)
  }

  /** A block is swept exactly if a reference occurs in it and the mark of the header does not. */
  lemma {:induction false} SweptIff(body: string, n: nat)
    ensures SweepBlock(body, Spaces(n)) != body
       <==> (exists i, m, f :: 0 <= i < |body| && RefAt(body[i..], m, f)) && !exists i: nat :: MarkAt(body, i)
  {
    hide Subst, SplitLines, Join, Spaces, SweepBody, RefAt, MatchRef, Refs, AlreadyPatched, MarkAt;
    MarkIff(body);
    SomeRefIff(body);
    if !AlreadyPatched(body) && Refs(body) != [] {
      SweptIsPatched(body, Spaces(n));
    } else if !AlreadyPatched(body) {
      Unswept(body, n);
    }
  }

  lemma Unswept(body: string, n: nat)
    requires Refs(body) == []
    ensures SweepBody(body, Spaces(n)) == body
  {
  }

  predicate MarkAt(body: string, i: nat) {
    i + 20 <= |body| && body[i..i + 20] == "2026-05-16 quote-fix"
  }

  lemma MarkIff(body: string)
    ensures AlreadyPatched(body) <==> exists i: nat :: MarkAt(body, i)
  {
    assert |PATCH_MARK| == 20;
    if AlreadyPatched(body) {
      var i: nat :| i <= |body| && Lexical.OccursAt(body, PATCH_MARK, i);
      assert MarkAt(body, i);
    }
    forall i: nat | MarkAt(body, i) ensures AlreadyPatched(body) {
      assert Lexical.OccursAt(body, PATCH_MARK, i);
    }
  }

  lemma SomeRefIff(body: string)
    ensures Refs(body) != [] <==> exists i, m, f :: 0 <= i < |body| && RefAt(body[i..], m, f)
  {
    hide MatchRef, RefAt, Refs;
    if Refs(body) != [] {
      RefsAre(body, Refs(body)[0]);
      var i :| 0 <= i < |body| && MatchRef(body[i..]) == Some(Refs(body)[0]);
      MatchIsRefAt(body[i..]);
    }
    forall i, m, f | 0 <= i < |body| && RefAt(body[i..], m, f) ensures Refs(body) != [] {
      MatchRefIff(body[i..], m, f);
      RefsAre(body, MatchRef(body[i..]).value);
    }
  }
}
