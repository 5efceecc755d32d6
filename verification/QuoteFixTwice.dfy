/** Sweeping a file twice: the comment header marks the blocks that were swept, so the second sweep of
    `scripts/wo154-quote-fix-sweep.py` changes nothing. */
module QuoteFixTwice {
  import opened Outcomes
  import Lexical
  import opened PyText
  import opened QuoteFix
  import opened QuoteFixLine
  import opened QuoteFixBlock
  import opened QuoteFixFile

  lemma ContainsAround(p: string, x: string, q: string, needle: string)
    requires Lexical.Contains(x, needle)
    ensures Lexical.Contains(p + x + q, needle)
  {
    var i :| 0 <= i <= |x| && Lexical.OccursAt(x, needle, i);
    assert (p + x + q)[|p| + i..|p| + i + |needle|] == x[i..i + |needle|];
    assert Lexical.OccursAt(p + x + q, needle, |p| + i);
  }

  lemma MarkContains(tail: string)
    ensures Lexical.Contains(HEADER_MARK_1 + tail, PATCH_MARK)
  {
    assert HEADER_MARK_1[..|PATCH_MARK|] == PATCH_MARK;
    assert (HEADER_MARK_1 + tail)[..|PATCH_MARK|] == HEADER_MARK_1[..|PATCH_MARK|];
    assert Lexical.OccursAt(HEADER_MARK_1 + tail, PATCH_MARK, 0);
  }

  lemma FirstComment()
    ensures Lexical.Contains(COMMENT_LINES[0], PATCH_MARK)
  {
    hide HEADER_MARK_1, HEADER_MARK_2, HEADER_MARK_3, PATCH_MARK, Lexical.Contains;
    var tail := " substituteNodeOutputRefs" + "(escapedForBash=true) wraps";
    MarkContains(tail);
    ContainsAround("# ", HEADER_MARK_1 + tail, "", PATCH_MARK);
    assert COMMENT_LINES[0] == "# " + (HEADER_MARK_1 + tail) + "";
  }

  /** The header the sweep writes is what it later recognises. */
  lemma {:induction false} SweptIsPatched(body: string, indent: string)
    requires Refs(body) != []
    ensures AlreadyPatched(SweepBody(body, indent))
  {
    hide Lexical.Contains, SplitLines, Subst, Refs, COMMENT_LINES, PATCH_MARK, InsertAt, Distinct, Join;
    var lines, ts := SplitLines(Subst(body)), HeaderTexts(Refs(body));
    var at, ls := InsertAt(lines), Indented(indent, ts);
    FirstComment();
    CommentsFirst(Refs(body));
    ContainsAround(indent, ts[0], "\n", PATCH_MARK);
    ContainsAround("", ls[0], Join(ls[1..]), PATCH_MARK);
    assert Join(ls) == "" + ls[0] + Join(ls[1..]) by { JoinHead(ls); }
    ContainsAround(Join(lines[..at]), Join(ls), Join(lines[at..]), PATCH_MARK);
  }

  lemma CommentsFirst(rs: seq<Ref>)
    ensures HeaderTexts(rs) != [] && HeaderTexts(rs)[0] == COMMENT_LINES[0]
  {
    hide Distinct, HEADER_MARK_1, HEADER_MARK_2, HEADER_MARK_3;
  }

  lemma JoinHead(ls: seq<string>)
    requires ls != []
    ensures Join(ls) == ls[0] + Join(ls[1..])
  {
  }

  lemma {:induction false} SweptBodyTwice(body: seq<string>, n: nat)
    ensures SweptBody(SweptBody(body, n), n) == SweptBody(body, n)
  {
    hide Lexical.Contains, SweepBody, Refs, Join, SplitLines, Spaces, AlreadyPatched;
    var t := SweepBlock(Join(body), Spaces(n));
    SplitLinesShape(t);
    if !AlreadyPatched(Join(body)) && Refs(Join(body)) != [] {
      SweptIsPatched(Join(body), Spaces(n));
    } else {
      UnsweptStays(Join(body), Spaces(n));
    }
  }

  lemma UnsweptStays(body: string, indent: string)
    requires AlreadyPatched(body) || Refs(body) == []
    ensures SweepBlock(body, indent) == body
  {
    hide AlreadyPatched, Refs;
  }

  lemma {:induction false} RewriteTwice(lines: seq<string>)
    requires WellSplit(lines)
    ensures Rewrite(Rewrite(lines, SweptBody), SweptBody) == Rewrite(lines, SweptBody)
    decreases |lines|
  {
    hide BodyScan, SweptBody, BashKey, IsLine, Terminated, Image, Rewrite;
    if lines == [] {
      RewriteEmpty(SweptBody);
    } else {
      var swept := Rewrite(lines, SweptBody);
      match BashKey(lines[0])
      case None =>
        RewriteTwice(lines[1..]);
        RewritePlain(lines, SweptBody);
        RewritePlain(swept, SweptBody);
        assert swept[0] == lines[0] && swept[1..] == Rewrite(lines[1..], SweptBody);
      case Some(k) =>
        FileBlock(lines, k, SweptBody);
        var r := BodyScan(lines[1..], k, None);
        var body, rest := lines[1..1 + r.0], lines[1 + r.0..];
        RewriteTwice(rest);
        RewriteKey(lines, k, SweptBody);
        ImageTwice(body, r.1);
    }
  }

  lemma ImageTwice(body: seq<string>, indent: Option<nat>)
    ensures Image(Image(body, indent, SweptBody), indent, SweptBody) == Image(body, indent, SweptBody)
  {
    hide SweptBody;
    if indent.Some? {
      SweptBodyTwice(body, indent.value);
    }
  }

  /** The sweep is idempotent on every file. */
  lemma {:induction false} SweepTwice(text: string)
    ensures SweepFile(SweepFile(text)) == SweepFile(text)
  {
    hide Rewrite, WellSplit, SplitLines, Join, SweptBody;
    var lines := SplitLines(text);
    SplitLinesShape(text);
    SweptKeepsShape();
    RewriteShape(lines, SweptBody);
    SplitJoin(Rewrite(lines, SweptBody));
    RewriteTwice(lines);
  }
}
