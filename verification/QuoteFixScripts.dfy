/** The scripts themselves: loops over lines and blocks that build their results step by step, and
    splice replaced blocks into the line list from the last block to the first. */
module QuoteFixScripts {
  import opened Outcomes
  import opened PyText
  import opened QuoteFix
  import opened QuoteFixBlock
  import opened QuoteFixFile

  // ----- Finding the blocks -----

  /** The blocks are in bounds, disjoint and increasing from line `from` on. */
  predicate Ordered(bs: seq<Block>, from: nat, n: nat) {
    if bs == [] then from <= n
    else from <= bs[0].first < bs[0].last <= n && Ordered(bs[1..], bs[0].last, n)
  }

  /** The blocks found from a `bash:` key on: its own, if it has a body, and those after it. */
  lemma BlocksAtKey(lines: seq<string>, i: nat, k: nat)
    requires i < |lines| && BashKey(lines[i]) == Some(k)
    ensures var r := BodyScan(lines[i + 1..], k, None);
            var e := i + 1 + r.0;
            Blocks(lines, i) == (if r.1.Some? && r.0 > 0 then [Block(i + 1, e, r.1.value)] else []) + Blocks(lines, e)
  {
    hide BodyScan, BashKey;
  }

  lemma BlocksAtPlain(lines: seq<string>, i: nat)
    requires i < |lines| && BashKey(lines[i]).None?
    ensures Blocks(lines, i) == Blocks(lines, i + 1)
  {
    hide BodyScan, BashKey;
  }

  lemma OrderedCons(b: Block, tail: seq<Block>, from: nat, n: nat)
    requires from <= b.first < b.last <= n && Ordered(tail, b.last, n)
    ensures Ordered([b] + tail, from, n)
  {
    assert ([b] + tail)[1..] == tail;
  }

  /** The ranges `find_bash_blocks` yields are nonempty, in bounds, disjoint and increasing. */
  lemma {:induction false} BlocksOrdered(lines: seq<string>, i: nat)
    requires i <= |lines|
    ensures Ordered(Blocks(lines, i), i, |lines|)
    decreases |lines| - i
  {
    hide BashKey, BodyScan, Ordered;
    if i == |lines| {
      assert Ordered([], i, |lines|) by { OrderedNone(i, |lines|); }
    } else {
      match BashKey(lines[i])
      case None =>
        BlocksOrdered(lines, i + 1);
        OrderedEarlier(Blocks(lines, i + 1), i, i + 1, |lines|);
      case Some(k) =>
        var r := BodyScan(lines[i + 1..], k, None);
        var tail := Blocks(lines, i + 1 + r.0);
        BlocksOrdered(lines, i + 1 + r.0);
        BlocksAtKey(lines, i, k);
        if r.1.Some? && r.0 > 0 {
          OrderedCons(Block(i + 1, i + 1 + r.0, r.1.value), tail, i, |lines|);
        } else {
          OrderedEarlier(tail, i, i + 1 + r.0, |lines|);
          assert [] + tail == tail;
        }
    }
  }

  lemma OrderedNone(i: nat, n: nat)
    requires i <= n
    ensures Ordered([], i, n)
  {
  }

  lemma OrderedEarlier(bs: seq<Block>, i: nat, j: nat, n: nat)
    requires i <= j && Ordered(bs, j, n)
    ensures Ordered(bs, i, n)
  {
  }

  /** Each block ends at the end of the file, at a non-blank line indented less than its body, or,
      when it holds only blank lines, at the malformed first line. */
  lemma {:induction false} BlockEnds(lines: seq<string>, i: nat)
    requires i <= |lines|
    ensures forall b | b in Blocks(lines, i) :: b.first < b.last <= |lines| && (
              b.last == |lines|
              || !InBody(lines[b.last], b.indent)
              || (AllBlank(lines[b.first..b.last]) && !IsBlank(lines[b.last])))
    decreases |lines| - i
  {
    hide BashKey, BodyScan, IsBlank, IndentOf;
    if i < |lines| {
      match BashKey(lines[i])
      case None => BlockEnds(lines, i + 1);
      case Some(k) =>
        var r := BodyScan(lines[i + 1..], k, None);
        BlockEnds(lines, i + 1 + r.0);
        ScanFacts(lines[i + 1..], k);
        ScanStops(lines[i + 1..], k, None);
        assert lines[i + 1..][..r.0] == lines[i + 1..i + 1 + r.0];
        assert i + 1 + r.0 < |lines| ==> lines[i + 1..][r.0..][0] == lines[i + 1 + r.0];
    }
  }

  lemma ScanStops(lines: seq<string>, k: nat, bi: Option<nat>)
    ensures var r := BodyScan(lines, k, bi); r.0 < |lines| ==> !IsBlank(lines[r.0])
  {
    hide IsBlank, IndentOf;
  }

  /** The inner loop of `find_bash_blocks`, which advances `j` over one body. */
  method ScanBodyLines(lines: seq<string>, start: nat, keyIndent: nat) returns (j: nat, bodyIndent: Option<nat>)
    requires start <= |lines|
    ensures j == start + BodyScan(lines[start..], keyIndent, None).0 <= |lines|
    ensures bodyIndent == BodyScan(lines[start..], keyIndent, None).1
  {
    hide IsBlank, IndentOf;
    bodyIndent := None;
    j := start;
    while j < |lines|
      invariant start <= j <= |lines|
      invariant var r := BodyScan(lines[j..], keyIndent, bodyIndent);
                BodyScan(lines[start..], keyIndent, None) == (j - start + r.0, r.1)
    {
      assert lines[j..][1..] == lines[j + 1..];
      var ind := IndentOf(lines[j]);
      if IsBlank(lines[j]) {
        j := j + 1;
      } else if bodyIndent.None? {
        bodyIndent := Some(ind);
        if ind <= keyIndent {
          return;
        }
        j := j + 1;
      } else {
        if ind < bodyIndent.value {
          return;
        }
        j := j + 1;
      }
    }
  }

  /** `find_bash_blocks` */
  method FindBashBlocks(lines: seq<string>) returns (bs: seq<Block>)
    ensures bs == Blocks(lines, 0)
  {
    hide BashKey, BodyScan;
    bs := [];
    var i := 0;
    while i < |lines|
      invariant i <= |lines|
      invariant Blocks(lines, 0) == bs + Blocks(lines, i)
    {
      match BashKey(lines[i])
      case None =>
        i := i + 1;
      case Some(k) =>
        var j, ind := ScanBodyLines(lines, i + 1, k);
        var here := if ind.Some? && j > i + 1 then [Block(i + 1, j, ind.value)] else [];
        assert Blocks(lines, i) == here + Blocks(lines, j);
        assert bs + (here + Blocks(lines, j)) == bs + here + Blocks(lines, j);
        bs := bs + here;
        i := j;
    }
    assert bs + [] == bs;
  }

  // ----- Splicing -----

  /** `lines` from `from` on, with every block body replaced by its image. */
  function Spliced(lines: seq<string>, bs: seq<Block>, from: nat, f: (seq<string>, nat) -> seq<string>): seq<string>
    requires Ordered(bs, from, |lines|)
  {
    if bs == [] then lines[from..]
    else
      var b := bs[0];
      lines[from..b.first] + f(lines[b.first..b.last], b.indent) + Spliced(lines, bs[1..], b.last, f)
  }

  lemma Concat4<T>(a: seq<T>, b: seq<T>, c: seq<T>, d: seq<T>)
    ensures (a + b) + c + d == a + (b + c + d)
  {
  }

  lemma {:induction false} SplicedEarlier(lines: seq<string>, bs: seq<Block>, i: nat, j: nat, f: (seq<string>, nat) -> seq<string>)
    requires i <= j && Ordered(bs, j, |lines|)
    ensures Ordered(bs, i, |lines|) && Spliced(lines, bs, i, f) == lines[i..j] + Spliced(lines, bs, j, f)
  {
    OrderedEarlier(bs, i, j, |lines|);
    if bs == [] {
      assert lines[i..] == lines[i..j] + lines[j..];
    } else {
      var b := bs[0];
      Concat4(lines[i..j], lines[j..b.first], f(lines[b.first..b.last], b.indent), Spliced(lines, bs[1..], b.last, f));
      assert lines[i..b.first] == lines[i..j] + lines[j..b.first];
    }
  }

  /** Replacing every found block at once is the rewrite that walks down the file. */
  lemma {:induction false} SplicedIsRewrite(lines: seq<string>, i: nat, f: (seq<string>, nat) -> seq<string>)
    requires i <= |lines|
    ensures Ordered(Blocks(lines, i), i, |lines|)
    ensures Spliced(lines, Blocks(lines, i), i, f) == Rewrite(lines[i..], f)
    decreases |lines| - i
  {
    hide BashKey, BodyScan, Rewrite, Ordered, Spliced, Image;
    BlocksOrdered(lines, i);
    var rest := lines[i..];
    if i == |lines| {
      SplicedNone(lines, f);
      RewriteEmpty(f);
    } else {
      hide Blocks;
      match BashKey(rest[0])
      case None =>
        SplicedIsRewrite(lines, i + 1, f);
        BlocksAtPlain(lines, i);
        SplicedEarlier(lines, Blocks(lines, i + 1), i, i + 1, f);
        RewritePlain(rest, f);
        assert rest[1..] == lines[i + 1..] && lines[i..i + 1] == [rest[0]];
      case Some(k) =>
        SplicedAtKey(lines, i, k, f);
        var r := BodyScan(lines[i + 1..], k, None);
        SplicedIsRewrite(lines, i + 1 + r.0, f);
        RewriteKey(rest, k, f);
        assert rest[1..] == lines[i + 1..] && rest[1..1 + r.0] == lines[i + 1..i + 1 + r.0];
        assert rest[1 + r.0..] == lines[i + 1 + r.0..];
    }
  }

  lemma SplicedNone(lines: seq<string>, f: (seq<string>, nat) -> seq<string>)
    ensures Ordered([], |lines|, |lines|) && Spliced(lines, [], |lines|, f) == []
  {
  }

  lemma {:induction false} SplicedAtKey(lines: seq<string>, i: nat, k: nat, f: (seq<string>, nat) -> seq<string>)
    requires i < |lines| && BashKey(lines[i]) == Some(k)
    requires Ordered(Blocks(lines, i), i, |lines|)
    ensures var r := BodyScan(lines[i + 1..], k, None);
            var e := i + 1 + r.0;
            && Ordered(Blocks(lines, e), e, |lines|)
            && Spliced(lines, Blocks(lines, i), i, f)
               == [lines[i]] + (Image(lines[i + 1..e], r.1, f) + Spliced(lines, Blocks(lines, e), e, f))
  {
    hide BodyScan, BashKey, Blocks;
    BlocksAtKey(lines, i, k);
    var r := BodyScan(lines[i + 1..], k, None);
    var e := i + 1 + r.0;
    var tail := Blocks(lines, e);
    BlocksOrdered(lines, e);
    if r.1.Some? && r.0 > 0 {
      var b := Block(i + 1, e, r.1.value);
      assert ([b] + tail)[1..] == tail && lines[i..i + 1] == [lines[i]];
    } else {
      assert [] + tail == tail;
      SplicedEarlier(lines, tail, i, e, f);
      assert lines[i..e] == [lines[i]] + lines[i + 1..e];
    }
  }

  lemma OrderedAt(bs: seq<Block>, from: nat, n: nat, k: nat)
    requires Ordered(bs, from, n) && k <= |bs|
    ensures Ordered(bs[k..], if k == 0 then from else bs[k - 1].last, n)
    ensures k > 0 ==> bs[k - 1].first < bs[k - 1].last <= n
  {
    if k == 0 {
      assert bs[0..] == bs;
    } else {
      assert bs[k..] == bs[1..][k - 1..];
      OrderedAt(bs[1..], bs[0].last, n, k - 1);
      assert k > 1 ==> bs[1..][k - 2] == bs[k - 1];
    }
  }

  /** The file when the blocks from `k` on have been replaced. */
  function Partly(lines: seq<string>, bs: seq<Block>, k: nat, f: (seq<string>, nat) -> seq<string>): seq<string>
    requires Ordered(bs, 0, |lines|) && k <= |bs|
  {
    OrderedAt(bs, 0, |lines|, k);
    var from := if k == 0 then 0 else bs[k - 1].last;
    lines[..from] + Spliced(lines, bs[k..], from, f)
  }

  /** Replacing one more block, the one before those already replaced: as both scripts go from the
      last block to the first, the line indices of the remaining blocks stay right. */
  lemma {:induction false} SpliceStep(lines: seq<string>, bs: seq<Block>, k: nat, f: (seq<string>, nat) -> seq<string>)
    requires Ordered(bs, 0, |lines|) && 0 < k <= |bs|
    ensures var cur, b := Partly(lines, bs, k, f), bs[k - 1];
            && b.first < b.last <= |cur| && b.last <= |lines| && cur[b.first..b.last] == lines[b.first..b.last]
            && cur[..b.first] + f(lines[b.first..b.last], b.indent) + cur[b.last..] == Partly(lines, bs, k - 1, f)
  {
    OrderedAt(bs, 0, |lines|, k);
    OrderedAt(bs, 0, |lines|, k - 1);
    var cur, b := Partly(lines, bs, k, f), bs[k - 1];
    var from := if k == 1 then 0 else bs[k - 2].last;
    assert bs[k - 1..][0] == b && bs[k - 1..][1..] == bs[k..];
    assert cur[..b.first] == lines[..b.first] && cur[b.last..] == Spliced(lines, bs[k..], b.last, f);
    assert lines[..b.first] == lines[..from] + lines[from..b.first];
  }

  lemma SpliceEnds(lines: seq<string>, f: (seq<string>, nat) -> seq<string>)
    ensures var bs := Blocks(lines, 0);
            Ordered(bs, 0, |lines|) && Partly(lines, bs, |bs|, f) == lines && Partly(lines, bs, 0, f) == Rewrite(lines, f)
  {
    hide Rewrite, Blocks;
    var bs := Blocks(lines, 0);
    SplicedIsRewrite(lines, 0, f);
    OrderedAt(bs, 0, |lines|, |bs|);
    var from := if bs == [] then 0 else bs[|bs| - 1].last;
    assert bs[|bs|..] == [] && lines[..from] + lines[from..] == lines;
    assert bs[0..] == bs && lines[0..] == lines && lines[..0] == [];
  }

  // ----- The sweep -----

  lemma DistinctStep<T(!new)>(s: seq<T>, i: nat)
    requires i < |s|
    ensures Distinct(s[..i + 1]) == if s[i] in Distinct(s[..i]) then Distinct(s[..i]) else Distinct(s[..i]) + [s[i]]
  {
    assert s[..i + 1][..i] == s[..i];
  }

  /** `transform_bash_block`: `seen` keeps the distinct references in order of first appearance, and
      the assignment lines are deduplicated again because two fields may give one name. */
  method TransformBashBlock(body: string, indent: string) returns (newBody: string, refCount: nat)
    ensures newBody == SweepBody(body, indent) && refCount == |Refs(body)|
  {
    hide Refs, Subst, AssignText, IsSetLine, SplitLines, Join;
    var refs := Refs(body);
    if refs == [] {
      return body, 0;
    }
    var seen := [];
    var i := 0;
    assert refs[..0] == [];
    while i < |refs|
      invariant i <= |refs| && seen == Distinct(refs[..i])
    {
      DistinctStep(refs, i);
      if refs[i] !in seen {
        seen := seen + [refs[i]];
      }
      i := i + 1;
    }
    assert refs[..|refs|] == refs;
    var assignments := AssignTexts(seen);
    var dedup := [];
    i := 0;
    assert assignments[..0] == [];
    while i < |assignments|
      invariant i <= |assignments| && dedup == Distinct(assignments[..i])
    {
      DistinctStep(assignments, i);
      if assignments[i] !in dedup {
        dedup := dedup + [assignments[i]];
      }
      i := i + 1;
    }
    assert assignments[..|assignments|] == assignments;
    var header := Join(Indented(indent, COMMENT_LINES + dedup));
    var bodyLines := SplitLines(Subst(body));
    var insertAt := 0;
    if bodyLines != [] && IsSetLine(bodyLines[0]) {
      insertAt := 1;
    }
    newBody := Join(bodyLines[..insertAt]) + header + Join(bodyLines[insertAt..]);
    refCount := |refs|;
  }

  /** What the sweep puts in place of a block's lines: nothing new, or one multi-line string. */
  function SweepImage(body: seq<string>, n: nat): seq<string> {
    if AlreadyPatched(Join(body)) || Refs(Join(body)) == [] then body else [SweepBody(Join(body), Spaces(n))]
  }

  lemma JoinRewrite(lines: seq<string>, f: (seq<string>, nat) -> seq<string>, g: (seq<string>, nat) -> seq<string>)
    requires forall body, n :: Join(f(body, n)) == Join(g(body, n))
    ensures Join(Rewrite(lines, f)) == Join(Rewrite(lines, g))
    decreases |lines|
  {
    hide BashKey, BodyScan, Rewrite, Join;
    if lines == [] {
      RewriteEmpty(f);
      RewriteEmpty(g);
    } else {
      match BashKey(lines[0])
      case None =>
        JoinRewrite(lines[1..], f, g);
        RewritePlain(lines, f);
        RewritePlain(lines, g);
        JoinAppend([lines[0]], Rewrite(lines[1..], f));
        JoinAppend([lines[0]], Rewrite(lines[1..], g));
      case Some(k) =>
        var r := BodyScan(lines[1..], k, None);
        var body, rest := lines[1..1 + r.0], lines[1 + r.0..];
        JoinRewrite(rest, f, g);
        RewriteKey(lines, k, f);
        RewriteKey(lines, k, g);
        JoinThree(lines[0], Image(body, r.1, f), Rewrite(rest, f));
        JoinThree(lines[0], Image(body, r.1, g), Rewrite(rest, g));
    }
  }

  lemma JoinThree(l: string, a: seq<string>, b: seq<string>)
    ensures Join([l] + (a + b)) == Join([l]) + (Join(a) + Join(b))
  {
    JoinAppend([l], a + b);
    JoinAppend(a, b);
  }

  lemma SweepImageText(body: seq<string>, n: nat)
    ensures Join(SweepImage(body, n)) == Join(SweptBody(body, n))
  {
    hide SplitLines, Refs, AlreadyPatched, Subst;
    SplitLinesShape(SweepBlock(Join(body), Spaces(n)));
    JoinOne(SweepBody(Join(body), Spaces(n)));
  }

  /** The sweep's `process_file` */
  method SweepProcessFile(text: string) returns (newText: string)
    ensures newText == SweepFile(text)
  {
    hide SplitLines, Join, Rewrite, Refs, SweepBody, AlreadyPatched, Blocks, Partly, Ordered;
    var lines := SplitLines(text);
    var bs := FindBashBlocks(lines);
    SpliceEnds(lines, SweepImage);
    var cur := lines;
    var k: nat := |bs|;
    while k > 0
      invariant k <= |bs| && cur == Partly(lines, bs, k, SweepImage)
    {
      SpliceStep(lines, bs, k, SweepImage);
      k := k - 1;
      var b := bs[k];
      var body := Join(lines[b.first..b.last]);
      assert cur == cur[..b.first] + cur[b.first..b.last] + cur[b.last..];
      if !AlreadyPatched(body) {
        var newBody, refCount := TransformBashBlock(body, Spaces(b.indent));
        if refCount > 0 {
          cur := cur[..b.first] + [newBody] + cur[b.last..];
        }
      }
    }
    forall body, n ensures Join(SweepImage(body, n)) == Join(SweptBody(body, n)) {
      SweepImageText(body, n);
    }
    JoinRewrite(lines, SweepImage, SweptBody);
    newText := Join(cur);
  }

  // ----- The cleanup -----

  function HeaderCount(ls: seq<string>): nat {
    if ls == [] then 0 else HeaderCount(ls[..|ls| - 1]) + if IsHeaderLine(ls[|ls| - 1]) then 1 else 0
  }

  function AssignCount(ls: seq<string>): nat {
    if ls == [] then 0 else AssignCount(ls[..|ls| - 1]) + if SweepAssign(ls[|ls| - 1]).Some? then 1 else 0
  }

  /** How many uses `repl` is called for in a text. */
  function UseCount(s: string, m: VarMap): nat {
    if s == "" then 0 else (if MatchUse(s, m.Keys).Some? then 1 else 0) + UseCount(s[UseTaken(s, m)..], m)
  }

  /** And in all lines that stay. */
  function UsesIn(ls: seq<string>, m: VarMap): nat {
    if ls == [] then 0
    else UsesIn(ls[..|ls| - 1], m) + if IsDropped(ls[|ls| - 1]) then 0 else UseCount(ls[|ls| - 1], m)
  }

  lemma {:induction false} NoUses(s: string)
    ensures UseCount(s, map[]) == 0
  {
    if s != "" {
      NoUses(s[UseTaken(s, map[])..]);
    }
  }

  lemma {:induction false} NoUsesIn(ls: seq<string>)
    ensures UsesIn(ls, map[]) == 0
  {
    hide UseCount, IsDropped;
    if ls != [] {
      NoUsesIn(ls[..|ls| - 1]);
      NoUses(ls[|ls| - 1]);
    }
  }

  lemma NothingCounted(ls: seq<string>)
    ensures HeaderCount(ls) == 0 <==> forall l | l in ls :: !IsHeaderLine(l)
    ensures AssignCount(ls) == 0 <==> forall l | l in ls :: SweepAssign(l).None?
    ensures AssignCount(ls) == 0 <==> VarMapOf(ls) == map[]
  {
    hide IsHeaderLine, SweepAssign;
    if ls != [] {
      var l := ls[|ls| - 1];
      NothingCounted(ls[..|ls| - 1]);
      assert forall x :: x in ls <==> x in ls[..|ls| - 1] || x == l;
      assert SweepAssign(l).Some? ==> SweepAssign(l).value.variable in VarMapOf(ls);
    }
  }

  /** `revert_block`: pass 1 collects the variables and the indices to drop, pass 2 keeps the other
      lines, with the uses put back when there is a variable at all. */
  method RevertBlock(blockLines: seq<string>)
    returns (kept: seq<string>, headersDropped: nat, assignsDropped: nat, varSubs: nat)
    ensures kept == CleanBlock(blockLines)
    ensures headersDropped == HeaderCount(blockLines) && assignsDropped == AssignCount(blockLines)
    ensures varSubs == UsesIn(blockLines, VarMapOf(blockLines))
  {
    hide IsHeaderLine, SweepAssign, RevertText, UseCount;
    headersDropped, assignsDropped, varSubs := 0, 0, 0;
    var varMap: VarMap := map[];
    var dropIdx: set<nat> := {};
    var idx := 0;
    assert blockLines[..0] == [];
    while idx < |blockLines|
      invariant idx <= |blockLines|
      invariant varMap == VarMapOf(blockLines[..idx])
      invariant headersDropped == HeaderCount(blockLines[..idx]) && assignsDropped == AssignCount(blockLines[..idx])
      invariant forall i | 0 <= i < |blockLines| :: i in dropIdx <==> i < idx && IsDropped(blockLines[i])
    {
      var line := blockLines[idx];
      assert blockLines[..idx + 1][..idx] == blockLines[..idx];
      if IsHeaderLine(line) {
        dropIdx := dropIdx + {idx};
        headersDropped := headersDropped + 1;
      }
      match SweepAssign(line) {
        case Some(a) =>
          varMap := varMap[a.variable := a.Target()];
          dropIdx := dropIdx + {idx};
          assignsDropped := assignsDropped + 1;
        case None =>
      }
      idx := idx + 1;
    }
    assert blockLines[..|blockLines|] == blockLines;
    NothingCounted(blockLines);
    if varMap == map[] && headersDropped == 0 {
      CleanUnswept(blockLines);
      NoUsesIn(blockLines);
      return blockLines, 0, 0, 0;
    }
    kept := [];
    idx := 0;
    while idx < |blockLines|
      invariant idx <= |blockLines| && kept == RevertLines(blockLines[..idx], varMap)
      invariant varSubs == UsesIn(blockLines[..idx], varMap)
    {
      assert blockLines[..idx + 1][..idx] == blockLines[..idx];
      if idx !in dropIdx {
        if varMap != map[] {
          kept := kept + [RevertText(blockLines[idx], varMap)];
          varSubs := varSubs + UseCount(blockLines[idx], varMap);
        } else {
          RevertNothing(blockLines[idx]);
          NoUses(blockLines[idx]);
          kept := kept + [blockLines[idx]];
        }
      }
      idx := idx + 1;
    }
  }

  /** The cleanup's `process_file`. */
  method CleanProcessFile(text: string) returns (newText: string)
    ensures newText == CleanFile(text)
  {
    hide SplitLines, Join, Rewrite, Blocks, Partly, Ordered, CleanBlock;
    var lines := SplitLines(text);
    var bs := FindBashBlocks(lines);
    SpliceEnds(lines, CleanedBody);
    var cur := lines;
    var k: nat := |bs|;
    while k > 0
      invariant k <= |bs| && cur == Partly(lines, bs, k, CleanedBody)
    {
      SpliceStep(lines, bs, k, CleanedBody);
      k := k - 1;
      var b := bs[k];
      assert cur == cur[..b.first] + cur[b.first..b.last] + cur[b.last..];
      var blockLines := cur[b.first..b.last];
      var newBlock, headers, assigns, subs := RevertBlock(blockLines);
      if headers != 0 || assigns != 0 || subs != 0 {
        cur := cur[..b.first] + newBlock + cur[b.last..];
      } else {
        NothingCounted(blockLines);
        CleanUnswept(blockLines);
      }
    }
    newText := Join(cur);
  }

  // ----- The scripts together -----

  /** The blocks of the file are those `find_bash_blocks` yields. */
  lemma {:induction false} BlocksRoundTripEach(lines: seq<string>, i: nat)
    requires i <= |lines|
    ensures BlocksRoundTrip(lines[i..]) <==> forall b | b in Blocks(lines, i) :: BlockRoundTrips(lines, b)
    decreases |lines| - i
  {
    hide BashKey, BodyScan, RoundTrips, BlocksRoundTrip, Blocks;
    if i == |lines| {
      NoBlocks(lines);
    } else {
      var rest := lines[i..];
      assert rest[1..] == lines[i + 1..];
      match BashKey(lines[i])
      case None =>
        BlocksRoundTripEach(lines, i + 1);
        BlocksAtPlain(lines, i);
        RoundTripAtPlain(rest);
      case Some(k) =>
        var r := BodyScan(lines[i + 1..], k, None);
        BlocksRoundTripEach(lines, i + 1 + r.0);
        BlocksAtKey(lines, i, k);
        RoundTripAtKey(rest, k);
        assert rest[1..1 + r.0] == lines[i + 1..i + 1 + r.0] && rest[1 + r.0..] == lines[i + 1 + r.0..];
        if r.1.Some? && r.0 > 0 {
          var b, tail := Block(i + 1, i + 1 + r.0, r.1.value), Blocks(lines, i + 1 + r.0);
          assert forall x :: x in Blocks(lines, i) <==> x == b || x in tail;
          assert BlockRoundTrips(lines, b) <==> RoundTrips(rest[1..1 + r.0]);
        } else {
          assert [] + Blocks(lines, i + 1 + r.0) == Blocks(lines, i + 1 + r.0);
        }
    }
  }

  lemma NoBlocks(lines: seq<string>)
    ensures BlocksRoundTrip(lines[|lines|..]) && Blocks(lines, |lines|) == []
  {
  }

  lemma RoundTripAtPlain(lines: seq<string>)
    requires lines != [] && BashKey(lines[0]).None?
    ensures BlocksRoundTrip(lines) <==> BlocksRoundTrip(lines[1..])
  {
    hide BashKey, BodyScan, RoundTrips;
  }

  lemma {:induction false} RoundTripAtKey(lines: seq<string>, k: nat)
    requires lines != [] && BashKey(lines[0]) == Some(k)
    ensures var r := BodyScan(lines[1..], k, None);
            BlocksRoundTrip(lines)
            <==> (r.1.Some? && r.0 > 0 ==> RoundTrips(lines[1..1 + r.0])) && BlocksRoundTrip(lines[1 + r.0..])
  {
    hide BashKey, BodyScan, RoundTrips;
  }

  predicate BlockRoundTrips(lines: seq<string>, b: Block) {
    b.first <= b.last <= |lines| && RoundTrips(lines[b.first..b.last])
  }

  /** Running the cleanup on what the sweep wrote restores the file exactly when every block found
      in the original file satisfies `RoundTrips`, a condition on the original text alone. */
  method SweepThenClean(text: string) returns (restored: string)
    ensures restored == text
            <==> var lines := SplitLines(text);
                 forall b | b in Blocks(lines, 0) :: BlockRoundTrips(lines, b)
  {
    hide SplitLines, BlockRoundTrips, BlocksRoundTrip, Blocks;
    var swept := SweepProcessFile(text);
    restored := CleanProcessFile(swept);
    FileRoundTrip(text);
    BlocksRoundTripEach(SplitLines(text), 0);
    assert SplitLines(text)[0..] == SplitLines(text);
  }
}
