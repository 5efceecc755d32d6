/** What the two scripts' regular expressions match, stated by how a text divides instead of by scanning:
    references, variable names, uses, assignments, header lines, `set -` lines and `bash:` keys; and which
    lines of a file are block bodies. */
module QuoteFixPatterns {
  import opened Outcomes
  import opened PyText
  import opened QuoteFix
  import opened QuoteFixLine
  import opened QuoteFixBlock
  import opened QuoteFixFile
  import opened QuoteFixScripts

  // ----- Characters -----

  /** White space, and the ends of lines within it. */
  lemma SpacesAre(c: char)
    ensures IsSpace(c) <==> c as int in {9, 10, 11, 12, 13, 28, 29, 30, 31, 32, 133, 160, 5760, 8192, 8193, 8194, 8195, 8196, 8197, 8198,
                                         8199, 8200, 8201, 8202, 8232, 8233, 8239, 8287, 12288}
    ensures IsBreak(c) <==> c as int in {10, 11, 12, 28, 29, 30, 133, 8232, 8233}
  {
  }

  predicate White(s: string) {
    forall i | 0 <= i < |s| :: IsSpace(s[i])
  }

  /** `[A-Z][A-Z0-9_]*` */
  predicate IsVariable(v: string) {
    v != "" && 'A' <= v[0] <= 'Z' && forall i | 0 <= i < |v| :: 'A' <= v[i] <= 'Z' || '0' <= v[i] <= '9' || v[i] == '_'
  }

  /** `[a-z][a-z0-9-]*` */
  predicate IsNodeId(n: string) {
    n != "" && 'a' <= n[0] <= 'z' && forall i | 0 <= i < |n| :: 'a' <= n[i] <= 'z' || '0' <= n[i] <= '9' || n[i] == '-'
  }

  /** `[a-zA-Z_]` */
  predicate StartsName(c: char) {
    'a' <= c <= 'z' || 'A' <= c <= 'Z' || c == '_'
  }

  /** `(\.[a-zA-Z_][\w.]*)?` */
  predicate IsFieldPath(f: string) {
    || f == ""
    || (|f| >= 2 && f[0] == '.' && StartsName(f[1])
        && forall i | 2 <= i < |f| :: StartsName(f[i]) || '0' <= f[i] <= '9' || f[i] == '.')
  }

  // ----- References -----

  /** The pattern matches at the head of `s`, the field taken as `f`. */
  predicate RefAt(s: string, n: string, f: string) {
    IsNodeId(n) && IsFieldPath(f) && "$" + n + ".output" + f <= s
  }

  lemma NodeIsRun(s: string, n: string, x: string)
    requires IsNodeId(n) && "$" + n + ".output" + x <= s
    ensures |s| > |n| + 7 && Run(IsIdChar, s[1..]) == |n| && s[1..1 + |n|] == n && ".output" <= s[1 + |n|..]
    ensures x <= s[8 + |n|..]
  {
    var p := "$" + n + ".output" + x;
    assert forall i | 0 <= i < |p| :: s[i] == p[i];
    assert s[1 + |n|] == '.';
    assert forall i | 0 <= i < |n| :: s[1..][i] == n[i];
    assert s[1..][|n|] == '.';
    RunIs(IsIdChar, s[1..], |n|);
    assert forall i | 0 <= i < 7 :: s[1 + |n| + i] == ".output"[i];
  }

  lemma FieldIsLongest(tail: string, f: string)
    requires IsFieldPath(f) && f <= tail
    ensures IsFieldPath(tail[..FieldLen(tail)]) && |f| <= FieldLen(tail)
  {
    FieldIsPath(tail);
    if f != "" {
      assert tail[0] == f[0] && tail[1] == f[1];
      assert forall i | 0 <= i < |f| - 2 :: tail[2..][i] == f[i + 2];
      RunAtLeast(IsWordDot, tail[2..], |f| - 2);
    }
  }

  lemma FieldIsPath(tail: string)
    ensures IsFieldPath(tail[..FieldLen(tail)])
  {
    var f := tail[..FieldLen(tail)];
    assert forall i | 2 <= i < |f| :: f[i] == tail[2..][i - 2];
  }

  lemma MatchIsRefAt(s: string)
    requires MatchRef(s).Some?
    ensures RefAt(s, MatchRef(s).value.node, MatchRef(s).value.field)
  {
    var r := MatchRef(s).value;
    var n := Run(IsIdChar, s[1..]);
    hide FieldLen;
    FieldIsPath(s[1 + n..][7..]);
  }

  /** A reference is matched at a place exactly if the pattern matches there, with the longest field. */
  lemma {:induction false} MatchRefIff(s: string, n: string, f: string)
    ensures MatchRef(s) == Some(Ref(n, f)) <==> RefAt(s, n, f) && forall g :: RefAt(s, n, g) ==> |g| <= |f|
    ensures MatchRef(s).None? <==> !exists n, f :: RefAt(s, n, f)
  {
    forall m, g | RefAt(s, m, g) ensures MatchRef(s).Some? && MatchRef(s).value.node == m && |g| <= |MatchRef(s).value.field| {
      RefAtMatches(s, m, g);
    }
    if MatchRef(s).Some? {
      MatchIsRefAt(s);
      var r := MatchRef(s).value;
      if RefAt(s, n, f) && |f| == |r.field| {
        NodeIsRun(s, n, f);
        NodeIsRun(s, n, r.field);
        assert f == s[8 + |n|..][..|f|] == r.field;
      }
    }
  }

  lemma RefAtMatches(s: string, n: string, f: string)
    requires RefAt(s, n, f)
    ensures MatchRef(s).Some? && MatchRef(s).value.node == n && |f| <= |MatchRef(s).value.field|
  {
    hide FieldLen, IsFieldPath;
    NodeIsRun(s, n, f);
    assert s[0] == ("$" + n + ".output" + f)[0] == '$' && s[1] == n[0];
    assert s[1 + |n|..][7..] == s[8 + |n|..];
    FieldIsLongest(s[8 + |n|..], f);
  }

  /** References never overlap, so the scan finds all of them: every place where the pattern matches. */
  lemma {:induction false} RefsAre(s: string, r: Ref)
    ensures r in Refs(s) <==> exists i :: 0 <= i < |s| && MatchRef(s[i..]) == Some(r)
    decreases |s|
  {
    hide MatchRef, Taken, Refs;
    if s == "" {
      assert r !in Refs("") by { NoneInNothing(r); }
    } else {
      var k := Taken(s);
      RefsAre(s[k..], r);
      RefsStep(s, r);
      assert s[0..] == s;
      if r in Refs(s[k..]) {
        var i :| 0 <= i < |s[k..]| && MatchRef(s[k..][i..]) == Some(r);
        Later(s, k, i);
      }
      forall i | 0 <= i < |s| && MatchRef(s[i..]) == Some(r) ensures r in Refs(s) {
        if i >= k {
          Later(s, k, i - k);
        } else if i > 0 {
          NoneInside(s, i);
        }
      }
    }
  }

  lemma RefsStep(s: string, r: Ref)
    requires s != ""
    ensures r in Refs(s) <==> MatchRef(s) == Some(r) || r in Refs(s[Taken(s)..])
  {
    hide MatchRef, Taken;
  }

  lemma NoneInNothing(r: Ref)
    ensures r !in Refs("")
  {
  }

  lemma Later(s: string, k: nat, i: nat)
    requires k + i <= |s|
    ensures s[k..][i..] == s[k + i..]
  {
  }

  lemma NoneInside(s: string, i: nat)
    requires s != "" && 0 < i < Taken(s)
    ensures MatchRef(s[i..]).None?
  {
    hide MatchRef;
    MatchIsRefAt(s);
    var r := MatchRef(s).value;
    assert s[i] == r.Text()[i];
    OneDollar(r, i);
    NoDollarNoRef(s[i..]);
  }

  lemma NoDollarNoRef(s: string)
    requires s != "" && s[0] != '$'
    ensures MatchRef(s).None?
  {
  }

  lemma OneDollar(r: Ref, i: nat)
    requires IsNodeId(r.node) && IsFieldPath(r.field) && 0 < i < |r.Text()|
    ensures r.Text()[i] != '$'
  {
    var t, n := r.Text(), |r.node|;
    var o := ".output";
    if i < 1 + n {
      assert t[i] == r.node[i - 1];
    } else if i < 8 + n {
      assert t[i] == o[i - 1 - n];
    } else {
      assert t[i] == r.field[i - 8 - n];
    }
  }

  // ----- Variable names -----

  const CAPITALS := "ABCDEFGHIJKLMNOPQRSTUVWXYZ"

  /** A letter in upper case; a hyphen or dot as an underscore. */
  predicate Names(c: char, v: char) {
    if 'a' <= c <= 'z' then v == CAPITALS[c as int - 'a' as int]
    else if c == '-' || c == '.' then v == '_'
    else v == c
  }

  lemma UpperIsCapital(c: char)
    requires 'a' <= c <= 'z'
    ensures UpperChar(c) == CAPITALS[c as int - 'a' as int]
  {
    var i := c as int - 'a' as int;
    assert UpperChar(c) as int == 65 + i;
    assert CAPITALS[i] as int == 65 + i;
  }

  /** `NODE_ID_OUTPUT_X_Y`: the node id, the word and the field, letter by letter. */
  predicate NamedFrom(v: string, n: string, f: string) {
    && |v| == |n| + 7 + |f| && v[|n|..|n| + 7] == "_OUTPUT"
    && (forall i | 0 <= i < |n| :: Names(n[i], v[i]))
    && (forall i | 0 <= i < |f| :: Names(f[i], v[|n| + 7 + i]))
  }

  lemma {:induction false} NamedAfter(n: string, f: string)
    requires IsNodeId(n) && IsFieldPath(f)
    ensures NamedFrom(NodeToVar(n, f), n, f)
  {
    hide UpperChar;
    var v := NodeToVar(n, f);
    var base, suffix := Replace(Upper(n), '-', '_'), Upper(Replace(f, '.', '_'));
    forall i | 0 <= i < |n| ensures Names(n[i], v[i]) {
      assert v[i] == base[i];
      NameChar(n[i]);
    }
    forall i | 0 <= i < |f| ensures Names(f[i], v[|n| + 7 + i]) {
      assert v[|n| + 7 + i] == suffix[i];
      NameChar(f[i]);
    }
  }

  lemma NameChar(c: char)
    ensures c != '.' ==> Names(c, if UpperChar(c) == '-' then '_' else UpperChar(c))
    ensures c != '-' ==> Names(c, UpperChar(if c == '.' then '_' else c))
  {
    if 'a' <= c <= 'z' {
      UpperIsCapital(c);
      assert UpperChar(c) != '-';
    }
  }

  // ----- Uses -----

  /** `$VAR` before no `[A-Z0-9_]`, or `${VAR}`: the name, and how much it takes. */
  predicate UseAt(s: string, v: string, n: nat) {
    || (n == |v| + 3 && "${" + v + "}" <= s)
    || (n == |v| + 1 && "$" + v <= s
        && !(|s| > n && ('A' <= s[n] <= 'Z' || '0' <= s[n] <= '9' || s[n] == '_')))
  }

  /** A use of one of the variables is matched at a place exactly if there is one. */
  lemma {:induction false} MatchUseIff(s: string, vars: set<string>, v: string, n: nat)
    requires forall x | x in vars :: IsVariable(x)
    ensures MatchUse(s, vars) == Some((v, n)) <==> v in vars && UseAt(s, v, n)
  {
    if v in vars && UseAt(s, v, n) {
      if n == |v| + 3 && "${" + v + "}" <= s {
        var p := "${" + v + "}";
        assert forall i | 0 <= i < |p| :: s[i] == p[i];
        assert forall i | 0 <= i < |v| :: s[2..][i] == v[i];
        assert s[2..][|v|] == '}';
        RunIs(IsVarChar, s[2..], |v|);
        assert s[2..][..|v|] == v;
      } else {
        var p := "$" + v;
        assert forall i | 0 <= i < |p| :: s[i] == p[i];
        assert s[1] == v[0];
        assert forall i | 0 <= i < |v| :: s[1..][i] == v[i];
        RunIs(IsVarChar, s[1..], |v|);
        assert s[1..][..|v|] == v;
      }
    }
    if MatchUse(s, vars) == Some((v, n)) {
      if s[1] == '{' {
        assert s[2..][..|v|] == v && s[2 + |v|] == s[2..][|v|] == '}';
        assert s[..n] == "${" + v + "}";
      } else {
        assert s[1..][..|v|] == v && s[..n] == "$" + v;
        assert |s| > n ==> s[n] == s[1..][|v|];
      }
    }
  }

  // ----- Lines -----

  lemma WhiteRun(s: string, i: nat)
    requires i <= |s| && White(s[..i]) && (i < |s| ==> !IsSpace(s[i]))
    ensures Run(IsSpace, s) == i
  {
    assert forall k | 0 <= k < i :: s[..i][k] == s[k];
    RunIs(IsSpace, s, i);
  }

  lemma RunIsWhite(s: string)
    ensures White(s[..Run(IsSpace, s)])
  {
  }

  predicate SetLineAt(l: string, i: nat, j: nat) {
    && i + 3 < j && j + 1 < |l| && White(l[..i]) && l[i..i + 3] == "set" && White(l[i + 3..j])
    && l[j] == '-' && 'a' <= l[j + 1] <= 'z'
  }

  lemma {:induction false} SetLineIff(l: string)
    ensures IsSetLine(l) <==> exists i: nat, j: nat :: SetLineAt(l, i, j)
  {
    hide IsSetLine, SetLineAt;
    forall i: nat, j: nat | SetLineAt(l, i, j) ensures IsSetLine(l) {
      SetLineFound(l, i, j);
    }
    if IsSetLine(l) {
      SetLineThere(l);
    }
  }

  lemma SetLineFound(l: string, i: nat, j: nat)
    requires SetLineAt(l, i, j)
    ensures IsSetLine(l)
  {
    hide IsSpace, White;
    assert l[i] == l[i..i + 3][0] == 's';
    NotWhite();
    WhiteRun(l, i);
    var t := l[i..];
    assert t[3..][..j - i - 3] == l[i + 3..j] && t[3..][j - i - 3] == '-';
    WhiteRun(t[3..], j - i - 3);
    assert t[..3] == l[i..i + 3];
  }

  lemma SetLineThere(l: string)
    requires IsSetLine(l)
    ensures exists i: nat, j: nat :: SetLineAt(l, i, j)
  {
    hide IsSpace, White;
    var i := Run(IsSpace, l);
    var t := l[i..];
    var k := Run(IsSpace, t[3..]);
    RunIsWhite(l);
    RunIsWhite(t[3..]);
    assert l[i..i + 3] == t[..3] && l[i + 3..i + 3 + k] == t[3..][..k];
    assert SetLineAt(l, i, i + 3 + k);
  }

  lemma NotWhite()
    ensures !IsSpace('s') && !IsSpace('-') && !IsSpace('#') && !IsSpace('b') && !IsSpace('|')
    ensures !IsSpace('2') && !IsSpace('o') && !IsSpace('m')
  {
  }

  predicate KeyAt(l: string, k: nat, j: nat) {
    && k + 5 <= j < |l| && White(l[..k]) && l[k..k + 5] == "bash:" && White(l[k + 5..j]) && l[j] == '|'
  }

  /** A `bash:` key, and how far it is indented. */
  lemma {:induction false} BashKeyIff(l: string, k: nat)
    ensures BashKey(l) == Some(k) <==> exists j: nat :: KeyAt(l, k, j)
  {
    hide BashKey, KeyAt;
    forall j: nat | KeyAt(l, k, j) ensures BashKey(l) == Some(k) {
      KeyFound(l, k, j);
    }
    if BashKey(l) == Some(k) {
      KeyThere(l, k);
    }
  }

  lemma KeyFound(l: string, k: nat, j: nat)
    requires KeyAt(l, k, j)
    ensures BashKey(l) == Some(k)
  {
    hide IsSpace, White;
    NotWhite();
    assert l[k] == l[k..k + 5][0] == 'b';
    WhiteRun(l, k);
    var u := l[k..][5..];
    assert l[k..][..5] == l[k..k + 5];
    Later(l, k, 5);
    assert u[..j - k - 5] == l[k + 5..j] && u[j - k - 5] == '|';
    WhiteRun(u, j - k - 5);
  }

  lemma KeyThere(l: string, k: nat)
    requires BashKey(l) == Some(k)
    ensures exists j: nat :: KeyAt(l, k, j)
  {
    hide IsSpace, White;
    var u := l[k..][5..];
    var p := Run(IsSpace, u);
    RunIsWhite(l);
    RunIsWhite(u);
    Later(l, k, 5);
    assert l[k..k + 5] == l[k..][..5] && l[k + 5..k + 5 + p] == u[..p] && l[k + 5 + p] == u[p];
    assert KeyAt(l, k, k + 5 + p);
  }

  predicate Marked(u: string) {
    || "2026-05-16 quote-fix:" <= u
    || "output in single quotes. " + "Wrapping in additional " + "double quotes" <= u
    || "multi-line content. " + "Engine fix: " + "WO-HARNESS-NODE-" + "OUTPUT-BASH-QUOTING-01" <= u
  }

  lemma MarkedIff(u: string)
    ensures HasMark(u) <==> Marked(u)
  {
  }

  predicate HeaderAt(l: string, i: nat, j: nat) {
    i < j <= |l| && White(l[..i]) && l[i] == '#' && White(l[i + 1..j]) && Marked(l[j..])
  }

  lemma {:induction false} HeaderLineIff(l: string)
    ensures IsHeaderLine(l) <==> exists i: nat, j: nat :: HeaderAt(l, i, j)
  {
    hide IsSpace, HasMark, Marked;
    NotWhite();
    forall i: nat, j: nat | HeaderAt(l, i, j) ensures IsHeaderLine(l) {
      WhiteRun(l, i);
      var t := l[i + 1..];
      assert t[..j - i - 1] == l[i + 1..j] && t[j - i - 1..] == l[j..];
      MarkStarts(l[j..]);
      assert t[j - i - 1] == l[j];
      WhiteRun(t, j - i - 1);
      MarkedIff(l[j..]);
      assert l[i..][1..] == t;
    }
    if IsHeaderLine(l) {
      var i := Run(IsSpace, l);
      var t := l[i..][1..];
      var p := Run(IsSpace, t);
      RunIsWhite(l);
      RunIsWhite(t);
      assert l[i + 1..i + 1 + p] == t[..p] && l[i + 1 + p..] == t[p..] == l[i..][1 + p..];
      MarkedIff(l[i + 1 + p..]);
      assert HeaderAt(l, i, i + 1 + p);
    }
  }

  lemma MarkStarts(u: string)
    ensures Marked(u) ==> u != "" && u[0] in {'2', 'o', 'm'}
  {
    var a, b := "output in single quotes. ", "multi-line content. ";
    var x, y := "Wrapping in additional ", "double quotes";
    var z, v, w := "Engine fix: ", "WO-HARNESS-NODE-", "OUTPUT-BASH-QUOTING-01";
    assert (a + x + y)[0] == a[0] == 'o' && (b + z + v + w)[0] == b[0] == 'm';
  }

  /** `(\.[a-zA-Z_]\w*)*`: a letter or underscore after every dot. */
  predicate IsSegments(f: string) {
    (f != "" ==> f[0] == '.') && forall i | 0 <= i < |f| :: SegmentAt(f, i)
  }

  predicate SegmentAt(f: string, i: nat)
    requires i < |f|
  {
    if f[i] == '.' then i + 1 < |f| && StartsName(f[i + 1]) else StartsName(f[i]) || '0' <= f[i] <= '9'
  }

  lemma {:induction false} SegmentsAre(s: string)
    ensures IsSegments(s[..SegmentsLen(s)])
    decreases |s|
  {
    if |s| >= 2 && s[0] == '.' && IsFieldStart(s[1]) {
      var k := 2 + Run(IsWord, s[2..]);
      SegmentsAre(s[k..]);
      var g := s[k..][..SegmentsLen(s[k..])];
      assert s[..SegmentsLen(s)] == s[..k] + g;
      assert forall i | 2 <= i < k :: s[i] == s[2..][i - 2];
      SegmentsCons(s[..k], g);
    }
  }

  lemma SegmentsCons(h: string, g: string)
    requires |h| >= 2 && h[0] == '.' && IsFieldStart(h[1]) && (forall i | 2 <= i < |h| :: IsWord(h[i])) && IsSegments(g)
    ensures IsSegments(h + g)
  {
    var f := h + g;
    forall i | 0 <= i < |f| ensures SegmentAt(f, i) {
      if i >= |h| {
        assert SegmentAt(g, i - |h|);
        assert f[i] == g[i - |h|];
        assert i + 1 < |f| ==> f[i + 1] == g[i - |h| + 1];
      } else {
        assert f[i] == h[i] && f[1] == h[1];
      }
    }
  }

  lemma SegmentsStep(s: string)
    requires |s| >= 2 && s[0] == '.' && IsFieldStart(s[1])
    ensures var k := 2 + Run(IsWord, s[2..]); SegmentsLen(s) == k + SegmentsLen(s[k..])
  {
  }

  lemma NoSegments(s: string)
    requires s != "" ==> s[0] != '.'
    ensures SegmentsLen(s) == 0
  {
  }

  lemma {:induction false} SegmentsTaken(f: string, w: string)
    requires IsSegments(f) && (w != "" ==> w[0] != '.' && !IsWord(w[0]))
    ensures SegmentsLen(f + w) == |f|
    decreases |f|
  {
    hide IsSegments, IsWord, SegmentsLen, IsFieldStart, Run;
    var s := f + w;
    if f != "" {
      SegmentsRest(f);
      var k := 2 + Run(IsWord, f[2..]);
      CutAfter(f, w, 2);
      CutAfter(f, w, k);
      RunAppend(IsWord, f[2..], w);
      SegmentsStep(s);
      SegmentsTaken(f[k..], w);
    } else {
      CutAfter(f, w, 0);
      NoSegments(w);
    }
  }

  lemma CutAfter(f: string, w: string, k: nat)
    requires k <= |f|
    ensures (f + w)[k..] == f[k..] + w && forall i | 0 <= i < |f| :: (f + w)[i] == f[i]
    ensures f == "" ==> f + w == w
  {
  }

  lemma SegmentsRest(f: string)
    requires IsSegments(f) && f != ""
    ensures |f| >= 2 && f[0] == '.' && IsFieldStart(f[1])
    ensures IsSegments(f[2 + Run(IsWord, f[2..])..])
  {
    assert SegmentAt(f, 0);
    var n := Run(IsWord, f[2..]);
    var k := 2 + n;
    var g := f[k..];
    if k < |f| {
      assert SegmentAt(f, k) && f[k] == f[2..][n] == g[0];
    }
    forall i | 0 <= i < |g| ensures SegmentAt(g, i) {
      assert SegmentAt(f, k + i) && g[i] == f[k + i];
      assert i + 1 < |g| ==> g[i + 1] == f[k + i + 1];
    }
  }

  /** White space, a variable, `=$`, a node id, `.output`, segments, white space. */
  predicate AssignAt(l: string, i: nat, a: Assign, j: nat) {
    && i <= |l| && White(l[..i]) && IsVariable(a.variable) && IsNodeId(a.node) && IsSegments(a.field)
    && j <= |l| && White(l[j..]) && i <= j && l[i..j] == a.variable + "=$" + a.node + ".output" + a.field
  }

  lemma {:induction false} ParseAssignIff(l: string, a: Assign)
    ensures ParseAssign(l) == Some(a) <==> exists i: nat, j: nat :: AssignAt(l, i, a, j)
  {
    hide IsSpace, AssignRest, IsVariable, IsSegments, IsNodeId;
    forall i: nat, j: nat | AssignAt(l, i, a, j) ensures ParseAssign(l) == Some(a) {
      AssignAtParses(l, i, a, j);
    }
    if ParseAssign(l) == Some(a) {
      hide ParseAssign, AssignAt;
      var i := ParsesAt(l, a);
    }
  }

  lemma AssignAtParses(l: string, i: nat, a: Assign, j: nat)
    requires AssignAt(l, i, a, j)
    ensures ParseAssign(l) == Some(a)
  {
    hide IsSpace, AssignRest, IsSegments, IsNodeId, White;
    var p := a.variable + "=$" + a.node + ".output" + a.field;
    var v := |a.variable|;
    assert l[i] == p[0] == a.variable[0];
    UpperIsNotSpace(l[i]);
    WhiteRun(l, i);
    var t, x, y := l[i..], "=$", ".output";
    var e := x + (a.node + y + (a.field + l[j..]));
    assert t == l[i..j] + l[j..];
    Regroup(a.variable, x, a.node, y, a.field, l[j..]);
    assert t[v] == e[0] == '=';
    RunIs(IsVarChar, t, v);
    RestParses(a.variable, a.node, a.field, l[j..]);
    assert t[..v] == a.variable && t[v..] == e;
  }

  lemma Regroup(v: string, x: string, n: string, y: string, f: string, w: string)
    ensures v + x + n + y + f + w == v + (x + (n + y + (f + w)))
  {
  }

  lemma RestParses(v: string, n: string, f: string, w: string)
    requires IsNodeId(n) && IsSegments(f) && White(w)
    ensures AssignRest(v, "=$" + (n + ".output" + (f + w))) == Some(Assign(v, n, f))
  {
    hide IsSpace;
    var e := "=$" + (n + ".output" + (f + w));
    var x := n + ".output" + (f + w);
    assert e[2..] == x && e[2] == n[0];
    assert x[|n|] == '.';
    RunIs(IsIdChar, x, |n|);
    assert e[2..2 + |n|] == n;
    var rest := e[2 + |n|..];
    assert rest == ".output" + (f + w) && rest[..7] == ".output" && rest[7..] == f + w;
    WhiteIsNoWord(w);
    SegmentsTaken(f, w);
    assert (f + w)[|f|..] == w && (f + w)[..|f|] == f;
    assert w[..|w|] == w;
    WhiteRun(w, |w|);
  }

  lemma WhiteIsNoWord(w: string)
    requires White(w)
    ensures w != "" ==> w[0] != '.' && !IsWord(w[0])
  {
  }

  lemma ParsesAt(l: string, a: Assign) returns (i: nat)
    requires ParseAssign(l) == Some(a)
    ensures exists j: nat :: AssignAt(l, i, a, j)
  {
    hide IsSpace, IsSegments, AssignRest, IsVarChar, IsNodeId, White;
    i := Run(IsSpace, l);
    RunIsWhite(l);
    var t := l[i..];
    var v := Run(IsVarChar, t);
    assert IsVariable(t[..v]) by { VariableRun(t); }
    var k := RestIs(t[..v], t[v..], a);
    assert l[i..i + v + k] == t[..v] + t[v..][..k];
    var x, y, z := "=$", ".output", a.variable;
    assert z + (x + a.node + y + a.field) == z + x + a.node + y + a.field;
    Later(l, i, v);
    Later(l, i + v, k);
    assert l[i..i + v + k] == z + x + a.node + y + a.field;
    assert AssignAt(l, i, a, i + v + k);
  }

  lemma VariableRun(t: string)
    requires t != "" && IsUpper(t[0])
    ensures IsVariable(t[..Run(IsVarChar, t)])
  {
    var v := Run(IsVarChar, t);
    assert v > 0 && t[..v][0] == t[0];
  }

  lemma RestIs(v: string, e: string, a: Assign) returns (k: nat)
    requires AssignRest(v, e) == Some(a)
    ensures a.variable == v && IsNodeId(a.node) && IsSegments(a.field)
    ensures k <= |e| && e[..k] == "=$" + a.node + ".output" + a.field && White(e[k..])
  {
    hide IsSpace, IsSegments, SegmentsLen, White, IsNodeId, IsIdChar, IsBlank;
    var n := Run(IsIdChar, e[2..]);
    NodeRunIs(e[2..]);
    var tail := e[2 + n..][7..];
    var f := SegmentsLen(tail);
    SegmentsAre(tail);
    BlankIsWhite(tail[f..]);
    k := 2 + n + 7 + f;
    Later(e, 2 + n, 7);
    Later(e, 2 + n + 7, f);
    assert a.node == e[2..2 + n] == e[2..][..n];
    Parts(e, n, f);
  }

  lemma Parts(e: string, n: nat, f: nat)
    requires |e| >= 9 + n + f && e[0] == '=' && e[1] == '$' && ".output" <= e[2 + n..]
    ensures e[..9 + n + f] == "=$" + e[2..2 + n] + ".output" + e[2 + n..][7..][..f]
  {
    assert e[2 + n..][..7] == ".output";
    assert e[2 + n..9 + n] == e[2 + n..][..7];
    assert e[9 + n..9 + n + f] == e[2 + n..][7..][..f];
  }

  lemma NodeRunIs(t: string)
    requires t != "" && IsLower(t[0])
    ensures IsNodeId(t[..Run(IsIdChar, t)])
  {
    assert t[..Run(IsIdChar, t)][0] == t[0];
  }

  lemma BlankIsWhite(w: string)
    requires IsBlank(w)
    ensures White(w)
  {
    RunIsWhite(w);
    assert w[..|w|] == w;
  }

  lemma OneName(v: string, w: string, n: string, f: string)
    requires NamedFrom(v, n, f) && NamedFrom(w, n, f)
    ensures v == w
  {
    forall i | 0 <= i < |v| ensures v[i] == w[i] {
      if i < |n| {
        assert Names(n[i], v[i]) && Names(n[i], w[i]);
      } else if i < |n| + 7 {
        assert v[i] == v[|n|..|n| + 7][i - |n|] == w[|n|..|n| + 7][i - |n|];
      } else {
        var k := i - |n| - 7;
        assert Names(f[k], v[|n| + 7 + k]) && Names(f[k], w[|n| + 7 + k]);
      }
    }
  }

  lemma SegmentsArePath(f: string)
    requires IsSegments(f)
    ensures IsFieldPath(f)
  {
    if f != "" {
      assert SegmentAt(f, 0);
      forall i | 2 <= i < |f| ensures StartsName(f[i]) || '0' <= f[i] <= '9' || f[i] == '.' {
        assert SegmentAt(f, i);
      }
    }
  }

  /** The cleanup takes a line for one of the sweep's assignments exactly if it is an assignment whose
      variable is named after its value, field and all. */
  lemma {:induction false} SweepAssignIff(l: string, a: Assign)
    ensures SweepAssign(l) == Some(a)
       <==> (exists i: nat, j: nat :: AssignAt(l, i, a, j)) && NamedFrom(a.variable, a.node, a.field)
  {
    hide ParseAssign, NodeToVar, NamedFrom;
    ParseAssignIff(l, a);
    if ParseAssign(l) == Some(a) {
      var i: nat, j: nat :| AssignAt(l, i, a, j);
      SegmentsArePath(a.field);
      NamedAfter(a.node, a.field);
      if NamedFrom(a.variable, a.node, a.field) {
        OneName(a.variable, NodeToVar(a.node, a.field), a.node, a.field);
      }
    }
  }

  /** A variable is put back as the value of the last line that assigns it. */
  lemma {:induction false} LastAssignCounts(ls: seq<string>, l: string, a: Assign, rest: seq<string>)
    requires SweepAssign(l) == Some(a) && forall x, b | x in rest && SweepAssign(x) == Some(b) :: b.variable != a.variable
    ensures var m := VarMapOf(ls + [l] + rest); a.variable in m && m[a.variable] == "$" + a.node + ".output" + a.field
  {
    hide SweepAssign;
    var all := ls + [l] + rest;
    if rest == [] {
      assert all[..|all| - 1] == ls && all[|all| - 1] == l;
    } else {
      var init := rest[..|rest| - 1];
      assert all[..|all| - 1] == ls + [l] + init && all[|all| - 1] == rest[|rest| - 1];
      LastAssignCounts(ls, l, a, init);
    }
  }

  /** Of a text, the first use of a mapped variable is put back; what precedes it stays, and what follows is
      treated in the same way. */
  lemma {:induction false} RevertFirstUse(a: string, s: string, v: string, n: nat, m: VarMap)
    requires (forall x | x in m :: IsVariable(x)) && v in m && UseAt(s, v, n)
    requires forall i, x, k | 0 <= i < |a| && x in m :: !UseAt((a + s)[i..], x, k)
    ensures 0 < n <= |s| && RevertText(a + s, m) == a + (m[v] + RevertText(s[n..], m))
  {
    hide RevertText, UseAt, IsVariable, MatchUse;
    UseReverts(s, v, n, m);
    if a == "" {
      assert a + s == s;
    } else {
      assert (a + s)[0..] == a + s && (a + s)[1..] == a[1..] + s;
      forall i, x, k | 0 <= i < |a[1..]| && x in m ensures !UseAt((a[1..] + s)[i..], x, k) {
        Later(a + s, 1, i);
        assert !UseAt((a + s)[1 + i..], x, k);
      }
      RevertFirstUse(a[1..], s, v, n, m);
      CharReverts(a + s, m);
      assert a == [a[0]] + a[1..];
    }
  }

  lemma UseReverts(s: string, v: string, n: nat, m: VarMap)
    requires (forall x | x in m :: IsVariable(x)) && v in m && UseAt(s, v, n)
    ensures 0 < n <= |s| && RevertText(s, m) == m[v] + RevertText(s[n..], m)
  {
    hide IsVariable, UseAt, MatchUse;
    MatchUseIff(s, m.Keys, v, n);
    assert |s| > 0 by { assert UseAt(s, v, n); UseIsThere(s, v, n); }
  }

  lemma UseIsThere(s: string, v: string, n: nat)
    requires UseAt(s, v, n)
    ensures |s| > 0
  {
  }

  lemma CharReverts(s: string, m: VarMap)
    requires s != "" && (forall x | x in m :: IsVariable(x)) && forall x, k | x in m :: !UseAt(s, x, k)
    ensures RevertText(s, m) == [s[0]] + RevertText(s[1..], m)
  {
    hide IsVariable, UseAt, MatchUse;
    if MatchUse(s, m.Keys).Some? {
      var u := MatchUse(s, m.Keys).value;
      MatchUseIff(s, m.Keys, u.0, u.1);
    }
  }

  /** Text without such a use stays. */
  lemma {:induction false} RevertPlain(s: string, m: VarMap)
    requires (forall x | x in m :: IsVariable(x)) && forall i, x, k | 0 <= i < |s| && x in m :: !UseAt(s[i..], x, k)
    ensures RevertText(s, m) == s
  {
    hide RevertText, UseAt, IsVariable;
    if s == "" {
      RevertEmpty(m);
    } else {
      assert s[0..] == s && s == [s[0]] + s[1..];
      forall i, x, k | 0 <= i < |s[1..]| && x in m ensures !UseAt(s[1..][i..], x, k) {
        Later(s, 1, i);
        assert !UseAt(s[1 + i..], x, k);
      }
      CharReverts(s, m);
      RevertPlain(s[1..], m);
    }
  }

  // ----- The blocks of a file -----

  lemma IndentIs(l: string, n: nat)
    ensures IndentOf(l) == n <==> n <= |l| && (forall i | 0 <= i < n :: l[i] == ' ') && (n < |l| ==> l[n] != ' ')
    ensures IsBlank(l) <==> White(l)
  {
    if n <= |l| && (forall i | 0 <= i < n :: l[i] == ' ') && (n < |l| ==> l[n] != ' ') {
      RunIs(IsBlankChar, l, n);
    }
    if White(l) {
      assert l[..|l|] == l;
      WhiteRun(l, |l|);
    }
  }

  /** The scan passes blank lines. At the end of the file it has no indentation; at a line indented no
      deeper than the key it stops; and otherwise that line sets the indentation, and the scan goes on to
      the next line that is neither blank nor as deep. */
  ghost predicate Scanned(lines: seq<string>, k: nat, r: (nat, Option<nat>), p: nat) {
    && p <= |lines| && (forall l | l in lines[..p] :: IsBlank(l)) && (p < |lines| ==> !IsBlank(lines[p]))
    && if p == |lines| then r == (p, None)
       else if IndentOf(lines[p]) <= k then r == (p, Some(IndentOf(lines[p])))
       else
         && p < r.0 <= |lines| && r.1 == Some(IndentOf(lines[p]))
         && (forall l | l in lines[..r.0] :: IsBlank(l) || IndentOf(l) >= r.1.value)
         && (r.0 < |lines| ==> !IsBlank(lines[r.0]) && IndentOf(lines[r.0]) < r.1.value)
  }

  lemma {:induction false} ScanExact(lines: seq<string>, k: nat)
    ensures exists p: nat :: Scanned(lines, k, BodyScan(lines, k, None), p)
  {
    hide IsBlank, IndentOf;
    var r := BodyScan(lines, k, None);
    if lines == [] {
      assert Scanned(lines, k, r, 0);
    } else if IsBlank(lines[0]) {
      ScanExact(lines[1..], k);
      var r' := BodyScan(lines[1..], k, None);
      var p: nat :| Scanned(lines[1..], k, r', p);
      assert lines[..p + 1] == [lines[0]] + lines[1..][..p];
      assert r.0 == r'.0 + 1 && lines[..r.0] == [lines[0]] + lines[1..][..r'.0] && lines[r.0..] == lines[1..][r'.0..];
      assert Scanned(lines, k, r, p + 1);
    } else if IndentOf(lines[0]) > k {
      ScanFacts(lines, k);
      assert lines[0] in lines[..1];
      ScanFirst(lines, k);
      assert Scanned(lines, k, r, 0);
    } else {
      assert Scanned(lines, k, r, 0);
    }
  }

  lemma ScanFirst(lines: seq<string>, k: nat)
    requires lines != [] && !IsBlank(lines[0]) && IndentOf(lines[0]) > k
    ensures var r := BodyScan(lines, k, None); var n := IndentOf(lines[0]);
            0 < r.0 && r.1 == Some(n) && AllInBody(lines[..r.0], n) && Ends(lines[r.0..], n)
  {
    hide IsBlank, IndentOf;
    var r := BodyScan(lines, k, None);
    ScanSomeFacts(lines[1..], k, IndentOf(lines[0]));
    assert lines[..r.0] == [lines[0]] + lines[1..][..r.0 - 1];
    assert lines[r.0..] == lines[1..][r.0 - 1..];
  }

  /** The block that follows a key at line `x`. */
  ghost predicate Follows(lines: seq<string>, x: nat, b: Block) {
    && x < |lines| && BashKey(lines[x]).Some?
    && var r := BodyScan(lines[x + 1..], BashKey(lines[x]).value, None);
       r.1.Some? && r.0 > 0 && b == Block(x + 1, x + 1 + r.0, r.1.value)
  }

  predicate Inside(bs: seq<Block>, x: nat) {
    exists b :: b in bs && b.first <= x < b.last
  }

  /** Exactly the blocks that follow a key which is not itself within a block. */
  lemma {:induction false} BlocksAre(lines: seq<string>, i: nat, b: Block)
    requires i <= |lines|
    ensures b in Blocks(lines, i) <==> exists x: nat :: i <= x && Follows(lines, x, b) && !Inside(Blocks(lines, i), x)
    decreases |lines| - i
  {
    hide BashKey, BodyScan;
    if i == |lines| {
      assert forall x: nat | i <= x :: !Follows(lines, x, b);
    } else if BashKey(lines[i]).None? {
      BlocksAtPlain(lines, i);
      BlocksAre(lines, i + 1, b);
      assert !Follows(lines, i, b);
    } else {
      BlocksAtBlock(lines, i, b);
    }
  }

  lemma {:induction false} BlocksAtBlock(lines: seq<string>, i: nat, b: Block)
    requires i < |lines| && BashKey(lines[i]).Some?
    ensures b in Blocks(lines, i) <==> exists x: nat :: i <= x && Follows(lines, x, b) && !Inside(Blocks(lines, i), x)
    decreases |lines| - i, 0
  {
    hide BashKey, BodyScan, Follows;
    var k := BashKey(lines[i]).value;
    var r := BodyScan(lines[i + 1..], k, None);
    var e := i + 1 + r.0;
    var bs, tail := Blocks(lines, i), Blocks(lines, e);
    BlocksAtKey(lines, i, k);
    BlocksAre(lines, e, b);
    BlocksOrdered(lines, e);
    OrderedAll(tail, e, |lines|);
    FollowsHere(lines, i, b);
    SkippedAreNoKeys(lines, i);
    if r.1.Some? && r.0 > 0 {
      var first := Block(i + 1, e, r.1.value);
      assert bs == [first] + tail;
      assert forall x: nat :: Inside(bs, x) <==> i + 1 <= x < e || Inside(tail, x);
      assert !Inside(bs, i);
      assert forall x: nat | e <= x :: Inside(bs, x) <==> Inside(tail, x);
    } else {
      assert bs == tail;
      assert forall x: nat | i < x < e :: !Follows(lines, x, b);
      assert !Inside(bs, i);
    }
  }

  lemma FollowsHere(lines: seq<string>, i: nat, b: Block)
    requires i < |lines| && BashKey(lines[i]).Some?
    ensures var r := BodyScan(lines[i + 1..], BashKey(lines[i]).value, None);
            Follows(lines, i, b) <==> r.1.Some? && r.0 > 0 && b == Block(i + 1, i + 1 + r.0, r.1.value)
  {
    hide BashKey, BodyScan;
  }

  /** What the scan passes without a block is blank, so no key is in it. */
  lemma SkippedAreNoKeys(lines: seq<string>, i: nat)
    requires i < |lines| && BashKey(lines[i]).Some?
    ensures var r := BodyScan(lines[i + 1..], BashKey(lines[i]).value, None);
            !(r.1.Some? && r.0 > 0) ==> forall x: nat, b | i < x < i + 1 + r.0 :: !Follows(lines, x, b)
  {
    hide BashKey, BodyScan, IsBlank, IndentOf;
    var rest := lines[i + 1..];
    var r := BodyScan(rest, BashKey(lines[i]).value, None);
    ScanExact(rest, BashKey(lines[i]).value);
    var p: nat :| Scanned(rest, BashKey(lines[i]).value, r, p);
    if !(r.1.Some? && r.0 > 0) {
      forall x: nat | i < x < i + 1 + r.0 ensures BashKey(lines[x]).None? {
        assert lines[x] == rest[..p][x - i - 1];
        BlankIsNoKey(lines[x]);
      }
    }
  }

  lemma BlankIsNoKey(l: string)
    requires IsBlank(l)
    ensures BashKey(l).None?
  {
    assert l[|l|..] == "";
  }

  lemma {:induction false} OrderedAll(bs: seq<Block>, from: nat, n: nat)
    requires Ordered(bs, from, n)
    ensures forall b | b in bs :: from <= b.first < b.last <= n
  {
    if bs != [] {
      OrderedAll(bs[1..], bs[0].last, n);
      assert forall b | b in bs :: b == bs[0] || b in bs[1..];
    }
  }
}
