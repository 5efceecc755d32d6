/** What the sweep's substitution and the cleanup's reverse substitution do to one line: exactly
    which lines come back unchanged. */
module QuoteFixLine {
  import opened Outcomes
  import opened PyText
  import opened QuoteFix

  // ----- Places where no match can straddle -----

  predicate IsStop(c: char) {
    c == '$' || IsBreak(c)
  }

  /** No reference and no use starts in `a` and reaches into `b`. */
  predicate Boundary(a: string, b: string) {
    b == "" || IsStop(b[0]) || (a != "" && IsBreak(a[|a| - 1]))
  }

  lemma StopsEndRuns(c: char)
    requires IsStop(c)
    ensures !IsIdChar(c) && !IsVarChar(c) && !IsWordDot(c) && !IsLower(c)
  {
  }

  lemma BoundarySuffix(a: string, b: string, k: nat)
    requires Boundary(a, b) && k < |a|
    ensures Boundary(a[k..], b)
  {
    assert a[k..][|a| - k - 1] == a[|a| - 1];
  }

  lemma RunBoundary(p: char -> bool, a: string, b: string)
    requires Boundary(a, b)
    requires b != "" && IsStop(b[0]) ==> !p(b[0])
    requires a != "" && IsBreak(a[|a| - 1]) ==> !p(a[|a| - 1])
    ensures Run(p, a + b) == Run(p, a)
  {
    hide IsBreak;
    RunAppend(p, a, b);
  }

  lemma IdRun(a: string, b: string)
    requires Boundary(a, b)
    ensures Run(IsIdChar, a + b) == Run(IsIdChar, a)
  {
    RunBoundary(IsIdChar, a, b);
  }

  lemma VarRun(a: string, b: string)
    requires Boundary(a, b)
    ensures Run(IsVarChar, a + b) == Run(IsVarChar, a)
  {
    RunBoundary(IsVarChar, a, b);
  }

  lemma StartsWithBoundary(a: string, b: string, lit: string)
    requires Boundary(a, b) && forall i | 0 <= i < |lit| :: !IsStop(lit[i])
    ensures StartsWith(a + b, lit) == StartsWith(a, lit)
  {
    hide IsBreak;
    if |lit| <= |a| {
      assert (a + b)[..|lit|] == a[..|lit|];
    } else if b != "" {
      var k := if IsStop(b[0]) then |a| else |a| - 1;
      assert IsStop((a + b)[k]) && !IsStop(lit[k]);
    }
  }

  lemma OutputHasNoStop()
    ensures forall i | 0 <= i < |OUTPUT| :: !IsStop(OUTPUT[i])
  {
  }

  lemma FieldLenBoundary(a: string, b: string)
    requires Boundary(a, b)
    ensures FieldLen(a + b) == FieldLen(a)
  {
    if |a| >= 2 {
      if a[0] == '.' && IsFieldStart(a[1]) {
        assert (a + b)[2..] == a[2..] + b;
        assert Boundary(a[2..], b);
        RunBoundary(IsWordDot, a[2..], b);
      }
    } else if |a| == 1 && b != "" && a[0] == '.' {
      assert (a + b)[1] == b[0];
    }
  }

  lemma MatchTailBoundary(node: string, rest: string, b: string)
    requires Boundary(rest, b)
    ensures MatchTail(node, rest + b) == MatchTail(node, rest)
  {
    hide FieldLen;
    OutputHasNoStop();
    StartsWithBoundary(rest, b, OUTPUT);
    if StartsWith(rest, OUTPUT) {
      var tail := rest[|OUTPUT|..];
      assert (rest + b)[|OUTPUT|..] == tail + b;
      assert Boundary(tail, b) by {
        if tail == "" {
          assert rest[|rest| - 1] == OUTPUT[|OUTPUT| - 1];
        } else {
          assert tail[|tail| - 1] == rest[|rest| - 1];
        }
      }
      FieldLenBoundary(tail, b);
      assert (tail + b)[..FieldLen(tail)] == tail[..FieldLen(tail)];
    }
  }

  /** What is left of `a` after an id at its second character is still a boundary. */
  lemma AfterId(a: string, b: string)
    requires |a| >= 2 && Boundary(a, b)
    ensures Boundary(a[1 + Run(IsIdChar, a[1..])..], b)
  {
    var n := Run(IsIdChar, a[1..]);
    if 1 + n < |a| {
      BoundarySuffix(a, b, 1 + n);
    } else {
      assert a[1..][n - 1] == a[|a| - 1];
    }
  }

  lemma DollarNoBreak()
    ensures !IsBreak('$')
  {
  }

  lemma MatchIdBoundary(a: string, b: string)
    requires |a| >= 2 && a[0] == '$' && IsLower(a[1]) && Boundary(a, b)
    ensures MatchRef(a + b) == MatchRef(a)
  {
    hide MatchTail, IsBreak, Run, Boundary;
    var s := a + b;
    assert s[1..] == a[1..] + b;
    BoundarySuffix(a, b, 1);
    IdRun(a[1..], b);
    var n := Run(IsIdChar, a[1..]);
    assert s[1 + n..] == a[1 + n..] + b && s[1..1 + n] == a[1..1 + n];
    AfterId(a, b);
    MatchTailBoundary(a[1..1 + n], a[1 + n..], b);
  }

  lemma MatchRefBoundary(a: string, b: string)
    requires a != "" && Boundary(a, b)
    ensures MatchRef(a + b) == MatchRef(a)
  {
    hide MatchTail, IsBreak, Run;
    var s := a + b;
    if a[0] == '$' && |a| >= 2 && IsLower(a[1]) {
      MatchIdBoundary(a, b);
    } else if |a| == 1 && b != "" {
      assert s[1] == b[0];
      DollarNoBreak();
      if IsStop(b[0]) {
        StopsEndRuns(b[0]);
      }
    }
  }

  lemma BraceUseBoundary(t: string, b: string, vars: set<string>)
    requires Boundary(t, b)
    ensures BraceUse(t + b, vars) == BraceUse(t, vars)
  {
    VarRun(t, b);
    var n := Run(IsVarChar, t);
    assert (t + b)[..n] == t[..n];
    assert n < |t| ==> (t + b)[n] == t[n];
  }

  lemma BareUseBoundary(t: string, b: string, vars: set<string>)
    requires Boundary(t, b)
    ensures BareUse(t + b, vars) == BareUse(t, vars)
  {
    hide IsBreak;
    VarRun(t, b);
    var n := Run(IsVarChar, t);
    assert (t + b)[..n] == t[..n];
  }

  lemma MatchUseBoundary(a: string, b: string, vars: set<string>)
    requires a != "" && Boundary(a, b)
    requires "" !in vars
    ensures MatchUse(a + b, vars) == MatchUse(a, vars)
  {
    hide BraceUse, BareUse;
    var s := a + b;
    if a[0] == '$' && |a| >= 2 {
      assert s[1] == a[1];
      if a[1] == '{' {
        assert s[2..] == a[2..] + b;
        BraceUseBoundary(a[2..], b, vars);
      } else {
        assert s[1..] == a[1..] + b;
        BareUseBoundary(a[1..], b, vars);
      }
    } else if a == "$" && b != "" {
      assert s[1..] == b && s[1] == b[0];
      NoUseAtStop(b, vars);
    }
  }

  lemma NoUseAtStop(b: string, vars: set<string>)
    requires b != "" && IsStop(b[0]) && "" !in vars
    ensures BareUse(b, vars).None?
  {
    assert b[..0] == "";
  }

  lemma StepBoundary(a: string, b: string)
    requires a != "" && Boundary(a, b)
    ensures Taken(a + b) == Taken(a) && FoundHere(a + b) == FoundHere(a) && Put(a + b) == Put(a)
  {
    hide MatchRef, IsBreak, NodeToVar, Ref.Text;
    MatchRefBoundary(a, b);
  }

  /** Substitution works piece by piece. */
  lemma {:induction false} SubstAppend(a: string, b: string)
    requires Boundary(a, b)
    ensures Subst(a + b) == Subst(a) + Subst(b)
    ensures Refs(a + b) == Refs(a) + Refs(b)
    decreases |a|
  {
    hide Taken, Put, FoundHere, Boundary;
    if a == "" {
      assert a + b == b;
    } else {
      StepBoundary(a, b);
      var k := Taken(a);
      assert (a + b)[k..] == a[k..] + b;
      if k == |a| {
        assert a[k..] == "" && a[k..] + b == b;
      } else {
        BoundarySuffix(a, b, k);
        SubstAppend(a[k..], b);
      }
    }
  }

  lemma UseStepBoundary(a: string, b: string, m: VarMap)
    requires a != "" && Boundary(a, b) && "" !in m
    ensures UseTaken(a + b, m) == UseTaken(a, m) && UsePut(a + b, m) == UsePut(a, m)
  {
    hide MatchUse, IsBreak;
    MatchUseBoundary(a, b, m.Keys);
  }

  lemma {:induction false} RevertAppend(a: string, b: string, m: VarMap)
    requires Boundary(a, b) && "" !in m
    ensures RevertText(a + b, m) == RevertText(a, m) + RevertText(b, m)
    decreases |a|
  {
    hide UseTaken, UsePut, Boundary;
    if a == "" {
      assert a + b == b;
    } else {
      UseStepBoundary(a, b, m);
      var k := UseTaken(a, m);
      assert (a + b)[k..] == a[k..] + b;
      if k == |a| {
        assert a[k..] == "" && a[k..] + b == b;
      } else {
        BoundarySuffix(a, b, k);
        RevertAppend(a[k..], b, m);
      }
    }
  }

  predicate NoDollar(s: string) {
    forall i | 0 <= i < |s| :: s[i] != '$'
  }

  predicate DollarOrEmpty(s: string) {
    s == "" || s[0] == '$'
  }

  lemma NoMatchHere(x: string, vars: set<string>)
    requires x != "" && x[0] != '$'
    ensures MatchRef(x).None? && MatchUse(x, vars).None?
  {
    hide MatchTail, BraceUse, BareUse;
  }

  lemma PlainText(x: string, m: VarMap)
    requires NoDollar(x)
    ensures Subst(x) == x && Refs(x) == [] && RevertText(x, m) == x
  {
    hide MatchRef, MatchUse;
    if x != "" {
      PlainText(x[1..], m);
      assert x == [x[0]] + x[1..];
      NoMatchHere(x, m.Keys);
    }
  }

  /** How much of `s` comes before its first dollar sign. */
  function PlainLen(s: string): (n: nat)
    ensures n <= |s| && NoDollar(s[..n]) && DollarOrEmpty(s[n..])
  {
    Run(c => c != '$', s)
  }

  lemma SubstFirst(s: string)
    requires s != ""
    ensures Subst(s) != "" && Subst(s)[0] == s[0]
  {
    hide NodeToVar;
  }

  lemma RevertFirst(s: string, m: VarMap)
    requires s != "" && (s[0] == '$' ==> forall v | v in m :: m[v] != "" && m[v][0] == '$')
    ensures RevertText(s, m) != "" && RevertText(s, m)[0] == s[0]
  {
  }

  /** What stands before the first dollar sign is kept, and nothing before it is a dollar sign. */
  lemma SubstPlainPrefix(s: string)
    ensures var n := PlainLen(s); Subst(s) == s[..n] + Subst(s[n..]) && DollarOrEmpty(Subst(s[n..]))
  {
    hide IsBreak, PlainLen, Subst, Refs;
    var n := PlainLen(s);
    assert s == s[..n] + s[n..];
    SubstAppend(s[..n], s[n..]);
    PlainText(s[..n], map[]);
    if s[n..] != "" {
      SubstFirst(s[n..]);
    } else {
      SubstEmpty();
    }
  }

  lemma SubstEmpty()
    ensures Subst("") == ""
  {
  }

  /** A dollar sign the substitution leaves alone still starts the same thing afterwards. */
  lemma AfterSubst(s: string, vars: set<string>)
    requires s != "" && MatchRef(s).None? && "" !in vars
    ensures MatchRef([s[0]] + Subst(s[1..])).None?
    ensures MatchUse([s[0]] + Subst(s[1..]), vars) == MatchUse(s, vars)
  {
    hide MatchRef, MatchUse, Subst, IsBreak, PlainLen;
    var n := PlainLen(s[1..]);
    var x, y := s[1..][..n], s[1..][n..];
    SubstPlainPrefix(s[1..]);
    var h := [s[0]] + x;
    assert s == h + y && [s[0]] + Subst(s[1..]) == h + Subst(y);
    MatchRefBoundary(h, y);
    MatchRefBoundary(h, Subst(y));
    MatchUseBoundary(h, y, vars);
    MatchUseBoundary(h, Subst(y), vars);
  }

  // ----- Variable names -----

  predicate IsField(f: string) {
    f == "" || (|f| >= 2 && forall i | 0 <= i < |f| :: IsWordDot(f[i]))
  }

  lemma FieldLenShape(tail: string)
    ensures IsField(tail[..FieldLen(tail)])
  {
    var f := tail[..FieldLen(tail)];
    forall i | 0 <= i < |f| ensures IsWordDot(f[i]) {
      if i >= 2 {
        assert f[i] == tail[2..][i - 2];
      }
    }
  }

  lemma MatchRefField(s: string)
    requires MatchRef(s).Some?
    ensures IsField(MatchRef(s).value.field)
  {
    hide FieldLen, IsField;
    var n := Run(IsIdChar, s[1..]);
    FieldLenShape(s[1 + n..][|OUTPUT|..]);
  }

  lemma VarShape(node: string, field: string)
    requires IsNode(node) && IsField(field)
    ensures var v := NodeToVar(node, field);
            && v != "" && IsUpper(v[0]) && (forall i | 0 <= i < |v| :: IsVarChar(v[i]))
            && |v| == |node| + 7 + |field|
  {
    var v := NodeToVar(node, field);
    var base := Replace(Upper(node), '-', '_');
    var suffix := Upper(Replace(field, '.', '_'));
    assert v[0] == base[0] == UpperChar(node[0]);
    forall i | 0 <= i < |v| ensures IsVarChar(v[i]) {
      if i < |base| {
        assert v[i] == base[i] && IsIdChar(node[i]);
      } else if i < |base| + 7 {
        assert v[i] == "_OUTPUT"[i - |base|];
      } else {
        assert v[i] == suffix[i - |base| - 7] && IsWordDot(field[i - |base| - 7]);
      }
    }
  }

  /** `node_to_var` is injective on node ids: the reverse substitution has one answer. */
  lemma NodeToVarInjective(a: string, b: string)
    requires IsNode(a) && IsNode(b) && NodeToVar(a, "") == NodeToVar(b, "")
    ensures a == b
  {
    var va, vb := NodeToVar(a, ""), NodeToVar(b, "");
    assert |va| == |a| + 7 && |vb| == |b| + 7;
    forall i | 0 <= i < |a| ensures a[i] == b[i] {
      assert va[i] == Replace(Upper(a), '-', '_')[i] && vb[i] == Replace(Upper(b), '-', '_')[i];
      assert IsIdChar(a[i]) && IsIdChar(b[i]);
    }
  }

  /** Two node ids followed by `.output` can only be the same id. */
  lemma NodePrefixUnique(a: string, b: string, x: string, y: string)
    requires IsNode(a) && IsNode(b)
    ensures a + OUTPUT + x == b + OUTPUT + y ==> a == b
  {
    NodeRun(a, x);
    NodeRun(b, y);
    assert (a + OUTPUT + x)[..|a|] == a && (b + OUTPUT + y)[..|b|] == b;
  }

  lemma NodeRun(a: string, x: string)
    requires IsNode(a)
    ensures Run(IsIdChar, a + OUTPUT + x) == |a|
  {
    var s := a + OUTPUT + x;
    assert s[|a|] == '.';
    RunIs(IsIdChar, s, |a|);
  }

  // ----- Substituting and reverting one line -----

  /** `v` is the variable of node `n` and `m` takes it back to `$n.output`. */
  ghost predicate MapsTo(m: VarMap, v: string, n: string) {
    IsNode(n) && v == NodeToVar(n, "") && v in m && m[v] == "$" + n + OUTPUT
  }

  /** The map `revert_block` builds from assignments the sweep wrote. */
  ghost predicate IsSweepMap(m: VarMap) {
    forall v | v in m :: exists n :: MapsTo(m, v, n)
  }

  lemma SweepMapAt(m: VarMap, v: string) returns (n: string)
    requires IsSweepMap(m) && v in m
    ensures MapsTo(m, v, n)
    ensures v != "" && IsUpper(v[0]) && forall i | 0 <= i < |v| :: IsVarChar(v[i])
    ensures m[v][0] == '$' && IsLower(m[v][1])
  {
    n :| MapsTo(m, v, n);
    VarShape(n, "");
  }

  lemma SweepMapShape(m: VarMap)
    requires IsSweepMap(m)
    ensures "" !in m && forall v | v in m :: m[v] != "" && m[v][0] == '$'
  {
    hide NodeToVar, IsSweepMap;
    forall v | v in m ensures v != "" && m[v] != "" && m[v][0] == '$' {
      var n := SweepMapAt(m, v);
    }
  }

  /** A line the round trip keeps: every reference is bare and is not run into a following
      `[A-Z0-9_]`, and no generated variable is already used. A caller reads this off the line. */
  predicate LineClean(s: string, vars: set<string>) {
    if s == "" then true
    else
      var rest := s[Taken(s)..];
      (match MatchRef(s)
       case Some(r) => r.field == "" && (rest == "" || !IsVarChar(rest[0]))
       case None => MatchUse(s, vars).None?)
      && LineClean(rest, vars)
  }

  /** The variable of a reference, put where the reference was, is found again. */
  lemma {:induction false} RefFound(node: string, rest: string, m: VarMap)
    requires IsSweepMap(m) && IsNode(node) && NodeToVar(node, "") in m
    requires rest == "" || !IsVarChar(rest[0])
    ensures RevertText("$" + NodeToVar(node, "") + rest, m) == "$" + node + OUTPUT + RevertText(rest, m)
  {
    hide NodeToVar;
    var v := NodeToVar(node, "");
    var t := "$" + v + rest;
    VarShape(node, "");
    assert t[1..] == v + rest;
    RunIs(IsVarChar, t[1..], |v|);
    assert t[1] == v[0] && t[1..1 + |v|] == v;
    assert MatchUse(t, m.Keys) == Some((v, |v| + 1));
    var n := SweepMapAt(m, v);
    NodeToVarInjective(n, node);
    assert t[1 + |v|..] == rest;
  }

  lemma RevertChar(t: string, m: VarMap)
    requires t != "" && MatchUse(t, m.Keys).None?
    ensures RevertText(t, m) == [t[0]] + RevertText(t[1..], m)
  {
    hide MatchUse;
  }

  lemma UseIsLonger(v: string, rest: string, vars: set<string>)
    requires v != "" && IsUpper(v[0]) && (forall i | 0 <= i < |v| :: IsVarChar(v[i])) && rest != "" && IsVarChar(rest[0])
    ensures MatchUse("$" + v + rest, vars).Some? ==> |MatchUse("$" + v + rest, vars).value.0| > |v|
  {
    var t := "$" + v + rest;
    assert t[1..] == v + rest && t[1] == v[0];
    RunAtLeast(IsVarChar, t[1..], |v| + 1);
  }

  /** A reference run into `[A-Z0-9_]` is lost: another variable, or none, is found there. */
  lemma {:induction false} RefLost(node: string, rest: string, rest': string, m: VarMap)
    requires IsSweepMap(m) && IsNode(node)
    requires rest != "" && IsVarChar(rest[0])
    ensures RevertText("$" + NodeToVar(node, "") + rest, m) != "$" + node + OUTPUT + rest'
  {
    hide NodeToVar, MatchUse, RevertText;
    var v := NodeToVar(node, "");
    var t := "$" + v + rest;
    VarShape(node, "");
    assert t[1..] == v + rest;
    UseIsLonger(v, rest, m.Keys);
    var out, s := RevertText(t, m), "$" + node + OUTPUT + rest';
    assert t[1] == v[0];
    if MatchUse(t, m.Keys).Some? {
      RefMistaken(t, node, rest', m);
    } else {
      RevertFirst(t[1..], m);
      RevertChar(t, m);
      assert out[1] == v[0] && s[1] == node[0];
    }
  }

  lemma RevertUse(t: string, m: VarMap)
    requires t != "" && MatchUse(t, m.Keys).Some?
    ensures var u := MatchUse(t, m.Keys).value; u.0 in m && u.1 <= |t| && RevertText(t, m) == m[u.0] + RevertText(t[u.1..], m)
  {
    hide MatchUse;
  }

  lemma RefMistaken(t: string, node: string, rest': string, m: VarMap)
    requires IsSweepMap(m) && IsNode(node) && t != ""
    requires MatchUse(t, m.Keys).Some? && |MatchUse(t, m.Keys).value.0| > |NodeToVar(node, "")|
    ensures RevertText(t, m) != "$" + node + OUTPUT + rest'
  {
    hide NodeToVar, MatchUse, IsSweepMap, RevertText;
    var u := MatchUse(t, m.Keys).value;
    var n := SweepMapAt(m, u.0);
    var tail := RevertText(t[u.1..], m);
    RevertUse(t, m);
    var out, s := RevertText(t, m), "$" + node + OUTPUT + rest';
    assert n != node;
    NodePrefixUnique(n, node, tail, rest');
    CutPrefix("$", n + OUTPUT + tail, node + OUTPUT + rest');
    assert out == "$" + (n + OUTPUT + tail) && s == "$" + (node + OUTPUT + rest');
  }

  /** A use of a generated variable that was already there is turned into a reference. */
  lemma {:induction false} UseLost(s: string, t: string, m: VarMap)
    requires IsSweepMap(m) && s != "" && t != "" && MatchUse(s, m.Keys).Some?
    requires MatchUse(t, m.Keys) == MatchUse(s, m.Keys)
    ensures RevertText(t, m) != s
  {
    hide NodeToVar;
    var u := MatchUse(s, m.Keys).value;
    var n := SweepMapAt(m, u.0);
    assert RevertText(t, m)[1] == m[u.0][1];
    assert s[1] == '{' || s[1] == u.0[0];
  }

  lemma SubstStep(s: string)
    requires s != ""
    ensures Subst(s) == Put(s) + Subst(s[Taken(s)..])
    ensures Refs(s) == FoundHere(s) + Refs(s[Taken(s)..])
  {
  }

  lemma VarHeadKept(s: string)
    ensures (Subst(s) != "" && IsVarChar(Subst(s)[0])) <==> (s != "" && IsVarChar(s[0]))
  {
    hide Put, Taken;
    if s != "" {
      SubstFirst(s);
    }
  }

  lemma CutPrefix(p: string, x: string, y: string)
    ensures p + x == p + y <==> x == y
  {
    assert (p + x)[|p|..] == x && (p + y)[|p|..] == y;
  }

  lemma RefLine(s: string, r: Ref, m: VarMap)
    requires IsSweepMap(m) && s != "" && MatchRef(s) == Some(r) && r.field == ""
    requires NodeToVar(r.node, "") in m
    ensures var rest := s[Taken(s)..];
            RevertText(Subst(s), m) == s
            <==> (rest == "" || !IsVarChar(rest[0])) && RevertText(Subst(rest), m) == rest
  {
    hide NodeToVar, RevertText, MatchRef, Subst, IsSweepMap;
    var rest := s[Taken(s)..];
    SubstStep(s);
    VarHeadKept(rest);
    assert s == r.Text() + rest;
    assert r.Text() == "$" + r.node + OUTPUT;
    if rest == "" || !IsVarChar(rest[0]) {
      RefFound(r.node, Subst(rest), m);
      CutPrefix("$" + r.node + OUTPUT, RevertText(Subst(rest), m), rest);
    } else {
      RefLost(r.node, Subst(rest), rest, m);
    }
  }

  lemma PlainLine(s: string, m: VarMap)
    requires IsSweepMap(m) && s != "" && MatchRef(s).None?
    ensures RevertText(Subst(s), m) == s
            <==> MatchUse(s, m.Keys).None? && RevertText(Subst(s[1..]), m) == s[1..]
  {
    hide NodeToVar, MatchRef, MatchUse, IsSweepMap, Subst;
    SubstStep(s);
    SweepMapShape(m);
    AfterSubst(s, m.Keys);
    var t := [s[0]] + Subst(s[1..]);
    assert t[1..] == Subst(s[1..]);
    if MatchUse(s, m.Keys).Some? {
      UseLost(s, t, m);
    } else {
      assert s == [s[0]] + s[1..];
      CutPrefix([s[0]], RevertText(Subst(s[1..]), m), s[1..]);
    }
  }

  /** Reverting a substituted line gives it back exactly when it is clean. */
  lemma {:induction false} LineRoundTrip(s: string, m: VarMap)
    requires IsSweepMap(m)
    requires forall r | r in Refs(s) :: r.field == "" && NodeToVar(r.node, "") in m
    ensures RevertText(Subst(s), m) == s <==> LineClean(s, m.Keys)
    decreases |s|
  {
    hide NodeToVar, MatchRef, MatchUse, IsSweepMap, Refs, Ref.Text;
    if s != "" {
      var rest := s[Taken(s)..];
      SubstStep(s);
      LineRoundTrip(rest, m);
      match MatchRef(s)
      case Some(r) =>
        assert r in FoundHere(s);
        RefLine(s, r, m);
      case None =>
        PlainLine(s, m);
    }
  }

  // ----- What the substitution leaves of a line's shape -----

  lemma RefsOfPlainPrefix(x: string, t: string)
    requires NoDollar(x)
    ensures Refs(x + t) == Refs(t)
  {
    hide MatchRef;
    if x == "" {
      assert x + t == t;
    } else {
      assert (x + t)[1..] == x[1..] + t;
      RefsOfPlainPrefix(x[1..], t);
      NoMatchHere(x + t, {});
    }
  }

  lemma VarIsNoRef(node: string, field: string, rest: string)
    requires IsNode(node) && IsField(field)
    ensures Refs("$" + NodeToVar(node, field) + rest) == Refs(rest)
  {
    hide NodeToVar;
    var v := NodeToVar(node, field);
    VarShape(node, field);
    var t := "$" + v + rest;
    assert t[1] == v[0] && t[1..] == v + rest;
    assert MatchRef(t).None?;
    RefsOfPlainPrefix(v, rest);
  }

  /** After the substitution no reference is left. */
  lemma {:induction false} SubstLeavesNoRef(s: string)
    ensures Refs(Subst(s)) == []
    decreases |s|
  {
    hide NodeToVar, MatchRef, MatchUse;
    if s != "" {
      SubstLeavesNoRef(s[Taken(s)..]);
      match MatchRef(s)
      case Some(r) =>
        MatchRefField(s);
        VarIsNoRef(r.node, r.field, Subst(s[Taken(s)..]));
      case None =>
        AfterSubst(s, {});
        assert ([s[0]] + Subst(s[1..]))[1..] == Subst(s[1..]);
    }
  }

  lemma {:induction false} NoRefAnywhere(t: string, k: nat)
    requires Refs(t) == [] && k < |t|
    ensures MatchRef(t[k..]).None?
  {
    hide MatchRef;
    if k == 0 {
      assert t[0..] == t;
    } else {
      NoRefAnywhere(t[1..], k - 1);
      assert t[1..][k - 1..] == t[k..];
    }
  }

  lemma AssignRestHasRef(v: string, e: string)
    requires AssignRest(v, e).Some?
    ensures |e| > 1 && MatchRef(e[1..]).Some?
  {
    hide SegmentsLen, FieldLen, IsBlank;
    var d := e[1..];
    assert d[1..] == e[2..];
    var n := Run(IsIdChar, e[2..]);
    assert d[1 + n..] == e[2 + n..];
  }

  /** An assignment line contains a reference. */
  lemma AssignHasRef(l: string)
    requires ParseAssign(l).Some?
    ensures Refs(l) != []
  {
    hide IsSpace, AssignRest, Refs, MatchRef;
    var i := Run(IsSpace, l);
    var t := l[i..];
    var v := Run(IsVarChar, t);
    AssignRestHasRef(t[..v], t[v..]);
    assert l[i + v + 1..] == t[v..][1..];
    if Refs(l) == [] {
      NoRefAnywhere(l, i + v + 1);
    }
  }

  lemma {:induction false} SubstKeepsBreaks(s: string)
    requires forall i | 0 <= i < |s| :: !IsBreak(s[i])
    ensures forall i | 0 <= i < |Subst(s)| :: !IsBreak(Subst(s)[i])
    decreases |s|
  {
    hide NodeToVar, MatchRef;
    if s != "" {
      SubstKeepsBreaks(s[Taken(s)..]);
      if MatchRef(s).Some? {
        var r := MatchRef(s).value;
        MatchRefField(s);
        VarShape(r.node, r.field);
      }
    }
  }

  lemma BreakAlone(b: string, m: VarMap)
    requires |b| == 1 && IsBreak(b[0])
    ensures Subst(b) == b && RevertText(b, m) == b
  {
    PlainText(b, m);
  }

  lemma SubstLine(l: string)
    requires IsLine(l)
    ensures IsLine(Subst(l)) && (Terminated(Subst(l)) <==> Terminated(l))
  {
    hide Subst, IsBreak;
    SubstFirst(l);
    if Terminated(l) {
      var a, b := l[..|l| - 1], l[|l| - 1..];
      assert l == a + b;
      SubstAppend(a, b);
      SubstKeepsBreaks(a);
      BreakAlone(b, map[]);
    } else {
      SubstKeepsBreaks(l);
    }
  }

  /** A terminated line stays terminated when uses are put back. */
  lemma RevertTerminated(l: string, m: VarMap)
    requires Terminated(l) && "" !in m
    ensures Terminated(RevertText(l, m))
  {
    hide RevertText, IsBreak;
    var a, b := l[..|l| - 1], l[|l| - 1..];
    assert l == a + b;
    RevertAppend(a, b, m);
    BreakAlone(b, m);
  }

  // ----- Header lines -----

  lemma SpaceRunPlain(x: string, y: string)
    requires DollarOrEmpty(y)
    ensures Run(IsSpace, x + y) == Run(IsSpace, x)
  {
    RunAppend(IsSpace, x, y);
  }

  lemma StartsWithPlain(x: string, y: string, lit: string)
    requires DollarOrEmpty(y) && NoDollar(lit)
    ensures StartsWith(x + y, lit) == StartsWith(x, lit)
  {
    if |lit| <= |x| {
      assert (x + y)[..|lit|] == x[..|lit|];
    } else if y != "" {
      assert (x + y)[|x|] == '$' != lit[|x|];
    }
  }

  /** Whether a line is a comment header is decided before its first dollar sign. */
  lemma {:induction false} HeaderPlain(x: string, y: string)
    requires DollarOrEmpty(y)
    ensures IsHeaderLine(x + y) == IsHeaderLine(x)
  {
    hide IsSpace, StartsWith, NoDollar;
    SpaceRunPlain(x, y);
    var k := Run(IsSpace, x);
    var t := x[k..];
    assert (x + y)[k..] == t + y;
    if t != "" && t[0] == '#' {
      assert (t + y)[1..] == t[1..] + y;
      SpaceRunPlain(t[1..], y);
      var j := 1 + Run(IsSpace, t[1..]);
      assert (t + y)[j..] == t[j..] + y;
      MarksPlain(t[j..], y);
    }
  }

  lemma MarksPlain(u: string, y: string)
    requires DollarOrEmpty(y)
    ensures HasMark(u + y) == HasMark(u)
  {
    hide StartsWith, NoDollar;
    MarksHaveNoDollar();
    StartsWithPlain(u, y, HEADER_MARK_1);
    StartsWithPlain(u, y, HEADER_MARK_2);
    StartsWithPlain(u, y, HEADER_MARK_3);
  }

  lemma MarksHaveNoDollar()
    ensures NoDollar(HEADER_MARK_1) && NoDollar(HEADER_MARK_2) && NoDollar(HEADER_MARK_3)
  {
    assert NoDollar("output in single quotes. ") && NoDollar("Wrapping in additional ");
    assert NoDollar("double quotes");
    assert NoDollar("multi-line content. ") && NoDollar("Engine fix: ");
    assert NoDollar("WO-HARNESS-NODE-") && NoDollar("OUTPUT-BASH-QUOTING-01");
  }

  lemma SubstKeepsHeader(l: string)
    ensures IsHeaderLine(Subst(l)) == IsHeaderLine(l)
  {
    hide IsHeaderLine, Subst, PlainLen;
    var n := PlainLen(l);
    SubstPlainPrefix(l);
    HeaderPlain(l[..n], l[n..]);
    assert l == l[..n] + l[n..];
    HeaderPlain(l[..n], Subst(l[n..]));
  }

  lemma RevertKeepsHeader(l: string, m: VarMap)
    requires IsSweepMap(m)
    ensures IsHeaderLine(RevertText(l, m)) == IsHeaderLine(l)
  {
    hide IsHeaderLine, RevertText, PlainLen, IsSweepMap, IsBreak;
    SweepMapShape(m);
    var n := PlainLen(l);
    var x, y := l[..n], l[n..];
    assert l == x + y;
    RevertAppend(x, y, m);
    PlainText(x, m);
    if y != "" {
      RevertFirst(y, m);
    } else {
      RevertEmpty(m);
    }
    HeaderPlain(x, y);
    HeaderPlain(x, RevertText(y, m));
  }

  lemma RevertEmpty(m: VarMap)
    ensures RevertText("", m) == ""
  {
  }

  // ----- Indentation and blankness, which the block finder looks at -----

  lemma SubstKeepsIndent(l: string)
    ensures IndentOf(Subst(l)) == IndentOf(l) && IsBlank(Subst(l)) == IsBlank(l)
  {
    hide Subst, PlainLen, IsSpace;
    var n := PlainLen(l);
    var x, y := l[..n], l[n..];
    assert l == x + y;
    SubstPlainPrefix(l);
    RunAppend(IsBlankChar, x, y);
    RunAppend(IsBlankChar, x, Subst(y));
    SpaceRunPlain(x, y);
    SpaceRunPlain(x, Subst(y));
    if y != "" {
      SubstFirst(y);
    } else {
      SubstEmpty();
    }
  }
}
