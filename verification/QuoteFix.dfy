/** The two quote-fix scripts: `scripts/wo154-quote-fix-sweep.py` hoists every
    `$node.output[.field]` reference of a bash block into a shell variable, and
    `scripts/wo159-quote-fix-cleanup.py` takes that rewrite back. This module holds the pure
    parts of both: the reference and use scanners, the block rewrites and the block finder. */
module QuoteFix {
  import opened Outcomes
  import opened PyText
  import Lexical

  // ----- Character classes of the two scripts' regular expressions -----

  predicate IsLower(c: char) { 'a' <= c <= 'z' }
  predicate IsUpper(c: char) { 'A' <= c <= 'Z' }
  predicate IsDigit(c: char) { '0' <= c <= '9' }

  /** `[a-z0-9-]` */
  predicate IsIdChar(c: char) { IsLower(c) || IsDigit(c) || c == '-' }

  /** `[A-Z0-9_]` */
  predicate IsVarChar(c: char) { IsUpper(c) || IsDigit(c) || c == '_' }

  /** `[a-zA-Z_]` */
  predicate IsFieldStart(c: char) { IsLower(c) || IsUpper(c) || c == '_' }

  /** `\w`, on ASCII */
  predicate IsWord(c: char) { IsFieldStart(c) || IsDigit(c) }

  /** `[\w.]` */
  predicate IsWordDot(c: char) { IsWord(c) || c == '.' }

  predicate IsBlank(l: string) {
    Run(IsSpace, l) == |l|
  }

  // ----- References: `\$([a-z][a-z0-9-]*)\.output(\.[a-zA-Z_][\w.]*)?` -----

  const OUTPUT := ".output"

  /** One match of the reference pattern; `field` is empty when the optional group is absent. */
  datatype Ref = Ref(node: string, field: string) {
    function Text(): string { "$" + node + OUTPUT + field }
  }

  predicate IsNode(n: string) {
    n != "" && IsLower(n[0]) && forall i | 0 <= i < |n| :: IsIdChar(n[i])
  }

  function FieldLen(s: string): (n: nat)
    ensures n <= |s|
  {
    if |s| >= 2 && s[0] == '.' && IsFieldStart(s[1]) then 2 + Run(IsWordDot, s[2..]) else 0
  }

  /** A reference to `node` whose remaining text, after the node id, is `rest`. */
  function MatchTail(node: string, rest: string): (m: Option<Ref>)
    ensures m.Some? ==> m.value.node == node && StartsWith("$" + node + rest, m.value.Text())
  {
    if !StartsWith(rest, OUTPUT) then None
    else
      var tail := rest[|OUTPUT|..];
      var f := FieldLen(tail);
      assert "$" + node + rest == "$" + node + OUTPUT + tail[..f] + tail[f..];
      Some(Ref(node, tail[..f]))
  }

  /** The reference that starts at the head of `s`, if one does. */
  function MatchRef(s: string): (m: Option<Ref>)
    ensures m.Some? ==> IsNode(m.value.node) && StartsWith(s, m.value.Text()) && s[0] == '$'
  {
    if |s| < 2 || s[0] != '$' || !IsLower(s[1]) then None
    else
      var n := Run(IsIdChar, s[1..]);
      assert s == "$" + s[1..1 + n] + s[1 + n..];
      assert n > 0 && s[1..1 + n][0] == s[1];
      MatchTail(s[1..1 + n], s[1 + n..])
  }

  /** How much of `s` one step of the left-to-right scan takes: a reference, or one character. */
  function Taken(s: string): (n: nat)
    requires s != ""
    ensures 1 <= n <= |s|
  {
    match MatchRef(s)
    case Some(r) => |r.Text()|
    case None => 1
  }

  function FoundHere(s: string): seq<Ref> {
    match MatchRef(s)
    case Some(r) => [r]
    case None => []
  }

  /** `OUTPUT_REF_RE.findall(s)` */
  function Refs(s: string): seq<Ref> {
    if s == "" then [] else FoundHere(s) + Refs(s[Taken(s)..])
  }

  function UpperChar(c: char): char {
    if IsLower(c) then (c as int - 32) as char else c
  }

  function Upper(s: string): (u: string)
    ensures |u| == |s| && forall i | 0 <= i < |s| :: u[i] == UpperChar(s[i])
  {
    seq(|s|, i requires 0 <= i < |s| => UpperChar(s[i]))
  }

  function Replace(s: string, from: char, to: char): (u: string)
    ensures |u| == |s| && forall i | 0 <= i < |s| :: u[i] == if s[i] == from then to else s[i]
  {
    seq(|s|, i requires 0 <= i < |s| => if s[i] == from then to else s[i])
  }

  /** `node_to_var`: NODE_ID_OUTPUT, or NODE_ID_OUTPUT_X_Y for the field `.x.y`. */
  function NodeToVar(node: string, field: string): string {
    Replace(Upper(node), '-', '_') + "_OUTPUT" + Upper(Replace(field, '.', '_'))
  }

  /** What replaces the part of `s` that one step of the scan takes. */
  function Put(s: string): string
    requires s != ""
  {
    match MatchRef(s)
    case Some(r) => "$" + NodeToVar(r.node, r.field)
    case None => [s[0]]
  }

  /** `OUTPUT_REF_RE.sub(replace, s)` */
  function Subst(s: string): string {
    if s == "" then "" else Put(s) + Subst(s[Taken(s)..])
  }

  // ----- The sweep of one block -----

  // The comment lines are written with the marks the cleanup looks for in them.
  const HEADER_MARK_1 := "2026-05-16 quote-fix:"
  const HEADER_MARK_2 := "output in single quotes. " + "Wrapping in additional " + "double quotes"
  const HEADER_MARK_3 :=
    "multi-line content. " + "Engine fix: " + "WO-HARNESS-NODE-" + "OUTPUT-BASH-QUOTING-01"

  const COMMENT_LINES := [
    "# " + HEADER_MARK_1 + (" substituteNodeOutputRefs" + "(escapedForBash=true) wraps"),
    "# " + HEADER_MARK_2 + " mis-tokenizes",
    "# " + HEADER_MARK_3 + "."
  ]

  const PATCH_MARK := "2026-05-16 quote-fix"

  predicate AlreadyPatched(body: string) {
    Lexical.Contains(body, PATCH_MARK)
  }

  /** The distinct elements of `s`, in order of first appearance. */
  function Distinct<T(==,!new)>(s: seq<T>): (d: seq<T>)
    ensures forall x :: x in d <==> x in s
    ensures forall i, j | 0 <= i < j < |d| :: d[i] != d[j]
  {
    if s == [] then []
    else
      var d := Distinct(s[..|s| - 1]);
      if s[|s| - 1] in d then d else d + [s[|s| - 1]]
  }

  /** `VAR=$node.output`: the field is not assigned, even when the variable carries it. */
  function AssignText(r: Ref): string {
    NodeToVar(r.node, r.field) + "=$" + r.node + OUTPUT
  }

  function AssignTexts(rs: seq<Ref>): (ts: seq<string>)
    ensures |ts| == |rs| && forall i | 0 <= i < |rs| :: ts[i] == AssignText(rs[i])
  {
    seq(|rs|, i requires 0 <= i < |rs| => AssignText(rs[i]))
  }

  /** The header lines put into a block: the comment, then the distinct assignments. */
  function HeaderTexts(rs: seq<Ref>): seq<string> {
    COMMENT_LINES + Distinct(AssignTexts(Distinct(rs)))
  }

  function Indented(indent: string, ts: seq<string>): (ls: seq<string>)
    ensures |ls| == |ts| && forall i | 0 <= i < |ts| :: ls[i] == indent + ts[i] + "\n"
  {
    seq(|ts|, i requires 0 <= i < |ts| => indent + ts[i] + "\n")
  }

  /** `^\s*set\s+-[a-z]+` */
  predicate IsSetLine(l: string) {
    var t := l[Run(IsSpace, l)..];
    StartsWith(t, "set") &&
    var k := Run(IsSpace, t[3..]);
    k > 0 && |t| > 3 + k + 1 && t[3 + k] == '-' && IsLower(t[3 + k + 1])
  }

  function InsertAt(lines: seq<string>): (n: nat)
    ensures n <= |lines| && n <= 1
  {
    if lines != [] && IsSetLine(lines[0]) then 1 else 0
  }

  /** `transform_bash_block`, on a block that holds at least one reference. */
  function SweepBody(body: string, indent: string): string {
    if Refs(body) == [] then body
    else
      var lines := SplitLines(Subst(body));
      var at := InsertAt(lines);
      Join(lines[..at]) + Join(Indented(indent, HeaderTexts(Refs(body)))) + Join(lines[at..])
  }

  /** What `process_file` of the sweep does with one block. */
  function SweepBlock(body: string, indent: string): string {
    if AlreadyPatched(body) then body else SweepBody(body, indent)
  }

  // ----- The cleanup of one block -----

  predicate HasMark(u: string) {
    StartsWith(u, HEADER_MARK_1) || StartsWith(u, HEADER_MARK_2) || StartsWith(u, HEADER_MARK_3)
  }

  /** `HEADER_LINE_RES`: `^\s*#\s*` followed by one of the three marks */
  predicate IsHeaderLine(l: string) {
    var t := l[Run(IsSpace, l)..];
    t != "" && t[0] == '#' && HasMark(t[1 + Run(IsSpace, t[1..])..])
  }

  /** `(?:\.[a-zA-Z_][\w]*)*` */
  function SegmentsLen(s: string): (n: nat)
    ensures n <= |s|
  {
    if |s| >= 2 && s[0] == '.' && IsFieldStart(s[1]) then
      var k := 2 + Run(IsWord, s[2..]);
      k + SegmentsLen(s[k..])
    else 0
  }

  datatype Assign = Assign(variable: string, node: string, field: string) {
    /** The name carries the sweep's NODE_ID_OUTPUT[_FIELD] convention. */
    predicate IsSweeps() { variable == NodeToVar(node, field) }

    function Target(): string { "$" + node + OUTPUT + field }
  }

  /** What follows the variable name of an assignment line. */
  function AssignRest(variable: string, e: string): Option<Assign> {
    if |e| < 3 || e[0] != '=' || e[1] != '$' || !IsLower(e[2]) then None
    else
      var n := Run(IsIdChar, e[2..]);
      var rest := e[2 + n..];
      if !StartsWith(rest, OUTPUT) then None
      else
        var tail := rest[|OUTPUT|..];
        var f := SegmentsLen(tail);
        if IsBlank(tail[f..]) then Some(Assign(variable, e[2..2 + n], tail[..f])) else None
  }

  /** `ASSIGN_RE`: `^\s*([A-Z][A-Z0-9_]*)=\$([a-z][a-z0-9-]*)\.output((?:\.[a-zA-Z_]\w*)*)\s*$` */
  function ParseAssign(l: string): Option<Assign> {
    var t := l[Run(IsSpace, l)..];
    if t == "" || !IsUpper(t[0]) then None
    else var v := Run(IsVarChar, t); AssignRest(t[..v], t[v..])
  }

  /** An assignment whose name carries the sweep's convention; other assignments are left alone. */
  function SweepAssign(l: string): Option<Assign> {
    match ParseAssign(l)
    case Some(a) => if a.IsSweeps() then Some(a) else None
    case None => None
  }

  predicate IsDropped(l: string) {
    IsHeaderLine(l) || SweepAssign(l).Some?
  }

  type VarMap = map<string, string>

  function AddAssign(m: VarMap, l: string): VarMap {
    match SweepAssign(l)
    case Some(a) => m[a.variable := a.Target()]
    case None => m
  }

  /** Pass 1 of `revert_block`: the variables the block's own assignment lines define. */
  function VarMapOf(lines: seq<string>): VarMap {
    if lines == [] then map[] else AddAssign(VarMapOf(lines[..|lines| - 1]), lines[|lines| - 1])
  }

  /** `VAR}` of one of `vars` at the head of `t`, which follows `${`. */
  function BraceUse(t: string, vars: set<string>): (u: Option<(string, nat)>)
    ensures u.Some? ==> u.value.1 <= |t| + 2 && u.value.0 in vars && u.value.1 == |u.value.0| + 3
  {
    var n := Run(IsVarChar, t);
    if n < |t| && t[n] == '}' && t[..n] in vars then Some((t[..n], n + 3)) else None
  }

  /** `VAR` of one of `vars` at the head of `t`, which follows `$`. */
  function BareUse(t: string, vars: set<string>): (u: Option<(string, nat)>)
    ensures u.Some? ==> u.value.1 <= |t| + 1 && u.value.0 in vars && u.value.1 == |u.value.0| + 1
    ensures u.Some? && u.value.0 != "" ==> t != "" && t[0] == u.value.0[0]
  {
    var n := Run(IsVarChar, t);
    if t[..n] in vars then Some((t[..n], n + 1)) else None
  }

  /** A use `$VAR` or `${VAR}` of one of `vars` at the head of `s`: the name and the use's length.
      Names are made of `[A-Z0-9_]`, so under the lookahead `(?![A-Z0-9_])`, or before the closing
      brace, only the maximal run of such characters can be the name matched. */
  function MatchUse(s: string, vars: set<string>): (u: Option<(string, nat)>)
    ensures u.Some? ==> 0 < u.value.1 <= |s| && u.value.0 in vars
  {
    if |s| < 2 || s[0] != '$' then None
    else if s[1] == '{' then BraceUse(s[2..], vars)
    else BareUse(s[1..], vars)
  }

  function UseTaken(s: string, m: VarMap): (n: nat)
    requires s != ""
    ensures 1 <= n <= |s|
  {
    match MatchUse(s, m.Keys)
    case Some(u) => u.1
    case None => 1
  }

  function UsePut(s: string, m: VarMap): string
    requires s != ""
  {
    match MatchUse(s, m.Keys)
    case Some(u) => m[u.0]
    case None => [s[0]]
  }

  /** `sub_re.sub(repl, s)` */
  function RevertText(s: string, m: VarMap): string {
    if s == "" then "" else UsePut(s, m) + RevertText(s[UseTaken(s, m)..], m)
  }

  function RevertLines(lines: seq<string>, m: VarMap): seq<string> {
    if lines == [] then []
    else
      var l := lines[|lines| - 1];
      RevertLines(lines[..|lines| - 1], m) + (if IsDropped(l) then [] else [RevertText(l, m)])
  }

  /** `revert_block` */
  function CleanBlock(lines: seq<string>): seq<string> {
    RevertLines(lines, VarMapOf(lines))
  }

  // ----- Finding bash blocks -----

  /** `^(\s*)bash:\s*\|`: the length of the key's indentation */
  function BashKey(l: string): Option<nat> {
    var k := Run(IsSpace, l);
    var t := l[k..];
    if !StartsWith(t, "bash:") then None
    else
      var u := t[5..];
      var p := Run(IsSpace, u);
      if p < |u| && u[p] == '|' then Some(k) else None
  }

  function IndentOf(l: string): nat {
    Run(IsBlankChar, l)
  }

  /** The block body at the head of `lines`: how many lines it takes, and the indentation its first
      non-blank line set. A first line indented no deeper than the key ends the scan. */
  function BodyScan(lines: seq<string>, keyIndent: nat, bodyIndent: Option<nat>):
    (r: (nat, Option<nat>))
    ensures r.0 <= |lines|
    ensures bodyIndent.Some? ==> r.1 == bodyIndent
  {
    if lines == [] then (0, bodyIndent)
    else
      var ind := IndentOf(lines[0]);
      if IsBlank(lines[0]) then
        var r := BodyScan(lines[1..], keyIndent, bodyIndent); (r.0 + 1, r.1)
      else if bodyIndent.None? then
        if ind <= keyIndent then (0, Some(ind))
        else var r := BodyScan(lines[1..], keyIndent, Some(ind)); (r.0 + 1, r.1)
      else if ind < bodyIndent.value then (0, bodyIndent)
      else var r := BodyScan(lines[1..], keyIndent, bodyIndent); (r.0 + 1, r.1)
  }

  /** `lines[first..last]` is a block body whose indentation is `indent`. */
  datatype Block = Block(first: nat, last: nat, indent: nat)

  /** `find_bash_blocks`, from line `i` on. */
  function Blocks(lines: seq<string>, i: nat): seq<Block>
    requires i <= |lines|
    decreases |lines| - i
  {
    if i == |lines| then []
    else match BashKey(lines[i])
      case None => Blocks(lines, i + 1)
      case Some(k) =>
        var r := BodyScan(lines[i + 1..], k, None);
        (if r.1.Some? && r.0 > 0 then [Block(i + 1, i + 1 + r.0, r.1.value)] else [])
        + Blocks(lines, i + 1 + r.0)
  }

  function Spaces(n: nat): (s: string)
    ensures |s| == n && forall i | 0 <= i < n :: s[i] == ' '
  {
    seq(n, _ => ' ')
  }
}
