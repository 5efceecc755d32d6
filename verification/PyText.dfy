/** The fragment of Python's `str` and `re` behaviour the two quote-fix scripts rely on:
    maximal runs of a character class, line splitting with kept line ends, and joining. */
module PyText {
  import opened Outcomes

  /** `str.splitlines` boundaries. '\r' is absent: `Path.read_text` already turned it into '\n'. */
  predicate IsBreak(c: char) {
    || c == '\n' || c == '\U{0B}' || c == '\U{0C}'
    || '\U{1C}' <= c <= '\U{1E}'
    || c == '\U{85}' || c == '\U{2028}' || c == '\U{2029}'
  }

  predicate NotBreak(c: char) {
    !IsBreak(c)
  }

  /** `\s` and `str.isspace`. */
  predicate IsSpace(c: char) {
    || '\U{09}' <= c <= '\U{0D}' || '\U{1C}' <= c <= '\U{20}'
    || c == '\U{85}' || c == '\U{A0}' || c == '\U{1680}' || '\U{2000}' <= c <= '\U{200A}'
    || c == '\U{2028}' || c == '\U{2029}' || c == '\U{202F}' || c == '\U{205F}' || c == '\U{3000}'
  }

  predicate IsBlankChar(c: char) {
    c == ' '
  }

  /** Length of the longest prefix of `s` all of whose characters satisfy `p`. */
  function Run(p: char -> bool, s: string): (n: nat)
    ensures n <= |s|
    ensures forall i | 0 <= i < n :: p(s[i])
    ensures n < |s| ==> !p(s[n])
  {
    if s == "" || !p(s[0]) then 0 else 1 + Run(p, s[1..])
  }

  predicate StartsWith(s: string, prefix: string) {
    prefix <= s
  }

  function LineLen(s: string): (n: nat)
    requires s != ""
    ensures 1 <= n <= |s|
  {
    var k := Run(NotBreak, s);
    if k < |s| then k + 1 else k
  }

  /** `s.splitlines(keepends=True)`. */
  function SplitLines(s: string): (ls: seq<string>) {
    if s == "" then [] else [s[..LineLen(s)]] + SplitLines(s[LineLen(s)..])
  }

  /** `''.join(ls)`. */
  function Join(ls: seq<string>): string {
    if ls == [] then "" else ls[0] + Join(ls[1..])
  }

  /** One line: nonempty, and no line break before its last character. */
  predicate IsLine(l: string) {
    l != "" && forall i | 0 <= i < |l| - 1 :: !IsBreak(l[i])
  }

  predicate Terminated(l: string) {
    l != "" && IsBreak(l[|l| - 1])
  }

  /** What `SplitLines` produces: lines, all terminated except possibly the last. */
  predicate WellSplit(ls: seq<string>) {
    && (forall i | 0 <= i < |ls| :: IsLine(ls[i]))
    && (forall i | 0 <= i < |ls| - 1 :: Terminated(ls[i]))
  }

  predicate AllTerminated(ls: seq<string>) {
    forall i | 0 <= i < |ls| :: IsLine(ls[i]) && Terminated(ls[i])
  }

  lemma RunIs(p: char -> bool, s: string, n: nat)
    requires n <= |s| && (forall i | 0 <= i < n :: p(s[i])) && (n < |s| ==> !p(s[n]))
    ensures Run(p, s) == n
  {
    if n > 0 {
      RunIs(p, s[1..], n - 1);
    }
  }

  lemma RunAtLeast(p: char -> bool, s: string, n: nat)
    requires n <= |s| && forall i | 0 <= i < n :: p(s[i])
    ensures Run(p, s) >= n
  {
    if n > 0 {
      RunAtLeast(p, s[1..], n - 1);
    }
  }

  /** A run that ends inside `a` is not affected by what follows `a`. */
  lemma RunAppend(p: char -> bool, a: string, b: string)
    requires Run(p, a) < |a| || (b != "" ==> !p(b[0]))
    ensures Run(p, a + b) == Run(p, a)
  {
    RunIs(p, a + b, Run(p, a));
  }

  lemma JoinAppend(a: seq<string>, b: seq<string>)
    ensures Join(a + b) == Join(a) + Join(b)
  {
    if a == [] {
      assert a + b == b;
    } else {
      assert (a + b)[1..] == a[1..] + b;
      JoinAppend(a[1..], b);
    }
  }

  lemma SplitLinesShape(s: string)
    ensures WellSplit(SplitLines(s)) && Join(SplitLines(s)) == s
    ensures s != "" ==> SplitLines(s) != []
  {
    if s != "" {
      var n := LineLen(s);
      SplitLinesShape(s[n..]);
      assert s == s[..n] + s[n..];
      var rest := SplitLines(s[n..]);
      assert n < |s| ==> IsBreak(s[..n][n - 1]);
      forall i | 0 <= i < |SplitLines(s)| - 1
        ensures Terminated(SplitLines(s)[i])
      {
        if i > 0 {
          assert SplitLines(s)[i] == rest[i - 1];
        }
      }
    }
  }

  lemma LineLenOf(l: string, rest: string)
    requires IsLine(l) && (rest != "" ==> Terminated(l))
    ensures LineLen(l + rest) == |l|
  {
    if IsBreak(l[|l| - 1]) {
      RunIs(NotBreak, l + rest, |l| - 1);
    } else {
      assert rest == "" && l + rest == l;
      RunIs(NotBreak, l, |l|);
    }
  }

  /** Splitting undoes joining on anything that looks like a split. */
  lemma {:induction false} SplitJoin(ls: seq<string>)
    requires WellSplit(ls)
    ensures SplitLines(Join(ls)) == ls
  {
    if ls != [] {
      var l, rest := ls[0], Join(ls[1..]);
      SplitJoin(ls[1..]);
      if |ls| == 1 {
        assert rest == "";
      }
      LineLenOf(l, rest);
      assert (l + rest)[..|l|] == l && (l + rest)[|l|..] == rest;
    }
  }

  lemma WellSplitAppend(a: seq<string>, b: seq<string>)
    requires WellSplit(a) && WellSplit(b) && (b == [] || AllTerminated(a))
    ensures WellSplit(a + b)
  {
  }
}
