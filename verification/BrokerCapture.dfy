/** The byte-bounded capture of `scripts/overseer-reviewer-broker.ts`: two streams of a child process
    share one budget, and the cut character at the end of a stream is trimmed away. */
module BrokerCapture {
  import opened Utf8

  // ----- Trimming a cut character -----

  /** How many octets at the end of `b` are continuations, counting `most` of them. */
  function Conts(b: Bytes, most: nat): (n: nat)
    ensures n <= |b| && n <= most
    ensures forall i | |b| - n <= i < |b| :: IsCont(b[i])
  {
    if most == 0 || b == [] || !IsCont(b[|b| - 1]) then 0 else 1 + Conts(b[..|b| - 1], most - 1)
  }

  /** `trimPartialUtf8` */
  function Trim(b: Bytes): Bytes {
    var start := |b| - 1 - Conts(b, 3);
    if start < 0 then b
    else if Width(b[start]) > Conts(b, 3) + 1 then b[..start]
    else b
  }

  method TrimPartialUtf8(bytes: Bytes) returns (r: Bytes)
    ensures r == Trim(bytes)
  {
    var start, continuation := |bytes| - 1, 0;
    assert bytes[..start + 1] == bytes;
    while start >= 0 && continuation < 3 && IsCont(bytes[start])
      invariant -1 <= start < |bytes| && start == |bytes| - 1 - continuation && 0 <= continuation <= 3
      invariant Conts(bytes, 3) == continuation + Conts(bytes[..start + 1], 3 - continuation)
    {
      assert bytes[..start + 1][..start] == bytes[..start];
      start := start - 1;
      continuation := continuation + 1;
    }
    if start < 0 {
      return bytes;
    }
    var lead := bytes[start];
    var width := if lead >= 0xF0 then 4 else if lead >= 0xE0 then 3 else if lead >= 0xC0 then 2 else 1;
    r := if width > continuation + 1 then bytes[..start] else bytes;
  }

  /** A leading octet followed by continuations only. */
  predicate IsTail(t: Bytes) {
    t != [] && !IsCont(t[0]) && forall i | 0 < i < |t| :: IsCont(t[i])
  }

  /** A leading octet with fewer continuations than it announces. */
  predicate Incomplete(t: Bytes) {
    IsTail(t) && |t| < Width(t[0])
  }

  lemma ContsOfTail(q: Bytes, t: Bytes, most: nat)
    requires IsTail(t) && |t| - 1 <= most
    ensures Conts(q + t, most) == |t| - 1
  {
    var b := q + t;
    assert b[|b| - 1] == t[|t| - 1];
    if |t| > 1 {
      var t' := t[..|t| - 1];
      assert b[..|b| - 1] == q + t';
      ContsOfTail(q, t', most - 1);
    }
  }

  lemma TrimTail(q: Bytes, t: Bytes)
    requires IsTail(t) && |t| <= 4
    ensures Trim(q + t) == if Incomplete(t) then q else q + t
  {
    hide Conts;
    ContsOfTail(q, t, 3);
    assert (q + t)[|q|] == t[0] && (q + t)[..|q|] == q;
  }

  /** At most three octets go, and what goes is an incomplete character. */
  lemma {:induction false} TrimLoses(b: Bytes)
    ensures var r := Trim(b);
            r == b || (r < b && |b| - |r| <= 3 && Incomplete(b[|r|..]))
  {
    hide Conts;
    var n := Conts(b, 3);
    if Trim(b) != b {
      assert Trim(b) == b[..|b| - 1 - n];
    }
  }

  /** Octets that stop inside a character: the whole characters before it, and an incomplete rest. */
  lemma {:induction false} CutSplits(cs: seq<Scalar>, n: nat)
    requires n <= |EncodeAll(cs)|
    ensures var p := EncodeAll(cs[..Whole(cs, n)]);
            p <= EncodeAll(cs)[..n] && (|p| == n || Incomplete(EncodeAll(cs)[..n][|p|..]))
  {
    hide Encode;
    if cs != [] {
      var c, rest := Encode(cs[0]), EncodeAll(cs[1..]);
      EncodeShape(cs[0]);
      if |c| > n {
        assert EncodeAll(cs)[..n] == c[..n];
      } else {
        CutSplits(cs[1..], n - |c|);
        var m := Whole(cs, n);
        assert cs[..m][1..] == cs[1..][..m - 1];
        var p' := EncodeAll(cs[1..][..m - 1]);
        assert EncodeAll(cs[..m]) == c + p';
        assert EncodeAll(cs)[..n] == c + rest[..n - |c|];
        assert EncodeAll(cs)[..n][|c + p'|..] == rest[..n - |c|][|p'|..];
      }
    }
  }

  lemma WholeIsKept(cs: seq<Scalar>)
    ensures Trim(EncodeAll(cs)) == EncodeAll(cs)
  {
    hide Encode, Trim;
    if cs == [] {
      assert Trim([]) == [] by { EmptyTrim(); }
    } else {
      var q, c := cs[..|cs| - 1], cs[|cs| - 1];
      assert cs == q + [c] && EncodeAll([c]) == Encode(c);
      EncodeAllConcat(q, [c]);
      EncodeShape(c);
      TrimTail(EncodeAll(q), Encode(c));
    }
  }

  lemma EmptyTrim()
    ensures Trim([]) == []
  {
  }

  /** Octets cut anywhere in UTF-8 text are trimmed to the whole characters among them: the longest run
      of characters that fits. */
  lemma {:induction false} TrimKeepsWholeCharacters(cs: seq<Scalar>, n: nat)
    requires n <= |EncodeAll(cs)|
    ensures Trim(EncodeAll(cs)[..n]) == EncodeAll(cs[..Whole(cs, n)])
    ensures var m := Whole(cs, n);
            |EncodeAll(cs[..m])| <= n && (m < |cs| ==> |EncodeAll(cs[..m + 1])| > n)
  {
    hide Trim, EncodeAll, Whole;
    WholeIsLongest(cs, n);
    CutSplits(cs, n);
    var b, p := EncodeAll(cs)[..n], EncodeAll(cs[..Whole(cs, n)]);
    if |p| == n {
      WholeIsKept(cs[..Whole(cs, n)]);
      assert b == p;
    } else {
      assert b == p + b[|p|..];
      TrimTail(p, b[|p|..]);
    }
  }

  /** For octets that need not come from UTF-8 text: the result is valid exactly if the octets were
      valid up to one incomplete character at the end. */
  lemma {:induction false} TrimValidIff(b: Bytes)
    ensures ValidUtf8(Trim(b))
       <==> exists cut | 0 <= cut <= |b| :: ValidUtf8(b[..cut]) && (cut == |b| || Incomplete(b[cut..]))
  {
    hide Trim, ValidUtf8;
    TrimLoses(b);
    var k := |Trim(b)|;
    assert Trim(b) == b[..k] && (k == |b| || Incomplete(b[k..]));
    forall cut | 0 <= cut <= |b| && ValidUtf8(b[..cut]) && (cut == |b| || Incomplete(b[cut..]))
      ensures Trim(b) == b[..cut]
    {
      if cut == |b| {
        ValidIffEncoded(b[..cut]);
        var cs :| EncodeAll(cs) == b[..cut];
        WholeIsKept(cs);
        assert b[..cut] == b;
      } else {
        assert b == b[..cut] + b[cut..];
        TrimTail(b[..cut], b[cut..]);
      }
    }
  }

  /** So the trim alone does not keep replacement characters away: a stray continuation survives it. */
  lemma StrayContinuationStays()
    ensures Trim([0x80]) == [0x80] && !ValidUtf8(Trim([0x80]))
  {
    assert Conts([0x80][..0], 2) == 0;
    assert Conts([0x80], 3) == 1;
  }

  // ----- The shared budget -----

  datatype Stream = Stdout | Stderr

  /** One chunk read from one of the two streams. */
  datatype Chunk = Chunk(from: Stream, value: Bytes)

  datatype State = State(stdout: seq<Bytes>, stderr: seq<Bytes>, retainedBytes: nat, outputTruncated: bool, kills: nat)

  const EMPTY := State([], [], 0, false, 0)

  function Kept(s: State, from: Stream): seq<Bytes> {
    if from == Stdout then s.stdout else s.stderr
  }

  function Keep(s: State, from: Stream, value: Bytes): State {
    if from == Stdout then s.(stdout := s.stdout + [value]) else s.(stderr := s.stderr + [value])
  }

  /** What `consume` does with one chunk. */
  function Step(limit: nat, s: State, c: Chunk): State
    requires s.retainedBytes <= limit
  {
    var remaining := limit - s.retainedBytes;
    if |c.value| > remaining then
      (if remaining > 0 then Keep(s, c.from, c.value[..remaining]) else s)
        .(retainedBytes := limit, outputTruncated := true, kills := s.kills + if s.outputTruncated then 0 else 1)
    else Keep(s, c.from, c.value).(retainedBytes := s.retainedBytes + |c.value|)
  }

  /** The state after the chunks of both streams, in the order they were read. */
  function Run(limit: nat, chunks: seq<Chunk>): (s: State)
    ensures s.retainedBytes <= limit
  {
    if chunks == [] then EMPTY else Step(limit, Run(limit, chunks[..|chunks| - 1]), chunks[|chunks| - 1])
  }

  function Flat(values: seq<Bytes>): Bytes {
    if values == [] then [] else Flat(values[..|values| - 1]) + values[|values| - 1]
  }

  /** Everything one stream produced. */
  function Produced(chunks: seq<Chunk>, from: Stream): Bytes {
    if chunks == [] then []
    else
      var c := chunks[|chunks| - 1];
      Produced(chunks[..|chunks| - 1], from) + if c.from == from then c.value else []
  }

  function Total(chunks: seq<Chunk>): nat {
    |Produced(chunks, Stdout)| + |Produced(chunks, Stderr)|
  }

  function Min(a: nat, b: nat): nat { if a < b then a else b }

  /** What is retained of one stream. */
  function Retained(limit: nat, chunks: seq<Chunk>, from: Stream): Bytes {
    Flat(Kept(Run(limit, chunks), from))
  }

  lemma FlatPush(values: seq<Bytes>, v: Bytes)
    ensures Flat(values + [v]) == Flat(values) + v
  {
    assert (values + [v])[..|values|] == values;
  }

  /** What fits of a chunk. */
  function Fits(limit: nat, s: State, c: Chunk): Bytes
    requires s.retainedBytes <= limit
  {
    c.value[..Min(|c.value|, limit - s.retainedBytes)]
  }

  lemma StepRetains(limit: nat, s: State, c: Chunk, f: Stream)
    requires s.retainedBytes <= limit
    ensures var t := Step(limit, s, c);
            && Flat(Kept(t, f)) == Flat(Kept(s, f)) + (if f == c.from then Fits(limit, s, c) else [])
            && t.retainedBytes == s.retainedBytes + |Fits(limit, s, c)|
            && (t.outputTruncated <==> s.outputTruncated || |c.value| > |Fits(limit, s, c)|)
  {
    hide Flat;
    FlatPush(Kept(s, c.from), Fits(limit, s, c));
    assert Flat(Kept(s, f)) + [] == Flat(Kept(s, f));
    assert |c.value| <= limit - s.retainedBytes ==> Fits(limit, s, c) == c.value;
    assert |c.value| > limit - s.retainedBytes == 0 ==> Fits(limit, s, c) == [];
  }

  /** What holds of the capture once `chunks` were read. */
  ghost predicate Holds(limit: nat, chunks: seq<Chunk>) {
    var s := Run(limit, chunks);
    && s.retainedBytes == Min(limit, Total(chunks))
    && |Retained(limit, chunks, Stdout)| + |Retained(limit, chunks, Stderr)| == s.retainedBytes
    && (s.outputTruncated <==> Total(chunks) > limit)
    && s.kills == (if s.outputTruncated then 1 else 0)
  }

  /** Each stream keeps a start of what it produced, and all of it unless the budget was crossed. */
  ghost predicate Faithful(limit: nat, chunks: seq<Chunk>, f: Stream) {
    && Retained(limit, chunks, f) <= Produced(chunks, f)
    && (Total(chunks) <= limit ==> Retained(limit, chunks, f) == Produced(chunks, f))
  }

  /** The state of the capture, for any interleaving of the two streams' chunks. */
  lemma {:induction false} CaptureHolds(limit: nat, chunks: seq<Chunk>)
    ensures Holds(limit, chunks) && Faithful(limit, chunks, Stdout) && Faithful(limit, chunks, Stderr)
  {
    hide Step;
    if chunks != [] {
      var init, c := chunks[..|chunks| - 1], chunks[|chunks| - 1];
      CaptureHolds(limit, init);
      assert chunks == init + [c];
      CaptureStep(limit, init, c);
      FaithfulStep(limit, init, c, Stdout);
      FaithfulStep(limit, init, c, Stderr);
    }
  }

  lemma ReadNext(limit: nat, init: seq<Chunk>, c: Chunk, f: Stream)
    ensures Run(limit, init + [c]) == Step(limit, Run(limit, init), c)
    ensures Produced(init + [c], f) == Produced(init, f) + if c.from == f then c.value else []
    ensures Total(init + [c]) == Total(init) + |c.value|
  {
    hide Step;
    assert (init + [c])[..|init|] == init;
  }

  lemma CaptureStep(limit: nat, init: seq<Chunk>, c: Chunk)
    requires Holds(limit, init)
    ensures Holds(limit, init + [c])
  {
    hide Flat, Run, Total;
    ReadNext(limit, init, c, Stdout);
    var s := Run(limit, init);
    StepRetains(limit, s, c, Stdout);
    StepRetains(limit, s, c, Stderr);
  }

  lemma FaithfulStep(limit: nat, init: seq<Chunk>, c: Chunk, f: Stream)
    requires Holds(limit, init) && Faithful(limit, init, f)
    ensures Faithful(limit, init + [c], f)
  {
    hide Flat, Run, Total, Produced, Step;
    ReadNext(limit, init, c, f);
    var s := Run(limit, init);
    StepRetains(limit, s, c, f);
    assert Fits(limit, s, c) <= c.value;
    assert Total(init) > limit ==> Fits(limit, s, c) == [];
    assert Total(init) <= limit && Total(init) + |c.value| <= limit ==> Fits(limit, s, c) == c.value;
  }

  /** The end result for a stream that is, so far as it was read, the start of UTF-8 text: the longest
      run of whole characters within its retained bytes; and both streams stay within the limit. */
  lemma {:induction false} CapturedText(limit: nat, chunks: seq<Chunk>, from: Stream, cs: seq<Scalar>)
    requires Produced(chunks, from) <= EncodeAll(cs)
    ensures Trim(Retained(limit, chunks, from)) == EncodeAll(cs[..Whole(cs, |Retained(limit, chunks, from)|)])
    ensures |Trim(Retained(limit, chunks, Stdout))| + |Trim(Retained(limit, chunks, Stderr))| <= limit
  {
    hide Trim, Retained, EncodeAll, Produced, Whole, Run;
    CaptureHolds(limit, chunks);
    var r := Retained(limit, chunks, from);
    assert r == EncodeAll(cs)[..|r|];
    TrimKeepsWholeCharacters(cs, |r|);
    TrimLoses(Retained(limit, chunks, Stdout));
    TrimLoses(Retained(limit, chunks, Stderr));
  }

  /** The variables `consume` closes over. */
  class Capture {
    const limit: nat
    var stdout: seq<Bytes>
    var stderr: seq<Bytes>
    var retainedBytes: nat
    var outputTruncated: bool
    var kills: nat
    ghost var chunks: seq<Chunk>

    ghost predicate Valid()
      reads this
    {
      State(stdout, stderr, retainedBytes, outputTruncated, kills) == Run(limit, chunks)
    }

    constructor (limit: nat)
      ensures Valid() && this.limit == limit && chunks == []
    {
      this.limit := limit;
      stdout, stderr, retainedBytes, outputTruncated, kills := [], [], 0, false, 0;
      chunks := [];
    }

    method Push(from: Stream, value: Bytes)
      modifies this`stdout, this`stderr
      ensures stdout == if from == Stdout then old(stdout) + [value] else old(stdout)
      ensures stderr == if from == Stderr then old(stderr) + [value] else old(stderr)
    {
      if from == Stdout {
        stdout := stdout + [value];
      } else {
        stderr := stderr + [value];
      }
    }

    /** One iteration of `consume`; no other stream's iteration runs in its middle. */
    method Consume(from: Stream, value: Bytes)
      requires Valid()
      modifies this
      ensures Valid() && chunks == old(chunks) + [Chunk(from, value)]
    {
      hide Run;
      ReadNext(limit, chunks, Chunk(from, value), from);
      var remaining := limit - retainedBytes;
      if |value| > remaining {
        if remaining > 0 {
          Push(from, value[..remaining]);
        }
        retainedBytes := limit;
        if !outputTruncated {
          outputTruncated := true;
          kills := kills + 1;
        }
      } else {
        Push(from, value);
        retainedBytes := retainedBytes + |value|;
      }
      chunks := chunks + [Chunk(from, value)];
    }

    /** `decode`, up to the text decoder. */
    method Decode(from: Stream) returns (r: Bytes)
      requires Valid()
      ensures r == Trim(Retained(limit, chunks, from))
    {
      var values, all, i := if from == Stdout then stdout else stderr, [], 0;
      while i < |values|
        invariant 0 <= i <= |values| && all == Flat(values[..i])
      {
        assert values[..i + 1][..i] == values[..i];
        all := all + values[i];
        i := i + 1;
      }
      assert values[..i] == values;
      r := TrimPartialUtf8(all);
    }
  }
}
