/** The rotating log of `scripts/dispatch-worker/worker-log.ts`, from any state of the disk: reading the
    rotated files and then the active one always gives the latest part of what was written. A rename
    succeeds when its source exists. */
module WorkerLog {

  type Line = string

  /** The log's files by suffix: 0 is the active file, `k` is `<file>.k`. */
  type Disk = map<nat, seq<Line>>

  function Lines(d: Disk, k: nat): seq<Line> {
    if k in d then d[k] else []
  }

  /** Everything from `<file>.n` down to `<file>.1`, then the active file. */
  function Read(d: Disk, n: nat): seq<Line> {
    Lines(d, n) + if n == 0 then [] else Read(d, n - 1)
  }

  function Bytes(ls: seq<Line>): nat {
    if ls == [] then 0 else |ls[0]| + Bytes(ls[1..])
  }

  /** `rename`, when the source exists. */
  function Rename(d: Disk, from: nat, to: nat): Disk {
    if from in d then (d - {from})[to := d[from]] else d
  }

  /** The loop from `index` down to 1. */
  function Shift(d: Disk, index: nat): Disk
    decreases index
  {
    if index == 0 then d else Shift(Rename(d, index, index + 1), index - 1)
  }

  /** `rotateIfNeeded` */
  function Rotate(d: Disk, maxBytes: nat, maxFiles: nat): Disk {
    if 0 !in d || Bytes(d[0]) < maxBytes then d
    else Rename(Shift(d, if maxFiles == 0 then 0 else maxFiles - 1), 0, 1)
  }

  /** One `write`: rotate, then append, which may fail and be swallowed. */
  datatype Write = Write(line: Line, appended: bool)

  function Append(d: Disk, w: Write): Disk {
    if w.appended then d[0 := Lines(d, 0) + [w.line]] else d
  }

  function After(d: Disk, w: Write, maxBytes: nat, maxFiles: nat): Disk {
    Append(Rotate(d, maxBytes, maxFiles), w)
  }

  function Run(d: Disk, ws: seq<Write>, maxBytes: nat, maxFiles: nat): Disk {
    if ws == [] then d else After(Run(d, ws[..|ws| - 1], maxBytes, maxFiles), ws[|ws| - 1], maxBytes, maxFiles)
  }

  function Appended(ws: seq<Write>): seq<Line> {
    if ws == [] then []
    else Appended(ws[..|ws| - 1]) + if ws[|ws| - 1].appended then [ws[|ws| - 1].line] else []
  }

  /** The rotated files a log keeps: with no rotation allowed, the code still keeps one. */
  function Kept(maxFiles: nat): nat {
    if maxFiles == 0 then 1 else maxFiles
  }

  predicate IsSuffix(s: seq<Line>, t: seq<Line>) {
    |s| <= |t| && t[|t| - |s|..] == s
  }

  // ----- Reading across a rotation -----

  lemma {:induction false} ReadElsewhere(d: Disk, e: Disk, n: nat)
    requires forall k | 0 <= k <= n :: Lines(d, k) == Lines(e, k)
    ensures Read(d, n) == Read(e, n)
  {
    hide Lines;
    if n > 0 {
      ReadElsewhere(d, e, n - 1);
    }
  }

  /** Moving a file up one free place changes nothing for the reader. */
  lemma {:induction false} MoveUpReads(d: Disk, i: nat, n: nat)
    requires i < n && (i in d ==> i + 1 !in d)
    ensures Read(Rename(d, i, i + 1), n) == Read(d, n)
  {
    var e := Rename(d, i, i + 1);
    if n > i + 1 {
      MoveUpReads(d, i, n - 1);
    } else if i in d {
      assert Lines(e, n) == Lines(d, i) && Lines(d, n) == [] && Lines(e, i) == [];
      if i > 0 {
        ReadElsewhere(d, e, i - 1);
      }
      assert Read(d, n) == [] + Read(d, i) && Read(d, i) == Lines(d, i) + if i == 0 then [] else Read(d, i - 1);
      assert [] + Read(d, i) == Read(d, i);
      var below := if i == 0 then [] else Read(e, i - 1);
      assert Read(e, n) == Lines(d, i) + ([] + below) && [] + below == below;
    }
  }

  /** The loop, once the place above is free, changes nothing for the reader and frees place 1. */
  lemma {:induction false} ShiftReads(d: Disk, i: nat, n: nat)
    requires i < n && (i in d ==> i + 1 !in d)
    ensures Read(Shift(d, i), n) == Read(d, n)
    ensures 0 < i ==> 1 !in Shift(d, i)
    ensures 0 in Shift(d, i) <==> 0 in d
    ensures Lines(Shift(d, i), 0) == Lines(d, 0)
    decreases i
  {
    hide Read;
    if i > 0 {
      MoveUpReads(d, i, n);
      var e := Rename(d, i, i + 1);
      ShiftReads(e, i - 1, n);
      if i == 1 {
        assert Shift(e, 0) == e;
      }
    }
  }

  /** Overwriting the last rotated file loses it, and only it. */
  lemma OverwriteReads(d: Disk, n: nat)
    requires n > 0 && n - 1 in d
    ensures Read(d, n) == Lines(d, n) + Read(Rename(d, n - 1, n), n)
  {
    var e := Rename(d, n - 1, n);
    assert Lines(e, n) == Lines(d, n - 1) && Lines(e, n - 1) == [];
    if n > 1 {
      ReadElsewhere(d, e, n - 2);
    }
    var below := if n == 1 then [] else Read(d, n - 2);
    assert Read(d, n - 1) == Lines(d, n - 1) + below && Read(e, n - 1) == [] + below && [] + below == below;
  }

  /** A rotation keeps everything the reader sees, but for the oldest file. */
  lemma {:induction false} RotateReads(d: Disk, maxBytes: nat, maxFiles: nat)
    ensures var n, e := Kept(maxFiles), Rotate(d, maxBytes, maxFiles);
            Read(e, n) == Read(d, n) || Read(d, n) == Lines(d, n) + Read(e, n)
  {
    hide Read, Shift;
    var n, e := Kept(maxFiles), Rotate(d, maxBytes, maxFiles);
    if 0 in d && Bytes(d[0]) >= maxBytes {
      if n == 1 {
        assert Shift(d, 0) == d by { ShiftNone(d); }
        OverwriteReads(d, 1);
      } else {
        var m := Rename(d, n - 1, n);
        assert Shift(d, n - 1) == Shift(m, n - 2) by { ShiftSome(d, n - 1); }
        ShiftReads(m, n - 2, n);
        var s := Shift(m, n - 2);
        assert 1 !in s by {
          if n == 2 {
            ShiftNone(m);
          }
        }
        MoveUpReads(s, 0, n);
        if n - 1 in d {
          OverwriteReads(d, n);
        }
      }
    }
  }

  lemma ShiftNone(d: Disk)
    ensures Shift(d, 0) == d
  {
  }

  lemma ShiftSome(d: Disk, i: nat)
    requires i > 0
    ensures Shift(d, i) == Shift(Rename(d, i, i + 1), i - 1)
  {
  }

  lemma AppendReads(d: Disk, line: Line, n: nat)
    ensures Read(d[0 := Lines(d, 0) + [line]], n) == Read(d, n) + [line]
  {
    var e := d[0 := Lines(d, 0) + [line]];
    if n == 0 {
      assert Lines(d, 0) + [] == Lines(d, 0) && Lines(e, 0) + [] == Lines(e, 0);
    } else {
      AppendReads(d, line, n - 1);
      assert Lines(e, n) == Lines(d, n);
    }
  }

  lemma SelfSuffix(s: seq<Line>)
    ensures IsSuffix(s, s + [])
  {
    assert s + [] == s;
  }

  lemma CutSuffix(a: seq<Line>, s: seq<Line>, whole: seq<Line>, all: seq<Line>)
    requires IsSuffix(whole, all) && (s == whole || whole == a + s)
    ensures IsSuffix(s, all)
  {
    if whole == a + s {
      assert all[|all| - |whole|..][|a|..] == s && all[|all| - |s|..] == all[|all| - |whole|..][|a|..];
    }
  }

  lemma GrowSuffix(s: seq<Line>, all: seq<Line>, line: Line)
    requires IsSuffix(s, all)
    ensures IsSuffix(s + [line], all + [line])
  {
    assert (all + [line])[|all| - |s|..] == all[|all| - |s|..] + [line];
  }

  /** Over any writes from any disk, the reader sees a suffix of what it saw and what was written since. */
  lemma {:induction false} RetainsASuffix(d: Disk, ws: seq<Write>, maxBytes: nat, maxFiles: nat)
    ensures var n := Kept(maxFiles);
            IsSuffix(Read(Run(d, ws, maxBytes, maxFiles), n), Read(d, n) + Appended(ws))
  {
    hide Read, Rotate, IsSuffix;
    var n := Kept(maxFiles);
    if ws == [] {
      SelfSuffix(Read(d, n));
    } else {
      var init, w := ws[..|ws| - 1], ws[|ws| - 1];
      RetainsASuffix(d, init, maxBytes, maxFiles);
      var e := Run(d, init, maxBytes, maxFiles);
      var r := Rotate(e, maxBytes, maxFiles);
      RotateReads(e, maxBytes, maxFiles);
      var all := Read(d, n) + Appended(init);
      CutSuffix(Lines(e, n), Read(r, n), Read(e, n), all);
      if w.appended {
        AppendReads(r, w.line, n);
        GrowSuffix(Read(r, n), all, w.line);
        assert Read(d, n) + Appended(ws) == all + [w.line];
      } else {
        assert Read(d, n) + Appended(ws) == all;
      }
    }
  }

  // ----- What a rotation does, file by file -----

  /** File `k` after the loop from `index`: what was one below it; the topmost stays if nothing was. */
  lemma {:induction false} ShiftExactly(d: Disk, index: nat, k: nat)
    requires index > 0
    ensures var e := Shift(d, index);
            && (k == 0 || k > index + 1 ==> (k in e <==> k in d) && Lines(e, k) == Lines(d, k))
            && 1 !in e
            && (2 <= k <= index ==> (k in e <==> k - 1 in d) && Lines(e, k) == Lines(d, k - 1))
            && (2 <= k == index + 1 ==> (k in e <==> index in d || k in d) && Lines(e, k) == if index in d then d[index] else Lines(d, k))
    decreases index
  {
    var d' := Rename(d, index, index + 1);
    if index > 1 {
      ShiftExactly(d', index - 1, k);
    } else {
      ShiftNone(d');
    }
  }

  /** A rotation happens exactly if the active file has reached `maxBytes`. Then every file moves up one
      place, the active one to the first; the last is overwritten, or stays if the one below it is missing. */
  lemma {:induction false} RotateExactly(d: Disk, maxBytes: nat, maxFiles: nat, k: nat)
    ensures var e, n := Rotate(d, maxBytes, maxFiles), Kept(maxFiles);
            if !(0 in d && Bytes(d[0]) >= maxBytes) then e == d
            else
              && 0 !in e && 1 in e && e[1] == d[0]
              && (2 <= k < n ==> (k in e <==> k - 1 in d) && Lines(e, k) == Lines(d, k - 1))
              && (2 <= k == n ==> (k in e <==> k - 1 in d || k in d) && Lines(e, k) == if k - 1 in d then d[k - 1] else Lines(d, k))
              && (k > n ==> (k in e <==> k in d) && Lines(e, k) == Lines(d, k))
  {
    hide Bytes;
    if 0 in d && Bytes(d[0]) >= maxBytes {
      if maxFiles <= 1 {
        ShiftNone(d);
      } else {
        ShiftExactly(d, maxFiles - 1, k);
        ShiftExactly(d, maxFiles - 1, 0);
      }
    }
  }

  // ----- What is retained at least -----

  /** The rotated files are full and have no gap below them. */
  predicate Packed(d: Disk, n: nat, maxBytes: nat) {
    && (forall k | k in d && 1 <= k :: k <= n && Bytes(d[k]) >= maxBytes)
    && (forall k | k in d && 2 <= k :: k - 1 in d)
  }

  lemma PackedRotates(d: Disk, maxBytes: nat, maxFiles: nat)
    requires Packed(d, Kept(maxFiles), maxBytes)
    ensures var n, e := Kept(maxFiles), Rotate(d, maxBytes, maxFiles); Packed(e, n, maxBytes) && (n in d ==> n in e)
  {
    hide Bytes, Rotate;
    var n, e := Kept(maxFiles), Rotate(d, maxBytes, maxFiles);
    RotateExactly(d, maxBytes, maxFiles, 0);
    RotateExactly(d, maxBytes, maxFiles, n);
    if e != d {
      forall k | k in e && 1 <= k ensures k <= n && Bytes(e[k]) >= maxBytes && (k >= 2 ==> k - 1 in e) {
        RotateExactly(d, maxBytes, maxFiles, k);
        RotateExactly(d, maxBytes, maxFiles, k - 1);
      }
    }
  }

  lemma {:induction false} PackedHolds(d: Disk, n: nat, m: nat, maxBytes: nat)
    requires Packed(d, n, maxBytes) && m <= n && (m > 0 ==> m in d)
    ensures Bytes(Read(d, m)) >= m * maxBytes
  {
    hide Bytes;
    if m > 0 {
      PackedHolds(d, n, m - 1, maxBytes);
      BytesConcat(Lines(d, m), Read(d, m - 1));
      assert m * maxBytes == (m - 1) * maxBytes + maxBytes;
    }
  }

  lemma {:induction false} LosesOnlyWhenFull(ws: seq<Write>, maxBytes: nat, maxFiles: nat)
    ensures var n, e := Kept(maxFiles), Run(map[], ws, maxBytes, maxFiles);
            Packed(e, n, maxBytes) && (n in e || Read(e, n) == Appended(ws))
  {
    hide Bytes, Read, Rotate, Packed;
    var n := Kept(maxFiles);
    if ws == [] {
      NothingPacked(n, maxBytes);
    } else {
      var init, w := ws[..|ws| - 1], ws[|ws| - 1];
      LosesOnlyWhenFull(init, maxBytes, maxFiles);
      var e := Run(map[], init, maxBytes, maxFiles);
      var r := Rotate(e, maxBytes, maxFiles);
      PackedRotates(e, maxBytes, maxFiles);
      RotateReads(e, maxBytes, maxFiles);
      assert n !in e ==> Lines(e, n) == [] && [] + Read(r, n) == Read(r, n);
      AppendReads(r, w.line, n);
      PackedAppends(r, w, n, maxBytes);
      assert Appended(init) + [] == Appended(init);
    }
  }

  lemma NothingPacked(n: nat, maxBytes: nat)
    ensures Packed(map[], n, maxBytes) && Read(map[], n) == []
  {
    if n > 0 {
      NothingPacked(n - 1, maxBytes);
    }
  }

  lemma PackedAppends(d: Disk, w: Write, n: nat, maxBytes: nat)
    requires Packed(d, n, maxBytes)
    ensures Packed(Append(d, w), n, maxBytes)
    ensures n in d ==> n in Append(d, w)
  {
    hide Bytes;
  }

  /** From an empty disk, nothing is lost before the rotated files together hold `maxBytes` times their
      number: what is read back is everything written, or at least so much of it. */
  lemma {:induction false} RetainsEnough(ws: seq<Write>, maxBytes: nat, maxFiles: nat)
    ensures var n := Kept(maxFiles); var read := Read(Run(map[], ws, maxBytes, maxFiles), n);
            read == Appended(ws) || Bytes(read) >= n * maxBytes
  {
    hide Read, Bytes, Packed;
    var n, e := Kept(maxFiles), Run(map[], ws, maxBytes, maxFiles);
    LosesOnlyWhenFull(ws, maxBytes, maxFiles);
    if n in e {
      PackedHolds(e, n, n, maxBytes);
    }
  }

  // ----- Without rotated files -----

  /** With `maxFiles` 0 there is a rotated file after a rotation exactly if there was one or the active
      file was full: the code renames it to `.1` all the same. */
  lemma ZeroKeepsOne(d: Disk, maxBytes: nat)
    ensures 1 in Rotate(d, maxBytes, 0) <==> 1 in d || (0 in d && Bytes(d[0]) >= maxBytes)
    ensures Rotate(map[0 := ["x"]], 1, 0) == map[1 := ["x"]]
  {
    hide Bytes;
    ShiftNone(d);
    var full: Disk := map[0 := ["x"]];
    ShiftNone(full);
    assert Bytes(["x"]) == 1 by { BytesOne("x"); }
    assert Rotate(full, 1, 0) == Rename(full, 0, 1);
  }

  lemma BytesOne(line: Line)
    ensures Bytes([line]) == |line|
  {
    assert [line][1..] == [];
  }

  // ----- Bounds -----

  /** A file of the log holds at most this much: it is full at `maxBytes` and the last line may pass it. */
  function FileBound(maxBytes: nat, longest: nat): nat {
    (if maxBytes == 0 then 0 else maxBytes - 1) + longest
  }

  predicate Within(d: Disk, n: nat, bound: nat) {
    forall k | k in d :: k <= n && Bytes(d[k]) <= bound
  }

  lemma {:induction false} BytesConcat(a: seq<Line>, b: seq<Line>)
    ensures Bytes(a + b) == Bytes(a) + Bytes(b)
  {
    if a == [] {
      assert a + b == b;
    } else {
      BytesConcat(a[1..], b);
      assert (a + b)[1..] == a[1..] + b;
    }
  }

  lemma {:induction false} ShiftWithin(d: Disk, i: nat, n: nat, bound: nat)
    requires i < n && Within(d, n, bound)
    ensures Within(Shift(d, i), n, bound)
    ensures 0 in Shift(d, i) <==> 0 in d
    decreases i
  {
    hide Bytes;
    if i > 0 {
      ShiftWithin(Rename(d, i, i + 1), i - 1, n, bound);
    }
  }

  lemma {:induction false} ReadWithin(d: Disk, n: nat, bound: nat)
    requires forall k | k in d :: Bytes(d[k]) <= bound
    ensures Bytes(Read(d, n)) <= (n + 1) * bound
  {
    hide Bytes;
    assert Bytes([]) == 0 by { NoBytes(); }
    BytesConcat(Lines(d, n), if n == 0 then [] else Read(d, n - 1));
    if n > 0 {
      ReadWithin(d, n - 1, bound);
      assert (n + 1) * bound == n * bound + bound;
    }
  }

  lemma NoBytes()
    ensures Bytes([]) == 0
  {
  }

  /** No more than the allowed rotated files exist, and together they hold a bounded number of bytes. */
  lemma {:induction false} StaysBounded(d: Disk, ws: seq<Write>, maxBytes: nat, maxFiles: nat, longest: nat)
    requires Within(d, Kept(maxFiles), FileBound(maxBytes, longest)) && forall w | w in ws :: |w.line| <= longest
    ensures var e := Run(d, ws, maxBytes, maxFiles); var bound := FileBound(maxBytes, longest);
            Within(e, Kept(maxFiles), bound) && Bytes(Read(e, Kept(maxFiles))) <= (Kept(maxFiles) + 1) * bound
  {
    hide Read, Bytes, Shift;
    var n, bound := Kept(maxFiles), FileBound(maxBytes, longest);
    if ws != [] {
      var init, w := ws[..|ws| - 1], ws[|ws| - 1];
      StaysBounded(d, init, maxBytes, maxFiles, longest);
      var e := Run(d, init, maxBytes, maxFiles);
      ShiftWithin(e, if maxFiles == 0 then 0 else maxFiles - 1, n, bound);
      assert w in ws;
      AppendWithin(Rotate(e, maxBytes, maxFiles), w, n, maxBytes, longest);
    }
    ReadWithin(Run(d, ws, maxBytes, maxFiles), n, bound);
  }

  lemma AppendWithin(d: Disk, w: Write, n: nat, maxBytes: nat, longest: nat)
    requires Within(d, n, FileBound(maxBytes, longest)) && |w.line| <= longest
    requires 0 in d ==> Bytes(d[0]) < maxBytes
    ensures Within(Append(d, w), n, FileBound(maxBytes, longest))
  {
    BytesConcat(Lines(d, 0), [w.line]);
    assert [w.line][1..] == [];
  }

  // ----- The code -----

  class Log {
    const maxBytes: nat
    const maxFiles: nat
    var disk: Disk

    constructor (maxBytes: nat, maxFiles: nat, disk: Disk)
      ensures this.maxBytes == maxBytes && this.maxFiles == maxFiles && this.disk == disk
    {
      this.maxBytes, this.maxFiles, this.disk := maxBytes, maxFiles, disk;
    }

    method RenameFile(from: nat, to: nat)
      modifies this`disk
      ensures disk == Rename(old(disk), from, to)
    {
      if from in disk {
        disk := (disk - {from})[to := disk[from]];
      }
    }

    /** One turn of the loop. Its first branch would drop a file past the last place. */
    method MoveUp(index: nat)
      modifies this`disk
      ensures disk == if index + 1 > maxFiles then old(disk) - {index} else Rename(old(disk), index, index + 1)
    {
      if index + 1 > maxFiles {
        disk := disk - {index};
      } else {
        RenameFile(index, index + 1);
      }
    }

    /** The loop never takes the dropping branch of `MoveUp`: it starts below `maxFiles`. */
    method RotateIfNeeded()
      modifies this`disk
      ensures disk == Rotate(old(disk), maxBytes, maxFiles)
    {
      hide Bytes, Rename;
      if 0 !in disk {
        return;
      }
      var size := Bytes(disk[0]);
      if size < maxBytes {
        return;
      }
      var index := maxFiles - 1;
      ghost var all := Shift(disk, if maxFiles == 0 then 0 else maxFiles - 1);
      while index >= 1
        invariant -1 <= index < maxFiles && Shift(disk, if index < 0 then 0 else index) == all
      {
        assert index + 1 <= maxFiles;
        MoveUp(index);
        index := index - 1;
      }
      RenameFile(0, 1);
    }

    /** One link of the write chain. */
    method WriteLine(line: Line, appendSucceeds: bool)
      modifies this`disk
      ensures disk == After(old(disk), Write(line, appendSucceeds), maxBytes, maxFiles)
    {
      RotateIfNeeded();
      if appendSucceeds {
        disk := disk[0 := Lines(disk, 0) + [line]];
      }
    }
  }
}
