/** `JSON.stringify` without indentation (sections 2 to 7 of RFC 8259), read back by a reader of that
    grammar and so unambiguous, and the canonical text of `canonicalJsonStringify`. */
module JsonPrint {
  import opened Outcomes
  import opened Utf16
  import opened JsonReader
  import opened CanonicalJson

  // ----- Strings: section 7 of RFC 8259, lone surrogates escaped -----

  predicate IsHigh(c: Unit) { 0xD800 <= c <= 0xDBFF }
  predicate IsLow(c: Unit) { 0xDC00 <= c <= 0xDFFF }

  function Hex(d: nat): Unit
    requires d < 16
  {
    if d < 10 then 0x30 + d else 0x57 + d
  }

  function Hex4(c: Unit): (h: Text)
    ensures |h| == 4
  {
    [Hex(c / 0x1000), Hex(c / 0x100 % 16), Hex(c / 16 % 16), Hex(c % 16)]
  }

  /** The letter of a two-character escape, if `c` has one. */
  function ShortEscape(c: Unit): (e: Unit) {
    match c
    case 0x22 => 0x22
    case 0x5C => 0x5C
    case 0x08 => 0x62
    case 0x0C => 0x66
    case 0x0A => 0x6E
    case 0x0D => 0x72
    case 0x09 => 0x74
    case _ => 0
  }

  /** How many units of `k` the next piece of the quoted string stands for: a surrogate pair or one. */
  function PieceLen(k: Text): (n: nat)
    requires k != []
    ensures 1 <= n <= |k| && n <= 2
  {
    if IsHigh(k[0]) && |k| > 1 && IsLow(k[1]) then 2 else 1
  }

  function Piece(k: Text): Text
    requires k != []
  {
    var c := k[0];
    if ShortEscape(c) != 0 then [0x5C, ShortEscape(c)]
    else if PieceLen(k) == 2 then [c, k[1]]
    else if c < 0x20 || IsHigh(c) || IsLow(c) then [0x5C, 0x75] + Hex4(c)
    else [c]
  }

  function Escape(k: Text): Text {
    if k == [] then [] else Piece(k) + Escape(k[PieceLen(k)..])
  }

  function Quote(k: Text): Text {
    [0x22] + Escape(k) + [0x22]
  }

  lemma HexReads(d: nat)
    requires d < 16
    ensures HexDigit(Hex(d)) == Some(d)
  {
  }

  lemma HexDigits(c: Unit)
    ensures 0x1000 * (c / 0x1000) + 0x100 * (c / 0x100 % 16) + 16 * (c / 16 % 16) + c % 16 == c
  {
    var x := c / 16;
    var y := x / 16;
    assert y == c / 0x100 && y / 16 == c / 0x1000;
  }

  lemma Hex4Reads(c: Unit, r: Text)
    ensures Hex4At(Hex4(c) + r) == Some(c)
  {
    hide Hex, HexDigit;
    HexReads(c / 0x1000);
    HexReads(c / 0x100 % 16);
    HexReads(c / 16 % 16);
    HexReads(c % 16);
    HexDigits(c);
  }

  lemma LongEscapeReads(c: Unit, r: Text)
    ensures ReadChar([0x5C, 0x75] + Hex4(c) + r) == Some(([c], 6))
  {
    hide Hex4, Hex4At;
    var t := [0x5C, 0x75] + Hex4(c) + r;
    assert t[2..] == Hex4(c) + r;
    Hex4Reads(c, r);
  }

  lemma PieceReads(k: Text, r: Text)
    requires k != []
    ensures ReadChar(Piece(k) + r) == Some((k[..PieceLen(k)], |Piece(k)|))
    ensures Piece(k) != [] && Piece(k)[0] != 0x22
  {
    hide Hex4, Hex4At;
    var c, t := k[0], Piece(k) + r;
    assert k[..1] == [c];
    if ShortEscape(c) != 0 {
      assert t[0] == 0x5C && t[1] == ShortEscape(c) && Escaped(t[1]) == Some(c);
    } else if PieceLen(k) == 2 {
      assert t[0] == c && t[1] == k[1] && t[..2] == k[..2] == [c, k[1]];
    } else if c < 0x20 || IsHigh(c) || IsLow(c) {
      LongEscapeReads(c, r);
      assert Piece(k) == [0x5C, 0x75] + Hex4(c);
    } else {
      assert t[0] == c && t[..1] == [c];
    }
  }

  /** A quoted string reads back, whatever follows. */
  lemma {:induction false} EscapeReads(k: Text, s: Text)
    ensures ReadChars(Escape(k) + [0x22] + s) == Some((k, s))
    decreases |k|
  {
    hide Piece, PieceLen, ReadChar;
    var t := Escape(k) + [0x22] + s;
    if k == [] {
      assert t == [0x22] + s && t[1..] == s;
    } else {
      var k' := k[PieceLen(k)..];
      var rest := Escape(k') + [0x22] + s;
      assert t == Piece(k) + rest && t[|Piece(k)|..] == rest;
      PieceReads(k, rest);
      EscapeReads(k', s);
      assert k == k[..PieceLen(k)] + k';
    }
  }

  /** So it is determined, with its end, by any text it starts. */
  lemma EscapePrefix(a: Text, b: Text, s: Text, t: Text)
    requires Escape(a) + [0x22] + s == Escape(b) + [0x22] + t
    ensures a == b && s == t
  {
    EscapeReads(a, s);
    EscapeReads(b, t);
  }

  // What escaping puts for what.

  /** A quotation mark, a backslash or a control character. */
  predicate NeedsEscape(c: Unit) {
    c == 0x22 || c == 0x5C || c < 0x20
  }

  /** A surrogate without its partner. */
  predicate IsLone(k: Text, i: nat)
    requires i < |k|
  {
    || (0xD800 <= k[i] < 0xDC00 && !(i + 1 < |k| && 0xDC00 <= k[i + 1] < 0xE000))
    || (0xDC00 <= k[i] < 0xE000 && !(i > 0 && 0xD800 <= k[i - 1] < 0xDC00))
  }

  /** Strings are escaped in parts, as long as no surrogate pair is cut. */
  lemma {:induction false} EscapeConcat(a: Text, b: Text)
    requires Uncut(a, b)
    ensures Escape(a + b) == Escape(a) + Escape(b)
    decreases |a|
  {
    hide Piece, PieceLen, Uncut;
    if a == [] {
      assert a + b == b;
    } else {
      var n := PieceLen(a);
      PieceOfPrefix(a, b);
      assert (a + b)[n..] == a[n..] + b;
      EscapeConcat(a[n..], b);
      assert Piece(a) + (Escape(a[n..]) + Escape(b)) == (Piece(a) + Escape(a[n..])) + Escape(b);
    }
  }

  /** No surrogate pair is cut between the two. */
  predicate Uncut(a: Text, b: Text) {
    a != [] && b != [] ==> !(0xD800 <= a[|a| - 1] < 0xDC00 && 0xDC00 <= b[0] < 0xE000)
  }

  lemma PieceOfPrefix(a: Text, b: Text)
    requires a != [] && Uncut(a, b)
    ensures PieceLen(a + b) == PieceLen(a) && Piece(a + b) == Piece(a) && Uncut(a[PieceLen(a)..], b)
  {
    hide Hex4;
  }

  /** A text with nothing that needs escaping and no lone surrogate stands for itself. */
  lemma {:induction false} PlainStandsForItself(k: Text)
    requires forall i | 0 <= i < |k| :: !NeedsEscape(k[i]) && !IsLone(k, i)
    ensures Escape(k) == k
    decreases |k|
  {
    if k != [] {
      var n := PieceLen(k);
      assert !NeedsEscape(k[0]) && !IsLone(k, 0);
      assert Piece(k) == k[..n] by { hide Hex4; }
      forall i | 0 <= i < |k| - n ensures !NeedsEscape(k[n..][i]) && !IsLone(k[n..], i) {
        assert k[n..][i] == k[n + i] && !NeedsEscape(k[n + i]) && !IsLone(k, n + i);
        assert n == 2 ==> 0xDC00 <= k[1] < 0xE000;
      }
      PlainStandsForItself(k[n..]);
      assert k == k[..n] + k[n..];
    }
  }

  /** What is put for what needs escaping, and for a lone surrogate: the short form where there is one, and
      otherwise four lower-case hexadecimal digits. */
  lemma EscapeOne(c: Unit)
    ensures Escape([0x22]) == [0x5C, 0x22] && Escape([0x5C]) == [0x5C, 0x5C]
    ensures Escape([0x08]) == [0x5C, 0x62] && Escape([0x09]) == [0x5C, 0x74] && Escape([0x0A]) == [0x5C, 0x6E]
    ensures Escape([0x0C]) == [0x5C, 0x66] && Escape([0x0D]) == [0x5C, 0x72]
    ensures (c < 0x20 && c !in {8, 9, 10, 12, 13}) || 0xD800 <= c < 0xE000 ==>
              var t := Escape([c]);
              && |t| == 6 && t[..2] == [0x5C, 0x75] && Hex4At(t[2..]) == Some(c)
              && forall i | 2 <= i < 6 :: 0x30 <= t[i] <= 0x39 || 0x61 <= t[i] <= 0x66
  {
    hide Escape, Piece, Hex4At;
    OneShort(0x22);
    OneShort(0x5C);
    OneShort(0x08);
    OneShort(0x09);
    OneShort(0x0A);
    OneShort(0x0C);
    OneShort(0x0D);
    if (c < 0x20 && c !in {8, 9, 10, 12, 13}) || 0xD800 <= c < 0xE000 {
      OneLong(c);
    }
  }

  lemma OneShort(c: Unit)
    requires ShortEscape(c) != 0
    ensures Escape([c]) == [0x5C, ShortEscape(c)]
  {
    hide Escape, Hex4;
    OnePiece(c);
  }

  lemma OneLong(c: Unit)
    requires ShortEscape(c) == 0 && (c < 0x20 || IsHigh(c) || IsLow(c))
    ensures var t := Escape([c]);
            && |t| == 6 && t[..2] == [0x5C, 0x75] && Hex4At(t[2..]) == Some(c)
            && forall i | 2 <= i < 6 :: 0x30 <= t[i] <= 0x39 || 0x61 <= t[i] <= 0x66
  {
    hide Escape, Hex4At, ShortEscape;
    OnePiece(c);
    Hex4Reads(c, []);
    assert Hex4(c) + [] == Hex4(c) && ([0x5C, 0x75] + Hex4(c))[2..] == Hex4(c);
  }

  lemma OnePiece(c: Unit)
    ensures Escape([c]) == Piece([c])
  {
    hide Piece;
    assert [c][PieceLen([c])..] == [];
    assert Piece([c]) + [] == Piece([c]);
  }

  // ----- Values: sections 3 to 6 of RFC 8259 -----

  /** `JSON.stringify` */
  function Print(j: Json): Text
    decreases j, 0
  {
    match j
    case Null => [0x6E, 0x75, 0x6C, 0x6C]
    case Bool(b) => if b then [0x74, 0x72, 0x75, 0x65] else [0x66, 0x61, 0x6C, 0x73, 0x65]
    case Num(t) => t
    case Str(s) => Quote(s)
    case Arr(items) => [0x5B] + PrintItems(items) + [0x5D]
    case Obj(ms) => [0x7B] + PrintMembers(ms) + [0x7D]
  }

  function PrintItems(items: seq<Json>): Text
    decreases items, 1
  {
    if items == [] then []
    else if |items| == 1 then Print(items[0])
    else Print(items[0]) + [0x2C] + PrintItems(items[1..])
  }

  function PrintMember(m: Member): Text
    decreases m, 1
  {
    Quote(m.key) + [0x3A] + Print(m.value)
  }

  function PrintMembers(ms: seq<Member>): Text
    decreases ms, 2
  {
    if ms == [] then []
    else if |ms| == 1 then PrintMember(ms[0])
    else PrintMember(ms[0]) + [0x2C] + PrintMembers(ms[1..])
  }

  /** A value in a text is followed by the end, a comma or a closing bracket. */
  predicate Delimited(s: Text) {
    s == [] || s[0] == 0x2C || s[0] == 0x5D || s[0] == 0x7D
  }

  // Numbers end at a delimiter.

  lemma {:induction false} DigitsAppend(a: Text, s: Text)
    requires s == [] || !JsonReader.IsDigit(s[0])
    ensures Digits(a + s) == Digits(a)
  {
    if a == [] {
      assert a + s == s;
    } else {
      assert (a + s)[1..] == a[1..] + s;
      DigitsAppend(a[1..], s);
    }
  }

  lemma IntAppend(a: Text, s: Text)
    requires Delimited(s)
    ensures IntLen(a + s) == IntLen(a)
  {
    DigitsAppend(a, s);
    assert a == [] ==> a + s == s;
  }

  lemma FracAppend(a: Text, s: Text)
    requires Delimited(s)
    ensures FracLen(a + s) == FracLen(a)
  {
    if a == [] {
      assert a + s == s;
    } else {
      assert (a + s)[1..] == a[1..] + s;
      DigitsAppend(a[1..], s);
    }
  }

  lemma ExpAppend(a: Text, s: Text)
    requires Delimited(s)
    ensures ExpLen(a + s) == ExpLen(a)
  {
    if a == [] {
      assert a + s == s;
    } else if a[0] == 0x65 || a[0] == 0x45 {
      var sign := if |a| > 1 && (a[1] == 0x2B || a[1] == 0x2D) then 2 else 1;
      assert (a + s)[sign..] == a[sign..] + s;
      DigitsAppend(a[sign..], s);
    }
  }

  lemma TailAppend(a: Text, s: Text)
    requires Delimited(s)
    ensures TailLen(a + s) == TailLen(a)
  {
    hide FracLen, ExpLen;
    FracAppend(a, s);
    assert (a + s)[FracLen(a)..] == a[FracLen(a)..] + s;
    ExpAppend(a[FracLen(a)..], s);
  }

  lemma NumberReads(a: Text, s: Text)
    requires IsNumber(a) && Delimited(s)
    ensures NumberLen(a + s) == |a| && (a[0] == 0x2D || JsonReader.IsDigit(a[0]))
  {
    hide TailLen;
    var m := if a[0] == 0x2D then 1 else 0;
    assert (a + s)[m..] == a[m..] + s;
    IntAppend(a[m..], s);
    var i := IntLen(a[m..]);
    assert (a + s)[m + i..] == a[m + i..] + s;
    TailAppend(a[m + i..], s);
  }

  lemma WellFormedItems(items: seq<Json>)
    requires WellFormed(Arr(items))
    ensures items != [] ==> WellFormed(items[0]) && WellFormed(Arr(items[1..]))
  {
  }

  lemma WellFormedMembers(ms: seq<Member>)
    requires WellFormed(Obj(ms))
    ensures ms != [] ==> WellFormed(ms[0].value) && WellFormed(Obj(ms[1..]))
  {
  }

  lemma NumberValueReads(token: Text, s: Text)
    requires IsNumber(token) && Delimited(s)
    ensures ReadValue(token + s) == Some((Num(token), s))
  {
    hide NumberLen;
    NumberReads(token, s);
    var t := token + s;
    assert t[0] == token[0] && t[..|token|] == token && t[|token|..] == s;
  }

  lemma LiteralReads(j: Json, s: Text)
    requires j.Null? || j.Bool?
    ensures ReadValue(Print(j) + s) == Some((j, s))
  {
    var p := Print(j);
    var t := p + s;
    assert t[..|p|] == p && t[|p|..] == s && t[0] == p[0];
  }

  lemma QuoteSplit(k: Text, s: Text)
    ensures Quote(k) + s == [0x22] + (Escape(k) + [0x22] + s)
  {
    hide Escape;
  }

  lemma StringReads(k: Text, s: Text)
    ensures ReadValue(Quote(k) + s) == Some((Str(k), s))
  {
    hide Quote, Escape, ReadChars;
    QuoteSplit(k, s);
    EscapeReads(k, s);
    var t := [0x22] + (Escape(k) + [0x22] + s);
    assert t[1..] == Escape(k) + [0x22] + s && Quote(k) + s == t;
    assert t[0] == 0x22 && !(NULL <= t) && !(TRUE <= t) && !(FALSE <= t);
  }

  /** What a printed value reads back as, wherever it stands: the value, and what follows it. */
  lemma {:induction false} PrintReads(j: Json, s: Text)
    requires WellFormed(j) && Delimited(s)
    ensures ReadValue(Print(j) + s) == Some((j, s))
    decreases j, 0
  {
    match j
    case Num(token) => NumberValueReads(token, s);
    case Str(k) => StringReads(k, s);
    case Arr(items) =>
      ArrayReads(items, s);
    case Obj(ms) =>
      ObjectReads(ms, s);
    case _ => LiteralReads(j, s);
  }

  lemma {:induction false} ArrayReads(items: seq<Json>, s: Text)
    requires WellFormed(Arr(items))
    ensures ReadValue(Print(Arr(items)) + s) == Some((Arr(items), s))
    decreases items, 2
  {
    hide PrintItems, ReadItems;
    var body := PrintItems(items) + ([0x5D] + s);
    var t := Print(Arr(items)) + s;
    assert t == [0x5B] + body && t[1..] == body;
    if items == [] {
      assert PrintItems([]) == [] by { NoItems(); }
      assert body == [0x5D] + s && t[2..] == s;
    } else {
      ItemsRead(items, s);
      assert body[0] != 0x5D;
    }
  }

  lemma NoItems()
    ensures PrintItems([]) == [] && PrintMembers([]) == []
  {
  }

  lemma {:induction false} ObjectReads(ms: seq<Member>, s: Text)
    requires WellFormed(Obj(ms))
    ensures ReadValue(Print(Obj(ms)) + s) == Some((Obj(ms), s))
    decreases ms, 3
  {
    hide PrintMembers, ReadMembers;
    var body := PrintMembers(ms) + ([0x7D] + s);
    var t := Print(Obj(ms)) + s;
    assert t == [0x7B] + body && t[1..] == body;
    if ms == [] {
      assert PrintMembers([]) == [] by { NoItems(); }
      assert body == [0x7D] + s && t[2..] == s;
    } else {
      MembersRead(ms, s);
      assert body[0] == 0x22;
    }
  }

  /** What follows the first of several items. */
  function AfterItem(items: seq<Json>, s: Text): Text
    requires items != []
  {
    if |items| == 1 then [0x5D] + s else [0x2C] + (PrintItems(items[1..]) + ([0x5D] + s))
  }

  lemma ItemsStep(items: seq<Json>, s: Text)
    requires items != []
    ensures PrintItems(items) + ([0x5D] + s) == Print(items[0]) + AfterItem(items, s)
  {
    hide Print;
  }

  lemma NoValueHere(t: Text)
    ensures t != [] && t[0] == 0x5D ==> ReadValue(t).None?
  {
    hide ReadChars, ReadItems, ReadMembers;
    assert t[0..] == t;
  }

  lemma {:induction false} ItemsRead(items: seq<Json>, s: Text)
    requires WellFormed(Arr(items)) && items != []
    ensures var t := PrintItems(items) + ([0x5D] + s); ReadItems(t) == Some((items, s)) && t[0] != 0x5D
    decreases items, 1
  {
    hide Print, ReadValue, PrintItems;
    WellFormedItems(items);
    ItemsStep(items, s);
    var after := AfterItem(items, s);
    PrintReads(items[0], after);
    NoValueHere(Print(items[0]) + after);
    if |items| > 1 {
      ItemsRead(items[1..], s);
      assert after[1..] == PrintItems(items[1..]) + ([0x5D] + s);
      assert items == [items[0]] + items[1..];
    } else {
      assert after[1..] == s && items == [items[0]];
    }
  }

  function AfterMember(ms: seq<Member>, s: Text): Text
    requires ms != []
  {
    if |ms| == 1 then [0x7D] + s else [0x2C] + (PrintMembers(ms[1..]) + ([0x7D] + s))
  }

  lemma MembersStep(ms: seq<Member>, s: Text)
    requires ms != []
    ensures PrintMembers(ms) + ([0x7D] + s) == PrintMember(ms[0]) + AfterMember(ms, s)
  {
    hide Print, Quote, PrintMember;
  }

  lemma MemberSplit(m: Member, r: Text)
    ensures PrintMember(m) + r == [0x22] + (Escape(m.key) + [0x22] + ([0x3A] + (Print(m.value) + r)))
  {
    hide Print, Escape;
  }

  lemma {:induction false} MemberReads(m: Member, r: Text)
    requires WellFormed(m.value) && Delimited(r)
    ensures ReadMember(PrintMember(m) + r) == Some((m, r)) && (PrintMember(m) + r)[0] == 0x22
    decreases m, 1
  {
    hide Print, Escape, PrintMember, ReadChars, ReadValue;
    MemberSplit(m, r);
    var value := Print(m.value) + r;
    EscapeReads(m.key, [0x3A] + value);
    PrintReads(m.value, r);
    assert ([0x22] + (Escape(m.key) + [0x22] + ([0x3A] + value)))[1..] == Escape(m.key) + [0x22] + ([0x3A] + value);
    assert ([0x3A] + value)[1..] == value;
  }

  lemma {:induction false} MembersRead(ms: seq<Member>, s: Text)
    requires WellFormed(Obj(ms)) && ms != []
    ensures var t := PrintMembers(ms) + ([0x7D] + s); ReadMembers(t) == Some((ms, s)) && t[0] == 0x22
    decreases ms, 2
  {
    hide PrintMember, ReadMember, PrintMembers;
    WellFormedMembers(ms);
    MembersStep(ms, s);
    var after := AfterMember(ms, s);
    MemberReads(ms[0], after);
    if |ms| > 1 {
      MembersRead(ms[1..], s);
      assert after[1..] == PrintMembers(ms[1..]) + ([0x7D] + s);
      assert ms == [ms[0]] + ms[1..];
    } else {
      assert after[1..] == s && ms == [ms[0]];
    }
  }

  /** Printing is unambiguous: the text of a value determines the value, and where it ends. */
  lemma PrintPrefix(a: Json, b: Json, s: Text, t: Text)
    requires WellFormed(a) && WellFormed(b) && Delimited(s) && Delimited(t)
    requires Print(a) + s == Print(b) + t
    ensures a == b && s == t
  {
    hide Print, ReadValue, WellFormed;
    PrintReads(a, s);
    PrintReads(b, t);
  }

  // ----- The canonical text -----

  /** `canonicalJsonStringify` */
  function Canonical(j: Json): Text {
    Print(SortKeys(j))
  }

  lemma SortMembersWellFormed(ms: seq<Member>)
    requires DistinctKeys(ms) && forall i | 0 <= i < |ms| :: WellFormed(SortKeys(ms[i].value))
    ensures WellFormed(Obj(SortMembers(SortedValues(ms))))
  {
    hide SortMembers, PROTO, SortKeys, KeyLt;
    var r := SortMembers(SortedValues(ms));
    SortedMembership(ms);
    forall i, j | 0 <= i < j < |r| ensures r[i].key != r[j].key {
      KeyOrder(r[j].key, r[j].key);
    }
    forall i | 0 <= i < |r| ensures WellFormed(r[i].value) {
      assert r[i] in r;
      var p :| 0 <= p < |ms| && SortedValues(ms)[p] == r[i];
    }
  }

  lemma {:induction false} SortWellFormed(j: Json)
    requires WellFormed(j)
    ensures WellFormed(SortKeys(j))
  {
    hide SortMembers;
    match j
    case Arr(items) =>
      forall i | 0 <= i < |items| ensures WellFormed(SortKeys(items[i])) {
        SortWellFormed(items[i]);
      }
    case Obj(ms) =>
      forall i | 0 <= i < |ms| ensures WellFormed(SortKeys(ms[i].value)) {
        SortWellFormed(ms[i].value);
      }
      SortMembersWellFormed(ms);
      SortObj(ms);
    case _ =>
  }

  /** Two trees have one canonical text exactly if they are the same up to the order of object keys
      at every depth, once `__proto__` members are left out. */
  lemma {:induction false} CanonicalText(a: Json, b: Json)
    requires WellFormed(a) && WellFormed(b)
    ensures Canonical(a) == Canonical(b) <==> Same(DropProto(a), DropProto(b))
  {
    hide Print, SortKeys, DropProto, Same;
    SortWellFormed(a);
    SortWellFormed(b);
    if Canonical(a) == Canonical(b) {
      PrintPrefix(SortKeys(a), SortKeys(b), [], []);
    }
    SortedIffSame(a, b);
  }

  lemma KeptAll(ms: seq<Member>)
    requires forall i | 0 <= i < |ms| :: ms[i].key != PROTO
    ensures Kept(ms) == ms
  {
    hide PROTO;
    if ms != [] {
      KeptAll(ms[1..]);
      assert ms == [ms[0]] + ms[1..];
    }
  }

  lemma {:induction false} DropNothing(j: Json)
    requires !HasProto(j)
    ensures DropProto(j) == j
  {
    hide Kept, PROTO;
    match j
    case Arr(items) =>
      forall i | 0 <= i < |items| ensures DropProto(items[i]) == items[i] {
        DropNothing(items[i]);
      }
    case Obj(ms) =>
      forall i | 0 <= i < |ms| ensures DropProto(ms[i].value) == ms[i].value {
        DropNothing(ms[i].value);
      }
      DropObj(ms);
      assert DroppedValues(ms) == ms;
      KeptAll(ms);
    case _ =>
  }

  /** The documented promise, where it holds: without a `__proto__` key, equal text is equality up
      to key order. */
  lemma {:induction false} CanonicalIsStable(a: Json, b: Json)
    requires WellFormed(a) && WellFormed(b) && !HasProto(a) && !HasProto(b)
    ensures Canonical(a) == Canonical(b) <==> Same(a, b)
  {
    CanonicalText(a, b);
    DropNothing(a);
    DropNothing(b);
  }

  /** With one, it fails: `{}` and `{"__proto__": null}` differ and share their text. */
  lemma ProtoIsLost()
    ensures var a, b := Obj([]), Obj([Member(PROTO, Null)]);
            WellFormed(a) && WellFormed(b) && !Same(a, b) && Canonical(a) == Canonical(b)
    ensures |PROTO| == 9 && forall i | 0 <= i < 9 :: PROTO[i] == "__proto__"[i] as int
  {
    var a, b := Obj([]), Obj([Member(PROTO, Null)]);
    CanonicalText(a, b);
  }

  // ----- Sorting twice -----

  /** Every object lists its keys in enumeration order, none of them `__proto__`. */
  predicate InOrder(j: Json) {
    match j
    case Arr(items) => forall i | 0 <= i < |items| :: InOrder(items[i])
    case Obj(ms) =>
      InKeyOrder(ms) && forall i | 0 <= i < |ms| :: ms[i].key != PROTO && InOrder(ms[i].value)
    case _ => true
  }

  lemma SortMembersInOrder(ms: seq<Member>)
    requires DistinctKeys(ms) && forall i | 0 <= i < |ms| :: InOrder(SortKeys(ms[i].value))
    ensures InOrder(Obj(SortMembers(SortedValues(ms))))
  {
    hide SortMembers, PROTO, SortKeys, InKeyOrder;
    var r := SortMembers(SortedValues(ms));
    SortedMembership(ms);
    forall i | 0 <= i < |r| ensures r[i].key != PROTO && InOrder(r[i].value) {
      assert r[i] in r;
      var p :| 0 <= p < |ms| && SortedValues(ms)[p] == r[i];
    }
  }

  lemma {:induction false} SortPutsInOrder(j: Json)
    requires WellFormed(j)
    ensures InOrder(SortKeys(j))
  {
    hide SortMembers, PROTO, InKeyOrder;
    match j
    case Arr(items) =>
      forall i | 0 <= i < |items| ensures InOrder(SortKeys(items[i])) {
        SortPutsInOrder(items[i]);
      }
    case Obj(ms) =>
      forall i | 0 <= i < |ms| ensures InOrder(SortKeys(ms[i].value)) {
        SortPutsInOrder(ms[i].value);
      }
      SortMembersInOrder(ms);
      SortObj(ms);
    case _ =>
  }

  /** A tree in order is what sorting leaves alone. */
  lemma {:induction false} SortFixesOrdered(j: Json)
    requires WellFormed(j) && InOrder(j)
    ensures SortKeys(j) == j
  {
    hide SortMembers, PROTO, InKeyOrder;
    match j
    case Arr(items) =>
      forall i | 0 <= i < |items| ensures SortKeys(items[i]) == items[i] {
        SortFixesOrdered(items[i]);
      }
    case Obj(ms) =>
      forall i | 0 <= i < |ms| ensures SortKeys(ms[i].value) == ms[i].value {
        SortFixesOrdered(ms[i].value);
      }
      assert SortedValues(ms) == ms;
      SortObj(ms);
      SortedMembership(ms);
      KeyOrderUnique(SortMembers(ms), ms);
    case _ =>
  }

  lemma {:induction false} SortIdempotent(j: Json)
    requires WellFormed(j)
    ensures SortKeys(SortKeys(j)) == SortKeys(j)
  {
    hide SortKeys, InOrder, WellFormed;
    SortWellFormed(j);
    SortPutsInOrder(j);
    SortFixesOrdered(SortKeys(j));
  }

  lemma {:induction false} InOrderHasNoProto(j: Json)
    requires InOrder(j)
    ensures !HasProto(j)
  {
    hide PROTO, InKeyOrder;
    match j
    case Arr(items) =>
      forall i | 0 <= i < |items| ensures !HasProto(items[i]) {
        InOrderHasNoProto(items[i]);
      }
    case Obj(ms) =>
      forall i | 0 <= i < |ms| ensures !HasProto(ms[i].value) {
        InOrderHasNoProto(ms[i].value);
      }
    case _ =>
  }

  /** The canonical text is JSON: it reads back as the tree itself without its `__proto__` members, up to
      the order of the keys, which is the enumeration order at every depth. */
  lemma {:induction false} CanonicalReads(j: Json)
    requires WellFormed(j)
    ensures var r := Parse(Canonical(j)); r.Some? && Same(r.value, DropProto(j)) && InOrder(r.value)
  {
    hide Print, SortKeys, ReadValue, WellFormed, InOrder, HasProto, DropProto, Same;
    var k := SortKeys(j);
    SortWellFormed(j);
    PrintReads(k, []);
    assert Print(k) + [] == Print(k);
    SortIdempotent(j);
    SortPutsInOrder(j);
    SortedIffSame(k, j);
    InOrderHasNoProto(k);
    DropNothing(k);
  }

  // ----- The loop of the source -----

  lemma LookupSorted(ms: seq<Member>, k: Text)
    requires HasKey(ms, k)
    ensures HasKey(SortedValues(ms), k) && Lookup(SortedValues(ms), k) == SortKeys(Lookup(ms, k))
  {
    hide SortKeys;
    var i :| 0 <= i < |ms| && ms[i].key == k;
    assert SortedValues(ms)[i].key == k;
    if ms[0].key != k {
      assert ms[1..][i - 1].key == k;
      LookupSorted(ms[1..], k);
      assert SortedValues(ms)[1..] == SortedValues(ms[1..]);
    }
  }

  /** `sortKeys` as written: `value.map(sortKeys)` for an array; for an object, its sorted keys in a
      loop, each assigned to a fresh object. */
  method SortKeysOf(value: Json) returns (r: Json)
    ensures r == SortKeys(value)
    decreases value
  {
    hide Put, PutAll, Lookup, HasKey, Sort;
    match value {
      case Arr(items) =>
        var sorted := [];
        for i := 0 to |items|
          invariant |sorted| == i && forall k | 0 <= k < i :: sorted[k] == SortKeys(items[k])
        {
          var v := SortKeysOf(items[i]);
          sorted := sorted + [v];
        }
        r := Arr(sorted);
      case Obj(obj) =>
        var out, keys := [], Sort(Keys(obj));
        SortKeepsKeys(obj);
        forall i | 0 <= i < |keys| ensures HasKey(SortedValues(obj), keys[i]) {
          LookupSorted(obj, keys[i]);
        }
        PutNone(SortedValues(obj));
        for i := 0 to |keys|
          invariant out == PutAll(keys[..i], SortedValues(obj))
        {
          var k := keys[i];
          var v := SortKeysOf(Lookup(obj, k));
          LookupSorted(obj, k);
          PutNext(keys[..i], k, SortedValues(obj));
          assert keys[..i] + [k] == keys[..i + 1];
          out := Put(out, Member(k, v));
        }
        assert keys[..|keys|] == keys && Keys(SortedValues(obj)) == Keys(obj);
        SortObj(obj);
        r := Obj(out);
      case _ =>
        r := value;
    }
  }

  lemma PutNone(values: seq<Member>)
    ensures PutAll([], values) == []
  {
  }

  lemma PutNext(ks: seq<Text>, k: Text, values: seq<Member>)
    requires HasKey(values, k) && forall i | 0 <= i < |ks| :: HasKey(values, ks[i])
    ensures PutAll(ks + [k], values) == Put(PutAll(ks, values), Member(k, Lookup(values, k)))
  {
    hide Put, Lookup, HasKey;
    assert (ks + [k])[..|ks|] == ks;
  }
}
