/** A reader of JSON texts, after the grammar of sections 2 to 7 of RFC 8259. It does not skip
    insignificant white space, so a text it reads has none. */
module JsonReader {
  import opened Outcomes
  import opened Utf16

  datatype Json =
    | Null
    | Bool(b: bool)
    | Num(token: Text)
    | Str(s: Text)
    | Arr(items: seq<Json>)
    | Obj(members: seq<Member>)

  datatype Member = Member(key: Text, value: Json)

  // ----- Numbers: section 6 -----

  predicate IsDigit(c: Unit) { 0x30 <= c <= 0x39 }

  /** How many digits `t` starts with. */
  function Digits(t: Text): (n: nat)
    ensures n <= |t|
  {
    if t == [] || !IsDigit(t[0]) then 0 else 1 + Digits(t[1..])
  }

  /** `int = zero / ( digit1-9 *DIGIT )` */
  function IntLen(t: Text): (n: nat)
    ensures n <= |t|
  {
    if t != [] && t[0] == 0x30 then 1 else Digits(t)
  }

  /** `[ "." 1*DIGIT ]` */
  function FracLen(t: Text): (n: nat)
    ensures n <= |t|
  {
    if t != [] && t[0] == 0x2E && Digits(t[1..]) > 0 then 1 + Digits(t[1..]) else 0
  }

  /** `[ e [ minus / plus ] 1*DIGIT ]` */
  function ExpLen(t: Text): (n: nat)
    ensures n <= |t|
  {
    if t == [] || (t[0] != 0x65 && t[0] != 0x45) then 0
    else
      var sign := if |t| > 1 && (t[1] == 0x2B || t[1] == 0x2D) then 2 else 1;
      if Digits(t[sign..]) > 0 then sign + Digits(t[sign..]) else 0
  }

  /** What may follow the integer part. */
  function TailLen(t: Text): (n: nat)
    ensures n <= |t|
  {
    FracLen(t) + ExpLen(t[FracLen(t)..])
  }

  /** `number = [ minus ] int [ frac ] [ exp ]`: how much of `t` it takes, 0 if none is there. */
  function NumberLen(t: Text): (n: nat)
    ensures n <= |t|
  {
    var m := if t != [] && t[0] == 0x2D then 1 else 0;
    var i := IntLen(t[m..]);
    if i == 0 then 0 else m + i + TailLen(t[m + i..])
  }

  predicate IsNumber(t: Text) {
    t != [] && NumberLen(t) == |t|
  }

  // ----- Strings: section 7 -----

  function HexDigit(c: Unit): Option<nat> {
    if 0x30 <= c <= 0x39 then Some(c - 0x30)
    else if 0x41 <= c <= 0x46 then Some(c - 0x37)
    else if 0x61 <= c <= 0x66 then Some(c - 0x57)
    else None
  }

  /** The four digits after `\u`. */
  function Hex4At(t: Text): (u: Option<Unit>)
    requires |t| >= 4
  {
    var a, b, c, d := HexDigit(t[0]), HexDigit(t[1]), HexDigit(t[2]), HexDigit(t[3]);
    if a.Some? && b.Some? && c.Some? && d.Some? then
      var v := 0x1000 * a.value + 0x100 * b.value + 0x10 * c.value + d.value;
      if v < 0x1_0000 then Some(v) else None
    else None
  }

  /** What a letter after a backslash stands for. */
  function Escaped(e: Unit): Option<Unit> {
    match e
    case 0x22 => Some(0x22)
    case 0x5C => Some(0x5C)
    case 0x2F => Some(0x2F)
    case 0x62 => Some(0x08)
    case 0x66 => Some(0x0C)
    case 0x6E => Some(0x0A)
    case 0x72 => Some(0x0D)
    case 0x74 => Some(0x09)
    case _ => None
  }

  /** One character: the units it stands for, and how much of `t` it takes. An unescaped one is a Unicode
      scalar value, so a surrogate only comes in a pair. */
  function ReadChar(t: Text): (r: Option<(Text, nat)>)
    ensures r.Some? ==> 0 < r.value.1 <= |t|
  {
    if t == [] || t[0] < 0x20 || t[0] == 0x22 then None
    else if t[0] == 0x5C then
      if |t| >= 6 && t[1] == 0x75 then
        match Hex4At(t[2..])
        case Some(u) => Some(([u], 6))
        case None => None
      else if |t| < 2 then None
      else
        match Escaped(t[1])
        case Some(u) => Some(([u], 2))
        case None => None
    else if 0xD800 <= t[0] < 0xDC00 then
      if |t| >= 2 && 0xDC00 <= t[1] < 0xE000 then Some((t[..2], 2)) else None
    else if 0xDC00 <= t[0] < 0xE000 then None
    else Some((t[..1], 1))
  }

  /** The characters up to the closing quotation mark. */
  function ReadChars(t: Text): (r: Option<(Text, Text)>)
    ensures r.Some? ==> |r.value.1| < |t|
    decreases |t|
  {
    if t != [] && t[0] == 0x22 then Some(([], t[1..]))
    else
      match ReadChar(t)
      case None => None
      case Some(c) =>
        match ReadChars(t[c.1..])
        case None => None
        case Some(more) => Some((c.0 + more.0, more.1))
  }

  // ----- Values: sections 3 to 5 -----

  const NULL: Text := [0x6E, 0x75, 0x6C, 0x6C]
  const TRUE: Text := [0x74, 0x72, 0x75, 0x65]
  const FALSE: Text := [0x66, 0x61, 0x6C, 0x73, 0x65]

  function ReadValue(t: Text): (r: Option<(Json, Text)>)
    ensures r.Some? ==> |r.value.1| < |t|
    decreases |t|, 0
  {
    if t == [] then None
    else if NULL <= t then Some((Null, t[4..]))
    else if TRUE <= t then Some((Bool(true), t[4..]))
    else if FALSE <= t then Some((Bool(false), t[5..]))
    else if t[0] == 0x22 then
      match ReadChars(t[1..])
      case None => None
      case Some(x) => Some((Str(x.0), x.1))
    else if t[0] == 0x5B then
      if |t| > 1 && t[1] == 0x5D then Some((Arr([]), t[2..]))
      else
        match ReadItems(t[1..])
        case None => None
        case Some(x) => Some((Arr(x.0), x.1))
    else if t[0] == 0x7B then
      if |t| > 1 && t[1] == 0x7D then Some((Obj([]), t[2..]))
      else
        match ReadMembers(t[1..])
        case None => None
        case Some(x) => Some((Obj(x.0), x.1))
    else if NumberLen(t) > 0 then Some((Num(t[..NumberLen(t)]), t[NumberLen(t)..]))
    else None
  }

  /** `value *( "," value ) "]"` */
  function ReadItems(t: Text): (r: Option<(seq<Json>, Text)>)
    ensures r.Some? ==> |r.value.1| < |t|
    decreases |t|, 1
  {
    match ReadValue(t)
    case None => None
    case Some(x) =>
      if x.1 != [] && x.1[0] == 0x5D then Some(([x.0], x.1[1..]))
      else if x.1 != [] && x.1[0] == 0x2C then
        match ReadItems(x.1[1..])
        case None => None
        case Some(more) => Some(([x.0] + more.0, more.1))
      else None
  }

  /** `string ":" value` */
  function ReadMember(t: Text): (r: Option<(Member, Text)>)
    ensures r.Some? ==> |r.value.1| < |t|
    decreases |t|, 1
  {
    if t == [] || t[0] != 0x22 then None
    else
      match ReadChars(t[1..])
      case None => None
      case Some(k) =>
        if k.1 == [] || k.1[0] != 0x3A then None
        else
          match ReadValue(k.1[1..])
          case None => None
          case Some(x) => Some((Member(k.0, x.0), x.1))
  }

  /** `member *( "," member ) "}"` */
  function ReadMembers(t: Text): (r: Option<(seq<Member>, Text)>)
    ensures r.Some? ==> |r.value.1| < |t|
    decreases |t|, 2
  {
    match ReadMember(t)
    case None => None
    case Some(x) =>
      if x.1 != [] && x.1[0] == 0x7D then Some(([x.0], x.1[1..]))
      else if x.1 != [] && x.1[0] == 0x2C then
        match ReadMembers(x.1[1..])
        case None => None
        case Some(more) => Some(([x.0] + more.0, more.1))
      else None
  }

  /** The value of a whole text. */
  function Parse(t: Text): Option<Json> {
    match ReadValue(t)
    case Some(x) => if x.1 == [] then Some(x.0) else None
    case None => None
  }
}
