/** UTF-8 as RFC 3629 defines it: the encoding of section 3 and the byte grammar of section 4. */
module Utf8 {
  type Byte = x: int | 0 <= x < 0x100

  type Bytes = seq<Byte>

  /** A Unicode scalar value: a code point that is no surrogate. */
  type Scalar = x: int | 0 <= x < 0xD800 || 0xE000 <= x < 0x11_0000

  /** Section 3: the octets of one character. */
  function Encode(c: Scalar): (b: Bytes)
    ensures 1 <= |b| <= 4
  {
    if c < 0x80 then [c]
    else if c < 0x800 then [0xC0 + c / 0x40, 0x80 + c % 0x40]
    else if c < 0x1_0000 then [0xE0 + c / 0x1000, 0x80 + c / 0x40 % 0x40, 0x80 + c % 0x40]
    else [0xF0 + c / 0x4_0000, 0x80 + c / 0x1000 % 0x40, 0x80 + c / 0x40 % 0x40, 0x80 + c % 0x40]
  }

  /** Characters of the examples in section 7. */
  lemma Section7()
    ensures Encode(0x41) == [0x41] && Encode(0x2262) == [0xE2, 0x89, 0xA2] && Encode(0x391) == [0xCE, 0x91]
    ensures Encode(0xD55C) == [0xED, 0x95, 0x9C] && Encode(0x233B4) == [0xF0, 0xA3, 0x8E, 0xB4] && Encode(0xFEFF) == [0xEF, 0xBB, 0xBF]
  {
  }

  function EncodeAll(cs: seq<Scalar>): Bytes {
    if cs == [] then [] else Encode(cs[0]) + EncodeAll(cs[1..])
  }

  predicate IsCont(b: Byte) { 0x80 <= b < 0xC0 }

  /** Section 4: the length of the UTF-8 character `b` starts with, 0 if it starts with none. */
  function CharLen(b: Bytes): (n: nat)
    ensures n <= |b| && n <= 4
  {
    if b == [] then 0
    else if b[0] < 0x80 then 1
    else if |b| < 2 || !IsCont(b[1]) then 0
    else if 0xC2 <= b[0] <= 0xDF then 2
    else if |b| < 3 || !IsCont(b[2]) then 0
    else if (b[0] == 0xE0 && 0xA0 <= b[1]) || 0xE1 <= b[0] <= 0xEC || (b[0] == 0xED && b[1] <= 0x9F) || 0xEE <= b[0] <= 0xEF
    then 3
    else if |b| < 4 || !IsCont(b[3]) then 0
    else if (b[0] == 0xF0 && 0x90 <= b[1]) || 0xF1 <= b[0] <= 0xF3 || (b[0] == 0xF4 && b[1] <= 0x8F) then 4
    else 0
  }

  /** A sequence of UTF-8 characters. */
  predicate ValidUtf8(b: Bytes) {
    b == [] || (CharLen(b) > 0 && ValidUtf8(b[CharLen(b)..]))
  }

  /** The octets the first one of a character announces. */
  function Width(lead: Byte): (n: nat)
    ensures 1 <= n <= 4
  {
    if lead >= 0xF0 then 4 else if lead >= 0xE0 then 3 else if lead >= 0xC0 then 2 else 1
  }

  /** What an encoded character looks like: a leading octet that announces its length, and continuations. */
  lemma EncodeShape(c: Scalar)
    ensures var b := Encode(c);
            !IsCont(b[0]) && Width(b[0]) == |b| && forall i | 0 < i < |b| :: IsCont(b[i])
  {
  }

  lemma EncodeStarts(c: Scalar, r: Bytes)
    ensures CharLen(Encode(c) + r) == |Encode(c)|
  {
    var b := Encode(c) + r;
    assert forall i | 0 <= i < |Encode(c)| :: b[i] == Encode(c)[i];
  }

  /** The bits an octet carries above its marker. */
  function Bits(b: Byte, marker: int): int { b - marker }

  /** The character a grammatical start of `b` encodes. */
  function Decode(b: Bytes): (c: Scalar)
    requires CharLen(b) > 0
  {
    if CharLen(b) == 1 then b[0]
    else if CharLen(b) == 2 then Bits(b[0], 0xC0) * 0x40 + Bits(b[1], 0x80)
    else if CharLen(b) == 3 then Bits(b[0], 0xE0) * 0x1000 + Bits(b[1], 0x80) * 0x40 + Bits(b[2], 0x80)
    else Bits(b[0], 0xF0) * 0x4_0000 + Bits(b[1], 0x80) * 0x1000 + Bits(b[2], 0x80) * 0x40 + Bits(b[3], 0x80)
  }

  lemma DecodeEncodes(b: Bytes)
    requires CharLen(b) > 0
    ensures Encode(Decode(b)) == b[..CharLen(b)]
  {
    hide Encode;
    var n := CharLen(b);
    if n == 1 {
      EncodeOne(b[0]);
    } else if n == 2 {
      EncodeTwo(Bits(b[0], 0xC0), Bits(b[1], 0x80));
    } else if n == 3 {
      EncodeThree(Bits(b[0], 0xE0), Bits(b[1], 0x80), Bits(b[2], 0x80));
    } else {
      EncodeFour(Bits(b[0], 0xF0), Bits(b[1], 0x80), Bits(b[2], 0x80), Bits(b[3], 0x80));
    }
  }

  lemma EncodeOne(c: Scalar)
    requires c < 0x80
    ensures Encode(c) == [c]
  {
  }

  lemma EncodeTwo(y: nat, z: nat)
    requires 2 <= y < 0x20 && z < 0x40
    ensures Encode(y * 0x40 + z) == [0xC0 + y, 0x80 + z]
  {
  }

  lemma EncodeThree(x: nat, y: nat, z: nat)
    requires x < 0x10 && y < 0x40 && z < 0x40
    requires (x == 0 ==> 0x20 <= y) && (x == 0xD ==> y < 0x20)
    ensures Encode(x * 0x1000 + y * 0x40 + z) == [0xE0 + x, 0x80 + y, 0x80 + z]
  {
    FourOctets(0, x, y, z);
  }

  lemma EncodeFour(w: nat, x: nat, y: nat, z: nat)
    requires w < 5 && x < 0x40 && y < 0x40 && z < 0x40
    requires (w == 0 ==> 0x10 <= x) && (w == 4 ==> x < 0x10)
    ensures Encode(w * 0x4_0000 + x * 0x1000 + y * 0x40 + z) == [0xF0 + w, 0x80 + x, 0x80 + y, 0x80 + z]
  {
    FourOctets(w, x, y, z);
  }

  lemma FourOctets(w: nat, x: nat, y: nat, z: nat)
    requires x < 0x40 && y < 0x40 && z < 0x40
    ensures var c := w * 0x4_0000 + x * 0x1000 + y * 0x40 + z;
            c / 0x4_0000 == w && c / 0x1000 % 0x40 == x && c / 0x40 % 0x40 == y && c % 0x40 == z
  {
    var c := w * 0x4_0000 + x * 0x1000 + y * 0x40 + z;
    assert c / 0x40 == w * 0x1000 + x * 0x40 + y;
    assert c / 0x1000 == w * 0x40 + x;
    assert c / 0x4_0000 == w;
  }

  /** The grammar of section 4 accepts exactly the encodings of section 3. */
  lemma {:induction false} ValidIffEncoded(b: Bytes)
    ensures ValidUtf8(b) <==> exists cs :: EncodeAll(cs) == b
  {
    if ValidUtf8(b) {
      var cs := Decoded(b);
    }
    forall cs | EncodeAll(cs) == b ensures ValidUtf8(b) {
      EncodedIsValid(cs);
    }
  }

  lemma {:induction false} Decoded(b: Bytes) returns (cs: seq<Scalar>)
    requires ValidUtf8(b)
    ensures EncodeAll(cs) == b
  {
    hide Decode, CharLen, Encode;
    if b == [] {
      cs := [];
    } else {
      var n := CharLen(b);
      var rest := Decoded(b[n..]);
      DecodeEncodes(b);
      cs := [Decode(b)] + rest;
      assert cs[1..] == rest && b == b[..n] + b[n..];
    }
  }

  lemma {:induction false} EncodedIsValid(cs: seq<Scalar>)
    ensures ValidUtf8(EncodeAll(cs))
  {
    hide Encode, CharLen;
    if cs != [] {
      EncodedIsValid(cs[1..]);
      EncodeStarts(cs[0], EncodeAll(cs[1..]));
      assert (Encode(cs[0]) + EncodeAll(cs[1..]))[|Encode(cs[0])|..] == EncodeAll(cs[1..]);
    }
  }

  lemma {:induction false} EncodeAllConcat(a: seq<Scalar>, b: seq<Scalar>)
    ensures EncodeAll(a + b) == EncodeAll(a) + EncodeAll(b)
  {
    hide Encode;
    if a == [] {
      assert a + b == b;
    } else {
      EncodeAllConcat(a[1..], b);
      assert (a + b)[1..] == a[1..] + b;
    }
  }

  /** How many whole characters of `cs` fit in `n` octets. */
  function Whole(cs: seq<Scalar>, n: nat): (m: nat)
    ensures m <= |cs|
  {
    if cs == [] || |Encode(cs[0])| > n then 0 else 1 + Whole(cs[1..], n - |Encode(cs[0])|)
  }

  /** `Whole` is the longest prefix that fits. */
  lemma {:induction false} WholeIsLongest(cs: seq<Scalar>, n: nat)
    ensures var m := Whole(cs, n);
            |EncodeAll(cs[..m])| <= n && (m < |cs| ==> |EncodeAll(cs[..m + 1])| > n)
  {
    hide Encode;
    var m := Whole(cs, n);
    if cs == [] {
    } else if |Encode(cs[0])| > n {
      assert cs[..1][1..] == [];
    } else {
      WholeIsLongest(cs[1..], n - |Encode(cs[0])|);
      assert cs[..m][1..] == cs[1..][..m - 1];
      assert m < |cs| ==> cs[..m + 1][1..] == cs[1..][..m];
    }
  }
}
