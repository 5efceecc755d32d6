/** `normalizeBundledText` of `scripts/generate-bundled-defaults.ts`: eighteen passes over a text, as one
    map of its characters after the line ends are collapsed. */
module BundledText {
  import opened Utf16

  /** One `replace` of the characters from `lo` to `hi` by a text. */
  datatype Rule = Rule(lo: Unit, hi: Unit, image: Text)

  predicate Takes(r: Rule, c: Unit) {
    r.lo <= c <= r.hi
  }

  const CR: Unit := 0x0D
  const LF: Unit := 0x0A
  const BOM: Unit := 0xFEFF

  /** The fifteen character passes, in order. */
  const RULES: seq<Rule> := [
    Rule(0x00A0, 0x00A0, [0x20]),
    Rule(0x2010, 0x2015, [0x2D, 0x2D]),
    Rule(0x2018, 0x201B, [0x27]),
    Rule(0x201C, 0x201F, [0x22]),
    Rule(0x2026, 0x2026, [0x2E, 0x2E, 0x2E]),
    Rule(0x00B7, 0x00B7, [0x2D]),
    Rule(0x2212, 0x2212, [0x2D]),
    Rule(0x2192, 0x2192, [0x2D, 0x3E]),
    Rule(0x2190, 0x2190, [0x3C, 0x2D]),
    Rule(0x21D2, 0x21D2, [0x3D, 0x3E]),
    Rule(0x2264, 0x2264, [0x3C, 0x3D]),
    Rule(0x2265, 0x2265, [0x3E, 0x3D]),
    Rule(0x2260, 0x2260, [0x21, 0x3D]),
    Rule(0x2713, 0x2713, [0x50, 0x41, 0x53, 0x53]),
    Rule(0x2717, 0x2717, [0x46, 0x41, 0x49, 0x4C])
  ]

  predicate IsAscii(t: Text) {
    forall i | 0 <= i < |t| :: t[i] <= 0x7F
  }

  // ----- The passes -----

  /** `replace(/^\uFEFF/, '')` */
  function StripBom(t: Text): Text {
    if t != [] && t[0] == BOM then t[1..] else t
  }

  /** `replace(/\r\n/g, '\n')` */
  function Collapse(t: Text): Text {
    if t == [] then []
    else if |t| > 1 && t[0] == CR && t[1] == LF then [LF] + Collapse(t[2..])
    else [t[0]] + Collapse(t[1..])
  }

  function ReplaceOne(c: Unit, r: Rule): Text {
    if Takes(r, c) then r.image else [c]
  }

  function Replace(t: Text, r: Rule): Text {
    if t == [] then [] else ReplaceOne(t[0], r) + Replace(t[1..], r)
  }

  function ReplaceAll(t: Text, rules: seq<Rule>): Text
    decreases |rules|
  {
    if rules == [] then t else ReplaceAll(Replace(t, rules[0]), rules[1..])
  }

  /** The final filter. */
  function DropNonAscii(t: Text): Text {
    if t == [] then [] else KeepAscii(t[0]) + DropNonAscii(t[1..])
  }

  function KeepAscii(c: Unit): Text {
    if c <= 0x7F then [c] else []
  }

  /** `normalizeBundledText` */
  function Normalize(raw: Text): Text {
    DropNonAscii(ReplaceAll(Collapse(StripBom(raw)), RULES))
  }

  // ----- One map -----

  /** The text one character becomes: its own rule's, itself, or nothing. */
  function Image(c: Unit, rules: seq<Rule>): Text {
    if c <= 0x7F then [c]
    else if rules == [] then []
    else if Takes(rules[0], c) then rules[0].image
    else Image(c, rules[1..])
  }

  function MapAll(t: Text, rules: seq<Rule>): Text {
    if t == [] then [] else Image(t[0], rules) + MapAll(t[1..], rules)
  }

  /** Rules replace characters outside ASCII by ASCII texts. */
  predicate Sound(rules: seq<Rule>) {
    forall k | 0 <= k < |rules| :: IsAscii(rules[k].image) && rules[k].lo > 0x7F
  }

  predicate Disjoint(rules: seq<Rule>) {
    forall i, j | 0 <= i < j < |rules| :: rules[i].hi < rules[j].lo || rules[j].hi < rules[i].lo
  }

  lemma RulesSound()
    ensures Sound(RULES) && Disjoint(RULES) && |RULES| == 15
  {
    hide Disjoint;
    RulesDisjoint();
  }

  lemma RulesDisjoint()
    ensures Disjoint(RULES)
  {
    hide RULES;
    FirstRulesDisjoint();
    LastRulesDisjoint();
  }

  lemma FirstRulesDisjoint()
    ensures |RULES| == 15
    ensures forall i, j | 0 <= i < j < 15 && i < 5 :: RULES[i].hi < RULES[j].lo || RULES[j].hi < RULES[i].lo
  {
  }

  lemma LastRulesDisjoint()
    ensures |RULES| == 15
    ensures forall i, j | 5 <= i < j < 15 :: RULES[i].hi < RULES[j].lo || RULES[j].hi < RULES[i].lo
  {
  }

  lemma {:induction false} ReplaceConcat(a: Text, b: Text, r: Rule)
    ensures Replace(a + b, r) == Replace(a, r) + Replace(b, r)
  {
    hide ReplaceOne;
    if a == [] {
      assert a + b == b;
    } else {
      ReplaceConcat(a[1..], b, r);
      assert (a + b)[1..] == a[1..] + b;
    }
  }

  lemma {:induction false} ReplaceAllConcat(a: Text, b: Text, rules: seq<Rule>)
    ensures ReplaceAll(a + b, rules) == ReplaceAll(a, rules) + ReplaceAll(b, rules)
    decreases |rules|
  {
    hide Replace;
    if rules != [] {
      ReplaceConcat(a, b, rules[0]);
      ReplaceAllConcat(Replace(a, rules[0]), Replace(b, rules[0]), rules[1..]);
    }
  }

  lemma {:induction false} DropConcat(a: Text, b: Text)
    ensures DropNonAscii(a + b) == DropNonAscii(a) + DropNonAscii(b)
  {
    hide KeepAscii;
    if a == [] {
      assert a + b == b;
    } else {
      DropConcat(a[1..], b);
      assert (a + b)[1..] == a[1..] + b;
    }
  }

  lemma {:induction false} AsciiReplaced(t: Text, r: Rule)
    requires IsAscii(t) && r.lo > 0x7F
    ensures Replace(t, r) == t
  {
    if t != [] {
      AsciiReplaced(t[1..], r);
    }
  }

  /** ASCII passes through every pass unchanged. */
  lemma {:induction false} AsciiPasses(t: Text, rules: seq<Rule>)
    requires IsAscii(t) && Sound(rules)
    ensures DropNonAscii(ReplaceAll(t, rules)) == t
    decreases |rules|, |t|
  {
    if rules != [] {
      AsciiReplaced(t, rules[0]);
      AsciiPasses(t, rules[1..]);
    } else if t != [] {
      AsciiPasses(t[1..], rules);
    }
  }

  /** The passes over one character. */
  lemma {:induction false} OneCharacter(c: Unit, rules: seq<Rule>)
    requires Sound(rules)
    ensures DropNonAscii(ReplaceAll([c], rules)) == Image(c, rules)
    decreases |rules|
  {
    if c <= 0x7F {
      AsciiPasses([c], rules);
    } else if rules != [] {
      assert [c][1..] == [] && Replace([c], rules[0]) == if Takes(rules[0], c) then rules[0].image else [c];
      if Takes(rules[0], c) {
        AsciiPasses(rules[0].image, rules[1..]);
      } else {
        OneCharacter(c, rules[1..]);
      }
    }
  }

  /** All the passes together are one left-to-right map. */
  lemma {:induction false} PassesAreOneMap(t: Text, rules: seq<Rule>)
    requires Sound(rules)
    ensures DropNonAscii(ReplaceAll(t, rules)) == MapAll(t, rules)
  {
    hide Image, Replace;
    if t == [] {
      AsciiPasses([], rules);
    } else {
      assert t == [t[0]] + t[1..];
      ReplaceAllConcat([t[0]], t[1..], rules);
      DropConcat(ReplaceAll([t[0]], rules), ReplaceAll(t[1..], rules));
      OneCharacter(t[0], rules);
      PassesAreOneMap(t[1..], rules);
    }
  }

  /** The map is the table: a character's rule, wherever it stands, or none. */
  lemma {:induction false} ImageIsTheTable(c: Unit, rules: seq<Rule>)
    requires Sound(rules) && Disjoint(rules)
    ensures c <= 0x7F ==> Image(c, rules) == [c]
    ensures forall k | 0 <= k < |rules| && Takes(rules[k], c) :: Image(c, rules) == rules[k].image
    ensures c > 0x7F && (forall k | 0 <= k < |rules| :: !Takes(rules[k], c)) ==> Image(c, rules) == []
  {
    if rules != [] {
      ImageIsTheTable(c, rules[1..]);
      assert forall k | 0 < k < |rules| :: rules[k] == rules[1..][k - 1];
    }
  }

  /** `normalizeBundledText` is the character map after the line ends are collapsed; a byte order mark
      at the start goes the way of every other character without a rule. */
  lemma {:induction false} NormalizeIsOneMap(raw: Text)
    ensures Normalize(raw) == MapAll(Collapse(StripBom(raw)), RULES)
    ensures Normalize(raw) == MapAll(Collapse(raw), RULES)
  {
    hide RULES, Sound, Disjoint;
    RulesSound();
    PassesAreOneMap(Collapse(StripBom(raw)), RULES);
    if raw != [] && raw[0] == BOM {
      assert Collapse(raw) == [BOM] + Collapse(raw[1..]) && ([BOM] + Collapse(raw[1..]))[1..] == Collapse(raw[1..]);
      BomHasNoRule();
    }
  }

  lemma BomHasNoRule()
    ensures Image(BOM, RULES) == []
  {
    hide RULES, Sound, Disjoint;
    RulesSound();
    RulesBelowBom();
    ImageIsTheTable(BOM, RULES);
  }

  lemma RulesBelowBom()
    ensures forall k | 0 <= k < |RULES| :: RULES[k].hi < BOM
  {
  }

  predicate Spells(t: Text, s: string) {
    |t| == |s| && forall i | 0 <= i < |s| :: t[i] == s[i] as int
  }

  /** What each character outside ASCII becomes, in letters. */
  function Spelled(c: Unit): string {
    if c == 0xA0 then " "
    else if 0x2010 <= c <= 0x2015 then "--"
    else if c in {0x2018, 0x2019, 0x201A, 0x201B} then "'"
    else if c in {0x201C, 0x201D, 0x201E, 0x201F} then ['"']
    else if c == 0x2026 then "..."
    else if c == 0xB7 || c == 0x2212 then "-"
    else if c == 0x2192 then "->"
    else if c == 0x2190 then "<-"
    else if c == 0x21D2 then "=>"
    else if c == 0x2264 then "<="
    else if c == 0x2265 then ">="
    else if c == 0x2260 then "!="
    else if c == 0x2713 then "PASS"
    else if c == 0x2717 then "FAIL"
    else ""
  }

  /** A character outside ASCII becomes just those letters. */
  lemma {:induction false} ImageIsSpelled(c: Unit)
    ensures if c <= 0x7F then Image(c, RULES) == [c] else Spells(Image(c, RULES), Spelled(c))
  {
    hide RULES, Sound, Disjoint, Spelled, Spells;
    RulesSound();
    ImageIsTheTable(c, RULES);
    FirstRules(c);
    MoreRules(c);
    LastRules(c);
    NoRule(c);
  }

  lemma FirstRules(c: Unit)
    ensures |RULES| == 15 && forall k | 0 <= k < 5 && Takes(RULES[k], c) :: Spells(RULES[k].image, Spelled(c))
  {
  }

  lemma MoreRules(c: Unit)
    ensures |RULES| == 15 && forall k | 5 <= k < 10 && Takes(RULES[k], c) :: Spells(RULES[k].image, Spelled(c))
  {
  }

  lemma LastRules(c: Unit)
    ensures |RULES| == 15 && forall k | 10 <= k < 15 && Takes(RULES[k], c) :: Spells(RULES[k].image, Spelled(c))
  {
  }

  lemma NoRule(c: Unit)
    ensures |RULES| == 15 && ((forall k | 0 <= k < 15 :: !Takes(RULES[k], c)) ==> Spells([], Spelled(c)))
  {
    assert RULES[0].lo == 0xA0 && RULES[1].lo == 0x2010 && RULES[2].lo == 0x2018 && RULES[3].lo == 0x201C && RULES[4].lo == 0x2026;
    assert RULES[5].lo == 0xB7 && RULES[6].lo == 0x2212 && RULES[7].lo == 0x2192 && RULES[8].lo == 0x2190 && RULES[9].lo == 0x21D2;
    assert RULES[10].lo == 0x2264 && RULES[11].lo == 0x2265 && RULES[12].lo == 0x2260 && RULES[13].lo == 0x2713 && RULES[14].lo == 0x2717;
  }

  /** The first CRLF of a text becomes one line feed; what precedes it stays, and what follows is treated in
      the same way. */
  lemma {:induction false} CollapseFirst(a: Text, b: Text)
    requires !HasCrlf(a + [CR])
    ensures Collapse(a + [CR, LF] + b) == a + ([LF] + Collapse(b))
  {
    var t := a + [CR, LF] + b;
    if a == [] {
      assert t[0] == CR && t[1] == LF && t[2..] == b;
    } else {
      var a' := a[1..];
      assert (a + [CR])[1..] == a' + [CR];
      assert forall i | 0 <= i < |a'| :: (a + [CR])[i + 1] == (a' + [CR])[i];
      assert !(t[0] == CR && t[1] == LF) by {
        assert (a + [CR])[0] == t[0] && (a + [CR])[1] == t[1];
      }
      assert forall i | 0 <= i < |a' + [CR]| - 1 && (a' + [CR])[i] == CR && (a' + [CR])[i + 1] == LF ::
          (a + [CR])[i + 1] == CR && (a + [CR])[i + 1 + 1] == LF;
      CollapseFirst(a', b);
      assert t[1..] == a' + [CR, LF] + b;
      assert a == [a[0]] + a';
    }
  }

  lemma {:induction false} MapIsAscii(t: Text, rules: seq<Rule>)
    requires Sound(rules)
    ensures IsAscii(MapAll(t, rules))
  {
    if t != [] {
      ImageIsAscii(t[0], rules);
      MapIsAscii(t[1..], rules);
    }
  }

  lemma {:induction false} ImageIsAscii(c: Unit, rules: seq<Rule>)
    requires Sound(rules)
    ensures IsAscii(Image(c, rules))
  {
    if c > 0x7F && rules != [] && !Takes(rules[0], c) {
      ImageIsAscii(c, rules[1..]);
    }
  }

  predicate HasCrlf(t: Text) {
    exists i :: 0 <= i < |t| - 1 && t[i] == CR && t[i + 1] == LF
  }

  lemma {:induction false} CollapseIdentity(t: Text)
    ensures Collapse(t) == t <==> !HasCrlf(t)
    ensures |Collapse(t)| <= |t|
    ensures HasCrlf(t) ==> |Collapse(t)| < |t|
  {
    if |t| > 1 && t[0] == CR && t[1] == LF {
      CollapseIdentity(t[2..]);
      assert |Collapse(t)| < |t|;
    } else if t != [] {
      CollapseIdentity(t[1..]);
      CrlfTail(t);
    }
  }

  lemma CrlfTail(t: Text)
    requires t != []
    ensures HasCrlf(t) <==> (|t| > 1 && t[0] == CR && t[1] == LF) || HasCrlf(t[1..])
  {
    forall i | 0 < i < |t| - 1 && t[i] == CR && t[i + 1] == LF ensures HasCrlf(t[1..]) {
      assert t[1..][i - 1] == CR && t[1..][i] == LF;
    }
    forall i | 0 <= i < |t[1..]| - 1 && t[1..][i] == CR && t[1..][i + 1] == LF ensures HasCrlf(t) {
      assert t[i + 1] == CR && t[i + 2] == LF;
    }
  }

  /** On ASCII text only the line ends are touched; without a CRLF nothing is. */
  lemma {:induction false} AsciiNormalized(t: Text)
    requires IsAscii(t)
    ensures Normalize(t) == Collapse(t)
    ensures Normalize(t) == t <==> !HasCrlf(t)
  {
    hide RULES, Sound, Disjoint, Collapse;
    RulesSound();
    CollapseAscii(t);
    AsciiPasses(Collapse(t), RULES);
    assert t != [] ==> t[0] != BOM;
    CollapseIdentity(t);
  }

  lemma {:induction false} CollapseAscii(t: Text)
    requires IsAscii(t)
    ensures IsAscii(Collapse(t))
  {
    if |t| > 1 && t[0] == CR && t[1] == LF {
      CollapseAscii(t[2..]);
    } else if t != [] {
      CollapseAscii(t[1..]);
    }
  }

  lemma {:induction false} OutputIsAscii(raw: Text)
    ensures IsAscii(Normalize(raw))
  {
    hide RULES, Sound, Disjoint, MapAll, Normalize;
    NormalizeIsOneMap(raw);
    RulesSound();
    MapIsAscii(Collapse(raw), RULES);
  }

  // ----- Normalizing twice -----

  /** Scanning the text, a carriage return that stays meets a line end that stays, with only dropped
      characters between. `pending`: such a carriage return was just passed. */
  predicate Fragile(t: Text, pending: bool) {
    if t == [] then false
    else if |t| > 1 && t[0] == CR && t[1] == LF then pending || Fragile(t[2..], false)
    else if t[0] == LF then pending || Fragile(t[1..], false)
    else Fragile(t[1..], t[0] == CR || (pending && Image(t[0], RULES) == []))
  }

  /** An image that is no line end itself begins with none and ends with no carriage return. */
  lemma ImagesAreNoLineEnds(c: Unit)
    requires c != CR && c != LF
    ensures CR !in Image(c, RULES) && LF !in Image(c, RULES)
  {
    hide RULES;
    RulesSound();
    RuleTextsAreNoLineEnds();
    if c > 0x7F {
      ImageIsTheTable(c, RULES);
      if k :| 0 <= k < |RULES| && Takes(RULES[k], c) {
        assert Image(c, RULES) == RULES[k].image;
      }
    }
  }

  lemma RuleTextsAreNoLineEnds()
    ensures forall k | 0 <= k < |RULES| :: CR !in RULES[k].image && LF !in RULES[k].image
  {
  }

  lemma CrlfConcat(a: Text, b: Text)
    requires CR !in a && LF !in a && a != []
    ensures HasCrlf(a + b) <==> HasCrlf(b)
    ensures HasCrlf([CR] + a + b) <==> HasCrlf(b)
    decreases |a|
  {
    CrlfTail(a + b);
    CrlfTail([CR] + a + b);
    assert (a + b)[1..] == a[1..] + b && ([CR] + a + b)[1..] == a + b;
    assert a[0] in a;
    if |a| > 1 {
      CrlfConcat(a[1..], b);
    } else {
      assert a[1..] + b == b;
    }
  }

  /** The scan finds exactly the texts whose result still has a CRLF. */
  lemma {:induction false} FragileIff(t: Text, pending: bool)
    ensures HasCrlf((if pending then [CR] else []) + MapAll(Collapse(t), RULES)) <==> Fragile(t, pending)
    decreases |t|
  {
    hide RULES, Image;
    var pre: Text := if pending then [CR] else [];
    if t == [] {
      assert pre + [] == pre && |pre| <= 1;
    } else if |t| > 1 && t[0] == CR && t[1] == LF {
      LineEndImages();
      FragileIff(t[2..], false);
      var rest := MapAll(Collapse(t[2..]), RULES);
      assert MapAll(Collapse(t), RULES) == [LF] + rest by {
        assert ([LF] + Collapse(t[2..]))[1..] == Collapse(t[2..]);
      }
      StartsWithLf(pending, rest);
    } else {
      var rest := MapAll(Collapse(t[1..]), RULES);
      assert MapAll(Collapse(t), RULES) == Image(t[0], RULES) + rest by {
        assert ([t[0]] + Collapse(t[1..]))[1..] == Collapse(t[1..]);
      }
      FragileStep(t, pending, rest);
    }
  }

  lemma LineEndImages()
    ensures Image(CR, RULES) == [CR] && Image(LF, RULES) == [LF]
  {
  }

  lemma StartsWithLf(pending: bool, rest: Text)
    ensures HasCrlf((if pending then [CR] else []) + ([LF] + rest)) <==> pending || HasCrlf(rest)
    ensures [] + rest == rest
  {
    var t := [LF] + rest;
    CrlfTail(t);
    assert t[1..] == rest && [] + t == t;
    if pending {
      assert ([CR] + t)[0] == CR && ([CR] + t)[1] == LF;
    }
  }

  lemma FragileStep(t: Text, pending: bool, rest: Text)
    requires t != [] && !(|t| > 1 && t[0] == CR && t[1] == LF) && rest == MapAll(Collapse(t[1..]), RULES)
    ensures HasCrlf((if pending then [CR] else []) + (Image(t[0], RULES) + rest)) <==> Fragile(t, pending)
    decreases |t|, 0
  {
    hide RULES, Image, HasCrlf;
    LineEndImages();
    var c, img := t[0], Image(t[0], RULES);
    if c == LF {
      FragileIff(t[1..], false);
      StartsWithLf(pending, rest);
    } else if c == CR {
      FragileIff(t[1..], true);
      CrAgain(rest);
      assert [] + ([CR] + rest) == [CR] + rest;
    } else if img == [] {
      FragileIff(t[1..], pending);
      assert img + rest == rest;
    } else {
      FragileIff(t[1..], false);
      ImagesAreNoLineEnds(c);
      CrlfConcat(img, rest);
      assert [CR] + (img + rest) == [CR] + img + rest && [] + (img + rest) == img + rest && [] + rest == rest;
    }
  }

  lemma CrAgain(rest: Text)
    ensures HasCrlf([CR] + ([CR] + rest)) <==> HasCrlf([CR] + rest)
  {
    CrlfTail([CR] + ([CR] + rest));
    assert ([CR] + ([CR] + rest))[1..] == [CR] + rest;
  }

  /** Normalizing is idempotent on a text exactly if no carriage return is left before a line end. */
  lemma {:induction false} IdempotentIff(raw: Text)
    ensures Normalize(Normalize(raw)) == Normalize(raw) <==> !Fragile(raw, false)
  {
    hide RULES, Normalize, Fragile;
    OutputIsAscii(raw);
    AsciiNormalized(Normalize(raw));
    NormalizeIsOneMap(raw);
    FragileIff(raw, false);
    assert [] + Normalize(raw) == Normalize(raw);
  }

  lemma {:induction false} NoReturnNotFragile(t: Text)
    requires CR !in t
    ensures !Fragile(t, false)
  {
    hide RULES, Image;
    if t != [] {
      NoReturnNotFragile(t[1..]);
    }
  }

  /** In particular on every text without a carriage return; not on CR CR LF. */
  lemma {:induction false} IdempotentWithoutReturns(raw: Text)
    ensures CR !in raw ==> Normalize(Normalize(raw)) == Normalize(raw)
    ensures Normalize(Normalize([CR, CR, LF])) != Normalize([CR, CR, LF])
  {
    hide RULES, Normalize, Image;
    IdempotentIff(raw);
    if CR !in raw {
      NoReturnNotFragile(raw);
    }
    IdempotentIff([CR, CR, LF]);
    assert [CR, CR, LF][1..] == [CR, LF];
  }
}
