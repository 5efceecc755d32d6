/** `canonicalJsonStringify` of `packages/overseer/src/activation-package.ts`: recursive key sorting
    over JavaScript objects, then `JSON.stringify`, whose output follows RFC 8259. */
module CanonicalJson {
  import opened Utf16
  import opened JsonReader

  // A number of a tree is the token `JSON.stringify` prints for it (so 0 and -0 are one number); an object
  // lists its own properties in enumeration order.

  predicate DistinctKeys(ms: seq<Member>) {
    forall i, j | 0 <= i < j < |ms| :: ms[i].key != ms[j].key
  }

  predicate WellFormed(j: Json) {
    match j
    case Num(t) => IsNumber(t)
    case Arr(items) => forall i | 0 <= i < |items| :: WellFormed(items[i])
    case Obj(ms) => DistinctKeys(ms) && forall i | 0 <= i < |ms| :: WellFormed(ms[i].value)
    case _ => true
  }

  // ----- Assigning properties to a fresh object -----

  /** `__proto__`: assigning it sets the prototype, or does nothing; no own property appears. */
  const PROTO: Text := [0x5F, 0x5F, 0x70, 0x72, 0x6F, 0x74, 0x6F, 0x5F, 0x5F]

  predicate AllDigits(k: Text) {
    forall i | 0 <= i < |k| :: 0x30 <= k[i] <= 0x39
  }

  function Value(k: Text): nat
    requires AllDigits(k)
  {
    if k == [] then 0 else 10 * Value(k[..|k| - 1]) + (k[|k| - 1] - 0x30)
  }

  /** A canonical decimal: no leading zero, except "0" itself. */
  predicate IsDecimal(k: Text) {
    k != [] && AllDigits(k) && (k[0] == 0x30 ==> |k| == 1)
  }

  /** An array index: property names that enumerate first, in ascending numeric order. */
  predicate IsIndex(k: Text) {
    IsDecimal(k) && Value(k) < 0xFFFF_FFFF
  }

  /** The order in which the own properties of an object filled in sorted order enumerate. */
  predicate KeyLt(a: Text, b: Text) {
    if IsIndex(a) && IsIndex(b) then Value(a) < Value(b)
    else if IsIndex(a) || IsIndex(b) then IsIndex(a)
    else LexLt(a, b)
  }

  /** `out[key] = value` for a key `out` does not have. */
  function Put(out: seq<Member>, m: Member): seq<Member> {
    if m.key == PROTO then out
    else if !IsIndex(m.key) then out + [m]
    else if out == [] || !IsIndex(out[0].key) || Value(m.key) < Value(out[0].key) then [m] + out
    else [out[0]] + Put(out[1..], m)
  }

  predicate HasKey(ms: seq<Member>, k: Text) {
    exists i :: 0 <= i < |ms| && ms[i].key == k
  }

  /** `obj[key]` */
  function Lookup(ms: seq<Member>, k: Text): (v: Json)
    requires HasKey(ms, k)
    ensures Member(k, v) in ms
  {
    if ms[0].key == k then ms[0].value
    else
      assert HasKey(ms[1..], k) by {
        var i :| 0 <= i < |ms| && ms[i].key == k;
        assert ms[1..][i - 1].key == k;
      }
      Lookup(ms[1..], k)
  }

  function Keys(ms: seq<Member>): (ks: seq<Text>)
    ensures |ks| == |ms| && forall i | 0 <= i < |ms| :: ks[i] == ms[i].key
  {
    seq(|ms|, i requires 0 <= i < |ms| => ms[i].key)
  }

  /** The loop body over the first keys of `ks`: `out[key] = values[key]`. */
  function PutAll(ks: seq<Text>, values: seq<Member>): seq<Member>
    requires forall i | 0 <= i < |ks| :: HasKey(values, ks[i])
  {
    if ks == [] then []
    else
      var k := ks[|ks| - 1];
      Put(PutAll(ks[..|ks| - 1], values), Member(k, Lookup(values, k)))
  }

  lemma SortKeepsKeys(ms: seq<Member>)
    ensures forall i | 0 <= i < |Sort(Keys(ms))| :: HasKey(ms, Sort(Keys(ms))[i])
    ensures forall m | m in ms :: m.key in Sort(Keys(ms))
  {
    var ks := Sort(Keys(ms));
    SortSpec(Keys(ms));
    forall i | 0 <= i < |ks| ensures HasKey(ms, ks[i]) {
      assert ks[i] in multiset(ks);
      assert ks[i] in Keys(ms);
    }
    forall m | m in ms ensures m.key in ks {
      var i :| 0 <= i < |ms| && ms[i] == m;
      assert Keys(ms)[i] in multiset(Keys(ms));
    }
  }

  /** The object `sortKeys` builds from members whose values are already sorted. */
  function SortMembers(ms: seq<Member>): seq<Member> {
    SortKeepsKeys(ms);
    PutAll(Sort(Keys(ms)), ms)
  }

  /** `sortKeys` */
  function SortKeys(j: Json): Json {
    match j
    case Arr(items) => Arr(seq(|items|, i requires 0 <= i < |items| => SortKeys(items[i])))
    case Obj(ms) =>
      Obj(SortMembers(seq(|ms|, i requires 0 <= i < |ms| => Member(ms[i].key, SortKeys(ms[i].value)))))
    case _ => j
  }

  // ----- Equality up to key order, and what the sort loses -----

  /** The same tree up to the order of object keys, at every depth. */
  predicate Same(a: Json, b: Json)
    decreases a
  {
    match (a, b)
    case (Arr(xs), Arr(ys)) => |xs| == |ys| && forall i | 0 <= i < |xs| :: Same(xs[i], ys[i])
    case (Obj(ms), Obj(ns)) =>
      |ms| == |ns| && forall i | 0 <= i < |ms| :: SameIn(ms[i], ns)
    case _ => a == b
  }

  /** Some member of `ns` carries the key of `m` and the same value. */
  predicate SameIn(m: Member, ns: seq<Member>)
    decreases m
  {
    exists j :: 0 <= j < |ns| && m.key == ns[j].key && Same(m.value, ns[j].value)
  }

  function Kept(ms: seq<Member>): (r: seq<Member>)
    ensures forall m :: m in r <==> m in ms && m.key != PROTO
    ensures |r| <= |ms|
  {
    if ms == [] then [] else (if ms[0].key == PROTO then [] else [ms[0]]) + Kept(ms[1..])
  }

  /** The tree without its `__proto__` members. */
  function DropProto(j: Json): Json {
    match j
    case Arr(items) => Arr(seq(|items|, i requires 0 <= i < |items| => DropProto(items[i])))
    case Obj(ms) => Obj(Kept(seq(|ms|, i requires 0 <= i < |ms| => Member(ms[i].key, DropProto(ms[i].value)))))
    case _ => j
  }

  predicate HasProto(j: Json) {
    match j
    case Arr(items) => exists i :: 0 <= i < |items| && HasProto(items[i])
    case Obj(ms) => exists i :: 0 <= i < |ms| && (ms[i].key == PROTO || HasProto(ms[i].value))
    case _ => false
  }

  // ----- The enumeration order is a strict total order -----

  /** The decimal text of a number. */
  function Decimal(n: nat): Text {
    if n < 10 then [0x30 + n] else Decimal(n / 10) + [0x30 + n % 10]
  }

  lemma {:induction false} DecimalReads(n: nat)
    ensures IsDecimal(Decimal(n)) && Value(Decimal(n)) == n && (n > 0 ==> Decimal(n)[0] != 0x30)
  {
    var t := Decimal(n);
    if n >= 10 {
      DecimalReads(n / 10);
      assert t[..|t| - 1] == Decimal(n / 10);
    } else {
      assert t[..0] == [];
    }
  }

  /** Different canonical decimals are different numbers. */
  lemma {:induction false} DecimalOfValue(k: Text)
    requires IsDecimal(k)
    ensures Decimal(Value(k)) == k
    ensures k[0] != 0x30 ==> Value(k) > 0
  {
    var n := |k| - 1;
    var init, d := k[..n], k[n] - 0x30;
    assert k == init + [0x30 + d];
    assert Value(k) == 10 * Value(init) + d;
    if n > 0 {
      assert init[0] == k[0] != 0x30 && IsDecimal(init);
      DecimalOfValue(init);
      var v := Value(k);
      assert v >= 10 && v / 10 == Value(init) && v % 10 == d;
      assert Decimal(v) == Decimal(v / 10) + [0x30 + v % 10];
    } else {
      assert init == [] && Value(init) == 0 && k[0] == 0x30 + d;
      assert Decimal(d) == [0x30 + d] == k;
    }
  }

  ghost predicate IsIndexOf(k: Text, n: nat) {
    n < 4294967295 && k == Decimal(n)
  }

  /** An array index is the decimal text of a number below 2^32 - 1. */
  lemma IndexIff(k: Text)
    ensures IsIndex(k) <==> exists n: nat :: IsIndexOf(k, n)
    ensures IsIndex(k) ==> IsIndexOf(k, Value(k))
    ensures forall n: nat | IsIndexOf(k, n) :: IsIndex(k) && Value(k) == n
  {
    if IsIndex(k) {
      DecimalOfValue(k);
      assert IsIndexOf(k, Value(k));
    }
    forall n: nat | IsIndexOf(k, n) ensures IsIndex(k) && Value(k) == n {
      DecimalReads(n);
    }
  }

  lemma KeyOrder(a: Text, b: Text)
    ensures a == b || KeyLt(a, b) || KeyLt(b, a)
    ensures !(KeyLt(a, b) && KeyLt(b, a)) && !KeyLt(a, a)
  {
    hide LexLt;
    LexTotal(a, b);
    LexTotal(a, a);
    if IsIndex(a) && IsIndex(b) && Value(a) == Value(b) {
      DecimalOfValue(a);
      DecimalOfValue(b);
    }
  }

  lemma KeyTransitive(a: Text, b: Text, c: Text)
    requires KeyLt(a, b) && KeyLt(b, c)
    ensures KeyLt(a, c)
  {
    hide LexLt;
    if !IsIndex(a) && !IsIndex(b) && !IsIndex(c) {
      LexTransitive(a, b, c);
    }
  }

  /** The order in plain terms: array indices first, by number; then the other keys, by the first code unit
      in which they differ, a prefix first. */
  lemma KeyLtMeans(a: Text, b: Text)
    ensures KeyLt(a, b)
       <==> || (exists m: nat, n: nat :: IsIndexOf(a, m) && IsIndexOf(b, n) && m < n)
            || ((exists m: nat :: IsIndexOf(a, m)) && !exists n: nat :: IsIndexOf(b, n))
            || ((!exists m: nat :: IsIndexOf(a, m)) && (!exists n: nat :: IsIndexOf(b, n)) && exists p :: FirstDiffer(a, b, p))
  {
    hide IsIndex, LexLt, IsIndexOf;
    IndexIff(a);
    IndexIff(b);
    LexLtMeans(a, b);
  }

  predicate FirstDiffer(a: Text, b: Text, p: int) {
    0 <= p <= |a| && p < |b| && a[..p] == b[..p] && (p == |a| || a[p] < b[p])
  }

  lemma {:induction false} LexLtMeans(a: Text, b: Text)
    ensures LexLt(a, b) <==> exists p :: FirstDiffer(a, b, p)
  {
    if a == [] {
      assert b != [] ==> FirstDiffer(a, b, 0);
    } else if b != [] && a[0] == b[0] {
      LexLtMeans(a[1..], b[1..]);
      if p :| FirstDiffer(a[1..], b[1..], p) {
        assert a[..p + 1] == [a[0]] + a[1..][..p] && b[..p + 1] == [b[0]] + b[1..][..p];
        assert FirstDiffer(a, b, p + 1);
      }
      if p :| FirstDiffer(a, b, p) {
        assert p > 0 && a[1..][..p - 1] == a[..p][1..] && b[1..][..p - 1] == b[..p][1..];
        assert FirstDiffer(a[1..], b[1..], p - 1);
      }
    } else if b != [] {
      assert a[0] < b[0] ==> FirstDiffer(a, b, 0);
      assert forall p | FirstDiffer(a, b, p) :: p > 0 ==> a[..p][0] == a[0] && b[..p][0] == b[0];
    }
  }

  predicate InKeyOrder(ms: seq<Member>) {
    forall i, j | 0 <= i < j < |ms| :: KeyLt(ms[i].key, ms[j].key)
  }

  /** An object whose keys are in enumeration order is determined by its members. */
  lemma {:induction false} KeyOrderUnique(a: seq<Member>, b: seq<Member>)
    requires InKeyOrder(a) && InKeyOrder(b) && forall m :: m in a <==> m in b
    ensures a == b
  {
    hide KeyLt;
    assert b == [] || b[0] in b;
    if a != [] {
      assert a[0] in b;
      assert b[0] in a;
      var i :| 0 <= i < |b| && b[i] == a[0];
      var j :| 0 <= j < |a| && a[j] == b[0];
      KeyOrder(a[0].key, b[0].key);
      assert a[0] == b[0];
      forall m ensures m in a[1..] <==> m in b[1..] {
        TailMembers(a, m);
        TailMembers(b, m);
      }
      KeyOrderUnique(a[1..], b[1..]);
      assert a == [a[0]] + a[1..] && b == [b[0]] + b[1..];
    }
  }

  lemma TailMembers(a: seq<Member>, m: Member)
    requires InKeyOrder(a) && a != []
    ensures m in a[1..] <==> m in a && m != a[0]
  {
    hide KeyLt;
    KeyOrder(a[0].key, a[0].key);
  }

  // ----- What the sorting loop builds -----

  lemma PutSpec(out: seq<Member>, m: Member)
    requires InKeyOrder(out)
    requires forall x | x in out :: x.key != m.key && (!IsIndex(m.key) && !IsIndex(x.key) ==> LexLt(x.key, m.key))
    ensures InKeyOrder(Put(out, m))
    ensures forall x :: x in Put(out, m) <==> x in out || (x == m && m.key != PROTO)
  {
    hide LexLt, Value, AllDigits, PROTO;
    if m.key != PROTO && IsIndex(m.key) && out != [] {
      var h := out[0];
      if IsIndex(h.key) && Value(h.key) <= Value(m.key) {
        KeyOrder(h.key, m.key);
        PutSpec(out[1..], m);
        var r := Put(out[1..], m);
        assert Put(out, m) == [h] + r;
        forall i | 0 <= i < |r| ensures KeyLt(h.key, r[i].key) {
          assert r[i] in r;
          if r[i] != m {
            assert r[i] in out[1..];
          }
        }
      } else {
        forall i | 0 <= i < |out| ensures KeyLt(m.key, out[i].key) {
          if i > 0 {
            assert KeyLt(m.key, h.key);
            KeyTransitive(m.key, h.key, out[i].key);
          }
        }
      }
    }
  }

  predicate StrictlySorted(ks: seq<Text>) {
    forall i, j | 0 <= i < j < |ks| :: LexLt(ks[i], ks[j])
  }

  lemma SortedStrict(ks: seq<Text>)
    requires Sorted(ks) && forall i, j | 0 <= i < j < |ks| :: ks[i] != ks[j]
    ensures StrictlySorted(ks)
  {
    forall i, j | 0 <= i < j < |ks| ensures LexLt(ks[i], ks[j]) {
      LexTotal(ks[i], ks[j]);
    }
  }

  /** The object filled with the keys `ks` holds those keys' members, in enumeration order. */
  lemma PutAllSpec(ks: seq<Text>, values: seq<Member>)
    requires StrictlySorted(ks) && forall i | 0 <= i < |ks| :: HasKey(values, ks[i])
    ensures InKeyOrder(PutAll(ks, values))
    ensures forall m :: m in PutAll(ks, values)
                        <==> m.key in ks && m.key != PROTO && HasKey(values, m.key) && m.value == Lookup(values, m.key)
  {
    hide LexLt, KeyLt, IsIndex, PROTO, Lookup, HasKey, Put;
    if ks != [] {
      var init, k := ks[..|ks| - 1], ks[|ks| - 1];
      PutAllSpec(init, values);
      var out := PutAll(init, values);
      forall x | x in out ensures x.key != k && LexLt(x.key, k) {
        var i :| 0 <= i < |init| && init[i] == x.key;
        assert LexLt(ks[i], ks[|ks| - 1]);
        LexTotal(k, k);
      }
      PutSpec(out, Member(k, Lookup(values, k)));
      assert forall x :: x in ks <==> x in init || x == k;
    }
  }

  lemma LookupOf(ms: seq<Member>, m: Member)
    requires DistinctKeys(ms) && m in ms
    ensures HasKey(ms, m.key) && Lookup(ms, m.key) == m.value
  {
    var i :| 0 <= i < |ms| && ms[i] == m;
    var v := Lookup(ms, m.key);
    var j :| 0 <= j < |ms| && ms[j] == Member(m.key, v);
    assert i == j;
  }

  /** `sortKeys` on one object: exactly its members other than `__proto__`, in enumeration order. */
  lemma SortMembersSpec(ms: seq<Member>)
    requires DistinctKeys(ms)
    ensures InKeyOrder(SortMembers(ms))
    ensures forall m :: m in SortMembers(ms) <==> m in ms && m.key != PROTO
  {
    hide LexLt, KeyLt, IsIndex, PROTO, Lookup, PutAll, HasKey, Sort;
    var ks := Sort(Keys(ms));
    SortKeepsKeys(ms);
    SortSpec(Keys(ms));
    SortedDistinct(Keys(ms));
    SortedStrict(ks);
    PutAllSpec(ks, ms);
    forall m ensures m in SortMembers(ms) <==> m in ms && m.key != PROTO {
      if m in ms {
        LookupOf(ms, m);
      }
    }
  }

  lemma SortedDistinct(ks: seq<Text>)
    requires forall i, j | 0 <= i < j < |ks| :: ks[i] != ks[j]
    ensures forall i, j | 0 <= i < j < |Sort(ks)| :: Sort(ks)[i] != Sort(ks)[j]
  {
    hide Sort, Sorted;
    SortSpec(ks);
    var r := Sort(ks);
    forall i, j | 0 <= i < j < |r| ensures r[i] != r[j] {
      CountTwice(r, i, j);
      CountOnce(ks, r[i]);
      assert r[i] == r[j] ==> multiset(r)[r[i]] >= 2;
      assert multiset(ks)[r[i]] == multiset(r)[r[i]];
    }
  }

  lemma CountTwice(r: seq<Text>, i: nat, j: nat)
    requires i < j < |r|
    ensures r[i] == r[j] ==> multiset(r)[r[i]] >= 2
  {
    assert r == r[..j] + r[j..];
    assert r[..j][i] in multiset(r[..j]) && r[j..][0] in multiset(r[j..]);
  }

  lemma CountOnce(ks: seq<Text>, k: Text)
    requires forall i, j | 0 <= i < j < |ks| :: ks[i] != ks[j]
    ensures multiset(ks)[k] <= 1
  {
    if ks != [] {
      CountOnce(ks[1..], k);
      assert ks == [ks[0]] + ks[1..];
      if ks[0] == k {
        assert k !in multiset(ks[1..]);
      }
    }
  }

  // ----- Sorting identifies exactly the trees that are the same up to key order -----

  function SortedValues(ms: seq<Member>): (r: seq<Member>)
    ensures |r| == |ms| && forall i | 0 <= i < |ms| :: r[i] == Member(ms[i].key, SortKeys(ms[i].value))
  {
    seq(|ms|, i requires 0 <= i < |ms| => Member(ms[i].key, SortKeys(ms[i].value)))
  }

  function DroppedValues(ms: seq<Member>): (r: seq<Member>)
    ensures |r| == |ms| && forall i | 0 <= i < |ms| :: r[i] == Member(ms[i].key, DropProto(ms[i].value))
  {
    seq(|ms|, i requires 0 <= i < |ms| => Member(ms[i].key, DropProto(ms[i].value)))
  }

  function KeySet(ms: seq<Member>): set<Text> {
    set i | 0 <= i < |ms| :: ms[i].key
  }

  lemma KeySetSize(ms: seq<Member>)
    requires DistinctKeys(ms)
    ensures |KeySet(ms)| == |ms|
  {
    if ms == [] {
      assert KeySet(ms) == {};
    } else {
      var n := |ms| - 1;
      KeySetSize(ms[..n]);
      assert KeySet(ms) == KeySet(ms[..n]) + {ms[n].key};
    }
  }

  lemma KeptDistinct(ms: seq<Member>)
    requires DistinctKeys(ms)
    ensures DistinctKeys(Kept(ms))
  {
    if ms != [] {
      KeptDistinct(ms[1..]);
      var r := Kept(ms[1..]);
      forall i | 0 <= i < |r| ensures r[i].key != ms[0].key {
        assert r[i] in ms[1..];
      }
    }
  }

  /** Two lists without repeated keys, of one length, one's keys among the other's: the same keys. */
  lemma SameKeySets(a: seq<Member>, b: seq<Member>)
    requires DistinctKeys(a) && DistinctKeys(b) && KeySet(a) <= KeySet(b)
    ensures |a| == |b| <==> KeySet(a) == KeySet(b)
  {
    KeySetSize(a);
    KeySetSize(b);
    if |a| == |b| && KeySet(a) != KeySet(b) {
      SubsetSize(KeySet(a), KeySet(b));
    }
  }

  lemma SubsetSize(a: set<Text>, b: set<Text>)
    requires a < b
    ensures |a| < |b|
  {
    var x :| x in b && x !in a;
    assert |b - {x}| == |b| - 1;
    if a != b - {x} {
      assert a < b - {x};
      SubsetSize(a, b - {x});
    }
  }

  /** Two members carry one key and values that are the same but for `__proto__`. */
  ghost predicate Match(m: Member, n: Member) {
    n.key == m.key && Same(DropProto(m.value), DropProto(n.value))
  }

  /** The members of two objects, without `__proto__`, agree key by key under `Same`. */
  ghost predicate MembersAgree(ms: seq<Member>, ns: seq<Member>) {
    && (forall p | 0 <= p < |ms| && ms[p].key != PROTO :: exists q :: 0 <= q < |ns| && Match(ms[p], ns[q]))
    && (forall q | 0 <= q < |ns| && ns[q].key != PROTO :: exists p :: 0 <= p < |ms| && ms[p].key == ns[q].key)
  }

  lemma KeptHas(ms: seq<Member>, p: nat) returns (i: nat)
    requires p < |ms| && ms[p].key != PROTO
    ensures i < |Kept(DroppedValues(ms))|
    ensures Kept(DroppedValues(ms))[i] == Member(ms[p].key, DropProto(ms[p].value))
  {
    var ds := DroppedValues(ms);
    assert ds[p] in Kept(ds);
    i :| 0 <= i < |Kept(ds)| && Kept(ds)[i] == ds[p];
  }

  lemma KeptFrom(ms: seq<Member>, i: nat) returns (p: nat)
    requires i < |Kept(DroppedValues(ms))|
    ensures p < |ms| && ms[p].key != PROTO
    ensures Kept(DroppedValues(ms))[i] == Member(ms[p].key, DropProto(ms[p].value))
  {
    var ds := DroppedValues(ms);
    assert Kept(ds)[i] in Kept(ds);
    p :| 0 <= p < |ds| && ds[p] == Kept(ds)[i];
  }

  lemma SameIsAgreement(ms: seq<Member>, ns: seq<Member>)
    requires DistinctKeys(ms) && DistinctKeys(ns)
    ensures Same(DropProto(Obj(ms)), DropProto(Obj(ns))) <==> MembersAgree(ms, ns)
  {
    hide PROTO, Kept, DropProto;
    var a, b := Kept(DroppedValues(ms)), Kept(DroppedValues(ns));
    assert DropProto(Obj(ms)) == Obj(a) && DropProto(Obj(ns)) == Obj(b) by {
      DropObj(ms);
      DropObj(ns);
    }
    KeptDistinct(DroppedValues(ms));
    KeptDistinct(DroppedValues(ns));
    if Same(Obj(a), Obj(b)) {
      SameGivesAgreement(ms, ns);
    }
    if MembersAgree(ms, ns) {
      AgreementGivesSame(ms, ns);
    }
  }

  lemma DropObj(ms: seq<Member>)
    ensures DropProto(Obj(ms)) == Obj(Kept(DroppedValues(ms)))
  {
    hide Kept;
    assert DroppedValues(ms) == seq(|ms|, i requires 0 <= i < |ms| => Member(ms[i].key, DropProto(ms[i].value)));
  }

  lemma SameGivesAgreement(ms: seq<Member>, ns: seq<Member>)
    requires var a, b := Kept(DroppedValues(ms)), Kept(DroppedValues(ns));
             DistinctKeys(a) && DistinctKeys(b) && Same(Obj(a), Obj(b))
    ensures MembersAgree(ms, ns)
  {
    hide PROTO, Kept, DropProto, DistinctKeys;
    var a, b := Kept(DroppedValues(ms)), Kept(DroppedValues(ns));
    forall p | 0 <= p < |ms| && ms[p].key != PROTO
      ensures exists q :: 0 <= q < |ns| && Match(ms[p], ns[q])
    {
      var i := KeptHas(ms, p);
      assert SameIn(a[i], b);
      var j :| 0 <= j < |b| && a[i].key == b[j].key && Same(a[i].value, b[j].value);
      var q := KeptFrom(ns, j);
      assert Match(ms[p], ns[q]);
    }
    forall k | k in KeySet(a) ensures k in KeySet(b) {
      var i :| 0 <= i < |a| && a[i].key == k;
      assert SameIn(a[i], b);
      var j :| 0 <= j < |b| && a[i].key == b[j].key && Same(a[i].value, b[j].value);
    }
    SameKeySets(a, b);
    forall q | 0 <= q < |ns| && ns[q].key != PROTO
      ensures exists p :: 0 <= p < |ms| && ms[p].key == ns[q].key
    {
      var j := KeptHas(ns, q);
      assert b[j].key in KeySet(a);
      var i :| 0 <= i < |a| && a[i].key == b[j].key;
      var p := KeptFrom(ms, i);
    }
  }

  lemma AgreementMatches(ms: seq<Member>, ns: seq<Member>, i: nat) returns (j: nat)
    requires MembersAgree(ms, ns) && i < |Kept(DroppedValues(ms))|
    ensures var a, b := Kept(DroppedValues(ms)), Kept(DroppedValues(ns));
            j < |b| && a[i].key == b[j].key && Same(a[i].value, b[j].value)
  {
    hide PROTO, Kept, DropProto, Same;
    var p := KeptFrom(ms, i);
    var q :| 0 <= q < |ns| && Match(ms[p], ns[q]);
    j := KeptHas(ns, q);
  }

  lemma AgreementKeys(ms: seq<Member>, ns: seq<Member>)
    requires MembersAgree(ms, ns)
    ensures KeySet(Kept(DroppedValues(ms))) == KeySet(Kept(DroppedValues(ns)))
  {
    hide PROTO, Kept, DropProto, Same;
    var a, b := Kept(DroppedValues(ms)), Kept(DroppedValues(ns));
    forall k | k in KeySet(a) ensures k in KeySet(b) {
      var i :| 0 <= i < |a| && a[i].key == k;
      var j := AgreementMatches(ms, ns, i);
      assert b[j].key in KeySet(b);
    }
    forall k | k in KeySet(b) ensures k in KeySet(a) {
      var j :| 0 <= j < |b| && b[j].key == k;
      var q := KeptFrom(ns, j);
      var p :| 0 <= p < |ms| && ms[p].key == ns[q].key;
      var i := KeptHas(ms, p);
      assert a[i].key in KeySet(a);
    }
  }

  lemma AgreementGivesSame(ms: seq<Member>, ns: seq<Member>)
    requires MembersAgree(ms, ns)
    requires DistinctKeys(Kept(DroppedValues(ms))) && DistinctKeys(Kept(DroppedValues(ns)))
    ensures Same(Obj(Kept(DroppedValues(ms))), Obj(Kept(DroppedValues(ns))))
  {
    hide PROTO, Kept, DropProto, DistinctKeys, MembersAgree, KeySet;
    var a, b := Kept(DroppedValues(ms)), Kept(DroppedValues(ns));
    forall i | 0 <= i < |a|
      ensures SameIn(a[i], b)
    {
      var j := AgreementMatches(ms, ns, i);
    }
    AgreementKeys(ms, ns);
    SameKeySets(a, b);
  }

  lemma SortObj(ms: seq<Member>)
    ensures SortKeys(Obj(ms)) == Obj(SortMembers(SortedValues(ms)))
  {
    hide SortMembers;
    assert SortedValues(ms) == seq(|ms|, i requires 0 <= i < |ms| => Member(ms[i].key, SortKeys(ms[i].value)));
  }

  /** Equal sorted values are matching values, for every pair of members. */
  ghost predicate ValuesDecided(ms: seq<Member>, ns: seq<Member>) {
    forall p, q | 0 <= p < |ms| && 0 <= q < |ns| ::
      SortKeys(ms[p].value) == SortKeys(ns[q].value) <==> Same(DropProto(ms[p].value), DropProto(ns[q].value))
  }

  lemma SortedGivesAgreement(ms: seq<Member>, ns: seq<Member>)
    requires DistinctKeys(ms) && DistinctKeys(ns) && ValuesDecided(ms, ns)
    requires SortMembers(SortedValues(ms)) == SortMembers(SortedValues(ns))
    ensures MembersAgree(ms, ns)
  {
    hide PROTO, SortMembers, DropProto, SortKeys, Same, InKeyOrder, DistinctKeys;
    var a, b := SortedValues(ms), SortedValues(ns);
    SortedMembership(ms);
    SortedMembership(ns);
    forall p | 0 <= p < |ms| && ms[p].key != PROTO
      ensures exists q :: 0 <= q < |ns| && Match(ms[p], ns[q])
    {
      assert a[p] in SortMembers(b);
      var q :| 0 <= q < |b| && b[q] == a[p];
      assert Match(ms[p], ns[q]);
    }
    forall q | 0 <= q < |ns| && ns[q].key != PROTO
      ensures exists p :: 0 <= p < |ms| && ms[p].key == ns[q].key
    {
      assert b[q] in SortMembers(a);
      var p :| 0 <= p < |a| && a[p] == b[q];
    }
  }

  lemma SortedMembership(ms: seq<Member>)
    requires DistinctKeys(ms)
    ensures InKeyOrder(SortMembers(SortedValues(ms)))
    ensures forall m :: m in SortMembers(SortedValues(ms)) <==> m in SortedValues(ms) && m.key != PROTO
  {
    hide SortMembers, SortKeys, PROTO, InKeyOrder;
    SortMembersSpec(SortedValues(ms));
  }

  lemma {:induction false} AgreementMember(ms: seq<Member>, ns: seq<Member>, p: nat)
    requires p < |ms| && ms[p].key != PROTO && ValuesDecided(ms, ns) && MembersAgree(ms, ns)
    ensures SortedValues(ms)[p] in SortedValues(ns)
  {
    hide PROTO, DropProto, SortKeys, Same;
    var q :| 0 <= q < |ns| && Match(ms[p], ns[q]);
    assert SortKeys(ms[p].value) == SortKeys(ns[q].value);
    assert SortedValues(ns)[q] == SortedValues(ms)[p];
  }

  lemma AgreementMemberBack(ms: seq<Member>, ns: seq<Member>, m: Member)
    requires DistinctKeys(ns) && ValuesDecided(ms, ns) && MembersAgree(ms, ns)
    requires m in SortedValues(ns) && m.key != PROTO
    ensures m in SortedValues(ms)
  {
    hide PROTO, DropProto, SortKeys, Same;
    var a, b := SortedValues(ms), SortedValues(ns);
    var q :| 0 <= q < |b| && b[q] == m;
    var p :| 0 <= p < |ms| && ms[p].key == ns[q].key;
    var q' :| 0 <= q' < |ns| && Match(ms[p], ns[q']);
    assert q' == q;
    assert a[p] == m;
  }

  lemma SortedIsAgreement(ms: seq<Member>, ns: seq<Member>)
    requires DistinctKeys(ms) && DistinctKeys(ns) && ValuesDecided(ms, ns)
    ensures SortKeys(Obj(ms)) == SortKeys(Obj(ns)) <==> MembersAgree(ms, ns)
  {
    hide PROTO, SortMembers, SortKeys, InKeyOrder, MembersAgree, ValuesDecided, DistinctKeys;
    var a, b := SortedValues(ms), SortedValues(ns);
    SortObj(ms);
    SortObj(ns);
    if SortMembers(a) == SortMembers(b) {
      SortedGivesAgreement(ms, ns);
    }
    if MembersAgree(ms, ns) {
      SortedMembership(ms);
      SortedMembership(ns);
      forall m ensures m in SortMembers(a) <==> m in SortMembers(b) {
        if m in SortMembers(a) {
          var p :| 0 <= p < |a| && a[p] == m;
          AgreementMember(ms, ns, p);
        }
        if m in SortMembers(b) {
          AgreementMemberBack(ms, ns, m);
        }
      }
      KeyOrderUnique(SortMembers(a), SortMembers(b));
    }
  }

  /** Sorting gives one tree for exactly the trees that are the same up to key order once their
      `__proto__` members are gone. */
  lemma {:induction false} SortedIffSame(a: Json, b: Json)
    requires WellFormed(a) && WellFormed(b)
    ensures SortKeys(a) == SortKeys(b) <==> Same(DropProto(a), DropProto(b))
  {
    hide PROTO, SortMembers, Kept;
    match (a, b)
    case (Arr(xs), Arr(ys)) =>
      forall i | 0 <= i < |xs| && i < |ys|
        ensures SortKeys(xs[i]) == SortKeys(ys[i]) <==> Same(DropProto(xs[i]), DropProto(ys[i]))
      {
        SortedIffSame(xs[i], ys[i]);
      }
      SortedArrays(xs, ys);
    case (Obj(ms), Obj(ns)) =>
      forall p, q | 0 <= p < |ms| && 0 <= q < |ns|
        ensures SortKeys(ms[p].value) == SortKeys(ns[q].value) <==> Same(DropProto(ms[p].value), DropProto(ns[q].value))
      {
        SortedIffSame(ms[p].value, ns[q].value);
      }
      SortedIsAgreement(ms, ns);
      SameIsAgreement(ms, ns);
    case _ =>
  }

  lemma {:induction false} SortedArrays(xs: seq<Json>, ys: seq<Json>)
    requires forall i | 0 <= i < |xs| && i < |ys| ::
               SortKeys(xs[i]) == SortKeys(ys[i]) <==> Same(DropProto(xs[i]), DropProto(ys[i]))
    ensures SortKeys(Arr(xs)) == SortKeys(Arr(ys)) <==> Same(DropProto(Arr(xs)), DropProto(Arr(ys)))
  {
    var a, b := SortKeys(Arr(xs)).items, SortKeys(Arr(ys)).items;
    var c, d := DropProto(Arr(xs)).items, DropProto(Arr(ys)).items;
    assert |a| == |c| == |xs| && |b| == |d| == |ys|;
    assert forall i | 0 <= i < |xs| :: a[i] == SortKeys(xs[i]) && c[i] == DropProto(xs[i]);
    assert forall i | 0 <= i < |ys| :: b[i] == SortKeys(ys[i]) && d[i] == DropProto(ys[i]);
    if |xs| == |ys| {
      assert a == b <==> forall i | 0 <= i < |a| :: a[i] == b[i];
      assert forall i | 0 <= i < |xs| :: a[i] == b[i] <==> Same(c[i], d[i]);
    }
  }
}
