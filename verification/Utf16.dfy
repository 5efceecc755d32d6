/** JavaScript strings: sequences of UTF-16 code units, compared code unit by code unit, and
    `Array.prototype.sort` without a comparator, which orders strings that way. */
module Utf16 {
  import Lexical

  type Unit = x: int | 0 <= x < 0x1_0000

  type Text = seq<Unit>

  predicate UnitLt(a: Unit, b: Unit) {
    a < b
  }

  /** `a < b` on JavaScript strings. */
  predicate LexLt(a: Text, b: Text) {
    Lexical.Before(a, b, UnitLt)
  }

  predicate Sorted(ts: seq<Text>) {
    Lexical.Sorted(ts, UnitLt)
  }

  /** `ts.slice().sort()` */
  function Sort(ts: seq<Text>): seq<Text> {
    Lexical.Sort(ts, UnitLt)
  }

  lemma LexTotal(a: Text, b: Text)
    ensures a == b || LexLt(a, b) || LexLt(b, a)
    ensures !(LexLt(a, b) && LexLt(b, a)) && !LexLt(a, a)
  {
    Lexical.BeforeTotal(a, b, UnitLt);
  }

  lemma LexTransitive(a: Text, b: Text, c: Text)
    requires LexLt(a, b) && LexLt(b, c)
    ensures LexLt(a, c)
  {
    Lexical.BeforeTransitive(a, b, c, UnitLt);
  }

  lemma {:induction false} SortSpec(ts: seq<Text>)
    ensures Sorted(Sort(ts)) && multiset(Sort(ts)) == multiset(ts)
  {
    Lexical.SortSpec(ts, UnitLt);
  }

  lemma SortedTail(a: seq<Text>)
    requires Sorted(a) && a != []
    ensures Sorted(a[1..]) && multiset(a[1..]) == multiset(a) - multiset{a[0]}
  {
    assert a == [a[0]] + a[1..];
  }

  lemma SortedHeads(a: seq<Text>, b: seq<Text>)
    requires Sorted(a) && Sorted(b) && multiset(a) == multiset(b) && a != [] && b != []
    ensures a[0] == b[0]
  {
    assert a[0] in multiset(a) && b[0] in multiset(b);
    assert a[0] in b && b[0] in a;
    var i :| 0 <= i < |b| && b[i] == a[0];
    var j :| 0 <= j < |a| && a[j] == b[0];
    LexTotal(a[0], b[0]);
  }

  /** Sorting determines the order: two sorted lists of the same strings are the same list. */
  lemma {:induction false} SortedUnique(a: seq<Text>, b: seq<Text>)
    requires Sorted(a) && Sorted(b) && multiset(a) == multiset(b)
    ensures a == b
  {
    hide Sorted;
    assert |a| == |multiset(a)| == |multiset(b)| == |b|;
    if a != [] {
      SortedHeads(a, b);
      SortedTail(a);
      SortedTail(b);
      SortedUnique(a[1..], b[1..]);
      assert a == [a[0]] + a[1..] && b == [b[0]] + b[1..];
    }
  }
}
