/** Texts over any alphabet, with its strict order given: their order character by character, sorting,
    joining and searching. */
module Lexical {

  /** `lt` is a strict total order. */
  ghost predicate Strict<T(!new)>(lt: (T, T) -> bool) {
    && (forall a, b :: (a == b || lt(a, b) || lt(b, a)) && !(lt(a, b) && lt(b, a)))
    && (forall a, b, c :: lt(a, b) && lt(b, c) ==> lt(a, c))
  }

  /** `a < b` on texts. */
  predicate Before<T(==)>(a: seq<T>, b: seq<T>, lt: (T, T) -> bool) {
    if a == [] then b != []
    else b != [] && (lt(a[0], b[0]) || (a[0] == b[0] && Before(a[1..], b[1..], lt)))
  }

  lemma BeforeTotal<T(!new)>(a: seq<T>, b: seq<T>, lt: (T, T) -> bool)
    requires Strict(lt)
    ensures a == b || Before(a, b, lt) || Before(b, a, lt)
    ensures !(Before(a, b, lt) && Before(b, a, lt)) && !Before(a, a, lt)
  {
    if a != [] && b != [] && a[0] == b[0] {
      BeforeTotal(a[1..], b[1..], lt);
      assert a == [a[0]] + a[1..] && b == [b[0]] + b[1..];
    }
    if a != [] {
      BeforeTotal(a[1..], a[1..], lt);
    }
  }

  lemma BeforeTransitive<T(!new)>(a: seq<T>, b: seq<T>, c: seq<T>, lt: (T, T) -> bool)
    requires Strict(lt) && Before(a, b, lt) && Before(b, c, lt)
    ensures Before(a, c, lt)
  {
    if a != [] && a[0] == b[0] == c[0] {
      BeforeTransitive(a[1..], b[1..], c[1..], lt);
    }
  }

  predicate Sorted<T(==)>(ts: seq<seq<T>>, lt: (T, T) -> bool) {
    forall i, j | 0 <= i < j < |ts| :: !Before(ts[j], ts[i], lt)
  }

  function Insert<T(==)>(t: seq<T>, ts: seq<seq<T>>, lt: (T, T) -> bool): seq<seq<T>> {
    if ts == [] || !Before(ts[0], t, lt) then [t] + ts else [ts[0]] + Insert(t, ts[1..], lt)
  }

  function Sort<T(==)>(ts: seq<seq<T>>, lt: (T, T) -> bool): seq<seq<T>> {
    if ts == [] then [] else Insert(ts[0], Sort(ts[1..], lt), lt)
  }

  lemma {:induction false} InsertSorted<T(!new)>(t: seq<T>, ts: seq<seq<T>>, lt: (T, T) -> bool)
    requires Strict(lt) && Sorted(ts, lt)
    ensures Sorted(Insert(t, ts, lt), lt) && multiset(Insert(t, ts, lt)) == multiset(ts) + multiset{t}
  {
    hide Before, Strict;
    if ts == [] {
    } else if !Before(ts[0], t, lt) {
      forall j | 0 <= j < |ts| ensures !Before(ts[j], t, lt) {
        if j > 0 && Before(ts[j], t, lt) {
          BeforeTotal(ts[0], ts[j], lt);
          if Before(ts[0], ts[j], lt) {
            BeforeTransitive(ts[0], ts[j], t, lt);
          }
        }
      }
    } else {
      InsertSorted(t, ts[1..], lt);
      var r := Insert(t, ts[1..], lt);
      assert ts == [ts[0]] + ts[1..];
      forall j | 0 <= j < |r| ensures !Before(r[j], ts[0], lt) {
        assert r[j] in multiset(r);
        BeforeTotal(ts[0], t, lt);
        if r[j] != t {
          assert r[j] in ts[1..];
        }
      }
    }
  }

  lemma {:induction false} SortSpec<T(!new)>(ts: seq<seq<T>>, lt: (T, T) -> bool)
    requires Strict(lt)
    ensures Sorted(Sort(ts, lt), lt) && multiset(Sort(ts, lt)) == multiset(ts)
  {
    hide Strict, Sorted, Insert;
    if ts == [] {
      SortedNil(lt);
    } else {
      SortSpec(ts[1..], lt);
      InsertSorted(ts[0], Sort(ts[1..], lt), lt);
      assert ts == [ts[0]] + ts[1..];
    }
  }

  lemma SortedNil<T>(lt: (T, T) -> bool)
    ensures Sorted([], lt)
  {
  }

  function Join<T>(ts: seq<seq<T>>, sep: seq<T>): seq<T> {
    if ts == [] then [] else if |ts| == 1 then ts[0] else ts[0] + sep + Join(ts[1..], sep)
  }

  predicate OccursAt<T(==)>(text: seq<T>, needle: seq<T>, i: nat) {
    i + |needle| <= |text| && text[i..i + |needle|] == needle
  }

  predicate Contains<T(==)>(text: seq<T>, needle: seq<T>) {
    exists i :: 0 <= i <= |text| && OccursAt(text, needle, i)
  }
}
