/** "The latest review": what the sort-then-fill loops of `packages/grimoire-mcp/src/decide-card.ts`
    compute, as the newest review of each reviewer. */
module LatestReview {
  import opened Outcomes

  /** `at` is the rank of the timestamp; a missing one is 0, before every other. */
  datatype Review = Review(login: Option<string>, at: nat, commit: Option<string>, state: Option<string>)

  const BOT := "thinman-overseer[bot]"

  /** One step of a stable sort: `r` came before all of `rs`. */
  function Insert(r: Review, rs: seq<Review>): seq<Review> {
    if rs == [] || r.at <= rs[0].at then [r] + rs else [rs[0]] + Insert(r, rs[1..])
  }

  /** `[...reviews].sort(by submitted_at)`, a stable sort. */
  function SortByTime(rs: seq<Review>): seq<Review> {
    if rs == [] then [] else Insert(rs[0], SortByTime(rs[1..]))
  }

  /** The newest review: of those with the greatest time, the last in the list. */
  function Newest(rs: seq<Review>): Review
    requires rs != []
  {
    if |rs| == 1 || rs[0].at > Newest(rs[1..]).at then rs[0] else Newest(rs[1..])
  }

  /** No review of the list is later than the one at `i`, and none after it is as late. */
  predicate LatestAt(rs: seq<Review>, i: nat)
    requires i < |rs|
  {
    forall j | 0 <= j < |rs| :: if j <= i then rs[j].at <= rs[i].at else rs[j].at < rs[i].at
  }

  lemma {:induction false} NewestIsLatest(rs: seq<Review>) returns (i: nat)
    requires rs != []
    ensures i < |rs| && rs[i] == Newest(rs) && LatestAt(rs, i)
  {
    i := 0;
    if |rs| > 1 {
      var k := NewestIsLatest(rs[1..]);
      assert forall j | 0 < j < |rs| :: rs[j] == rs[1..][j - 1];
      if rs[0].at <= Newest(rs[1..]).at {
        i := k + 1;
      }
    }
  }

  /** The map key of a reviewer: `r.user?.login ?? '?'` */
  function Key(r: Review): string {
    if r.login.None? then "?" else r.login.value
  }

  function ByKey(rs: seq<Review>, key: string): seq<Review> {
    if rs == [] then [] else (if Key(rs[0]) == key then [rs[0]] else []) + ByKey(rs[1..], key)
  }

  function OnHead(rs: seq<Review>, head: string): seq<Review> {
    if rs == [] then [] else (if rs[0].commit == Some(head) then [rs[0]] else []) + OnHead(rs[1..], head)
  }

  function Bots(rs: seq<Review>): seq<Review> {
    if rs == [] then [] else (if rs[0].login == Some(BOT) then [rs[0]] else []) + Bots(rs[1..])
  }

  /** `rs` is in the order of time, and starts no earlier than `from`. */
  predicate OrderedFrom(rs: seq<Review>, from: nat) {
    rs == [] || (from <= rs[0].at && OrderedFrom(rs[1..], rs[0].at))
  }

  function Last(rs: seq<Review>): Review
    requires rs != []
  {
    rs[|rs| - 1]
  }

  lemma {:induction false} InsertOrdered(r: Review, rs: seq<Review>, from: nat)
    requires OrderedFrom(rs, from) && from <= r.at
    ensures OrderedFrom(Insert(r, rs), from)
    ensures Insert(r, rs) != [] && Last(Insert(r, rs)) == if rs == [] || r.at > Last(rs).at then r else Last(rs)
    ensures rs != [] ==> from <= Last(rs).at
  {
    if rs == [] {
    } else if r.at <= rs[0].at {
      assert ([r] + rs)[1..] == rs;
      LastIsGreatest(rs, from);
    } else {
      InsertOrdered(r, rs[1..], rs[0].at);
      var t := Insert(r, rs[1..]);
      assert ([rs[0]] + t)[1..] == t;
      assert |rs| > 1 ==> Last(rs) == Last(rs[1..]);
    }
  }

  lemma {:induction false} LastIsGreatest(rs: seq<Review>, from: nat)
    requires OrderedFrom(rs, from) && rs != []
    ensures from <= rs[0].at <= Last(rs).at
  {
    if |rs| > 1 {
      LastIsGreatest(rs[1..], rs[0].at);
      assert Last(rs) == Last(rs[1..]);
    }
  }

  /** The last of the sorted list is the newest of the list. */
  lemma {:induction false} SortedLast(rs: seq<Review>)
    ensures OrderedFrom(SortByTime(rs), 0)
    ensures if rs == [] then SortByTime(rs) == [] else SortByTime(rs) != [] && Last(SortByTime(rs)) == Newest(rs)
  {
    hide Insert;
    if rs != [] {
      SortedLast(rs[1..]);
      InsertOrdered(rs[0], SortByTime(rs[1..]), 0);
    }
  }

  lemma {:induction false} ByKeyOrdered(rs: seq<Review>, key: string, from: nat)
    requires OrderedFrom(rs, from)
    ensures OrderedFrom(ByKey(rs, key), from)
  {
    hide Key;
    if rs != [] {
      ByKeyOrdered(rs[1..], key, rs[0].at);
      var k := ByKey(rs[1..], key);
      assert ([rs[0]] + k)[1..] == k && [] + k == k;
    }
  }

  lemma {:induction false} InsertByKey(r: Review, rs: seq<Review>, key: string, from: nat)
    requires OrderedFrom(rs, from)
    ensures ByKey(Insert(r, rs), key) == if Key(r) == key then Insert(r, ByKey(rs, key)) else ByKey(rs, key)
  {
    hide Key;
    if rs == [] {
    } else if r.at <= rs[0].at {
      assert ([r] + rs)[1..] == rs;
      ByKeyOrdered(rs, key, rs[0].at);
    } else {
      InsertByKey(r, rs[1..], key, rs[0].at);
      var t, k := Insert(r, rs[1..]), ByKey(rs[1..], key);
      assert ([rs[0]] + t)[1..] == t && ([rs[0]] + k)[1..] == k && [] + k == k;
    }
  }

  /** A stable sort and a selection by reviewer commute. */
  lemma {:induction false} SortByKey(rs: seq<Review>, key: string)
    ensures ByKey(SortByTime(rs), key) == SortByTime(ByKey(rs, key))
  {
    hide Insert, Key;
    if rs != [] {
      SortByKey(rs[1..], key);
      SortedLast(rs[1..]);
      InsertByKey(rs[0], SortByTime(rs[1..]), key, 0);
      var k := ByKey(rs[1..], key);
      assert ([rs[0]] + k)[1..] == k && [] + k == k;
    }
  }

  lemma {:induction false} ByKeyPush(rs: seq<Review>, r: Review, key: string)
    ensures ByKey(rs + [r], key) == ByKey(rs, key) + if Key(r) == key then [r] else []
  {
    hide Key;
    if rs == [] {
      assert ([] + [r])[1..] == [];
    } else {
      ByKeyPush(rs[1..], r, key);
      assert (rs + [r])[1..] == rs[1..] + [r];
    }
  }

  /** The keys in the order they first appear: the iteration order of the map. */
  function Keys(rs: seq<Review>): seq<string> {
    if rs == [] then []
    else
      var init, k := Keys(rs[..|rs| - 1]), Key(rs[|rs| - 1]);
      if k in init then init else init + [k]
  }

  lemma {:induction false} KeysOf(rs: seq<Review>, key: string)
    ensures key in Keys(rs) <==> ByKey(rs, key) != []
  {
    hide Key, ByKey;
    if rs == [] {
      ByKeyNone(key);
    } else {
      var n := |rs| - 1;
      KeysOf(rs[..n], key);
      ByKeyPush(rs[..n], rs[n], key);
      assert rs == rs[..n] + [rs[n]];
    }
  }

  lemma ByKeyNone(key: string)
    ensures ByKey([], key) == []
  {
  }

  /** `latest` holds, for every key of `rs`, its last review there. */
  ghost predicate HoldsLast(latest: map<string, Review>, rs: seq<Review>) {
    forall k :: (k in latest <==> ByKey(rs, k) != []) && (k in latest ==> latest[k] == Last(ByKey(rs, k)))
  }

  lemma LatestStep(rs: seq<Review>, r: Review, latest: map<string, Review>)
    requires HoldsLast(latest, rs)
    ensures HoldsLast(latest[Key(r) := r], rs + [r])
  {
    hide ByKey, Key;
    forall k ensures ByKey(rs + [r], k) == ByKey(rs, k) + if Key(r) == k then [r] else [] {
      ByKeyPush(rs, r, k);
    }
  }

  /** The sort-then-fill loop of the source gives each reviewer their newest review. */
  method LatestByReviewer(onHead: seq<Review>) returns (latest: map<string, Review>, order: seq<string>)
    ensures order == Keys(SortByTime(onHead))
    ensures forall k :: k in latest <==> ByKey(onHead, k) != []
    ensures forall k :: k in latest <==> k in order
    ensures forall k | k in latest :: latest[k] == Newest(ByKey(onHead, k))
  {
    hide Newest, SortByTime, ByKey, Key;
    var sorted, i := SortByTime(onHead), 0;
    latest, order := map[], [];
    ByKeyNothing();
    while i < |sorted|
      invariant 0 <= i <= |sorted| && order == Keys(sorted[..i]) && HoldsLast(latest, sorted[..i])
    {
      var r := sorted[i];
      LatestStep(sorted[..i], r, latest);
      KeysOf(sorted[..i], Key(r));
      assert sorted[..i + 1] == sorted[..i] + [r] && sorted[..i + 1][..i] == sorted[..i];
      if Key(r) !in latest {
        order := order + [Key(r)];
      }
      latest := latest[Key(r) := r];
      i := i + 1;
    }
    assert sorted[..i] == sorted;
    forall k ensures (k in latest <==> ByKey(onHead, k) != []) && (k in latest <==> k in order)
                     && (k in latest ==> latest[k] == Newest(ByKey(onHead, k)))
    {
      SortByKey(onHead, k);
      SortedLast(ByKey(onHead, k));
      KeysOf(sorted, k);
    }
  }

  lemma ByKeyNothing()
    ensures HoldsLast(map[], [])
  {
  }
}
