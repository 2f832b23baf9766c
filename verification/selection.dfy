/** Long/short selection from one row of percentile ranks: the assets sorted by
    rank descending with missing ranks last (Series.sort_values(ascending=False)),
    the first `k` of that order going long (head) and the last `k` going short
    (tail).  The sort is not stable, so ties may come out in any order: every
    property below is stated for EVERY order that is a descending sort, and
    `Sort` is one such order. */
module Selection {
  import opened Frames

  /** Key `a` may stand before key `b` in a descending sort that puts missing
      keys last. */
  predicate KeyGe(a: Option<real>, b: Option<real>) {
    b.None? || (a.Some? && a.value >= b.value)
  }

  /** `order` lists each of the positions 0 .. n-1 exactly once. */
  predicate IsPermutation(order: seq<nat>, n: nat) {
    && |order| == n
    && (forall i :: 0 <= i < n ==> order[i] < n)
    && (forall b: nat :: b < n ==> b in order)
    && Distinct(order)
  }

  predicate InRange(order: seq<nat>, n: nat) {
    forall i :: 0 <= i < |order| ==> order[i] < n
  }

  predicate SortedBy(ranks: Row, order: seq<nat>)
    requires InRange(order, |ranks|)
  {
    forall i, j :: 0 <= i < j < |order| ==> KeyGe(ranks[order[i]], ranks[order[j]])
  }

  /** Assets without a rank keep their column order (sort_values places
      missing values last in the order they had). */
  predicate MissingInColumnOrder(ranks: Row, order: seq<nat>)
    requires InRange(order, |ranks|)
  {
    forall i, j :: 0 <= i < j < |order| && ranks[order[i]].None? && ranks[order[j]].None? ==> order[i] < order[j]
  }

  /** `order` is a descending sort of all assets by rank, missing ranks last
      in column order. */
  predicate DescendingOrder(ranks: Row, order: seq<nat>) {
    IsPermutation(order, |ranks|) && SortedBy(ranks, order) && MissingInColumnOrder(ranks, order)
  }

  predicate Distinct(s: seq<nat>) {
    forall i, j :: 0 <= i < j < |s| ==> s[i] != s[j]
  }

  lemma SortedTail(ranks: Row, order: seq<nat>)
    requires |order| > 0 && InRange(order, |ranks|) && SortedBy(ranks, order)
    ensures InRange(order[1..], |ranks|) && SortedBy(ranks, order[1..])
    ensures forall i :: 0 <= i < |order[1..]| ==> KeyGe(ranks[order[0]], ranks[order[1..][i]])
  {
    assert forall i :: 0 <= i < |order[1..]| ==> order[1..][i] == order[i + 1];
  }

  lemma SortedCons(ranks: Row, x: nat, rest: seq<nat>)
    requires x < |ranks| && InRange(rest, |ranks|) && SortedBy(ranks, rest)
    requires forall i :: 0 <= i < |rest| ==> KeyGe(ranks[x], ranks[rest[i]])
    ensures InRange([x] + rest, |ranks|) && SortedBy(ranks, [x] + rest)
  {
    var r := [x] + rest;
    assert forall i :: 1 <= i < |r| ==> r[i] == rest[i - 1];
  }

  lemma DistinctTail(order: seq<nat>)
    requires |order| > 0 && Distinct(order)
    ensures Distinct(order[1..]) && order[0] !in order[1..]
  {
    assert forall i :: 0 <= i < |order[1..]| ==> order[1..][i] == order[i + 1];
  }

  lemma DistinctCons(x: nat, rest: seq<nat>)
    requires Distinct(rest) && x !in rest
    ensures Distinct([x] + rest)
  {
    var r := [x] + rest;
    assert forall i :: 1 <= i < |r| ==> r[i] == rest[i - 1];
  }

  /** Key order is total and transitive. */
  lemma KeyGeTransitive(a: Option<real>, b: Option<real>, c: Option<real>)
    requires KeyGe(a, b) && KeyGe(b, c)
    ensures KeyGe(a, c)
  {
  }

  /** Putting `order[0]` back in front of `rest` (the rest of the order with
      `x` inserted) keeps missing ranks in column order when `x` is larger
      than every entry. */
  lemma MissingConsTail(ranks: Row, order: seq<nat>, x: nat, rest: seq<nat>)
    requires |order| > 0 && x < |ranks| && InRange(order, |ranks|) && InRange(rest, |ranks|)
    requires forall y :: y in rest <==> y in order[1..] || y == x
    requires MissingInColumnOrder(ranks, order) && InRange(order, x) ==>
               MissingInColumnOrder(ranks, order[1..]) && InRange(order[1..], x)
    requires MissingInColumnOrder(ranks, order[1..]) && InRange(order[1..], x) ==> MissingInColumnOrder(ranks, rest)
    ensures MissingInColumnOrder(ranks, order) && InRange(order, x) ==> MissingInColumnOrder(ranks, [order[0]] + rest)
  {
    if MissingInColumnOrder(ranks, order) && InRange(order, x) {
      var r := [order[0]] + rest;
      forall i, j | 0 <= i < j < |r| && ranks[r[i]].None? && ranks[r[j]].None?
        ensures r[i] < r[j]
      {
        if i == 0 {
          assert r[j] == rest[j - 1] && rest[j - 1] in rest;
          if r[j] != x {
            var q :| 0 <= q < |order[1..]| && order[1..][q] == r[j];
            assert order[q + 1] == r[j];
          }
        } else {
          assert r[i] == rest[i - 1] && r[j] == rest[j - 1];
        }
      }
    }
  }

  /** A ranked asset in front keeps missing ranks in column order. */
  lemma RankedCons(ranks: Row, x: nat, order: seq<nat>)
    requires x < |ranks| && InRange(order, |ranks|) && ranks[x].Some?
    ensures MissingInColumnOrder(ranks, order) ==> MissingInColumnOrder(ranks, [x] + order)
  {
    var r := [x] + order;
    assert forall i :: 1 <= i < |r| ==> r[i] == order[i - 1];
  }

  /** Insert asset `x` into a sorted order, after every asset whose key may
      stand before it. */
  function Insert(ranks: Row, order: seq<nat>, x: nat): (r: seq<nat>)
    requires x < |ranks| && InRange(order, |ranks|) && SortedBy(ranks, order)
    ensures |r| == |order| + 1
    ensures forall y :: y in r <==> y in order || y == x
    ensures InRange(r, |ranks|) && SortedBy(ranks, r)
    ensures Distinct(order) && x !in order ==> Distinct(r)
    ensures MissingInColumnOrder(ranks, order) && InRange(order, x) ==> MissingInColumnOrder(ranks, r)
  {
    if |order| == 0 then [x]
    else
      assert order == [order[0]] + order[1..];
      SortedTail(ranks, order);
      if KeyGe(ranks[order[0]], ranks[x]) then
        var rest := Insert(ranks, order[1..], x);
        assert forall y :: y in order[1..] ==> KeyGe(ranks[order[0]], ranks[y]);
        assert forall i :: 0 <= i < |rest| ==> KeyGe(ranks[order[0]], ranks[rest[i]]) by {
          forall i | 0 <= i < |rest|
            ensures KeyGe(ranks[order[0]], ranks[rest[i]])
          {
            assert rest[i] in rest;
          }
        }
        SortedCons(ranks, order[0], rest);
        MissingConsTail(ranks, order, x, rest);
        if Distinct(order) && x !in order then
          DistinctTail(order);
          DistinctCons(order[0], rest);
          [order[0]] + rest
        else
          [order[0]] + rest
      else
        assert forall i :: 0 <= i < |order| ==> KeyGe(ranks[x], ranks[order[i]]) by {
          forall i | 0 <= i < |order|
            ensures KeyGe(ranks[x], ranks[order[i]])
          {
            if i > 0 {
              KeyGeTransitive(ranks[x], ranks[order[0]], ranks[order[i]]);
            }
          }
        }
        SortedCons(ranks, x, order);
        RankedCons(ranks, x, order);
        if Distinct(order) && x !in order then
          DistinctCons(x, order);
          [x] + order
        else
          [x] + order
  }

  /** Insertion sort of the assets 0 .. k-1 by rank, descending, missing last. */
  function SortPrefix(ranks: Row, k: nat): (r: seq<nat>)
    requires k <= |ranks|
    ensures |r| == k
    ensures forall y: nat :: y in r <==> y < k
    ensures InRange(r, |ranks|) && SortedBy(ranks, r) && Distinct(r)
    ensures MissingInColumnOrder(ranks, r)
  {
    if k == 0 then []
    else
      var front := SortPrefix(ranks, k - 1);
      assert k - 1 !in front;
      assert InRange(front, k - 1) by {
        assert forall i :: 0 <= i < |front| ==> front[i] in front;
      }
      Insert(ranks, front, k - 1)
  }

  /** One descending sort of all the assets of a rank row. */
  function Sort(ranks: Row): (r: seq<nat>)
    ensures DescendingOrder(ranks, r)
  {
    var r := SortPrefix(ranks, |ranks|);
    assert forall i :: 0 <= i < |r| ==> r[i] < |ranks| by {
      forall i | 0 <= i < |r|
        ensures r[i] < |ranks|
      {
        assert r[i] in r;
      }
    }
    r
  }

  function Min(a: nat, b: nat): nat {
    if a <= b then a else b
  }

  /** The first `k` entries (all of them when there are fewer), as
      Series.head(k) for k >= 0. */
  function Head(order: seq<nat>, k: nat): (r: seq<nat>)
    ensures |r| == Min(k, |order|) && (k >= |order| ==> r == order)
    ensures forall i :: 0 <= i < |r| ==> r[i] == order[i]
  {
    order[..Min(k, |order|)]
  }

  /** The last `k` entries (all of them when there are fewer), as
      Series.tail(k) for k >= 0. */
  function Tail(order: seq<nat>, k: nat): (r: seq<nat>)
    ensures |r| == Min(k, |order|) && (k >= |order| ==> r == order)
    ensures forall i :: 0 <= i < |r| ==> r[i] == order[|order| - |r| + i]
  {
    order[|order| - Min(k, |order|)..]
  }

  /** Both lists hold min(k, #assets) distinct assets, the long list in
      non-increasing and the short list in non-increasing rank order. */
  lemma SelectionShape(ranks: Row, order: seq<nat>, k: nat)
    requires DescendingOrder(ranks, order)
    ensures |Head(order, k)| == Min(k, |ranks|) && |Tail(order, k)| == Min(k, |ranks|)
    ensures Distinct(Head(order, k)) && Distinct(Tail(order, k))
    ensures forall i, j :: 0 <= i < j < |Head(order, k)| ==>
              KeyGe(ranks[Head(order, k)[i]], ranks[Head(order, k)[j]])
    ensures forall i, j :: 0 <= i < j < |Tail(order, k)| ==>
              KeyGe(ranks[Tail(order, k)[i]], ranks[Tail(order, k)[j]])
  {
    var n := |order|;
    var m := Min(k, n);
    var t := Tail(order, k);
    assert forall i :: 0 <= i < |t| ==> t[i] == order[n - m + i];
  }

  /** Where an asset sits in the order. */
  lemma PositionOf(order: seq<nat>, a: nat) returns (p: nat)
    requires a in order
    ensures p < |order| && order[p] == a
  {
    p :| 0 <= p < |order| && order[p] == a;
  }

  /** Every long asset's key may stand before the key of every asset that is
      not long. */
  lemma LongKeyGe(ranks: Row, order: seq<nat>, k: nat, a: nat, b: nat)
    requires DescendingOrder(ranks, order)
    requires a in Head(order, k) && b in order && b !in Head(order, k)
    ensures KeyGe(ranks[a], ranks[b])
  {
    var m := Min(k, |order|);
    var p := PositionOf(Head(order, k), a);
    var q := PositionOf(order, b);
    assert order[p] == a;
    assert forall i :: 0 <= i < m ==> Head(order, k)[i] == order[i];
    assert q >= m;
    assert KeyGe(ranks[order[p]], ranks[order[q]]);
  }

  /** Every long asset ranks at least as high as every ranked asset that is
      not long. */
  lemma LongsOutrankRest(ranks: Row, order: seq<nat>, k: nat, a: nat, b: nat)
    requires DescendingOrder(ranks, order)
    requires a in Head(order, k) && b in order && b !in Head(order, k)
    requires ranks[b].Some?
    ensures ranks[a].Some? && ranks[a].value >= ranks[b].value
  {
    LongKeyGe(ranks, order, k, a, b);
  }

  /** Every short asset ranks at most as high as every asset that is not
      short; a ranked short asset is outranked only by ranked assets. */
  lemma ShortsUnderrankRest(ranks: Row, order: seq<nat>, k: nat, a: nat, b: nat)
    requires DescendingOrder(ranks, order)
    requires a in Tail(order, k) && b in order && b !in Tail(order, k)
    ensures KeyGe(ranks[b], ranks[a])
    ensures ranks[a].Some? ==> ranks[b].Some? && ranks[b].value >= ranks[a].value
  {
    var n := |order|;
    var m := Min(k, n);
    var t := Tail(order, k);
    var p := PositionOf(t, a);
    var q := PositionOf(order, b);
    assert t[p] == order[n - m + p];
    assert forall i :: n - m <= i < n ==> t[i - (n - m)] == order[i];
    assert q < n - m;
    assert KeyGe(ranks[order[q]], ranks[order[n - m + p]]);
  }

  /** A long asset with a missing rank means every ranked asset is long:
      missing ranks sort after all ranked ones. */
  lemma MissingNeverAheadOfRanked(ranks: Row, order: seq<nat>, k: nat, a: nat)
    requires DescendingOrder(ranks, order)
    requires a in Head(order, k) && ranks[a].None?
    ensures forall b :: 0 <= b < |ranks| && ranks[b].Some? ==> b in Head(order, k)
  {
    forall b | 0 <= b < |ranks| && ranks[b].Some?
      ensures b in Head(order, k)
    {
      assert b in order;
      if b !in Head(order, k) {
        LongsOutrankRest(ranks, order, k, a, b);
        assert false;
      }
    }
  }

  /** Longs and shorts share no asset exactly when 2k <= #assets (or there are
      no assets at all). */
  lemma DisjointIff(ranks: Row, order: seq<nat>, k: nat)
    requires DescendingOrder(ranks, order)
    ensures (forall i, j :: 0 <= i < |Head(order, k)| && 0 <= j < |Tail(order, k)| ==>
               Head(order, k)[i] != Tail(order, k)[j])
        <==> (2 * k <= |ranks| || |ranks| == 0)
  {
    var n := |order|;
    var m := Min(k, n);
    var h, t := Head(order, k), Tail(order, k);
    assert forall j :: 0 <= j < |t| ==> t[j] == order[n - m + j];
    if 2 * k <= n || n == 0 {
      forall i, j | 0 <= i < |h| && 0 <= j < |t|
        ensures h[i] != t[j]
      {
        assert i < n - m + j;
      }
    } else {
      assert h[n - m] == t[0];
    }
  }

  /** With exactly 2k assets the longs followed by the shorts are the whole
      order: no asset is left out and none is chosen twice. */
  lemma ExactSplit(ranks: Row, order: seq<nat>, k: nat)
    requires DescendingOrder(ranks, order) && |ranks| == 2 * k
    ensures Head(order, k) + Tail(order, k) == order
  {
  }

  /** An asset listed by a descending order is one of the assets. */
  lemma ListedAsset(ranks: Row, order: seq<nat>, a: nat)
    requires DescendingOrder(ranks, order) && a in order
    ensures a < |ranks|
  {
    var p := PositionOf(order, a);
  }

  /** Two descending orders may pick different long lists only among tied
      assets: an asset long under one order but not the other ranks exactly
      like an asset long under the other order but not the first. */
  lemma LongsDifferOnlyInTies(ranks: Row, o1: seq<nat>, o2: seq<nat>, k: nat, a: nat, b: nat)
    requires DescendingOrder(ranks, o1) && DescendingOrder(ranks, o2)
    requires a in Head(o1, k) && a !in Head(o2, k)
    requires b in Head(o2, k) && b !in Head(o1, k)
    ensures ranks[a] == ranks[b]
  {
    assert a in o1 && b in o2;
    ListedAsset(ranks, o1, a);
    ListedAsset(ranks, o2, b);
    LongKeyGe(ranks, o1, k, a, b);
    LongKeyGe(ranks, o2, k, b, a);
  }

  /** The same for the short lists. */
  lemma ShortsDifferOnlyInTies(ranks: Row, o1: seq<nat>, o2: seq<nat>, k: nat, a: nat, b: nat)
    requires DescendingOrder(ranks, o1) && DescendingOrder(ranks, o2)
    requires a in Tail(o1, k) && a !in Tail(o2, k)
    requires b in Tail(o2, k) && b !in Tail(o1, k)
    ensures ranks[a] == ranks[b]
  {
    assert a in o1 && b in o2;
    ListedAsset(ranks, o1, a);
    ListedAsset(ranks, o2, b);
    ShortsUnderrankRest(ranks, o1, k, a, b);
    ShortsUnderrankRest(ranks, o2, k, b, a);
  }

  /** An asset without a rank can be short: with one ranked and one unranked
      asset and one position a side, the unranked asset is the short one
      under every descending order. */
  lemma UnrankedCanBeShort(order: seq<nat>)
    requires DescendingOrder([Some(1.0), None], order)
    ensures Head(order, 1) == [0] && Tail(order, 1) == [1]
  {
    assert 0 in order && 1 in order;
  }

  predicate StrictlyIncreasing(order: seq<nat>) {
    forall i, j :: 0 <= i < j < |order| ==> order[i] < order[j]
  }

  lemma {:induction false} IncreasingAtLeastIndex(order: seq<nat>, i: nat)
    requires StrictlyIncreasing(order) && i < |order|
    ensures i <= order[i]
  {
    if i > 0 {
      IncreasingAtLeastIndex(order, i - 1);
    }
  }

  lemma {:induction false} IncreasingAtMostIndex(order: seq<nat>, i: nat)
    requires StrictlyIncreasing(order) && InRange(order, |order|) && i < |order|
    ensures order[i] <= i
    decreases |order| - i
  {
    if i + 1 < |order| {
      IncreasingAtMostIndex(order, i + 1);
    }
  }

  /** When no asset has a rank, the only descending order is column order:
      the longs are the first k columns and the shorts the last k. */
  lemma AllMissingKeepsColumnOrder(ranks: Row, order: seq<nat>)
    requires DescendingOrder(ranks, order)
    requires forall j :: 0 <= j < |ranks| ==> ranks[j].None?
    ensures forall i :: 0 <= i < |order| ==> order[i] == i
  {
    assert StrictlyIncreasing(order);
    forall i | 0 <= i < |order|
      ensures order[i] == i
    {
      IncreasingAtLeastIndex(order, i);
      IncreasingAtMostIndex(order, i);
    }
  }
}
