/** Cross-sectional percentile ranking of one row, as DataFrame.rank(axis=1,
    pct=True) does it with its defaults: tied values share the average of the
    positions they occupy, missing cells stay missing, and each rank is divided
    by the number of present cells of its row. */
module Ranking {
  import opened Frames

  /** Number of present cells. */
  function CountPresent(s: Row): nat {
    if |s| == 0 then 0
    else CountPresent(s[..|s| - 1]) + (if s[|s| - 1].Some? then 1 else 0)
  }

  /** Number of present cells strictly below `v`. */
  function CountBelow(s: Row, v: real): nat {
    if |s| == 0 then 0
    else CountBelow(s[..|s| - 1], v) + (if s[|s| - 1].Some? && s[|s| - 1].value < v then 1 else 0)
  }

  /** Number of present cells equal to `v`. */
  function CountTied(s: Row, v: real): nat {
    if |s| == 0 then 0
    else CountTied(s[..|s| - 1], v) + (if s[|s| - 1].Some? && s[|s| - 1].value == v then 1 else 0)
  }

  /** Number of present cells strictly above `v`. */
  function CountAbove(s: Row, v: real): nat {
    if |s| == 0 then 0
    else CountAbove(s[..|s| - 1], v) + (if s[|s| - 1].Some? && s[|s| - 1].value > v then 1 else 0)
  }

  /** The 1-based position a value `v` takes among the present cells of `s`,
      averaged over the block of cells tied with it. */
  function AvgRank(s: Row, v: real): real {
    CountBelow(s, v) as real + (CountTied(s, v) as real + 1.0) / 2.0
  }

  /** Every present cell falls in exactly one of below, tied or above. */
  lemma {:induction false} CountSplit(s: Row, v: real)
    ensures CountBelow(s, v) + CountTied(s, v) + CountAbove(s, v) == CountPresent(s)
  {
    if |s| > 0 {
      CountSplit(s[..|s| - 1], v);
    }
  }

  /** A present cell is tied with itself. */
  lemma {:induction false} TiedWithSelf(s: Row, j: nat)
    requires j < |s| && s[j].Some?
    ensures CountTied(s, s[j].value) >= 1
  {
    var front := s[..|s| - 1];
    if j < |s| - 1 {
      assert front[j] == s[j];
      TiedWithSelf(front, j);
    }
  }

  lemma PresentCounted(s: Row, j: nat)
    requires j < |s| && s[j].Some?
    ensures CountPresent(s) >= 1
  {
    TiedWithSelf(s, j);
    CountSplit(s, s[j].value);
  }

  /** Everything below or tied with `v` is below any larger `u`. */
  lemma {:induction false} BelowGrows(s: Row, v: real, u: real)
    requires v < u
    ensures CountBelow(s, u) >= CountBelow(s, v) + CountTied(s, v)
  {
    if |s| > 0 {
      BelowGrows(s[..|s| - 1], v, u);
    }
  }

  lemma DivideWithinUnit(a: real, n: real)
    requires 0.0 < a <= n
    ensures 0.0 < a / n <= 1.0
  {
    assert a / n * n == a;
  }

  lemma DivideMonotone(a: real, b: real, n: real)
    requires a < b && n > 0.0
    ensures a / n < b / n
  {
    assert a / n * n == a;
    assert b / n * n == b;
  }

  lemma DivideAdd(a: real, b: real, n: real)
    requires n > 0.0
    ensures a / n + b / n == (a + b) / n
  {
    assert a / n * n == a;
    assert b / n * n == b;
    assert (a + b) / n * n == a + b;
  }

  lemma DivideCancel(a: real, b: real, n: real)
    requires n > 0.0 && 2.0 * a == n * (2.0 * b)
    ensures a / n == b
  {
    assert a == n * b;
  }

  /** The percentile rank of cell `j`: missing when the cell is missing. */
  function PctRank(s: Row, j: nat): (r: Option<real>)
    requires j < |s|
    ensures r.None? <==> s[j].None?
    ensures r.Some? ==> 0.0 < r.value <= 1.0
  {
    match s[j]
    case None => None
    case Some(v) =>
      TiedWithSelf(s, j);
      CountSplit(s, v);
      var n := CountPresent(s) as real;
      DivideWithinUnit(AvgRank(s, v), n);
      Some(AvgRank(s, v) / n)
  }

  /** The percentile ranks of a whole row. */
  function RankRow(s: Row): (r: Row)
    ensures |r| == |s|
    ensures forall j :: 0 <= j < |s| ==> (r[j].None? <==> s[j].None?)
    ensures forall j :: 0 <= j < |s| && r[j].Some? ==> 0.0 < r[j].value <= 1.0
  {
    seq(|s|, j requires 0 <= j < |s| => PctRank(s, j))
  }

  /** The percentile ranks of every row, each row independently. */
  function Rank(m: Matrix): (r: Matrix)
    ensures |r| == |m|
    ensures forall t :: 0 <= t < |m| ==> r[t] == RankRow(m[t])
  {
    seq(|m|, t requires 0 <= t < |m| => RankRow(m[t]))
  }

  lemma RankRect(m: Matrix, w: nat)
    requires Rect(m, w)
    ensures Rect(Rank(m), w)
  {
  }

  /** A strictly smaller value gets a strictly smaller rank. */
  lemma RankStrictlyMonotone(s: Row, i: nat, j: nat)
    requires i < |s| && j < |s| && s[i].Some? && s[j].Some?
    requires s[i].value < s[j].value
    ensures RankRow(s)[i].value < RankRow(s)[j].value
  {
    var v, u := s[i].value, s[j].value;
    BelowGrows(s, v, u);
    TiedWithSelf(s, i);
    TiedWithSelf(s, j);
    PresentCounted(s, i);
    var n := CountPresent(s) as real;
    DivideMonotone(AvgRank(s, v), AvgRank(s, u), n);
    assert RankRow(s)[i].value == AvgRank(s, v) / n;
    assert RankRow(s)[j].value == AvgRank(s, u) / n;
  }

  /** Ranks order present cells exactly as their values do: smaller iff
      smaller, equal iff equal. */
  lemma RankOrderIff(s: Row, i: nat, j: nat)
    requires i < |s| && j < |s| && s[i].Some? && s[j].Some?
    ensures RankRow(s)[i].value < RankRow(s)[j].value <==> s[i].value < s[j].value
    ensures RankRow(s)[i].value == RankRow(s)[j].value <==> s[i].value == s[j].value
  {
    if s[i].value < s[j].value {
      RankStrictlyMonotone(s, i, j);
    } else if s[j].value < s[i].value {
      RankStrictlyMonotone(s, j, i);
    }
  }

  /** A cell multiplied by `c`; a missing cell stays missing. */
  function Times(c: real, o: Option<real>): Option<real> {
    if o.Some? then Some(c * o.value) else None
  }

  /** Every present cell multiplied by `c`. */
  function Scale(s: Row, c: real): (r: Row)
    ensures |r| == |s|
    ensures forall j :: 0 <= j < |s| ==> r[j] == Times(c, s[j])
  {
    seq(|s|, j requires 0 <= j < |s| => Times(c, s[j]))
  }

  /** Multiplying by a positive constant keeps comparisons. */
  lemma ScaleCompare(c: real, a: real, v: real)
    requires c > 0.0
    ensures c * a < c * v <==> a < v
    ensures c * a == c * v <==> a == v
  {
  }

  /** Two rows whose cells compare with `v` and `u` alike have the same
      counts around them. */
  lemma {:induction false} SameComparisonsSameCounts(s: Row, t: Row, v: real, u: real)
    requires |s| == |t|
    requires forall j :: 0 <= j < |s| ==> (s[j].Some? <==> t[j].Some?)
    requires forall j :: 0 <= j < |s| && s[j].Some? && t[j].Some? ==>
               (s[j].value < v <==> t[j].value < u) && (s[j].value == v <==> t[j].value == u)
    ensures CountPresent(t) == CountPresent(s)
    ensures CountBelow(t, u) == CountBelow(s, v)
    ensures CountTied(t, u) == CountTied(s, v)
  {
    if |s| > 0 {
      var n := |s| - 1;
      assert forall j :: 0 <= j < n ==> s[..n][j] == s[j] && t[..n][j] == t[j];
      SameComparisonsSameCounts(s[..n], t[..n], v, u);
    }
  }

  lemma ScaleCounts(s: Row, c: real, v: real)
    requires c > 0.0
    ensures CountPresent(Scale(s, c)) == CountPresent(s)
    ensures CountBelow(Scale(s, c), c * v) == CountBelow(s, v)
    ensures CountTied(Scale(s, c), c * v) == CountTied(s, v)
  {
    var t := Scale(s, c);
    forall j | 0 <= j < |s| && s[j].Some? && t[j].Some?
      ensures (s[j].value < v <==> t[j].value < c * v) && (s[j].value == v <==> t[j].value == c * v)
    {
      assert t[j].value == c * s[j].value;
      ScaleCompare(c, s[j].value, v);
    }
    SameComparisonsSameCounts(s, t, v, c * v);
  }

  lemma ScaledCellRank(s: Row, c: real, j: nat)
    requires c > 0.0 && j < |s|
    ensures PctRank(Scale(s, c), j) == PctRank(s, j)
  {
    if s[j].Some? {
      var v := s[j].value;
      ScaleCounts(s, c, v);
      assert Times(c, s[j]).value == c * v;
      assert Scale(s, c)[j] == Some(c * v);
      assert AvgRank(Scale(s, c), c * v) == AvgRank(s, v);
    }
  }

  /** Multiplying a row by a positive constant leaves its ranks unchanged. */
  lemma RankScaleInvariant(s: Row, c: real)
    requires c > 0.0
    ensures RankRow(Scale(s, c)) == RankRow(s)
  {
    var a, b := RankRow(Scale(s, c)), RankRow(s);
    forall j | 0 <= j < |s|
      ensures a[j] == b[j]
    {
      ScaledCellRank(s, c, j);
    }
  }

  /** Sum of the present cells. */
  function SumPresent(s: Row): real {
    if |s| == 0 then 0.0
    else SumPresent(s[..|s| - 1]) + (if s[|s| - 1].Some? then s[|s| - 1].value else 0.0)
  }

  /** Sum, over the present cells `x` of `s`, of the average rank `x` would
      take within `ctx`. */
  function RankTotal(ctx: Row, s: Row): real {
    if |s| == 0 then 0.0
    else
      RankTotal(ctx, s[..|s| - 1])
        + (if s[|s| - 1].Some? then AvgRank(ctx, s[|s| - 1].value) else 0.0)
  }

  /** Adding one present value `v` to the context raises the rank of every
      larger cell by one and of every tied cell by a half. */
  lemma {:induction false} RankTotalGrowContext(ctx: Row, s: Row, v: real)
    ensures RankTotal(ctx + [Some(v)], s)
         == RankTotal(ctx, s) + CountAbove(s, v) as real + CountTied(s, v) as real / 2.0
  {
    if |s| > 0 {
      RankTotalGrowContext(ctx, s[..|s| - 1], v);
      var e := s[|s| - 1];
      if e.Some? {
        assert (ctx + [Some(v)])[..|ctx|] == ctx;
      }
    }
  }

  /** A missing cell in the context changes no rank. */
  lemma {:induction false} RankTotalMissingContext(ctx: Row, s: Row)
    ensures RankTotal(ctx + [None], s) == RankTotal(ctx, s)
  {
    if |s| > 0 {
      RankTotalMissingContext(ctx, s[..|s| - 1]);
      assert (ctx + [None])[..|ctx|] == ctx;
    }
  }

  /** Appending a present value `v` to a row raises its rank total by the
      new present count. */
  lemma AppendPresentRankTotal(p: Row, v: real)
    ensures RankTotal(p + [Some(v)], p + [Some(v)]) == RankTotal(p, p) + CountPresent(p) as real + 1.0
  {
    var s := p + [Some(v)];
    assert s[..|p|] == p;
    RankTotalGrowContext(p, p, v);
    CountSplit(p, v);
    assert CountBelow(s, v) == CountBelow(p, v);
    assert CountTied(s, v) == CountTied(p, v) + 1;
    assert RankTotal(s, s) == RankTotal(s, p) + AvgRank(s, v);
  }

  /** Appending a missing cell to a row leaves its rank total unchanged. */
  lemma AppendMissingRankTotal(p: Row)
    ensures RankTotal(p + [None], p + [None]) == RankTotal(p, p)
  {
    var s := p + [None];
    assert s[..|p|] == p;
    RankTotalMissingContext(p, p);
  }

  /** The average ranks of a row add up to 1 + 2 + ... + n, whatever the ties. */
  lemma {:induction false} AvgRanksSumToTriangle(s: Row)
    ensures 2.0 * RankTotal(s, s) == CountPresent(s) as real * (CountPresent(s) as real + 1.0)
  {
    if |s| > 0 {
      var p := s[..|s| - 1];
      assert s == p + [s[|s| - 1]];
      AvgRanksSumToTriangle(p);
      var n := CountPresent(p) as real;
      if s[|s| - 1].None? {
        AppendMissingRankTotal(p);
        assert CountPresent(s) == CountPresent(p);
      } else {
        AppendPresentRankTotal(p, s[|s| - 1].value);
        assert CountPresent(s) as real == n + 1.0;
        assert (n + 1.0) * (n + 2.0) == n * (n + 1.0) + 2.0 * (n + 1.0);
      }
    }
  }

  /** The percentile rank, within `ctx`, of a cell value `o`. */
  function PctIn(ctx: Row, o: Option<real>): Option<real>
    requires CountPresent(ctx) > 0
  {
    if o.Some? then Some(AvgRank(ctx, o.value) / CountPresent(ctx) as real) else None
  }

  function PctRowIn(ctx: Row, s: Row): (r: Row)
    requires CountPresent(ctx) > 0
    ensures |r| == |s| && forall j :: 0 <= j < |s| ==> r[j] == PctIn(ctx, s[j])
  {
    seq(|s|, j requires 0 <= j < |s| => PctIn(ctx, s[j]))
  }

  /** Summing the percentile ranks is summing the average ranks, divided by
      the context's present count. */
  lemma {:induction false} SumOfPctRanks(ctx: Row, s: Row)
    requires CountPresent(ctx) > 0
    ensures SumPresent(PctRowIn(ctx, s)) == RankTotal(ctx, s) / CountPresent(ctx) as real
  {
    var n := CountPresent(ctx) as real;
    if |s| > 0 {
      var p := s[..|s| - 1];
      SumOfPctRanks(ctx, p);
      assert PctRowIn(ctx, s)[..|s| - 1] == PctRowIn(ctx, p);
      var e := s[|s| - 1];
      var last := if e.Some? then AvgRank(ctx, e.value) else 0.0;
      DivideAdd(RankTotal(ctx, p), last, n);
      assert 0.0 / n == 0.0;
    }
  }

  /** The percentile ranks of a row with n present cells add up to (n + 1) / 2,
      so their mean is (n + 1) / 2n: the signature of averaging tied ranks. */
  lemma RankRowSum(s: Row)
    requires CountPresent(s) > 0
    ensures SumPresent(RankRow(s)) == (CountPresent(s) + 1) as real / 2.0
  {
    var n := CountPresent(s) as real;
    assert RankRow(s) == PctRowIn(s, s);
    SumOfPctRanks(s, s);
    AvgRanksSumToTriangle(s);
    DivideCancel(RankTotal(s, s), (n + 1.0) / 2.0, n);
  }

  /** All present cells of `s` hold the same value. */
  predicate AllTied(s: Row) {
    forall i, j :: 0 <= i < |s| && 0 <= j < |s| && s[i].Some? && s[j].Some? ==> s[i].value == s[j].value
  }

  lemma {:induction false} AllTiedCounts(s: Row, v: real)
    requires forall i :: 0 <= i < |s| && s[i].Some? ==> s[i].value == v
    ensures CountBelow(s, v) == 0 && CountTied(s, v) == CountPresent(s)
  {
    if |s| > 0 {
      var p := s[..|s| - 1];
      assert forall i :: 0 <= i < |p| ==> p[i] == s[i];
      AllTiedCounts(p, v);
    }
  }

  lemma HalfSuccessorOver(n: real)
    requires n > 0.0
    ensures 2.0 * n * (((n + 1.0) / 2.0) / n) == n + 1.0
    ensures ((n + 1.0) / 2.0) / n > 0.5
  {
    var q := ((n + 1.0) / 2.0) / n;
    assert q * n == (n + 1.0) / 2.0;
    assert q * n > n / 2.0;
  }

  /** When every present score of a row is the same, every present cell gets
      the same rank, (n + 1) / 2n, which lies strictly above one half. */
  lemma AllTiedRank(s: Row, j: nat)
    requires AllTied(s) && j < |s| && s[j].Some?
    ensures forall i :: 0 <= i < |s| && s[i].Some? ==> RankRow(s)[i] == RankRow(s)[j]
    ensures RankRow(s)[j].value > 0.5
    ensures CountPresent(s) > 0
    ensures RankRow(s)[j].value == ((CountPresent(s) as real + 1.0) / 2.0) / CountPresent(s) as real
  {
    forall i | 0 <= i < |s| && s[i].Some?
      ensures RankRow(s)[i] == RankRow(s)[j]
    {
      RankOrderIff(s, i, j);
    }
    var v := s[j].value;
    assert forall i :: 0 <= i < |s| && s[i].Some? ==> s[i].value == v;
    AllTiedCounts(s, v);
    PresentCounted(s, j);
    var n := CountPresent(s) as real;
    var a := AvgRank(s, v);
    assert a == (n + 1.0) / 2.0;
    HalfSuccessorOver(n);
    var q := ((n + 1.0) / 2.0) / n;
    assert a / n == q;
    assert PctRank(s, j).value == q;
    assert RankRow(s)[j].value == q;
  }
}
