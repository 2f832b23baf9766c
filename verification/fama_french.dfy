/** The UMD (up-minus-down) momentum factor built from a monthly close
    matrix, and the assembly of the regression of UMD on the Fama-French
    factors: an inner join on the monthly period, then the regressand and the
    design matrix with its constant column. */
module FamaFrench {
  import opened Frames
  import opened Ranking
  import TradingStrategies

  /** A monthly period, as the ordinal of a month. */
  type Period = int

  /** One-period simple returns `close[t] / close[t-1] - 1` (pct_change
      without any filling of gaps); the first row is missing. */
  function Returns(closes: Matrix, w: nat): (r: Matrix)
    requires Rect(closes, w) && PositivePrices(closes)
    ensures |r| == |closes| && Rect(r, w)
    ensures |closes| > 0 ==> forall j :: 0 <= j < w ==> r[0][j].None?
    ensures forall t, j :: 0 < t < |closes| && 0 <= j < w ==>
              (r[t][j].Some? <==> closes[t][j].Some? && closes[t - 1][j].Some?)
    ensures forall t, j :: 0 < t < |closes| && 0 <= j < w && r[t][j].Some? ==>
              r[t][j].value == closes[t][j].value / closes[t - 1][j].value - 1.0
  {
    Change(closes, w, 0, 1)
  }

  /** The 12-1 momentum score: close one row back over close twelve rows
      back, minus one.  It is the selector's score with lag 1 and lookback
      11, so the first twelve rows hold no score at all. */
  function UmdScore(closes: Matrix, w: nat): (r: Matrix)
    requires Rect(closes, w) && PositivePrices(closes)
    ensures r == TradingStrategies.MomentumScore(closes, w, 11, 1)
    ensures forall t, j :: 0 <= t < |closes| && t < 12 && 0 <= j < w ==> r[t][j].None?
  {
    Change(closes, w, 1, 12)
  }

  /** Winners: assets whose rank is at least 1 - x (a missing rank compares
      false). */
  function Winners(ranks: Row, x: real): (r: seq<bool>)
    ensures |r| == |ranks|
    ensures forall j :: 0 <= j < |ranks| ==> (r[j] <==> ranks[j].Some? && ranks[j].value >= 1.0 - x)
  {
    seq(|ranks|, j requires 0 <= j < |ranks| => ranks[j].Some? && ranks[j].value >= 1.0 - x)
  }

  /** Losers: assets whose rank is at most x (a missing rank compares false). */
  function Losers(ranks: Row, x: real): (r: seq<bool>)
    ensures |r| == |ranks|
    ensures forall j :: 0 <= j < |ranks| ==> (r[j] <==> ranks[j].Some? && ranks[j].value <= x)
  {
    seq(|ranks|, j requires 0 <= j < |ranks| => ranks[j].Some? && ranks[j].value <= x)
  }

  /** For a cutoff below one half no asset is both a winner and a loser. */
  lemma MasksDisjoint(ranks: Row, x: real)
    requires x < 0.5
    ensures forall j :: 0 <= j < |ranks| ==> !(Winners(ranks, x)[j] && Losers(ranks, x)[j])
  {
  }

  /** Winners are closed upward in score: an asset scoring at least as high
      as a winner is a winner too. */
  lemma WinnersByScore(scores: Row, x: real, i: nat, j: nat)
    requires i < |scores| && j < |scores| && scores[i].Some? && scores[j].Some?
    requires scores[i].value >= scores[j].value && Winners(RankRow(scores), x)[j]
    ensures Winners(RankRow(scores), x)[i]
  {
    RankOrderIff(scores, j, i);
  }

  /** Losers are closed downward in score: an asset scoring at most as high
      as a loser is a loser too. */
  lemma LosersByScore(scores: Row, x: real, i: nat, j: nat)
    requires i < |scores| && j < |scores| && scores[i].Some? && scores[j].Some?
    requires scores[i].value <= scores[j].value && Losers(RankRow(scores), x)[j]
    ensures Losers(RankRow(scores), x)[i]
  {
    RankOrderIff(scores, i, j);
  }

  /** Number of present cells selected by the mask. */
  function MaskedCount(vals: Row, mask: seq<bool>): nat
    requires |vals| == |mask|
  {
    if |vals| == 0 then 0
    else
      MaskedCount(vals[..|vals| - 1], mask[..|mask| - 1])
        + (if mask[|mask| - 1] && vals[|vals| - 1].Some? then 1 else 0)
  }

  /** Sum of the present cells selected by the mask. */
  function MaskedSum(vals: Row, mask: seq<bool>): real
    requires |vals| == |mask|
  {
    if |vals| == 0 then 0.0
    else
      MaskedSum(vals[..|vals| - 1], mask[..|mask| - 1])
        + (if mask[|mask| - 1] && vals[|vals| - 1].Some? then vals[|vals| - 1].value else 0.0)
  }

  predicate Selected(vals: Row, mask: seq<bool>, j: int)
    requires |vals| == |mask|
  {
    0 <= j < |vals| && mask[j] && vals[j].Some?
  }

  lemma {:induction false} MaskedCountZero(vals: Row, mask: seq<bool>)
    requires |vals| == |mask|
    ensures MaskedCount(vals, mask) == 0 <==> forall j :: 0 <= j < |vals| ==> !Selected(vals, mask, j)
  {
    if |vals| > 0 {
      var n := |vals| - 1;
      MaskedCountZero(vals[..n], mask[..n]);
      assert forall j :: 0 <= j < n ==> (Selected(vals, mask, j) <==> Selected(vals[..n], mask[..n], j));
      assert MaskedCount(vals, mask)
          == MaskedCount(vals[..n], mask[..n]) + (if Selected(vals, mask, n) then 1 else 0);
    }
  }

  /** Mean of the present cells selected by the mask, skipping missing
      cells; undefined when the mask selects no present cell. */
  function MaskedMean(vals: Row, mask: seq<bool>): (r: Option<real>)
    requires |vals| == |mask|
    ensures r.None? <==> forall j :: 0 <= j < |vals| ==> !Selected(vals, mask, j)
    ensures r.Some? ==> r.value * MaskedCount(vals, mask) as real == MaskedSum(vals, mask)
  {
    MaskedCountZero(vals, mask);
    var n := MaskedCount(vals, mask);
    if n == 0 then None
    else
      var q := MaskedSum(vals, mask) / n as real;
      assert q * n as real == MaskedSum(vals, mask);
      Some(q)
  }

  /** `c` added once for every present cell the mask selects. */
  function MaskedConstSum(vals: Row, mask: seq<bool>, c: real): real
    requires |vals| == |mask|
  {
    if |vals| == 0 then 0.0
    else
      MaskedConstSum(vals[..|vals| - 1], mask[..|mask| - 1], c)
        + (if mask[|mask| - 1] && vals[|vals| - 1].Some? then c else 0.0)
  }

  lemma {:induction false} MaskedConstSumIsProduct(vals: Row, mask: seq<bool>, c: real)
    requires |vals| == |mask|
    ensures MaskedConstSum(vals, mask, c) == c * MaskedCount(vals, mask) as real
  {
    if |vals| > 0 {
      var n := |vals| - 1;
      MaskedConstSumIsProduct(vals[..n], mask[..n], c);
      var k := MaskedCount(vals[..n], mask[..n]) as real;
      assert c * (k + 1.0) == c * k + c;
    }
  }

  lemma {:induction false} MaskedSumAtLeast(vals: Row, mask: seq<bool>, lo: real)
    requires |vals| == |mask|
    requires forall j :: Selected(vals, mask, j) ==> lo <= vals[j].value
    ensures MaskedConstSum(vals, mask, lo) <= MaskedSum(vals, mask)
  {
    if |vals| > 0 {
      var n := |vals| - 1;
      assert forall j :: Selected(vals[..n], mask[..n], j) ==> Selected(vals, mask, j);
      MaskedSumAtLeast(vals[..n], mask[..n], lo);
      assert Selected(vals, mask, n) ==> lo <= vals[n].value;
    }
  }

  lemma {:induction false} MaskedSumAtMost(vals: Row, mask: seq<bool>, hi: real)
    requires |vals| == |mask|
    requires forall j :: Selected(vals, mask, j) ==> vals[j].value <= hi
    ensures MaskedSum(vals, mask) <= MaskedConstSum(vals, mask, hi)
  {
    if |vals| > 0 {
      var n := |vals| - 1;
      assert forall j :: Selected(vals[..n], mask[..n], j) ==> Selected(vals, mask, j);
      MaskedSumAtMost(vals[..n], mask[..n], hi);
      assert Selected(vals, mask, n) ==> vals[n].value <= hi;
    }
  }

  lemma QuotientAtLeast(s: real, n: real, lo: real)
    requires n > 0.0 && lo * n <= s
    ensures lo <= s / n
  {
    var q := s / n;
    assert q * n == s;
  }

  lemma QuotientAtMost(s: real, n: real, hi: real)
    requires n > 0.0 && s <= hi * n
    ensures s / n <= hi
  {
    var q := s / n;
    assert q * n == s;
  }

  /** The mean is at least any lower bound of the cells it averages. */
  lemma MaskedMeanAtLeast(vals: Row, mask: seq<bool>, lo: real)
    requires |vals| == |mask|
    requires forall j :: Selected(vals, mask, j) ==> lo <= vals[j].value
    ensures MaskedMean(vals, mask).Some? ==> lo <= MaskedMean(vals, mask).value
  {
    MaskedSumAtLeast(vals, mask, lo);
    MaskedConstSumIsProduct(vals, mask, lo);
    var n := MaskedCount(vals, mask) as real;
    if n > 0.0 {
      QuotientAtLeast(MaskedSum(vals, mask), n, lo);
    }
  }

  /** The mean is at most any upper bound of the cells it averages. */
  lemma MaskedMeanAtMost(vals: Row, mask: seq<bool>, hi: real)
    requires |vals| == |mask|
    requires forall j :: Selected(vals, mask, j) ==> vals[j].value <= hi
    ensures MaskedMean(vals, mask).Some? ==> MaskedMean(vals, mask).value <= hi
  {
    MaskedSumAtMost(vals, mask, hi);
    MaskedConstSumIsProduct(vals, mask, hi);
    var n := MaskedCount(vals, mask) as real;
    if n > 0.0 {
      QuotientAtMost(MaskedSum(vals, mask), n, hi);
    }
  }

  /** The mean lies between any lower and upper bound of the cells it
      averages; in particular, when all of them equal c, the mean is c. */
  lemma MaskedMeanBounds(vals: Row, mask: seq<bool>, lo: real, hi: real)
    requires |vals| == |mask|
    requires forall j :: Selected(vals, mask, j) ==> lo <= vals[j].value <= hi
    ensures MaskedMean(vals, mask).Some? ==> lo <= MaskedMean(vals, mask).value <= hi
  {
    MaskedMeanAtLeast(vals, mask, lo);
    MaskedMeanAtMost(vals, mask, hi);
  }

  /** The winners' mean return in row `t`: returns at row `t` over the
      assets whose 12-1 momentum rank at row `t` is at least 1 - x. */
  function WinnersMean(closes: Matrix, w: nat, x: real, t: nat): Option<real>
    requires Rect(closes, w) && PositivePrices(closes) && t < |closes|
  {
    var ranks := Rank(UmdScore(closes, w))[t];
    MaskedMean(Returns(closes, w)[t], Winners(ranks, x))
  }

  /** The losers' mean return in row `t`. */
  function LosersMean(closes: Matrix, w: nat, x: real, t: nat): Option<real>
    requires Rect(closes, w) && PositivePrices(closes) && t < |closes|
  {
    var ranks := Rank(UmdScore(closes, w))[t];
    MaskedMean(Returns(closes, w)[t], Losers(ranks, x))
  }

  /** Winners' mean minus losers' mean, undefined when either is. */
  function UmdValue(closes: Matrix, w: nat, x: real, t: nat): Option<real>
    requires Rect(closes, w) && PositivePrices(closes) && t < |closes|
  {
    var win := WinnersMean(closes, w, x, t);
    var lose := LosersMean(closes, w, x, t);
    if win.Some? && lose.Some? then Some(win.value - lose.value) else None
  }

  function IsPresent(o: Option<real>): bool {
    o.Some?
  }

  /** One row of the UMD output. */
  datatype UmdObs = UmdObs(period: Period, umd: real)

  /** The UMD column before dropping undefined rows. */
  function UmdColumn(closes: Matrix, w: nat, x: real): (r: Row)
    requires Rect(closes, w) && PositivePrices(closes)
    ensures |r| == |closes| && forall t :: 0 <= t < |closes| ==> r[t] == UmdValue(closes, w, x, t)
  {
    seq(|closes|, t requires 0 <= t < |closes| => UmdValue(closes, w, x, t))
  }

  /** The UMD series: one row per period where both means are defined, in
      period order, holding winners' mean minus losers' mean. */
  function CalculateUmd(periods: seq<Period>, closes: Matrix, w: nat, x: real): (r: seq<UmdObs>)
    requires |periods| == |closes| && Rect(closes, w) && PositivePrices(closes)
    ensures |r| <= |closes|
    ensures forall i :: 0 <= i < |r| ==> FromDefinedRow(periods, closes, w, x, r[i])
  {
    var col := UmdColumn(closes, w, x);
    var keep := IndicesWhere(col, IsPresent);
    var r := seq(|keep|, i requires 0 <= i < |keep| => UmdObs(periods[keep[i]], col[keep[i]].value));
    assert forall i :: 0 <= i < |r| ==> FromDefinedRow(periods, closes, w, x, r[i]) by {
      forall i | 0 <= i < |r|
        ensures FromDefinedRow(periods, closes, w, x, r[i])
      {
        var t := keep[i];
        assert IsPresent(col[t]);
        if t < 12 {
          UmdWarmup(closes, w, x, t);
        }
        UmdValueMeaning(closes, w, x, t);
      }
    }
    r
  }

  /** `src` lists, in strictly increasing order, the input row each UMD row
      of `r` comes from, with that row's period and UMD value. */
  ghost predicate SourceRows(periods: seq<Period>, closes: Matrix, w: nat, x: real, r: seq<UmdObs>, src: seq<nat>)
    requires |periods| == |closes| && Rect(closes, w) && PositivePrices(closes)
  {
    && |src| == |r|
    && (forall i, k :: 0 <= i < k < |src| ==> src[i] < src[k])
    && (forall i :: 0 <= i < |src| ==>
          (src[i] < |closes| && r[i].period == periods[src[i]] && UmdValue(closes, w, x, src[i]) == Some(r[i].umd)))
  }

  /** Each UMD row comes from its own input row, and the rows are drawn in
      input order: no input row yields two UMD rows. */
  ghost predicate DrawnInOrder(periods: seq<Period>, closes: Matrix, w: nat, x: real, r: seq<UmdObs>)
    requires |periods| == |closes| && Rect(closes, w) && PositivePrices(closes)
  {
    exists src: seq<nat> :: SourceRows(periods, closes, w, x, r, src)
  }

  /** The UMD rows are drawn from distinct input rows in increasing order,
      each carrying its row's period and defined UMD value, so no input row
      yields more than one UMD row. */
  lemma UmdRowsDrawnInOrder(periods: seq<Period>, closes: Matrix, w: nat, x: real)
    requires |periods| == |closes| && Rect(closes, w) && PositivePrices(closes)
    ensures DrawnInOrder(periods, closes, w, x, CalculateUmd(periods, closes, w, x))
  {
    var r := CalculateUmd(periods, closes, w, x);
    var col := UmdColumn(closes, w, x);
    var keep := IndicesWhere(col, IsPresent);
    forall i | 0 <= i < |keep|
      ensures keep[i] < |closes| && r[i].period == periods[keep[i]]
      ensures UmdValue(closes, w, x, keep[i]) == Some(r[i].umd)
    {
      assert IsPresent(col[keep[i]]);
    }
    assert SourceRows(periods, closes, w, x, r, keep);
  }

  /** Rows without a score cannot be ranked, so neither mask selects
      anything and the row is undefined: the first twelve rows never reach
      the UMD series. */
  lemma UmdWarmup(closes: Matrix, w: nat, x: real, t: nat)
    requires Rect(closes, w) && PositivePrices(closes) && t < |closes| && t < 12
    ensures UmdValue(closes, w, x, t).None?
  {
    var ranks := Rank(UmdScore(closes, w))[t];
    assert |ranks| == w;
    assert forall j :: 0 <= j < w ==> ranks[j].None?;
    assert !Selected(Returns(closes, w)[t], Winners(ranks, x), 0);
  }

  /** A row's UMD value is defined exactly when both means are, and is then
      winners' mean minus losers' mean. */
  lemma UmdValueMeaning(closes: Matrix, w: nat, x: real, t: nat)
    requires Rect(closes, w) && PositivePrices(closes) && t < |closes|
    ensures UmdValue(closes, w, x, t).Some? <==>
              WinnersMean(closes, w, x, t).Some? && LosersMean(closes, w, x, t).Some?
    ensures UmdValue(closes, w, x, t).Some? ==>
              UmdValue(closes, w, x, t).value == WinnersMean(closes, w, x, t).value - LosersMean(closes, w, x, t).value
  {
  }

  /** When every selected winner returned at least `c` and every selected
      loser at most `c`, a defined UMD value is non-negative: winners minus
      losers measures how far winners outperformed losers. */
  lemma UmdNonNegativeWhenWinnersBeatLosers(closes: Matrix, w: nat, x: real, t: nat, c: real)
    requires Rect(closes, w) && PositivePrices(closes) && t < |closes|
    requires var ret := Returns(closes, w)[t];
             var ranks := Rank(UmdScore(closes, w))[t];
             forall j :: Selected(ret, Winners(ranks, x), j) ==> c <= ret[j].value
    requires var ret := Returns(closes, w)[t];
             var ranks := Rank(UmdScore(closes, w))[t];
             forall j :: Selected(ret, Losers(ranks, x), j) ==> ret[j].value <= c
    ensures UmdValue(closes, w, x, t).Some? ==> UmdValue(closes, w, x, t).value >= 0.0
  {
    var ret := Returns(closes, w)[t];
    var ranks := Rank(UmdScore(closes, w))[t];
    assert |ret| == w && |ranks| == w;
    MaskedMeanAtLeast(ret, Winners(ranks, x), c);
    MaskedMeanAtMost(ret, Losers(ranks, x), c);
  }

  /** Each UMD row comes from an input row past the first twelve whose UMD
      value is defined, with that row's period and value. */
  lemma UmdRowSource(periods: seq<Period>, closes: Matrix, w: nat, x: real, i: nat) returns (t: nat)
    requires |periods| == |closes| && Rect(closes, w) && PositivePrices(closes)
    requires i < |CalculateUmd(periods, closes, w, x)|
    ensures 12 <= t < |closes|
    ensures CalculateUmd(periods, closes, w, x)[i].period == periods[t]
    ensures UmdValue(closes, w, x, t) == Some(CalculateUmd(periods, closes, w, x)[i].umd)
  {
    var col := UmdColumn(closes, w, x);
    var keep := IndicesWhere(col, IsPresent);
    t := keep[i];
    assert IsPresent(col[t]);
    if t < 12 {
      UmdWarmup(closes, w, x, t);
    }
  }

  /** Each input row with a defined UMD value has a UMD row with its period
      and value. */
  lemma UmdRowKept(periods: seq<Period>, closes: Matrix, w: nat, x: real, t: nat) returns (i: nat)
    requires |periods| == |closes| && Rect(closes, w) && PositivePrices(closes) && t < |closes|
    ensures UmdValue(closes, w, x, t).Some? ==>
              i < |CalculateUmd(periods, closes, w, x)|
              && CalculateUmd(periods, closes, w, x)[i] == UmdObs(periods[t], UmdValue(closes, w, x, t).value)
  {
    var col := UmdColumn(closes, w, x);
    var keep := IndicesWhere(col, IsPresent);
    if IsPresent(col[t]) {
      assert t in keep;
      i :| 0 <= i < |keep| && keep[i] == t;
    } else {
      i := 0;
    }
  }

  /** UMD rows keep the order of the input rows. */
  lemma UmdRowsOrdered(periods: seq<Period>, closes: Matrix, w: nat, x: real)
    requires |periods| == |closes| && Rect(closes, w) && PositivePrices(closes)
    requires forall s, t :: 0 <= s < t < |periods| ==> periods[s] < periods[t]
    ensures forall i, k :: 0 <= i < k < |CalculateUmd(periods, closes, w, x)| ==>
              CalculateUmd(periods, closes, w, x)[i].period < CalculateUmd(periods, closes, w, x)[k].period
  {
    var col := UmdColumn(closes, w, x);
    var keep := IndicesWhere(col, IsPresent);
    assert forall i, k :: 0 <= i < k < |keep| ==> periods[keep[i]] < periods[keep[k]];
  }

  /** `o` carries the period and the winners' mean minus losers' mean of an
      input row past the first twelve where both means are defined. */
  ghost predicate FromDefinedRow(periods: seq<Period>, closes: Matrix, w: nat, x: real, o: UmdObs)
    requires |periods| == |closes| && Rect(closes, w) && PositivePrices(closes)
  {
    exists t: nat :: 12 <= t < |closes|
      && o.period == periods[t]
      && WinnersMean(closes, w, x, t).Some? && LosersMean(closes, w, x, t).Some?
      && o.umd == WinnersMean(closes, w, x, t).value - LosersMean(closes, w, x, t).value
  }

  /** Every UMD row comes from an input row past the first twelve where both
      means are defined, and carries that row's period and winners' mean
      minus losers' mean. */
  lemma UmdRowsSound(periods: seq<Period>, closes: Matrix, w: nat, x: real)
    requires |periods| == |closes| && Rect(closes, w) && PositivePrices(closes)
    ensures forall i :: 0 <= i < |CalculateUmd(periods, closes, w, x)| ==>
              FromDefinedRow(periods, closes, w, x, CalculateUmd(periods, closes, w, x)[i])
  {
    var r := CalculateUmd(periods, closes, w, x);
    forall i | 0 <= i < |r|
      ensures FromDefinedRow(periods, closes, w, x, r[i])
    {
      var t := UmdRowSource(periods, closes, w, x, i);
      UmdValueMeaning(closes, w, x, t);
    }
  }

  /** Every input row where both means are defined has a UMD row with its
      period and winners' mean minus losers' mean. */
  lemma UmdRowsComplete(periods: seq<Period>, closes: Matrix, w: nat, x: real)
    requires |periods| == |closes| && Rect(closes, w) && PositivePrices(closes)
    ensures forall t :: 0 <= t < |closes| && WinnersMean(closes, w, x, t).Some? && LosersMean(closes, w, x, t).Some? ==>
              (exists i :: 0 <= i < |CalculateUmd(periods, closes, w, x)|
                 && CalculateUmd(periods, closes, w, x)[i].period == periods[t]
                 && CalculateUmd(periods, closes, w, x)[i].umd
                    == WinnersMean(closes, w, x, t).value - LosersMean(closes, w, x, t).value)
  {
    var r := CalculateUmd(periods, closes, w, x);
    forall t | 0 <= t < |closes| && WinnersMean(closes, w, x, t).Some? && LosersMean(closes, w, x, t).Some?
      ensures (exists i :: 0 <= i < |r| && r[i].period == periods[t]
                 && r[i].umd == WinnersMean(closes, w, x, t).value - LosersMean(closes, w, x, t).value)
    {
      UmdValueMeaning(closes, w, x, t);
      var i := UmdRowKept(periods, closes, w, x, t);
    }
  }

  /** With a cutoff of at most one half, a row whose present scores are all
      equal has an empty losers mask (every rank is above one half), so the
      row is dropped rather than yielding a zero. */
  lemma AllEqualScoresDropRow(closes: Matrix, w: nat, x: real, t: nat)
    requires Rect(closes, w) && PositivePrices(closes) && t < |closes|
    requires x <= 0.5 && AllTied(UmdScore(closes, w)[t])
    ensures LosersMean(closes, w, x, t).None?
    ensures UmdValue(closes, w, x, t).None?
  {
    var scores := UmdScore(closes, w)[t];
    var ranks := Rank(UmdScore(closes, w))[t];
    assert ranks == RankRow(scores);
    forall j | 0 <= j < |ranks| && ranks[j].Some?
      ensures ranks[j].value > x
    {
      AllTiedRank(scores, j);
    }
    var ret := Returns(closes, w)[t];
    assert forall j :: 0 <= j < |ret| ==> !Selected(ret, Losers(ranks, x), j);
  }

  /** The Fama-French factor values of one month. */
  datatype Factors = Factors(mktRf: real, smb: real, hml: real, rf: real)

  /** One row of the factor table. */
  datatype FactorObs = FactorObs(period: Period, factors: Factors)

  /** One row of the merged table. */
  datatype Merged = Merged(period: Period, umd: real, factors: Factors)

  /** The merged rows of one UMD row: one per factor row with the same
      period, in factor-table order. */
  function MatchesOf(o: UmdObs, right: seq<FactorObs>): (r: seq<Merged>)
    ensures forall i :: 0 <= i < |r| ==>
              (r[i].period == o.period && r[i].umd == o.umd
               && exists b :: 0 <= b < |right| && right[b].period == o.period && r[i].factors == right[b].factors)
    ensures forall b :: 0 <= b < |right| && right[b].period == o.period ==>
              Merged(o.period, o.umd, right[b].factors) in r
    ensures (forall b :: 0 <= b < |right| ==> right[b].period != o.period) ==> r == []
  {
    if |right| == 0 then []
    else
      var front := right[..|right| - 1];
      var last := right[|right| - 1];
      var j := MatchesOf(o, front);
      var tail := if last.period == o.period then [Merged(o.period, o.umd, last.factors)] else [];
      assert forall b :: 0 <= b < |front| ==> front[b] == right[b];
      var r := j + tail;
      assert forall i :: 0 <= i < |j| ==> r[i] == j[i];
      assert forall i :: |j| <= i < |r| ==> r[i] == tail[i - |j|] && right[|right| - 1].period == o.period;
      r
  }

  predicate DistinctPeriods(right: seq<FactorObs>) {
    forall a, b :: 0 <= a < b < |right| ==> right[a].period != right[b].period
  }

  lemma {:induction false} MatchesAtMostOne(o: UmdObs, right: seq<FactorObs>)
    requires DistinctPeriods(right)
    ensures |MatchesOf(o, right)| <= 1
  {
    if |right| > 0 {
      var front := right[..|right| - 1];
      assert DistinctPeriods(front) by {
        assert forall b :: 0 <= b < |front| ==> front[b] == right[b];
      }
      MatchesAtMostOne(o, front);
      if right[|right| - 1].period == o.period {
        assert forall b :: 0 <= b < |front| ==> front[b] == right[b] && front[b].period != o.period;
        assert MatchesOf(o, front) == [];
      }
    }
  }

  /** Inner join on the period: every pair of a UMD row and a factor row with
      the same period, in UMD order. */
  function InnerJoin(left: seq<UmdObs>, right: seq<FactorObs>): (r: seq<Merged>)
    ensures forall i :: 0 <= i < |r| ==>
              (exists a :: 0 <= a < |left| && left[a].period == r[i].period && left[a].umd == r[i].umd)
              && (exists b :: 0 <= b < |right| && right[b].period == r[i].period && right[b].factors == r[i].factors)
  {
    if |left| == 0 then []
    else
      var front := left[..|left| - 1];
      var last := left[|left| - 1];
      var j := InnerJoin(front, right);
      var m := MatchesOf(last, right);
      assert forall a :: 0 <= a < |front| ==> front[a] == left[a];
      var r := j + m;
      assert forall i :: |j| <= i < |r| ==> r[i] == m[i - |j|];
      r
  }

  /** Every UMD row whose period appears in the factor table is merged with
      that period's factor values. */
  lemma {:induction false} InnerJoinComplete(left: seq<UmdObs>, right: seq<FactorObs>, a: nat, b: nat)
    requires a < |left| && b < |right| && left[a].period == right[b].period
    ensures Merged(left[a].period, left[a].umd, right[b].factors) in InnerJoin(left, right)
  {
    var front := left[..|left| - 1];
    if a < |left| - 1 {
      assert front[a] == left[a];
      InnerJoinComplete(front, right, a, b);
    }
  }

  /** The merged table is empty exactly when no period is in both tables. */
  lemma InnerJoinEmptyIff(left: seq<UmdObs>, right: seq<FactorObs>)
    ensures |InnerJoin(left, right)| == 0 <==>
              forall a, b :: 0 <= a < |left| && 0 <= b < |right| ==> left[a].period != right[b].period
  {
    if exists a, b :: 0 <= a < |left| && 0 <= b < |right| && left[a].period == right[b].period {
      var a, b :| 0 <= a < |left| && 0 <= b < |right| && left[a].period == right[b].period;
      InnerJoinComplete(left, right, a, b);
    }
  }

  /** With strictly increasing UMD periods and distinct factor periods, the
      merged periods are strictly increasing: the merge keeps UMD order and
      repeats no period. */
  lemma {:induction false} InnerJoinOrdered(left: seq<UmdObs>, right: seq<FactorObs>)
    requires forall a, c :: 0 <= a < c < |left| ==> left[a].period < left[c].period
    requires DistinctPeriods(right)
    ensures forall i, k :: 0 <= i < k < |InnerJoin(left, right)| ==>
              InnerJoin(left, right)[i].period < InnerJoin(left, right)[k].period
  {
    if |left| > 0 {
      var front := left[..|left| - 1];
      var last := left[|left| - 1];
      assert forall a :: 0 <= a < |front| ==> front[a] == left[a];
      InnerJoinOrdered(front, right);
      MatchesAtMostOne(last, right);
      var j := InnerJoin(front, right);
      var m := MatchesOf(last, right);
      var r := InnerJoin(left, right);
      assert r == j + m;
      forall i | 0 <= i < |j|
        ensures j[i].period < last.period
      {
        var a :| 0 <= a < |front| && front[a].period == j[i].period && front[a].umd == j[i].umd;
      }
      forall i, k | 0 <= i < k < |r|
        ensures r[i].period < r[k].period
      {
        if k >= |j| {
          assert k == |j| && r[k] == m[0] && r[i] == j[i];
        }
      }
    }
  }

  /** The regression inputs: regressand, design matrix rows, and whether a
      constant column leads each row. */
  datatype Design = Design(y: seq<real>, x: seq<seq<real>>, hasConstant: bool)

  function FactorColumn(m: Merged, c: nat): real
    requires c < 3
  {
    if c == 0 then m.factors.mktRf else if c == 1 then m.factors.smb else m.factors.hml
  }

  /** Column `c` of the regressors (Mkt-RF, SMB, HML) holds one nonzero
      value in every row. */
  predicate NonzeroConstantColumn(df: seq<Merged>, c: nat)
    requires c < 3 && |df| > 0
  {
    FactorColumn(df[0], c) != 0.0 && forall i :: 0 <= i < |df| ==> FactorColumn(df[i], c) == FactorColumn(df[0], c)
  }

  /** Regress UMD on Mkt-RF, SMB and HML plus an intercept column of ones;
      the intercept is not added when one of the regressors already is a
      nonzero constant (add_constant's default of skipping a constant).  An
      empty merged table leaves nothing to regress on. */
  function AssembleRegression(df: seq<Merged>): (r: Result<Design>)
    ensures r.Err? <==> |df| == 0
    ensures r.Err? ==> r.error == EmptyOverlap
    ensures r.Ok? ==> |r.value.y| == |df| && |r.value.x| == |df|
    ensures r.Ok? ==> (r.value.hasConstant <==>
              !NonzeroConstantColumn(df, 0) && !NonzeroConstantColumn(df, 1) && !NonzeroConstantColumn(df, 2))
    ensures r.Ok? ==> forall i :: 0 <= i < |df| ==> r.value.y[i] == df[i].umd
    ensures r.Ok? ==> forall i :: 0 <= i < |df| ==>
              r.value.x[i] == (if r.value.hasConstant then [1.0] else [])
                              + [df[i].factors.mktRf, df[i].factors.smb, df[i].factors.hml]
  {
    if |df| == 0 then Err(EmptyOverlap)
    else
      var hasConstant := !NonzeroConstantColumn(df, 0) && !NonzeroConstantColumn(df, 1) && !NonzeroConstantColumn(df, 2);
      var lead: seq<real> := if hasConstant then [1.0] else [];
      var y := seq(|df|, i requires 0 <= i < |df| => df[i].umd);
      var x := seq(|df|, i requires 0 <= i < |df| => lead + [df[i].factors.mktRf, df[i].factors.smb, df[i].factors.hml]);
      Ok(Design(y, x, hasConstant))
  }

  /** From a monthly close matrix and the factor table to the regression
      inputs: compute UMD, merge on the period, assemble. */
  function RegressionInputs(periods: seq<Period>, closes: Matrix, w: nat, x: real, factors: seq<FactorObs>): (r: Result<Design>)
    requires |periods| == |closes| && Rect(closes, w) && PositivePrices(closes)
    ensures var umd := CalculateUmd(periods, closes, w, x);
      r.Err? <==> forall a, b :: 0 <= a < |umd| && 0 <= b < |factors| ==> umd[a].period != factors[b].period
    ensures r.Err? ==> r.error == EmptyOverlap
    ensures r.Ok? ==> |r.value.x| == |r.value.y|
    ensures r.Ok? ==> forall i :: 0 <= i < |r.value.y| ==>
              AlignedRow(CalculateUmd(periods, closes, w, x), factors, r.value.y[i], r.value.x[i])
  {
    var umd := CalculateUmd(periods, closes, w, x);
    RegressionRowsAligned(umd, factors);
    AssembleRegression(InnerJoin(umd, factors))
  }

  /** A regression row with regressand `y` and regressors `x` pairs the UMD
      value of some period with the Mkt-RF, SMB and HML values of the same
      period in the factor table. */
  ghost predicate AlignedRow(umd: seq<UmdObs>, factors: seq<FactorObs>, y: real, x: seq<real>) {
    |x| >= 3 &&
    exists a, b :: 0 <= a < |umd| && 0 <= b < |factors| && umd[a].period == factors[b].period
      && y == umd[a].umd
      && x[|x| - 3..] == [factors[b].factors.mktRf, factors[b].factors.smb, factors[b].factors.hml]
  }

  lemma RegressionRowSource(df: seq<Merged>, umd: seq<UmdObs>, factors: seq<FactorObs>, i: nat)
    requires df == InnerJoin(umd, factors) && AssembleRegression(df).Ok?
    requires i < |AssembleRegression(df).value.y|
    ensures AlignedRow(umd, factors, AssembleRegression(df).value.y[i], AssembleRegression(df).value.x[i])
  {
    var a :| 0 <= a < |umd| && umd[a].period == df[i].period && umd[a].umd == df[i].umd;
    var b :| 0 <= b < |factors| && factors[b].period == df[i].period && factors[b].factors == df[i].factors;
    var row := AssembleRegression(df).value.x[i];
    assert row[|row| - 3..] == [df[i].factors.mktRf, df[i].factors.smb, df[i].factors.hml];
  }

  /** Every regression row pairs the UMD value of some period with the
      Mkt-RF, SMB and HML values of the same period in the factor table; the
      assembly fails exactly when no UMD period is in the factor table. */
  lemma RegressionRowsAligned(umd: seq<UmdObs>, factors: seq<FactorObs>)
    ensures AssembleRegression(InnerJoin(umd, factors)).Err? <==>
              forall a, b :: 0 <= a < |umd| && 0 <= b < |factors| ==> umd[a].period != factors[b].period
    ensures var r := AssembleRegression(InnerJoin(umd, factors));
      r.Ok? ==> forall i :: 0 <= i < |r.value.y| ==> AlignedRow(umd, factors, r.value.y[i], r.value.x[i])
  {
    var df := InnerJoin(umd, factors);
    InnerJoinEmptyIff(umd, factors);
    var r := AssembleRegression(df);
    if r.Ok? {
      forall i | 0 <= i < |r.value.y|
        ensures AlignedRow(umd, factors, r.value.y[i], r.value.x[i])
      {
        RegressionRowSource(df, umd, factors, i);
      }
    }
  }
}
