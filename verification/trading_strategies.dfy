/** The momentum selector: a momentum score from closes `lag` and
    `lag + lookback` rows back, cross-sectional percentile ranks, and the
    top and bottom `numStocks` assets of the most recent row. */
module TradingStrategies {
  import opened Frames
  import opened Ranking
  import opened Selection

  /** Momentum score: the close `lag` rows back over the close
      `lag + lookback` rows back, minus one.  Lookback and lag are counted in
      rows of the matrix, whatever period a row stands for. */
  function MomentumScore(closes: Matrix, w: nat, lookback: nat, lag: nat): (r: Matrix)
    requires Rect(closes, w) && PositivePrices(closes)
    ensures |r| == |closes| && Rect(r, w)
    ensures forall t, j :: 0 <= t < |closes| && 0 <= j < w ==>
              (r[t][j].Some? <==> lag + lookback <= t && closes[t - lag][j].Some?
                                  && closes[t - lag - lookback][j].Some?)
    ensures forall t, j :: 0 <= t < |closes| && 0 <= j < w && r[t][j].Some? ==>
              r[t][j].value == closes[t - lag][j].value / closes[t - lag - lookback][j].value - 1.0
  {
    Change(closes, w, lag, lag + lookback)
  }

  /** The long and short ticker lists. */
  datatype Positions = Positions(longs: seq<string>, shorts: seq<string>)

  /** The tickers at the given column positions. */
  function TickersAt(tickers: seq<string>, idx: seq<nat>): (r: seq<string>)
    requires forall i :: 0 <= i < |idx| ==> idx[i] < |tickers|
    ensures |r| == |idx| && forall i :: 0 <= i < |idx| ==> r[i] == tickers[idx[i]]
  {
    seq(|idx|, i requires 0 <= i < |idx| => tickers[idx[i]])
  }

  /** The percentile ranks of the most recent row of the momentum scores. */
  function CurrentRanks(closes: FieldMatrix, lookback: nat, lag: nat): (r: Row)
    requires closes.Valid() && PositivePrices(closes.rows) && |closes.rows| > 0
    ensures |r| == |closes.tickers|
  {
    var scores := MomentumScore(closes.rows, |closes.tickers|, lookback, lag);
    Rank(scores)[|scores| - 1]
  }

  /** Every present close of the panel is positive (the other fields, such
      as Volume, are not read and may hold anything). */
  predicate PositiveCloses(panel: Panel)
    requires panel.Valid()
  {
    Project(panel, "Close").Ok? ==> PositivePrices(Project(panel, "Close").value.rows)
  }

  /** Ranks the assets of the most recent row by momentum and returns the
      top `numStocks` as longs and the bottom `numStocks` as shorts.  Fails
      when the panel has no Close column, or has no rows to take the most
      recent one of. */
  function MomentumStrategy(panel: Panel, lookback: nat, lag: nat, numStocks: nat): (r: Result<Positions>)
    requires panel.Valid() && PositiveCloses(panel)
    ensures r.Err? <==> Project(panel, "Close").Err? || |panel.rows| == 0
    ensures r.Err? && Project(panel, "Close").Err? ==> r.error == MissingField("Close")
    ensures r.Err? && Project(panel, "Close").Ok? ==> r.error == NoRows
    ensures r.Ok? ==>
              var closes := Project(panel, "Close").value;
              var ranks := CurrentRanks(closes, lookback, lag);
              exists order :: DescendingOrder(ranks, order)
                && r.value.longs == TickersAt(closes.tickers, Head(order, numStocks))
                && r.value.shorts == TickersAt(closes.tickers, Tail(order, numStocks))
    ensures r.Ok? ==> |r.value.longs| == |r.value.shorts| == Min(numStocks, |FieldColumns(panel, "Close")|)
  {
    match Project(panel, "Close")
    case Err(e) => Err(e)
    case Ok(closes) =>
      if |closes.rows| == 0 then Err(NoRows)
      else
        var ranks := CurrentRanks(closes, lookback, lag);
        var order := Sort(ranks);
        SelectionShape(ranks, order, numStocks);
        Ok(Positions(TickersAt(closes.tickers, Head(order, numStocks)),
                     TickersAt(closes.tickers, Tail(order, numStocks))))
  }

  /** With no more rows than lag + lookback, no asset has a score in the most
      recent row, so every current rank is missing; the only descending
      order is then column order (see `AllMissingKeepsColumnOrder`). */
  lemma ShortHistoryLeavesRanksMissing(closes: FieldMatrix, lookback: nat, lag: nat)
    requires closes.Valid() && PositivePrices(closes.rows) && 0 < |closes.rows| <= lag + lookback
    ensures forall j :: 0 <= j < |closes.tickers| ==> CurrentRanks(closes, lookback, lag)[j].None?
  {
  }

  /** Under column order, the head and tail pick the first and last tickers. */
  lemma ColumnOrderPicks(tickers: seq<string>, order: seq<nat>, k: nat)
    requires |order| == |tickers| && forall i :: 0 <= i < |order| ==> order[i] == i
    ensures TickersAt(tickers, Head(order, k)) == tickers[..Min(k, |tickers|)]
    ensures TickersAt(tickers, Tail(order, k)) == tickers[|tickers| - Min(k, |tickers|)..]
  {
    var m := Min(k, |tickers|);
    var t := Tail(order, k);
    assert forall i :: 0 <= i < |t| ==> t[i] == order[|order| - m + i];
  }

  /** With no more rows than lag + lookback, the selector falls back on
      column order: the longs are the first `numStocks` Close tickers and the
      shorts the last `numStocks`, since missing ranks keep their order. */
  lemma ShortHistoryPicksColumnOrder(panel: Panel, lookback: nat, lag: nat, numStocks: nat)
    requires panel.Valid() && PositiveCloses(panel)
    requires |panel.rows| <= lag + lookback
    requires MomentumStrategy(panel, lookback, lag, numStocks).Ok?
    ensures var closes := Project(panel, "Close").value;
            var m := Min(numStocks, |closes.tickers|);
            var r := MomentumStrategy(panel, lookback, lag, numStocks).value;
            r.longs == closes.tickers[..m] && r.shorts == closes.tickers[|closes.tickers| - m..]
  {
    var closes := Project(panel, "Close").value;
    var ranks := CurrentRanks(closes, lookback, lag);
    var r := MomentumStrategy(panel, lookback, lag, numStocks).value;
    ShortHistoryLeavesRanksMissing(closes, lookback, lag);
    var order :| DescendingOrder(ranks, order)
      && r.longs == TickersAt(closes.tickers, Head(order, numStocks))
      && r.shorts == TickersAt(closes.tickers, Tail(order, numStocks));
    AllMissingKeepsColumnOrder(ranks, order);
    ColumnOrderPicks(closes.tickers, order, numStocks);
  }
}
