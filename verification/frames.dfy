/** Tabular building blocks shared by the momentum selector and the UMD factor
    constructor: optional cells, rectangular matrices (rows are periods, columns
    are assets), row shifting, index filtering and field projection of a
    multi-level price panel. */
module Frames {

  /** A cell of a price panel: missing (NaN in a pandas frame) or a value. */
  datatype Option<+T> = None | Some(value: T)

  /** The failures the core can report. */
  datatype Failure =
    | MissingField(field: string)   // the requested OHLCV field is not in the panel
    | NoRows                        // the most recent row was asked of an empty matrix
    | EmptyOverlap                  // no period is common to the UMD and factor tables

  datatype Result<+T> = Ok(value: T) | Err(error: Failure)

  type Row = seq<Option<real>>
  type Matrix = seq<Row>

  /** Every row of `m` has exactly `w` cells. */
  predicate Rect(m: Matrix, w: nat) {
    forall t :: 0 <= t < |m| ==> |m[t]| == w
  }

  /** Every present price is strictly positive. */
  predicate PositivePrices(m: Matrix) {
    forall t, j :: 0 <= t < |m| && 0 <= j < |m[t]| && m[t][j].Some? ==> m[t][j].value > 0.0
  }

  function MissingRow(w: nat): (r: Row)
    ensures |r| == w
    ensures forall j :: 0 <= j < w ==> r[j] == None
  {
    seq(w, j => None)
  }

  /** Rows moved down by `k` periods; the `k` rows shifted in at the top are
      missing (DataFrame.shift with a non-negative period count). */
  function Shift(m: Matrix, w: nat, k: nat): (r: Matrix)
    requires Rect(m, w)
    ensures |r| == |m| && Rect(r, w)
    ensures forall t, j :: 0 <= t < |r| && 0 <= j < w ==> r[t][j] == (if t < k then None else m[t - k][j])
  {
    var r := seq(|m|, t requires 0 <= t < |m| => if t < k then MissingRow(w) else m[t - k]);
    assert forall t :: 0 <= t < |r| ==> r[t] == (if t < k then MissingRow(w) else m[t - k]);
    r
  }

  /** Shifting by zero leaves a matrix unchanged. */
  lemma ShiftZero(m: Matrix, w: nat)
    requires Rect(m, w)
    ensures Shift(m, w, 0) == m
  {
  }

  /** Two successive shifts are one shift by the total distance. */
  lemma ShiftCompose(m: Matrix, w: nat, a: nat, b: nat)
    requires Rect(m, w)
    ensures Shift(Shift(m, w, a), w, b) == Shift(m, w, a + b)
  {
    var lhs := Shift(Shift(m, w, a), w, b);
    var rhs := Shift(m, w, a + b);
    forall t | 0 <= t < |m|
      ensures lhs[t] == rhs[t]
    {
      assert |lhs[t]| == |rhs[t]| == w;
      forall j | 0 <= j < w
        ensures lhs[t][j] == rhs[t][j]
      {
      }
    }
  }

  /** Shifting keeps every present price positive. */
  lemma ShiftPositive(m: Matrix, w: nat, k: nat)
    requires Rect(m, w) && PositivePrices(m)
    ensures PositivePrices(Shift(m, w, k))
  {
  }

  /** `near / far - 1`, missing when either side is missing. */
  function Ratio(near: Option<real>, far: Option<real>): Option<real>
    requires far.Some? ==> far.value > 0.0
  {
    if near.Some? && far.Some? then Some(near.value / far.value - 1.0) else None
  }

  /** Relative change from the close `far` rows back to the close `near` rows
      back, cell by cell: `m.shift(near) / m.shift(far) - 1`. */
  function Change(m: Matrix, w: nat, near: nat, far: nat): (r: Matrix)
    requires Rect(m, w) && PositivePrices(m)
    ensures |r| == |m| && Rect(r, w)
    ensures forall t, j :: 0 <= t < |m| && 0 <= j < w ==>
              (r[t][j].Some? <==> near <= t && far <= t && m[t - near][j].Some? && m[t - far][j].Some?)
    ensures forall t, j :: 0 <= t < |m| && 0 <= j < w && r[t][j].Some? ==>
              r[t][j].value == m[t - near][j].value / m[t - far][j].value - 1.0
  {
    var d := Shift(m, w, near);
    var s := Shift(m, w, far);
    ShiftPositive(m, w, far);
    var r := seq(|m|, t requires 0 <= t < |m| =>
               seq(w, j requires 0 <= j < w => Ratio(d[t][j], s[t][j])));
    assert forall t, j :: 0 <= t < |m| && 0 <= j < w ==> r[t][j] == Ratio(d[t][j], s[t][j]);
    r
  }

  /** The positions of `s` whose element satisfies `p`, in increasing order. */
  function IndicesWhere<T>(s: seq<T>, p: T -> bool): (r: seq<nat>)
    ensures |r| <= |s|
    ensures forall i :: 0 <= i < |r| ==> r[i] < |s| && p(s[r[i]])
    ensures forall i, j :: 0 <= i < j < |r| ==> r[i] < r[j]
    ensures forall k :: 0 <= k < |s| && p(s[k]) ==> k in r
  {
    if |s| == 0 then []
    else
      var front := IndicesWhere(s[..|s| - 1], p);
      assert forall k :: 0 <= k < |s| - 1 ==> s[..|s| - 1][k] == s[k];
      front + (if p(s[|s| - 1]) then [|s| - 1] else [])
  }

  /** A column of a yfinance-style panel: first level the OHLCV field, second
      level the ticker. */
  datatype ColumnKey = ColumnKey(field: string, ticker: string)

  /** A multi-level price panel: one cell per (period, column). */
  datatype Panel = Panel(columns: seq<ColumnKey>, rows: Matrix) {
    predicate Valid() {
      Rect(rows, |columns|)
    }
  }

  /** A single-field matrix (rows are periods, columns are tickers). */
  datatype FieldMatrix = FieldMatrix(tickers: seq<string>, rows: Matrix) {
    predicate Valid() {
      Rect(rows, |tickers|)
    }
  }

  function IsField(field: string): ColumnKey -> bool {
    (c: ColumnKey) => c.field == field
  }

  /** The panel columns that belong to `field`, in panel order. */
  function FieldColumns(p: Panel, field: string): seq<nat> {
    IndicesWhere(p.columns, IsField(field))
  }

  /** The columns `idx` of `m`, in the order of `idx`. */
  function SelectColumns(m: Matrix, w: nat, idx: seq<nat>): (r: Matrix)
    requires Rect(m, w)
    requires forall c :: 0 <= c < |idx| ==> idx[c] < w
    ensures |r| == |m| && Rect(r, |idx|)
    ensures forall t, c :: 0 <= t < |m| && 0 <= c < |idx| ==> r[t][c] == m[t][idx[c]]
  {
    var r := seq(|m|, t requires 0 <= t < |m| =>
               seq(|idx|, c requires 0 <= c < |idx| => m[t][idx[c]]));
    assert forall t :: 0 <= t < |m| ==> |r[t]| == |idx|;
    r
  }

  /** The columns of `field` are exactly the panel columns carrying it. */
  lemma FieldColumnsExact(p: Panel, field: string)
    ensures forall c :: 0 <= c < |FieldColumns(p, field)| ==>
              FieldColumns(p, field)[c] < |p.columns| && p.columns[FieldColumns(p, field)[c]].field == field
    ensures forall j :: 0 <= j < |p.columns| && p.columns[j].field == field ==> j in FieldColumns(p, field)
  {
    var idx := FieldColumns(p, field);
    forall c | 0 <= c < |idx|
      ensures idx[c] < |p.columns| && p.columns[idx[c]].field == field
    {
      assert IsField(field)(p.columns[idx[c]]);
    }
    forall j | 0 <= j < |p.columns| && p.columns[j].field == field
      ensures j in idx
    {
      assert IsField(field)(p.columns[j]);
    }
  }

  /** Cross-section of the first column level: keep the columns of `field`,
      drop that level, keep every row.  A field absent from the panel is a
      failure (pandas raises a KeyError). */
  function Project(p: Panel, field: string): (r: Result<FieldMatrix>)
    requires p.Valid()
    ensures r.Err? <==> forall j :: 0 <= j < |p.columns| ==> p.columns[j].field != field
    ensures r.Err? ==> r.error == MissingField(field)
    ensures r.Ok? ==> r.value.Valid() && |r.value.rows| == |p.rows|
    ensures r.Ok? ==> |r.value.tickers| == |FieldColumns(p, field)|
    ensures r.Ok? ==> forall c :: 0 <= c < |r.value.tickers| ==>
              p.columns[FieldColumns(p, field)[c]] == ColumnKey(field, r.value.tickers[c])
    ensures r.Ok? ==> forall t, c :: 0 <= t < |p.rows| && 0 <= c < |r.value.tickers| ==>
              r.value.rows[t][c] == p.rows[t][FieldColumns(p, field)[c]]
  {
    var idx := FieldColumns(p, field);
    FieldColumnsExact(p, field);
    if |idx| == 0 then
      Err(MissingField(field))
    else
      assert p.columns[idx[0]].field == field;
      var tickers := seq(|idx|, c requires 0 <= c < |idx| => p.columns[idx[c]].ticker);
      Ok(FieldMatrix(tickers, SelectColumns(p.rows, |p.columns|, idx)))
  }
}
