# Momentum selection and UMD factor construction

This project models the core of a small quantitative-finance toolkit in Dafny. It covers three pieces:

- **The momentum selector** (`momentum_strategy`). It takes the Close prices out of a yfinance-style price panel and computes a momentum score from two shifted copies of the closes. It then ranks the scores of each row as percentiles across assets, sorts the most recent row's ranks in descending order with missing ranks last, and returns the first `num_stocks` tickers as longs and the last `num_stocks` as shorts.
- **The UMD (up-minus-down) factor** (`calculate_umd`). From a monthly close matrix it computes one-period returns and the 12-1 momentum score, and ranks the scores per row. A winners mask keeps ranks ≥ 1 − x and a losers mask keeps ranks ≤ x. Each row's value is the mean winner return minus the mean loser return, and rows where either mean is undefined are dropped.
- **Regression input assembly** (`run_fama_french_regression`). The UMD series is inner-joined with the Fama-French factor table on the monthly period. The join yields the regressand (UMD) and the design rows `[1, Mkt-RF, SMB, HML]`. The constant is left out when a regressor is already a nonzero constant, as `add_constant` does by default.

Modules follow the program's structure:

- `Frames` holds the shared pieces: optional cells, rectangular matrices, `shift`, relative change, index filtering, and projection of a panel onto one field.
- `Ranking` holds pandas' percentile `rank` with averaged ties.
- `Selection` holds the descending sort and `head`/`tail`.
- `TradingStrategies` holds the selector.
- `FamaFrench` holds UMD, the merge and the design assembly.

A missing value (NaN) is `None`. Close prices are positive reals; the other fields of the panel (Volume, Open, ...) are never read and may hold anything.

`Series.sort_values(ascending=False)` uses an unstable sort, so assets with equal ranks may come out in any order. Assets with a missing rank are different: pandas places them last, in their column order. A descending order (`Selection.DescendingOrder`) is therefore any permutation that sorts ranks descending and keeps missing ranks last in column order. Every selection property is stated for every such order. `Selection.Sort` is one of them, and `MomentumStrategy` promises that its lists come from one of them.

Consequences of the code as written that are easy to misread:

- The UMD score divides the close one row back by the close twelve rows back. That is lag 1 with lookback 11, not a 13-row window. Scores therefore exist from row 12 (0-based), which is the thirteenth month. With 14 months of complete data, rows 12 and 13 can both yield a UMD value, not just the last one (`FamaFrench.UmdScore`, `TradingStrategies.MomentumScore`).
- When all present scores of a row are equal, every rank is (n + 1) / 2n > 1/2. For x ≤ 1/2 the losers mask is then empty, so the row is dropped rather than given a UMD of zero (`FamaFrench.AllEqualScoresDropRow`).
- No `InsufficientDataError` is raised for short histories. A history of at most lag + lookback rows gives all-missing ranks. The longs are then the first `num_stocks` Close columns and the shorts the last `num_stocks`, in column order (`TradingStrategies.ShortHistoryLeavesRanksMissing`, `TradingStrategies.ShortHistoryPicksColumnOrder`).
- A merge with no common period is reported as `EmptyOverlap` by the assembly step. In `run_fama_french_regression` the statsmodels fit fails on the empty table instead.

## Model

| member | source | states |
|---|---|---|
| Frames.Shift | src/trading_strategies.py:37-38 | the shifted matrix has the same shape; row t holds row t−k for t ≥ k and is entirely missing for t < k |
| Frames.ShiftCompose | src/trading_strategies.py:37-38 | shifting by a and then by b is shifting by a + b, so the two shifted closes are the closes at distances lag and lag + lookback |
| Frames.Change | src/trading_strategies.py:37-39 | a relative-change cell is present exactly when both endpoint closes exist and are present, and then equals near / far − 1 |
| Frames.Project | src/trading_strategies.py:34 | selecting a field fails with MissingField exactly when no column carries it; otherwise it keeps every row and exactly the columns of that field, in panel order, labelled by ticker |
| TradingStrategies.MomentumScore | src/trading_strategies.py:37-39 | the score is missing for every row t < lag + lookback and wherever an endpoint close is missing; otherwise it is close[t−lag] / close[t−lag−lookback] − 1 |
| TradingStrategies.ShortHistoryLeavesRanksMissing | src/trading_strategies.py:37-45 | with no more rows than lag + lookback, every current rank is missing |
| TradingStrategies.MomentumStrategy | src/trading_strategies.py:6-49 | fails exactly when the Close field is absent or there are no rows; otherwise longs and shorts are the tickers of the head and tail of a descending order of the last row's ranks (missing ranks last in column order), each of length min(num_stocks, #assets); only the Close prices need be positive |
| TradingStrategies.ShortHistoryPicksColumnOrder | src/trading_strategies.py:37-49 | with no more rows than lag + lookback, the longs are the first num_stocks Close tickers and the shorts the last num_stocks |
| Ranking.Rank | src/trading_strategies.py:42 | every row of the rank matrix is the percentile ranking of the same row of scores, independent of the other rows |
| Ranking.RankRow | src/trading_strategies.py:42 | a percentile rank is missing exactly where the score is missing, and otherwise lies in (0, 1] |
| Ranking.RankOrderIff | src/trading_strategies.py:42 | among present cells, rank is smaller iff score is smaller, and equal iff score is equal (ties get the same averaged rank) |
| Ranking.RankScaleInvariant | src/trading_strategies.py:42 | multiplying a row by a positive constant leaves its ranks unchanged |
| Ranking.RankRowSum | src/trading_strategies.py:42 | the ranks of a row with n present cells sum to (n + 1) / 2, so the denominator is the present count and tied ranks are averaged |
| Ranking.AllTiedRank | src/fama_french.py:61 | when all present scores of a row are equal, every present cell has the same rank, exactly ((n + 1) / 2) / n for n present cells, which is above one half |
| Selection.Sort | src/trading_strategies.py:45 | the result is a permutation of the assets, sorted by rank descending with missing ranks last in column order |
| Selection.Head | src/trading_strategies.py:48 | the first min(k, n) entries of the order, the whole order when k ≥ n |
| Selection.Tail | src/trading_strategies.py:49 | the last min(k, n) entries of the order, the whole order when k ≥ n |
| Selection.AllMissingKeepsColumnOrder | src/trading_strategies.py:45 | when no asset has a rank, the only descending order is column order |
| Selection.SelectionShape | src/trading_strategies.py:45-49 | both lists hold min(k, #assets) distinct assets in non-increasing rank order |
| Selection.LongsOutrankRest | src/trading_strategies.py:45-48 | every long asset is ranked, with rank ≥ that of every ranked asset that is not long |
| Selection.ShortsUnderrankRest | src/trading_strategies.py:45-49 | every asset that is not short sorts no later than every short asset; a ranked short asset is outranked only by ranked assets |
| Selection.MissingNeverAheadOfRanked | src/trading_strategies.py:45-48 | an unranked long asset implies that every ranked asset is long |
| Selection.UnrankedCanBeShort | src/trading_strategies.py:45-49 | with one ranked and one unranked asset and k = 1, every descending order makes the ranked asset long and the unranked one short |
| Selection.DisjointIff | src/trading_strategies.py:48-49 | longs and shorts share no asset iff 2·k ≤ #assets (or there are no assets) |
| Selection.ExactSplit | src/trading_strategies.py:48-49 | with exactly 2k assets, the longs followed by the shorts are the whole order, with no asset left out or repeated |
| Selection.LongsDifferOnlyInTies | src/trading_strategies.py:45-48 | two descending orders can disagree on the long list only by exchanging assets of equal rank |
| Selection.ShortsDifferOnlyInTies | src/trading_strategies.py:45-49 | two descending orders can disagree on the short list only by exchanging assets of equal rank |
| FamaFrench.Returns | src/fama_french.py:55 | the return at row t > 0 is close[t] / close[t−1] − 1 when both are present and missing otherwise; row 0 is missing |
| FamaFrench.UmdScore | src/fama_french.py:58 | the UMD score is the selector's score with lag 1 and lookback 11, and the first twelve rows are entirely missing |
| FamaFrench.Winners | src/fama_french.py:64 | an asset is a winner iff its rank is present and at least 1 − x; a missing rank is never a winner |
| FamaFrench.Losers | src/fama_french.py:65 | an asset is a loser iff its rank is present and at most x; a missing rank is never a loser |
| FamaFrench.MasksDisjoint | src/fama_french.py:64-65 | for x < 1/2 no asset is both winner and loser |
| FamaFrench.WinnersByScore | src/fama_french.py:61-64 | an asset scoring at least as high as a winner is a winner |
| FamaFrench.LosersByScore | src/fama_french.py:61-65 | an asset scoring at most as high as a loser is a loser |
| FamaFrench.MaskedMean | src/fama_french.py:68-69 | the masked mean is undefined exactly when the mask selects no present return; otherwise mean × count equals the sum of the selected present returns |
| FamaFrench.MaskedMeanBounds | src/fama_french.py:68-69 | the masked mean lies within any bounds of the returns it averages |
| FamaFrench.UmdWarmup | src/fama_french.py:58-72 | rows 0 to 11 never produce a UMD value |
| FamaFrench.UmdNonNegativeWhenWinnersBeatLosers | src/fama_french.py:68-71 | if every selected winner returned at least c and every selected loser at most c, a defined UMD value is non-negative |
| FamaFrench.CalculateUmd | src/fama_french.py:44-75 | no more UMD rows than input rows, each carrying the period and winners' minus losers' mean of an input row at index ≥ 12 where both means are defined |
| FamaFrench.UmdRowsDrawnInOrder | src/fama_french.py:71-72 | the UMD rows come from strictly increasing input rows, so no input row yields two UMD rows; each carries its row's period and defined UMD value |
| FamaFrench.UmdRowsSound | src/fama_french.py:71-72 | each UMD row comes from an input row at index ≥ 12 where both means are defined, with that row's period and winners' minus losers' mean |
| FamaFrench.UmdRowsComplete | src/fama_french.py:71-72 | each input row where both means are defined appears in the UMD series with its period and winners' minus losers' mean |
| FamaFrench.UmdRowsOrdered | src/fama_french.py:71-73 | UMD rows keep input order: increasing input periods give increasing UMD periods |
| FamaFrench.AllEqualScoresDropRow | src/fama_french.py:61-72 | for x ≤ 1/2, a row with all scores equal has no losers and no UMD value |
| FamaFrench.InnerJoin | src/fama_french.py:90 | every merged row pairs a UMD row and a factor row with the same period |
| FamaFrench.InnerJoinComplete | src/fama_french.py:90 | every UMD row whose period is in the factor table is merged with that period's factors |
| FamaFrench.InnerJoinEmptyIff | src/fama_french.py:90 | the merged table is empty iff no period is in both tables |
| FamaFrench.InnerJoinOrdered | src/fama_french.py:90 | with increasing UMD periods and distinct factor periods, merged periods strictly increase, keeping UMD order without repeats |
| FamaFrench.AssembleRegression | src/fama_french.py:97-99 | fails with EmptyOverlap iff there are no merged rows; otherwise there is one regressand and one design row per merged row, y is the UMD column, x rows are [1, Mkt-RF, SMB, HML], and the constant is dropped exactly when a regressor is a nonzero constant |
| FamaFrench.RegressionInputs | src/fama_french.py:84-99 | from closes and factor table: fails with EmptyOverlap iff no UMD period is in the factor table; otherwise one x row per y value, each pairing one period's UMD value with the same period's Mkt-RF, SMB and HML |
| FamaFrench.RegressionRowsAligned | src/fama_french.py:84-99 | assembly fails iff no UMD period is in the factor table; each regression row pairs one period's UMD value with the same period's Mkt-RF, SMB and HML |

## Left out

- Fetching data (`src/data_fetch.py`), loading the factor CSV (`load_fama_french_factors`), choosing the date range (`get_date_range`), the `__main__` runners and all printing: I/O, not part of this model. The factor table is a parameter.
- Monthly resampling (`resample('ME').last()`) and `to_period('M')`: the UMD model takes the monthly close matrix and the period of each row directly. Periods are plain integers.
- The OLS fit itself (`sm.OLS(...).fit()`): floating-point numerics of a foreign library. The model stops at the regressand and the design matrix.
- IEEE floating point: prices are exact positive reals, so there is no division by zero, no infinities, and no NaN arising from arithmetic. Missing data is `None`.
- Negative `lookback`, `lag` or `num_stocks`: pandas would shift backwards or take `head(-n)`. All three are natural numbers here.
- `pct_change`'s implicit gap filling (the deprecated `fill_method='pad'`): returns are close[t] / close[t−1] − 1 with no filling.
- `pandas.merge` when one UMD period matches several factor rows: the model yields one merged row per match, like pandas. The ordering lemma assumes the factor table's periods are distinct.
- TradingStrategies.MomentumStrategy: does not fix the order among assets with equal present ranks. pandas' unstable sort (quicksort by default) picks one particular order there; the model allows any, and the tie lemmas show that only equally ranked assets can trade places. Missing ranks are fixed, last and in column order.
- The default arguments (`lookback=12`, `lag=1`, `num_stocks=10`, `x_percent=0.3`): every parameter is explicit in the model; the defaults are one instance of it.
