# Stock market: trade ledger, per-stock metrics and the all-share index

This project models the core of a small stock exchange, `StockMarket.py`:

- a **stock** has a price, a last dividend, a par value, an output precision
  and a ledger of recorded trades;
- a **preferred stock** differs from a common stock only in its dividend
  formula;
- the **market** files stocks under their symbols, in first-added order, and
  computes the all-share index, the geometric mean of the current prices.

The per-stock metrics are:

- the dividend yield;
- the P/E ratio;
- the volume-weighted price of the trades of the last few minutes.

All metrics and the index are rounded to a number of decimal places.

The model has five modules, one per file:

- `rounding.dfy` (**Rounding**): Python 2's `round(x, p)` on exact reals, to
  the nearest multiple of 10^-p with halves away from zero.
- `ledger.dfy` (**Ledger**): the trade ledger.
  - It is a sequence of `Entry(stamp, Trade(price, quantity))`, kept in
    strictly ascending timestamp order.
  - `AsMap` reads it as the source's timestamp-keyed dictionary.
  - `Insert` is the dictionary assignment.
  - `Windowed` is the reference definition of "the trades newer than the
    cutoff, newest first".
  - `ScanNewestFirst` is the source's early-stopping walk.
  - `TotalCost` and `TotalQuantity` are Σ price·quantity and Σ quantity.
  - `SumTrades` is the source's accumulation loop.
- `stocks.dfy` (**Stocks**): class `Stock`.
  - Common and preferred stocks are one class told apart by `kind`.
  - It has the setters, `RecordTrade`, `GetLatestTransactions` (the loop with
    the early `break`), `CalcVolWeightPrice`, `CalcDividend` and
    `CalcPeRatio`.
  - Failures are values of `Error`, not strings or exceptions.
- `market.dfy` (**Market**): class `StockMarket`.
  - It keeps a symbol list `names`, the `OrderedDict`'s order, beside a map
    `stocks`.
  - `AddStock`, the precision setter and `AllShareIndex` (the product loop)
    work on them.
  - The index is returned as `NoStocks` or `RootOf(product, count,
    precision)`. `IndexValue` says which reals such a result stands for:
    0.0; for one stock, the price rounded, whatever its sign; or the
    rounding of a non-negative `count`-th root of the product.
- `scenarios.dfy` (**Scenarios**): concrete cases.
  - The five stocks TEA, POP, ALE, GIN and JOE that StockMarketTest.py:16-26 sets up.
  - Volume-weighted prices of concrete ledgers.
  - Symbol replacement.
  - The index of an empty market, of one stock at -5, of five stocks at 10,
    and of the prices 100, 150, 500, 1000 and 120 (index 245.95).

Timestamps are integers (microseconds). The current time is a parameter of
every operation that reads the clock in the source. Windows are whole
minutes.

Three behaviours of the code, and what the model does for each:

- **Ledger writes.** The code assigns into a dictionary keyed by timestamp
  (StockMarket.py:170), so a trade recorded at an existing timestamp
  overwrites that entry. `Insert` does the same: the ledger holds one entry
  per timestamp.
- **Empty window.** With no trade in the window the code divides by a total
  quantity of 0 and raises `ZeroDivisionError` (StockMarket.py:154). The
  model returns `Err(NoTradesInWindow)`.
- **Default market.** The constructor's default is `None`, and
  `stocks or OrderedDict()` builds a fresh dictionary for each market
  (StockMarket.py:18). The model's constructor builds a fresh empty market.

## Model

| member | source | states |
|---|---|---|
| Rounding.Round | StockMarket.py:123 | the result has at most p decimals, lies within half a unit of the last place from x, and keeps the sign of x |
| Rounding.RoundHalfAwayFromZero | StockMarket.py:219 | a value exactly half a unit of the last place past k units rounds to k + 1 units, and its negation to -(k + 1) units: halves go away from zero |
| Rounding.RoundExact | StockMarket.py:131-132 | a value that already has at most p decimals is returned unchanged |
| Rounding.RoundIdempotent | StockMarket.py:154 | rounding an already rounded metric again changes nothing |
| Rounding.RoundWhole | StockMarket.py:37 | a whole number survives rounding at any precision |
| Stocks.ClampPrecision | StockMarket.py:111-118 | the stored precision is max(val, 0): at least val, and equal to val or 0 |
| Stocks.Stock.constructor | StockMarket.py:61-76 | a common stock with the given name, dividend, par value and unchecked price (0 by default), an empty ledger and precision 2 |
| Stocks.Stock.Preferred | StockMarket.py:201-213 | a preferred stock, the same as a common one plus its fixed dividend percentage; the price is 0 by default |
| Stocks.Stock.SetPrice | StockMarket.py:88-94 | a positive price is stored; any other value is rejected with InvalidPrice and the price is unchanged |
| Stocks.Stock.SetLastDividend | StockMarket.py:101-104 | any value is stored |
| Stocks.Stock.SetPrecision | StockMarket.py:111-118 | the precision becomes val when val >= 0, and 0 otherwise |
| Stocks.Stock.CalcDividend | StockMarket.py:120-125 | fails with InvalidPrice exactly when price <= 0; otherwise a common stock gives last dividend / price, rounded to the stock's precision, and a preferred one (the override at StockMarket.py:215-221) gives (fixed dividend · par value / 100) / price, rounded |
| Stocks.Stock.CalcPeRatio | StockMarket.py:127-137 | fails with InvalidPrice exactly when price <= 0; otherwise gives 0 when the last dividend is 0, and price / last dividend rounded when it is not |
| Stocks.Stock.RecordTrade | StockMarket.py:156-170 | checks the price before the quantity; a rejected trade leaves the ledger as it was; an accepted one maps the timestamp to the trade and keeps every other entry, keeping the ledger sorted and all of its trades accepted; the buy flag, true by default, is reported in the receipt |
| Stocks.Stock.GetLatestTransactions | StockMarket.py:179-195 | on every ledger the loop with its early `break` returns what the walk `ScanNewestFirst` returns; on a sorted ledger that is exactly the trades newer than now minus the window, newest first; the window defaults to 15 minutes |
| Stocks.Stock.CalcVolWeightPrice | StockMarket.py:139-154 | an empty window fails with NoTradesInWindow; a non-empty one gives Σ price·quantity / Σ quantity over the window, rounded, with a positive total quantity; the window defaults to 15 minutes |
| Stocks.Stock.WindowAccepted | StockMarket.py:163-167 | every trade in a window of the ledger has a positive price and quantity |
| Stocks.Stock.WindowAverageBetween | StockMarket.py:149-154 | the unrounded volume-weighted price of a non-empty window lies between the lowest and the highest price traded in it |
| Ledger.AsMap | StockMarket.py:170 | the keys of the dictionary view are exactly the ledger's timestamps |
| Ledger.Insert | StockMarket.py:170 | every entry after the insertion is the new entry or an old one |
| Ledger.InsertAsMap | StockMarket.py:169-170 | the insertion is the dictionary assignment trades[t] = trade: t maps to the trade, and every other timestamp keeps its trade |
| Ledger.InsertSorted | StockMarket.py:170 | the insertion keeps the ledger in strictly ascending timestamp order |
| Ledger.InsertAccepted | StockMarket.py:163-170 | inserting an accepted trade keeps every trade of the ledger accepted |
| Ledger.InsertNewest | StockMarket.py:169-170 | with a timestamp later than every entry, recording is an append at the end |
| Ledger.Cutoff | StockMarket.py:187-188 | the start of the window lies `window` minutes before now: at or before now exactly when the window is not negative, and at now exactly when it is 0 |
| Ledger.ScanNewestFirst | StockMarket.py:190-194 | the walk from the newest entry returns the longest run of newest entries that are all newer than the cutoff, newest first, and stops at an entry that is not newer |
| Ledger.AllStaleWindowEmpty | StockMarket.py:190-194 | a ledger with no entry newer than the cutoff has an empty window |
| Ledger.ScanOfSortedIsWindowed | StockMarket.py:190-194 | on a sorted ledger the walk that stops at the first stale entry returns the same trades as the walk that looks at every entry |
| Ledger.ScanMissesUnsortedTrade | StockMarket.py:190-194 | on a ledger out of timestamp order the early stop loses a trade that is inside the window |
| Ledger.WindowedIsNewestSuffix | StockMarket.py:187-195 | when the first k entries are stale and the others are not, the window is the last entries' trades in reverse order |
| Ledger.WindowedMembers | StockMarket.py:190-192 | a trade is in the window exactly when some entry newer than the cutoff holds it |
| Ledger.SumTrades | StockMarket.py:149-153 | the accumulation loop computes Σ price·quantity and Σ quantity over the trades |
| Ledger.TotalQuantityPositive | StockMarket.py:146-154 | with positive quantities, the total quantity is 0 exactly when there are no trades, and positive otherwise |
| Ledger.TotalCostBetween | StockMarket.py:149-153 | if every price lies in [lo, hi], the total cost lies between lo and hi times the total quantity |
| Ledger.AverageBetween | StockMarket.py:154 | the volume-weighted average of a non-empty list of trades lies between its lowest and highest price |
| Ledger.AverageOfUniformPrice | StockMarket.py:154 | trades all at one price p average to p |
| Market.ProductPermutation | StockMarket.py:35-36 | the product of the prices does not depend on the order of the factors |
| Market.ProductUniform | StockMarket.py:35-36 | n prices all equal to c multiply to c^n |
| Market.RootUnique | StockMarket.py:37 | a non-negative n-th root is unique |
| Market.PowerIndex | StockMarket.py:37 | the index of n >= 1 prices whose product is c^n, for c >= 0, stands exactly for c rounded |
| Market.StockMarket.constructor | StockMarket.py:13-19 | a market with no stocks and precision 2 |
| Market.StockMarket.AddStock | StockMarket.py:53-55 | the stock is filed under its name, replacing a stock filed there before; a new symbol goes to the end of the order, a replaced one keeps its place; the market stays well formed |
| Market.StockMarket.SetPrecision | StockMarket.py:44-51 | the precision becomes val when val >= 0, and 0 otherwise |
| Market.StockMarket.PricesOf | StockMarket.py:35-36 | the prices read are the current prices of the listed symbols' stocks, one per symbol, in order |
| Market.StockMarket.AllShareIndex | StockMarket.py:26-37 | an empty market gives NoStocks (0.0); otherwise the loop's result is the root of the product of all current prices, at the market's precision |
| Market.StockMarket.PricesOfPermutation | StockMarket.py:35 | listing the same symbols in another order lists the same prices, as a multiset |
| Market.StockMarket.IndexOrderFree | StockMarket.py:35-36 | visiting the stocks in any order gives the same product |
| Market.StockMarket.UniformMarketIndex | StockMarket.py:32-37 | a market of any number of stocks all priced at c >= 0 has product c^n and index c, rounded |
| Scenarios.DividendScenario | StockMarketTest.py:31-38 | at price 10, TEA, POP, ALE, GIN and JOE yield 0, 0.8, 2.3, 0.2 and 1.3; prices 0 and -1 are rejected |
| Scenarios.PeRatioScenario | StockMarketTest.py:40-44 | at price 10 the P/E ratios are 0, 1.25, 0.43, 1.25 and 0.77 |
| Scenarios.RecordThree | StockMarket.py:169-170 | three trades recorded at increasing times are stored in that order |
| Scenarios.ThreeTradesAverage | StockMarket.py:145-154 | the default window a tenth of a second after the second trade holds the last two of three trades, and their volume-weighted price is 17.5 |
| Scenarios.VolWeightScenario | StockMarket.py:139-154 | recording the three trades and querying the stock gives 17.5 |
| Scenarios.UniformVolWeightScenario | StockMarketTest.py:57-64 | a non-empty window whose trades are all at price 10 has volume-weighted price 10 |
| Scenarios.ReplaceScenario | StockMarket.py:53-55 | a second stock filed under GIN replaces the first, and the order stays GIN, JOE |
| Scenarios.EmptyIndexScenario | StockMarket.py:32-33 | the index of an empty market is 0.0 |
| Scenarios.UniformIndexScenario | StockMarketTest.py:66-69 | five stocks at 10 have the product 100000, and their index stands exactly for 10 |
| Scenarios.NegativeOneStockScenario | StockMarket.py:32-37 | one stock at the price -5 gives the index -5.0: a power of 1.0 keeps the price and its sign |
| Scenarios.MixedIndexValue | StockMarket.py:37 | any non-negative fifth root of 9·10^11, rounded to 2 places, is 245.95 |
| Scenarios.MixedIndexScenario | StockMarket.py:26-37 | five stocks priced 100, 150, 500, 1000 and 120 have index 245.95 |

## Left out

- The clock: `datetime.datetime.now()` (StockMarket.py:169, 187). The
  current time is a parameter, in integer microseconds.
- The confirmation string of `record_trade`, its `strftime` timestamp and
  the currency argument (StockMarket.py:156, 172-177). `Recorded` carries the
  data of that line: timestamp, quantity, buy or sell, and price.
- The text of the rejection messages. They are the `Error` values
  `InvalidPrice` and `InvalidQuantity`.
- The `print` warnings (StockMarket.py:51, 118, 147-148). They are output
  only.
- Binary floating point and the `float(...)` conversions. Prices and
  results are exact reals, and rounding is exact.
- Market.StockMarket.AllShareIndex: only the product loop is computed. The
  `**(1.0/n)` fractional power is stated as a relation (`IndexValue`). For
  one stock the exponent is 1.0 and the result is the price rounded, even a
  negative one. For two or more stocks the result stands for every rounded
  non-negative n-th root of the product. A negative product of two or more
  prices, possible only through a negative initial price, makes Python 2
  raise `ValueError`; the model gives no value there and does not model
  the error.
- The order of a plain Python 2 `dict` (StockMarket.py:73). The ledger is a
  sequence in timestamp order instead; see Findings.
- The `stocks` argument of the market constructor (StockMarket.py:13-18),
  which fills the market from a caller's dictionary.
- Windows given as fractional minutes. `timedelta(minutes=...)` accepts them
  in the source.
- The read-only getters (`name`, `price`, `last_dividend`, `precision`,
  `stocks`). The model reads the fields directly.

## Findings

| source | as written | input that shows it | evidently intended | confidence | as-written member | corrected member |
|---|---|---|---|---|---|---|
| StockMarket.py:190-194 | the walk over `reversed(self._trades.items())` of a plain dict stops at the first entry not newer than the cutoff, but a Python 2 dict does not iterate in timestamp order | a ledger iterated as [(2, trade), (1, trade)] with cutoff 1: the walk sees stamp 1 first, stops, and misses the trade at 2 | return every trade newer than the cutoff, newest first, which holds once the ledger is kept in timestamp order | medium, not executed | Ledger.ScanNewestFirst, Ledger.ScanMissesUnsortedTrade | Ledger.ScanOfSortedIsWindowed |
