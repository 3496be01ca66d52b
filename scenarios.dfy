/**
 * Concrete cases of the exchange: the five stocks TEA, POP, ALE, GIN
 * (preferred, 2%) and JOE with their metrics at a price of 10, the
 * volume-weighted price of trades at one price and of three trades partly
 * outside the default window, and the all-share index of an empty market,
 * of one stock at a negative price, and of uniform and of mixed prices.
 */
module Scenarios {
  import opened Rounding
  import opened Ledger
  import opened Stocks
  import opened Market

  /** Rounding to hundredths of a non-negative x that lies within half a
      hundredth of k/100. */
  lemma {:induction false} RoundToHundredths(x: real, k: int)
    requires x >= 0.0
    requires k as real <= x * 100.0 + 0.5 < k as real + 1.0
    ensures Round(x, 2) == k as real / 100.0
  {
    assert Scale(2) == 100.0;
    assert (x * 100.0 + 0.5).Floor == k;
  }

  /** Dividend yields of the five stocks at price 10, and the rejection of a
      zero and a negative price. */
  method DividendScenario() returns (rs: seq<Result<real>>, zero: Result<real>, negative: Result<real>)
    ensures rs == [Ok(0.0), Ok(0.8), Ok(2.3), Ok(0.2), Ok(1.3)]
    ensures zero == Err(InvalidPrice) && negative == Err(InvalidPrice)
  {
    var tea := new Stock("TEA", 0.0, 100.0);
    var pop := new Stock("POP", 8.0, 100.0);
    var ale := new Stock("ALE", 23.0, 60.0);
    var gin := new Stock.Preferred("GIN", 8.0, 100.0, 2.0);
    var joe := new Stock("JOE", 13.0, 250.0);
    RoundToHundredths(0.0, 0);
    RoundToHundredths(0.8, 80);
    RoundToHundredths(2.3, 230);
    RoundToHundredths(0.2, 20);
    RoundToHundredths(1.3, 130);
    assert gin.Dividend() == 2.0;
    rs := [tea.CalcDividend(10.0), pop.CalcDividend(10.0), ale.CalcDividend(10.0),
           gin.CalcDividend(10.0), joe.CalcDividend(10.0)];
    zero := joe.CalcDividend(0.0);
    negative := gin.CalcDividend(-1.0);
  }

  /** P/E ratios of the five stocks at price 10; TEA pays no dividend. */
  method PeRatioScenario() returns (rs: seq<Result<real>>)
    ensures rs == [Ok(0.0), Ok(1.25), Ok(0.43), Ok(1.25), Ok(0.77)]
  {
    var tea := new Stock("TEA", 0.0, 100.0);
    var pop := new Stock("POP", 8.0, 100.0);
    var ale := new Stock("ALE", 23.0, 60.0);
    var gin := new Stock.Preferred("GIN", 8.0, 100.0, 2.0);
    var joe := new Stock("JOE", 13.0, 250.0);
    RoundToHundredths(1.25, 125);
    RoundToHundredths(10.0 / 23.0, 43);
    RoundToHundredths(10.0 / 13.0, 77);
    rs := [tea.CalcPeRatio(10.0), pop.CalcPeRatio(10.0), ale.CalcPeRatio(10.0),
           gin.CalcPeRatio(10.0), joe.CalcPeRatio(10.0)];
  }

  /** A ledger of three trades, the first at `start`, the second twenty
      minutes later and the third a hundredth of a second after that. */
  function ThreeTrades(start: int): seq<Entry> {
    var later := start + 20 * MicrosPerMinute;
    [Entry(start, Trade(50.0, 50)), Entry(later, Trade(10.0, 100)), Entry(later + 10_000, Trade(20.0, 300))]
  }

  /** Over the default window ending a tenth of a second after the second
      trade, the three-trade ledger has the volume-weighted price 17.5. */
  lemma {:induction false} ThreeTradesAverage(start: int)
    ensures var w := Windowed(ThreeTrades(start), Cutoff(start + 20 * MicrosPerMinute + 100_000, DefaultWindow));
            && w == [Trade(20.0, 300), Trade(10.0, 100)]
            && TotalQuantity(w) == 400
            && Round(TotalCost(w) / TotalQuantity(w) as real, 2) == 17.5
  {
    var l := ThreeTrades(start);
    var cutoff := Cutoff(start + 20 * MicrosPerMinute + 100_000, DefaultWindow);
    WindowedIsNewestSuffix(l, cutoff, 1);
    var w := Windowed(l, cutoff);
    var first := [Trade(20.0, 300)];
    assert w == first + [Trade(10.0, 100)];
    assert w[..1] == first;
    assert TotalCost(first) == 6000.0 && TotalQuantity(first) == 300 by {
      assert first[..0] == [];
    }
    assert TotalCost(w) == 7000.0 && TotalQuantity(w) == 400;
    RoundToHundredths(17.5, 1750);
  }

  /** Records an accepted trade at a moment later than every entry of the
      ledger: the trade is appended. */
  method RecordLater(stock: Stock, p: real, quantity: int, buy: bool, now: int)
    requires stock.Valid() && p > 0.0 && quantity > 0
    requires forall i :: 0 <= i < |stock.trades| ==> stock.trades[i].stamp < now
    modifies stock`trades
    ensures stock.Valid()
    ensures stock.trades == old(stock.trades) + [Entry(now, Trade(p, quantity))]
  {
    InsertNewest(stock.trades, now, Trade(p, quantity));
    var r := stock.RecordTrade(p, quantity, buy, now := now);
  }

  /** Records three trades in an empty ledger: 50 shares
      at 50, then twenty minutes later 100 shares at 10 and, a hundredth of
      a second after that, 300 shares at 20. */
  method RecordThree(stock: Stock, start: int)
    requires stock.Valid() && stock.trades == []
    modifies stock`trades
    ensures stock.Valid()
    ensures stock.trades == ThreeTrades(start)
  {
    var later := start + 20 * MicrosPerMinute;
    RecordLater(stock, 50.0, 50, true, start);
    assert stock.trades == [Entry(start, Trade(50.0, 50))];
    RecordLater(stock, 10.0, 100, true, later);
    assert stock.trades[1].stamp == later;
    RecordLater(stock, 20.0, 300, false, later + 10_000);
  }

  /** A tenth of a second after the second trade, the default window of 15
      minutes holds only the last two trades, whose volume-weighted price is
      (100·10 + 300·20) / 400 = 17.5. */
  method VolWeightScenario(start: int) returns (r: Result<real>)
    ensures r == Ok(17.5)
  {
    var tea := new Stock("TEA", 0.0, 100.0);
    RecordThree(tea, start);
    ThreeTradesAverage(start);
    r := tea.CalcVolWeightPrice(start + 20 * MicrosPerMinute + 100_000);
  }

  /** Trades that all have price 10, ten of them (StockMarketTest.py:57-64)
      or any number: a window holding only such trades has the
      volume-weighted price 10 at any precision. */
  method UniformVolWeightScenario(stock: Stock, now: int) returns (r: Result<real>)
    requires stock.Valid()
    requires Windowed(stock.trades, Cutoff(now, DefaultWindow)) != []
    requires forall i :: 0 <= i < |stock.trades| && stock.trades[i].stamp > Cutoff(now, DefaultWindow) ==>
               stock.trades[i].trade.price == 10.0
    ensures r == Ok(10.0)
  {
    r := stock.CalcVolWeightPrice(now);
    stock.WindowAverageBetween(Cutoff(now, DefaultWindow), 10.0, 10.0);
    RoundWhole(10, stock.precision);
  }

  /** Filing a second stock under a symbol already present replaces the first
      and keeps the symbol's place. */
  method ReplaceScenario() returns (found: Stock, second: Stock, order: seq<string>)
    ensures found == second && order == ["GIN", "JOE"]
  {
    var market := new StockMarket();
    var gin := new Stock.Preferred("GIN", 8.0, 100.0, 2.0);
    var joe := new Stock("JOE", 13.0, 250.0);
    second := new Stock("GIN", 1.0, 100.0);
    market.AddStock(gin);
    assert market.names == ["GIN"];
    market.AddStock(joe);
    assert market.names == ["GIN", "JOE"] && "GIN" in market.stocks;
    market.AddStock(second);
    found := market.stocks["GIN"];
    order := market.names;
  }

  /** The index of an empty market is 0.0. */
  method EmptyIndexScenario() returns (ix: Index)
    ensures ix == NoStocks && IndexValue(ix, 0.0)
  {
    var market := new StockMarket();
    ix := market.AllShareIndex();
  }

  /** The market lists the first i symbols, in order, at their prices. */
  ghost predicate ListsPrefix(market: StockMarket, symbols: seq<string>, prices: seq<real>, i: nat)
    reads market, market.stocks.Values
  {
    && i <= |symbols| && |symbols| == |prices|
    && market.Valid()
    && market.names == symbols[..i] && market.precision == DefaultPrecision
    && forall k :: 0 <= k < i ==> symbols[k] in market.stocks && market.stocks[symbols[k]].price == prices[k]
  }

  /** Files symbol i of the list as a new common stock at price i. */
  method ListNext(market: StockMarket, symbols: seq<string>, prices: seq<real>, i: nat)
    requires i < |symbols|
    requires forall i, j :: 0 <= i < j < |symbols| ==> symbols[i] != symbols[j]
    requires ListsPrefix(market, symbols, prices, i)
    modifies market
    ensures ListsPrefix(market, symbols, prices, i + 1)
  {
    assert symbols[i] !in market.stocks by {
      assert forall k :: k in market.names ==> exists j :: 0 <= j < i && symbols[j] == k;
    }
    assert symbols[..i + 1] == symbols[..i] + [symbols[i]];
    var s := new Stock(symbols[i], 0.0, 100.0, prices[i]);
    market.AddStock(s);
  }

  /** A fresh market listing the given symbols in order, each a common stock
      at the given price. */
  method ListStocks(symbols: seq<string>, prices: seq<real>) returns (market: StockMarket)
    requires |symbols| == |prices|
    requires forall i, j :: 0 <= i < j < |symbols| ==> symbols[i] != symbols[j]
    ensures fresh(market) && market.Valid()
    ensures market.names == symbols && market.precision == DefaultPrecision
    ensures market.Prices() == prices
  {
    market := new StockMarket();
    var i := 0;
    assert symbols[..0] == [];
    while i < |symbols|
      invariant 0 <= i <= |symbols|
      invariant fresh(market)
      invariant ListsPrefix(market, symbols, prices, i)
    {
      ListNext(market, symbols, prices, i);
      i := i + 1;
    }
    assert symbols[..i] == symbols;
    var ps := market.Prices();
    assert forall k :: 0 <= k < |ps| ==> ps[k] == prices[k];
  }

  /** A market of one stock at the negative price -5: a power of 1.0 leaves
      the price as it is, so the index is -5 rounded, -5.0. */
  method NegativeOneStockScenario() returns (ix: Index)
    ensures ix == RootOf(-5.0, 1, 2)
    ensures forall v :: IndexValue(ix, v) <==> v == -5.0
  {
    var market := ListStocks(["TEA"], [-5.0]);
    ix := market.AllShareIndex();
    assert Product([-5.0]) == -5.0 by {
      assert [-5.0][..0] == [];
    }
    RoundWhole(-5, 2);
  }

  /** Five stocks all priced at 10 have index 10. */
  method UniformIndexScenario() returns (ix: Index)
    ensures ix == RootOf(100000.0, 5, 2)
    ensures forall v :: IndexValue(ix, v) <==> v == 10.0
  {
    var prices := seq(5, _ => 10.0);
    var market := ListStocks(["TEA", "POP", "ALE", "GIN", "JOE"], prices);
    ix := market.AllShareIndex();
    ProductUniform(prices, 10.0);
    assert Pow(10.0, 5) == 100000.0 by {
      assert Pow(10.0, 2) == 100.0;
      assert Pow(10.0, 4) == 10000.0;
    }
    PowerIndex(10.0, 5, 2);
    RoundWhole(10, 2);
  }

  /** Any non-negative fifth root of 100·150·500·1000·120 rounds to 245.95. */
  lemma MixedIndexValue()
    ensures forall v :: IndexValue(RootOf(900000000000.0, 5, 2), v) ==> v == 245.95
  {
    forall v | IndexValue(RootOf(900000000000.0, 5, 2), v) ensures v == 245.95 {
      var r :| r >= 0.0 && Pow(r, 5) == 900000000000.0 && v == Round(r, 2);
      FifthRootRounds(r);
    }
  }

  /** The non-negative fifth root of 9·10^11 rounds to 245.95. */
  lemma FifthRootRounds(r: real)
    requires r >= 0.0 && Pow(r, 5) == 900000000000.0
    ensures Round(r, 2) == 245.95
  {
    FifthRootBounds(r);
    assert 24595.0 < r * 100.0 + 0.5 < 24596.0;
    assert (r * 100.0 + 0.5).Floor == 24595;
  }

  /** The non-negative fifth root of 9·10^11 lies strictly between 245.945
      and 245.955. */
  lemma FifthRootBounds(r: real)
    requires r >= 0.0 && Pow(r, 5) == 900000000000.0
    ensures 245.945 < r < 245.955
  {
    assert Pow(245.945, 5) < 900000000000.0 < Pow(245.955, 5);
    if r < 245.945 {
      PowStrictlyIncreasing(r, 245.945, 5);
    } else if r > 245.955 {
      PowStrictlyIncreasing(245.955, r, 5);
    }
  }

  /** The product of the prices 100, 150, 500, 1000 and 120, factor by
      factor. */
  lemma MixedProduct()
    ensures Product([100.0, 150.0, 500.0, 1000.0, 120.0]) == 900000000000.0
  {
    var ps := [100.0, 150.0, 500.0, 1000.0, 120.0];
    assert ps[..1][..0] == [];
    assert Product(ps[..1]) == 100.0;
    assert ps[..2][..1] == ps[..1];
    assert Product(ps[..2]) == 15000.0;
    assert ps[..3][..2] == ps[..2];
    assert Product(ps[..3]) == 7500000.0;
    assert ps[..4][..3] == ps[..3];
    assert Product(ps[..4]) == 7500000000.0;
    assert ps[..4] == ps[..|ps| - 1];
  }

  /** Five stocks priced 100, 150, 500, 1000 and 120 multiply to 9·10^11,
      whose fifth root rounds to 245.95. */
  method MixedIndexScenario() returns (ix: Index)
    ensures ix == RootOf(900000000000.0, 5, 2)
    ensures forall v :: IndexValue(ix, v) ==> v == 245.95
  {
    var ps := [100.0, 150.0, 500.0, 1000.0, 120.0];
    var market := ListStocks(["TEA", "POP", "ALE", "GIN", "JOE"], ps);
    ix := market.AllShareIndex();
    MixedProduct();
    MixedIndexValue();
  }
}
