/**
 * The exchange: the stocks keyed by symbol, in the order they were first
 * added, and the all-share index over their current prices.
 *
 * The index is the geometric mean of the prices, rounded to the market's
 * precision. The model computes the product of the prices as the source does
 * and states the n-th root as a relation (IndexValue), since real roots are
 * not computed here.
 */
module Market {
  import opened Rounding
  import opened Stocks

  /** The product of a list of prices, multiplied from the first onwards. */
  function Product(ps: seq<real>): real {
    if |ps| == 0 then 1.0 else Product(ps[..|ps| - 1]) * ps[|ps| - 1]
  }

  /** x to the n-th power. */
  function Pow(x: real, n: nat): real {
    if n == 0 then 1.0 else Pow(x, n - 1) * x
  }

  /** The result of the index query: 0.0 for an empty market, otherwise the
      `count`-th root of `product` rounded to `precision` places. */
  datatype Index = NoStocks | RootOf(product: real, count: nat, precision: nat)

  /** v is a value the index query can stand for: 0.0 for an empty market,
      the rounded price itself for one stock (a power of 1.0 is the number,
      whatever its sign), otherwise the rounding of a non-negative root of
      the product. */
  ghost predicate IndexValue(ix: Index, v: real) {
    match ix
    case NoStocks => v == 0.0
    case RootOf(product, n, p) =>
      if n == 1 then v == Round(product, p)
      else exists r :: r >= 0.0 && Pow(r, n) == product && v == Round(r, p)
  }

  /** Removing the element at i takes one copy of it out of the multiset. */
  lemma {:induction false} RemoveAtMultiset<T>(b: seq<T>, i: nat)
    requires i < |b|
    ensures multiset(b) == multiset(b[..i] + b[i + 1..]) + multiset{b[i]}
  {
    assert b == b[..i] + [b[i]] + b[i + 1..];
  }

  /** One copy of x can be cancelled from both sides. */
  lemma MultisetCancel<T>(u: multiset<T>, v: multiset<T>, x: T)
    requires u + multiset{x} == v + multiset{x}
    ensures u == v
  {
    forall y ensures u[y] == v[y] {
      assert (u + multiset{x})[y] == (v + multiset{x})[y];
    }
  }

  /** A list that is b with the element at i left out, written out index by
      index, has the multiset of b less one copy of b[i]. */
  lemma {:induction false} RemoveAtPointwise(b: seq<real>, c: seq<real>, i: nat)
    requires i < |b| && |c| == |b| - 1
    requires forall j :: 0 <= j < i ==> c[j] == b[j]
    requires forall j :: i <= j < |c| ==> c[j] == b[j + 1]
    ensures multiset(b) == multiset(c) + multiset{b[i]}
  {
    assert c == b[..i] + b[i + 1..];
    RemoveAtMultiset(b, i);
  }

  lemma {:induction false} ProductSnoc(u: seq<real>, x: real)
    ensures Product(u + [x]) == Product(u) * x
  {
    assert (u + [x])[..|u|] == u;
  }

  /** (a·x)·b == (a·b)·x, with every intermediate product named. */
  lemma SwapFactor(total: real, ax: real, a: real, x: real, b: real, ab: real)
    requires total == ax * b && ax == a * x && ab == a * b
    ensures total == ab * x
  {
    assert (a * x) * b == (a * b) * x;
  }

  /** Taking the factor at i out of a product. */
  lemma {:induction false} ProductRemoveAt(b: seq<real>, i: nat)
    requires i < |b|
    ensures Product(b) == Product(b[..i] + b[i + 1..]) * b[i]
    decreases |b|
  {
    if i == |b| - 1 {
      ProductRemoveLast(b, i);
    } else {
      ProductRemoveAt(b[..|b| - 1], i);
      ProductRemoveEarlier(b, i);
    }
  }

  /** Taking out the last factor. */
  lemma {:induction false} ProductRemoveLast(b: seq<real>, i: nat)
    requires i == |b| - 1
    ensures Product(b) == Product(b[..i] + b[i + 1..]) * b[i]
  {
    var without := b[..i] + b[i + 1..];
    assert without == b[..|b| - 1];
    assert Product(b) == Product(without) * b[i];
  }

  /** Taking out a factor before the last one, given that taking it out of
      the product without the last factor works. */
  lemma {:induction false} ProductRemoveEarlier(b: seq<real>, i: nat)
    requires i < |b| - 1
    requires Product(b[..|b| - 1]) == Product(b[..|b| - 1][..i] + b[..|b| - 1][i + 1..]) * b[..|b| - 1][i]
    ensures Product(b) == Product(b[..i] + b[i + 1..]) * b[i]
  {
    RemoveBeforeLast(b, i);
    ProductStep(b, b[..|b| - 1], b[..|b| - 1][..i] + b[..|b| - 1][i + 1..], b[..i] + b[i + 1..], b[..|b| - 1][i]);
  }

  /** Removing an element before the last one and then putting the last one
      back: the list with that element removed. */
  lemma RemoveBeforeLast<T>(b: seq<T>, i: nat)
    requires i < |b| - 1
    ensures b[..i] + b[i + 1..] == (b[..|b| - 1][..i] + b[..|b| - 1][i + 1..]) + [b[|b| - 1]]
  {
  }

  /** If the product of b without its last element is that of `rest` times
      x, then the product of b is that of `rest` followed by b's last
      element, times x. */
  lemma {:induction false} ProductStep(b: seq<real>, init: seq<real>, rest: seq<real>, without: seq<real>, x: real)
    requires |b| > 0 && init == b[..|b| - 1] && without == rest + [b[|b| - 1]]
    requires Product(init) == Product(rest) * x
    ensures Product(b) == Product(without) * x
  {
    var last := b[|b| - 1];
    assert Product(b) == Product(init) * last;
    ProductSnoc(rest, last);
    SwapFactor(Product(b), Product(init), Product(rest), x, last, Product(without));
  }

  /** The last element of a has a copy in b, at some index i, and what is
      left of each list after removing them still has the same multiset. */
  lemma {:induction false} MatchLast<T>(a: seq<T>, b: seq<T>) returns (i: nat)
    requires |a| > 0 && multiset(a) == multiset(b)
    ensures i < |b| && b[i] == a[|a| - 1]
    ensures multiset(a[..|a| - 1]) == multiset(b[..i] + b[i + 1..])
  {
    var x, a' := a[|a| - 1], a[..|a| - 1];
    assert multiset(a) == multiset(a') + multiset{x} by { assert a == a' + [x]; }
    assert x in multiset(b);
    i :| 0 <= i < |b| && b[i] == x;
    RemoveAtMultiset(b, i);
    MultisetCancel(multiset(a'), multiset(b[..i] + b[i + 1..]), x);
  }

  /** The product does not depend on the order of its factors. */
  lemma {:induction false} ProductPermutation(a: seq<real>, b: seq<real>)
    requires multiset(a) == multiset(b)
    ensures Product(a) == Product(b)
    decreases |a|
  {
    if |a| == 0 {
      assert |b| == |multiset(b)| == 0;
    } else {
      var i := MatchLast(a, b);
      var a', b' := a[..|a| - 1], b[..i] + b[i + 1..];
      ProductPermutation(a', b');
      ProductRemoveAt(b, i);
    }
  }

  /** n prices all equal to c multiply to c^n. */
  lemma {:induction false} ProductUniform(ps: seq<real>, c: real)
    requires forall i :: 0 <= i < |ps| ==> ps[i] == c
    ensures Product(ps) == Pow(c, |ps|)
  {
    if |ps| > 0 {
      ProductUniform(ps[..|ps| - 1], c);
    }
  }

  lemma {:induction false} PowNonNegative(a: real, n: nat)
    requires a >= 0.0
    ensures Pow(a, n) >= 0.0
  {
    if n > 0 {
      PowNonNegative(a, n - 1);
    }
  }

  /** Powers with a positive exponent are strictly increasing on the
      non-negative reals. */
  lemma {:induction false} PowStrictlyIncreasing(a: real, b: real, n: nat)
    requires 0.0 <= a < b && n >= 1
    ensures Pow(a, n) < Pow(b, n)
  {
    if n == 1 {
      assert Pow(a, 0) == 1.0 && Pow(b, 0) == 1.0;
    } else {
      PowStrictlyIncreasing(a, b, n - 1);
      PowNonNegative(a, n - 1);
      PowStep(a, b, n, Pow(a, n - 1), Pow(b, n - 1));
    }
  }

  /** One more factor keeps the powers in strict order. */
  lemma PowStep(a: real, b: real, n: nat, pa: real, pb: real)
    requires 0.0 <= a < b && n >= 1
    requires pa == Pow(a, n - 1) && pb == Pow(b, n - 1)
    requires 0.0 <= pa < pb
    ensures Pow(a, n) < Pow(b, n)
  {
    assert Pow(a, n) == pa * a && Pow(b, n) == pb * b;
    assert pa * a <= pa * b;
    assert pa * b < pb * b;
  }


  /** A non-negative n-th root is unique. */
  lemma {:induction false} RootUnique(r: real, c: real, n: nat)
    requires r >= 0.0 && c >= 0.0 && n >= 1
    requires Pow(r, n) == Pow(c, n)
    ensures r == c
  {
    if r < c {
      PowStrictlyIncreasing(r, c, n);
    } else if c < r {
      PowStrictlyIncreasing(c, r, n);
    }
  }

  /** The index of n >= 1 stocks whose prices multiply to c^n, for c >= 0,
      is c rounded. */
  lemma {:induction false} PowerIndex(c: real, n: nat, p: nat)
    requires c >= 0.0 && n >= 1
    ensures forall v :: IndexValue(RootOf(Pow(c, n), n, p), v) <==> v == Round(c, p)
  {
    forall v ensures IndexValue(RootOf(Pow(c, n), n, p), v) <==> v == Round(c, p) {
      if n == 1 {
        assert Pow(c, 1) == c;
      } else if IndexValue(RootOf(Pow(c, n), n, p), v) {
        var r :| r >= 0.0 && Pow(r, n) == Pow(c, n) && v == Round(r, p);
        RootUnique(r, c, n);
      }
    }
  }

  class StockMarket {
    /** The symbols in the order they were first added. */
    var names: seq<string>
    /** The stock of each symbol. */
    var stocks: map<string, Stock>
    var precision: nat

    /** Each symbol is listed once, the list and the map have the same
        symbols, and every stock is filed under its own name. */
    ghost predicate Valid()
      reads this
    {
      && (forall i, j :: 0 <= i < j < |names| ==> names[i] != names[j])
      && (forall k :: k in stocks <==> k in names)
      && (forall k :: k in stocks ==> stocks[k].name == k)
    }

    /** A market with no stocks and the default precision. */
    constructor ()
      ensures Valid()
      ensures names == [] && stocks == map[] && precision == DefaultPrecision
    {
      names := [];
      stocks := map[];
      precision := DefaultPrecision;
    }

    /** Files `s` under its name, replacing a stock already filed there; a new
        symbol goes to the end of the order, a replaced one keeps its place. */
    method AddStock(s: Stock)
      requires Valid()
      modifies this`names, this`stocks
      ensures Valid()
      ensures stocks == old(stocks)[s.name := s]
      ensures s.name in old(stocks) ==> names == old(names)
      ensures s.name !in old(stocks) ==> names == old(names) + [s.name]
    {
      if s.name !in stocks {
        names := names + [s.name];
      }
      stocks := stocks[s.name := s];
    }

    /** The precision setter clamps a negative request to zero. */
    method SetPrecision(val: int)
      modifies this`precision
      ensures precision == ClampPrecision(val)
      ensures val >= 0 ==> precision == val
      ensures val < 0 ==> precision == 0
    {
      precision := ClampPrecision(val);
    }

    /** Every symbol of `ns` has a stock filed under it. */
    ghost predicate AllFiled(ns: seq<string>)
      reads this
    {
      forall j :: 0 <= j < |ns| ==> ns[j] in stocks
    }

    /** The current prices of the stocks filed under `ns`, in that order. */
    function PricesOf(ns: seq<string>): (ps: seq<real>)
      reads this, stocks.Values
      requires AllFiled(ns)
      ensures |ps| == |ns|
      ensures forall i :: 0 <= i < |ns| ==> ps[i] == stocks[ns[i]].price
      decreases |ns|
    {
      if |ns| == 0 then [] else PricesOf(ns[..|ns| - 1]) + [stocks[ns[|ns| - 1]].price]
    }

    /** The current prices of all stocks, in the market's order. */
    function Prices(): (ps: seq<real>)
      reads this, stocks.Values
      requires Valid()
      ensures |ps| == |names|
    {
      PricesOf(names)
    }

    /** The all-share index: 0.0 for an empty market, otherwise the root of
        the product of the current prices, taken in the market's order. */
    method AllShareIndex() returns (ix: Index)
      requires Valid()
      ensures |names| == 0 ==> ix == NoStocks
      ensures |names| > 0 ==> ix == RootOf(Product(Prices()), |names|, precision)
    {
      if |names| == 0 {
        return NoStocks;
      }
      FiledNames();
      var total := 1.0;
      var i := 0;
      while i < |names|
        invariant 0 <= i <= |names|
        invariant AllFiled(names[..i])
        invariant total == Product(PricesOf(names[..i]))
      {
        var x := stocks[names[i]].price;
        ProductOfPricesSnoc(names, i, total, x);
        total := total * x;
        i := i + 1;
      }
      assert names[..i] == names;
      ix := RootOf(total, |names|, precision);
    }

    /** One more factor of the index product: the product over the first i
        symbols times the price of symbol i is the product over the first
        i + 1. */
    lemma {:induction false} ProductOfPricesSnoc(ns: seq<string>, i: nat, total: real, x: real)
      requires AllFiled(ns) && i < |ns| && AllFiled(ns[..i])
      requires total == Product(PricesOf(ns[..i])) && x == stocks[ns[i]].price
      ensures AllFiled(ns[..i + 1])
      ensures total * x == Product(PricesOf(ns[..i + 1]))
    {
      PricesOfSnoc(ns, i);
      ProductSnoc(PricesOf(ns[..i]), stocks[ns[i]].price);
    }

    /** Every listed symbol has a stock. */
    lemma {:induction false} FiledNames()
      requires Valid()
      ensures AllFiled(names)
    {
      forall j | 0 <= j < |names| ensures names[j] in stocks {
        assert names[j] in names;
      }
    }

    /** The prices of the first i + 1 symbols: those of the first i, then the
        price of symbol i. */
    lemma {:induction false} PricesOfSnoc(ns: seq<string>, i: nat)
      requires AllFiled(ns) && i < |ns|
      ensures AllFiled(ns[..i]) && AllFiled(ns[..i + 1])
      ensures PricesOf(ns[..i + 1]) == PricesOf(ns[..i]) + [stocks[ns[i]].price]
    {
      assert ns[..i + 1][..i] == ns[..i];
    }

    /** Listing the same symbols in another order lists the same prices, as
        a multiset. */
    lemma {:induction false} PricesOfPermutation(a: seq<string>, b: seq<string>)
      requires AllFiled(a) && AllFiled(b)
      requires multiset(a) == multiset(b)
      ensures multiset(PricesOf(a)) == multiset(PricesOf(b))
      decreases |a|
    {
      if |a| == 0 {
        assert |b| == |multiset(b)| == 0;
      } else {
        var i := MatchLast(a, b);
        var a', b' := a[..|a| - 1], b[..i] + b[i + 1..];
        PricesOfRemoveAt(a, |a| - 1);
        PricesOfRemoveAt(b, i);
        assert a[..|a| - 1] + a[|a|..] == a';
        PricesOfPermutation(a', b');
      }
    }

    /** The prices of a list with the symbol at i removed: the prices of the
        list with one copy of that symbol's price removed. */
    lemma {:induction false} PricesOfRemoveAt(b: seq<string>, i: nat)
      requires AllFiled(b)
      requires i < |b|
      ensures AllFiled(b[..i] + b[i + 1..])
      ensures multiset(PricesOf(b)) == multiset(PricesOf(b[..i] + b[i + 1..])) + multiset{stocks[b[i]].price}
    {
      var c := b[..i] + b[i + 1..];
      assert forall j :: 0 <= j < |c| ==> c[j] == (if j < i then b[j] else b[j + 1]);
      var pb, pc := PricesOf(b), PricesOf(c);
      RemoveAtPointwise(pb, pc, i);
    }

    /** The index does not depend on the order the stocks are visited in:
        any ordering of the symbols gives the same product of prices. */
    lemma {:induction false} IndexOrderFree(order: seq<string>)
      requires Valid()
      requires multiset(order) == multiset(names)
      ensures AllFiled(order)
      ensures Product(PricesOf(order)) == Product(Prices())
    {
      forall j | 0 <= j < |order| ensures order[j] in stocks {
        assert order[j] in multiset(names);
      }
      PricesOfPermutation(names, order);
      ProductPermutation(PricesOf(order), Prices());
    }

    /** A market whose stocks are all priced at c >= 0 has index c, rounded to
        the market's precision, whatever the number of stocks. */
    lemma {:induction false} UniformMarketIndex(c: real)
      requires Valid() && |names| > 0 && c >= 0.0
      requires forall k :: k in stocks ==> stocks[k].price == c
      ensures Product(Prices()) == Pow(c, |names|)
      ensures forall v :: IndexValue(RootOf(Product(Prices()), |names|, precision), v) <==> v == Round(c, precision)
    {
      FiledNames();
      ProductUniform(Prices(), c);
      PowerIndex(c, |names|, precision);
    }
  }
}
