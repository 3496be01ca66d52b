/**
 * A stock of the exchange: its price, dividend data, output precision and
 * trade ledger, and the per-stock metrics (dividend yield, P/E ratio and
 * volume-weighted price).
 *
 * Common and preferred stocks differ only in the dividend formula, so one
 * class carries both, told apart by `kind`.
 */
module Stocks {
  import opened Rounding
  import opened Ledger

  /** The failures of the source: the two rejection messages of the recording
      and metric operations, the exception of the price setter (InvalidPrice
      too) and the division by a zero total quantity of an empty window. */
  datatype Error = InvalidPrice | InvalidQuantity | NoTradesInWindow

  datatype Result<T> = Ok(value: T) | Err(error: Error)

  /** The outcome of a setter that may refuse its value. */
  datatype Status = Done | Rejected(error: Error)

  /** What recording a trade reports: the data of the confirmation line, or
      the reason for rejecting the trade. */
  datatype Receipt =
    | Recorded(stamp: int, quantity: int, bought: bool, price: real)
    | Refused(error: Error)

  /** A common stock, or a preferred one with its fixed dividend percentage. */
  datatype Kind = Common | Preferred(fixedDividend: real)

  /** Decimal places of every computed result unless set otherwise. */
  const DefaultPrecision: nat := 2

  /** Length of the volume-weighted price window, in minutes, by default. */
  const DefaultWindow: int := 15

  /** The precision a setter stores for a requested value: the value itself
      when it is not negative, otherwise zero. */
  function ClampPrecision(val: int): (p: nat)
    ensures p as int >= val
    ensures p as int == val || p == 0
  {
    if val >= 0 then val else 0
  }

  class Stock {
    const name: string
    const parValue: real
    const kind: Kind
    var lastDividend: real
    var price: real
    var precision: nat
    var trades: seq<Entry>

    /** The ledger is in timestamp order and holds only accepted trades. */
    ghost predicate Valid()
      reads this
    {
      Sorted(trades) && AllAccepted(trades)
    }

    /** A common stock with an empty ledger and the default precision. The
        initial price is stored as given, without the setter's check. */
    constructor (name: string, lastDividend: real, parValue: real, price: real := 0.0)
      ensures Valid()
      ensures this.name == name && this.lastDividend == lastDividend
      ensures this.parValue == parValue && this.price == price
      ensures kind == Common && precision == DefaultPrecision && trades == []
    {
      this.name := name;
      this.lastDividend := lastDividend;
      this.parValue := parValue;
      this.kind := Common;
      this.price := price;
      this.precision := DefaultPrecision;
      this.trades := [];
    }

    /** A preferred stock paying `fixedDividend` percent of its par value. */
    constructor Preferred(name: string, lastDividend: real, parValue: real, fixedDividend: real, price: real := 0.0)
      ensures Valid()
      ensures this.name == name && this.lastDividend == lastDividend
      ensures this.parValue == parValue && this.price == price
      ensures kind == Kind.Preferred(fixedDividend) && precision == DefaultPrecision && trades == []
    {
      this.name := name;
      this.lastDividend := lastDividend;
      this.parValue := parValue;
      this.kind := Kind.Preferred(fixedDividend);
      this.price := price;
      this.precision := DefaultPrecision;
      this.trades := [];
    }

    /** The price setter: only a positive price is stored. */
    method SetPrice(val: real) returns (s: Status)
      modifies this`price
      ensures val > 0.0 ==> s == Done && price == val
      ensures val <= 0.0 ==> s == Rejected(InvalidPrice) && price == old(price)
    {
      if val > 0.0 {
        price := val;
        s := Done;
      } else {
        s := Rejected(InvalidPrice);
      }
    }

    /** The last-dividend setter stores any value. */
    method SetLastDividend(val: real)
      modifies this`lastDividend
      ensures lastDividend == val
    {
      lastDividend := val;
    }

    /** The precision setter clamps a negative request to zero. */
    method SetPrecision(val: int)
      modifies this`precision
      ensures precision == ClampPrecision(val)
      ensures val >= 0 ==> precision == val
      ensures val < 0 ==> precision == 0
    {
      precision := ClampPrecision(val);
    }

    /** The dividend per share the yield is computed from: the last dividend
        for a common stock, the fixed percentage of the par value for a
        preferred one. */
    function Dividend(): real
      reads this
    {
      match kind
      case Common => lastDividend
      case Preferred(fixed) => (fixed * parValue) / 100.0
    }

    /** The dividend yield at `p`, rounded to the stock's precision; a
        non-positive price gives the invalid-price rejection. */
    function CalcDividend(p: real): (r: Result<real>)
      reads this
      ensures r.Err? <==> p <= 0.0
      ensures r.Err? ==> r.error == InvalidPrice
      ensures r.Ok? ==> RoundsTo(r.value, Dividend() / p, precision)
      ensures r.Ok? && kind.Common? ==>
                && RoundsTo(r.value, lastDividend / p, precision)
                && r.value == Round(lastDividend / p, precision)
      ensures r.Ok? && kind.Preferred? ==>
                && RoundsTo(r.value, (kind.fixedDividend * parValue / 100.0) / p, precision)
                && r.value == Round((kind.fixedDividend * parValue / 100.0) / p, precision)
    {
      if p > 0.0 then Ok(Round(Dividend() / p, precision)) else Err(InvalidPrice)
    }

    /** The P/E ratio at `p`: price over last dividend, rounded, or 0 when the
        last dividend is 0; a non-positive price gives the invalid-price
        rejection. */
    function CalcPeRatio(p: real): (r: Result<real>)
      reads this
      ensures r.Err? <==> p <= 0.0
      ensures r.Err? ==> r.error == InvalidPrice
      ensures r.Ok? && lastDividend == 0.0 ==> r.value == 0.0
      ensures r.Ok? && lastDividend != 0.0 ==>
                && RoundsTo(r.value, p / lastDividend, precision)
                && r.value == Round(p / lastDividend, precision)
    {
      if p <= 0.0 then Err(InvalidPrice)
      else if lastDividend == 0.0 then Ok(0.0)
      else Ok(Round(p / lastDividend, precision))
    }

    /** Records a trade at time `now` after checking the price, then the
        quantity; a rejected trade leaves the ledger as it was. */
    method RecordTrade(p: real, quantity: int, buy: bool := true, now: int) returns (r: Receipt)
      requires Valid()
      modifies this`trades
      ensures Valid()
      ensures p <= 0.0 ==> r == Refused(InvalidPrice) && trades == old(trades)
      ensures p > 0.0 && quantity <= 0 ==> r == Refused(InvalidQuantity) && trades == old(trades)
      ensures p > 0.0 && quantity > 0 ==>
                && r == Recorded(now, quantity, buy, p)
                && trades == Insert(old(trades), now, Trade(p, quantity))
                && AsMap(trades) == AsMap(old(trades))[now := Trade(p, quantity)]
    {
      if p <= 0.0 {
        return Refused(InvalidPrice);
      }
      if quantity <= 0 {
        return Refused(InvalidQuantity);
      }
      var t := Trade(p, quantity);
      InsertSorted(trades, now, t);
      InsertAccepted(trades, now, t);
      InsertAsMap(trades, now, t);
      trades := Insert(trades, now, t);
      r := Recorded(now, quantity, buy, p);
    }

    /** The trades of the last `window` minutes before `now`, newest first.
        The walk starts at the newest entry and stops at the first one that
        is not newer than the cutoff; the ledger's order makes that stop
        lose nothing. */
    method GetLatestTransactions(now: int, window: int := DefaultWindow) returns (valid: seq<Trade>)
      ensures valid == ScanNewestFirst(trades, Cutoff(now, window))
      ensures Valid() ==> valid == Windowed(trades, Cutoff(now, window))
    {
      var cutoff := Cutoff(now, window);
      valid := [];
      var i := |trades|;
      assert trades[..i] == trades;
      while i > 0
        invariant 0 <= i <= |trades|
        invariant ScanNewestFirst(trades, cutoff) == valid + ScanNewestFirst(trades[..i], cutoff)
      {
        var e := trades[i - 1];
        if e.stamp > cutoff {
          ScanPrefixStep(trades, i, cutoff, valid);
          valid := valid + [e.trade];
          i := i - 1;
        } else {
          ScanPrefixStops(trades, i, cutoff);
          break;
        }
      }
      assert trades[..0] == [];
      if Valid() {
        ScanOfSortedIsWindowed(trades, cutoff);
      }
    }

    /** The volume-weighted price of the last `window` minutes before `now`,
        rounded: Σ price·quantity over Σ quantity of the window's trades. An
        empty window has no such price. */
    method CalcVolWeightPrice(now: int, window: int := DefaultWindow) returns (r: Result<real>)
      requires Valid()
      ensures var w := Windowed(trades, Cutoff(now, window));
              && (r.Err? <==> w == [])
              && (r.Err? ==> r.error == NoTradesInWindow)
              && (r.Ok? ==> TotalQuantity(w) > 0 && r.value == Round(TotalCost(w) / TotalQuantity(w) as real, precision))
    {
      var inWindow := GetLatestTransactions(now, window);
      var totalCost, totalQuantity := SumTrades(inWindow);
      WindowAccepted(Cutoff(now, window));
      TotalQuantityPositive(inWindow);
      if totalQuantity == 0 {
        return Err(NoTradesInWindow);
      }
      r := Ok(Round(totalCost / totalQuantity as real, precision));
    }

    /** Every trade in a window of a valid ledger was accepted. */
    lemma {:induction false} WindowAccepted(cutoff: int)
      requires Valid()
      ensures forall i :: 0 <= i < |Windowed(trades, cutoff)| ==>
                Windowed(trades, cutoff)[i].quantity > 0 && Windowed(trades, cutoff)[i].price > 0.0
    {
      WindowedMembers(trades, cutoff);
      var w := Windowed(trades, cutoff);
      forall i | 0 <= i < |w| ensures w[i].quantity > 0 && w[i].price > 0.0 {
        assert w[i] in w;
        var j :| 0 <= j < |trades| && trades[j].trade == w[i] && trades[j].stamp > cutoff;
      }
    }

    /** The unrounded volume-weighted price of a non-empty window lies
        between the lowest and the highest price traded in it; when every
        trade in the window has price p it is p. */
    lemma {:induction false} WindowAverageBetween(cutoff: int, lo: real, hi: real)
      requires Valid()
      requires Windowed(trades, cutoff) != []
      requires forall i :: 0 <= i < |trades| && trades[i].stamp > cutoff ==>
                 lo <= trades[i].trade.price <= hi
      ensures TotalQuantity(Windowed(trades, cutoff)) > 0
      ensures lo <= TotalCost(Windowed(trades, cutoff)) / TotalQuantity(Windowed(trades, cutoff)) as real <= hi
    {
      var w := Windowed(trades, cutoff);
      WindowedMembers(trades, cutoff);
      WindowAccepted(cutoff);
      forall i | 0 <= i < |w| ensures w[i].quantity > 0 && lo <= w[i].price <= hi {
        assert w[i] in w;
      }
      AverageBetween(w, lo, hi);
    }
  }
}
