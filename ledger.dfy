/**
 * The trade ledger of one stock, as a sequence of (timestamp, trade) entries.
 *
 * The source keeps the ledger in a dictionary keyed by timestamp; here it is
 * a sequence kept in strictly ascending timestamp order, so that the view as
 * a dictionary (AsMap) and the newest-first walk over it are both explicit.
 * Timestamps are microseconds on an arbitrary epoch, supplied by the caller.
 */
module Ledger {

  /** Microseconds in one minute: the unit of the query window. */
  const MicrosPerMinute: int := 60_000_000

  /** One recorded trade: the traded price and the number of shares. */
  datatype Trade = Trade(price: real, quantity: int)

  /** A ledger entry: the moment the trade was recorded and the trade. */
  datatype Entry = Entry(stamp: int, trade: Trade)

  /** Timestamps strictly increase along the ledger (so they are also unique). */
  ghost predicate Sorted(l: seq<Entry>) {
    forall i, j :: 0 <= i < j < |l| ==> l[i].stamp < l[j].stamp
  }

  /** A trade that passed the recording checks. */
  predicate Accepted(t: Trade) {
    t.price > 0.0 && t.quantity > 0
  }

  /** Every entry holds an accepted trade. */
  ghost predicate AllAccepted(l: seq<Entry>) {
    forall i :: 0 <= i < |l| ==> Accepted(l[i].trade)
  }

  /** The ledger read as the source's dictionary from timestamp to trade. */
  function AsMap(l: seq<Entry>): (m: map<int, Trade>)
    ensures forall i :: 0 <= i < |l| ==> l[i].stamp in m
    ensures forall t :: t in m ==> exists i :: 0 <= i < |l| && l[i].stamp == t
  {
    if |l| == 0 then map[] else AsMap(l[1..])[l[0].stamp := l[0].trade]
  }

  /** Storing trade `tr` under timestamp `t`: the entry goes to its place in
      timestamp order, replacing an entry with the same timestamp. */
  function Insert(l: seq<Entry>, t: int, tr: Trade): (r: seq<Entry>)
    ensures forall i :: 0 <= i < |r| ==> r[i] == Entry(t, tr) || r[i] in l
  {
    if |l| == 0 then [Entry(t, tr)]
    else if t < l[0].stamp then [Entry(t, tr)] + l
    else if t == l[0].stamp then [Entry(t, tr)] + l[1..]
    else [l[0]] + Insert(l[1..], t, tr)
  }

  /** Insert is the dictionary assignment `trades[t] = tr`: the new map sends
      `t` to `tr` and agrees with the old one on every other timestamp. */
  lemma {:induction false} InsertAsMap(l: seq<Entry>, t: int, tr: Trade)
    ensures AsMap(Insert(l, t, tr)) == AsMap(l)[t := tr]
  {
    if |l| > 0 {
      var first, tail := l[0], l[1..];
      var m := AsMap(tail);
      assert AsMap(l) == m[first.stamp := first.trade];
      if t > first.stamp {
        InsertAsMap(tail, t, tr);
        InsertAsMapLater(l, t, tr);
      } else if t == first.stamp {
        assert ([Entry(t, tr)] + tail)[1..] == tail;
        assert AsMap(Insert(l, t, tr)) == m[t := tr];
        assert m[first.stamp := first.trade][t := tr] == m[t := tr];
      } else {
        assert ([Entry(t, tr)] + l)[1..] == l;
      }
    }
  }

  /** Inserting after the first entry: the dictionary meaning carries over
      from the rest of the ledger to the whole of it. */
  lemma InsertAsMapLater(l: seq<Entry>, t: int, tr: Trade)
    requires |l| > 0 && t > l[0].stamp
    requires AsMap(Insert(l[1..], t, tr)) == AsMap(l[1..])[t := tr]
    ensures AsMap(Insert(l, t, tr)) == AsMap(l)[t := tr]
  {
    var first, tail := l[0], l[1..];
    var m := AsMap(tail);
    var rest := Insert(tail, t, tr);
    assert ([first] + rest)[1..] == rest;
    assert AsMap(Insert(l, t, tr)) == m[t := tr][first.stamp := first.trade];
    UpdateCommute(m, t, tr, first.stamp, first.trade);
  }

  /** Updates of two different keys can be done in either order. */
  lemma UpdateCommute<K, V>(m: map<K, V>, a: K, x: V, b: K, y: V)
    requires a != b
    ensures m[a := x][b := y] == m[b := y][a := x]
  {
  }

  /** Insert keeps the ledger in timestamp order. */
  lemma {:induction false} InsertSorted(l: seq<Entry>, t: int, tr: Trade)
    requires Sorted(l)
    ensures Sorted(Insert(l, t, tr))
  {
    if |l| > 0 {
      var first, tail := l[0], l[1..];
      SortedTail(l);
      if t > first.stamp {
        InsertSorted(tail, t, tr);
        var rest := Insert(tail, t, tr);
        forall i | 0 <= i < |rest| ensures first.stamp < rest[i].stamp {
          if rest[i] != Entry(t, tr) {
            var j :| 0 <= j < |tail| && tail[j] == rest[i];
          }
        }
        SortedCons(first, rest);
      } else if t == first.stamp {
        SortedCons(Entry(t, tr), tail);
      } else {
        SortedCons(Entry(t, tr), l);
      }
    }
  }

  /** The tail of a sorted ledger is sorted and newer than its first entry. */
  lemma SortedTail(l: seq<Entry>)
    requires Sorted(l) && |l| > 0
    ensures Sorted(l[1..])
    ensures forall i :: 0 <= i < |l[1..]| ==> l[0].stamp < l[1..][i].stamp
  {
    var tail := l[1..];
    forall i, j | 0 <= i < j < |tail| ensures tail[i].stamp < tail[j].stamp {
      assert tail[i] == l[i + 1] && tail[j] == l[j + 1];
    }
    forall i | 0 <= i < |tail| ensures l[0].stamp < tail[i].stamp {
      assert tail[i] == l[i + 1];
    }
  }

  /** An entry older than every entry of a sorted ledger can go in front. */
  lemma {:induction false} SortedCons(e: Entry, l: seq<Entry>)
    requires Sorted(l)
    requires forall i :: 0 <= i < |l| ==> e.stamp < l[i].stamp
    ensures Sorted([e] + l)
  {
    var r := [e] + l;
    forall i, j | 0 <= i < j < |r| ensures r[i].stamp < r[j].stamp {
      assert r[j] == l[j - 1];
      if i > 0 {
        assert r[i] == l[i - 1];
      }
    }
  }

  /** Insert of an accepted trade keeps every entry accepted. */
  lemma {:induction false} InsertAccepted(l: seq<Entry>, t: int, tr: Trade)
    requires AllAccepted(l) && Accepted(tr)
    ensures AllAccepted(Insert(l, t, tr))
  {
    var r := Insert(l, t, tr);
    forall i | 0 <= i < |r| ensures Accepted(r[i].trade) {
      if r[i] != Entry(t, tr) {
        var j :| 0 <= j < |l| && l[j] == r[i];
      }
    }
  }

  /** With a clock that moves forward, recording is an append at the end. */
  lemma {:induction false} InsertNewest(l: seq<Entry>, t: int, tr: Trade)
    requires forall i :: 0 <= i < |l| ==> l[i].stamp < t
    ensures Insert(l, t, tr) == l + [Entry(t, tr)]
  {
    if |l| > 0 {
      InsertNewest(l[1..], t, tr);
      assert l == [l[0]] + l[1..];
    }
  }

  /** The last moment excluded from a window of `window` minutes ending at `now`. */
  function Cutoff(now: int, window: int): (r: int)
    ensures r <= now <==> window >= 0
    ensures r == now <==> window == 0
  {
    now - window * MicrosPerMinute
  }

  /** The trades strictly newer than `cutoff`, newest first: the reference
      definition, which looks at every entry of the ledger. */
  function Windowed(l: seq<Entry>, cutoff: int): seq<Trade> {
    if |l| == 0 then []
    else
      var last := l[|l| - 1];
      (if last.stamp > cutoff then [last.trade] else []) + Windowed(l[..|l| - 1], cutoff)
  }

  /** The source's scan: from the newest entry backwards, stopping at the
      first one that is not newer than the cutoff. Its result is the trades of
      the longest run of newest entries that are all newer than the cutoff,
      newest first: the entry just before that run, if any, is not. */
  function ScanNewestFirst(l: seq<Entry>, cutoff: int): (r: seq<Trade>)
    ensures |r| <= |l|
    ensures forall i :: |l| - |r| <= i < |l| ==> l[i].stamp > cutoff
    ensures forall j :: 0 <= j < |r| ==> r[j] == l[|l| - 1 - j].trade
    ensures |r| < |l| ==> l[|l| - 1 - |r|].stamp <= cutoff
  {
    if |l| == 0 then []
    else if l[|l| - 1].stamp > cutoff then
      var init := l[..|l| - 1];
      var rest := ScanNewestFirst(init, cutoff);
      FreshRunStep(l, init, cutoff, rest);
      [l[|l| - 1].trade] + rest
    else []
  }

  /** One step of the scan over the first i entries, when the i-th is newer
      than the cutoff: its trade moves from the part still to scan to the
      part already collected. */
  lemma ScanPrefixStep(l: seq<Entry>, i: nat, cutoff: int, valid: seq<Trade>)
    requires 0 < i <= |l| && l[i - 1].stamp > cutoff
    requires ScanNewestFirst(l, cutoff) == valid + ScanNewestFirst(l[..i], cutoff)
    ensures ScanNewestFirst(l, cutoff) == (valid + [l[i - 1].trade]) + ScanNewestFirst(l[..i - 1], cutoff)
  {
    assert l[..i][..i - 1] == l[..i - 1];
    assert ScanNewestFirst(l[..i], cutoff) == [l[i - 1].trade] + ScanNewestFirst(l[..i - 1], cutoff);
  }

  /** The scan of the first i entries stops at once when the i-th is not
      newer than the cutoff. */
  lemma ScanPrefixStops(l: seq<Entry>, i: nat, cutoff: int)
    requires 0 < i <= |l| && l[i - 1].stamp <= cutoff
    ensures ScanNewestFirst(l[..i], cutoff) == []
  {
  }

  /** A fresh newest entry in front of the run the scan found in the rest of
      the ledger is a run of the whole ledger. */
  lemma FreshRunStep(l: seq<Entry>, init: seq<Entry>, cutoff: int, rest: seq<Trade>)
    requires |l| > 0 && init == l[..|l| - 1] && l[|l| - 1].stamp > cutoff
    requires |rest| <= |init|
    requires forall i :: |init| - |rest| <= i < |init| ==> init[i].stamp > cutoff
    requires forall j :: 0 <= j < |rest| ==> rest[j] == init[|init| - 1 - j].trade
    requires |rest| < |init| ==> init[|init| - 1 - |rest|].stamp <= cutoff
    ensures var r := [l[|l| - 1].trade] + rest;
            && |r| <= |l|
            && (forall i :: |l| - |r| <= i < |l| ==> l[i].stamp > cutoff)
            && (forall j :: 0 <= j < |r| ==> r[j] == l[|l| - 1 - j].trade)
            && (|r| < |l| ==> l[|l| - 1 - |r|].stamp <= cutoff)
  {
    var r := [l[|l| - 1].trade] + rest;
    forall i | |l| - |r| <= i < |l|
      ensures l[i].stamp > cutoff
    {
      if i < |l| - 1 {
        assert l[i] == init[i];
      }
    }
    forall j | 0 <= j < |r|
      ensures r[j] == l[|l| - 1 - j].trade
    {
      if j > 0 {
        assert r[j] == rest[j - 1];
        assert l[|l| - 1 - j] == init[|init| - 1 - (j - 1)];
      }
    }
  }

  /** A ledger with no entry newer than the cutoff has an empty window. */
  lemma {:induction false} AllStaleWindowEmpty(l: seq<Entry>, cutoff: int)
    requires forall i :: 0 <= i < |l| ==> l[i].stamp <= cutoff
    ensures Windowed(l, cutoff) == []
  {
    if |l| > 0 {
      AllStaleWindowEmpty(l[..|l| - 1], cutoff);
    }
  }

  /** On a sorted ledger the early stop skips nothing: the scan returns
      exactly the reference window. */
  lemma {:induction false} ScanOfSortedIsWindowed(l: seq<Entry>, cutoff: int)
    requires Sorted(l)
    ensures ScanNewestFirst(l, cutoff) == Windowed(l, cutoff)
  {
    if |l| > 0 {
      var init := l[..|l| - 1];
      if l[|l| - 1].stamp > cutoff {
        ScanOfSortedIsWindowed(init, cutoff);
      } else {
        AllStaleWindowEmpty(init, cutoff);
      }
    }
  }

  /** When the window is not in timestamp order the early stop loses trades:
      a newer entry listed before an older, stale one is never reached. */
  lemma ScanMissesUnsortedTrade()
    ensures var l := [Entry(2, Trade(10.0, 100)), Entry(1, Trade(10.0, 100))];
            ScanNewestFirst(l, 1) == [] && Windowed(l, 1) == [Trade(10.0, 100)]
  {
    var l := [Entry(2, Trade(10.0, 100)), Entry(1, Trade(10.0, 100))];
    assert l[..1] == [Entry(2, Trade(10.0, 100))];
    assert l[..1][..0] == [];
  }

  /** The window of a ledger whose first k entries are stale and whose other
      entries are all newer than the cutoff: the last |l| - k trades of the
      ledger, newest first. */
  lemma {:induction false} WindowedIsNewestSuffix(l: seq<Entry>, cutoff: int, k: nat)
    requires k <= |l|
    requires forall i :: 0 <= i < k ==> l[i].stamp <= cutoff
    requires forall i :: k <= i < |l| ==> l[i].stamp > cutoff
    ensures |Windowed(l, cutoff)| == |l| - k
    ensures forall j :: 0 <= j < |l| - k ==> Windowed(l, cutoff)[j] == l[|l| - 1 - j].trade
  {
    if |l| == k {
      AllStaleWindowEmpty(l, cutoff);
    } else {
      var init := l[..|l| - 1];
      WindowedIsNewestSuffix(init, cutoff, k);
      assert Windowed(l, cutoff) == [l[|l| - 1].trade] + Windowed(init, cutoff);
    }
  }

  /** A trade is in the window exactly when some entry of the ledger newer
      than the cutoff holds it. */
  lemma {:induction false} WindowedMembers(l: seq<Entry>, cutoff: int)
    ensures forall t :: t in Windowed(l, cutoff) <==>
              exists i :: 0 <= i < |l| && l[i].trade == t && l[i].stamp > cutoff
  {
    forall t ensures t in Windowed(l, cutoff) <==>
      exists i :: 0 <= i < |l| && l[i].trade == t && l[i].stamp > cutoff
    {
      WindowedMember(l, cutoff, t);
    }
  }

  /** WindowedMembers for one trade t. */
  lemma {:induction false} WindowedMember(l: seq<Entry>, cutoff: int, t: Trade)
    ensures t in Windowed(l, cutoff) <==>
              exists i :: 0 <= i < |l| && l[i].trade == t && l[i].stamp > cutoff
  {
    if |l| > 0 {
      var init, last := l[..|l| - 1], l[|l| - 1];
      WindowedMember(init, cutoff, t);
      assert Windowed(l, cutoff) == (if last.stamp > cutoff then [last.trade] else []) + Windowed(init, cutoff);
      if t in Windowed(l, cutoff) {
        if t in Windowed(init, cutoff) {
          var i :| 0 <= i < |init| && init[i].trade == t && init[i].stamp > cutoff;
          assert l[i] == init[i];
        } else {
          assert l[|l| - 1].trade == t && l[|l| - 1].stamp > cutoff;
        }
      }
      if exists i :: 0 <= i < |l| && l[i].trade == t && l[i].stamp > cutoff {
        var i :| 0 <= i < |l| && l[i].trade == t && l[i].stamp > cutoff;
        if i < |init| {
          assert init[i] == l[i];
        }
      }
    }
  }

  /** Σ price·quantity over a list of trades. */
  function TotalCost(ts: seq<Trade>): real {
    if |ts| == 0 then 0.0
    else TotalCost(ts[..|ts| - 1]) + ts[|ts| - 1].price * ts[|ts| - 1].quantity as real
  }

  /** Σ quantity over a list of trades. */
  function TotalQuantity(ts: seq<Trade>): int {
    if |ts| == 0 then 0 else TotalQuantity(ts[..|ts| - 1]) + ts[|ts| - 1].quantity
  }

  /** One more trade of the sums: the totals over the first i + 1 trades
      are those over the first i plus the cost and quantity of trade i. */
  lemma {:induction false} TotalsSnoc(ts: seq<Trade>, i: nat, cost: real, quantity: int)
    requires i < |ts|
    requires cost == TotalCost(ts[..i]) && quantity == TotalQuantity(ts[..i])
    ensures cost + ts[i].price * ts[i].quantity as real == TotalCost(ts[..i + 1])
    ensures quantity + ts[i].quantity == TotalQuantity(ts[..i + 1])
  {
    assert ts[..i + 1][..i] == ts[..i];
  }

  /** The loop of the volume-weighted price: Σ price·quantity and Σ quantity
      over a list of trades, accumulated from the first trade on. */
  method SumTrades(ts: seq<Trade>) returns (cost: real, quantity: int)
    ensures cost == TotalCost(ts) && quantity == TotalQuantity(ts)
  {
    cost, quantity := 0.0, 0;
    var i := 0;
    while i < |ts|
      invariant 0 <= i <= |ts|
      invariant cost == TotalCost(ts[..i])
      invariant quantity == TotalQuantity(ts[..i])
    {
      var t := ts[i];
      TotalsSnoc(ts, i, cost, quantity);
      cost := cost + t.price * t.quantity as real;
      quantity := quantity + t.quantity;
      i := i + 1;
    }
    assert ts[..i] == ts;
  }

  /** With positive quantities the total quantity is zero exactly when there
      are no trades, and positive otherwise. */
  lemma {:induction false} TotalQuantityPositive(ts: seq<Trade>)
    requires forall i :: 0 <= i < |ts| ==> ts[i].quantity > 0
    ensures TotalQuantity(ts) >= 0
    ensures TotalQuantity(ts) == 0 <==> ts == []
  {
    if |ts| > 0 {
      TotalQuantityPositive(ts[..|ts| - 1]);
    }
  }

  /** If every price lies in [lo, hi] then the total cost lies between lo and
      hi times the total quantity. */
  lemma {:induction false} TotalCostBetween(ts: seq<Trade>, lo: real, hi: real)
    requires forall i :: 0 <= i < |ts| ==> ts[i].quantity >= 0 && lo <= ts[i].price <= hi
    ensures lo * TotalQuantity(ts) as real <= TotalCost(ts) <= hi * TotalQuantity(ts) as real
  {
    if |ts| > 0 {
      var init := ts[..|ts| - 1];
      assert forall i :: 0 <= i < |init| ==> init[i] == ts[i];
      TotalCostBetween(init, lo, hi);
      TotalCostBetweenLast(ts, lo, hi);
    }
  }

  /** The bounds on the totals extend from all trades but the last to all
      trades, when the last one's price lies in [lo, hi]. */
  lemma TotalCostBetweenLast(ts: seq<Trade>, lo: real, hi: real)
    requires |ts| > 0 && ts[|ts| - 1].quantity >= 0 && lo <= ts[|ts| - 1].price <= hi
    requires lo * TotalQuantity(ts[..|ts| - 1]) as real <= TotalCost(ts[..|ts| - 1]) <= hi * TotalQuantity(ts[..|ts| - 1]) as real
    ensures lo * TotalQuantity(ts) as real <= TotalCost(ts) <= hi * TotalQuantity(ts) as real
  {
    var init, last := ts[..|ts| - 1], ts[|ts| - 1];
    var q := last.quantity as real;
    assert TotalCost(ts) == TotalCost(init) + last.price * q;
    assert TotalQuantity(ts) as real == TotalQuantity(init) as real + q;
    BetweenStep(lo, hi, TotalCost(init), TotalQuantity(init) as real, last.price, q);
  }

  /** Adding a trade of price p in [lo, hi] and quantity q keeps the total
      cost between lo and hi times the total quantity. */
  lemma BetweenStep(lo: real, hi: real, cost: real, total: real, p: real, q: real)
    requires lo * total <= cost <= hi * total
    requires q >= 0.0 && lo <= p <= hi
    ensures lo * (total + q) <= cost + p * q <= hi * (total + q)
  {
    assert lo * q <= p * q <= hi * q;
    assert lo * (total + q) == lo * total + lo * q;
    assert hi * (total + q) == hi * total + hi * q;
  }

  /** The volume-weighted average of trades lies between their lowest and
      highest price. */
  lemma {:induction false} AverageBetween(ts: seq<Trade>, lo: real, hi: real)
    requires ts != []
    requires forall i :: 0 <= i < |ts| ==> ts[i].quantity > 0 && lo <= ts[i].price <= hi
    ensures TotalQuantity(ts) > 0
    ensures lo <= TotalCost(ts) / TotalQuantity(ts) as real <= hi
  {
    TotalQuantityPositive(ts);
    TotalCostBetween(ts, lo, hi);
    RatioBetween(TotalCost(ts), TotalQuantity(ts) as real, lo, hi);
  }

  /** A positive factor can be cancelled from both sides of an inequality. */
  lemma MulCancelLe(a: real, b: real, q: real)
    requires q > 0.0 && a * q <= b * q
    ensures a <= b
  {
  }

  /** lo·q <= c <= hi·q with q > 0 gives lo <= c/q <= hi. */
  lemma RatioBetween(c: real, q: real, lo: real, hi: real)
    requires q > 0.0 && lo * q <= c <= hi * q
    ensures lo <= c / q <= hi
  {
    var r := c / q;
    assert r * q == c;
    MulCancelLe(lo, r, q);
    MulCancelLe(r, hi, q);
  }

  /** Trades all at one price p average to p. */
  lemma {:induction false} AverageOfUniformPrice(ts: seq<Trade>, p: real)
    requires ts != []
    requires forall i :: 0 <= i < |ts| ==> ts[i].quantity > 0 && ts[i].price == p
    ensures TotalQuantity(ts) > 0
    ensures TotalCost(ts) / TotalQuantity(ts) as real == p
  {
    AverageBetween(ts, p, p);
  }
}
