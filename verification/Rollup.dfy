/** Rolling the one-minute rows up gives what a live aggregator of the longer timeframe holds. */
module Rollup {
  import opened Common
  import opened Footprint
  import opened Aggregator
  import opened AggregatorRun
  import opened AggregatorLog
  import opened Timeframes
  import opened ClusterTable
  import opened RangeQuery
  import opened DirectRead

  /** The trades whose rows are stored under window start `w`. */
  function StoredTrades(c: Config, a: seq<Trade>, w: int): seq<Trade>
    requires c.Valid()
  {
    InWindow(c.window, a, w * NANOS_PER_MS)
  }

  /** The table holds exactly the finished state of one stored window. */
  ghost predicate Final(table: Table, c: Config, a: seq<Trade>, w: int)
    requires c.Valid()
  {
    var all := StoredTrades(c, a, w);
    forall k: Key :: k.window == w ==>
      && (k in table <==> k.price in Buckets(c.step, all))
      && (k in table ==> table[k].bucket == Buckets(c.step, all)[k.price] && table[k].ohlc == OhlcOf(all))
  }

  /** Every stored window that rolls up into `rw` is a window of some trade. */
  ghost predicate NoStrays(table: Table, fine: Config, a: seq<Trade>, interval: int, rw: int)
    requires fine.Valid() && interval > 0
  {
    forall k :: k in table && StartOfInterval(k.window, interval) == rw ==>
      exists t :: t in a && WindowMs(fine, t) == k.window
  }

  /** The fine windows that make up the rolled window `rw` are all final, and nothing else in the
      table rolls up into it. */
  ghost predicate Complete(table: Table, fine: Config, coarse: Config, a: seq<Trade>, interval: int, rw: int)
    requires fine.Valid() && coarse.Valid() && interval > 0
  {
    && (forall t :: t in a && WindowMs(coarse, t) == rw ==> Final(table, fine, a, WindowMs(fine, t)))
    && NoStrays(table, fine, a, interval, rw)
  }

  /** As far as one price goes, complete: each fine window of `rw` has that price's bucket exactly if its
      trades do, and right. */
  ghost predicate CellsComplete(table: Table, fine: Config, coarse: Config, a: seq<Trade>, interval: int, rw: int,
                                p: int)
    requires fine.Valid() && coarse.Valid() && interval > 0
  {
    && (forall t :: t in a && BucketPrice(fine.step, t) == p && WindowMs(coarse, t) == rw ==>
          Key(WindowMs(fine, t), p) in table)
    && (forall w :: w in SubWindowsOf(table, interval, rw, p) ==> CellIsRight(table, fine, a, w, p))
  }

  ghost predicate CellIsRight(table: Table, c: Config, a: seq<Trade>, w: int, p: int)
    requires c.Valid()
  {
    && (exists t :: t in a && BucketPrice(c.step, t) == p && WindowMs(c, t) == w)
    && Key(w, p) in table && table[Key(w, p)].bucket == BucketAt(c.step, StoredTrades(c, a, w), p)
  }

  /** The table has rows of one stored window, and reads as the OHLC of its trades. */
  ghost predicate ReadsAs(table: Table, c: Config, a: seq<Trade>, w: int)
    requires c.Valid()
  {
    && (exists k: Key :: k in table && k.window == w)
    && WindowOhlc(table, w) == OhlcOf(StoredTrades(c, a, w))
  }

  /** As far as OHLC goes, complete: each fine window of `rw` reads as it should. */
  ghost predicate OhlcComplete(table: Table, fine: Config, coarse: Config, a: seq<Trade>, interval: int, rw: int)
    requires fine.Valid() && coarse.Valid() && interval > 0
  {
    && (forall t :: t in a && WindowMs(coarse, t) == rw ==> ReadsAs(table, fine, a, WindowMs(fine, t)))
    && NoStrays(table, fine, a, interval, rw)
  }

  // ---- Sums ----------------------------------------------------------------------------------

  /** The exact column total of one price over the trades of several stored windows. */
  function TotalWhere(c: Config, col: Column, a: seq<Trade>, p: int, ws: set<int>): int
    requires c.Valid()
  {
    if a == [] then 0
    else TotalWhere(c, col, Init(a), p, ws)
         + if BucketPrice(c.step, Last(a)) == p && WindowMs(c, Last(a)) in ws then col.Weight(Last(a)) else 0
  }

  lemma {:induction false} TotalWhereSplit(c: Config, ms: int, col: Column, a: seq<Trade>, p: int, ws: set<int>, w: int)
    requires InMillis(c, ms) && w in ws
    ensures TotalWhere(c, col, a, p, ws)
            == Total(c.step, col, StoredTrades(c, a, w), p) + TotalWhere(c, col, a, p, ws - {w})
  {
    if a != [] {
      var init, t := Init(a), Last(a);
      TotalWhereSplit(c, ms, col, init, p, ws, w);
      StoredStartExact(c, ms, t);
      assert WindowMs(c, t) == w <==> WindowStart(c.window, t) == w * NANOS_PER_MS;
      if WindowMs(c, t) == w {
        TotalSnoc(c.step, col, StoredTrades(c, init, w), t, p);
      }
    }
  }

  lemma TotalSnoc(step: int, col: Column, trades: seq<Trade>, t: Trade, p: int)
    requires step > 0
    ensures Total(step, col, trades + [t], p)
            == Total(step, col, trades, p) + if BucketPrice(step, t) == p then col.Weight(t) else 0
  {
    assert Init(trades + [t]) == trades;
  }

  lemma {:induction false} TotalWhereEmpty(c: Config, col: Column, a: seq<Trade>, p: int)
    requires c.Valid()
    ensures TotalWhere(c, col, a, p, {}) == 0
  {
    if a != [] {
      TotalWhereEmpty(c, col, Init(a), p);
    }
  }

  lemma {:induction false} TotalWhereNonNegative(c: Config, col: Column, a: seq<Trade>, p: int, ws: set<int>)
    requires c.Valid() && NonNegative(a)
    ensures TotalWhere(c, col, a, p, ws) >= 0
  {
    if a != [] {
      assert Last(a) in a && forall t :: t in Init(a) ==> t in a;
      TotalWhereNonNegative(c, col, Init(a), p, ws);
    }
  }

  /** Adding up per-window saturated cells and saturating once more gives the saturated grand
      total: saturation commutes with the rollup. */
  lemma {:induction false} SumOfCells(c: Config, ms: int, col: Column, a: seq<Trade>, p: int, ws: set<int>,
                                      cell: int -> int)
    requires InMillis(c, ms) && NonNegative(a)
    requires forall w :: w in ws ==> cell(w) == Tally(c.step, col, StoredTrades(c, a, w), p)
    ensures SumOver(ws, cell) >= 0
    ensures Min(SumOver(ws, cell), col.Ceiling()) == Min(TotalWhere(c, col, a, p, ws), col.Ceiling())
    decreases ws
  {
    if exists x :: x in ws {
      var x :| x in ws && SumOver(ws, cell) == cell(x) + SumOver(ws - {x}, cell);
      SumOfCells(c, ms, col, a, p, ws - {x}, cell);
      TotalWhereSplit(c, ms, col, a, p, ws, x);
      TotalWhereNonNegative(c, col, a, p, ws - {x});
      InWindowMembers(c.window, a, x * NANOS_PER_MS);
      TallyIsCappedTotal(c.step, col, StoredTrades(c, a, x), p);
    } else {
      assert ws == {};
      TotalWhereEmpty(c, col, a, p);
    }
  }

  /** Counting a price over the right fine windows is counting it over the coarse one. */
  lemma {:induction false} TotalWhereIsCoarse(fine: Config, coarse: Config, col: Column, a: seq<Trade>, p: int,
                                        ws: set<int>, w: int)
    requires fine.Valid() && coarse.Valid() && fine.step == coarse.step
    requires forall t :: t in a && BucketPrice(fine.step, t) == p ==>
               (WindowMs(fine, t) in ws <==> WindowStart(coarse.window, t) == w)
    ensures TotalWhere(fine, col, a, p, ws) == Total(fine.step, col, InWindow(coarse.window, a, w), p)
  {
    if a != [] {
      var init, t := Init(a), Last(a);
      assert t in a && forall u :: u in init ==> u in a;
      TotalWhereIsCoarse(fine, coarse, col, init, p, ws, w);
      if WindowStart(coarse.window, t) == w {
        TotalSnoc(fine.step, col, InWindow(coarse.window, init, w), t, p);
      }
    }
  }

  /** The assumptions of the rollup: nested timeframes, exchange timestamps, quantities and prices. */
  ghost predicate RollupData(fine: Config, coarse: Config, ms: int, k: int, a: seq<Trade>) {
    && Nested(fine, coarse, ms, k)
    && NonNegative(a) && Priced(a)
    && (forall t :: t in a ==> t.ts >= 0)
  }

  /** Such a stream as a fine aggregator accepts it. */
  ghost predicate RollupInput(fine: Config, coarse: Config, ms: int, k: int, a: seq<Trade>) {
    RollupData(fine, coarse, ms, k, a) && Chronological(fine.window, a)
  }

  /** A bucket belongs to a rolled window exactly when its trades belong to the coarse window. */
  lemma CellOfRolledWindow(fine: Config, coarse: Config, ms: int, k: int, a: seq<Trade>, table: Table, rw: int,
                           p: int, t: Trade)
    requires RollupInput(fine, coarse, ms, k, a) && t in a && BucketPrice(fine.step, t) == p
    requires CellsComplete(table, fine, coarse, a, k * ms, rw, p)
    ensures WindowMs(coarse, t) == rw <==> WindowStart(coarse.window, t) == rw * NANOS_PER_MS
    ensures WindowMs(coarse, t) == rw <==> WindowMs(fine, t) in SubWindowsOf(table, k * ms, rw, p)
  {
    NestedWindows(fine, coarse, ms, k, t);
    StoredStartExact(fine, ms, t);
  }

  /** The rolled sum of a column, cut at the column's width, is the live aggregator's value; in
      particular they are equal exactly when the sum fits the column. */
  lemma RolledSumIsLive(fine: Config, coarse: Config, ms: int, k: int, a: seq<Trade>, table: Table, rw: int,
                        col: Column, p: int)
    requires RollupInput(fine, coarse, ms, k, a)
    requires CellsComplete(table, fine, coarse, a, k * ms, rw, p)
    ensures var live := StoredTrades(coarse, a, rw);
            var sum := RolledSum(table, col, k * ms, rw, p);
            && Tally(coarse.step, col, live, p) == Min(sum, col.Ceiling())
            && (sum == Tally(coarse.step, col, live, p) <==> sum <= col.Ceiling())
  {
    var ws := SubWindowsOf(table, k * ms, rw, p);
    var live := StoredTrades(coarse, a, rw);
    var cell := w => Cell(table, col, w, p);
    forall w | w in ws
      ensures cell(w) == Tally(fine.step, col, StoredTrades(fine, a, w), p)
    {
      assert CellIsRight(table, fine, a, w, p);
    }
    SumOfCells(fine, ms, col, a, p, ws, cell);
    forall t | t in a && BucketPrice(fine.step, t) == p
      ensures WindowMs(fine, t) in ws <==> WindowStart(coarse.window, t) == rw * NANOS_PER_MS
    {
      CellOfRolledWindow(fine, coarse, ms, k, a, table, rw, p, t);
    }
    TotalWhereIsCoarse(fine, coarse, col, a, p, ws, rw * NANOS_PER_MS);
    InWindowMembers(coarse.window, a, rw * NANOS_PER_MS);
    TallyIsCappedTotal(fine.step, col, live, p);
  }

  /** The rollup reports a price exactly when the live footprint has it. */
  lemma RolledPricesAreLive(fine: Config, coarse: Config, ms: int, k: int, a: seq<Trade>, table: Table, rw: int, p: int)
    requires RollupInput(fine, coarse, ms, k, a)
    requires CellsComplete(table, fine, coarse, a, k * ms, rw, p)
    ensures (exists w :: w in SubWindowsOf(table, k * ms, rw, p))
            <==> p in Buckets(coarse.step, StoredTrades(coarse, a, rw))
  {
    InWindowMembers(coarse.window, a, rw * NANOS_PER_MS);
    if w :| w in SubWindowsOf(table, k * ms, rw, p) {
      assert CellIsRight(table, fine, a, w, p);
      var t :| t in a && BucketPrice(fine.step, t) == p && WindowMs(fine, t) == w;
      CellOfRolledWindow(fine, coarse, ms, k, a, table, rw, p, t);
      assert t in StoredTrades(coarse, a, rw);
    }
    if p in Buckets(coarse.step, StoredTrades(coarse, a, rw)) {
      var t :| t in StoredTrades(coarse, a, rw) && BucketPrice(coarse.step, t) == p;
      CellOfRolledWindow(fine, coarse, ms, k, a, table, rw, p, t);
    }
  }

  /** A complete table is complete for every price. */
  lemma CompleteCells(fine: Config, coarse: Config, ms: int, k: int, a: seq<Trade>, table: Table, rw: int, p: int)
    requires RollupInput(fine, coarse, ms, k, a)
    requires Complete(table, fine, coarse, a, k * ms, rw)
    ensures CellsComplete(table, fine, coarse, a, k * ms, rw, p)
  {
    forall t | t in a && BucketPrice(fine.step, t) == p && WindowMs(coarse, t) == rw
      ensures Key(WindowMs(fine, t), p) in table
    {
      StoredStartExact(fine, ms, t);
      InWindowMembers(fine.window, a, WindowMs(fine, t) * NANOS_PER_MS);
      assert t in StoredTrades(fine, a, WindowMs(fine, t));
      assert Final(table, fine, a, WindowMs(fine, t));
    }
    forall w | w in SubWindowsOf(table, k * ms, rw, p)
      ensures CellIsRight(table, fine, a, w, p)
    {
      FinalCell(fine, coarse, ms, k, a, table, rw, w, p);
    }
  }

  lemma FinalCell(fine: Config, coarse: Config, ms: int, k: int, a: seq<Trade>, table: Table, rw: int, w: int, p: int)
    requires RollupInput(fine, coarse, ms, k, a)
    requires Complete(table, fine, coarse, a, k * ms, rw)
    requires w in SubWindowsOf(table, k * ms, rw, p)
    ensures CellIsRight(table, fine, a, w, p)
  {
    var behind := TradeBehindRows(fine, coarse, ms, k, a, table, rw, w);
    assert Final(table, fine, a, w) && Key(w, p) in table;
    var t :| t in StoredTrades(fine, a, w) && BucketPrice(fine.step, t) == p;
    TradeOfSubWindow(fine, coarse, ms, k, a, rw, w, t);
  }

  lemma TradeBehindRows(fine: Config, coarse: Config, ms: int, k: int, a: seq<Trade>, table: Table, rw: int, w: int)
    returns (t: Trade)
    requires RollupInput(fine, coarse, ms, k, a) && NoStrays(table, fine, a, k * ms, rw)
    requires w in SubWindows(table, k * ms, rw)
    ensures t in a && WindowMs(fine, t) == w && WindowMs(coarse, t) == rw
    ensures t in StoredTrades(fine, a, w)
  {
    var key :| key in table && key.window == w && StartOfInterval(w, k * ms) == rw;
    t :| t in a && WindowMs(fine, t) == w;
    NestedWindows(fine, coarse, ms, k, t);
    StoredStartExact(fine, ms, t);
    InWindowMembers(fine.window, a, w * NANOS_PER_MS);
  }

  /** The trades of a sub-window are trades of the rolled window. */
  lemma TradeOfSubWindow(fine: Config, coarse: Config, ms: int, k: int, a: seq<Trade>, rw: int, w: int, t: Trade)
    requires RollupInput(fine, coarse, ms, k, a)
    requires t in StoredTrades(fine, a, w) && StartOfInterval(w, k * ms) == rw
    ensures t in a && WindowMs(fine, t) == w && WindowMs(coarse, t) == rw
    ensures t in StoredTrades(coarse, a, rw)
  {
    InWindowMembers(fine.window, a, w * NANOS_PER_MS);
    InWindowMembers(coarse.window, a, rw * NANOS_PER_MS);
    StoredStartExact(fine, ms, t);
    NestedWindows(fine, coarse, ms, k, t);
  }

  // ---- OHLC ----------------------------------------------------------------------------------

  /** Each sub-window reads as the OHLC of its own trades. */
  lemma SubWindowOhlc(fine: Config, coarse: Config, ms: int, k: int, a: seq<Trade>, table: Table, rw: int, w: int)
    requires RollupInput(fine, coarse, ms, k, a)
    requires OhlcComplete(table, fine, coarse, a, k * ms, rw)
    requires w in SubWindows(table, k * ms, rw)
    ensures var all := StoredTrades(fine, a, w);
            var o := WindowOhlc(table, w);
            all != [] && IsOhlc(all, o) && o.open > 0 && o.close > 0 && o.high > 0 && o.low > 0
  {
    var t := TradeBehindRows(fine, coarse, ms, k, a, table, rw, w);
    PositiveWindow(fine, a, w);
  }

  lemma PositiveWindow(c: Config, a: seq<Trade>, w: int)
    requires c.Valid() && Priced(a) && StoredTrades(c, a, w) != []
    ensures var all := StoredTrades(c, a, w);
            var o := OhlcOf(all);
            IsOhlc(all, o) && o.open > 0 && o.close > 0 && o.high > 0 && o.low > 0
  {
    var all := StoredTrades(c, a, w);
    assert all[..|all|] == all;
    PricedPrefix(c.window, a, w * NANOS_PER_MS, |all|);
    PositiveOhlc(all);
  }

  /** A final window reads as it should. */
  lemma FinalReads(c: Config, ms: int, a: seq<Trade>, table: Table, t: Trade)
    requires InMillis(c, ms) && Priced(a) && t in a && Final(table, c, a, WindowMs(c, t))
    ensures ReadsAs(table, c, a, WindowMs(c, t))
  {
    var w := WindowMs(c, t);
    StoredStartExact(c, ms, t);
    InWindowMembers(c.window, a, w * NANOS_PER_MS);
    assert t in StoredTrades(c, a, w);
    var key := Key(w, BucketPrice(c.step, t));
    assert key in table;
    PositiveWindow(c, a, w);
    UniformWindowRead(table, w, OhlcOf(StoredTrades(c, a, w)), key);
  }

  lemma CompleteReads(fine: Config, coarse: Config, ms: int, k: int, a: seq<Trade>, table: Table, rw: int)
    requires RollupInput(fine, coarse, ms, k, a)
    requires Complete(table, fine, coarse, a, k * ms, rw)
    ensures OhlcComplete(table, fine, coarse, a, k * ms, rw)
  {
    forall t | t in a && WindowMs(coarse, t) == rw
      ensures ReadsAs(table, fine, a, WindowMs(fine, t))
    {
      FinalReads(fine, ms, a, table, t);
    }
  }

  lemma LiveTradeIsRead(fine: Config, coarse: Config, ms: int, k: int, a: seq<Trade>, table: Table, rw: int, t: Trade)
    requires RollupInput(fine, coarse, ms, k, a)
    requires OhlcComplete(table, fine, coarse, a, k * ms, rw)
    requires t in StoredTrades(coarse, a, rw)
    ensures t in a && WindowMs(coarse, t) == rw
    ensures WindowMs(fine, t) in SubWindows(table, k * ms, rw)
    ensures t in StoredTrades(fine, a, WindowMs(fine, t))
  {
    InWindowMembers(coarse.window, a, rw * NANOS_PER_MS);
    NestedWindows(fine, coarse, ms, k, t);
    StoredStartExact(fine, ms, t);
    InWindowMembers(fine.window, a, WindowMs(fine, t) * NANOS_PER_MS);
    assert ReadsAs(table, fine, a, WindowMs(fine, t));
  }

  lemma {:induction false} FirstInWindow(window: int, a: seq<Trade>, w: int) returns (i: nat)
    requires window > 0 && InWindow(window, a, w) != []
    ensures i < |a| && a[i] == InWindow(window, a, w)[0] && WindowStart(window, a[i]) == w
    ensures forall j :: 0 <= j < i ==> WindowStart(window, a[j]) != w
  {
    if InWindow(window, Init(a), w) == [] {
      i := |a| - 1;
      forall j | 0 <= j < i
        ensures WindowStart(window, a[j]) != w
      {
        InWindowMembers(window, Init(a), w);
        assert Init(a)[j] in Init(a) && Init(a)[j] !in InWindow(window, Init(a), w);
      }
    } else {
      i := FirstInWindow(window, Init(a), w);
      assert forall j :: 0 <= j < i ==> Init(a)[j] == a[j];
    }
  }

  lemma {:induction false} LastInWindow(window: int, a: seq<Trade>, w: int) returns (i: nat)
    requires window > 0 && InWindow(window, a, w) != []
    ensures i < |a| && a[i] == Last(InWindow(window, a, w)) && WindowStart(window, a[i]) == w
    ensures forall j :: i < j < |a| ==> WindowStart(window, a[j]) != w
  {
    if WindowStart(window, Last(a)) == w {
      i := |a| - 1;
    } else {
      i := LastInWindow(window, Init(a), w);
      forall j | i < j < |a|
        ensures WindowStart(window, a[j]) != w
      {
        assert j < |a| - 1 ==> a[j] == Init(a)[j];
      }
    }
  }

  lemma FirstOpenIsLive(fine: Config, coarse: Config, ms: int, k: int, a: seq<Trade>, table: Table, rw: int)
    requires RollupInput(fine, coarse, ms, k, a)
    requires OhlcComplete(table, fine, coarse, a, k * ms, rw)
    requires StoredTrades(coarse, a, rw) != []
    ensures FirstOpen(table, k * ms, rw) == StoredTrades(coarse, a, rw)[0].price
  {
    var live := StoredTrades(coarse, a, rw);
    var i := FirstInWindow(coarse.window, a, rw * NANOS_PER_MS);
    assert live[0] in live;
    LiveTradeIsRead(fine, coarse, ms, k, a, table, rw, a[i]);
    var first := WindowMs(fine, a[i]);
    var started := set w | w in SubWindows(table, k * ms, rw) && WindowOhlc(table, w).open > 0;
    forall w | w in SubWindows(table, k * ms, rw)
      ensures first <= w && WindowOhlc(table, w).open > 0
    {
      SubWindowOhlc(fine, coarse, ms, k, a, table, rw, w);
      EarliestSubWindow(fine, coarse, ms, k, a, table, rw, w, i);
    }
    assert first in started && Least(started) == first;
    SubWindowOhlc(fine, coarse, ms, k, a, table, rw, first);
    FirstTradeOfFirstSubWindow(fine, coarse, ms, k, a, rw, i);
  }

  /** No sub-window starts before the one of the first live trade. */
  lemma EarliestSubWindow(fine: Config, coarse: Config, ms: int, k: int, a: seq<Trade>, table: Table, rw: int,
                          w: int, i: nat)
    requires RollupInput(fine, coarse, ms, k, a)
    requires OhlcComplete(table, fine, coarse, a, k * ms, rw)
    requires w in SubWindows(table, k * ms, rw)
    requires i < |a| && forall j :: 0 <= j < i ==> WindowStart(coarse.window, a[j]) != rw * NANOS_PER_MS
    ensures WindowMs(fine, a[i]) <= w
  {
    var t := TradeBehindRows(fine, coarse, ms, k, a, table, rw, w);
    var j :| 0 <= j < |a| && a[j] == t;
    StoredStartExact(coarse, k * ms, t) by { CoarseInMillis(fine, coarse, ms, k); }
    assert WindowStart(fine.window, a[i]) <= WindowStart(fine.window, a[j]);
    StoredStartExact(fine, ms, a[i]);
    StoredStartExact(fine, ms, t);
  }

  lemma CoarseInMillis(fine: Config, coarse: Config, ms: int, k: int)
    requires Nested(fine, coarse, ms, k)
    ensures InMillis(coarse, k * ms)
  {
    MulMonotone(1, k, ms);
    MulAssoc(k, ms, NANOS_PER_MS);
  }

  lemma FirstTradeOfFirstSubWindow(fine: Config, coarse: Config, ms: int, k: int, a: seq<Trade>, rw: int, i: nat)
    requires RollupInput(fine, coarse, ms, k, a)
    requires i < |a| && WindowMs(coarse, a[i]) == rw
    requires forall j :: 0 <= j < i ==> WindowStart(coarse.window, a[j]) != rw * NANOS_PER_MS
    ensures StoredTrades(fine, a, WindowMs(fine, a[i])) != []
    ensures StoredTrades(fine, a, WindowMs(fine, a[i]))[0] == a[i]
  {
    var w := WindowMs(fine, a[i]);
    StoredStartExact(fine, ms, a[i]);
    InWindowMembers(fine.window, a, w * NANOS_PER_MS);
    assert a[i] in a && a[i] in StoredTrades(fine, a, w);
    var i' := FirstInWindow(fine.window, a, w * NANOS_PER_MS);
    NestedWindows(fine, coarse, ms, k, a[i]);
    NestedWindows(fine, coarse, ms, k, a[i']);
    StoredStartExact(fine, ms, a[i']);
  }

  lemma LastCloseIsLive(fine: Config, coarse: Config, ms: int, k: int, a: seq<Trade>, table: Table, rw: int)
    requires RollupInput(fine, coarse, ms, k, a)
    requires OhlcComplete(table, fine, coarse, a, k * ms, rw)
    requires StoredTrades(coarse, a, rw) != []
    ensures LastClose(table, k * ms, rw) == Last(StoredTrades(coarse, a, rw)).price
  {
    var live := StoredTrades(coarse, a, rw);
    var i := LastInWindow(coarse.window, a, rw * NANOS_PER_MS);
    assert Last(live) in live;
    LiveTradeIsRead(fine, coarse, ms, k, a, table, rw, a[i]);
    var last := WindowMs(fine, a[i]);
    var closed := set w | w in SubWindows(table, k * ms, rw) && WindowOhlc(table, w).close > 0;
    forall w | w in SubWindows(table, k * ms, rw)
      ensures w <= last && WindowOhlc(table, w).close > 0
    {
      SubWindowOhlc(fine, coarse, ms, k, a, table, rw, w);
      LatestSubWindow(fine, coarse, ms, k, a, table, rw, w, i);
    }
    assert last in closed && Greatest(closed) == last;
    SubWindowOhlc(fine, coarse, ms, k, a, table, rw, last);
    LastTradeOfLastSubWindow(fine, coarse, ms, k, a, rw, i);
  }

  lemma LatestSubWindow(fine: Config, coarse: Config, ms: int, k: int, a: seq<Trade>, table: Table, rw: int, w: int,
                        i: nat)
    requires RollupInput(fine, coarse, ms, k, a)
    requires OhlcComplete(table, fine, coarse, a, k * ms, rw)
    requires w in SubWindows(table, k * ms, rw)
    requires i < |a| && forall j :: i < j < |a| ==> WindowStart(coarse.window, a[j]) != rw * NANOS_PER_MS
    ensures w <= WindowMs(fine, a[i])
  {
    var t := TradeBehindRows(fine, coarse, ms, k, a, table, rw, w);
    var j :| 0 <= j < |a| && a[j] == t;
    StoredStartExact(coarse, k * ms, t) by { CoarseInMillis(fine, coarse, ms, k); }
    assert WindowStart(fine.window, a[j]) <= WindowStart(fine.window, a[i]);
    StoredStartExact(fine, ms, a[i]);
    StoredStartExact(fine, ms, t);
  }

  lemma LastTradeOfLastSubWindow(fine: Config, coarse: Config, ms: int, k: int, a: seq<Trade>, rw: int, i: nat)
    requires RollupInput(fine, coarse, ms, k, a)
    requires i < |a| && WindowMs(coarse, a[i]) == rw
    requires forall j :: i < j < |a| ==> WindowStart(coarse.window, a[j]) != rw * NANOS_PER_MS
    ensures StoredTrades(fine, a, WindowMs(fine, a[i])) != []
    ensures Last(StoredTrades(fine, a, WindowMs(fine, a[i]))) == a[i]
  {
    var w := WindowMs(fine, a[i]);
    StoredStartExact(fine, ms, a[i]);
    InWindowMembers(fine.window, a, w * NANOS_PER_MS);
    assert a[i] in a && a[i] in StoredTrades(fine, a, w);
    var i' := LastInWindow(fine.window, a, w * NANOS_PER_MS);
    NestedWindows(fine, coarse, ms, k, a[i]);
    NestedWindows(fine, coarse, ms, k, a[i']);
    StoredStartExact(fine, ms, a[i']);
  }

  lemma HighLowAreLive(fine: Config, coarse: Config, ms: int, k: int, a: seq<Trade>, table: Table, rw: int, o: Ohlc)
    requires RollupInput(fine, coarse, ms, k, a)
    requires OhlcComplete(table, fine, coarse, a, k * ms, rw)
    requires StoredTrades(coarse, a, rw) != [] && IsOhlc(StoredTrades(coarse, a, rw), o) && o.high > 0 && o.low > 0
    ensures RolledOhlc(table, k * ms, rw).high == o.high && RolledOhlc(table, k * ms, rw).low == o.low
  {
    var live, subs := StoredTrades(coarse, a, rw), SubWindows(table, k * ms, rw);
    forall w | w in subs
      ensures WindowOhlc(table, w).high <= o.high && o.low <= WindowOhlc(table, w).low
    {
      SubWindowOhlc(fine, coarse, ms, k, a, table, rw, w);
      var hi :| hi in StoredTrades(fine, a, w) && hi.price == WindowOhlc(table, w).high;
      var lo :| lo in StoredTrades(fine, a, w) && lo.price == WindowOhlc(table, w).low;
      TradeOfSubWindow(fine, coarse, ms, k, a, rw, w, hi);
      TradeOfSubWindow(fine, coarse, ms, k, a, rw, w, lo);
    }
    var hi :| hi in live && hi.price == o.high;
    var lo :| lo in live && lo.price == o.low;
    LiveTradeIsRead(fine, coarse, ms, k, a, table, rw, hi);
    LiveTradeIsRead(fine, coarse, ms, k, a, table, rw, lo);
    SubWindowOhlc(fine, coarse, ms, k, a, table, rw, WindowMs(fine, hi));
    SubWindowOhlc(fine, coarse, ms, k, a, table, rw, WindowMs(fine, lo));
    assert WindowOhlc(table, WindowMs(fine, hi)).high == o.high;
    assert WindowOhlc(table, WindowMs(fine, lo)).low == o.low;
    GreatestIs(set w | w in subs :: WindowOhlc(table, w).high, o.high);
    LeastIs(set w | w in subs :: WindowOhlc(table, w).low, o.low);
  }

  /** The rolled OHLC is that of the live window: first sub-window's open, last one's close. */
  lemma RolledOhlcIsLive(fine: Config, coarse: Config, ms: int, k: int, a: seq<Trade>, table: Table, rw: int)
    requires RollupInput(fine, coarse, ms, k, a)
    requires OhlcComplete(table, fine, coarse, a, k * ms, rw)
    requires StoredTrades(coarse, a, rw) != []
    ensures RolledOhlc(table, k * ms, rw) == OhlcOf(StoredTrades(coarse, a, rw))
  {
    var live := StoredTrades(coarse, a, rw);
    assert live[..|live|] == live;
    PricedPrefix(coarse.window, a, rw * NANOS_PER_MS, |live|);
    PositiveOhlc(live);
    FirstOpenIsLive(fine, coarse, ms, k, a, table, rw);
    LastCloseIsLive(fine, coarse, ms, k, a, table, rw);
    HighLowAreLive(fine, coarse, ms, k, a, table, rw, OhlcOf(live));
  }

  // ---- End to end ----------------------------------------------------------------------------

  /** Every sub-window of `rw` that accepted a trade was closed and its closing rows all arrived. */
  ghost predicate ClosingsDelivered(fine: Config, coarse: Config, a: seq<Trade>, log: seq<Emission>,
                                    arrivals: seq<Arrival>, rw: int)
    requires fine.Valid() && coarse.Valid() && |log| == |arrivals|
  {
    forall t :: t in a && WindowMs(coarse, t) == rw ==> ClosingDelivered(log, arrivals, WindowStart(fine.window, t))
  }

  ghost predicate ClosingDelivered(log: seq<Emission>, arrivals: seq<Arrival>, w: int)
    requires |log| == |arrivals|
  {
    exists i :: 0 <= i < |log| && log[i].kind.Closing? && log[i].frame.window == w && Delivered(log, arrivals, i)
  }

  lemma IntervalBounds(w: int, interval: int)
    requires interval > 0
    ensures StartOfInterval(w, interval) <= w < StartOfInterval(w, interval) + interval
  {
  }

  lemma DeliveredWindowIsFinal(c: Config, ms: int, a: seq<Trade>, log: seq<Emission>, arrivals: seq<Arrival>,
                               from: int, to: int, t: Trade)
    requires InMillis(c, ms) && GoodLog(c, a, log) && |log| == |arrivals| && Clocked(arrivals) && t in a
    requires ClosingDelivered(log, arrivals, WindowStart(c.window, t))
    requires from <= WindowMs(c, t) < to
    ensures Final(Slice(Store(log, arrivals), from, to), c, a, WindowMs(c, t))
  {
    var w := WindowMs(c, t);
    var i :| 0 <= i < |log| && log[i].kind.Closing? && log[i].frame.window == WindowStart(c.window, t)
             && Delivered(log, arrivals, i);
    StoredStartExact(c, ms, t);
    forall k: Key | k.window == w
      ensures k in Store(log, arrivals) <==> k.price in Buckets(c.step, StoredTrades(c, a, w))
      ensures k in Store(log, arrivals) ==>
                && Store(log, arrivals)[k].bucket == Buckets(c.step, StoredTrades(c, a, w))[k.price]
                && Store(log, arrivals)[k].ohlc == OhlcOf(StoredTrades(c, a, w))
    {
      ClosingRepairsWindow(c, ms, a, log, arrivals, i, k);
    }
  }

  lemma StoredRowHasTrade(c: Config, ms: int, a: seq<Trade>, log: seq<Emission>, arrivals: seq<Arrival>, k: Key)
    requires InMillis(c, ms) && GoodLog(c, a, log) && |log| == |arrivals| && k in Store(log, arrivals)
    ensures exists t :: t in a && WindowMs(c, t) == k.window
  {
    var i := NewestVersionWins(log, arrivals, k);
    assert Faithful(c, a, log[i]);
    var all := InWindow(c.window, a, log[i].frame.window);
    InWindowMembers(c.window, a, log[i].frame.window);
    assert all[0] in all;
  }

  /** Delivered closing snapshots make the queried slice complete, whatever else was lost, for every
      range that covers the rolled window. */
  lemma StoredSliceComplete(fine: Config, coarse: Config, ms: int, k: int, a: seq<Trade>, log: seq<Emission>,
                            arrivals: seq<Arrival>, from: int, to: int, rw: int)
    requires RollupInput(fine, coarse, ms, k, a)
    requires GoodLog(fine, a, log) && |log| == |arrivals| && Clocked(arrivals)
    requires ClosingsDelivered(fine, coarse, a, log, arrivals, rw)
    requires from <= rw && rw + k * ms <= to
    ensures Complete(Slice(Store(log, arrivals), from, to), fine, coarse, a, k * ms, rw)
  {
    var table := Slice(Store(log, arrivals), from, to);
    forall t | t in a && WindowMs(coarse, t) == rw
      ensures Final(table, fine, a, WindowMs(fine, t))
    {
      NestedWindows(fine, coarse, ms, k, t);
      IntervalBounds(WindowMs(fine, t), k * ms);
      DeliveredWindowIsFinal(fine, ms, a, log, arrivals, from, to, t);
    }
    forall key | key in table && StartOfInterval(key.window, k * ms) == rw
      ensures exists t :: t in a && WindowMs(fine, t) == key.window
    {
      StoredRowHasTrade(fine, ms, a, log, arrivals, key);
    }
  }

  /** What the rollup query returns for one rolled window is what frame `e` of a live aggregator of
      the long timeframe carries: the same prices, the same OHLC, and in every column the rolled sum
      cut at the width of the column. */
  ghost predicate RollupAgrees(table: Table, interval: int, rw: int, e: Emission)
    requires interval > 0 && e.frame.Snapshot?
  {
    && (forall p :: p in e.frame.clusters <==> exists w :: w in SubWindowsOf(table, interval, rw, p))
    && (forall p, col: Column :: p in e.frame.clusters ==>
          col.Of(e.frame.clusters[p]) == Min(RolledSum(table, col, interval, rw, p), col.Ceiling()))
    && RolledOhlc(table, interval, rw) == e.frame.ohlc
  }

  ghost predicate IsLiveFrame(coarse: Config, a: seq<Trade>, rw: int, e: Emission)
    requires coarse.Valid()
  {
    var live := StoredTrades(coarse, a, rw);
    && live != []
    && e.frame.Snapshot?
    && e.frame.clusters == Buckets(coarse.step, live)
    && e.frame.ohlc == OhlcOf(live)
  }

  lemma ColumnAgrees(fine: Config, coarse: Config, ms: int, k: int, a: seq<Trade>, table: Table, rw: int,
                     e: Emission, p: int, col: Column)
    requires RollupInput(fine, coarse, ms, k, a)
    requires Complete(table, fine, coarse, a, k * ms, rw)
    requires IsLiveFrame(coarse, a, rw, e) && p in e.frame.clusters
    ensures col.Of(e.frame.clusters[p]) == Min(RolledSum(table, col, k * ms, rw, p), col.Ceiling())
  {
    CompleteCells(fine, coarse, ms, k, a, table, rw, p);
    RolledSumIsLive(fine, coarse, ms, k, a, table, rw, col, p);
  }

  lemma PricesAgree(fine: Config, coarse: Config, ms: int, k: int, a: seq<Trade>, table: Table, rw: int, e: Emission)
    requires RollupInput(fine, coarse, ms, k, a)
    requires Complete(table, fine, coarse, a, k * ms, rw)
    requires IsLiveFrame(coarse, a, rw, e)
    ensures forall p :: p in e.frame.clusters <==> exists w :: w in SubWindowsOf(table, k * ms, rw, p)
  {
    forall p
      ensures p in e.frame.clusters <==> exists w :: w in SubWindowsOf(table, k * ms, rw, p)
    {
      CompleteCells(fine, coarse, ms, k, a, table, rw, p);
      RolledPricesAreLive(fine, coarse, ms, k, a, table, rw, p);
    }
  }

  lemma CompleteSliceAgrees(fine: Config, coarse: Config, ms: int, k: int, a: seq<Trade>, table: Table, rw: int,
                            e: Emission)
    requires RollupInput(fine, coarse, ms, k, a)
    requires Complete(table, fine, coarse, a, k * ms, rw)
    requires IsLiveFrame(coarse, a, rw, e)
    ensures RollupAgrees(table, k * ms, rw, e)
  {
    CompleteReads(fine, coarse, ms, k, a, table, rw);
    RolledOhlcIsLive(fine, coarse, ms, k, a, table, rw);
    PricesAgree(fine, coarse, ms, k, a, table, rw, e);
    forall p, col: Column | p in e.frame.clusters
      ensures col.Of(e.frame.clusters[p]) == Min(RolledSum(table, col, k * ms, rw, p), col.Ceiling())
    {
      ColumnAgrees(fine, coarse, ms, k, a, table, rw, e, p, col);
    }
  }

  /** The rollup equals the live aggregator, end to end: for every run of the fine aggregator, every
      loss pattern that spares the closing snapshots of the window, and every covering range, the
      query result is the closing frame of a coarse aggregator fed the trades the fine one accepted,
      under any interleaving of its own timers. */
  lemma RollupMatchesLiveAggregator(fine: Config, coarse: Config, ms: int, k: int, es: seq<Event>, es': seq<Event>,
                                    arrivals: seq<Arrival>, from: int, to: int, e: Emission)
    requires fine.Valid() && RollupData(fine, coarse, ms, k, AcceptedBy(fine, es))
    requires Trades(es') == AcceptedBy(fine, es)
    requires |arrivals| == |Published(fine, es)| && Clocked(arrivals)
    requires e in Published(coarse, es') && e.kind.Closing? && e.frame.Snapshot?
    requires ClosingsDelivered(fine, coarse, AcceptedBy(fine, es), Published(fine, es), arrivals,
                               StoredStart(e.frame.window))
    requires from <= StoredStart(e.frame.window) && StoredStart(e.frame.window) + k * ms <= to
    ensures RollupAgrees(Slice(Store(Published(fine, es), arrivals), from, to), k * ms, StoredStart(e.frame.window), e)
  {
    var a, rw := AcceptedBy(fine, es), StoredStart(e.frame.window);
    AcceptedChronological(fine.window, Trades(es));
    ClosingFrameIsLive(fine, coarse, ms, k, a, es', e);
    PublishedClosesAll(fine, es);
    StoredSliceComplete(fine, coarse, ms, k, a, Published(fine, es), arrivals, from, to, rw);
    CompleteSliceAgrees(fine, coarse, ms, k, a, Slice(Store(Published(fine, es), arrivals), from, to), rw, e);
  }

  lemma ClosingFrameIsLive(fine: Config, coarse: Config, ms: int, k: int, a: seq<Trade>, es': seq<Event>, e: Emission)
    requires RollupInput(fine, coarse, ms, k, a)
    requires Trades(es') == a && e in Published(coarse, es') && e.kind.Closing?
    ensures IsLiveFrame(coarse, a, StoredStart(e.frame.window), e)
  {
    PublishedClosesAll(coarse, es');
    ChronologicalInBoth(fine, coarse, ms, k, a);
    FilteredStreamAllAccepted(coarse.window, a);
    CoarseInMillis(fine, coarse, ms, k);
    StoredStartOf(coarse, k * ms, a, e);
    var all := InWindow(coarse.window, a, e.frame.window);
    assert all[..|all|] == all;
  }
}
