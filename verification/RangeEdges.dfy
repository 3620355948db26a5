/** Queries whose range cuts a window, and rows from before candles were stored. */
module RangeEdges {
  import opened Common
  import opened Footprint
  import opened Aggregator
  import opened AggregatorRun
  import opened AggregatorLog
  import opened Timeframes
  import opened ClusterTable
  import opened RangeQuery
  import opened Rollup

  // ---- The range -------------------------------------------------------------------------------------

  /** A query sees the rows of the windows that start in its range, as they are, and no others. */
  lemma RangeMeaning(table: Table, from: int, to: int, w: int)
    ensures RowsOfWindow(Slice(table, from, to), w) == if from <= w && w < to then RowsOfWindow(table, w) else {}
    ensures forall k :: k in RowsOfWindow(Slice(table, from, to), w) ==> Slice(table, from, to)[k] == table[k]
  {
  }

  /** The trades whose short windows start in the range, in order. */
  function Ranged(fine: Config, a: seq<Trade>, from: int, to: int): seq<Trade>
    requires fine.Valid()
  {
    if a == [] then []
    else if from <= WindowMs(fine, Last(a)) < to then Ranged(fine, Init(a), from, to) + [Last(a)]
    else Ranged(fine, Init(a), from, to)
  }

  lemma {:induction false} RangedMembers(fine: Config, a: seq<Trade>, from: int, to: int)
    requires fine.Valid()
    ensures forall t :: t in Ranged(fine, a, from, to) <==> t in a && from <= WindowMs(fine, t) < to
  {
    if a != [] {
      assert a == Init(a) + [Last(a)];
      RangedMembers(fine, Init(a), from, to);
    }
  }

  lemma {:induction false} RangedChronological(fine: Config, a: seq<Trade>, from: int, to: int)
    requires fine.Valid() && Chronological(fine.window, a)
    ensures Chronological(fine.window, Ranged(fine, a, from, to))
  {
    if a != [] {
      var r := Ranged(fine, Init(a), from, to);
      ChronologicalInit(fine.window, a);
      RangedChronological(fine, Init(a), from, to);
      RangedMembers(fine, Init(a), from, to);
      forall i | 0 <= i < |r|
        ensures WindowStart(fine.window, r[i]) <= WindowStart(fine.window, Last(a))
      {
        assert r[i] in Init(a);
        var j :| 0 <= j < |Init(a)| && Init(a)[j] == r[i];
        assert WindowStart(fine.window, a[j]) <= WindowStart(fine.window, a[|a| - 1]);
      }
    }
  }

  /** A short window in the range keeps all of its trades. */
  lemma {:induction false} RangedWindow(fine: Config, ms: int, a: seq<Trade>, from: int, to: int, w: int)
    requires InMillis(fine, ms) && from <= w < to
    ensures StoredTrades(fine, Ranged(fine, a, from, to), w) == StoredTrades(fine, a, w)
  {
    if a != [] {
      RangedWindow(fine, ms, Init(a), from, to, w);
      StoredStartExact(fine, ms, Last(a));
      InWindowSnoc(fine.window, Ranged(fine, Init(a), from, to), Last(a), w * NANOS_PER_MS);
    }
  }

  lemma RangedInput(fine: Config, coarse: Config, ms: int, k: int, a: seq<Trade>, from: int, to: int)
    requires RollupInput(fine, coarse, ms, k, a)
    ensures RollupInput(fine, coarse, ms, k, Ranged(fine, a, from, to))
  {
    RangedMembers(fine, a, from, to);
    RangedChronological(fine, a, from, to);
  }

  lemma RangedFinal(fine: Config, ms: int, a: seq<Trade>, log: seq<Emission>, arrivals: seq<Arrival>,
                    from: int, to: int, t: Trade)
    requires InMillis(fine, ms) && GoodLog(fine, a, log) && |log| == |arrivals| && Clocked(arrivals)
    requires t in a && from <= WindowMs(fine, t) < to
    requires ClosingDelivered(log, arrivals, WindowStart(fine.window, t))
    ensures Final(Slice(Store(log, arrivals), from, to), fine, Ranged(fine, a, from, to), WindowMs(fine, t))
  {
    DeliveredWindowIsFinal(fine, ms, a, log, arrivals, from, to, t);
    RangedWindow(fine, ms, a, from, to, WindowMs(fine, t));
  }

  /** For the trades in its range, a queried slice is complete in every rolled window, also one it cuts. */
  lemma CutSliceComplete(fine: Config, coarse: Config, ms: int, k: int, a: seq<Trade>, log: seq<Emission>,
                         arrivals: seq<Arrival>, from: int, to: int, rw: int)
    requires RollupInput(fine, coarse, ms, k, a)
    requires GoodLog(fine, a, log) && |log| == |arrivals| && Clocked(arrivals)
    requires ClosingsDelivered(fine, coarse, Ranged(fine, a, from, to), log, arrivals, rw)
    ensures Complete(Slice(Store(log, arrivals), from, to), fine, coarse, Ranged(fine, a, from, to), k * ms, rw)
  {
    var table, r := Slice(Store(log, arrivals), from, to), Ranged(fine, a, from, to);
    RangedMembers(fine, a, from, to);
    forall t | t in r && WindowMs(coarse, t) == rw
      ensures Final(table, fine, r, WindowMs(fine, t))
    {
      RangedFinal(fine, ms, a, log, arrivals, from, to, t);
    }
    forall key | key in table && StartOfInterval(key.window, k * ms) == rw
      ensures exists t :: t in r && WindowMs(fine, t) == key.window
    {
      StoredRowHasTrade(fine, ms, a, log, arrivals, key);
      var t :| t in a && WindowMs(fine, t) == key.window;
      assert t in r;
    }
  }

  /** For every range, also one that cuts a rolled window: the query returns the closing frame of a live
      aggregator of the long timeframe fed just the accepted trades of the short windows in the range. */
  lemma RollupOfAnyRange(fine: Config, coarse: Config, ms: int, k: int, es: seq<Event>, es': seq<Event>,
                         arrivals: seq<Arrival>, from: int, to: int, e: Emission)
    requires fine.Valid() && RollupData(fine, coarse, ms, k, AcceptedBy(fine, es))
    requires Trades(es') == Ranged(fine, AcceptedBy(fine, es), from, to)
    requires |arrivals| == |Published(fine, es)| && Clocked(arrivals)
    requires e in Published(coarse, es') && e.kind.Closing? && e.frame.Snapshot?
    requires ClosingsDelivered(fine, coarse, Trades(es'), Published(fine, es), arrivals, StoredStart(e.frame.window))
    ensures RollupAgrees(Slice(Store(Published(fine, es), arrivals), from, to), k * ms, StoredStart(e.frame.window), e)
  {
    var a, rw := AcceptedBy(fine, es), StoredStart(e.frame.window);
    AcceptedChronological(fine.window, Trades(es));
    RangedInput(fine, coarse, ms, k, a, from, to);
    ClosingFrameIsLive(fine, coarse, ms, k, Trades(es'), es', e);
    PublishedClosesAll(fine, es);
    CutSliceComplete(fine, coarse, ms, k, a, Published(fine, es), arrivals, from, to, rw);
    CompleteSliceAgrees(fine, coarse, ms, k, Trades(es'), Slice(Store(Published(fine, es), arrivals), from, to), rw, e);
  }

  // ---- Rows without candles ----------------------------------------------------------------------------

  /** Rows from before candles were stored read as zeros. */
  ghost predicate Legacy(rows: Table) {
    forall k :: k in rows ==> rows[k].ohlc == NO_OHLC
  }

  lemma SamePositive(s: set<int>, s': set<int>)
    requires forall x :: x > 0 ==> (x in s <==> x in s')
    ensures MaxIfPositive(s) == MaxIfPositive(s') && MinIfPositive(s) == MinIfPositive(s')
  {
    assert Positive(s) == Positive(s');
  }

  /** They change nothing of the candle of their window: neither open, high and low, nor which rows the close may
      come from. */
  lemma LegacyRowsIgnored(table: Table, legacy: Table, w: int)
    requires Legacy(legacy) && table.Keys !! legacy.Keys
    ensures WindowOhlc(table + legacy, w).open == WindowOhlc(table, w).open
    ensures WindowOhlc(table + legacy, w).high == WindowOhlc(table, w).high
    ensures WindowOhlc(table + legacy, w).low == WindowOhlc(table, w).low
    ensures forall k :: Newest(table + legacy, w, k) <==> Newest(table, w, k)
  {
    var both := table + legacy;
    var rows, all := RowsOfWindow(table, w), RowsOfWindow(both, w);
    assert forall k :: k in rows ==> k in all && both[k] == table[k];
    assert forall k :: k in all && k !in rows ==> both[k].ohlc == NO_OHLC;
    SamePositive(set k | k in all :: both[k].ohlc.open, set k | k in rows :: table[k].ohlc.open);
    SamePositive(set k | k in all :: both[k].ohlc.high, set k | k in rows :: table[k].ohlc.high);
    SamePositive(set k | k in all :: both[k].ohlc.low, set k | k in rows :: table[k].ohlc.low);
    SameNewest(table, legacy, w);
  }

  lemma SameNewest(table: Table, legacy: Table, w: int)
    requires Legacy(legacy) && table.Keys !! legacy.Keys
    ensures forall k :: Newest(table + legacy, w, k) <==> Newest(table, w, k)
  {
    var both := table + legacy;
    forall k
      ensures Newest(both, w, k) <==> Newest(table, w, k)
    {
      if Newest(both, w, k) {
        assert forall k' :: k' in table ==> k' in both && both[k'] == table[k'];
      }
      if Newest(table, w, k) {
        assert forall k' :: k' in both && both[k'].ohlc.close > 0 ==> k' in table && both[k'] == table[k'];
      }
    }
  }

  /** Some row of the window has an open, or a close. */
  ghost predicate HasOpen(table: Table, w: int) {
    exists k :: k in table && k.window == w && table[k].ohlc.open > 0
  }

  ghost predicate HasClose(table: Table, w: int) {
    exists k :: k in table && k.window == w && table[k].ohlc.close > 0
  }

  lemma OpenOfWindow(table: Table, w: int)
    ensures WindowOhlc(table, w).open > 0 <==> HasOpen(table, w)
    ensures WindowOhlc(table, w).close > 0 <==> HasClose(table, w)
  {
    var opens := set k | k in RowsOfWindow(table, w) :: table[k].ohlc.open;
    if HasOpen(table, w) {
      var k :| k in table && k.window == w && table[k].ohlc.open > 0;
      assert table[k].ohlc.open in Positive(opens);
    }
  }

  /** The rolled open is that of the first short window that has one; windows with none are passed over. */
  lemma RolledOpenMeaning(table: Table, interval: int, rw: int, w: int)
    requires interval > 0 && StartOfInterval(w, interval) == rw && HasOpen(table, w)
    requires forall w' :: w' < w && StartOfInterval(w', interval) == rw ==> !HasOpen(table, w')
    ensures RolledOhlc(table, interval, rw).open == WindowOhlc(table, w).open
  {
    forall w' ensures WindowOhlc(table, w').open > 0 <==> HasOpen(table, w') {
      OpenOfWindow(table, w');
    }
    var started := set w | w in SubWindows(table, interval, rw) && WindowOhlc(table, w).open > 0;
    assert w in started;
    assert Least(started) in started;
  }

  /** The rolled close is that of the last short window that has one. */
  lemma RolledCloseMeaning(table: Table, interval: int, rw: int, w: int)
    requires interval > 0 && StartOfInterval(w, interval) == rw && HasClose(table, w)
    requires forall w' :: w' > w && StartOfInterval(w', interval) == rw ==> !HasClose(table, w')
    ensures RolledOhlc(table, interval, rw).close == WindowOhlc(table, w).close
  {
    forall w' ensures WindowOhlc(table, w').close > 0 <==> HasClose(table, w') {
      OpenOfWindow(table, w');
    }
    var closed := set w | w in SubWindows(table, interval, rw) && WindowOhlc(table, w).close > 0;
    assert w in closed;
    assert Greatest(closed) in closed;
  }

  lemma LeastPositiveIs(s: set<int>, m: int)
    requires m in s && m > 0 && forall x :: x in s && x > 0 ==> m <= x
    ensures MinIfPositive(s) == m
  {
    assert m in Positive(s);
  }

  lemma NoPositive(s: set<int>)
    requires forall x :: x in s ==> x <= 0
    ensures MinIfPositive(s) == 0 && MaxIfPositive(s) == 0
  {
    assert Positive(s) == {};
  }

  /** The low of a window is its least positive one, 0 if it has none. */
  lemma WindowLow(table: Table, w: int)
    ensures WindowOhlc(table, w).low >= 0
    ensures forall k :: k in table && k.window == w && table[k].ohlc.low > 0 ==>
              0 < WindowOhlc(table, w).low <= table[k].ohlc.low
    ensures WindowOhlc(table, w).low > 0 ==>
              exists k :: k in table && k.window == w && table[k].ohlc.low == WindowOhlc(table, w).low
  {
    var lows := set k | k in RowsOfWindow(table, w) :: table[k].ohlc.low;
    forall k | k in table && k.window == w
      ensures table[k].ohlc.low in lows
    {
      assert k in RowsOfWindow(table, w);
    }
    if exists k :: k in table && k.window == w && table[k].ohlc.low > 0 {
      var k :| k in table && k.window == w && table[k].ohlc.low > 0;
      LowIsLeast(lows, table[k].ohlc.low);
      forall k' | k' in table && k'.window == w && table[k'].ohlc.low > 0
        ensures 0 < MinIfPositive(lows) <= table[k'].ohlc.low
      {
        LowIsLeast(lows, table[k'].ohlc.low);
      }
    } else {
      NoPositive(lows);
    }
  }

  lemma HighIsGreatest(s: set<int>, x: int)
    requires x in s && x > 0
    ensures MaxIfPositive(s) in s && x <= MaxIfPositive(s)
  {
    assert x in Positive(s);
  }

  /** Its open and high are the greatest positive ones. */
  lemma WindowOpenHigh(table: Table, w: int, k: Key)
    requires k in table && k.window == w
    ensures table[k].ohlc.open <= Max(WindowOhlc(table, w).open, 0)
    ensures table[k].ohlc.high <= Max(WindowOhlc(table, w).high, 0)
    ensures table[k].ohlc.open > 0 ==>
              exists k' :: k' in table && k'.window == w && table[k'].ohlc.open == WindowOhlc(table, w).open
    ensures table[k].ohlc.high > 0 ==>
              exists k' :: k' in table && k'.window == w && table[k'].ohlc.high == WindowOhlc(table, w).high
  {
    var opens := set k | k in RowsOfWindow(table, w) :: table[k].ohlc.open;
    var highs := set k | k in RowsOfWindow(table, w) :: table[k].ohlc.high;
    assert k in RowsOfWindow(table, w);
    assert table[k].ohlc.open in opens && table[k].ohlc.high in highs;
    if table[k].ohlc.open > 0 {
      HighIsGreatest(opens, table[k].ohlc.open);
    }
    if table[k].ohlc.high > 0 {
      HighIsGreatest(highs, table[k].ohlc.high);
    }
  }

  lemma LowIsLeast(s: set<int>, x: int)
    requires x in s && x > 0
    ensures MinIfPositive(s) in s && 0 < MinIfPositive(s) <= x
  {
    assert x in Positive(s);
  }

  /** The rolled low is the least positive low of any row: zeros do not count. */
  lemma RolledLowMeaning(table: Table, interval: int, rw: int, k: Key)
    requires interval > 0 && k in table && StartOfInterval(k.window, interval) == rw && table[k].ohlc.low > 0
    requires forall k' :: k' in table && StartOfInterval(k'.window, interval) == rw && table[k'].ohlc.low > 0 ==>
               table[k].ohlc.low <= table[k'].ohlc.low
    ensures RolledOhlc(table, interval, rw).low == table[k].ohlc.low
  {
    var lows := set w | w in SubWindows(table, interval, rw) :: WindowOhlc(table, w).low;
    forall w ensures WindowOhlc(table, w).low > 0 ==>
               exists k' :: k' in table && k'.window == w && table[k'].ohlc.low == WindowOhlc(table, w).low {
      WindowLow(table, w);
    }
    WindowLow(table, k.window);
    assert k.window in SubWindows(table, interval, rw);
    assert WindowOhlc(table, k.window).low == table[k].ohlc.low;
    LeastPositiveIs(lows, table[k].ohlc.low);
  }
}
