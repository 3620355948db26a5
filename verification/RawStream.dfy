/** Two aggregators on one raw stream: the rollup of the short one's rows against the long one. */
module RawStream {
  import opened Common
  import opened Footprint
  import opened Aggregator
  import opened AggregatorRun
  import opened AggregatorLog
  import opened Timeframes
  import opened ClusterTable
  import opened RangeQuery
  import opened Rollup

  /** No trade that the long timeframe accepts into window `w` is late for the short one. */
  ghost predicate NoneDropped(fine: Config, coarse: Config, ts: seq<Trade>, w: int)
    requires fine.Valid() && coarse.Valid()
  {
    forall i :: 0 <= i < |ts| && DroppedAt(fine, coarse, ts, i) ==> WindowStart(coarse.window, ts[i]) != w
  }

  /** Trade `i` is on time for the long timeframe and late for the short one. */
  predicate DroppedAt(fine: Config, coarse: Config, ts: seq<Trade>, i: int)
    requires fine.Valid() && coarse.Valid() && 0 <= i < |ts|
  {
    OnTime(coarse.window, ts[..i], ts[i]) && !OnTime(fine.window, ts[..i], ts[i])
  }

  lemma NoneDroppedInit(fine: Config, coarse: Config, ts: seq<Trade>, w: int)
    requires fine.Valid() && coarse.Valid() && ts != []
    ensures var n := |ts| - 1;
            NoneDropped(fine, coarse, ts, w)
            <==> NoneDropped(fine, coarse, Init(ts), w)
                 && (DroppedAt(fine, coarse, ts, n) ==> WindowStart(coarse.window, ts[n]) != w)
  {
    forall i | 0 <= i < |ts| - 1
      ensures DroppedAt(fine, coarse, ts, i) <==> DroppedAt(fine, coarse, Init(ts), i)
    {
      assert Init(ts)[..i] == ts[..i] && Init(ts)[i] == ts[i];
    }
    if NoneDropped(fine, coarse, ts, w) {
      forall i | 0 <= i < |Init(ts)| && DroppedAt(fine, coarse, Init(ts), i)
        ensures WindowStart(coarse.window, Init(ts)[i]) != w
      {
        assert DroppedAt(fine, coarse, ts, i);
      }
    }
  }

  /** What the rollup has of window `w`, and what the long aggregator has. */
  function Rolled(fine: Config, coarse: Config, ts: seq<Trade>, w: int): seq<Trade>
    requires fine.Valid() && coarse.Valid()
  {
    InWindow(coarse.window, Accepted(fine.window, ts), w)
  }

  function Live(coarse: Config, ts: seq<Trade>, w: int): seq<Trade>
    requires coarse.Valid()
  {
    InWindow(coarse.window, Accepted(coarse.window, ts), w)
  }

  /** They are the same trades exactly if none was dropped, and the rollup never has more. */
  lemma {:induction false} SameTrades(fine: Config, coarse: Config, ms: int, k: int, ts: seq<Trade>, w: int)
    requires Nested(fine, coarse, ms, k)
    ensures |Rolled(fine, coarse, ts, w)| <= |Live(coarse, ts, w)|
    ensures Rolled(fine, coarse, ts, w) == Live(coarse, ts, w) <==> NoneDropped(fine, coarse, ts, w)
  {
    if ts != [] {
      SameTrades(fine, coarse, ms, k, Init(ts), w);
      NoneDroppedInit(fine, coarse, ts, w);
      NextTrade(fine, coarse, ms, k, ts, w);
      SameAppended(Rolled(fine, coarse, Init(ts), w), Live(coarse, Init(ts), w), Last(ts));
      assert ts[|ts| - 1] == Last(ts) && ts[..|ts| - 1] == Init(ts);
    }
  }

  lemma SameAppended(x: seq<Trade>, y: seq<Trade>, t: Trade)
    ensures x + [t] == y + [t] <==> x == y
  {
    assert (x + [t])[..|x|] == x && (y + [t])[..|y|] == y;
  }

  /** The last trade goes into both, into the long aggregator alone, or into neither. */
  lemma NextTrade(fine: Config, coarse: Config, ms: int, k: int, ts: seq<Trade>, w: int)
    requires Nested(fine, coarse, ms, k) && ts != []
    ensures var n, t := |ts| - 1, Last(ts);
            var here := WindowStart(coarse.window, t) == w && OnTime(coarse.window, Init(ts), t);
            && Live(coarse, ts, w) == (if here then Live(coarse, Init(ts), w) + [t] else Live(coarse, Init(ts), w))
            && Rolled(fine, coarse, ts, w)
               == (if here && !DroppedAt(fine, coarse, ts, n) then Rolled(fine, coarse, Init(ts), w) + [t]
                   else Rolled(fine, coarse, Init(ts), w))
  {
    var t := Last(ts);
    assert ts[..|ts| - 1] == Init(ts);
    InWindowSnoc(coarse.window, Accepted(coarse.window, Init(ts)), t, w);
    InWindowSnoc(coarse.window, Accepted(fine.window, Init(ts)), t, w);
    if OnTime(fine.window, Init(ts), t) {
      CoarseAcceptsMore(fine, coarse, ms, k, Init(ts), t);
    }
  }

  /** The rollup counts no more trades of any price, and a dropped one is missing from its bucket. */
  lemma {:induction false} FewerTrades(fine: Config, coarse: Config, ms: int, k: int, ts: seq<Trade>, w: int, p: int)
    requires Nested(fine, coarse, ms, k)
    ensures Total(coarse.step, TradeCount, Rolled(fine, coarse, ts, w), p)
            <= Total(coarse.step, TradeCount, Live(coarse, ts, w), p)
  {
    if ts != [] {
      FewerTrades(fine, coarse, ms, k, Init(ts), w, p);
      NextTrade(fine, coarse, ms, k, ts, w);
      TotalSnoc(coarse.step, TradeCount, Live(coarse, Init(ts), w), Last(ts), p);
      TotalSnoc(coarse.step, TradeCount, Rolled(fine, coarse, Init(ts), w), Last(ts), p);
    }
  }

  lemma {:induction false} DroppedIsMissing(fine: Config, coarse: Config, ms: int, k: int, ts: seq<Trade>, w: int)
    returns (p: int)
    requires Nested(fine, coarse, ms, k) && !NoneDropped(fine, coarse, ts, w)
    ensures p in Buckets(coarse.step, Live(coarse, ts, w))
    ensures Total(coarse.step, TradeCount, Rolled(fine, coarse, ts, w), p)
            < Total(coarse.step, TradeCount, Live(coarse, ts, w), p)
  {
    var t := Last(ts);
    NoneDroppedInit(fine, coarse, ts, w);
    NextTrade(fine, coarse, ms, k, ts, w);
    if NoneDropped(fine, coarse, Init(ts), w) {
      p := BucketPrice(coarse.step, t);
      FewerTrades(fine, coarse, ms, k, Init(ts), w, p);
      TouchedSnoc(coarse.step, Live(coarse, Init(ts), w), t);
    } else {
      p := DroppedIsMissing(fine, coarse, ms, k, Init(ts), w);
      TouchedSnoc(coarse.step, Live(coarse, Init(ts), w), t);
    }
    TotalSnoc(coarse.step, TradeCount, Live(coarse, Init(ts), w), t, p);
    TotalSnoc(coarse.step, TradeCount, Rolled(fine, coarse, Init(ts), w), t, p);
  }

  lemma {:induction false} AcceptedFromStream(window: int, ts: seq<Trade>)
    requires window > 0
    ensures forall t :: t in Accepted(window, ts) ==> t in ts
  {
    if ts != [] {
      AcceptedFromStream(window, Init(ts));
      assert ts == Init(ts) + [Last(ts)];
    }
  }

  lemma {:induction false} CountsFit(step: int, trades: seq<Trade>, p: int)
    requires step > 0
    ensures 0 <= Total(step, TradeCount, trades, p) <= |trades|
  {
    if trades != [] {
      CountsFit(step, Init(trades), p);
    }
  }

  /** The closing frame of the long aggregator tells its own accepted trades. */
  lemma RawClosingFrame(coarse: Config, ms: int, es': seq<Event>, e: Emission)
    requires InMillis(coarse, ms) && e in Published(coarse, es') && e.kind.Closing?
    ensures var live := Live(coarse, Trades(es'), e.frame.window);
            && StoredStart(e.frame.window) * NANOS_PER_MS == e.frame.window
            && live != [] && e.frame.Snapshot?
            && e.frame.clusters == Buckets(coarse.step, live) && e.frame.ohlc == OhlcOf(live)
  {
    PublishedClosesAll(coarse, es');
    assert Faithful(coarse, AcceptedBy(coarse, es'), e);
    StoredStartOf(coarse, ms, AcceptedBy(coarse, es'), e);
    var all := Live(coarse, Trades(es'), e.frame.window);
    assert all[..|all|] == all;
  }

  /** The table of the short timeframe, as queried for one long window. */
  lemma RawSlice(fine: Config, coarse: Config, ms: int, k: int, es: seq<Event>, arrivals: seq<Arrival>,
                 from: int, to: int, rw: int)
    requires fine.Valid() && RollupData(fine, coarse, ms, k, Trades(es))
    requires |arrivals| == |Published(fine, es)| && Clocked(arrivals)
    requires ClosingsDelivered(fine, coarse, AcceptedBy(fine, es), Published(fine, es), arrivals, rw)
    requires from <= rw && rw + k * ms <= to
    ensures RollupInput(fine, coarse, ms, k, AcceptedBy(fine, es))
    ensures Complete(Slice(Store(Published(fine, es), arrivals), from, to), fine, coarse, AcceptedBy(fine, es),
                     k * ms, rw)
  {
    AcceptedFromStream(fine.window, Trades(es));
    AcceptedChronological(fine.window, Trades(es));
    PublishedClosesAll(fine, es);
    StoredSliceComplete(fine, coarse, ms, k, AcceptedBy(fine, es), Published(fine, es), arrivals, from, to, rw);
  }

  /** A trade dropped by the short aggregator alone shows in the rollup. */
  lemma DroppedShows(fine: Config, coarse: Config, ms: int, k: int, ts: seq<Trade>, table: Table, rw: int, e: Emission)
    requires Nested(fine, coarse, ms, k) && RollupInput(fine, coarse, ms, k, Accepted(fine.window, ts))
    requires NonNegative(ts)
    requires Complete(table, fine, coarse, Accepted(fine.window, ts), k * ms, rw)
    requires e.frame.Snapshot? && e.frame.window == rw * NANOS_PER_MS
    requires e.frame.clusters == Buckets(coarse.step, Live(coarse, ts, e.frame.window))
    requires |Live(coarse, ts, e.frame.window)| <= U32_MAX && !NoneDropped(fine, coarse, ts, e.frame.window)
    ensures !RollupAgrees(table, k * ms, rw, e)
  {
    var w, a := e.frame.window, Accepted(fine.window, ts);
    var p := DroppedIsMissing(fine, coarse, ms, k, ts, w);
    CompleteCells(fine, coarse, ms, k, a, table, rw, p);
    RolledSumIsLive(fine, coarse, ms, k, a, table, rw, TradeCount, p);
    CountsFit(coarse.step, Live(coarse, ts, w), p);
    TradesNonNegative(coarse, Accepted(coarse.window, ts), ts, w);
    TradesNonNegative(coarse, a, ts, w);
    TallyIsCappedTotal(coarse.step, TradeCount, Live(coarse, ts, w), p);
    TallyIsCappedTotal(coarse.step, TradeCount, Rolled(fine, coarse, ts, w), p);
    assert TradeCount.Of(e.frame.clusters[p]) != Min(RolledSum(table, TradeCount, k * ms, rw, p), TradeCount.Ceiling());
  }

  lemma TradesNonNegative(coarse: Config, accepted: seq<Trade>, ts: seq<Trade>, w: int)
    requires coarse.Valid() && NonNegative(ts)
    requires exists window :: window > 0 && accepted == Accepted(window, ts)
    ensures NonNegative(InWindow(coarse.window, accepted, w))
  {
    var window :| window > 0 && accepted == Accepted(window, ts);
    AcceptedFromStream(window, ts);
    InWindowMembers(coarse.window, accepted, w);
  }

  /** Both aggregators on one raw stream, under any interleaving of their timers: the rollup of the short one's
      rows is the closing frame of the long one if no trade of the window is late for the short one alone, and,
      as long as the trade counters cannot saturate, only then. */
  lemma RollupOfRawStream(fine: Config, coarse: Config, ms: int, k: int, es: seq<Event>, es': seq<Event>,
                          arrivals: seq<Arrival>, from: int, to: int, e: Emission)
    requires fine.Valid() && RollupData(fine, coarse, ms, k, Trades(es)) && Trades(es') == Trades(es)
    requires |arrivals| == |Published(fine, es)| && Clocked(arrivals)
    requires e in Published(coarse, es') && e.kind.Closing? && e.frame.Snapshot?
    requires ClosingsDelivered(fine, coarse, AcceptedBy(fine, es), Published(fine, es), arrivals,
                               StoredStart(e.frame.window))
    requires from <= StoredStart(e.frame.window) && StoredStart(e.frame.window) + k * ms <= to
    ensures var agrees := RollupAgrees(Slice(Store(Published(fine, es), arrivals), from, to), k * ms,
                                       StoredStart(e.frame.window), e);
            && (NoneDropped(fine, coarse, Trades(es), e.frame.window) ==> agrees)
            && (|Live(coarse, Trades(es), e.frame.window)| <= U32_MAX ==>
                  (agrees <==> NoneDropped(fine, coarse, Trades(es), e.frame.window)))
  {
    var ts, w, rw := Trades(es), e.frame.window, StoredStart(e.frame.window);
    var table := Slice(Store(Published(fine, es), arrivals), from, to);
    CoarseInMillis(fine, coarse, ms, k);
    RawClosingFrame(coarse, k * ms, es', e);
    RawSlice(fine, coarse, ms, k, es, arrivals, from, to, rw);
    if NoneDropped(fine, coarse, ts, w) {
      SameTrades(fine, coarse, ms, k, ts, w);
      CompleteSliceAgrees(fine, coarse, ms, k, AcceptedBy(fine, es), table, rw, e);
    } else if |Live(coarse, ts, w)| <= U32_MAX {
      DroppedShows(fine, coarse, ms, k, ts, table, rw, e);
    }
  }

  /** A trade of the first minute arriving after one of the second: late for the one-minute timeframe, on time
      for the five-minute one. */
  lemma LateForTheMinuteOnly(fine: Config, coarse: Config, ts: seq<Trade>)
    requires fine == Config(1, 60_000 * NANOS_PER_MS, 100 * NANOS_PER_MS)
    requires coarse == Config(1, 300_000 * NANOS_PER_MS, 100 * NANOS_PER_MS)
    requires ts == [Trade(70_000 * NANOS_PER_MS, Bid, 5, 1), Trade(30_000 * NANOS_PER_MS, Bid, 7, 1)]
    ensures Nested(fine, coarse, 60_000, 5) && !NoneDropped(fine, coarse, ts, 0)
  {
    assert ts[..1] == [ts[0]];
    assert DroppedAt(fine, coarse, ts, 1);
  }
}
