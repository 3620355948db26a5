/** Runs on which what the table tells goes wrong: by the insert clock, or by a lost partial snapshot. */
module FailingRuns {
  import opened Common
  import opened Footprint
  import opened Aggregator
  import opened AggregatorRun
  import opened AggregatorLog
  import opened Timeframes
  import opened ClusterTable
  import opened RangeQuery

  lemma RunSnoc(c: Config, es: seq<Event>, e: Event)
    requires c.Valid()
    ensures Run(c, es + [e]) == Advance(c, Run(c, es), e)
  {
    assert Init(es + [e]) == es;
  }

  /** The one-minute timeframe with price step 1 and a live diff every 100 ms. */
  const MINUTE := Config(1, 60_000 * NANOS_PER_MS, 100 * NANOS_PER_MS)

  const BUY_AT_5 := Trade(0, Bid, 5, 1)
  const BUY_AT_7 := Trade(1_000 * NANOS_PER_MS, Bid, 7, 1)
  const ONE_LOT := Bucket(1, 0, 1)
  const FIRST_PARTIAL := Snapshot(0, 1, map[5 := ONE_LOT], Ohlc(5, 5, 5, 5))
  const SECOND_PARTIAL := Snapshot(0, 2, map[7 := ONE_LOT], Ohlc(5, 7, 7, 5))
  const CLOSING := Snapshot(0, 3, map[5 := ONE_LOT, 7 := ONE_LOT], Ohlc(5, 7, 7, 5))

  function BuyThenPartial(c: Config, tr: Trace, t: Trade): Trace
    requires c.Valid()
  {
    Advance(c, Advance(c, tr, TradeArrived(t)), PartialTick)
  }

  lemma RunOfTwo(c: Config, t0: Trade, t1: Trade)
    requires c.Valid()
    ensures Run(c, [TradeArrived(t0), PartialTick, TradeArrived(t1), PartialTick])
            == BuyThenPartial(c, BuyThenPartial(c, Trace(INITIAL, []), t0), t1)
  {
    var e0, e1 := TradeArrived(t0), TradeArrived(t1);
    RunSnoc(c, [], e0);
    RunSnoc(c, [] + [e0], PartialTick);
    RunSnoc(c, [] + [e0] + [PartialTick], e1);
    RunSnoc(c, [] + [e0] + [PartialTick] + [e1], PartialTick);
    assert [e0, PartialTick, e1, PartialTick] == [] + [e0] + [PartialTick] + [e1] + [PartialTick];
  }

  /** In window 0, with nothing touched since the last partial snapshot. */
  lemma PartialOfOneTrade(c: Config, tr: Trace, t: Trade, trades: seq<Trade>)
    requires c.Valid() && WindowStart(c.window, t) == 0
    requires (tr.model.window == Some(0) || tr.model.window.None?) && tr.model.partialDirty == {}
    requires trades == tr.model.current + [t]
    ensures var after, next := BuyThenPartial(c, tr, t), tr.model.sequence + 1;
            && after.model.window == Some(0) && after.model.current == trades
            && after.model.partialDirty == {} && after.model.sequence == next
            && after.log == tr.log + [Emission(Partial, Snapshot(0, next, Select(Buckets(c.step, trades),
                                               {BucketPrice(c.step, t)}), OhlcOf(trades)), |trades|)]
  {
    assert {} + {BucketPrice(c.step, t)} == {BucketPrice(c.step, t)};
  }

  lemma FirstBuy(t0: Trade)
    requires t0 == BUY_AT_5
    ensures Buckets(1, [t0]) == map[5 := ONE_LOT] && OhlcOf([t0]) == Ohlc(5, 5, 5, 5)
  {
    assert [] + [t0] == [t0];
    BucketsSnoc(1, [], t0);
    OhlcSnoc([], t0);
  }

  lemma SecondBuy(t0: Trade, t1: Trade)
    requires t1 == BUY_AT_7
    requires Buckets(1, [t0]) == map[5 := ONE_LOT] && OhlcOf([t0]) == Ohlc(5, 5, 5, 5)
    ensures Buckets(1, [t0, t1]) == map[5 := ONE_LOT, 7 := ONE_LOT] && OhlcOf([t0, t1]) == Ohlc(5, 7, 7, 5)
  {
    assert [t0] + [t1] == [t0, t1];
    assert 7 !in Buckets(1, [t0]);
    UntouchedIsEmpty(1, [t0], 7);
    BucketsSnoc(1, [t0], t1);
    OhlcSnoc([t0], t1);
  }

  ghost predicate AfterFirst(tr: Trace, t0: Trade) {
    && tr.model.window == Some(0) && tr.model.current == [t0] && tr.model.partialDirty == {} && tr.model.sequence == 1
    && tr.log == [Emission(Partial, FIRST_PARTIAL, 1)]
  }

  ghost predicate AfterSecond(tr: Trace, t0: Trade, t1: Trade) {
    && tr.model.window == Some(0) && tr.model.current == [t0, t1] && tr.model.sequence == 2
    && tr.model.partialDirty == {}
    && tr.log == [Emission(Partial, FIRST_PARTIAL, 1), Emission(Partial, SECOND_PARTIAL, 2)]
  }

  lemma FirstPartial(c: Config, tr: Trace, t0: Trade)
    requires c == MINUTE && t0 == BUY_AT_5 && tr == Trace(INITIAL, [])
    ensures AfterFirst(BuyThenPartial(c, tr, t0), t0)
  {
    FirstBuy(t0);
    PartialOfOneTrade(c, tr, t0, [t0]);
    assert Select(map[5 := ONE_LOT], {5}) == map[5 := ONE_LOT];
  }

  lemma SecondPartial(c: Config, tr: Trace, t0: Trade, t1: Trade)
    requires c == MINUTE && t0 == BUY_AT_5 && t1 == BUY_AT_7 && AfterFirst(tr, t0)
    ensures AfterSecond(BuyThenPartial(c, tr, t1), t0, t1)
  {
    FirstBuy(t0);
    SecondBuy(t0, t1);
    PartialOfOneTrade(c, tr, t1, [t0, t1]);
    assert Select(map[5 := ONE_LOT, 7 := ONE_LOT], {7}) == map[7 := ONE_LOT];
  }

  /** Buy at 5, partial snapshot, a second later buy at 7, partial snapshot. */
  function TwoBuys(t0: Trade, t1: Trade): seq<Event> {
    [TradeArrived(t0), PartialTick, TradeArrived(t1), PartialTick]
  }

  lemma TwoPartials(c: Config, t0: Trade, t1: Trade)
    requires c == MINUTE && t0 == BUY_AT_5 && t1 == BUY_AT_7
    ensures AfterSecond(Run(c, TwoBuys(t0, t1)), t0, t1)
  {
    var start := Trace(INITIAL, []);
    RunOfTwo(c, t0, t1);
    FirstPartial(c, start, t0);
    SecondPartial(c, BuyThenPartial(c, start, t0), t0, t1);
  }

  /** The same run and the flush at its end. */
  lemma ThenClosing(c: Config, t0: Trade, t1: Trade)
    requires c == MINUTE && t0 == BUY_AT_5 && t1 == BUY_AT_7
    ensures Published(c, TwoBuys(t0, t1))
            == [Emission(Partial, FIRST_PARTIAL, 1), Emission(Partial, SECOND_PARTIAL, 2),
                Emission(Closing, CLOSING, 2)]
  {
    TwoPartials(c, t0, t1);
    FirstBuy(t0);
    SecondBuy(t0, t1);
  }

  // ---- What goes wrong ------------------------------------------------------------------------

  /** Of rows that all carry one insert time, one that only the first insert wrote may be taken as the
      newest. */
  lemma TiedRows(first: Table, second: Table, k: Key, at: int)
    requires k in first && k !in second && first[k].ohlc.close > 0
    requires forall l :: l in first ==> first[l].ingestedAt == at
    requires forall l :: l in second ==> second[l].ingestedAt == at
    ensures Newest(Merge(first, second), k.window, k) && Merge(first, second)[k] == first[k]
  {
  }

  lemma StoreOfTwo(log: seq<Emission>, arrivals: seq<Arrival>)
    requires |log| == |arrivals| == 2
    ensures Store(log, arrivals) == Merge(RowsOf(log[0].frame, arrivals[0]), RowsOf(log[1].frame, arrivals[1]))
  {
    var log1, arrivals1 := Init(log), Init(arrivals);
    assert log1[0] == log[0] && arrivals1[0] == arrivals[0];
    var rows := RowsOf(log[0].frame, arrivals[0]);
    assert Init(log1) == [] && Init(arrivals1) == [];
    assert Store(Init(log1), Init(arrivals1)) == map[];
    assert Store(log1, arrivals1) == Merge(map[], rows);
    assert Merge(map[], rows) == rows;
  }

  lemma FirstRows(frame: Frame, a: Arrival, at: int)
    requires frame == FIRST_PARTIAL && a == Arrival(map[5 := at])
    ensures RowsOf(frame, a) == map[Key(0, 5) := Row(ONE_LOT, Ohlc(5, 5, 5, 5), at)]
  {
  }

  lemma SecondRows(frame: Frame, a: Arrival, at: int)
    requires frame == SECOND_PARTIAL && a == Arrival(map[7 := at])
    ensures RowsOf(frame, a) == map[Key(0, 7) := Row(ONE_LOT, Ohlc(5, 7, 7, 5), at)]
  {
  }

  lemma TiedPartials(log: seq<Emission>, arrivals: seq<Arrival>, k: Key)
    requires log == [Emission(Partial, FIRST_PARTIAL, 1), Emission(Partial, SECOND_PARTIAL, 2)] && k == Key(0, 5)
    requires arrivals == [Arrival(map[5 := 0]), Arrival(map[7 := 0])]
    ensures Newest(Store(log, arrivals), k.window, k) && Store(log, arrivals)[k].ohlc == Ohlc(5, 5, 5, 5)
  {
    StoreOfTwo(log, arrivals);
    var first, second := RowsOf(log[0].frame, arrivals[0]), RowsOf(log[1].frame, arrivals[1]);
    FirstRows(log[0].frame, arrivals[0], 0);
    SecondRows(log[1].frame, arrivals[1], 0);
    TiedRows(first, second, k, 0);
  }

  lemma OneInsert(arrivals: seq<Arrival>)
    requires arrivals == [Arrival(map[5 := 0]), Arrival(map[7 := 0])]
    ensures Clocked(arrivals)
  {
  }

  /** The rows of both partial snapshots taken by one insert: they tie on the version, and then the engine
      may report the older close. */
  lemma TiedInsertTimesLoseTheClose(c: Config, t0: Trade, t1: Trade, arrivals: seq<Arrival>)
    requires c == MINUTE && t0 == BUY_AT_5 && t1 == BUY_AT_7
    requires arrivals == [Arrival(map[5 := 0]), Arrival(map[7 := 0])]
    ensures var log := Run(c, TwoBuys(t0, t1)).log;
            && |log| == 2 && Clocked(arrivals)
            && log[1].frame.Snapshot? && log[1].frame.ohlc.close == 7
            && Newest(Store(log, arrivals), 0, Key(0, 5)) && Store(log, arrivals)[Key(0, 5)].ohlc.close == 5
  {
    TwoPartials(c, t0, t1);
    OneInsert(arrivals);
    TiedPartials(Run(c, TwoBuys(t0, t1)).log, arrivals, Key(0, 5));
  }

  /** A row with a greater insert time outlives everything later frames write to its key. */
  lemma OvertakenRow(log: seq<Emission>, arrivals: seq<Arrival>, k: Key)
    requires |log| == |arrivals| == 3
    requires k in RowsOf(log[0].frame, arrivals[0])
    requires forall i :: 0 < i < 3 && Writes(log, arrivals, i, k) ==> At(log, arrivals, i, k) < At(log, arrivals, 0, k)
    ensures k in Store(log, arrivals) && Store(log, arrivals)[k] == RowsOf(log[0].frame, arrivals[0])[k]
  {
    assert Writes(log, arrivals, 0, k);
    WrittenIsStored(log, arrivals, 0, k);
    var i := NewestVersionWins(log, arrivals, k);
  }

  /** The closing snapshot inserted completely and last, but with the clock set back in between: the merge
      keeps the row of the first partial snapshot, with its old close and high. */
  lemma BackwardClockLosesTheClosing(c: Config, t0: Trade, t1: Trade, arrivals: seq<Arrival>)
    requires c == MINUTE && t0 == BUY_AT_5 && t1 == BUY_AT_7
    requires arrivals == [Arrival(map[5 := 10]), Arrival(map[]), Arrival(map[5 := 5, 7 := 5])]
    ensures var log := Published(c, TwoBuys(t0, t1));
            && |log| == 3 && log[2].kind.Closing? && Delivered(log, arrivals, 2)
            && log[2].frame.Snapshot? && log[2].frame.ohlc == Ohlc(5, 7, 7, 5)
            && Key(0, 5) in Store(log, arrivals) && Store(log, arrivals)[Key(0, 5)].ohlc == Ohlc(5, 5, 5, 5)
  {
    ThenClosing(c, t0, t1);
    var log := Published(c, TwoBuys(t0, t1));
    FirstRows(log[0].frame, arrivals[0], 10);
    OvertakenRow(log, arrivals, Key(0, 5));
  }

  /** The first partial snapshot lost, the second delivered: the bucket at 5 is not pending, and no later
      partial snapshot brings it unless it is traded again. */
  lemma NextDeltaLeavesTheHole(c: Config, t0: Trade, t1: Trade, arrivals: seq<Arrival>)
    requires c == MINUTE && t0 == BUY_AT_5 && t1 == BUY_AT_7
    requires arrivals == [Arrival(map[]), Arrival(map[7 := 0])]
    ensures var r := Run(c, TwoBuys(t0, t1));
            && |r.log| == 2 && Delivered(r.log, arrivals, 1)
            && 5 in Buckets(c.step, r.model.current) && 5 !in r.model.partialDirty
            && Key(0, 5) !in Store(r.log, arrivals)
  {
    TwoPartials(c, t0, t1);
    FirstBuy(t0);
    SecondBuy(t0, t1);
    NeverArrived(Run(c, TwoBuys(t0, t1)).log, arrivals, Key(0, 5));
  }

  lemma NeverArrived(log: seq<Emission>, arrivals: seq<Arrival>, k: Key)
    requires |log| == |arrivals| && forall i :: 0 <= i < |arrivals| ==> k.price !in arrivals[i].times
    ensures k !in Store(log, arrivals)
  {
    if k in Store(log, arrivals) {
      var i := NewestVersionWins(log, arrivals, k);
      assert false;
    }
  }
}
