/** Reading a base timeframe directly is right even for a window whose rows are of mixed age. */
module DirectRead {
  import opened Common
  import opened Footprint
  import opened Aggregator
  import opened AggregatorRun
  import opened AggregatorLog
  import opened Timeframes
  import opened ClusterTable
  import opened RangeQuery

  /** Frame `j` is the last one of which any row of window `w` reached the table. */
  ghost predicate LastDelivered(log: seq<Emission>, arrivals: seq<Arrival>, j: int, w: int)
    requires |log| == |arrivals|
  {
    && 0 <= j < |log|
    && (exists k: Key :: k.window == w && Writes(log, arrivals, j, k))
    && (forall i, k :: j < i < |log| && Writes(log, arrivals, i, k) ==> k.window != w)
  }

  lemma {:induction false} PricedPrefix(window: int, accepted: seq<Trade>, w: int, cut: nat)
    requires window > 0 && Priced(accepted) && 0 < cut <= |InWindow(window, accepted, w)|
    ensures var prefix := InWindow(window, accepted, w)[..cut];
            Priced(prefix) && IsOhlc(prefix, OhlcOf(prefix))
  {
    var prefix := InWindow(window, accepted, w)[..cut];
    InWindowMembers(window, accepted, w);
    assert forall t :: t in prefix ==> t in InWindow(window, accepted, w);
    assert prefix[0] in prefix;
    OhlcMeaning(prefix);
  }

  /** Within a window `open` never changes, `high` never falls and `low` never rises. */
  lemma OhlcOnlyWidens(all: seq<Trade>, a: nat, b: nat)
    requires 0 < a <= b <= |all|
    requires IsOhlc(all[..a], OhlcOf(all[..a])) && IsOhlc(all[..b], OhlcOf(all[..b]))
    ensures var x, y := OhlcOf(all[..a]), OhlcOf(all[..b]);
            x.open == y.open && x.high <= y.high && y.low <= x.low
  {
    var x := OhlcOf(all[..a]);
    var h :| h in all[..a] && h.price == x.high;
    var l :| l in all[..a] && l.price == x.low;
    assert h in all[..b] && l in all[..b];
  }

  /** What any surviving row of the window says, compared with the last delivered frame. */
  lemma SurvivingRow(c: Config, ms: int, accepted: seq<Trade>, log: seq<Emission>, arrivals: seq<Arrival>,
                     j: int, w: int, k: Key) returns (i: int)
    requires InMillis(c, ms) && GoodLog(c, accepted, log) && |log| == |arrivals| && Priced(accepted)
    requires Clocked(arrivals) && LastDelivered(log, arrivals, j, w)
    requires k in Store(log, arrivals) && k.window == w
    ensures 0 <= i <= j && LastWriter(log, arrivals, i, k)
    ensures Store(log, arrivals)[k].ohlc == log[i].frame.ohlc
    ensures Store(log, arrivals)[k].ingestedAt == At(log, arrivals, i, k)
    ensures var row, last := log[i].frame.ohlc, log[j].frame.ohlc;
            && 0 < row.open == last.open
            && 0 < row.high <= last.high
            && 0 < last.low <= row.low
            && 0 < row.close
  {
    i := LastWriteWins(log, arrivals, k);
    var k': Key :| k'.window == w && Writes(log, arrivals, j, k');
    FramesOfOneWindow(c, ms, accepted, log, arrivals, i, j, k, k');
    var all := InWindow(c.window, accepted, log[j].frame.window);
    PricedPrefix(c.window, accepted, log[j].frame.window, log[i].cut);
    PricedPrefix(c.window, accepted, log[j].frame.window, log[j].cut);
    OhlcOnlyWidens(all, log[i].cut, log[j].cut);
    PositiveOhlc(all[..log[i].cut]);
    PositiveOhlc(all[..log[j].cut]);
  }

  /** Two frames that write to one stored window are of one window, the later one knowing no less. */
  lemma FramesOfOneWindow(c: Config, ms: int, accepted: seq<Trade>, log: seq<Emission>, arrivals: seq<Arrival>,
                          i: int, j: int, k: Key, k': Key)
    requires InMillis(c, ms) && GoodLog(c, accepted, log) && |log| == |arrivals| && 0 <= i <= j < |log|
    requires Writes(log, arrivals, i, k) && Writes(log, arrivals, j, k') && k.window == k'.window
    ensures log[i].frame.window == log[j].frame.window && log[i].cut <= log[j].cut
    ensures Faithful(c, accepted, log[i]) && Faithful(c, accepted, log[j])
  {
    assert Faithful(c, accepted, log[i]) && Faithful(c, accepted, log[j]);
    SameStoredStart(c, ms, accepted, log[i], log[j]);
    assert i < j ==> InOrder(log[i], log[j]);
  }

  lemma PositiveOhlc(trades: seq<Trade>)
    requires trades != [] && Priced(trades) && IsOhlc(trades, OhlcOf(trades))
    ensures var o := OhlcOf(trades); o.open > 0 && o.close > 0 && o.high > 0 && o.low > 0
  {
    assert trades[0] in trades && Last(trades) in trades;
  }

  /** Every row the last delivered frame wrote is in the table. */
  lemma LastRowStored(log: seq<Emission>, arrivals: seq<Arrival>, j: int, w: int, k: Key)
    requires |log| == |arrivals| && Clocked(arrivals) && LastDelivered(log, arrivals, j, w)
    requires Writes(log, arrivals, j, k) && k.window == w
    ensures k in Store(log, arrivals) && LastWriter(log, arrivals, j, k)
    ensures Store(log, arrivals)[k].ohlc == log[j].frame.ohlc
    ensures Store(log, arrivals)[k].ingestedAt == At(log, arrivals, j, k)
  {
    WrittenIsStored(log, arrivals, j, k);
    var i := LastWriteWins(log, arrivals, k);
  }

  /** Open, high and low come out as in the last delivered frame, whatever frames were lost. */
  lemma OpenHighLowRead(c: Config, ms: int, accepted: seq<Trade>, log: seq<Emission>, arrivals: seq<Arrival>,
                        j: int, w: int, from: int, to: int)
    requires InMillis(c, ms) && GoodLog(c, accepted, log) && |log| == |arrivals| && Priced(accepted)
    requires Clocked(arrivals) && LastDelivered(log, arrivals, j, w) && from <= w < to
    ensures var read := WindowOhlc(Slice(Store(log, arrivals), from, to), w);
            var last := log[j].frame.ohlc;
            read.open == last.open && read.high == last.high && read.low == last.low
  {
    var table, last := Slice(Store(log, arrivals), from, to), log[j].frame.ohlc;
    var newest: Key :| newest.window == w && Writes(log, arrivals, j, newest);
    LastRowStored(log, arrivals, j, w, newest);
    var rows := RowsOfWindow(table, w);
    assert newest in rows;
    forall k | k in rows
      ensures table[k].ohlc.open == last.open > 0
      ensures table[k].ohlc.high <= last.high && last.low <= table[k].ohlc.low && last.high > 0 && last.low > 0
    {
      var i := SurvivingRow(c, ms, accepted, log, arrivals, j, w, k);
    }
    GreatestIs(set k | k in rows :: table[k].ohlc.open, last.open);
    GreatestIs(set k | k in rows :: table[k].ohlc.high, last.high);
    LeastIs(set k | k in rows :: table[k].ohlc.low, last.low);
  }

  // ---- The close -----------------------------------------------------------------------------

  /** Frame `i` wrote key `k` no earlier than any row of frame `j` was inserted. */
  ghost predicate TiesWith(log: seq<Emission>, arrivals: seq<Arrival>, i: int, j: int, k: Key)
    requires |log| == |arrivals| && 0 <= i < |log| && 0 <= j < |log| && Writes(log, arrivals, i, k)
  {
    forall k' :: Writes(log, arrivals, j, k') ==> At(log, arrivals, j, k') <= At(log, arrivals, i, k)
  }

  /** Surviving rows that share the latest insert time carry the same close. */
  ghost predicate TiesAgree(log: seq<Emission>, arrivals: seq<Arrival>, j: int, w: int)
    requires |log| == |arrivals| && LastDelivered(log, arrivals, j, w)
  {
    forall i, k: Key :: k.window == w && LastWriter(log, arrivals, i, k) && TiesWith(log, arrivals, i, j, k) ==>
      log[i].frame.ohlc.close == log[j].frame.ohlc.close
  }

  lemma NoLaterThanTied(log: seq<Emission>, arrivals: seq<Arrival>, i: int, j: int, j': int, w: int, k: Key, k': Key)
    requires |log| == |arrivals| && Clocked(arrivals) && LastDelivered(log, arrivals, j, w)
    requires 0 <= i < |log| && Writes(log, arrivals, i, k) && TiesWith(log, arrivals, i, j, k)
    requires 0 <= j' <= j && Writes(log, arrivals, j', k')
    ensures At(log, arrivals, j', k') <= At(log, arrivals, i, k)
  {
    if j' < j {
      var last: Key :| last.window == w && Writes(log, arrivals, j, last);
      assert At(log, arrivals, j', k') <= At(log, arrivals, j, last);
    }
  }

  /** The rows from which the query may take the close are those that tie with the last delivered frame. */
  lemma NewestMeansTied(c: Config, ms: int, accepted: seq<Trade>, log: seq<Emission>, arrivals: seq<Arrival>,
                        j: int, w: int, from: int, to: int, i: int, k: Key)
    requires InMillis(c, ms) && GoodLog(c, accepted, log) && |log| == |arrivals| && Priced(accepted)
    requires Clocked(arrivals) && LastDelivered(log, arrivals, j, w) && from <= w < to
    requires k.window == w && LastWriter(log, arrivals, i, k)
    ensures k in Store(log, arrivals) && Store(log, arrivals)[k].ohlc == log[i].frame.ohlc
    ensures Newest(Slice(Store(log, arrivals), from, to), w, k) <==> TiesWith(log, arrivals, i, j, k)
  {
    WrittenIsStored(log, arrivals, i, k);
    var i' := SurvivingRow(c, ms, accepted, log, arrivals, j, w, k);
    assert i' == i;
    if Newest(Slice(Store(log, arrivals), from, to), w, k) {
      NewestTies(c, ms, accepted, log, arrivals, j, w, from, to, i, k);
    }
    if TiesWith(log, arrivals, i, j, k) {
      TiedIsNewest(c, ms, accepted, log, arrivals, j, w, from, to, i, k);
    }
  }

  lemma NewestTies(c: Config, ms: int, accepted: seq<Trade>, log: seq<Emission>, arrivals: seq<Arrival>,
                   j: int, w: int, from: int, to: int, i: int, k: Key)
    requires InMillis(c, ms) && GoodLog(c, accepted, log) && |log| == |arrivals| && Priced(accepted)
    requires Clocked(arrivals) && LastDelivered(log, arrivals, j, w) && from <= w < to
    requires 0 <= i < |log| && Writes(log, arrivals, i, k) && k in Store(log, arrivals)
    requires Store(log, arrivals)[k].ingestedAt == At(log, arrivals, i, k)
    requires Newest(Slice(Store(log, arrivals), from, to), w, k)
    ensures TiesWith(log, arrivals, i, j, k)
  {
    forall k' | Writes(log, arrivals, j, k')
      ensures At(log, arrivals, j, k') <= At(log, arrivals, i, k)
    {
      LastRowStored(log, arrivals, j, w, k');
      var j' := SurvivingRow(c, ms, accepted, log, arrivals, j, w, k');
      assert k' in Slice(Store(log, arrivals), from, to);
    }
  }

  lemma TiedIsNewest(c: Config, ms: int, accepted: seq<Trade>, log: seq<Emission>, arrivals: seq<Arrival>,
                     j: int, w: int, from: int, to: int, i: int, k: Key)
    requires InMillis(c, ms) && GoodLog(c, accepted, log) && |log| == |arrivals| && Priced(accepted)
    requires Clocked(arrivals) && LastDelivered(log, arrivals, j, w) && from <= w < to
    requires 0 <= i < |log| && Writes(log, arrivals, i, k) && k in Store(log, arrivals) && k.window == w
    requires Store(log, arrivals)[k].ingestedAt == At(log, arrivals, i, k) && Store(log, arrivals)[k].ohlc.close > 0
    requires TiesWith(log, arrivals, i, j, k)
    ensures Newest(Slice(Store(log, arrivals), from, to), w, k)
  {
    var table := Slice(Store(log, arrivals), from, to);
    forall k' | k' in table && k'.window == w
      ensures table[k'].ingestedAt <= table[k].ingestedAt
    {
      var j' := SurvivingRow(c, ms, accepted, log, arrivals, j, w, k');
      NoLaterThanTied(log, arrivals, i, j, j', w, k, k');
    }
  }

  /** Whichever of the newest rows the engine picks, it reads this close. */
  ghost predicate ReadsClose(table: Table, w: int, close: int) {
    forall k :: Newest(table, w, k) ==> table[k].ohlc.close == close
  }

  /** The close read is that of the last delivered frame, whichever row the engine picks, exactly when the
      surviving rows that tie on the latest insert time agree on it. */
  lemma CloseReadExact(c: Config, ms: int, accepted: seq<Trade>, log: seq<Emission>, arrivals: seq<Arrival>,
                       j: int, w: int, from: int, to: int)
    requires InMillis(c, ms) && GoodLog(c, accepted, log) && |log| == |arrivals| && Priced(accepted)
    requires Clocked(arrivals) && LastDelivered(log, arrivals, j, w) && from <= w < to
    ensures ReadsClose(Slice(Store(log, arrivals), from, to), w, log[j].frame.ohlc.close)
            <==> TiesAgree(log, arrivals, j, w)
  {
    if TiesAgree(log, arrivals, j, w) {
      AgreeingTiesReadClose(c, ms, accepted, log, arrivals, j, w, from, to);
    }
    if ReadsClose(Slice(Store(log, arrivals), from, to), w, log[j].frame.ohlc.close) {
      ReadCloseTiesAgree(c, ms, accepted, log, arrivals, j, w, from, to);
    }
  }

  lemma AgreeingTiesReadClose(c: Config, ms: int, accepted: seq<Trade>, log: seq<Emission>, arrivals: seq<Arrival>,
                              j: int, w: int, from: int, to: int)
    requires InMillis(c, ms) && GoodLog(c, accepted, log) && |log| == |arrivals| && Priced(accepted)
    requires Clocked(arrivals) && LastDelivered(log, arrivals, j, w) && from <= w < to
    requires TiesAgree(log, arrivals, j, w)
    ensures ReadsClose(Slice(Store(log, arrivals), from, to), w, log[j].frame.ohlc.close)
  {
    var table := Slice(Store(log, arrivals), from, to);
    forall k | Newest(table, w, k)
      ensures table[k].ohlc.close == log[j].frame.ohlc.close
    {
      var i := SurvivingRow(c, ms, accepted, log, arrivals, j, w, k);
      NewestMeansTied(c, ms, accepted, log, arrivals, j, w, from, to, i, k);
    }
  }

  lemma ReadCloseTiesAgree(c: Config, ms: int, accepted: seq<Trade>, log: seq<Emission>, arrivals: seq<Arrival>,
                           j: int, w: int, from: int, to: int)
    requires InMillis(c, ms) && GoodLog(c, accepted, log) && |log| == |arrivals| && Priced(accepted)
    requires Clocked(arrivals) && LastDelivered(log, arrivals, j, w) && from <= w < to
    requires ReadsClose(Slice(Store(log, arrivals), from, to), w, log[j].frame.ohlc.close)
    ensures TiesAgree(log, arrivals, j, w)
  {
    forall i, k: Key | k.window == w && LastWriter(log, arrivals, i, k) && TiesWith(log, arrivals, i, j, k)
      ensures log[i].frame.ohlc.close == log[j].frame.ohlc.close
    {
      NewestMeansTied(c, ms, accepted, log, arrivals, j, w, from, to, i, k);
    }
  }

  /** Then the direct read returns exactly that frame's OHLC, however old the other rows are. */
  lemma OpenWindowRead(c: Config, ms: int, accepted: seq<Trade>, log: seq<Emission>, arrivals: seq<Arrival>,
                       j: int, w: int, from: int, to: int)
    requires InMillis(c, ms) && GoodLog(c, accepted, log) && |log| == |arrivals| && Priced(accepted)
    requires Clocked(arrivals) && LastDelivered(log, arrivals, j, w) && from <= w < to
    requires TiesAgree(log, arrivals, j, w)
    ensures WindowOhlc(Slice(Store(log, arrivals), from, to), w) == log[j].frame.ohlc
  {
    var table := Slice(Store(log, arrivals), from, to);
    OpenHighLowRead(c, ms, accepted, log, arrivals, j, w, from, to);
    CloseReadExact(c, ms, accepted, log, arrivals, j, w, from, to);
    var newest: Key :| newest.window == w && Writes(log, arrivals, j, newest);
    LastRowStored(log, arrivals, j, w, newest);
    var i := SurvivingRow(c, ms, accepted, log, arrivals, j, w, newest);
    assert newest in table && table[newest].ohlc.close > 0;
    HasNewest(table, w);
  }

  /** Some row of frame `j` was inserted later than every row of the window from earlier frames. */
  ghost predicate StrictlyLast(log: seq<Emission>, arrivals: seq<Arrival>, j: int, w: int)
    requires |log| == |arrivals| && 0 <= j < |log|
  {
    forall i, k :: 0 <= i < j && Writes(log, arrivals, i, k) && k.window == w ==>
      exists k' :: Writes(log, arrivals, j, k') && At(log, arrivals, i, k) < At(log, arrivals, j, k')
  }

  /** Distinct insert times are enough: frames a second apart do not tie unless one insert takes both. */
  lemma StrictIsEnough(log: seq<Emission>, arrivals: seq<Arrival>, j: int, w: int)
    requires |log| == |arrivals| && LastDelivered(log, arrivals, j, w) && StrictlyLast(log, arrivals, j, w)
    ensures TiesAgree(log, arrivals, j, w)
  {
    forall i, k: Key | k.window == w && LastWriter(log, arrivals, i, k) && TiesWith(log, arrivals, i, j, k)
      ensures i == j
    {
      if i < j {
        assert false;
      }
    }
  }

  /** A window all of whose rows agree is read as they say, with no assumption on the clock. */
  lemma UniformWindowRead(table: Table, w: int, o: Ohlc, witness_: Key)
    requires witness_ in table && witness_.window == w
    requires forall k :: k in table && k.window == w ==> table[k].ohlc == o
    requires o.open > 0 && o.close > 0 && o.high > 0 && o.low > 0
    ensures WindowOhlc(table, w) == o
  {
    var rows := RowsOfWindow(table, w);
    assert witness_ in rows;
    GreatestIs(set k | k in rows :: table[k].ohlc.open, o.open);
    GreatestIs(set k | k in rows :: table[k].ohlc.high, o.high);
    LeastIs(set k | k in rows :: table[k].ohlc.low, o.low);
  }
}
