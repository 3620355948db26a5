/** The candle of a long timeframe while its last minute is still open. */
module LiveRollup {
  import opened Common
  import opened Footprint
  import opened Aggregator
  import opened AggregatorRun
  import opened AggregatorLog
  import opened Timeframes
  import opened ClusterTable
  import opened RangeQuery
  import opened DirectRead
  import opened OpenWindow
  import opened Rollup

  /** How many trades of the open window the table knows for its OHLC: none if no row of it arrived, else
      those of the last delivered frame, provided ties on the insert time agree. */
  ghost predicate Knows(log: seq<Emission>, arrivals: seq<Arrival>, w: int, cut: nat)
    requires |log| == |arrivals|
  {
    || (cut == 0 && forall i, k: Key :: 0 <= i < |log| && Writes(log, arrivals, i, k) ==> k.window != w)
    || (exists j :: LastDelivered(log, arrivals, j, w) && TiesAgree(log, arrivals, j, w) && cut == log[j].cut)
  }

  /** The accepted trades of the closed windows and the first `cut` of the open one. */
  function Seen(c: Config, es: seq<Event>, cut: nat): seq<Trade>
    requires c.Valid()
  {
    var r := Run(c, es);
    ClosedTrades(c, AcceptedBy(c, es), r.log) + if cut <= |r.model.current| then r.model.current[..cut] else []
  }

  lemma {:induction false} InWindowConcat(window: int, x: seq<Trade>, y: seq<Trade>, w: int)
    requires window > 0
    ensures InWindow(window, x + y, w) == InWindow(window, x, w) + InWindow(window, y, w)
    decreases |y|
  {
    if y == [] {
      assert x + y == x;
    } else {
      InWindowConcat(window, x, Init(y), w);
      assert Init(x + y) == x + Init(y) && Last(x + y) == Last(y);
    }
  }

  lemma {:induction false} AllInWindow(window: int, y: seq<Trade>, w: int, w': int)
    requires window > 0 && forall t :: t in y ==> WindowStart(window, t) == w
    ensures InWindow(window, y, w') == if w' == w then y else []
  {
    if y != [] {
      assert Last(y) in y && forall t :: t in Init(y) ==> t in y;
      AllInWindow(window, Init(y), w, w');
      assert Init(y) + [Last(y)] == y;
    }
  }

  /** Cutting the open window short leaves the other windows as they are. */
  lemma SeenWindows(c: Config, es: seq<Event>, cut: nat, w: int)
    requires c.Valid() && Run(c, es).model.window.Some? && cut <= |Run(c, es).model.current|
    ensures var m, a := Run(c, es).model, AcceptedBy(c, es);
            && m.current == InWindow(c.window, a, m.window.value)
            && Seen(c, es, cut) <= a
            && InWindow(c.window, Seen(c, es, cut), w)
               == if w == m.window.value then m.current[..cut] else InWindow(c.window, a, w)
  {
    var m, a := Run(c, es).model, AcceptedBy(c, es);
    ReachableState(c, es);
    AcceptedTradesConserved(c, es);
    assert m.current == m.current[..cut] + m.current[cut..];
    InWindowMembers(c.window, a, m.window.value);
    CutWindow(c.window, a, Seen(c, es, cut), m.current, cut, m.window.value, w);
  }

  /** Taking trades of one window off the end of a stream leaves the other windows as they are. */
  lemma CutWindow(window: int, a: seq<Trade>, seen: seq<Trade>, current: seq<Trade>, cut: nat, w': int, w: int)
    requires window > 0 && cut <= |current| && a == seen + current[cut..]
    requires current == InWindow(window, a, w') && forall t :: t in current ==> WindowStart(window, t) == w'
    ensures seen <= a
    ensures InWindow(window, seen, w) == if w == w' then current[..cut] else InWindow(window, a, w)
  {
    var rest := current[cut..];
    assert forall t :: t in rest ==> t in current;
    AllInWindow(window, rest, w', w);
    InWindowConcat(window, seen, rest, w);
    if w == w' {
      assert current == InWindow(window, seen, w) + rest;
      assert |InWindow(window, seen, w)| == cut;
    } else {
      assert InWindow(window, seen, w) + [] == InWindow(window, seen, w);
    }
  }

  /** The frame's cut is within the open window, and its OHLC that of the trades up to there. */
  lemma OpenFrame(c: Config, ms: int, es: seq<Event>, arrivals: seq<Arrival>, j: int)
    requires InMillis(c, ms) && Run(c, es).model.window.Some? && |arrivals| == |Run(c, es).log|
    requires LastDelivered(Run(c, es).log, arrivals, j, StoredStart(Run(c, es).model.window.value))
    ensures var m, e := Run(c, es).model, Run(c, es).log[j];
            && 0 < e.cut <= |m.current| && e.frame.Snapshot? && e.frame.ohlc == OhlcOf(m.current[..e.cut])
  {
    var m, log := Run(c, es).model, Run(c, es).log;
    ReachableState(c, es);
    LogFacts(c, es);
    OpenWindowStart(c, ms, es);
    assert Faithful(c, AcceptedBy(c, es), log[j]);
    StoredStartOf(c, ms, AcceptedBy(c, es), log[j]);
    assert log[j].frame.window == m.window.value;
  }

  lemma OpenFrameRead(c: Config, ms: int, es: seq<Event>, arrivals: seq<Arrival>, j: int, w: int, from: int, to: int)
    requires InMillis(c, ms) && Run(c, es).model.window.Some? && |arrivals| == |Run(c, es).log|
    requires Clocked(arrivals) && Priced(AcceptedBy(c, es))
    requires w == StoredStart(Run(c, es).model.window.value) && from <= w < to
    requires LastDelivered(Run(c, es).log, arrivals, j, w) && TiesAgree(Run(c, es).log, arrivals, j, w)
    ensures var table := Slice(Store(Run(c, es).log, arrivals), from, to);
            && (exists k: Key :: k in table && k.window == w)
            && WindowOhlc(table, w) == Run(c, es).log[j].frame.ohlc
  {
    var log := Run(c, es).log;
    LogFacts(c, es);
    OpenWindowRead(c, ms, AcceptedBy(c, es), log, arrivals, j, w, from, to);
    var k: Key :| k.window == w && Writes(log, arrivals, j, k);
    WrittenIsStored(log, arrivals, j, k);
    assert k in Slice(Store(log, arrivals), from, to);
  }

  lemma SeenOpen(c: Config, ms: int, es: seq<Event>, cut: nat, w: int)
    requires InMillis(c, ms) && Run(c, es).model.window.Some? && cut <= |Run(c, es).model.current|
    requires w == StoredStart(Run(c, es).model.window.value)
    ensures StoredTrades(c, Seen(c, es, cut), w) == Run(c, es).model.current[..cut]
  {
    OpenWindowStart(c, ms, es);
    SeenWindows(c, es, cut, Run(c, es).model.window.value);
  }

  /** The open window as the table reads it. */
  lemma OpenReads(c: Config, ms: int, es: seq<Event>, arrivals: seq<Arrival>, j: int, w: int, from: int, to: int)
    requires InMillis(c, ms) && Run(c, es).model.window.Some? && |arrivals| == |Run(c, es).log|
    requires Clocked(arrivals) && Priced(AcceptedBy(c, es))
    requires w == StoredStart(Run(c, es).model.window.value) && from <= w < to
    requires LastDelivered(Run(c, es).log, arrivals, j, w) && TiesAgree(Run(c, es).log, arrivals, j, w)
    ensures ReadsAs(Slice(Store(Run(c, es).log, arrivals), from, to), c, Seen(c, es, Run(c, es).log[j].cut), w)
  {
    OpenFrame(c, ms, es, arrivals, j);
    OpenFrameRead(c, ms, es, arrivals, j, w, from, to);
    SeenOpen(c, ms, es, Run(c, es).log[j].cut, w);
  }

  /** A closed window whose closing snapshot arrived. */
  lemma ClosedReads(c: Config, ms: int, es: seq<Event>, arrivals: seq<Arrival>, cut: nat, from: int, to: int, t: Trade)
    requires InMillis(c, ms) && Run(c, es).model.window.Some? && |arrivals| == |Run(c, es).log|
    requires Clocked(arrivals) && Priced(AcceptedBy(c, es)) && cut <= |Run(c, es).model.current|
    requires t in AcceptedBy(c, es) && WindowStart(c.window, t) != Run(c, es).model.window.value
    requires ClosingDelivered(Run(c, es).log, arrivals, WindowStart(c.window, t)) && from <= WindowMs(c, t) < to
    ensures ReadsAs(Slice(Store(Run(c, es).log, arrivals), from, to), c, Seen(c, es, cut), WindowMs(c, t))
  {
    var log, a := Run(c, es).log, AcceptedBy(c, es);
    LogFacts(c, es);
    DeliveredWindowIsFinal(c, ms, a, log, arrivals, from, to, t);
    FinalReads(c, ms, a, Slice(Store(log, arrivals), from, to), t);
    StoredStartExact(c, ms, t);
    SeenWindows(c, es, cut, WindowStart(c.window, t));
  }

  /** Every stored row is of a window with trades the table knows. */
  lemma StoredWindowSeen(c: Config, ms: int, es: seq<Event>, arrivals: seq<Arrival>, cut: nat, k: Key)
    requires InMillis(c, ms) && Run(c, es).model.window.Some? && |arrivals| == |Run(c, es).log|
    requires cut <= |Run(c, es).model.current|
    requires Knows(Run(c, es).log, arrivals, StoredStart(Run(c, es).model.window.value), cut)
    requires k in Store(Run(c, es).log, arrivals)
    ensures exists t :: t in Seen(c, es, cut) && WindowMs(c, t) == k.window
  {
    var m, log, a := Run(c, es).model, Run(c, es).log, AcceptedBy(c, es);
    LogFacts(c, es);
    StoredRowHasTrade(c, ms, a, log, arrivals, k);
    var t :| t in a && WindowMs(c, t) == k.window;
    var w := WindowStart(c.window, t);
    SeenWindows(c, es, cut, w);
    InWindowMembers(c.window, a, w);
    InWindowMembers(c.window, Seen(c, es, cut), w);
    if w == m.window.value {
      var i := NewestVersionWins(log, arrivals, k);
      KnownIsPositive(c, ms, es, arrivals, cut, i, k);
      assert m.current[..cut][0] in InWindow(c.window, Seen(c, es, cut), w);
    }
  }

  lemma KnownIsPositive(c: Config, ms: int, es: seq<Event>, arrivals: seq<Arrival>, cut: nat, i: int, k: Key)
    requires InMillis(c, ms) && Run(c, es).model.window.Some? && |arrivals| == |Run(c, es).log|
    requires Knows(Run(c, es).log, arrivals, StoredStart(Run(c, es).model.window.value), cut)
    requires 0 <= i < |arrivals| && Writes(Run(c, es).log, arrivals, i, k)
    requires k.window == StoredStart(Run(c, es).model.window.value)
    ensures cut > 0
  {
    var log, w := Run(c, es).log, k.window;
    if j :| LastDelivered(log, arrivals, j, w) && TiesAgree(log, arrivals, j, w) && cut == log[j].cut {
      OpenFrame(c, ms, es, arrivals, j);
    }
  }

  lemma PrefixOfInput(fine: Config, coarse: Config, ms: int, k: int, a: seq<Trade>, b: seq<Trade>)
    requires RollupInput(fine, coarse, ms, k, a) && b <= a
    ensures RollupInput(fine, coarse, ms, k, b)
  {
    assert forall t :: t in b ==> t in a;
    forall i, j | 0 <= i <= j < |b|
      ensures WindowStart(fine.window, b[i]) <= WindowStart(fine.window, b[j])
    {
      assert WindowStart(fine.window, a[i]) <= WindowStart(fine.window, a[j]);
    }
  }

  /** What is needed of the rolled window `rw`: the closing snapshots of its closed minutes arrived. */
  ghost predicate ClosedMinutesDelivered(fine: Config, coarse: Config, es: seq<Event>, arrivals: seq<Arrival>, rw: int)
    requires fine.Valid() && coarse.Valid() && |arrivals| == |Run(fine, es).log|
  {
    forall t :: t in AcceptedBy(fine, es) && WindowMs(coarse, t) == rw
                && Some(WindowStart(fine.window, t)) != Run(fine, es).model.window ==>
      ClosingDelivered(Run(fine, es).log, arrivals, WindowStart(fine.window, t))
  }

  lemma SeenReads(fine: Config, coarse: Config, ms: int, k: int, es: seq<Event>, arrivals: seq<Arrival>, cut: nat,
                  from: int, to: int, rw: int, t: Trade)
    requires fine.Valid() && RollupData(fine, coarse, ms, k, AcceptedBy(fine, es))
    requires Run(fine, es).model.window.Some? && |arrivals| == |Run(fine, es).log| && Clocked(arrivals)
    requires cut <= |Run(fine, es).model.current|
    requires Knows(Run(fine, es).log, arrivals, StoredStart(Run(fine, es).model.window.value), cut)
    requires ClosedMinutesDelivered(fine, coarse, es, arrivals, rw) && from <= rw && rw + k * ms <= to
    requires t in Seen(fine, es, cut) && WindowMs(coarse, t) == rw
    ensures ReadsAs(Slice(Store(Run(fine, es).log, arrivals), from, to), fine, Seen(fine, es, cut), WindowMs(fine, t))
  {
    var log, w0 := Run(fine, es).log, Run(fine, es).model.window.value;
    var w := StoredStart(w0);
    SeenWindows(fine, es, cut, WindowStart(fine.window, t));
    assert t in AcceptedBy(fine, es);
    NestedWindows(fine, coarse, ms, k, t);
    IntervalBounds(WindowMs(fine, t), k * ms);
    if WindowStart(fine.window, t) == w0 {
      OpenWindowStart(fine, ms, es);
      InWindowMembers(fine.window, Seen(fine, es, cut), w0);
      var j :| LastDelivered(log, arrivals, j, w) && TiesAgree(log, arrivals, j, w) && cut == log[j].cut;
      OpenReads(fine, ms, es, arrivals, j, w, from, to);
    } else {
      ClosedReads(fine, ms, es, arrivals, cut, from, to, t);
    }
  }

  /** At any moment of any run: if the closing snapshots of the closed minutes of a long window arrived, the
      rolled candle is that of the trades the table knows: all of the closed minutes, followed by those of the
      open minute up to its last delivered frame.  Everything else may be lost. */
  lemma InProgressRollup(fine: Config, coarse: Config, ms: int, k: int, es: seq<Event>, arrivals: seq<Arrival>,
                         cut: nat, from: int, to: int, rw: int)
    requires fine.Valid() && RollupData(fine, coarse, ms, k, AcceptedBy(fine, es))
    requires Run(fine, es).model.window.Some? && |arrivals| == |Run(fine, es).log| && Clocked(arrivals)
    requires Knows(Run(fine, es).log, arrivals, StoredStart(Run(fine, es).model.window.value), cut)
    requires ClosedMinutesDelivered(fine, coarse, es, arrivals, rw) && from <= rw && rw + k * ms <= to
    ensures cut <= |Run(fine, es).model.current|
    ensures StoredTrades(coarse, Seen(fine, es, cut), rw) != [] ==>
              RolledOhlc(Slice(Store(Run(fine, es).log, arrivals), from, to), k * ms, rw)
              == OhlcOf(StoredTrades(coarse, Seen(fine, es, cut), rw))
  {
    var log, w0 := Run(fine, es).log, Run(fine, es).model.window.value;
    if j :| LastDelivered(log, arrivals, j, StoredStart(w0)) && TiesAgree(log, arrivals, j, StoredStart(w0))
            && cut == log[j].cut {
      OpenFrame(fine, ms, es, arrivals, j);
    }
    var seen, table := Seen(fine, es, cut), Slice(Store(log, arrivals), from, to);
    AcceptedChronological(fine.window, Trades(es));
    SeenWindows(fine, es, cut, w0);
    PrefixOfInput(fine, coarse, ms, k, AcceptedBy(fine, es), seen);
    forall t | t in seen && WindowMs(coarse, t) == rw
      ensures ReadsAs(table, fine, seen, WindowMs(fine, t))
    {
      SeenReads(fine, coarse, ms, k, es, arrivals, cut, from, to, rw, t);
    }
    forall key | key in table && StartOfInterval(key.window, k * ms) == rw
      ensures exists t :: t in seen && WindowMs(fine, t) == key.window
    {
      StoredWindowSeen(fine, ms, es, arrivals, cut, key);
    }
    if StoredTrades(coarse, seen, rw) != [] {
      RolledOhlcIsLive(fine, coarse, ms, k, seen, table, rw);
    }
  }

  // ---- Buckets of the current candle -------------------------------------------------------------

  /** The stored bucket of the open minute at `p` is the aggregator's, if that has one. */
  ghost predicate OpenCellRight(c: Config, es: seq<Event>, arrivals: seq<Arrival>, p: int)
    requires c.Valid() && |arrivals| == |Run(c, es).log| && Run(c, es).model.window.Some?
  {
    var m, table := Run(c, es).model, Store(Run(c, es).log, arrivals);
    var truth, k := Buckets(c.step, m.current), Key(StoredStart(m.window.value), p);
    p in truth ==> k in table && table[k].bucket == truth[p]
  }

  /** Which trades of `p` are stored where. */
  lemma TradeHasCell(c: Config, ms: int, es: seq<Event>, arrivals: seq<Arrival>, from: int, to: int, p: int, t: Trade)
    requires InMillis(c, ms) && |arrivals| == |Run(c, es).log| && Clocked(arrivals) && Run(c, es).model.window.Some?
    requires OpenCellRight(c, es, arrivals, p) && t in AcceptedBy(c, es) && BucketPrice(c.step, t) == p
    requires Some(WindowStart(c.window, t)) != Run(c, es).model.window ==>
               ClosingDelivered(Run(c, es).log, arrivals, WindowStart(c.window, t))
    requires from <= WindowMs(c, t) < to
    ensures var table := Slice(Store(Run(c, es).log, arrivals), from, to);
            Key(WindowMs(c, t), p) in table && CellIsRight(table, c, AcceptedBy(c, es), WindowMs(c, t), p)
  {
    var m, log, a := Run(c, es).model, Run(c, es).log, AcceptedBy(c, es);
    var w := WindowMs(c, t);
    ReachableState(c, es);
    LogFacts(c, es);
    StoredStartExact(c, ms, t);
    InWindowMembers(c.window, a, WindowStart(c.window, t));
    assert t in StoredTrades(c, a, w);
    if WindowStart(c.window, t) == m.window.value {
      assert p in Buckets(c.step, m.current);
    } else {
      DeliveredWindowIsFinal(c, ms, a, log, arrivals, from, to, t);
      assert p in Buckets(c.step, StoredTrades(c, a, w));
    }
  }

  /** Every stored bucket of `p` has trades of `p`. */
  lemma CellHasTrade(c: Config, ms: int, es: seq<Event>, arrivals: seq<Arrival>, k: Key) returns (t: Trade)
    requires InMillis(c, ms) && |arrivals| == |Run(c, es).log| && k in Store(Run(c, es).log, arrivals)
    ensures t in AcceptedBy(c, es) && BucketPrice(c.step, t) == k.price && WindowMs(c, t) == k.window
  {
    var log, a := Run(c, es).log, AcceptedBy(c, es);
    LogFacts(c, es);
    var w, cut := StoredRowIsOfPrefix(c, ms, a, log, arrivals, k);
    var all := InWindow(c.window, a, w);
    t :| t in all[..cut] && BucketPrice(c.step, t) == k.price;
    InWindowMembers(c.window, a, w);
    assert t in all;
  }

  lemma InProgressCells(fine: Config, coarse: Config, ms: int, k: int, es: seq<Event>, arrivals: seq<Arrival>,
                        from: int, to: int, rw: int, p: int)
    requires fine.Valid() && RollupData(fine, coarse, ms, k, AcceptedBy(fine, es))
    requires Run(fine, es).model.window.Some? && |arrivals| == |Run(fine, es).log| && Clocked(arrivals)
    requires ClosedMinutesDelivered(fine, coarse, es, arrivals, rw) && from <= rw && rw + k * ms <= to
    requires OpenCellRight(fine, es, arrivals, p)
    ensures CellsComplete(Slice(Store(Run(fine, es).log, arrivals), from, to), fine, coarse, AcceptedBy(fine, es),
                          k * ms, rw, p)
  {
    var a, table := AcceptedBy(fine, es), Slice(Store(Run(fine, es).log, arrivals), from, to);
    forall t | t in a && BucketPrice(fine.step, t) == p && WindowMs(coarse, t) == rw
      ensures Key(WindowMs(fine, t), p) in table && CellIsRight(table, fine, a, WindowMs(fine, t), p)
    {
      NestedWindows(fine, coarse, ms, k, t);
      IntervalBounds(WindowMs(fine, t), k * ms);
      TradeHasCell(fine, ms, es, arrivals, from, to, p, t);
    }
    forall w | w in SubWindowsOf(table, k * ms, rw, p)
      ensures CellIsRight(table, fine, a, w, p)
    {
      var t := CellHasTrade(fine, ms, es, arrivals, Key(w, p));
      NestedWindows(fine, coarse, ms, k, t);
    }
  }

  /** At any moment of any run: if the closing snapshots of the closed minutes arrived and the stored bucket of
      the open minute at a price is right, the rolled bucket at that price is the one of all trades accepted so
      far in the long window, and is reported exactly if there is one. */
  lemma InProgressBucket(fine: Config, coarse: Config, ms: int, k: int, es: seq<Event>, arrivals: seq<Arrival>,
                         from: int, to: int, rw: int, p: int, col: Column)
    requires fine.Valid() && RollupData(fine, coarse, ms, k, AcceptedBy(fine, es))
    requires Run(fine, es).model.window.Some? && |arrivals| == |Run(fine, es).log| && Clocked(arrivals)
    requires ClosedMinutesDelivered(fine, coarse, es, arrivals, rw) && from <= rw && rw + k * ms <= to
    requires OpenCellRight(fine, es, arrivals, p)
    ensures var table := Slice(Store(Run(fine, es).log, arrivals), from, to);
            var live := StoredTrades(coarse, AcceptedBy(fine, es), rw);
            && Tally(coarse.step, col, live, p) == Min(RolledSum(table, col, k * ms, rw, p), col.Ceiling())
            && ((exists w :: w in SubWindowsOf(table, k * ms, rw, p)) <==> p in Buckets(coarse.step, live))
  {
    var a, table := AcceptedBy(fine, es), Slice(Store(Run(fine, es).log, arrivals), from, to);
    AcceptedChronological(fine.window, Trades(es));
    InProgressCells(fine, coarse, ms, k, es, arrivals, from, to, rw, p);
    RolledSumIsLive(fine, coarse, ms, k, a, table, rw, col, p);
    RolledPricesAreLive(fine, coarse, ms, k, a, table, rw, p);
  }
}
