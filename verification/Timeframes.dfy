/** Windows of different lengths over the same trade stream. */
module Timeframes {
  import opened Common
  import opened Footprint
  import opened Aggregator
  import opened AggregatorRun

  const NANOS_PER_MS: int := 1_000_000

  /** The start, in milliseconds, under which a window's rows are stored. */
  function StoredStart(windowNs: int): int {
    TruncDiv(windowNs, NANOS_PER_MS)
  }

  function WindowMs(c: Config, t: Trade): int
    requires c.Valid()
  {
    StoredStart(WindowStart(c.window, t))
  }

  /** `toStartOfInterval` on epoch milliseconds. */
  function StartOfInterval(ms: int, interval: int): int
    requires interval > 0
  {
    (ms / interval) * interval
  }

  /** The two timeframes differ only in their window, and the long one is `k` short ones. */
  predicate Nested(fine: Config, coarse: Config, ms: int, k: int) {
    && fine.Valid() && coarse.Valid() && fine.step == coarse.step
    && ms > 0 && k > 0 && k * ms > 0
    && fine.window == ms * NANOS_PER_MS
    && coarse.window == k * fine.window
  }

  lemma MulDiv(x: int, d: int)
    requires d > 0
    ensures (x * d) / d == x
  {
    DivUnique(x * d, d, x, 0);
  }

  /** Windows are whole milliseconds, so the stored start loses nothing. */
  lemma StoredStartExact(c: Config, ms: int, t: Trade)
    requires c.Valid() && ms > 0 && c.window == ms * NANOS_PER_MS
    ensures WindowMs(c, t) == TruncDiv(t.ts, c.window) * ms
    ensures WindowMs(c, t) * NANOS_PER_MS == WindowStart(c.window, t)
  {
    var x := TruncDiv(t.ts, c.window);
    assert WindowStart(c.window, t) == (x * ms) * NANOS_PER_MS by {
      MulAssoc(x, ms, NANOS_PER_MS);
    }
    if x * ms * NANOS_PER_MS >= 0 {
      MulDiv(x * ms, NANOS_PER_MS);
    } else {
      MulDiv(-(x * ms), NANOS_PER_MS);
    }
  }

  lemma MulAssoc(x: int, y: int, z: int)
    ensures x * (y * z) == (x * y) * z
  {
  }

  /** Flooring a stored fine window gives the stored coarse window of the same trade: the
      boundaries of the rolled-up windows are those of a live aggregator. */
  lemma NestedWindows(fine: Config, coarse: Config, ms: int, k: int, t: Trade)
    requires Nested(fine, coarse, ms, k) && t.ts >= 0
    ensures StartOfInterval(WindowMs(fine, t), k * ms) == WindowMs(coarse, t)
    ensures WindowMs(coarse, t) * NANOS_PER_MS == WindowStart(coarse.window, t)
  {
    MulMonotone(1, k, ms);
    MulAssoc(k, ms, NANOS_PER_MS);
    StoredStartExact(fine, ms, t);
    StoredStartExact(coarse, k * ms, t);
    var x := t.ts / fine.window;
    MulDiv(x, ms);
    DivDiv(x * ms, ms, k);
    DivDiv(t.ts, fine.window, k);
  }

  /** A trade's coarse window is determined by, and never decreases with, its fine window. */
  lemma CoarseFollowsFine(fine: Config, coarse: Config, ms: int, k: int, t: Trade, t': Trade)
    requires Nested(fine, coarse, ms, k)
    requires WindowStart(fine.window, t) <= WindowStart(fine.window, t')
    ensures WindowStart(coarse.window, t) <= WindowStart(coarse.window, t')
  {
    var x, x' := TruncDiv(t.ts, fine.window), TruncDiv(t'.ts, fine.window);
    if x' + 1 <= x {
      MulMonotone(x' + 1, x, fine.window);
      assert false;
    }
    TruncDivDiv(t.ts, fine.window, k);
    TruncDivDiv(t'.ts, fine.window, k);
    TruncDivMonotone(x, x', k);
    MulMonotone(TruncDiv(t.ts, coarse.window), TruncDiv(t'.ts, coarse.window), coarse.window);
  }

  lemma TruncDivDiv(a: int, d: int, k: int)
    requires d > 0 && k > 0
    ensures k * d > 0
    ensures TruncDiv(TruncDiv(a, d), k) == TruncDiv(a, k * d)
  {
    if a >= 0 {
      DivDiv(a, d, k);
      DivAtLeast(a, d, 0);
    } else {
      DivDiv(-a, d, k);
      DivAtLeast(-a, d, 0);
    }
  }

  /** Fewer trades are late in a longer timeframe: whatever the short one accepts, the long one
      accepts too. */
  lemma CoarseAcceptsMore(fine: Config, coarse: Config, ms: int, k: int, before: seq<Trade>, t: Trade)
    requires Nested(fine, coarse, ms, k)
    requires OnTime(fine.window, before, t)
    ensures OnTime(coarse.window, before, t)
  {
    if before != [] {
      HighWaterIsMax(fine.window, before);
      HighWaterIsMax(coarse.window, before);
      var last :| last in before && WindowStart(coarse.window, last) == HighWater(coarse.window, before);
      CoarseFollowsFine(fine, coarse, ms, k, last, t);
    }
  }

  lemma {:induction false} CoarseDropsFewer(fine: Config, coarse: Config, ms: int, k: int, ts: seq<Trade>)
    requires Nested(fine, coarse, ms, k)
    ensures |Accepted(fine.window, ts)| <= |Accepted(coarse.window, ts)|
    ensures forall t :: t in Accepted(fine.window, ts) ==> t in Accepted(coarse.window, ts)
  {
    if ts != [] {
      CoarseDropsFewer(fine, coarse, ms, k, Init(ts));
      if OnTime(fine.window, Init(ts), Last(ts)) {
        CoarseAcceptsMore(fine, coarse, ms, k, Init(ts), Last(ts));
      }
    }
  }

  /** Two aggregators fed the same stream: at every moment the longer timeframe has dropped no
      more trades than the shorter one. */
  lemma DroppedLateTradesOrdered(fine: Config, coarse: Config, ms: int, k: int, es: seq<Event>, es': seq<Event>)
    requires Nested(fine, coarse, ms, k) && Trades(es) == Trades(es')
    ensures Run(coarse, es').model.dropped <= Run(fine, es).model.dropped
  {
    CoarseDropsFewer(fine, coarse, ms, k, Trades(es));
    ReachableState(fine, es);
    ReachableState(coarse, es');
  }

  lemma {:induction false} LastIsLatest(window: int, a: seq<Trade>)
    requires window > 0 && a != [] && Chronological(window, a)
    ensures HighWater(window, a) == WindowStart(window, Last(a))
  {
    if |a| > 1 {
      assert a[|a| - 2] == Last(Init(a)) && WindowStart(window, a[|a| - 2]) <= WindowStart(window, a[|a| - 1]);
      ChronologicalInit(window, a);
      LastIsLatest(window, Init(a));
    }
  }

  lemma ChronologicalInit(window: int, a: seq<Trade>)
    requires window > 0 && a != [] && Chronological(window, a)
    ensures Chronological(window, Init(a))
  {
    forall i, j | 0 <= i <= j < |Init(a)|
      ensures WindowStart(window, Init(a)[i]) <= WindowStart(window, Init(a)[j])
    {
      assert WindowStart(window, a[i]) <= WindowStart(window, a[j]);
    }
  }

  /** A stream already filtered by the short timeframe loses nothing more in the long one. */
  lemma {:induction false} FilteredStreamAllAccepted(window: int, a: seq<Trade>)
    requires window > 0 && Chronological(window, a)
    ensures Accepted(window, a) == a
  {
    if a != [] {
      ChronologicalInit(window, a);
      FilteredStreamAllAccepted(window, Init(a));
      if |a| > 1 {
        LastIsLatest(window, Init(a));
        assert WindowStart(window, a[|a| - 2]) <= WindowStart(window, a[|a| - 1]);
      }
    }
  }

  lemma ChronologicalInBoth(fine: Config, coarse: Config, ms: int, k: int, a: seq<Trade>)
    requires Nested(fine, coarse, ms, k) && Chronological(fine.window, a)
    ensures Chronological(coarse.window, a)
  {
    forall i, j | 0 <= i <= j < |a|
      ensures WindowStart(coarse.window, a[i]) <= WindowStart(coarse.window, a[j])
    {
      CoarseFollowsFine(fine, coarse, ms, k, a[i], a[j]);
    }
  }
}
