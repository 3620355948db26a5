/** The per-symbol footprint aggregator: a reference machine that remembers the trades of the
    open window, and the class that keeps running totals instead and refines it. */
module Aggregator {
  import opened Common
  import opened Footprint

  datatype Frame =
    | Snapshot(window: int, sequence: int, clusters: map<int, Bucket>, ohlc: Ohlc)
    | Diff(window: int, sequence: int, clusters: map<int, Bucket>)

  datatype Config = Config(step: int, window: int, diffInterval: int) {
    predicate Valid() {
      step > 0 && window > 0 && diffInterval > 0
    }
  }

  /** The reference state.  `current` lists the accepted trades of the open window. */
  datatype Model = Model(
    window: Option<int>,
    current: seq<Trade>,
    dirty: set<int>,
    partialDirty: set<int>,
    sequence: int,
    lastDiffEmit: int,
    dropped: nat
  )

  const INITIAL := Model(None, [], {}, {}, 0, 0, 0)

  function Select(footprint: map<int, Bucket>, prices: set<int>): map<int, Bucket> {
    map p | p in footprint && p in prices :: footprint[p]
  }

  /** The state with one more trade in its open window. */
  function Join(c: Config, m: Model, t: Trade): Model
    requires c.Valid()
  {
    var p := BucketPrice(c.step, t);
    m.(current := m.current + [t], dirty := m.dirty + {p}, partialDirty := m.partialDirty + {p})
  }

  predicate Late(m: Model, w: int) {
    m.window.Some? && w < m.window.value
  }

  predicate Rolls(m: Model, w: int) {
    m.window.Some? && w > m.window.value
  }

  /** The state in which window `w` is open to receive a trade. */
  function Opened(m: Model, w: int): Model {
    if Rolls(m, w) then INITIAL.(window := Some(w), dropped := m.dropped) else m.(window := Some(w))
  }

  /** A trade joins the open window, opens a later one (closing the old), or is too late. */
  function Ingest(c: Config, m: Model, t: Trade): (Model, Option<Frame>)
    requires c.Valid()
  {
    var w := WindowStart(c.window, t);
    if Late(m, w) then (m.(dropped := m.dropped + 1), None)
    else (Join(c, Opened(m, w), t), if Rolls(m, w) then Some(ClosingFrame(c, m)) else None)
  }

  function ClosingFrame(c: Config, m: Model): Frame
    requires c.Valid()
  {
    Snapshot(m.window.GetOr(0), m.sequence + 1, Buckets(c.step, m.current), OhlcOf(m.current))
  }

  /** The live diff: every bucket touched since the previous diff, rate limited. */
  function Tick(c: Config, m: Model, now: int): (Model, Option<Frame>)
    requires c.Valid()
  {
    if m.dirty == {} || Clamp(now - m.lastDiffEmit, I64_MIN, I64_MAX) < c.diffInterval || m.window.None? then
      (m, None)
    else
      (m.(dirty := {}, sequence := m.sequence + 1, lastDiffEmit := now),
       Some(Diff(m.window.value, m.sequence + 1, Select(Buckets(c.step, m.current), m.dirty))))
  }

  /** The partial snapshot: every bucket touched since the previous partial snapshot. */
  function CurrentWindowDelta(c: Config, m: Model): (Model, Option<Frame>)
    requires c.Valid()
  {
    if m.partialDirty == {} || m.window.None? then
      (m, None)
    else
      (m.(partialDirty := {}, sequence := m.sequence + 1),
       Some(Snapshot(m.window.value, m.sequence + 1,
                     Select(Buckets(c.step, m.current), m.partialDirty), OhlcOf(m.current))))
  }

  function Flush(c: Config, m: Model): (Model, Option<Frame>)
    requires c.Valid()
  {
    if m.current == [] then (m, None)
    else (INITIAL.(dropped := m.dropped), Some(ClosingFrame(c, m)))
  }

  /** What one more trade does to the footprint. */
  lemma BucketsSnoc(step: int, trades: seq<Trade>, t: Trade)
    requires step > 0
    ensures Buckets(step, trades + [t])
            == Buckets(step, trades)[
                 BucketPrice(step, t) := NextBucket(BucketAt(step, trades, BucketPrice(step, t)), t)]
  {
    TouchedSnoc(step, trades, t);
    assert Init(trades + [t]) == trades && Last(trades + [t]) == t;
  }

  lemma OhlcSnoc(trades: seq<Trade>, t: Trade)
    ensures OhlcOf(trades + [t]) == NextOhlc(OhlcOf(trades), t.price)
  {
    assert Init(trades + [t]) == trades;
  }

  lemma {:induction false} TallyInRange(step: int, col: Column, trades: seq<Trade>, p: int)
    requires step > 0
    ensures col.Floor() <= Tally(step, col, trades, p) <= col.Ceiling()
  {
    if trades != [] {
      TallyInRange(step, col, Init(trades), p);
    }
  }

  /** The aggressor's side gains the quantity and the count one, both within their types. */
  predicate GainsTrade(before: Bucket, after: Bucket, t: Trade) {
    && after.bid == (if t.side == Bid then Clamp(before.bid + t.qty, I64_MIN, I64_MAX) else before.bid)
    && after.ask == (if t.side == Ask then Clamp(before.ask + t.qty, I64_MIN, I64_MAX) else before.ask)
    && after.trades == Clamp(before.trades + 1, 0, U32_MAX)
  }

  /** The trade is late if its window lies before the open one; else it is the last of the open window, which
      is the trade's own, and a window that was open before it is closed. */
  ghost predicate TakesTrade(c: Config, before: Model, after: Model, closing: Option<Frame>, t: Trade)
    requires c.Valid()
  {
    forall w :: StartsAt(w, c.window, t.ts) ==>
      if before.window.Some? && w < before.window.value
      then after == before.(dropped := before.dropped + 1) && closing.None?
      else after.window == Some(w) && after.dropped == before.dropped
           && (closing.Some? <==> before.window.Some? && w > before.window.value)
           && after.current == (if closing.Some? then [] else before.current) + [t]
  }

  lemma TradeTaken(c: Config, m: Model, t: Trade)
    requires c.Valid()
    ensures TakesTrade(c, m, Ingest(c, m, t).0, Ingest(c, m, t).1, t)
  {
    forall w | StartsAt(w, c.window, t.ts)
      ensures WindowStart(c.window, t) == w
    {
      WindowMeaning(c.window, t, w);
    }
  }

  /** Every key is a multiple of the step at which some trade's price lies, and each such multiple is a key. */
  ghost predicate AtBuckets(step: int, accum: map<int, Bucket>, trades: seq<Trade>)
    requires step > 0
  {
    forall p :: p in accum <==> exists t :: t in trades && FallsInto(step, p, t)
  }

  lemma BucketsAt(step: int, trades: seq<Trade>)
    requires step > 0
    ensures AtBuckets(step, Buckets(step, trades), trades)
  {
    KeysMeaning(step, trades);
  }

  /** The bucket at whose multiple of the step the trade's price lies gains the trade; no other changes. */
  ghost predicate OneTradeMore(step: int, before: map<int, Bucket>, after: map<int, Bucket>, t: Trade)
    requires step > 0
  {
    && (forall p :: p in after <==> p in before || FallsInto(step, p, t))
    && (forall p :: p in before && !FallsInto(step, p, t) ==> after[p] == before[p])
    && (forall p :: FallsInto(step, p, t) ==>
          GainsTrade(if p in before then before[p] else EMPTY_BUCKET, after[p], t))
  }

  lemma OnlyItsBucketGains(step: int, accum: map<int, Bucket>, t: Trade, before: Bucket)
    requires step > 0
    requires before == if BucketPrice(step, t) in accum then accum[BucketPrice(step, t)] else EMPTY_BUCKET
    requires I64_MIN <= before.bid <= I64_MAX && I64_MIN <= before.ask <= I64_MAX
    ensures OneTradeMore(step, accum, accum[BucketPrice(step, t) := NextBucket(before, t)], t)
  {
    forall p
      ensures BucketPrice(step, t) == p <==> FallsInto(step, p, t)
    {
      BucketMeaning(step, t, p);
    }
  }

  class Aggregator {
    const config: Config

    var currentWindowStart: Option<int>
    var sequence: int
    var accum: map<int, Bucket>
    var dirty: set<int>
    var partialDirty: set<int>
    var lastDiffEmit: int
    var droppedLateTrades: nat
    var open: int
    var close: int
    var high: int
    var low: int

    /** The accepted trades of the open window, which the real fields only summarise. */
    ghost var current: seq<Trade>

    ghost function State(): Model
      reads this
    {
      Model(currentWindowStart, current, dirty, partialDirty, sequence, lastDiffEmit, droppedLateTrades)
    }

    ghost predicate Valid()
      reads this
    {
      && config.Valid()
      && accum == Buckets(config.step, current)
      && Ohlc(open, close, high, low) == OhlcOf(current)
      && dirty <= accum.Keys
      && partialDirty <= accum.Keys
      && (currentWindowStart.None? ==> current == [])
    }

    constructor (bucketStep: int, windowMs: int, diffIntervalMs: int)
      requires bucketStep > 0 && windowMs > 0 && diffIntervalMs > 0
      ensures Valid() && State() == INITIAL
      ensures config == Config(bucketStep, windowMs * 1_000_000, diffIntervalMs * 1_000_000)
    {
      config := Config(bucketStep, windowMs * 1_000_000, diffIntervalMs * 1_000_000);
      currentWindowStart := None;
      sequence, accum, dirty, partialDirty, lastDiffEmit, droppedLateTrades := 0, map[], {}, {}, 0, 0;
      open, close, high, low := 0, 0, 0, 0;
      current := [];
    }

    method BuildClosingSnapshot() returns (frame: Frame)
      requires Valid()
      modifies this`sequence
      ensures Valid() && State() == old(State()).(sequence := old(sequence) + 1)
      ensures frame == ClosingFrame(config, old(State()))
    {
      sequence := sequence + 1;
      frame := Snapshot(currentWindowStart.GetOr(0), sequence, accum, Ohlc(open, close, high, low));
    }

    method ClearWindow()
      requires config.Valid()
      modifies this`accum, this`dirty, this`partialDirty, this`sequence, this`lastDiffEmit,
               this`open, this`close, this`high, this`low, this`current
      ensures Valid()
      ensures current == [] && dirty == {} && partialDirty == {} && sequence == 0 && lastDiffEmit == 0
    {
      accum, dirty, partialDirty := map[], {}, {};
      sequence, lastDiffEmit := 0, 0;
      open, close, high, low := 0, 0, 0, 0;
      current := [];
    }

    /** Make `w` the open window, closing an earlier one. */
    method OpenWindow(w: int) returns (closing: Option<Frame>)
      requires Valid() && !Late(State(), w)
      modifies this
      ensures Valid() && State() == Opened(old(State()), w)
      ensures closing == if Rolls(old(State()), w) then Some(ClosingFrame(config, old(State()))) else None
    {
      closing := None;
      if currentWindowStart.Some? && w > currentWindowStart.value {
        var frame := BuildClosingSnapshot();
        closing := Some(frame);
        ClearWindow();
      }
      currentWindowStart := Some(w);
    }

    method IngestTrade(t: Trade) returns (closing: Option<Frame>)
      requires Valid()
      modifies this
      ensures Valid() && State() == Ingest(config, old(State()), t).0 && closing == Ingest(config, old(State()), t).1
      ensures TakesTrade(config, old(State()), State(), closing, t)
      ensures AtBuckets(config.step, accum, current)
    {
      var tradeWindow := WindowStart(config.window, t);
      ghost var before := State();
      if currentWindowStart.Some? && tradeWindow < currentWindowStart.value {
        droppedLateTrades := droppedLateTrades + 1;
        closing := None;
      } else {
        closing := OpenWindow(tradeWindow);
        AccumulateTrade(t);
      }
      TradeTaken(config, before, t);
      BucketsAt(config.step, current);
    }

    /** The second half of ingesting: the trade belongs to the open window. */
    method AccumulateTrade(t: Trade)
      requires Valid() && currentWindowStart.Some?
      modifies this`accum, this`dirty, this`partialDirty, this`open, this`close, this`high, this`low, this`current
      ensures Valid() && current == old(current) + [t]
      ensures dirty == old(dirty) + {BucketPrice(config.step, t)}
      ensures partialDirty == old(partialDirty) + {BucketPrice(config.step, t)}
    {
      ExtendFootprint(t);
      AddToFootprint(t);
      UpdateOhlc(t.price);
      current := current + [t];
    }

    method AddToFootprint(t: Trade)
      requires Valid()
      modifies this`accum, this`dirty, this`partialDirty
      ensures accum == Buckets(config.step, current + [t])
      ensures dirty == old(dirty) + {BucketPrice(config.step, t)}
      ensures partialDirty == old(partialDirty) + {BucketPrice(config.step, t)}
      ensures accum.Keys == old(accum.Keys) + {BucketPrice(config.step, t)}
      ensures OneTradeMore(config.step, old(accum), accum, t)
    {
      var bucketPrice := BucketPrice(config.step, t);
      var acc := if bucketPrice in accum then accum[bucketPrice] else EMPTY_BUCKET;
      BucketInRange(bucketPrice);
      ExtendFootprint(t);
      OnlyItsBucketGains(config.step, accum, t, acc);
      acc := AddToBucket(acc, t);
      accum := accum[bucketPrice := acc];
      dirty := dirty + {bucketPrice};
      partialDirty := partialDirty + {bucketPrice};
    }

    method UpdateOhlc(price: int)
      modifies this`open, this`close, this`high, this`low
      ensures Ohlc(open, close, high, low) == NextOhlc(old(Ohlc(open, close, high, low)), price)
    {
      if open == 0 {
        open, high, low := price, price, price;
      } else {
        if price > high {
          high := price;
        }
        if price < low {
          low := price;
        }
      }
      close := price;
    }

    static method AddToBucket(before: Bucket, t: Trade) returns (acc: Bucket)
      requires I64_MIN <= before.bid <= I64_MAX && I64_MIN <= before.ask <= I64_MAX
      ensures acc == NextBucket(before, t)
    {
      acc := before;
      match t.side {
        case Bid => acc := acc.(bid := Clamp(acc.bid + t.qty, I64_MIN, I64_MAX));
        case Ask => acc := acc.(ask := Clamp(acc.ask + t.qty, I64_MIN, I64_MAX));
      }
      acc := acc.(trades := Clamp(acc.trades + 1, 0, U32_MAX));
    }

    lemma BucketInRange(p: int)
      requires Valid()
      ensures var b := if p in accum then accum[p] else EMPTY_BUCKET;
              I64_MIN <= b.bid <= I64_MAX && I64_MIN <= b.ask <= I64_MAX
    {
      TallyInRange(config.step, BidQty, current, p);
      TallyInRange(config.step, AskQty, current, p);
    }

    /** What the code is about to store is the footprint of the extended trade list. */
    lemma ExtendFootprint(t: Trade)
      requires Valid()
      ensures var p := BucketPrice(config.step, t);
              Buckets(config.step, current + [t])
              == accum[p := NextBucket(if p in accum then accum[p] else EMPTY_BUCKET, t)]
      ensures OhlcOf(current + [t]) == NextOhlc(Ohlc(open, close, high, low), t.price)
    {
      var p := BucketPrice(config.step, t);
      BucketsSnoc(config.step, current, t);
      if p !in accum {
        UntouchedIsEmpty(config.step, current, p);
      }
      OhlcSnoc(current, t);
    }

    method TickDiff(now: int) returns (frame: Option<Frame>)
      requires Valid()
      modifies this
      ensures Valid() && State() == Tick(config, old(State()), now).0 && frame == Tick(config, old(State()), now).1
      ensures frame.None? ==> State() == old(State())
      ensures frame.Some? ==> now - old(lastDiffEmit) >= config.diffInterval && lastDiffEmit == now && dirty == {}
    {
      if dirty == {} {
        return None;
      }
      if Clamp(now - lastDiffEmit, I64_MIN, I64_MAX) < config.diffInterval {
        return None;
      }
      if currentWindowStart.None? {
        return None;
      }
      sequence := sequence + 1;
      var upserts := map price | price in dirty :: accum[price];
      assert upserts == Select(accum, dirty);
      dirty := {};
      lastDiffEmit := now;
      frame := Some(Diff(currentWindowStart.value, sequence, upserts));
    }

    method EmitCurrentWindowDelta() returns (frame: Option<Frame>)
      requires Valid()
      modifies this
      ensures Valid() && State() == CurrentWindowDelta(config, old(State())).0
      ensures frame == CurrentWindowDelta(config, old(State())).1
    {
      if partialDirty == {} || currentWindowStart.None? {
        return None;
      }
      sequence := sequence + 1;
      var clusters := map price | price in partialDirty :: accum[price];
      assert clusters == Select(accum, partialDirty);
      partialDirty := {};
      frame := Some(Snapshot(currentWindowStart.GetOr(0), sequence, clusters, Ohlc(open, close, high, low)));
    }

    method FlushWindow() returns (frame: Option<Frame>)
      requires Valid()
      modifies this
      ensures Valid() && State() == Flush(config, old(State())).0 && frame == Flush(config, old(State())).1
    {
      if accum == map[] {
        EmptyFootprint();
        return None;
      }
      var f := BuildClosingSnapshot();
      ClearWindow();
      currentWindowStart := None;
      frame := Some(f);
    }

    /** Only an empty window has an empty accumulator. */
    lemma EmptyFootprint()
      requires Valid()
      ensures accum == map[] <==> current == []
    {
      if current != [] {
        assert current[0] in current;
        assert BucketPrice(config.step, current[0]) in accum;
      }
    }
  }
}
