/** Trades and what one time window of them amounts to: a footprint (saturating per-price
    totals) and OHLC prices.  Everything here is recomputed from the list of trades; the
    aggregator keeps the same values incrementally. */
module Footprint {
  import opened Common

  datatype Side = Bid | Ask

  datatype Trade = Trade(ts: int, side: Side, price: int, qty: int)

  datatype Bucket = Bucket(bid: int, ask: int, trades: int)

  datatype Ohlc = Ohlc(open: int, close: int, high: int, low: int)

  const EMPTY_BUCKET := Bucket(0, 0, 0)
  const NO_OHLC := Ohlc(0, 0, 0, 0)

  /** The three accumulated columns of a bucket. */
  datatype Column = BidQty | AskQty | TradeCount {

    /** What one trade contributes to this column of its bucket. */
    function Weight(t: Trade): int {
      match this
      case BidQty => if t.side.Bid? then t.qty else 0
      case AskQty => if t.side.Ask? then t.qty else 0
      case TradeCount => 1
    }

    function Floor(): int {
      if TradeCount? then 0 else I64_MIN
    }

    function Ceiling(): int {
      if TradeCount? then U32_MAX else I64_MAX
    }

    function Of(b: Bucket): int {
      match this
      case BidQty => b.bid
      case AskQty => b.ask
      case TradeCount => b.trades
    }

    /** `saturating_add` at the width of the column. */
    function SatAdd(x: int, y: int): int {
      Clamp(x + y, Floor(), Ceiling())
    }
  }

  function WindowStart(window: int, t: Trade): int
    requires window > 0
  {
    TruncDiv(t.ts, window) * window
  }

  function BucketPrice(step: int, t: Trade): int
    requires step > 0
  {
    TruncDiv(t.price, step) * step
  }

  function Last<T>(s: seq<T>): T
    requires s != []
  {
    s[|s| - 1]
  }

  function Init<T>(s: seq<T>): seq<T>
    requires s != []
  {
    s[..|s| - 1]
  }

  /** The column total of one bucket, saturating after every trade. */
  function Tally(step: int, col: Column, trades: seq<Trade>, p: int): int
    requires step > 0
  {
    if trades == [] then 0
    else if BucketPrice(step, Last(trades)) == p
    then col.SatAdd(Tally(step, col, Init(trades), p), col.Weight(Last(trades)))
    else Tally(step, col, Init(trades), p)
  }

  /** The exact, unbounded column total of one bucket. */
  function Total(step: int, col: Column, trades: seq<Trade>, p: int): int
    requires step > 0
  {
    if trades == [] then 0
    else Total(step, col, Init(trades), p)
         + if BucketPrice(step, Last(trades)) == p then col.Weight(Last(trades)) else 0
  }

  function BucketAt(step: int, trades: seq<Trade>, p: int): Bucket
    requires step > 0
  {
    Bucket(Tally(step, BidQty, trades, p), Tally(step, AskQty, trades, p), Tally(step, TradeCount, trades, p))
  }

  /** One trade added to its bucket. */
  function NextBucket(b: Bucket, t: Trade): Bucket {
    Bucket(BidQty.SatAdd(b.bid, BidQty.Weight(t)), AskQty.SatAdd(b.ask, AskQty.Weight(t)),
           TradeCount.SatAdd(b.trades, 1))
  }

  function Touched(step: int, trades: seq<Trade>): set<int>
    requires step > 0
  {
    set t | t in trades :: BucketPrice(step, t)
  }

  /** The footprint of a list of trades. */
  function Buckets(step: int, trades: seq<Trade>): map<int, Bucket>
    requires step > 0
  {
    map p | p in Touched(step, trades) :: BucketAt(step, trades, p)
  }

  /** OHLC exactly as the code keeps it: open price 0 means "no trade yet". */
  function OhlcOf(trades: seq<Trade>): Ohlc {
    if trades == [] then NO_OHLC else NextOhlc(OhlcOf(Init(trades)), Last(trades).price)
  }

  function NextOhlc(o: Ohlc, price: int): Ohlc {
    if o.open == 0 then Ohlc(price, price, price, price)
    else Ohlc(o.open, price, Max(o.high, price), Min(o.low, price))
  }

  ghost predicate NonNegative(trades: seq<Trade>) {
    forall t :: t in trades ==> t.qty >= 0
  }

  ghost predicate Priced(trades: seq<Trade>) {
    forall t :: t in trades ==> t.price > 0
  }

  lemma TouchedSnoc(step: int, trades: seq<Trade>, t: Trade)
    requires step > 0
    ensures Touched(step, trades + [t]) == Touched(step, trades) + {BucketPrice(step, t)}
  {
    assert t in trades + [t];
  }

  lemma {:induction false} UntouchedIsEmpty(step: int, trades: seq<Trade>, p: int)
    requires step > 0 && p !in Touched(step, trades)
    ensures BucketAt(step, trades, p) == EMPTY_BUCKET
  {
    if trades != [] {
      assert trades == Init(trades) + [Last(trades)];
      TouchedSnoc(step, Init(trades), Last(trades));
      UntouchedIsEmpty(step, Init(trades), p);
    }
  }

  /** Without negative quantities the saturating total is the true total cut at the ceiling,
      so the order of the trades does not matter. */
  lemma {:induction false} TallyIsCappedTotal(step: int, col: Column, trades: seq<Trade>, p: int)
    requires step > 0 && NonNegative(trades)
    ensures 0 <= Total(step, col, trades, p)
    ensures Tally(step, col, trades, p) == Min(Total(step, col, trades, p), col.Ceiling())
  {
    if trades != [] {
      TallyIsCappedTotal(step, col, Init(trades), p);
      assert Last(trades) in trades;
    }
  }

  /** `high` and `low` bound every price of the list and are prices of the list. */
  ghost predicate IsOhlc(trades: seq<Trade>, o: Ohlc)
    requires trades != []
  {
    && o.open == trades[0].price
    && o.close == Last(trades).price
    && (forall t :: t in trades ==> o.low <= t.price <= o.high)
    && (exists t :: t in trades && t.price == o.high)
    && (exists t :: t in trades && t.price == o.low)
  }

  /** The running OHLC is first/last/highest/lowest exactly when the first price is not the
      sentinel 0 (or no price is anything else). */
  lemma {:induction false} OhlcMeaning(trades: seq<Trade>)
    requires trades != []
    ensures IsOhlc(trades, OhlcOf(trades))
            <==> (trades[0].price != 0 || forall t :: t in trades ==> t.price == 0)
    ensures OhlcOf(trades).open == 0 <==> forall t :: t in trades ==> t.price == 0
    ensures OhlcOf(trades).open == 0 ==> OhlcOf(trades) == NO_OHLC
  {
    var init, t := Init(trades), Last(trades);
    assert trades == init + [t] && trades[0] in trades;
    if init == [] {
      assert OhlcOf(init) == NO_OHLC;
      assert OhlcOf(trades) == Ohlc(t.price, t.price, t.price, t.price);
    } else {
      OhlcMeaning(init);
      OhlcExtended(init, t, OhlcOf(init));
    }
  }

  lemma OhlcExtended(init: seq<Trade>, t: Trade, o: Ohlc)
    requires init != []
    requires IsOhlc(init, o) <==> (init[0].price != 0 || forall u :: u in init ==> u.price == 0)
    requires o.open == 0 <==> forall u :: u in init ==> u.price == 0
    requires o.open == 0 ==> o == NO_OHLC
    ensures IsOhlc(init + [t], NextOhlc(o, t.price))
            <==> (init[0].price != 0 || forall u :: u in init + [t] ==> u.price == 0)
    ensures NextOhlc(o, t.price).open == 0 <==> forall u :: u in init + [t] ==> u.price == 0
    ensures NextOhlc(o, t.price).open == 0 ==> NextOhlc(o, t.price) == NO_OHLC
  {
    var all := init + [t];
    assert t in all && init[0] in init && all[0] == init[0] && Last(all) == t;
    if o.open != 0 {
      var z :| z in init && z.price != 0;
      assert z in all;
      if init[0].price != 0 {
        HighLowExtended(init, t, o);
      }
    }
  }

  lemma HighLowExtended(init: seq<Trade>, t: Trade, o: Ohlc)
    requires init != [] && IsOhlc(init, o)
    ensures IsOhlc(init + [t], Ohlc(o.open, t.price, Max(o.high, t.price), Min(o.low, t.price)))
  {
    var all := init + [t];
    var hi :| hi in init && hi.price == o.high;
    var lo :| lo in init && lo.price == o.low;
    assert hi in all && lo in all && t in all;
  }

  // ---- What a bucket holds, in terms of prices and quantities alone ----------------------------

  /** `start` is the multiple of `size` at which `x` lies, counting away from 0. */
  predicate StartsAt(start: int, size: int, x: int)
    requires size > 0
  {
    start % size == 0 && if x >= 0 then start <= x < start + size else start - size < x <= start
  }

  /** Dividing and multiplying again, as the code does, finds just that multiple. */
  lemma TruncatedToMultiple(x: int, size: int, start: int)
    requires size > 0
    ensures TruncDiv(x, size) * size == start <==> StartsAt(start, size, x)
  {
    var q := TruncDiv(x, size);
    MultipleOf(q, size);
    NearestMultiple(x, size);
    if StartsAt(start, size, x) {
      SameMultiple(q * size, start, size);
    }
  }

  lemma MultipleOf(q: int, size: int)
    requires size > 0
    ensures (q * size) % size == 0
  {
    DivUnique(q * size, size, q, 0);
  }

  lemma NearestMultiple(x: int, size: int)
    requires size > 0
    ensures var start := TruncDiv(x, size) * size;
            if x >= 0 then start <= x < start + size else start - size < x <= start
  {
    if x >= 0 {
      assert x == (x / size) * size + x % size;
    } else {
      assert -x == ((-x) / size) * size + (-x) % size;
      Negated((-x) / size, size);
    }
  }

  lemma Negated(q: int, size: int)
    ensures (-q) * size == -(q * size)
  {
  }

  /** Two multiples less than one size apart are the same. */
  lemma SameMultiple(x: int, y: int, size: int)
    requires size > 0 && x % size == 0 && y % size == 0 && -size < x - y < size
    ensures x == y
  {
    var a, b := x / size, y / size;
    Expand(1, a, -b, size);
    assert x == a * size && y == b * size;
    if a > b {
      MulMonotone(1, a - b, size);
    } else if a < b {
      MulMonotone(a - b, -1, size);
    }
    assert (a - b) * size == x - y;
  }

  predicate FallsInto(step: int, p: int, t: Trade)
    requires step > 0
  {
    StartsAt(p, step, t.price)
  }

  /** A trade's bucket is the multiple of the step its price lies at. */
  lemma BucketMeaning(step: int, t: Trade, p: int)
    requires step > 0
    ensures BucketPrice(step, t) == p <==> FallsInto(step, p, t)
  {
    TruncatedToMultiple(t.price, step, p);
  }

  /** A trade's window starts at the multiple of the length its time stamp lies at. */
  lemma WindowMeaning(window: int, t: Trade, w: int)
    requires window > 0
    ensures WindowStart(window, t) == w <==> StartsAt(w, window, t.ts)
  {
    TruncatedToMultiple(t.ts, window, w);
  }

  /** The quantity traded by one side's aggressors at the prices of a bucket. */
  function QtyOf(step: int, trades: seq<Trade>, side: Side, p: int): int
    requires step > 0
  {
    if trades == [] then 0
    else
      var t := Last(trades);
      QtyOf(step, Init(trades), side, p) + if t.side == side && FallsInto(step, p, t) then t.qty else 0
  }

  function CountOf(step: int, trades: seq<Trade>, p: int): nat
    requires step > 0
  {
    if trades == [] then 0
    else CountOf(step, Init(trades), p) + if FallsInto(step, p, Last(trades)) then 1 else 0
  }

  lemma {:induction false} TotalsAre(step: int, trades: seq<Trade>, p: int)
    requires step > 0
    ensures Total(step, BidQty, trades, p) == QtyOf(step, trades, Bid, p)
    ensures Total(step, AskQty, trades, p) == QtyOf(step, trades, Ask, p)
    ensures Total(step, TradeCount, trades, p) == CountOf(step, trades, p)
  {
    if trades != [] {
      TotalsAre(step, Init(trades), p);
      BucketMeaning(step, Last(trades), p);
    }
  }

  lemma KeysMeaning(step: int, trades: seq<Trade>)
    requires step > 0
    ensures forall p :: p in Buckets(step, trades) <==> exists t :: t in trades && FallsInto(step, p, t)
  {
    forall p, t
      ensures BucketPrice(step, t) == p <==> FallsInto(step, p, t)
    {
      BucketMeaning(step, t, p);
    }
  }

  /** The footprint has a bucket at each multiple of the step at which some trade's price lies, with the bid
      and ask quantities and the number of its trades, each cut at the greatest value of its type. */
  lemma FootprintMeaning(step: int, trades: seq<Trade>, p: int)
    requires step > 0 && NonNegative(trades)
    ensures p in Buckets(step, trades) <==> exists t :: t in trades && FallsInto(step, p, t)
    ensures p in Buckets(step, trades) ==>
              Buckets(step, trades)[p]
              == Bucket(Min(QtyOf(step, trades, Bid, p), 0x7FFF_FFFF_FFFF_FFFF),
                        Min(QtyOf(step, trades, Ask, p), 0x7FFF_FFFF_FFFF_FFFF),
                        Min(CountOf(step, trades, p), 0xFFFF_FFFF))
  {
    KeysMeaning(step, trades);
    TotalsAre(step, trades, p);
    TallyIsCappedTotal(step, BidQty, trades, p);
    TallyIsCappedTotal(step, AskQty, trades, p);
    TallyIsCappedTotal(step, TradeCount, trades, p);
  }

  /** The value fits the column's type. */
  predicate Representable(col: Column, x: int) {
    if col.TradeCount? then 0 <= x <= 0xFFFF_FFFF else -0x8000_0000_0000_0000 <= x <= 0x7FFF_FFFF_FFFF_FFFF
  }

  /** With quantities of any sign, a column is exact as long as no running total leaves its type. */
  lemma {:induction false} TallyExact(step: int, col: Column, trades: seq<Trade>, p: int)
    requires step > 0
    requires forall n :: 0 <= n <= |trades| ==> Representable(col, Total(step, col, trades[..n], p))
    ensures Tally(step, col, trades, p) == Total(step, col, trades, p)
  {
    if trades != [] {
      forall n | 0 <= n <= |Init(trades)|
        ensures Representable(col, Total(step, col, Init(trades)[..n], p))
      {
        assert Init(trades)[..n] == trades[..n];
      }
      TallyExact(step, col, Init(trades), p);
      assert trades[..|trades|] == trades;
    }
  }

  /** Trades at price 0 before any other leave no trace in the OHLC. */
  lemma {:induction false} LeadingZeros(zeros: seq<Trade>, rest: seq<Trade>)
    requires forall t :: t in zeros ==> t.price == 0
    ensures OhlcOf(zeros + rest) == OhlcOf(rest)
  {
    if rest != [] {
      LeadingZeros(zeros, Init(rest));
      assert Init(zeros + rest) == zeros + Init(rest);
    } else if zeros != [] {
      LeadingZeros(Init(zeros), []);
      assert zeros + [] == zeros && Init(zeros) + [] == Init(zeros);
      assert Last(zeros) in zeros;
    } else {
      assert zeros + rest == rest;
    }
  }
}
