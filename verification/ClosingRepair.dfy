/** When a window's closing snapshot, once delivered, leaves the table right: exactly. */
module ClosingRepair {
  import opened Common
  import opened Footprint
  import opened Aggregator
  import opened AggregatorRun
  import opened AggregatorLog
  import opened Timeframes
  import opened ClusterTable

  /** What a row tells its reader about a list of trades: their bucket at its price, and their OHLC. */
  ghost predicate Says(row: Row, step: int, trades: seq<Trade>, p: int)
    requires step > 0 && p in Buckets(step, trades)
  {
    row.bucket == Buckets(step, trades)[p] && row.ohlc == OhlcOf(trades)
  }

  /** Neither the bucket at `p` nor the OHLC has changed since the first `cut` trades. */
  ghost predicate SettledAt(step: int, all: seq<Trade>, cut: nat, p: int)
    requires step > 0 && cut <= |all|
  {
    BucketAt(step, all[..cut], p) == BucketAt(step, all, p) && OhlcOf(all[..cut]) == OhlcOf(all)
  }

  lemma {:induction false} CountWithin(step: int, trades: seq<Trade>, p: int)
    requires step > 0 && |trades| <= U32_MAX
    ensures 0 <= Tally(step, TradeCount, trades, p) <= |trades|
  {
    if trades != [] {
      CountWithin(step, Init(trades), p);
    }
  }

  /** As long as the trade counter cannot saturate, a bucket is unchanged exactly if no further trade
      fell into it. */
  lemma {:induction false} BucketUnchanged(step: int, x: seq<Trade>, y: seq<Trade>, p: int)
    requires step > 0 && |x| + |y| <= U32_MAX
    ensures BucketAt(step, x + y, p) == BucketAt(step, x, p) <==> forall t :: t in y ==> BucketPrice(step, t) != p
    ensures Tally(step, TradeCount, x + y, p) >= Tally(step, TradeCount, x, p)
    decreases |y|
  {
    if y == [] {
      assert x + y == x;
    } else {
      var init := Init(y);
      BucketUnchanged(step, x, init, p);
      assert Init(x + y) == x + init && Last(x + y) == Last(y);
      CountWithin(step, x + init, p);
      assert y == init + [Last(y)];
    }
  }

  /** So a key is settled exactly if no later trade of the window fell into its bucket or changed the OHLC. */
  lemma SettledMeans(step: int, all: seq<Trade>, cut: nat, p: int)
    requires step > 0 && cut <= |all| <= U32_MAX
    ensures SettledAt(step, all, cut, p)
            <==> (forall t :: t in all[cut..] ==> BucketPrice(step, t) != p) && OhlcOf(all[..cut]) == OhlcOf(all)
  {
    assert all[..cut] + all[cut..] == all;
    BucketUnchanged(step, all[..cut], all[cut..], p);
  }

  lemma PrevailsUnique(log: seq<Emission>, arrivals: seq<Arrival>, i: int, j: int, k: Key)
    requires |log| == |arrivals| && Prevails(log, arrivals, i, k) && Prevails(log, arrivals, j, k)
    ensures i == j
  {
  }

  /** What frame `j` wrote to a key of the window of frame `i`. */
  lemma WrittenRow(c: Config, ms: int, accepted: seq<Trade>, log: seq<Emission>, arrivals: seq<Arrival>,
                   i: int, j: int, k: Key)
    requires InMillis(c, ms) && GoodLog(c, accepted, log) && |log| == |arrivals|
    requires 0 <= i < |log| && 0 <= j < |log| && Writes(log, arrivals, j, k)
    requires k.window == StoredStart(log[i].frame.window)
    ensures var all := InWindow(c.window, accepted, log[i].frame.window);
            && log[j].cut <= |all|
            && k.price in Buckets(c.step, all[..log[j].cut]) && k.price in Buckets(c.step, all)
            && Says(RowsOf(log[j].frame, arrivals[j])[k], c.step, all[..log[j].cut], k.price)
  {
    assert Faithful(c, accepted, log[j]) && Faithful(c, accepted, log[i]);
    SameStoredStart(c, ms, accepted, log[i], log[j]);
    PrefixTouches(c.step, InWindow(c.window, accepted, log[i].frame.window), log[j].cut, k.price);
  }

  /** Every frame that overtook the closing one at key `k` was taken when the key had its final content. */
  ghost predicate OvertakersSettled(c: Config, accepted: seq<Trade>, log: seq<Emission>, arrivals: seq<Arrival>,
                                    i: int, k: Key)
    requires c.Valid() && |log| == |arrivals| && 0 <= i < |log|
  {
    var all := InWindow(c.window, accepted, log[i].frame.window);
    forall j :: 0 <= j < i && Prevails(log, arrivals, j, k) ==>
      log[j].cut <= |all| && SettledAt(c.step, all, log[j].cut, k.price)
  }

  /** Whatever was lost and whatever the clock did, a key of a window whose closing rows arrived tells the
      final bucket and OHLC exactly when the row that overtook the closing one, if any, was taken after the
      last trade that changed them. */
  lemma {:induction false} ClosingContentExact(c: Config, ms: int, accepted: seq<Trade>, log: seq<Emission>,
                                               arrivals: seq<Arrival>, i: int, k: Key)
    requires InMillis(c, ms) && GoodLog(c, accepted, log) && |log| == |arrivals|
    requires 0 <= i < |log| && log[i].kind.Closing? && Delivered(log, arrivals, i)
    requires k.window == StoredStart(log[i].frame.window)
    ensures var all := InWindow(c.window, accepted, log[i].frame.window);
            && (k in Store(log, arrivals) <==> k.price in Buckets(c.step, all))
            && (k in Store(log, arrivals) ==>
                  (Says(Store(log, arrivals)[k], c.step, all, k.price)
                   <==> OvertakersSettled(c, accepted, log, arrivals, i, k)))
  {
    ClosingRowKept(c, ms, accepted, log, arrivals, i, k);
    if k in Store(log, arrivals) {
      var all := InWindow(c.window, accepted, log[i].frame.window);
      var n := NewestVersionWins(log, arrivals, k);
      ClosingIsLast(c, ms, accepted, log, arrivals, i, k);
      WrittenRow(c, ms, accepted, log, arrivals, i, n, k);
      if n == i {
        ClosingWrites(c, ms, accepted, log, arrivals, i, k);
      }
      forall j | 0 <= j < i && Prevails(log, arrivals, j, k)
        ensures j == n
      {
        PrevailsUnique(log, arrivals, j, n, k);
      }
    }
  }

  /** The whole window is right exactly when that holds for each of its keys. */
  lemma {:induction false} ClosingRepairsExactly(c: Config, ms: int, accepted: seq<Trade>, log: seq<Emission>,
                                                 arrivals: seq<Arrival>, i: int)
    requires InMillis(c, ms) && GoodLog(c, accepted, log) && |log| == |arrivals|
    requires 0 <= i < |log| && log[i].kind.Closing? && Delivered(log, arrivals, i)
    ensures HoldsWindow(c, accepted, log, arrivals, i)
            <==> forall k: Key :: k.window == StoredStart(log[i].frame.window) ==>
                   OvertakersSettled(c, accepted, log, arrivals, i, k)
  {
    forall k: Key | k.window == StoredStart(log[i].frame.window)
      ensures RightAt(c, accepted, log, arrivals, i, k) <==> OvertakersSettled(c, accepted, log, arrivals, i, k)
    {
      ClosingContentExact(c, ms, accepted, log, arrivals, i, k);
      if k !in Store(log, arrivals) {
        NoneOvertakes(log, arrivals, k);
      }
    }
  }

  lemma NoneOvertakes(log: seq<Emission>, arrivals: seq<Arrival>, k: Key)
    requires |log| == |arrivals| && k !in Store(log, arrivals)
    ensures forall j :: !Prevails(log, arrivals, j, k)
  {
    forall j | 0 <= j < |log| && Writes(log, arrivals, j, k)
      ensures false
    {
      WrittenIsStored(log, arrivals, j, k);
    }
  }

  /** The key is stored exactly if the window of frame `i` has it, and then with the final content. */
  ghost predicate RightAt(c: Config, accepted: seq<Trade>, log: seq<Emission>, arrivals: seq<Arrival>, i: int, k: Key)
    requires c.Valid() && |log| == |arrivals| && 0 <= i < |log|
  {
    var all := InWindow(c.window, accepted, log[i].frame.window);
    && (k in Store(log, arrivals) <==> k.price in Buckets(c.step, all))
    && (k in Store(log, arrivals) ==> Says(Store(log, arrivals)[k], c.step, all, k.price))
  }

  /** The table holds exactly the window of frame `i`. */
  ghost predicate HoldsWindow(c: Config, accepted: seq<Trade>, log: seq<Emission>, arrivals: seq<Arrival>, i: int)
    requires c.Valid() && |log| == |arrivals| && 0 <= i < |log|
  {
    forall k: Key :: k.window == StoredStart(log[i].frame.window) ==> RightAt(c, accepted, log, arrivals, i, k)
  }
}
