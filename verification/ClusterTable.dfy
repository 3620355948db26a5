/** The lossy path from the bus to the table: snapshots become rows, some rows never arrive, and
    the newest row of a (window, price) pair wins. */
module ClusterTable {
  import opened Common
  import opened Footprint
  import opened Aggregator
  import opened AggregatorRun
  import opened AggregatorLog
  import opened Timeframes

  datatype Key = Key(window: int, price: int)

  /** `ingestedAt` is the version column of the replacing merge. */
  datatype Row = Row(bucket: Bucket, ohlc: Ohlc, ingestedAt: int)

  type Table = map<Key, Row>

  /** What became of the rows of one frame: when each one that reached the table was inserted, by price.
      Rows are sent one by one, so one frame may be split over several inserts. */
  datatype Arrival = Arrival(times: map<int, int>)

  /** One row per bucket of a snapshot, every row carrying the OHLC of the whole frame. */
  function RowsFromSnapshot(frame: Frame, a: Arrival): Table
    requires frame.Snapshot?
  {
    map p | p in frame.clusters && p in a.times ::
      Key(StoredStart(frame.window), p) := Row(frame.clusters[p], frame.ohlc, a.times[p])
  }

  /** The fan-out writes snapshots only; diffs are for live subscribers. */
  function RowsOf(frame: Frame, a: Arrival): Table {
    if frame.Snapshot? then RowsFromSnapshot(frame, a) else map[]
  }

  /** What the replacing merge keeps of stored and newly inserted rows: per key the greatest version,
      and of equal versions the row inserted last. */
  function Merge(stored: Table, rows: Table): Table {
    map k | k in stored.Keys + rows.Keys ::
      if k in rows && (k in stored ==> stored[k].ingestedAt <= rows[k].ingestedAt) then rows[k] else stored[k]
  }

  /** The deduplicated table once the arrivals have been inserted in order. */
  function Store(log: seq<Emission>, arrivals: seq<Arrival>): Table
    requires |log| == |arrivals|
  {
    if log == [] then map[]
    else Merge(Store(Init(log), Init(arrivals)), RowsOf(Last(log).frame, Last(arrivals)))
  }

  /** The insert clock never goes back from one frame to a later one. */
  ghost predicate Clocked(arrivals: seq<Arrival>) {
    forall i, j, p, q ::
      0 <= i < j < |arrivals| && p in arrivals[i].times && q in arrivals[j].times ==>
        arrivals[i].times[p] <= arrivals[j].times[q]
  }

  ghost predicate Writes(log: seq<Emission>, arrivals: seq<Arrival>, i: int, k: Key)
    requires |log| == |arrivals| && 0 <= i < |log|
  {
    k in RowsOf(log[i].frame, arrivals[i])
  }

  /** When frame `i` wrote key `k`. */
  function At(log: seq<Emission>, arrivals: seq<Arrival>, i: int, k: Key): int
    requires |log| == |arrivals| && 0 <= i < |log| && Writes(log, arrivals, i, k)
  {
    arrivals[i].times[k.price]
  }

  /** Frame `i` is the last one that wrote key `k`. */
  ghost predicate LastWriter(log: seq<Emission>, arrivals: seq<Arrival>, i: int, k: Key)
    requires |log| == |arrivals|
  {
    && 0 <= i < |log|
    && Writes(log, arrivals, i, k)
    && (forall j :: i < j < |log| ==> !Writes(log, arrivals, j, k))
  }

  /** The row of frame `i` is the one a replacing merge keeps: no row of its key has a greater version,
      and none written later an equal one. */
  ghost predicate Prevails(log: seq<Emission>, arrivals: seq<Arrival>, i: int, k: Key)
    requires |log| == |arrivals|
  {
    && 0 <= i < |log|
    && Writes(log, arrivals, i, k)
    && (forall j :: 0 <= j < |log| && Writes(log, arrivals, j, k) ==>
          At(log, arrivals, j, k) <= At(log, arrivals, i, k))
    && (forall j :: i < j < |log| && Writes(log, arrivals, j, k) ==>
          At(log, arrivals, j, k) < At(log, arrivals, i, k))
  }

  lemma {:induction false} WrittenIsStored(log: seq<Emission>, arrivals: seq<Arrival>, i: int, k: Key)
    requires |log| == |arrivals| && 0 <= i < |log| && Writes(log, arrivals, i, k)
    ensures k in Store(log, arrivals)
  {
    if i < |log| - 1 {
      assert Writes(Init(log), Init(arrivals), i, k);
      WrittenIsStored(Init(log), Init(arrivals), i, k);
    }
  }

  /** The last frame's row of a key takes over from the one that prevailed unless its version is smaller. */
  lemma PrevailsNext(log: seq<Emission>, arrivals: seq<Arrival>, i: int, k: Key)
    requires |log| == |arrivals| > 0 && Prevails(Init(log), Init(arrivals), i, k)
    ensures var n := |log| - 1;
            && Writes(log, arrivals, i, k)
            && if Writes(log, arrivals, n, k) && At(log, arrivals, i, k) <= At(log, arrivals, n, k)
               then Prevails(log, arrivals, n, k) else Prevails(log, arrivals, i, k)
  {
    forall j | 0 <= j < |log| - 1 && Writes(log, arrivals, j, k)
      ensures At(log, arrivals, j, k) <= At(log, arrivals, i, k)
      ensures j > i ==> At(log, arrivals, j, k) < At(log, arrivals, i, k)
    {
      assert Writes(Init(log), Init(arrivals), j, k);
      assert At(Init(log), Init(arrivals), j, k) <= At(Init(log), Init(arrivals), i, k);
    }
  }

  lemma PrevailsAlone(log: seq<Emission>, arrivals: seq<Arrival>, k: Key)
    requires |log| == |arrivals| > 0 && Writes(log, arrivals, |log| - 1, k)
    requires k !in Store(Init(log), Init(arrivals))
    ensures Prevails(log, arrivals, |log| - 1, k)
  {
    forall j | 0 <= j < |log| - 1
      ensures !Writes(log, arrivals, j, k)
    {
      if Writes(Init(log), Init(arrivals), j, k) {
        WrittenIsStored(Init(log), Init(arrivals), j, k);
      }
    }
  }

  /** Whatever the clock does, the table holds for every key ever written its newest row. */
  lemma {:induction false} NewestVersionWins(log: seq<Emission>, arrivals: seq<Arrival>, k: Key) returns (i: int)
    requires |log| == |arrivals| && k in Store(log, arrivals)
    ensures Prevails(log, arrivals, i, k)
    ensures Store(log, arrivals)[k] == RowsOf(log[i].frame, arrivals[i])[k]
  {
    var n := |log| - 1;
    var before, rows := Store(Init(log), Init(arrivals)), RowsOf(Last(log).frame, Last(arrivals));
    if k in before {
      i := NewestVersionWins(Init(log), Init(arrivals), k);
      PrevailsNext(log, arrivals, i, k);
      if k in rows && before[k].ingestedAt <= rows[k].ingestedAt {
        i := n;
      }
    } else {
      i := n;
      PrevailsAlone(log, arrivals, k);
    }
  }

  lemma WritesInTime(log: seq<Emission>, arrivals: seq<Arrival>, i: int, j: int, k: Key)
    requires |log| == |arrivals| && Clocked(arrivals) && 0 <= i < j < |log|
    requires Writes(log, arrivals, i, k) && Writes(log, arrivals, j, k)
    ensures At(log, arrivals, i, k) <= At(log, arrivals, j, k)
  {
  }

  /** The last row written to a key is the one kept exactly when no earlier one has a greater version. */
  lemma LastWriterKept(log: seq<Emission>, arrivals: seq<Arrival>, i: int, k: Key)
    requires |log| == |arrivals| && LastWriter(log, arrivals, i, k)
    ensures k in Store(log, arrivals)
    ensures Store(log, arrivals)[k] == RowsOf(log[i].frame, arrivals[i])[k]
            <==> forall j :: 0 <= j < i && Writes(log, arrivals, j, k) ==>
                   At(log, arrivals, j, k) <= At(log, arrivals, i, k)
  {
    WrittenIsStored(log, arrivals, i, k);
    var newest := NewestVersionWins(log, arrivals, k);
    if newest < i {
      assert At(log, arrivals, i, k) < At(log, arrivals, newest, k);
    }
  }

  /** Under a clock that never goes back the last write wins. */
  lemma LastWriteWins(log: seq<Emission>, arrivals: seq<Arrival>, k: Key) returns (i: int)
    requires |log| == |arrivals| && Clocked(arrivals) && k in Store(log, arrivals)
    ensures LastWriter(log, arrivals, i, k)
    ensures Store(log, arrivals)[k] == RowsOf(log[i].frame, arrivals[i])[k]
  {
    i := NewestVersionWins(log, arrivals, k);
    forall j | i < j < |log|
      ensures !Writes(log, arrivals, j, k)
    {
      if Writes(log, arrivals, j, k) {
        WritesInTime(log, arrivals, i, j, k);
        assert false;
      }
    }
  }

  lemma StoredBefore(log: seq<Emission>, arrivals: seq<Arrival>, k: Key)
    requires |log| == |arrivals| > 0 && Clocked(arrivals)
    requires k in Store(Init(log), Init(arrivals)) && k in RowsOf(Last(log).frame, Last(arrivals))
    ensures Store(Init(log), Init(arrivals))[k].ingestedAt <= RowsOf(Last(log).frame, Last(arrivals))[k].ingestedAt
  {
    var i := NewestVersionWins(Init(log), Init(arrivals), k);
    assert Writes(log, arrivals, i, k) && Writes(log, arrivals, |log| - 1, k);
    WritesInTime(log, arrivals, i, |log| - 1, k);
  }

  lemma OverrideIfNewer(stored: Table, rows: Table)
    requires forall k :: k in stored && k in rows ==> stored[k].ingestedAt <= rows[k].ingestedAt
    ensures Merge(stored, rows) == stored + rows
  {
  }

  /** Under a clock that never goes back the merge is a plain override, in the order of insertion. */
  lemma MergeOverrides(log: seq<Emission>, arrivals: seq<Arrival>)
    requires |log| == |arrivals| > 0 && Clocked(arrivals)
    ensures Store(log, arrivals) == Store(Init(log), Init(arrivals)) + RowsOf(Last(log).frame, Last(arrivals))
  {
    forall k | k in Store(Init(log), Init(arrivals)) && k in RowsOf(Last(log).frame, Last(arrivals))
      ensures Store(Init(log), Init(arrivals))[k].ingestedAt <= RowsOf(Last(log).frame, Last(arrivals))[k].ingestedAt
    {
      StoredBefore(log, arrivals, k);
    }
    OverrideIfNewer(Store(Init(log), Init(arrivals)), RowsOf(Last(log).frame, Last(arrivals)));
  }

  /** The timeframe has a whole number of milliseconds, as every configured one does. */
  predicate InMillis(c: Config, ms: int) {
    c.Valid() && ms > 0 && c.window == ms * NANOS_PER_MS
  }

  lemma ConfiguredInMillis(step: int, windowMs: int, diffMs: int)
    requires step > 0 && windowMs > 0 && diffMs > 0
    ensures InMillis(Config(step, windowMs * 1_000_000, diffMs * 1_000_000), windowMs)
  {
  }

  /** Stored window starts tell the windows of a log apart. */
  lemma SameStoredStart(c: Config, ms: int, accepted: seq<Trade>, e: Emission, e': Emission)
    requires InMillis(c, ms) && Faithful(c, accepted, e) && Faithful(c, accepted, e')
    ensures StoredStart(e.frame.window) == StoredStart(e'.frame.window) <==> e.frame.window == e'.frame.window
  {
    StoredStartOf(c, ms, accepted, e);
    StoredStartOf(c, ms, accepted, e');
  }

  lemma StoredStartOf(c: Config, ms: int, accepted: seq<Trade>, e: Emission)
    requires InMillis(c, ms) && Faithful(c, accepted, e)
    ensures StoredStart(e.frame.window) * NANOS_PER_MS == e.frame.window
  {
    var all := InWindow(c.window, accepted, e.frame.window);
    assert all[0] in all;
    InWindowMembers(c.window, accepted, e.frame.window);
    StoredStartExact(c, ms, all[0]);
  }

  /** All rows of frame `i` arrived. */
  ghost predicate Delivered(log: seq<Emission>, arrivals: seq<Arrival>, i: int)
    requires |log| == |arrivals| && 0 <= i < |log|
  {
    log[i].frame.clusters.Keys <= arrivals[i].times.Keys
  }

  /** No frame after the closing one writes to its window. */
  lemma ClosingIsLast(c: Config, ms: int, accepted: seq<Trade>, log: seq<Emission>, arrivals: seq<Arrival>, i: int,
                      k: Key)
    requires InMillis(c, ms) && GoodLog(c, accepted, log) && |log| == |arrivals|
    requires 0 <= i < |log| && log[i].kind.Closing? && k.window == StoredStart(log[i].frame.window)
    ensures forall j :: i < j < |log| ==> !Writes(log, arrivals, j, k)
  {
    forall j | i < j < |log|
      ensures !Writes(log, arrivals, j, k)
    {
      assert InOrder(log[i], log[j]);
      SameStoredStart(c, ms, accepted, log[i], log[j]);
    }
  }

  lemma PrefixTouches(step: int, all: seq<Trade>, cut: nat, p: int)
    requires step > 0 && cut <= |all|
    ensures p in Touched(step, all[..cut]) ==> p in Touched(step, all)
  {
    if p in Touched(step, all[..cut]) {
      var t :| t in all[..cut] && BucketPrice(step, t) == p;
      assert t in all;
    }
  }

  /** A delivered closing frame writes every bucket of its window, as it finally stands. */
  lemma {:induction false} ClosingWrites(c: Config, ms: int, accepted: seq<Trade>, log: seq<Emission>,
                                         arrivals: seq<Arrival>, i: int, k: Key)
    requires InMillis(c, ms) && GoodLog(c, accepted, log) && |log| == |arrivals|
    requires 0 <= i < |log| && log[i].kind.Closing? && Delivered(log, arrivals, i)
    requires k.window == StoredStart(log[i].frame.window)
    ensures var all := InWindow(c.window, accepted, log[i].frame.window);
            && (Writes(log, arrivals, i, k) <==> k.price in Buckets(c.step, all))
            && (Writes(log, arrivals, i, k) ==>
                  RowsOf(log[i].frame, arrivals[i])[k]
                  == Row(Buckets(c.step, all)[k.price], OhlcOf(all), At(log, arrivals, i, k)))
  {
    var all := InWindow(c.window, accepted, log[i].frame.window);
    assert all[..|all|] == all;
    assert Faithful(c, accepted, log[i]);
  }

  /** Any frame that writes to the window of frame `i` writes a bucket its trades touched. */
  lemma {:induction false} WrittenWasTraded(c: Config, ms: int, accepted: seq<Trade>, log: seq<Emission>,
                                            arrivals: seq<Arrival>, i: int, j: int, k: Key)
    requires InMillis(c, ms) && GoodLog(c, accepted, log) && |log| == |arrivals|
    requires 0 <= i < |log| && 0 <= j < |log| && Writes(log, arrivals, j, k)
    requires k.window == StoredStart(log[i].frame.window)
    ensures k.price in Buckets(c.step, InWindow(c.window, accepted, log[i].frame.window))
  {
    assert Faithful(c, accepted, log[j]) && Faithful(c, accepted, log[i]);
    SameStoredStart(c, ms, accepted, log[i], log[j]);
    PrefixTouches(c.step, InWindow(c.window, accepted, log[i].frame.window), log[j].cut, k.price);
  }

  /** The row a finished window has for key `k`, inserted at `at`. */
  function FinalRow(step: int, all: seq<Trade>, k: Key, at: int): Row
    requires step > 0 && k.price in Buckets(step, all)
  {
    Row(Buckets(step, all)[k.price], OhlcOf(all), at)
  }

  /** No earlier frame wrote key `k` with a greater insert time than frame `i`. */
  ghost predicate NotOvertaken(log: seq<Emission>, arrivals: seq<Arrival>, i: int, k: Key)
    requires |log| == |arrivals| && 0 <= i < |log| && Writes(log, arrivals, i, k)
  {
    forall j :: 0 <= j < i && Writes(log, arrivals, j, k) ==> At(log, arrivals, j, k) <= At(log, arrivals, i, k)
  }

  /** Whatever was lost or half written before, and whatever the clock did: once every row of a window's
      closing snapshot has arrived, the table has exactly that window's keys, and a key has its final row
      exactly when no earlier row of it carries a greater insert time. */
  lemma {:induction false} ClosingRowKept(c: Config, ms: int, accepted: seq<Trade>, log: seq<Emission>,
                                          arrivals: seq<Arrival>, i: int, k: Key)
    requires InMillis(c, ms) && GoodLog(c, accepted, log) && |log| == |arrivals|
    requires 0 <= i < |log| && log[i].kind.Closing? && Delivered(log, arrivals, i)
    requires k.window == StoredStart(log[i].frame.window)
    ensures var all := InWindow(c.window, accepted, log[i].frame.window);
            && (k in Store(log, arrivals) <==> k.price in Buckets(c.step, all))
            && (Writes(log, arrivals, i, k) <==> k in Store(log, arrivals))
            && (k in Store(log, arrivals) ==>
                  (Store(log, arrivals)[k] == FinalRow(c.step, all, k, At(log, arrivals, i, k))
                   <==> NotOvertaken(log, arrivals, i, k)))
  {
    ClosingWrites(c, ms, accepted, log, arrivals, i, k);
    ClosingIsLast(c, ms, accepted, log, arrivals, i, k);
    if k in Store(log, arrivals) {
      var j := NewestVersionWins(log, arrivals, k);
      WrittenWasTraded(c, ms, accepted, log, arrivals, i, j, k);
    }
    if Writes(log, arrivals, i, k) {
      LastWriterKept(log, arrivals, i, k);
    }
  }

  /** Under a clock that never goes back, the table then holds exactly that window: its buckets and no
      others, each row with the final OHLC and the time of the closing insert. */
  lemma {:induction false} ClosingRepairsWindow(c: Config, ms: int, accepted: seq<Trade>, log: seq<Emission>,
                                                arrivals: seq<Arrival>, i: int, k: Key)
    requires InMillis(c, ms) && GoodLog(c, accepted, log) && |log| == |arrivals| && Clocked(arrivals)
    requires 0 <= i < |log| && log[i].kind.Closing? && Delivered(log, arrivals, i)
    requires k.window == StoredStart(log[i].frame.window)
    ensures var all := InWindow(c.window, accepted, log[i].frame.window);
            && (k in Store(log, arrivals) <==> k.price in Buckets(c.step, all))
            && (k in Store(log, arrivals) ==>
                  && Writes(log, arrivals, i, k)
                  && Store(log, arrivals)[k] == FinalRow(c.step, all, k, At(log, arrivals, i, k)))
  {
    ClosingRowKept(c, ms, accepted, log, arrivals, i, k);
  }

  /** Over whole runs: if every closing snapshot arrives and the insert clock never goes back, then
      whatever else is lost, each window that ever accepted a trade is stored exactly as its accepted
      trades say. */
  lemma EveryWindowStored(c: Config, ms: int, es: seq<Event>, arrivals: seq<Arrival>, t: Trade, k: Key)
    requires InMillis(c, ms) && t in AcceptedBy(c, es) && |arrivals| == |Published(c, es)| && Clocked(arrivals)
    requires forall i :: 0 <= i < |arrivals| && Published(c, es)[i].kind.Closing? ==>
               Delivered(Published(c, es), arrivals, i)
    requires k.window == StoredStart(WindowStart(c.window, t))
    ensures var table := Store(Published(c, es), arrivals);
            var all := InWindow(c.window, AcceptedBy(c, es), WindowStart(c.window, t));
            && (k in table <==> k.price in Buckets(c.step, all))
            && (k in table ==> table[k] == FinalRow(c.step, all, k, table[k].ingestedAt))
  {
    PublishedClosesAll(c, es);
    var log := Published(c, es);
    var i :| 0 <= i < |log| && log[i].kind.Closing? && log[i].frame.window == WindowStart(c.window, t);
    ClosingRepairsWindow(c, ms, AcceptedBy(c, es), log, arrivals, i, k);
  }
}
