/** What the table holds of a window that is still open: buckets of mixed age, each one exact for some
    moment of the window, and up to date where no partial snapshot was lost. */
module OpenWindow {
  import opened Common
  import opened Footprint
  import opened Aggregator
  import opened AggregatorRun
  import opened AggregatorLog
  import opened Timeframes
  import opened ClusterTable

  /** Under any loss and any clock, every stored row is a true row: bucket and OHLC of the first trades of
      its window, up to some trade. */
  lemma StoredRowIsOfPrefix(c: Config, ms: int, accepted: seq<Trade>, log: seq<Emission>, arrivals: seq<Arrival>,
                            k: Key) returns (w: int, cut: nat)
    requires InMillis(c, ms) && GoodLog(c, accepted, log) && |log| == |arrivals| && k in Store(log, arrivals)
    ensures StoredStart(w) == k.window && 0 < cut <= |InWindow(c.window, accepted, w)|
    ensures var prefix := InWindow(c.window, accepted, w)[..cut];
            && k.price in Buckets(c.step, prefix)
            && Store(log, arrivals)[k] == FinalRow(c.step, prefix, k, Store(log, arrivals)[k].ingestedAt)
  {
    var i := NewestVersionWins(log, arrivals, k);
    assert Faithful(c, accepted, log[i]);
    w, cut := log[i].frame.window, log[i].cut;
  }

  /** Every partial snapshot of window `w` reached the table whole. */
  ghost predicate PartialsDelivered(log: seq<Emission>, arrivals: seq<Arrival>, w: int)
    requires |log| == |arrivals|
  {
    forall i :: 0 <= i < |log| && log[i].kind.Partial? && log[i].frame.window == w ==> Delivered(log, arrivals, i)
  }

  /** The table and a subscriber that replays the partial snapshots hold the same buckets. */
  ghost predicate FollowsReplay(log: seq<Emission>, arrivals: seq<Arrival>, w: int, p: int)
    requires |log| == |arrivals|
  {
    var table, view, k := Store(log, arrivals), Replay(Partial, log, w), Key(StoredStart(w), p);
    (k in table <==> p in view) && (k in table ==> table[k].bucket == view[p])
  }

  /** A delivered partial snapshot of `w` writes its buckets to the window; other frames write nothing there. */
  lemma RowsOfPartial(c: Config, ms: int, accepted: seq<Trade>, e: Emission, a: Arrival, w: int, p: int)
    requires InMillis(c, ms) && Faithful(c, accepted, e) && StoredStart(w) * NANOS_PER_MS == w
    requires e.frame.window == w ==> !e.kind.Closing?
    requires e.frame.window == w && e.kind.Partial? ==> e.frame.clusters.Keys <= a.times.Keys
    ensures var rows, k := RowsOf(e.frame, a), Key(StoredStart(w), p);
            && (k in rows <==> e.frame.window == w && e.kind.Partial? && p in e.frame.clusters)
            && (k in rows ==> rows[k].bucket == e.frame.clusters[p])
  {
    StoredStartOf(c, ms, accepted, e);
  }

  lemma {:induction false} TableFollowsReplay(c: Config, ms: int, accepted: seq<Trade>, log: seq<Emission>,
                                              arrivals: seq<Arrival>, w: int, p: int)
    requires InMillis(c, ms) && GoodLog(c, accepted, log) && |log| == |arrivals| && Clocked(arrivals)
    requires StoredStart(w) * NANOS_PER_MS == w && PartialsDelivered(log, arrivals, w)
    requires forall i :: 0 <= i < |log| && log[i].frame.window == w ==> !log[i].kind.Closing?
    ensures FollowsReplay(log, arrivals, w, p)
  {
    if log != [] {
      PartialsDeliveredBefore(log, arrivals, w);
      TableFollowsReplay(c, ms, accepted, Init(log), Init(arrivals), w, p);
      MergeOverrides(log, arrivals);
      assert Last(log).frame.window == w && Last(log).kind.Partial? ==> Delivered(log, arrivals, |log| - 1);
      RowsOfPartial(c, ms, accepted, Last(log), Last(arrivals), w, p);
    }
  }

  lemma PartialsDeliveredBefore(log: seq<Emission>, arrivals: seq<Arrival>, w: int)
    requires |log| == |arrivals| > 0 && PartialsDelivered(log, arrivals, w)
    ensures PartialsDelivered(Init(log), Init(arrivals), w)
  {
    forall i | 0 <= i < |log| - 1 && Init(log)[i].kind.Partial? && Init(log)[i].frame.window == w
      ensures Delivered(Init(log), Init(arrivals), i)
    {
      assert Delivered(log, arrivals, i);
    }
  }

  lemma OpenWindowStart(c: Config, ms: int, es: seq<Event>)
    requires InMillis(c, ms) && Run(c, es).model.window.Some?
    ensures var w := Run(c, es).model.window.value; StoredStart(w) * NANOS_PER_MS == w
  {
    ReachableState(c, es);
    HighWaterIsMax(c.window, Trades(es));
    var t :| t in Trades(es) && WindowStart(c.window, t) == HighWater(c.window, Trades(es));
    StoredStartExact(c, ms, t);
  }

  // ---- One bucket ------------------------------------------------------------------------------

  /** Frame `i` is the last partial snapshot of window `w` that carried the bucket at `p`. */
  ghost predicate LastCarrying(log: seq<Emission>, i: int, w: int, p: int) {
    && 0 <= i < |log| && Carries(log[i], w, p)
    && (forall j :: i < j < |log| ==> !Carries(log[j], w, p))
  }

  ghost predicate Carries(e: Emission, w: int, p: int) {
    e.kind.Partial? && e.frame.window == w && p in e.frame.clusters
  }

  lemma {:induction false} ReplayIsLastCarrying(log: seq<Emission>, w: int, p: int) returns (i: int)
    requires p in Replay(Partial, log, w)
    ensures LastCarrying(log, i, w, p) && Replay(Partial, log, w)[p] == log[i].frame.clusters[p]
  {
    if Carries(Last(log), w, p) {
      i := |log| - 1;
    } else {
      i := ReplayIsLastCarrying(Init(log), w, p);
      assert forall j :: i < j < |log| - 1 ==> log[j] == Init(log)[j];
    }
  }

  /** Only partial snapshots of the open window write to it. */
  lemma OpenWindowWriter(c: Config, ms: int, es: seq<Event>, arrivals: seq<Arrival>, j: int, k: Key)
    requires InMillis(c, ms) && |arrivals| == |Run(c, es).log| && Run(c, es).model.window.Some?
    requires 0 <= j < |arrivals| && Writes(Run(c, es).log, arrivals, j, k)
    requires k.window == StoredStart(Run(c, es).model.window.value)
    ensures var m, e := Run(c, es).model, Run(c, es).log[j];
            && Carries(e, m.window.value, k.price) && 0 < e.cut <= |m.current|
            && k.price in Buckets(c.step, m.current[..e.cut]) && k.price in Buckets(c.step, m.current)
            && e.frame.clusters[k.price] == Buckets(c.step, m.current[..e.cut])[k.price]
  {
    var m, log := Run(c, es).model, Run(c, es).log;
    ReachableState(c, es);
    LogFacts(c, es);
    OpenWindowStart(c, ms, es);
    assert Faithful(c, AcceptedBy(c, es), log[j]);
    StoredStartOf(c, ms, AcceptedBy(c, es), log[j]);
    PrefixTouches(c.step, m.current, log[j].cut, k.price);
  }

  /** The last partial snapshot with the bucket's row to arrive was taken when the bucket stood as it does. */
  ghost predicate ArrivedSettled(c: Config, es: seq<Event>, arrivals: seq<Arrival>, k: Key)
    requires c.Valid() && |arrivals| == |Run(c, es).log|
  {
    var m, log := Run(c, es).model, Run(c, es).log;
    exists j :: LastWriter(log, arrivals, j, k) && log[j].cut <= |m.current|
                && BucketAt(c.step, m.current[..log[j].cut], k.price) == BucketAt(c.step, m.current, k.price)
  }

  /** The row the last writer left. */
  lemma OpenRow(c: Config, ms: int, es: seq<Event>, arrivals: seq<Arrival>, j: int, k: Key)
    requires InMillis(c, ms) && |arrivals| == |Run(c, es).log| && Clocked(arrivals) && Run(c, es).model.window.Some?
    requires LastWriter(Run(c, es).log, arrivals, j, k) && k.window == StoredStart(Run(c, es).model.window.value)
    ensures var m, log := Run(c, es).model, Run(c, es).log;
            && log[j].cut <= |m.current| && k.price in Buckets(c.step, m.current) && k in Store(log, arrivals)
            && Store(log, arrivals)[k].bucket == BucketAt(c.step, m.current[..log[j].cut], k.price)
  {
    var log := Run(c, es).log;
    OpenWindowWriter(c, ms, es, arrivals, j, k);
    WrittenIsStored(log, arrivals, j, k);
    var i := LastWriteWins(log, arrivals, k);
  }

  /** Exactly then is the stored bucket right. */
  lemma OpenBucketExact(c: Config, ms: int, es: seq<Event>, arrivals: seq<Arrival>, p: int)
    requires InMillis(c, ms) && |arrivals| == |Run(c, es).log| && Clocked(arrivals) && Run(c, es).model.window.Some?
    ensures var m, table := Run(c, es).model, Store(Run(c, es).log, arrivals);
            var truth, k := Buckets(c.step, m.current), Key(StoredStart(m.window.value), p);
            && (k in table ==> p in truth)
            && (k in table && table[k].bucket == truth[p] <==> ArrivedSettled(c, es, arrivals, k))
  {
    var m, log := Run(c, es).model, Run(c, es).log;
    var k := Key(StoredStart(m.window.value), p);
    forall j | LastWriter(log, arrivals, j, k)
      ensures log[j].cut <= |m.current| && p in Buckets(c.step, m.current) && k in Store(log, arrivals)
      ensures Store(log, arrivals)[k].bucket == BucketAt(c.step, m.current[..log[j].cut], p)
    {
      OpenRow(c, ms, es, arrivals, j, k);
    }
    if k in Store(log, arrivals) {
      var j := LastWriteWins(log, arrivals, k);
    }
  }

  /** A bucket that is not pending was last carried as it stands. */
  lemma LastCarriedBucket(c: Config, es: seq<Event>, p: int) returns (i: int)
    requires c.Valid() && Run(c, es).model.window.Some?
    requires p in Buckets(c.step, Run(c, es).model.current) && p !in Run(c, es).model.partialDirty
    ensures LastCarrying(Run(c, es).log, i, Run(c, es).model.window.value, p)
    ensures Run(c, es).log[i].frame.clusters[p] == Buckets(c.step, Run(c, es).model.current)[p]
  {
    ChannelsComplete(c, es, Partial);
    i := ReplayIsLastCarrying(Run(c, es).log, Run(c, es).model.window.value, p);
  }

  lemma LastCarrierWrites(c: Config, ms: int, es: seq<Event>, arrivals: seq<Arrival>, i: int, p: int)
    requires InMillis(c, ms) && |arrivals| == |Run(c, es).log| && Run(c, es).model.window.Some?
    requires LastCarrying(Run(c, es).log, i, Run(c, es).model.window.value, p) && p in arrivals[i].times
    ensures LastWriter(Run(c, es).log, arrivals, i, Key(StoredStart(Run(c, es).model.window.value), p))
  {
    var m, log := Run(c, es).model, Run(c, es).log;
    var k := Key(StoredStart(m.window.value), p);
    LogFacts(c, es);
    assert Faithful(c, AcceptedBy(c, es), log[i]);
    forall j | i < j < |log|
      ensures !Writes(log, arrivals, j, k)
    {
      if Writes(log, arrivals, j, k) {
        OpenWindowWriter(c, ms, es, arrivals, j, k);
        assert false;
      }
    }
  }

  /** Enough for that: the bucket is not pending, and its row of the last partial snapshot that carried it
      arrived.  Later partial snapshots do not bring it again. */
  lemma OpenBucketStored(c: Config, ms: int, es: seq<Event>, arrivals: seq<Arrival>, p: int)
    requires InMillis(c, ms) && |arrivals| == |Run(c, es).log| && Clocked(arrivals) && Run(c, es).model.window.Some?
    requires p in Buckets(c.step, Run(c, es).model.current) && p !in Run(c, es).model.partialDirty
    requires forall i :: LastCarrying(Run(c, es).log, i, Run(c, es).model.window.value, p) ==> p in arrivals[i].times
    ensures var m, table := Run(c, es).model, Store(Run(c, es).log, arrivals);
            var k := Key(StoredStart(m.window.value), p);
            k in table && table[k].bucket == Buckets(c.step, m.current)[p]
  {
    var k := Key(StoredStart(Run(c, es).model.window.value), p);
    var i := LastCarriedBucket(c, es, p);
    LastCarrierWrites(c, ms, es, arrivals, i, p);
    OpenRow(c, ms, es, arrivals, i, k);
    OpenWindowWriter(c, ms, es, arrivals, i, k);
  }

  /** With no partial snapshot of the open window lost, the table agrees with the aggregator on every bucket
      except those touched since the last one, and has no other rows of the window. */
  lemma OpenWindowStored(c: Config, ms: int, es: seq<Event>, arrivals: seq<Arrival>, p: int)
    requires InMillis(c, ms) && |arrivals| == |Run(c, es).log| && Clocked(arrivals)
    requires Run(c, es).model.window.Some? && PartialsDelivered(Run(c, es).log, arrivals, Run(c, es).model.window.value)
    ensures var m, table := Run(c, es).model, Store(Run(c, es).log, arrivals);
            var truth, k := Buckets(c.step, m.current), Key(StoredStart(m.window.value), p);
            && (k in table ==> p in truth)
            && (p in truth && p !in m.partialDirty ==> k in table && table[k].bucket == truth[p])
  {
    var r := Run(c, es);
    var w := r.model.window.value;
    ReachableState(c, es);
    LogFacts(c, es);
    ChannelsComplete(c, es, Partial);
    OpenWindowStart(c, ms, es);
    TableFollowsReplay(c, ms, AcceptedBy(c, es), r.log, arrivals, w, p);
  }
}
