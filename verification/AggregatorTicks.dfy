/** When the two timers publish, and what: in terms of the trades, the clock readings and the published
    frames alone. */
module AggregatorTicks {
  import opened Common
  import opened Footprint
  import opened Aggregator
  import opened AggregatorRun
  import opened AggregatorLog

  // ---- What a timer's frame holds ----------------------------------------------------------------

  /** How many trades of a window its last frame of one kind knew. */
  function LastCut(log: seq<Emission>, w: int, kind: Kind): nat {
    if log == [] then 0
    else if Last(log).frame.window == w && Last(log).kind == kind then Last(log).cut
    else LastCut(Init(log), w, kind)
  }

  lemma {:induction false} NoLastCut(log: seq<Emission>, w: int, kind: Kind)
    requires forall i :: 0 <= i < |log| ==> log[i].frame.window != w
    ensures LastCut(log, w, kind) == 0
  {
    if log != [] {
      NoLastCut(Init(log), w, kind);
    }
  }

  /** The trades of the open window that no frame of this kind has covered. */
  ghost function Uncovered(c: Config, r: Trace, kind: Kind): seq<Trade>
    requires c.Valid()
  {
    if r.model.window.None? then []
    else
      var cut := LastCut(r.log, r.model.window.value, kind);
      if cut <= |r.model.current| then r.model.current[cut..] else []
  }

  ghost predicate PendingAre(c: Config, r: Trace, kind: Kind)
    requires c.Valid() && !kind.Closing?
  {
    && (r.model.window.Some? ==> LastCut(r.log, r.model.window.value, kind) <= |r.model.current|)
    && (r.model.window.None? ==> r.model.current == [])
    && Pending(kind, r.model) == Touched(c.step, Uncovered(c, r, kind))
  }

  /** Pending are always the buckets of the trades not yet covered. */
  lemma {:induction false} PendingIs(c: Config, es: seq<Event>, kind: Kind)
    requires c.Valid() && !kind.Closing?
    ensures PendingAre(c, Run(c, es), kind)
  {
    if es != [] {
      PendingIs(c, Init(es), kind);
      if Last(es).TradeArrived? {
        PendingAfterTrade(c, es, kind);
      } else {
        PendingAfterTimer(c, es, kind);
      }
    }
  }

  lemma PendingAfterTimer(c: Config, es: seq<Event>, kind: Kind)
    requires c.Valid() && !kind.Closing? && es != [] && !Last(es).TradeArrived?
    requires PendingAre(c, Run(c, Init(es)), kind)
    ensures PendingAre(c, Run(c, es), kind)
  {
    var r, r' := Run(c, Init(es)), Run(c, es);
    if r'.log != r.log {
      AppendFrame(r.log, Last(r'.log));
    }
  }

  lemma PendingAfterTrade(c: Config, es: seq<Event>, kind: Kind)
    requires c.Valid() && !kind.Closing? && es != [] && Last(es).TradeArrived?
    requires PendingAre(c, Run(c, Init(es)), kind)
    ensures PendingAre(c, Run(c, es), kind)
  {
    var t, r := Last(es).trade, Run(c, Init(es));
    var w := WindowStart(c.window, t);
    if Rolls(r.model, w) || r.model.window.None? {
      PendingInFreshWindow(c, es, kind);
    } else if !Late(r.model, w) {
      PendingJoined(c, es, kind);
    }
  }

  lemma PendingJoined(c: Config, es: seq<Event>, kind: Kind)
    requires c.Valid() && !kind.Closing? && es != [] && Last(es).TradeArrived?
    requires PendingAre(c, Run(c, Init(es)), kind)
    requires Run(c, Init(es)).model.window == Some(WindowStart(c.window, Last(es).trade))
    ensures PendingAre(c, Run(c, es), kind)
  {
    var t, r := Last(es).trade, Run(c, Init(es));
    var cut := LastCut(r.log, r.model.window.value, kind);
    assert (r.model.current + [t])[cut..] == r.model.current[cut..] + [t];
    TouchedSnoc(c.step, r.model.current[cut..], t);
  }

  lemma PendingInFreshWindow(c: Config, es: seq<Event>, kind: Kind)
    requires c.Valid() && !kind.Closing? && es != [] && Last(es).TradeArrived?
    requires var r, w := Run(c, Init(es)).model, WindowStart(c.window, Last(es).trade);
             Rolls(r, w) || r.window.None?
    ensures PendingAre(c, Run(c, es), kind)
  {
    var t, r' := Last(es).trade, Run(c, es);
    FreshWindow(c, es);
    NoLastCut(r'.log, r'.model.window.value, kind);
    TouchedSnoc(c.step, [], t);
    assert [] + [t] == [t] && [t][0..] == [t];
  }

  lemma FreshWindow(c: Config, es: seq<Event>)
    requires c.Valid() && es != [] && Last(es).TradeArrived?
    requires var r, w := Run(c, Init(es)).model, WindowStart(c.window, Last(es).trade);
             Rolls(r, w) || r.window.None?
    ensures var r' := Run(c, es);
            && r'.model.window == Some(WindowStart(c.window, Last(es).trade)) && r'.model.current == [Last(es).trade]
            && r'.model.dirty == r'.model.partialDirty == {BucketPrice(c.step, Last(es).trade)}
            && forall i :: 0 <= i < |r'.log| ==> r'.log[i].frame.window != r'.model.window.value
  {
    ReachableState(c, Init(es));
    LogFacts(c, Init(es));
  }

  /** `clusters` holds the buckets of `part`, as they stand after all trades of the window. */
  ghost predicate Brings(step: int, clusters: map<int, Bucket>, part: seq<Trade>, all: seq<Trade>)
    requires step > 0
  {
    && (forall p :: p in clusters <==> exists t :: t in part && FallsInto(step, p, t))
    && SubMap(clusters, Buckets(step, all))
  }

  lemma SelectionBrings(step: int, all: seq<Trade>, cut: nat)
    requires step > 0 && cut <= |all|
    ensures Touched(step, all[cut..]) == {} <==> all[cut..] == []
    ensures Brings(step, Select(Buckets(step, all), Touched(step, all[cut..])), all[cut..], all)
  {
    var part := all[cut..];
    NothingTouched(step, part);
    PartTouches(step, part, all);
    KeysMeaning(step, part);
    assert Buckets(step, part).Keys == Touched(step, part);
  }

  lemma NothingTouched(step: int, part: seq<Trade>)
    requires step > 0
    ensures Touched(step, part) == {} <==> part == []
  {
    if part != [] {
      assert part[0] in part;
      assert BucketPrice(step, part[0]) in Touched(step, part);
    }
  }

  lemma PartTouches(step: int, part: seq<Trade>, all: seq<Trade>)
    requires step > 0 && forall t :: t in part ==> t in all
    ensures Touched(step, part) <= Touched(step, all)
  {
  }

  /** The run grows by one frame of this kind, of the open window, with the next number. */
  ghost predicate Publishes(c: Config, before: Trace, after: Trace, kind: Kind)
    requires c.Valid() && before.model.window.Some?
  {
    var w := before.model.window.value;
    && |after.log| == |before.log| + 1 && after.log[..|before.log|] == before.log
    && Last(after.log).kind == kind && Last(after.log).frame.window == w
    && Last(after.log).frame.sequence == |FramesOf(before.log, w)| + 1
    && Brings(c.step, Last(after.log).frame.clusters, Uncovered(c, before, kind), before.model.current)
  }

  /** A partial tick publishes exactly if some trade of the open window came after the last partial snapshot;
      the snapshot brings the buckets of those trades, and the OHLC of the window so far. */
  lemma PartialPublishes(c: Config, es: seq<Event>)
    requires c.Valid()
    ensures var before, after := Run(c, es), Run(c, es + [PartialTick]);
            if Uncovered(c, before, Partial) == [] then after == before
            else Publishes(c, before, after, Partial)
                 && Last(after.log).frame.Snapshot? && Last(after.log).frame.ohlc == OhlcOf(before.model.current)
  {
    var before, after := Run(c, es), Run(c, es + [PartialTick]);
    assert Init(es + [PartialTick]) == es;
    TimerFacts(c, es, Partial);
    if Uncovered(c, before, Partial) != [] {
      AppendFrame(before.log, Last(after.log));
      assert after.log[..|before.log|] == before.log;
    }
  }

  lemma TimerFacts(c: Config, es: seq<Event>, kind: Kind)
    requires c.Valid() && !kind.Closing?
    ensures var r := Run(c, es);
            && (Pending(kind, r.model) == {} <==> Uncovered(c, r, kind) == [])
            && (r.model.window.Some? ==>
                  && r.model.sequence == |FramesOf(r.log, r.model.window.value)|
                  && Brings(c.step, Select(Buckets(c.step, r.model.current), Pending(kind, r.model)),
                            Uncovered(c, r, kind), r.model.current))
  {
    var r := Run(c, es);
    PendingIs(c, es, kind);
    if r.model.window.Some? {
      SequenceNumbers(c, es, r.model.window.value);
      SelectionBrings(c.step, r.model.current, LastCut(r.log, r.model.window.value, kind));
    }
  }

  // ---- The rate limit -------------------------------------------------------------------------------

  /** The clock at the last diff of the open window, 0 if it has had none. */
  ghost function LastDiff(c: Config, es: seq<Event>): int
    requires c.Valid()
  {
    if es == [] then 0
    else if |Run(c, es).log| == |Run(c, Init(es)).log| then LastDiff(c, Init(es))
    else
      match Last(es)
      case DiffTick(now) => now
      case TradeArrived(_) => 0
      case PartialTick => LastDiff(c, Init(es))
  }

  lemma {:induction false} LastDiffIs(c: Config, es: seq<Event>)
    requires c.Valid()
    ensures Run(c, es).model.lastDiffEmit == LastDiff(c, es)
  {
    if es != [] {
      LastDiffIs(c, Init(es));
    }
  }

  lemma SaturatedDistance(x: int, d: int)
    requires d > 0
    ensures Clamp(x, I64_MIN, I64_MAX) >= d <==> x >= d && d <= I64_MAX
  {
  }

  /** A diff tick publishes exactly if some trade of the open window came after its last diff and that diff,
      or clock 0, is at least the interval ago; the diff brings the buckets of those trades. */
  lemma DiffPublishes(c: Config, es: seq<Event>, now: int)
    requires c.Valid() && c.diffInterval <= I64_MAX
    ensures var before, after := Run(c, es), Run(c, es + [DiffTick(now)]);
            if Uncovered(c, before, Live) == [] || now - LastDiff(c, es) < c.diffInterval then after == before
            else Publishes(c, before, after, Live) && Last(after.log).frame.Diff?
  {
    var before, after := Run(c, es), Run(c, es + [DiffTick(now)]);
    assert Init(es + [DiffTick(now)]) == es;
    TimerFacts(c, es, Live);
    LastDiffIs(c, es);
    SaturatedDistance(now - LastDiff(c, es), c.diffInterval);
    if !(Uncovered(c, before, Live) == [] || now - LastDiff(c, es) < c.diffInterval) {
      AppendFrame(before.log, Last(after.log));
      assert after.log[..|before.log|] == before.log;
    }
  }

  /** Event `i` is a diff tick, and it publishes. */
  ghost predicate DiffAt(c: Config, es: seq<Event>, i: int)
    requires c.Valid()
  {
    0 <= i < |es| && es[i].DiffTick? && |Run(c, es[..i + 1]).log| > |Run(c, es[..i]).log|
  }

  lemma Prefixes(c: Config, es: seq<Event>, n: nat)
    requires c.Valid() && n < |es|
    ensures Init(es[..n + 1]) == es[..n] && Last(es[..n + 1]) == es[n]
    ensures Run(c, es[..n + 1]) == Advance(c, Run(c, es[..n]), es[n])
  {
    assert Init(es[..n + 1]) == es[..n];
  }

  /** The open window never moves back, and a frame published on a trade means that it has moved on. */
  lemma WindowMoves(c: Config, es: seq<Event>, n: nat)
    requires c.Valid() && n < |es| && Run(c, es[..n]).model.window.Some?
    ensures var r, r' := Run(c, es[..n]), Run(c, es[..n + 1]);
            && r'.model.window.Some? && r.model.window.value <= r'.model.window.value
            && (es[n].TradeArrived? && |r'.log| > |r.log| ==> r.model.window.value < r'.model.window.value)
  {
    Prefixes(c, es, n);
  }

  /** As long as the window of a diff is open, the last diff is that one or a later one. */
  lemma {:induction false} LastDiffSince(c: Config, es: seq<Event>, i: int, n: nat)
    requires c.Valid() && DiffAt(c, es, i) && i < n <= |es|
    ensures Run(c, es[..i + 1]).model.window.Some? && Run(c, es[..n]).model.window.Some?
    ensures Run(c, es[..i + 1]).model.window.value <= Run(c, es[..n]).model.window.value
    ensures Run(c, es[..n]).model.window == Run(c, es[..i + 1]).model.window ==> LastDiff(c, es[..n]) >= es[i].now
    decreases n
  {
    Prefixes(c, es, n - 1);
    if n > i + 1 {
      LastDiffSince(c, es, i, n - 1);
      WindowMoves(c, es, n - 1);
      if |Run(c, es[..n]).log| != |Run(c, es[..n - 1]).log| && es[n - 1].DiffTick? {
        DiffWaits(c, es, n - 1);
      }
    }
  }

  lemma DiffWaits(c: Config, es: seq<Event>, j: int)
    requires c.Valid() && DiffAt(c, es, j)
    ensures es[j].now - LastDiff(c, es[..j]) >= c.diffInterval
    ensures Run(c, es[..j + 1]).model.window == Run(c, es[..j]).model.window
  {
    Prefixes(c, es, j);
    LastDiffIs(c, es[..j]);
    SaturatedDistance(es[j].now - LastDiff(c, es[..j]), c.diffInterval);
  }

  /** Of two diffs of one window, the later one comes at least the interval after the earlier one. */
  lemma DiffsSpaced(c: Config, es: seq<Event>, i: int, j: int)
    requires c.Valid() && i < j && DiffAt(c, es, i) && DiffAt(c, es, j)
    requires Run(c, es[..i + 1]).model.window == Run(c, es[..j + 1]).model.window
    ensures es[j].now - es[i].now >= c.diffInterval
  {
    LastDiffSince(c, es, i, j);
    DiffWaits(c, es, j);
  }
}
