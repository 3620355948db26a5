/** Whole runs of one aggregator: which trades it accepts, what its frames carry, and how the
    live-diff and partial-snapshot channels relate to the accumulated state. */
module AggregatorRun {
  import opened Common
  import opened Footprint
  import opened Aggregator

  /** One turn of the select loop; a partial tick carries no data. */
  datatype Event = TradeArrived(trade: Trade) | DiffTick(now: int) | PartialTick

  datatype Kind = Closing | Partial | Live

  /** A published frame, with the call that produced it and how many trades its window held. */
  datatype Emission = Emission(kind: Kind, frame: Frame, cut: nat)

  datatype Trace = Trace(model: Model, log: seq<Emission>)

  function Step(c: Config, m: Model, e: Event): (Model, Option<Frame>)
    requires c.Valid()
  {
    match e
    case TradeArrived(t) => Ingest(c, m, t)
    case DiffTick(now) => Tick(c, m, now)
    case PartialTick => CurrentWindowDelta(c, m)
  }

  function KindOf(e: Event): Kind {
    match e
    case TradeArrived(_) => Closing
    case DiffTick(_) => Live
    case PartialTick => Partial
  }

  function Publish(log: seq<Emission>, kind: Kind, frame: Option<Frame>, cut: nat): seq<Emission> {
    if frame.Some? then log + [Emission(kind, frame.value, cut)] else log
  }

  function Advance(c: Config, before: Trace, e: Event): Trace
    requires c.Valid()
  {
    var (m, frame) := Step(c, before.model, e);
    Trace(m, Publish(before.log, KindOf(e), frame, |before.model.current|))
  }

  /** The loop from its start up to, and not including, the flush at channel close. */
  function Run(c: Config, es: seq<Event>): Trace
    requires c.Valid()
  {
    if es == [] then Trace(INITIAL, []) else Advance(c, Run(c, Init(es)), Last(es))
  }

  /** Everything published by a run that ends with the trade channel closing. */
  function Published(c: Config, es: seq<Event>): seq<Emission>
    requires c.Valid()
  {
    var r := Run(c, es);
    Publish(r.log, Closing, Flush(c, r.model).1, |r.model.current|)
  }

  function Frames(log: seq<Emission>): seq<Frame> {
    seq(|log|, i requires 0 <= i < |log| => log[i].frame)
  }

  /** The select loop: one aggregator driven to the end of its trade channel. */
  method RunAggregator(agg: Aggregator, es: seq<Event>) returns (published: seq<Frame>)
    requires agg.Valid() && agg.State() == INITIAL
    modifies agg
    ensures agg.Valid()
    ensures published == Frames(Published(agg.config, es))
  {
    hide Ingest, Tick, CurrentWindowDelta, Flush, TakesTrade, AtBuckets;
    published := [];
    for i := 0 to |es|
      invariant agg.Valid()
      invariant agg.State() == Run(agg.config, es[..i]).model
      invariant published == Frames(Run(agg.config, es[..i]).log)
    {
      var frame: Option<Frame>;
      match es[i] {
        case TradeArrived(t) => frame := agg.IngestTrade(t);
        case DiffTick(now) => frame := agg.TickDiff(now);
        case PartialTick => frame := agg.EmitCurrentWindowDelta();
      }
      if frame.Some? {
        published := published + [frame.value];
      }
      assert Init(es[..i + 1]) == es[..i];
    }
    assert es[..|es|] == es;
    var final := agg.FlushWindow();
    if final.Some? {
      published := published + [final.value];
    }
  }

  // ---- Which trades count -------------------------------------------------------------------

  function Trades(es: seq<Event>): seq<Trade> {
    if es == [] then []
    else if Last(es).TradeArrived? then Trades(Init(es)) + [Last(es).trade]
    else Trades(Init(es))
  }

  /** The latest window any of the trades falls into. */
  function HighWater(window: int, ts: seq<Trade>): int
    requires window > 0 && ts != []
  {
    var w := WindowStart(window, Last(ts));
    if |ts| == 1 then w else Max(HighWater(window, Init(ts)), w)
  }

  predicate OnTime(window: int, before: seq<Trade>, t: Trade)
    requires window > 0
  {
    before == [] || WindowStart(window, t) >= HighWater(window, before)
  }

  /** The trades that were not older than the latest window seen before them. */
  function Accepted(window: int, ts: seq<Trade>): seq<Trade>
    requires window > 0
  {
    if ts == [] then []
    else if OnTime(window, Init(ts), Last(ts)) then Accepted(window, Init(ts)) + [Last(ts)]
    else Accepted(window, Init(ts))
  }

  function InWindow(window: int, ts: seq<Trade>, w: int): seq<Trade>
    requires window > 0
  {
    if ts == [] then []
    else if WindowStart(window, Last(ts)) == w then InWindow(window, Init(ts), w) + [Last(ts)]
    else InWindow(window, Init(ts), w)
  }

  lemma {:induction false} HighWaterIsMax(window: int, ts: seq<Trade>)
    requires window > 0 && ts != []
    ensures forall t :: t in ts ==> WindowStart(window, t) <= HighWater(window, ts)
    ensures exists t :: t in ts && WindowStart(window, t) == HighWater(window, ts)
  {
    assert ts == Init(ts) + [Last(ts)] && Last(ts) in ts;
    if |ts| > 1 {
      HighWaterIsMax(window, Init(ts));
      var t :| t in Init(ts) && WindowStart(window, t) == HighWater(window, Init(ts));
      assert t in ts;
    }
  }

  ghost predicate Chronological(window: int, ts: seq<Trade>)
    requires window > 0
  {
    forall i, j :: 0 <= i <= j < |ts| ==> WindowStart(window, ts[i]) <= WindowStart(window, ts[j])
  }

  /** Accepted trades come window by window, and the last of them is in the latest window. */
  lemma {:induction false} AcceptedChronological(window: int, ts: seq<Trade>)
    requires window > 0
    ensures var a := Accepted(window, ts);
            && Chronological(window, a)
            && (a == [] <==> ts == [])
            && (ts != [] ==> WindowStart(window, Last(a)) == HighWater(window, ts))
  {
    if ts != [] {
      AcceptedChronological(window, Init(ts));
    }
  }

  lemma {:induction false} InWindowMembers(window: int, ts: seq<Trade>, w: int)
    requires window > 0
    ensures forall t :: t in InWindow(window, ts, w) <==> t in ts && WindowStart(window, t) == w
  {
    if ts != [] {
      assert ts == Init(ts) + [Last(ts)];
      InWindowMembers(window, Init(ts), w);
    }
  }

  lemma InWindowSnoc(window: int, ts: seq<Trade>, t: Trade, w: int)
    requires window > 0
    ensures InWindow(window, ts + [t], w)
            == if WindowStart(window, t) == w then InWindow(window, ts, w) + [t] else InWindow(window, ts, w)
  {
    assert Init(ts + [t]) == ts && Last(ts + [t]) == t;
  }

  lemma NothingAfterLatest(window: int, ts: seq<Trade>, w: int)
    requires window > 0 && forall t :: t in ts ==> WindowStart(window, t) != w
    ensures InWindow(window, ts, w) == []
  {
    InWindowMembers(window, ts, w);
    if InWindow(window, ts, w) != [] {
      assert InWindow(window, ts, w)[0] in InWindow(window, ts, w);
      assert false;
    }
  }

  /** The accepted trades of a run. */
  function AcceptedBy(c: Config, es: seq<Event>): seq<Trade>
    requires c.Valid()
  {
    Accepted(c.window, Trades(es))
  }

  lemma AcceptedBelowLatest(window: int, ts: seq<Trade>)
    requires window > 0 && ts != []
    ensures forall t :: t in Accepted(window, ts) ==> WindowStart(window, t) <= HighWater(window, ts)
  {
    AcceptedChronological(window, ts);
    var a := Accepted(window, ts);
    forall t | t in a
      ensures WindowStart(window, t) <= HighWater(window, ts)
    {
      var i :| 0 <= i < |a| && a[i] == t;
      assert WindowStart(window, a[i]) <= WindowStart(window, a[|a| - 1]);
    }
  }

  /** The open window is the latest window of all trades seen, it holds exactly the accepted trades of
      that window, and every other trade was counted as late. */
  ghost predicate Reached(c: Config, m: Model, ts: seq<Trade>)
    requires c.Valid()
  {
    && m.window == (if ts == [] then None else Some(HighWater(c.window, ts)))
    && m.current == (if ts == [] then [] else InWindow(c.window, Accepted(c.window, ts), HighWater(c.window, ts)))
    && (if ts == [] then m == INITIAL else m.current != [])
    && m.dropped + |Accepted(c.window, ts)| == |ts|
  }

  lemma TradeReached(c: Config, m: Model, ts: seq<Trade>, t: Trade)
    requires c.Valid() && Reached(c, m, ts)
    ensures Reached(c, Ingest(c, m, t).0, ts + [t])
  {
    var a, w := Accepted(c.window, ts), WindowStart(c.window, t);
    assert Init(ts + [t]) == ts && Last(ts + [t]) == t;
    InWindowSnoc(c.window, a, t, w);
    if ts != [] && w > HighWater(c.window, ts) {
      AcceptedBelowLatest(c.window, ts);
      NothingAfterLatest(c.window, a, w);
    }
  }

  lemma {:induction false} ReachableState(c: Config, es: seq<Event>)
    requires c.Valid()
    ensures Reached(c, Run(c, es).model, Trades(es))
  {
    if es != [] {
      ReachableState(c, Init(es));
      if Last(es).TradeArrived? {
        TradeReached(c, Run(c, Init(es)).model, Trades(Init(es)), Last(es).trade);
      }
    }
  }

  // ---- Late trades, told from the stream alone ----------------------------------------------------

  /** A trade is on time exactly if no trade before it lies in a later window. */
  lemma OnTimeMeaning(window: int, before: seq<Trade>, t: Trade)
    requires window > 0
    ensures OnTime(window, before, t)
            <==> forall u :: u in before ==> WindowStart(window, u) <= WindowStart(window, t)
  {
    if before != [] {
      HighWaterIsMax(window, before);
    }
  }

  /** Trade `i` comes after one of a later window. */
  ghost predicate ComesLate(window: int, ts: seq<Trade>, i: int)
    requires window > 0 && 0 <= i < |ts|
  {
    exists j :: 0 <= j < i && WindowStart(window, ts[j]) > WindowStart(window, ts[i])
  }

  ghost function LateOnes(window: int, ts: seq<Trade>): set<int>
    requires window > 0
  {
    set i | 0 <= i < |ts| && ComesLate(window, ts, i)
  }

  lemma LateSnoc(window: int, ts: seq<Trade>)
    requires window > 0 && ts != []
    ensures LateOnes(window, ts)
            == LateOnes(window, Init(ts)) + if OnTime(window, Init(ts), Last(ts)) then {} else {|ts| - 1}
  {
    var n := |ts| - 1;
    forall i | 0 <= i < n
      ensures ComesLate(window, ts, i) <==> ComesLate(window, Init(ts), i)
    {
      assert forall j :: 0 <= j <= i ==> Init(ts)[j] == ts[j];
    }
    OnTimeMeaning(window, Init(ts), Last(ts));
    assert ComesLate(window, ts, n) <==> !OnTime(window, Init(ts), Last(ts)) by {
      assert forall j :: 0 <= j < n ==> Init(ts)[j] == ts[j];
    }
  }

  lemma {:induction false} LateAreTheRest(window: int, ts: seq<Trade>)
    requires window > 0
    ensures |Accepted(window, ts)| + |LateOnes(window, ts)| == |ts|
  {
    if ts == [] {
      assert LateOnes(window, ts) == {};
    } else {
      LateAreTheRest(window, Init(ts));
      LateSnoc(window, ts);
    }
  }

  /** The counter is the number of trades that came after one of a later window. */
  lemma LateTradesCounted(c: Config, es: seq<Event>)
    requires c.Valid()
    ensures Run(c, es).model.dropped == |LateOnes(c.window, Trades(es))|
  {
    ReachableState(c, es);
    LateAreTheRest(c.window, Trades(es));
  }

  // ---- After a flush ------------------------------------------------------------------------------

  /** The loop continued from some state. */
  function RunFrom(c: Config, start: Trace, es: seq<Event>): Trace
    requires c.Valid()
  {
    if es == [] then start else Advance(c, RunFrom(c, start, Init(es)), Last(es))
  }

  /** A flushed aggregator goes on as a new one: the same frames and the same state, but for the late trades
      counted before. */
  lemma {:induction false} FlushStartsAfresh(c: Config, m: Model, es: seq<Event>)
    requires c.Valid() && m.current != []
    ensures var anew, again := Run(c, es), RunFrom(c, Trace(Flush(c, m).0, []), es);
            again.log == anew.log && again.model == anew.model.(dropped := m.dropped + anew.model.dropped)
  {
    if es != [] {
      FlushStartsAfresh(c, m, Init(es));
    }
  }
}
