/** What the frames published by one aggregator say about the trades it accepted. */
module AggregatorLog {
  import opened Common
  import opened Footprint
  import opened Aggregator
  import opened AggregatorRun

  /** `part` is a selection of the entries of `whole`. */
  ghost predicate SubMap(part: map<int, Bucket>, whole: map<int, Bucket>) {
    forall p :: p in part ==> p in whole && part[p] == whole[p]
  }

  /** A frame tells the truth about the first `cut` accepted trades of its window, and a closing
      frame tells all of it about the whole window. */
  ghost predicate Faithful(c: Config, accepted: seq<Trade>, e: Emission)
    requires c.Valid()
  {
    var all := InWindow(c.window, accepted, e.frame.window);
    && 0 < e.cut <= |all|
    && e.frame.clusters != map[]
    && SubMap(e.frame.clusters, Buckets(c.step, all[..e.cut]))
    && (e.frame.Snapshot? ==> e.frame.ohlc == OhlcOf(all[..e.cut]))
    && (e.frame.Diff? <==> e.kind.Live?)
    && (e.kind.Closing? ==> e.cut == |all| && e.frame.clusters == Buckets(c.step, all))
  }

  /** Later frames never go back to an earlier window, never know fewer trades of the same
      window, and never follow the closing frame of their window. */
  ghost predicate InOrder(earlier: Emission, later: Emission) {
    && earlier.frame.window <= later.frame.window
    && (earlier.frame.window == later.frame.window ==> !earlier.kind.Closing? && earlier.cut <= later.cut)
  }

  ghost predicate GoodLog(c: Config, accepted: seq<Trade>, log: seq<Emission>)
    requires c.Valid()
  {
    && (forall i :: 0 <= i < |log| ==> Faithful(c, accepted, log[i]))
    && (forall i, j :: 0 <= i < j < |log| ==> InOrder(log[i], log[j]))
  }

  /** Every frame belongs to the open window or to a closed one, and closing frames to the latter. */
  ghost predicate UpTo(log: seq<Emission>, latest: int) {
    forall i :: 0 <= i < |log| ==>
      log[i].frame.window <= latest && (log[i].kind.Closing? ==> log[i].frame.window < latest)
  }

  ghost predicate ClosedIn(log: seq<Emission>, w: int) {
    exists i :: 0 <= i < |log| && log[i].kind.Closing? && log[i].frame.window == w
  }

  /** Every window with accepted trades, other than the open one, has its closing frame. */
  ghost predicate AllClosed(c: Config, accepted: seq<Trade>, log: seq<Emission>, latest: int)
    requires c.Valid()
  {
    forall t :: t in accepted && WindowStart(c.window, t) < latest ==> ClosedIn(log, WindowStart(c.window, t))
  }

  // ---- The two delta channels ---------------------------------------------------------------

  /** The frames of one window, oldest first. */
  function FramesOf(log: seq<Emission>, w: int): seq<Emission> {
    if log == [] then []
    else if Last(log).frame.window == w then FramesOf(Init(log), w) + [Last(log)]
    else FramesOf(Init(log), w)
  }

  /** What a subscriber holds who applies every frame of one kind as upserts. */
  function Replay(kind: Kind, log: seq<Emission>, w: int): map<int, Bucket> {
    if log == [] then map[]
    else if Last(log).frame.window == w && Last(log).kind == kind
    then Replay(kind, Init(log), w) + Last(log).frame.clusters
    else Replay(kind, Init(log), w)
  }

  /** The prices touched since a channel last published. */
  function Pending(kind: Kind, m: Model): set<int>
    requires !kind.Closing?
  {
    if kind.Live? then m.dirty else m.partialDirty
  }

  /** The replayed view agrees with the window on every price that is not pending. */
  ghost predicate ChannelComplete(c: Config, r: Trace, kind: Kind)
    requires c.Valid() && !kind.Closing?
  {
    r.model.window.Some? ==>
      var truth := Buckets(c.step, r.model.current);
      var view := Replay(kind, r.log, r.model.window.value);
      && Pending(kind, r.model) <= truth.Keys
      && view.Keys <= truth.Keys
      && (forall p :: p in truth && p !in Pending(kind, r.model) ==> p in view && view[p] == truth[p])
  }

  ghost predicate Numbered(log: seq<Emission>, w: int) {
    forall k :: 0 <= k < |FramesOf(log, w)| ==> FramesOf(log, w)[k].frame.sequence == k + 1
  }

  lemma {:induction false} NoFramesOf(log: seq<Emission>, w: int)
    requires forall i :: 0 <= i < |log| ==> log[i].frame.window != w
    ensures FramesOf(log, w) == []
    ensures forall kind :: Replay(kind, log, w) == map[]
  {
    if log != [] {
      NoFramesOf(Init(log), w);
    }
  }

  lemma AppendFrame(log: seq<Emission>, e: Emission)
    ensures Init(log + [e]) == log && Last(log + [e]) == e
  {
  }

  /** Both channels are complete after every event, whatever the interleaving. */
  lemma {:induction false} ChannelsComplete(c: Config, es: seq<Event>, kind: Kind)
    requires c.Valid() && !kind.Closing?
    ensures ChannelComplete(c, Run(c, es), kind)
  {
    if es != [] {
      ChannelsComplete(c, Init(es), kind);
      if Last(es).TradeArrived? {
        ChannelKeptByTrade(c, es, kind);
      } else {
        ChannelKeptByTimer(c, es, kind);
      }
    }
  }

  lemma ChannelKeptByTimer(c: Config, es: seq<Event>, kind: Kind)
    requires c.Valid() && !kind.Closing? && es != [] && !Last(es).TradeArrived?
    requires ChannelComplete(c, Run(c, Init(es)), kind)
    ensures ChannelComplete(c, Run(c, es), kind)
  {
    var r, r' := Run(c, Init(es)), Run(c, es);
    if r'.log != r.log {
      AppendFrame(r.log, Last(r'.log));
    }
  }

  lemma ChannelKeptByTrade(c: Config, es: seq<Event>, kind: Kind)
    requires c.Valid() && !kind.Closing? && es != [] && Last(es).TradeArrived?
    requires ChannelComplete(c, Run(c, Init(es)), kind)
    ensures ChannelComplete(c, Run(c, es), kind)
  {
    var t, r, r' := Last(es).trade, Run(c, Init(es)), Run(c, es);
    var w := WindowStart(c.window, t);
    ReachableState(c, Init(es));
    LogFacts(c, Init(es));
    if !Late(r.model, w) {
      BucketsSnoc(c.step, Opened(r.model, w).current, t);
      if Rolls(r.model, w) || r.model.window.None? {
        NoFramesOf(r'.log, w);
      }
    }
  }

  /** The frames of every window, of whatever kind, are numbered 1, 2, 3, ... without gaps. */
  lemma {:induction false} SequenceNumbers(c: Config, es: seq<Event>, w: int)
    requires c.Valid()
    ensures Numbered(Run(c, es).log, w)
    ensures var r := Run(c, es);
            r.model.window == Some(w) ==> r.model.sequence == |FramesOf(r.log, w)|
  {
    if es != [] {
      var r, r' := Run(c, Init(es)), Run(c, es);
      SequenceNumbers(c, Init(es), w);
      if r'.log != r.log {
        var e := Last(r'.log);
        assert e.frame.sequence == r.model.sequence + 1 && Some(e.frame.window) == r.model.window by {
          ReachableState(c, Init(es));
        }
        NextNumber(r.log, e, w);
      }
      if r'.model.window == Some(w) && r.model.window != Some(w) {
        NewWindowHasNoFrames(c, es, w);
      }
    }
  }

  lemma NextNumber(log: seq<Emission>, e: Emission, w: int)
    requires Numbered(log, w)
    requires e.frame.window == w ==> e.frame.sequence == |FramesOf(log, w)| + 1
    ensures Numbered(log + [e], w)
    ensures |FramesOf(log + [e], w)| == |FramesOf(log, w)| + if e.frame.window == w then 1 else 0
  {
    AppendFrame(log, e);
  }

  /** The closing frame of the final flush takes the next number. */
  lemma PublishedNumbers(c: Config, es: seq<Event>, w: int)
    requires c.Valid()
    ensures Numbered(Published(c, es), w)
  {
    var r := Run(c, es);
    SequenceNumbers(c, es, w);
    ReachableState(c, es);
    if r.model.current != [] {
      NextNumber(r.log, Emission(Closing, ClosingFrame(c, r.model), |r.model.current|), w);
    }
  }

  lemma NoFramesBeyond(c: Config, es: seq<Event>, w: int)
    requires c.Valid()
    requires var m := Run(c, es).model; m.window.None? || m.window.value < w
    ensures FramesOf(Run(c, es).log, w) == []
    ensures Run(c, es).model.window.None? ==> Run(c, es) == Trace(INITIAL, [])
  {
    ReachableState(c, es);
    LogFacts(c, es);
    NoFramesOf(Run(c, es).log, w);
  }

  lemma NewWindowHasNoFrames(c: Config, es: seq<Event>, w: int)
    requires c.Valid() && es != []
    requires Run(c, es).model.window == Some(w) && Run(c, Init(es)).model.window != Some(w)
    ensures FramesOf(Run(c, es).log, w) == [] && Run(c, es).model.sequence == 0
  {
    var r := Run(c, Init(es));
    NoFramesBeyond(c, Init(es), w);
    if r.model.window.Some? {
      AppendFrame(r.log, Emission(Closing, ClosingFrame(c, r.model), |r.model.current|));
    }
  }

  // ---- The invariant of the log -------------------------------------------------------------

  ghost predicate LogInvariant(c: Config, es: seq<Event>)
    requires c.Valid()
  {
    var r, ts, accepted := Run(c, es), Trades(es), AcceptedBy(c, es);
    && GoodLog(c, accepted, r.log)
    && (ts == [] ==> r.log == [])
    && (ts != [] ==> UpTo(r.log, HighWater(c.window, ts)) && AllClosed(c, accepted, r.log, HighWater(c.window, ts)))
  }

  /** Pending prices are prices of the open window. */
  lemma {:induction false} PendingTouched(c: Config, es: seq<Event>)
    requires c.Valid()
    ensures var m := Run(c, es).model;
            m.dirty <= Touched(c.step, m.current) && m.partialDirty <= Touched(c.step, m.current)
  {
    if es != [] {
      PendingTouched(c, Init(es));
      if Last(es).TradeArrived? {
        var t, m := Last(es).trade, Run(c, Init(es)).model;
        TouchedSnoc(c.step, Opened(m, WindowStart(c.window, t)).current, t);
      }
    }
  }

  lemma {:induction false} LogFacts(c: Config, es: seq<Event>)
    requires c.Valid()
    ensures LogInvariant(c, es)
  {
    if es != [] {
      LogFacts(c, Init(es));
      if Last(es).TradeArrived? {
        TradeKeepsLog(c, es);
      } else {
        TimerKeepsLog(c, es);
      }
    }
  }

  /** A frame stays faithful when a trade of a later window, or a late one, arrives. */
  lemma FaithfulLater(c: Config, accepted: seq<Trade>, t: Trade, e: Emission)
    requires c.Valid() && Faithful(c, accepted, e)
    requires WindowStart(c.window, t) != e.frame.window || !e.kind.Closing?
    ensures Faithful(c, accepted + [t], e)
  {
    InWindowSnoc(c.window, accepted, t, e.frame.window);
    var all := InWindow(c.window, accepted, e.frame.window);
    assert InWindow(c.window, accepted + [t], e.frame.window)[..e.cut] == all[..e.cut];
  }

  /** A frame cut from the whole open window is faithful. */
  lemma OpenWindowFrame(c: Config, es: seq<Event>, e: Emission)
    requires c.Valid() && Trades(es) != []
    requires var current := Run(c, es).model.current;
             && e.frame.window == HighWater(c.window, Trades(es))
             && e.cut == |current|
             && e.frame.clusters != map[]
             && SubMap(e.frame.clusters, Buckets(c.step, current))
             && (e.frame.Snapshot? ==> e.frame.ohlc == OhlcOf(current))
             && (e.frame.Diff? <==> e.kind.Live?)
             && (e.kind.Closing? ==> e.frame.clusters == Buckets(c.step, current))
    ensures Faithful(c, AcceptedBy(c, es), e)
  {
    ReachableState(c, es);
    var current := Run(c, es).model.current;
    assert current[..|current|] == current;
  }

  lemma AppendGood(c: Config, accepted: seq<Trade>, log: seq<Emission>, e: Emission, latest: int)
    requires c.Valid() && GoodLog(c, accepted, log) && UpTo(log, latest)
    requires Faithful(c, accepted, e) && e.frame.window == latest
    requires e.cut == |InWindow(c.window, accepted, latest)|
    ensures GoodLog(c, accepted, log + [e])
  {
    forall i | 0 <= i < |log|
      ensures InOrder(log[i], e)
    {
      assert Faithful(c, accepted, log[i]);
    }
  }

  lemma SelectNonEmpty(footprint: map<int, Bucket>, prices: set<int>)
    requires prices != {} && prices <= footprint.Keys
    ensures Select(footprint, prices) != map[]
  {
    assert Select(footprint, prices).Keys == prices;
  }

  /** The frame of a timer describes the whole open window at that moment. */
  lemma TimerKeepsLog(c: Config, es: seq<Event>)
    requires c.Valid() && es != [] && !Last(es).TradeArrived? && LogInvariant(c, Init(es))
    ensures LogInvariant(c, es)
  {
    var before := Init(es);
    var r, r' := Run(c, before), Run(c, es);
    ReachableState(c, before);
    if r'.log != r.log {
      var e := Last(r'.log);
      var pending := if e.kind.Live? then r.model.dirty else r.model.partialDirty;
      assert r'.log == r.log + [e] && e.cut == |r.model.current|;
      PendingTouched(c, before);
      SelectNonEmpty(Buckets(c.step, r.model.current), pending);
      OpenWindowFrame(c, before, e);
      AppendGood(c, AcceptedBy(c, before), r.log, e, HighWater(c.window, Trades(before)));
      ClosedStays(c, AcceptedBy(c, before), r.log, e, HighWater(c.window, Trades(before)));
    }
  }

  lemma ClosedStays(c: Config, accepted: seq<Trade>, log: seq<Emission>, e: Emission, latest: int)
    requires c.Valid() && AllClosed(c, accepted, log, latest)
    ensures AllClosed(c, accepted, log + [e], latest)
  {
    forall t | t in accepted && WindowStart(c.window, t) < latest
      ensures ClosedIn(log + [e], WindowStart(c.window, t))
    {
      var i :| 0 <= i < |log| && log[i].kind.Closing? && log[i].frame.window == WindowStart(c.window, t);
      assert (log + [e])[i] == log[i];
    }
  }

  lemma TradeKeepsLog(c: Config, es: seq<Event>)
    requires c.Valid() && es != [] && Last(es).TradeArrived? && LogInvariant(c, Init(es))
    ensures LogInvariant(c, es)
  {
    var before, t := Init(es), Last(es).trade;
    var r, r' := Run(c, before), Run(c, es);
    var ts, accepted := Trades(before), AcceptedBy(c, before);
    var w := WindowStart(c.window, t);
    ReachableState(c, before);
    assert Init(ts + [t]) == ts && Last(ts + [t]) == t;
    if ts == [] {
      assert r'.log == [];
      AcceptedChronological(c.window, ts);
    } else if w >= HighWater(c.window, ts) {
      if w > HighWater(c.window, ts) {
        RollClosesWindow(c, before, t);
      }
      AcceptedTradeKeepsLog(c, accepted, r'.log, t);
    }
  }

  /** The published log stays good when a trade is accepted into the open window. */
  lemma AcceptedTradeKeepsLog(c: Config, accepted: seq<Trade>, log: seq<Emission>, t: Trade)
    requires c.Valid() && GoodLog(c, accepted, log)
    requires UpTo(log, WindowStart(c.window, t)) && AllClosed(c, accepted, log, WindowStart(c.window, t))
    ensures GoodLog(c, accepted + [t], log) && AllClosed(c, accepted + [t], log, WindowStart(c.window, t))
  {
    forall i | 0 <= i < |log|
      ensures Faithful(c, accepted + [t], log[i])
    {
      FaithfulLater(c, accepted, t, log[i]);
    }
  }

  /** Rolling publishes one last frame, which says everything about the window it closes. */
  lemma RollClosesWindow(c: Config, before: seq<Event>, t: Trade)
    requires c.Valid() && LogInvariant(c, before) && Trades(before) != []
    requires WindowStart(c.window, t) > HighWater(c.window, Trades(before))
    ensures var r := Run(c, before);
            var log := r.log + [Emission(Closing, ClosingFrame(c, r.model), |r.model.current|)];
            var accepted := AcceptedBy(c, before);
            && GoodLog(c, accepted, log)
            && UpTo(log, WindowStart(c.window, t))
            && AllClosed(c, accepted, log, WindowStart(c.window, t))
  {
    var r, latest, accepted := Run(c, before), HighWater(c.window, Trades(before)), AcceptedBy(c, before);
    var e := Emission(Closing, ClosingFrame(c, r.model), |r.model.current|);
    ClosingFrameFaithful(c, before, e);
    AppendGood(c, accepted, r.log, e, latest);
    AcceptedBelowLatest(c.window, Trades(before));
    ClosingCompletes(c, accepted, r.log, e, latest, WindowStart(c.window, t));
  }

  lemma ClosingFrameFaithful(c: Config, es: seq<Event>, e: Emission)
    requires c.Valid() && Trades(es) != []
    requires var r := Run(c, es); e == Emission(Closing, ClosingFrame(c, r.model), |r.model.current|)
    ensures Faithful(c, AcceptedBy(c, es), e)
    ensures e.frame.window == HighWater(c.window, Trades(es))
    ensures e.cut == |InWindow(c.window, AcceptedBy(c, es), e.frame.window)|
  {
    ReachableState(c, es);
    var current := Run(c, es).model.current;
    assert BucketPrice(c.step, current[0]) in Buckets(c.step, current) by {
      assert current[0] in current;
    }
    OpenWindowFrame(c, es, e);
  }

  lemma ClosingCompletes(c: Config, accepted: seq<Trade>, log: seq<Emission>, e: Emission, latest: int, next: int)
    requires c.Valid() && AllClosed(c, accepted, log, latest) && UpTo(log, latest)
    requires e.kind.Closing? && e.frame.window == latest < next
    requires forall t :: t in accepted ==> WindowStart(c.window, t) <= latest
    ensures UpTo(log + [e], next) && AllClosed(c, accepted, log + [e], next)
  {
    ClosedStays(c, accepted, log, e, latest);
    assert (log + [e])[|log|] == e;
    assert ClosedIn(log + [e], latest);
  }

  /** The complete publication of a finished run: a good log in which every window that ever
      accepted a trade has its closing frame. */
  lemma PublishedClosesAll(c: Config, es: seq<Event>)
    requires c.Valid()
    ensures GoodLog(c, AcceptedBy(c, es), Published(c, es))
    ensures forall t :: t in AcceptedBy(c, es) ==> ClosedIn(Published(c, es), WindowStart(c.window, t))
  {
    LogFacts(c, es);
    ReachableState(c, es);
    if Trades(es) != [] {
      var r, latest, accepted := Run(c, es), HighWater(c.window, Trades(es)), AcceptedBy(c, es);
      var e := Emission(Closing, ClosingFrame(c, r.model), |r.model.current|);
      ClosingFrameFaithful(c, es, e);
      AppendGood(c, accepted, r.log, e, latest);
      AcceptedBelowLatest(c.window, Trades(es));
      ClosingCompletes(c, accepted, r.log, e, latest, latest + 1);
    } else {
      AcceptedChronological(c.window, Trades(es));
    }
  }

  // ---- Conservation ---------------------------------------------------------------------------

  /** The accepted trades of the closed windows, in the order the windows were closed. */
  function ClosedTrades(c: Config, accepted: seq<Trade>, log: seq<Emission>): seq<Trade>
    requires c.Valid()
  {
    if log == [] then []
    else if Last(log).kind.Closing?
    then ClosedTrades(c, accepted, Init(log)) + InWindow(c.window, accepted, Last(log).frame.window)
    else ClosedTrades(c, accepted, Init(log))
  }

  lemma {:induction false} ClosedTradesLater(c: Config, accepted: seq<Trade>, t: Trade, log: seq<Emission>)
    requires c.Valid()
    requires forall i :: 0 <= i < |log| && log[i].kind.Closing? ==> log[i].frame.window < WindowStart(c.window, t)
    ensures ClosedTrades(c, accepted + [t], log) == ClosedTrades(c, accepted, log)
  {
    if log != [] {
      ClosedTradesLater(c, accepted, t, Init(log));
      InWindowSnoc(c.window, accepted, t, Last(log).frame.window);
    }
  }

  /** No accepted trade is lost, duplicated or reordered: the accepted stream is the closed
      windows, oldest first, followed by the open one. */
  lemma {:induction false} AcceptedTradesConserved(c: Config, es: seq<Event>)
    requires c.Valid()
    ensures var r := Run(c, es);
            AcceptedBy(c, es) == ClosedTrades(c, AcceptedBy(c, es), r.log) + r.model.current
  {
    if es != [] {
      var r, r' := Run(c, Init(es)), Run(c, es);
      AcceptedTradesConserved(c, Init(es));
      if Last(es).TradeArrived? {
        TradeConserved(c, Init(es), Last(es).trade);
      } else if r'.log != r.log {
        AppendFrame(r.log, Last(r'.log));
      }
    }
  }

  lemma TradeConserved(c: Config, es: seq<Event>, t: Trade)
    requires c.Valid()
    requires AcceptedBy(c, es) == ClosedTrades(c, AcceptedBy(c, es), Run(c, es).log) + Run(c, es).model.current
    ensures var r' := Advance(c, Run(c, es), TradeArrived(t));
            var accepted' := Accepted(c.window, Trades(es) + [t]);
            accepted' == ClosedTrades(c, accepted', r'.log) + r'.model.current
  {
    AcceptedSnoc(c, es, t);
    if !Late(Run(c, es).model, WindowStart(c.window, t)) {
      ClosedTradesAfter(c, es, t);
    }
  }

  lemma AcceptedSnoc(c: Config, es: seq<Event>, t: Trade)
    requires c.Valid()
    ensures Accepted(c.window, Trades(es) + [t])
            == if Late(Run(c, es).model, WindowStart(c.window, t)) then AcceptedBy(c, es) else AcceptedBy(c, es) + [t]
  {
    ReachableState(c, es);
    assert Init(Trades(es) + [t]) == Trades(es) && Last(Trades(es) + [t]) == t;
  }

  /** Every trade of the run is in exactly one place: a closed window, the open window, or the
      count of late trades. */
  lemma TradesConserved(c: Config, es: seq<Event>)
    requires c.Valid()
    ensures var r := Run(c, es);
            |Trades(es)| == |ClosedTrades(c, AcceptedBy(c, es), r.log)| + |r.model.current| + r.model.dropped
  {
    ReachableState(c, es);
    AcceptedTradesConserved(c, es);
  }

  /** Closing the window moves its trades, all of them, to the closed ones. */
  lemma ClosedTradesAfter(c: Config, es: seq<Event>, t: Trade)
    requires c.Valid() && !Late(Run(c, es).model, WindowStart(c.window, t))
    ensures var r, r' := Run(c, es), Advance(c, Run(c, es), TradeArrived(t));
            var accepted := AcceptedBy(c, es);
            ClosedTrades(c, accepted + [t], r'.log) + r'.model.current
            == ClosedTrades(c, accepted, r.log) + r.model.current + [t]
  {
    var r, accepted := Run(c, es), AcceptedBy(c, es);
    LogFacts(c, es);
    ReachableState(c, es);
    ClosedTradesLater(c, accepted, t, r.log);
    var closed := ClosedTrades(c, accepted, r.log);
    if Rolls(r.model, WindowStart(c.window, t)) {
      var e := Emission(Closing, ClosingFrame(c, r.model), |r.model.current|);
      AppendFrame(r.log, e);
      InWindowSnoc(c.window, accepted, t, e.frame.window);
      assert ClosedTrades(c, accepted + [t], r.log + [e]) == closed + r.model.current;
    } else {
      assert closed + (r.model.current + [t]) == closed + r.model.current + [t];
    }
  }
}
