/** The ClickHouse writer of one table: batching, a bounded buffer that gives up its oldest rows, and a
    doubling delay after failed inserts.  Clock readings (milliseconds) and insert outcomes are inputs. */
module ChWriter {
  import opened Common

  const BACKOFF_MAX := 30_000

  datatype Config = Config(batchSize: nat, maxBufferRows: nat, flushInterval: nat)

  datatype Stats = Stats(batchesOk: nat, batchesErr: nat, rowsOk: nat, rowsDropped: nat)

  /** How an insert turns out if one is made, and the clock when it returns. */
  datatype Insert = Insert(ok: bool, done: int)

  /** One turn of the loop: a row, a tick of the timer, or the channel found closed.  `now` is the
      clock when the turn begins. */
  datatype Event<R> =
    | Recv(row: R, now: int, insert: Insert)
    | Tick(now: int, insert: Insert)
    | Close(now: int, insert: Insert)

  /** What has happened to rows, in order. */
  datatype Entry<R> =
    | Dropped(rows: seq<R>)
    | Attempted(rows: seq<R>, at: int, insert: Insert, closing: bool)

  datatype Writer<R> = Writer(
    batch: seq<R>,
    stats: Stats,
    nextAttempt: int,
    backoff: nat,
    history: seq<Entry<R>>
  )

  // ---- The loop as a function of its events ------------------------------------------------------

  function Start<R>(cfg: Config, now: int): Writer<R> {
    Writer([], Stats(0, 0, 0, 0), now, cfg.flushInterval, [])
  }

  function Push<R>(cfg: Config, w: Writer<R>, row: R): Writer<R> {
    var batch := w.batch + [row];
    if |batch| > cfg.maxBufferRows then
      var excess := |batch| - cfg.maxBufferRows;
      w.(batch := batch[excess..],
         stats := w.stats.(rowsDropped := w.stats.rowsDropped + excess),
         history := w.history + [Dropped(batch[..excess])])
    else w.(batch := batch)
  }

  function Flush<R>(cfg: Config, w: Writer<R>, at: int, insert: Insert, closing: bool): Writer<R> {
    var history := w.history + [Attempted(w.batch, at, insert, closing)];
    if insert.ok then
      Writer([],
             w.stats.(batchesOk := w.stats.batchesOk + 1, rowsOk := w.stats.rowsOk + |w.batch|),
             insert.done, cfg.flushInterval, history)
    else
      var backoff := Min(w.backoff * 2, BACKOFF_MAX);
      Writer(w.batch, w.stats.(batchesErr := w.stats.batchesErr + 1), insert.done + backoff, backoff, history)
  }

  function Step<R>(cfg: Config, w: Writer<R>, e: Event<R>): Writer<R> {
    match e
    case Recv(row, now, insert) =>
      var pushed := Push(cfg, w, row);
      if |pushed.batch| >= cfg.batchSize && now >= pushed.nextAttempt then Flush(cfg, pushed, now, insert, false)
      else pushed
    case Tick(now, insert) =>
      if |w.batch| > 0 && now >= w.nextAttempt then Flush(cfg, w, now, insert, false) else w
    case Close(now, insert) =>
      if |w.batch| > 0 then Flush(cfg, w, now, insert, true) else w
  }

  /** Nothing is read after the channel has been found closed. */
  function Run<R>(cfg: Config, w: Writer<R>, events: seq<Event<R>>): Writer<R>
    decreases |events|
  {
    if |events| == 0 then w
    else if events[0].Close? then Step(cfg, w, events[0])
    else Run(cfg, Step(cfg, w, events[0]), events[1..])
  }

  // ---- The loop as it is written -----------------------------------------------------------------

  /** One insert of everything held; `posted` records the request made. */
  method TryFlush<R>(cfg: Config, batch: seq<R>, stats: Stats, backoff: nat, posted: seq<Entry<R>>,
                     at: int, insert: Insert, closing: bool, ghost w: Writer<R>)
    returns (batch': seq<R>, stats': Stats, nextAttempt': int, backoff': nat, posted': seq<Entry<R>>)
    requires w.batch == batch && w.stats == stats && w.backoff == backoff && w.history == posted
    ensures Flush(cfg, w, at, insert, closing) == Writer(batch', stats', nextAttempt', backoff', posted')
  {
    batch', stats', backoff' := batch, stats, backoff;
    posted' := posted + [Attempted(batch, at, insert, closing)];
    if insert.ok {
      stats' := stats'.(batchesOk := stats'.batchesOk + 1, rowsOk := stats'.rowsOk + |batch|);
      batch' := [];
      backoff' := cfg.flushInterval;
      nextAttempt' := insert.done;
    } else {
      stats' := stats'.(batchesErr := stats'.batchesErr + 1);
      backoff' := Min(backoff' * 2, BACKOFF_MAX);
      nextAttempt' := insert.done + backoff';
    }
  }

  /** The loop, with the record of what it dropped and posted and the rows it still holds at the end. */
  method RunWriter<R>(cfg: Config, now: int, events: seq<Event<R>>)
    returns (stats: Stats, posted: seq<Entry<R>>, batch: seq<R>)
    ensures var w := Run(cfg, Start(cfg, now), events);
            stats == w.stats && posted == w.history && batch == w.batch
  {
    batch, posted := [], [];
    stats := Stats(0, 0, 0, 0);
    var nextAttempt := now;
    var backoff := cfg.flushInterval;
    for i := 0 to |events|
      invariant Run(cfg, Start(cfg, now), events)
                == Run(cfg, Writer(batch, stats, nextAttempt, backoff, posted), events[i..])
    {
      var e := events[i];
      ghost var w := Writer(batch, stats, nextAttempt, backoff, posted);
      assert events[i..][0] == e && events[i..][1..] == events[i + 1..];
      match e {
        case Recv(row, at, insert) =>
          batch := batch + [row];
          if |batch| > cfg.maxBufferRows {
            var dropN := |batch| - cfg.maxBufferRows;
            posted := posted + [Dropped(batch[..dropN])];
            batch := batch[dropN..];
            stats := stats.(rowsDropped := stats.rowsDropped + dropN);
          }
          ghost var pushed := Push(cfg, w, row);
          if |batch| >= cfg.batchSize && at >= nextAttempt {
            batch, stats, nextAttempt, backoff, posted :=
              TryFlush(cfg, batch, stats, backoff, posted, at, insert, false, pushed);
          }
        case Tick(at, insert) =>
          if |batch| > 0 && at >= nextAttempt {
            batch, stats, nextAttempt, backoff, posted :=
              TryFlush(cfg, batch, stats, backoff, posted, at, insert, false, w);
          }
        case Close(at, insert) =>
          if |batch| > 0 {
            batch, stats, nextAttempt, backoff, posted :=
              TryFlush(cfg, batch, stats, backoff, posted, at, insert, true, w);
          }
          return;
      }
    }
  }

  // ---- What a run amounts to ---------------------------------------------------------------------

  /** The rows taken off the channel, in order. */
  function Received<R>(events: seq<Event<R>>): seq<R>
    decreases |events|
  {
    if |events| == 0 || events[0].Close? then []
    else if events[0].Recv? then [events[0].row] + Received(events[1..])
    else Received(events[1..])
  }

  function Earlier<R>(h: seq<Entry<R>>): seq<Entry<R>>
    requires |h| > 0
  {
    h[..|h| - 1]
  }

  function Last<R>(h: seq<Entry<R>>): Entry<R>
    requires |h| > 0
  {
    h[|h| - 1]
  }

  /** The rows the writer no longer owes to anyone: given up, or inserted. */
  function Settled<R>(h: seq<Entry<R>>): seq<R>
    decreases |h|
  {
    if |h| == 0 then []
    else if Last(h).Dropped? || Last(h).insert.ok then Settled(Earlier(h)) + Last(h).rows
    else Settled(Earlier(h))
  }

  function Inserted<R>(h: seq<Entry<R>>): seq<R>
    decreases |h|
  {
    if |h| == 0 then []
    else if Last(h).Attempted? && Last(h).insert.ok then Inserted(Earlier(h)) + Last(h).rows
    else Inserted(Earlier(h))
  }

  function GivenUp<R>(h: seq<Entry<R>>): seq<R>
    decreases |h|
  {
    if |h| == 0 then []
    else if Last(h).Dropped? then GivenUp(Earlier(h)) + Last(h).rows
    else GivenUp(Earlier(h))
  }

  function Attempts<R>(h: seq<Entry<R>>, ok: bool): nat
    decreases |h|
  {
    if |h| == 0 then 0
    else if Last(h).Attempted? && Last(h).insert.ok == ok then Attempts(Earlier(h), ok) + 1
    else Attempts(Earlier(h), ok)
  }

  /** Failed attempts since the last successful one. */
  function Streak<R>(h: seq<Entry<R>>): nat
    decreases |h|
  {
    if |h| == 0 then 0
    else if Last(h).Dropped? then Streak(Earlier(h))
    else if Last(h).insert.ok then 0
    else Streak(Earlier(h)) + 1
  }

  function Doublings(n: nat, k: nat): nat {
    if k == 0 then n else 2 * Doublings(n, k - 1)
  }

  /** The delay in force after `k` failures in a row. */
  function BackoffAfter(cfg: Config, k: nat): nat {
    if k == 0 then cfg.flushInterval else Min(Doublings(cfg.flushInterval, k), BACKOFF_MAX)
  }

  /** The moment up to which the last attempt forbids another one. */
  function ReadyAt<R>(cfg: Config, start: int, h: seq<Entry<R>>): int
    decreases |h|
  {
    if |h| == 0 then start
    else if Last(h).Dropped? then ReadyAt(cfg, start, Earlier(h))
    else if Last(h).insert.ok then Last(h).insert.done
    else Last(h).insert.done + BackoffAfter(cfg, Streak(h))
  }

  /** Every attempt but the closing one waited for its moment. */
  ghost predicate Patient<R>(cfg: Config, start: int, h: seq<Entry<R>>)
    decreases |h|
  {
    |h| > 0 ==>
      && Patient(cfg, start, Earlier(h))
      && (Last(h).Attempted? && !Last(h).closing ==> Last(h).at >= ReadyAt(cfg, start, Earlier(h)))
  }

  ghost predicate Conserved<R>(w: Writer<R>, received: seq<R>) {
    && Settled(w.history) + w.batch == received
    && |Settled(w.history)| == |Inserted(w.history)| + |GivenUp(w.history)|
    && w.stats == Stats(Attempts(w.history, true), Attempts(w.history, false),
                        |Inserted(w.history)|, |GivenUp(w.history)|)
  }

  ghost predicate Paced<R>(cfg: Config, start: int, w: Writer<R>) {
    && w.backoff == BackoffAfter(cfg, Streak(w.history))
    && w.nextAttempt == ReadyAt(cfg, start, w.history)
    && Patient(cfg, start, w.history)
  }

  ghost predicate Invariant<R>(cfg: Config, start: int, w: Writer<R>, received: seq<R>) {
    Conserved(w, received) && |w.batch| <= cfg.maxBufferRows && Paced(cfg, start, w)
  }

  lemma PushConserves<R>(cfg: Config, w: Writer<R>, row: R, received: seq<R>)
    requires Conserved(w, received) && |w.batch| <= cfg.maxBufferRows
    ensures Conserved(Push(cfg, w, row), received + [row])
    ensures |Push(cfg, w, row).batch| <= cfg.maxBufferRows
  {
    var p := Push(cfg, w, row);
    var batch := w.batch + [row];
    assert Settled(w.history) + batch == received + [row];
    if |batch| > cfg.maxBufferRows {
      assert Earlier(p.history) == w.history;
      assert batch == batch[..1] + batch[1..];
    }
  }

  lemma FlushConserves<R>(cfg: Config, w: Writer<R>, at: int, insert: Insert, closing: bool, received: seq<R>)
    requires Conserved(w, received)
    ensures Conserved(Flush(cfg, w, at, insert, closing), received)
    ensures |Flush(cfg, w, at, insert, closing).batch| <= |w.batch|
  {
    var f := Flush(cfg, w, at, insert, closing);
    assert Earlier(f.history) == w.history;
  }

  lemma NextBackoff(cfg: Config, k: nat)
    ensures BackoffAfter(cfg, k + 1) == Min(2 * BackoffAfter(cfg, k), BACKOFF_MAX)
  {
    assert Doublings(cfg.flushInterval, k + 1) == 2 * Doublings(cfg.flushInterval, k);
  }

  lemma FlushPaced<R>(cfg: Config, start: int, w: Writer<R>, at: int, insert: Insert, closing: bool)
    requires Paced(cfg, start, w) && (closing || at >= w.nextAttempt)
    ensures Paced(cfg, start, Flush(cfg, w, at, insert, closing))
  {
    var f := Flush(cfg, w, at, insert, closing);
    assert Earlier(f.history) == w.history;
    NextBackoff(cfg, Streak(w.history));
  }

  lemma PushKeeps<R>(cfg: Config, start: int, w: Writer<R>, row: R, received: seq<R>)
    requires Invariant(cfg, start, w, received)
    ensures Invariant(cfg, start, Push(cfg, w, row), received + [row])
  {
    PushConserves(cfg, w, row, received);
    var p := Push(cfg, w, row);
    assert |p.history| > |w.history| ==> Earlier(p.history) == w.history;
  }

  lemma FlushKeeps<R>(cfg: Config, start: int, w: Writer<R>, at: int, insert: Insert, closing: bool, received: seq<R>)
    requires Invariant(cfg, start, w, received) && (closing || at >= w.nextAttempt)
    ensures Invariant(cfg, start, Flush(cfg, w, at, insert, closing), received)
  {
    FlushConserves(cfg, w, at, insert, closing, received);
    FlushPaced(cfg, start, w, at, insert, closing);
  }

  function WithRow<R>(received: seq<R>, e: Event<R>): seq<R> {
    if e.Recv? then received + [e.row] else received
  }

  lemma StepKeeps<R>(cfg: Config, start: int, w: Writer<R>, e: Event<R>, received: seq<R>)
    requires Invariant(cfg, start, w, received)
    ensures Invariant(cfg, start, Step(cfg, w, e), WithRow(received, e))
  {
    match e
    case Recv(row, now, insert) =>
      var pushed := Push(cfg, w, row);
      PushKeeps(cfg, start, w, row, received);
      if |pushed.batch| >= cfg.batchSize && now >= pushed.nextAttempt {
        FlushKeeps(cfg, start, pushed, now, insert, false, received + [row]);
      }
    case Tick(now, insert) =>
      if |w.batch| > 0 && now >= w.nextAttempt {
        FlushKeeps(cfg, start, w, now, insert, false, received);
      }
    case Close(now, insert) =>
      if |w.batch| > 0 {
        FlushKeeps(cfg, start, w, now, insert, true, received);
      }
  }

  lemma ReceivedStep<R>(received: seq<R>, events: seq<Event<R>>)
    requires |events| > 0
    ensures received + Received(events)
            == if events[0].Close? then received else WithRow(received, events[0]) + Received(events[1..])
  {
    if events[0].Recv? {
      Associative(received, [events[0].row], Received(events[1..]));
    } else if events[0].Close? {
      assert received + [] == received;
    }
  }

  lemma Associative<R>(a: seq<R>, b: seq<R>, c: seq<R>)
    ensures (a + b) + c == a + (b + c)
  {
  }

  lemma {:induction false} RunKeeps<R>(cfg: Config, start: int, w: Writer<R>, events: seq<Event<R>>, received: seq<R>)
    requires Invariant(cfg, start, w, received)
    ensures Invariant(cfg, start, Run(cfg, w, events), received + Received(events))
    decreases |events|
  {
    if |events| == 0 {
      assert received + [] == received;
    } else {
      StepKeeps(cfg, start, w, events[0], received);
      ReceivedStep(received, events);
      if !events[0].Close? {
        RunKeeps(cfg, start, Step(cfg, w, events[0]), events[1..], WithRow(received, events[0]));
      }
    }
  }

  /** Over every run: the rows received are, in order, those settled followed by those still held; the
      four counters are exact; and the batch respects its cap. */
  lemma RowsConserved<R>(cfg: Config, start: int, events: seq<Event<R>>)
    ensures var w := Run(cfg, Start<R>(cfg, start), events);
            && Settled(w.history) + w.batch == Received(events)
            && w.stats.rowsOk == |Inserted(w.history)| && w.stats.rowsDropped == |GivenUp(w.history)|
            && w.stats.batchesOk == Attempts(w.history, true) && w.stats.batchesErr == Attempts(w.history, false)
            && w.stats.rowsOk + w.stats.rowsDropped + |w.batch| == |Received(events)|
            && |w.batch| <= cfg.maxBufferRows
  {
    RunKeeps(cfg, start, Start<R>(cfg, start), events, []);
    assert [] + Received(events) == Received(events);
  }

  /** An accounting gap only at the end: the returned counters cover every row received exactly when
      the closing insert succeeds or has nothing to insert.  (The code's comment promises that closing
      flushes the batch; a failed closing insert loses it without counting it as dropped.) */
  lemma ClosingAccountsForAll<R>(cfg: Config, start: int, events: seq<Event<R>>, now: int, insert: Insert)
    requires forall e :: e in events ==> !e.Close?
    ensures var before := Run(cfg, Start<R>(cfg, start), events);
            var end := Run(cfg, Start<R>(cfg, start), events + [Close(now, insert)]);
            end.stats.rowsOk + end.stats.rowsDropped == |Received(events)| <==> insert.ok || |before.batch| == 0
  {
    RowsConserved(cfg, start, events);
    RunSnoc(cfg, Start<R>(cfg, start), events, Close(now, insert));
  }

  /** One row received, and the closing insert fails: the row is in neither counter. */
  lemma FailedClosingLosesRow<R>(cfg: Config, row: R, now: int)
    requires cfg.maxBufferRows > 0 && cfg.batchSize > 1
    ensures var end := Run(cfg, Start<R>(cfg, now),
                           [Recv(row, now, Insert(true, now))] + [Close(now, Insert(false, now))]);
            end.stats.rowsOk + end.stats.rowsDropped == 0 && end.batch == [row]
  {
    var received: seq<Event<R>> := [Recv(row, now, Insert(true, now))];
    assert received[1..] == [];
    RunSnoc(cfg, Start<R>(cfg, now), received, Close(now, Insert(false, now)));
  }

  // ---- Pacing ------------------------------------------------------------------------------------

  /** The delay is the flush interval doubled once per failure since the last success, and from the first
      failure on at most 30 s; with a flush interval of at most 30 s that bound always holds. */
  lemma BackoffDoubles<R>(cfg: Config, start: int, events: seq<Event<R>>)
    ensures var w := Run(cfg, Start<R>(cfg, start), events);
            var doubled := Doublings(cfg.flushInterval, Streak(w.history));
            && (Streak(w.history) > 0 ==> w.backoff == Min(doubled, 30_000))
            && (Streak(w.history) == 0 ==> w.backoff == cfg.flushInterval)
            && (cfg.flushInterval <= 30_000 ==> w.backoff == Min(doubled, 30_000))
  {
    RunKeeps(cfg, start, Start<R>(cfg, start), events, []);
  }

  /** One more failure never shortens the delay, provided the flush interval is within the cap; with a
      longer interval the first failure does shorten it. */
  lemma BackoffGrows(cfg: Config)
    ensures (forall k: nat :: BackoffAfter(cfg, k) <= BackoffAfter(cfg, k + 1)) <==> cfg.flushInterval <= 30_000
  {
    if cfg.flushInterval > BACKOFF_MAX {
      assert BackoffAfter(cfg, 0) > BackoffAfter(cfg, 0 + 1);
    } else {
      forall k: nat ensures BackoffAfter(cfg, k) <= BackoffAfter(cfg, k + 1) {
        NextBackoff(cfg, k);
      }
    }
  }

  ghost predicate NoAttemptBetween<R>(h: seq<Entry<R>>, i: nat, j: nat) {
    forall k :: i < k < j < |h| ==> h[k].Dropped?
  }

  /** Of two attempts with none between them, the later one is made only after the earlier one has
      returned and, if that failed, only after the delay its streak calls for; closing is exempt. */
  lemma AttemptsSpaced<R>(cfg: Config, start: int, events: seq<Event<R>>, i: nat, j: nat)
    requires var h := Run(cfg, Start<R>(cfg, start), events).history;
             i < j < |h| && h[i].Attempted? && h[j].Attempted? && !h[j].closing && NoAttemptBetween(h, i, j)
    ensures var h := Run(cfg, Start<R>(cfg, start), events).history;
            h[j].at >= h[i].insert.done + if h[i].insert.ok then 0 else BackoffAfter(cfg, Streak(h[..i + 1]))
  {
    var h := Run(cfg, Start<R>(cfg, start), events).history;
    RunKeeps(cfg, start, Start<R>(cfg, start), events, []);
    PatientAt(cfg, start, h, j);
    ReadyUnchanged(cfg, start, h, i, j);
  }

  lemma {:induction false} PatientAt<R>(cfg: Config, start: int, h: seq<Entry<R>>, j: nat)
    requires Patient(cfg, start, h) && j < |h| && h[j].Attempted? && !h[j].closing
    ensures h[j].at >= ReadyAt(cfg, start, h[..j])
    decreases |h|
  {
    if j < |h| - 1 {
      PatientAt(cfg, start, Earlier(h), j);
      assert Earlier(h)[..j] == h[..j];
    }
  }

  lemma {:induction false} ReadyUnchanged<R>(cfg: Config, start: int, h: seq<Entry<R>>, i: nat, j: nat)
    requires i < j < |h| && h[i].Attempted? && NoAttemptBetween(h, i, j)
    ensures ReadyAt(cfg, start, h[..j])
            == h[i].insert.done + if h[i].insert.ok then 0 else BackoffAfter(cfg, Streak(h[..i + 1]))
    decreases j
  {
    if j > i + 1 {
      ReadyUnchanged(cfg, start, h, i, j - 1);
      assert Earlier(h[..j]) == h[..j - 1];
    }
  }

  // ---- What is given up ----------------------------------------------------------------------------

  ghost predicate OneAtATime<R>(h: seq<Entry<R>>) {
    forall k :: 0 <= k < |h| && h[k].Dropped? ==> |h[k].rows| == 1
  }

  /** Rows are given up one at a time, so a receive never costs more than the oldest row held. */
  lemma {:induction false} DropsSingly<R>(cfg: Config, w: Writer<R>, events: seq<Event<R>>)
    requires OneAtATime(w.history) && |w.batch| <= cfg.maxBufferRows
    ensures OneAtATime(Run(cfg, w, events).history)
    decreases |events|
  {
    if |events| > 0 {
      var next := Step(cfg, w, events[0]);
      assert OneAtATime(next.history);
      if !events[0].Close? {
        DropsSingly(cfg, next, events[1..]);
      }
    }
  }

  /** As long as the rows received fit in the buffer, none is given up, whatever the outcomes. */
  lemma NothingGivenUpWithinCap<R>(cfg: Config, start: int, events: seq<Event<R>>)
    requires |Received(events)| <= cfg.maxBufferRows
    ensures Run(cfg, Start<R>(cfg, start), events).stats.rowsDropped == 0
  {
    WithinCap(cfg, Start<R>(cfg, start), events);
  }

  lemma {:induction false} WithinCap<R>(cfg: Config, w: Writer<R>, events: seq<Event<R>>)
    requires |w.batch| + |Received(events)| <= cfg.maxBufferRows
    ensures Run(cfg, w, events).stats.rowsDropped == w.stats.rowsDropped
    decreases |events|
  {
    if |events| > 0 && !events[0].Close? {
      WithinCap(cfg, Step(cfg, w, events[0]), events[1..]);
    }
  }

  // ---- When an insert is made ------------------------------------------------------------------------

  ghost predicate Open<R>(events: seq<Event<R>>) {
    forall e :: e in events ==> !e.Close?
  }

  /** One more turn of a loop that has not ended. */
  lemma {:induction false} RunSnoc<R>(cfg: Config, w: Writer<R>, events: seq<Event<R>>, e: Event<R>)
    requires Open(events)
    ensures Run(cfg, w, events + [e]) == Step(cfg, Run(cfg, w, events), e)
    decreases |events|
  {
    if |events| == 0 {
      assert (events + [e])[1..] == [];
    } else {
      RunSnoc(cfg, Step(cfg, w, events[0]), events[1..], e);
      assert (events + [e])[1..] == events[1..] + [e];
    }
  }

  /** Nothing happens once the channel has been found closed. */
  lemma {:induction false} NothingAfterClose<R>(cfg: Config, w: Writer<R>, events: seq<Event<R>>, e: Event<R>,
                                                more: seq<Event<R>>)
    requires Open(events) && e.Close?
    ensures Run(cfg, w, events + [e] + more) == Run(cfg, w, events + [e])
    decreases |events|
  {
    var all := events + [e] + more;
    if |events| == 0 {
      assert all[0] == e && (events + [e])[0] == e;
    } else {
      NothingAfterClose(cfg, Step(cfg, w, events[0]), events[1..], e, more);
      assert all[0] == events[0] && all[1..] == events[1..] + [e] + more;
      assert (events + [e])[1..] == events[1..] + [e];
    }
  }

  /** The rows received that are neither inserted nor given up. */
  function Held<R>(received: seq<R>, h: seq<Entry<R>>): seq<R> {
    if |Settled(h)| <= |received| then received[|Settled(h)|..] else []
  }

  function HistoryOf<R>(cfg: Config, start: int, events: seq<Event<R>>): seq<Entry<R>> {
    Run(cfg, Start<R>(cfg, start), events).history
  }

  lemma RunState<R>(cfg: Config, start: int, events: seq<Event<R>>)
    ensures var w := Run(cfg, Start<R>(cfg, start), events);
            w.batch == Held(Received(events), w.history) && w.nextAttempt == ReadyAt(cfg, start, w.history)
            && |w.batch| <= cfg.maxBufferRows
  {
    RunKeeps(cfg, start, Start<R>(cfg, start), events, []);
    assert [] + Received(events) == Received(events);
  }

  /** A tick inserts everything held, exactly if there is something and its moment has come. */
  lemma TickInserts<R>(cfg: Config, start: int, events: seq<Event<R>>, now: int, insert: Insert)
    requires Open(events)
    ensures var h := HistoryOf(cfg, start, events);
            var held := Held(Received(events), h);
            HistoryOf(cfg, start, events + [Tick(now, insert)])
            == h + if |held| > 0 && now >= ReadyAt(cfg, start, h) then [Attempted(held, now, insert, false)] else []
  {
    RunState(cfg, start, events);
    RunSnoc(cfg, Start<R>(cfg, start), events, Tick(now, insert));
  }

  /** The closing turn inserts everything held, whenever it comes. */
  lemma CloseInserts<R>(cfg: Config, start: int, events: seq<Event<R>>, now: int, insert: Insert)
    requires Open(events)
    ensures var h := HistoryOf(cfg, start, events);
            var held := Held(Received(events), h);
            HistoryOf(cfg, start, events + [Close(now, insert)])
            == h + if |held| > 0 then [Attempted(held, now, insert, true)] else []
  {
    RunState(cfg, start, events);
    RunSnoc(cfg, Start<R>(cfg, start), events, Close(now, insert));
  }

  /** A received row first pushes the oldest ones out, as far as the buffer is too small; what is left is
      inserted, exactly if it fills a batch and its moment has come. */
  lemma ReceiveInserts<R>(cfg: Config, start: int, events: seq<Event<R>>, row: R, now: int, insert: Insert)
    requires Open(events)
    ensures var h := HistoryOf(cfg, start, events);
            var held := Held(Received(events), h) + [row];
            var excess := if |held| > cfg.maxBufferRows then |held| - cfg.maxBufferRows else 0;
            HistoryOf(cfg, start, events + [Recv(row, now, insert)])
            == h + (if excess > 0 then [Dropped(held[..excess])] else [])
                 + if |held| - excess >= cfg.batchSize && now >= ReadyAt(cfg, start, h)
                   then [Attempted(held[excess..], now, insert, false)] else []
  {
    RunState(cfg, start, events);
    RunSnoc(cfg, Start<R>(cfg, start), events, Recv(row, now, insert));
    var w := Run(cfg, Start<R>(cfg, start), events);
    assert (w.batch + [row])[0..] == w.batch + [row];
  }

  lemma {:induction false} ReceivedSnoc<R>(events: seq<Event<R>>, e: Event<R>)
    requires Open(events)
    ensures Received(events + [e]) == WithRow(Received(events), e)
    decreases |events|
  {
    if |events| == 0 {
      assert (events + [e])[1..] == [];
    } else {
      ReceivedSnoc(events[1..], e);
      assert (events + [e])[1..] == events[1..] + [e];
    }
  }

  /** After a tick in time whose insert succeeds nothing is owed any more. */
  lemma TickSettlesAll<R>(cfg: Config, start: int, events: seq<Event<R>>, now: int, insert: Insert)
    requires Open(events) && insert.ok && now >= ReadyAt(cfg, start, HistoryOf(cfg, start, events))
    ensures Settled(HistoryOf(cfg, start, events + [Tick(now, insert)])) == Received(events)
  {
    var h := HistoryOf(cfg, start, events);
    var h' := HistoryOf(cfg, start, events + [Tick(now, insert)]);
    RowsConserved(cfg, start, events);
    RunState(cfg, start, events);
    TickInserts(cfg, start, events, now, insert);
    if |Held(Received(events), h)| > 0 {
      assert Earlier(h') == h;
    } else {
      assert h' == h;
    }
  }
}
