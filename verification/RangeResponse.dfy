/** The columns of a range response, built from the query's rows: one entry per (window, price) bucket and
    one candle per window.  Parsing a line's JSON is not modelled: a line is unusable, or it has cells. */
module RangeResponse {
  import opened Common

  import Footprint

  const MAX_BARS := 500_000
  const U8_MAX := 255

  /** The last four cells of a row; a cell that is no number reads as 0. */
  datatype Candle = Candle(open: Option<int>, close: Option<int>, high: Option<int>, low: Option<int>)

  datatype Scales = Scales(price: Option<nat>, qty: Option<nat>)

  datatype Bar = Bar(ts: int, price: int, bid: int, ask: int, trades: nat)

  /** Rows have at least the five cells of a bar; from seven on they have scales, from eleven on a candle. */
  datatype Line =
    | Unusable
    | Five(bar: Bar)
    | Seven(bar: Bar, scales: Scales)
    | Eleven(bar: Bar, scales: Scales, candle: Candle)

  type Row = l: Line | !l.Unusable? witness Five(Bar(0, 0, 0, 0, 0))

  datatype Response = Response(
    priceScale: nat,
    qtyScale: nat,
    n: nat,
    windowStart: seq<int>,
    price: seq<int>,
    bid: seq<int>,
    ask: seq<int>,
    trades: seq<nat>,
    windowsN: nat,
    windows: seq<int>,
    open: seq<int>,
    close: seq<int>,
    high: seq<int>,
    low: seq<int>
  )

  // ---- What the response should hold -------------------------------------------------------------

  function Usable(lines: seq<Line>): seq<Row>
    decreases |lines|
  {
    if lines == [] then []
    else
      var earlier, last := Usable(lines[..|lines| - 1]), lines[|lines| - 1];
      if last.Unusable? then earlier else earlier + [last]
  }

  /** Parsing stops at the ceiling. */
  function Kept(lines: seq<Line>): seq<Row> {
    var rows := Usable(lines);
    if |rows| > MAX_BARS then rows[..MAX_BARS] else rows
  }

  /** The rows that begin a window: their start differs from that of the row before. */
  function Starts(rows: seq<Row>): seq<Row>
    decreases |rows|
  {
    if rows == [] then []
    else
      var n := |rows| - 1;
      if n > 0 && rows[n - 1].bar.ts == rows[n].bar.ts then Starts(rows[..n]) else Starts(rows[..n]) + [rows[n]]
  }

  /** A row from before candles were stored has none, and reads as zeros. */
  function CandleOf(r: Row): Footprint.Ohlc {
    match r
    case Eleven(_, _, c) => Footprint.Ohlc(c.open.GetOr(0), c.close.GetOr(0), c.high.GetOr(0), c.low.GetOr(0))
    case _ => Footprint.Ohlc(0, 0, 0, 0)
  }

  function ScaleOf(scale: Option<nat>): nat {
    Min(scale.GetOr(0), U8_MAX)
  }

  ghost predicate BarsOf(out: Response, rows: seq<Row>) {
    && out.n == |rows| == |out.windowStart| == |out.price| == |out.bid| == |out.ask| == |out.trades|
    && forall i :: 0 <= i < |rows| ==>
         rows[i].bar == Bar(out.windowStart[i], out.price[i], out.bid[i], out.ask[i], out.trades[i])
  }

  ghost predicate CandlesOf(out: Response, starts: seq<Row>) {
    && out.windowsN == |starts| == |out.windows| == |out.open| == |out.close| == |out.high| == |out.low|
    && forall j :: 0 <= j < |starts| ==>
         && out.windows[j] == starts[j].bar.ts
         && CandleOf(starts[j]) == Footprint.Ohlc(out.open[j], out.close[j], out.high[j], out.low[j])
  }

  /** Both scales come from the first row alone. */
  ghost predicate ScalesOf(out: Response, rows: seq<Row>) {
    var first := if rows == [] || rows[0].Five? then Scales(None, None) else rows[0].scales;
    out.priceScale == ScaleOf(first.price) && out.qtyScale == ScaleOf(first.qty)
  }

  // ---- The loop ------------------------------------------------------------------------------------

  method PushCandle(out: Response, r: Row, ghost starts: seq<Row>) returns (out': Response)
    requires CandlesOf(out, starts)
    ensures CandlesOf(out', starts + [r])
    ensures out' == out.(windowsN := out'.windowsN, windows := out'.windows, open := out'.open,
                         close := out'.close, high := out'.high, low := out'.low)
  {
    out' := out.(windows := out.windows + [r.bar.ts]);
    if r.Eleven? {
      out' := out'.(open := out.open + [r.candle.open.GetOr(0)], close := out.close + [r.candle.close.GetOr(0)],
                    high := out.high + [r.candle.high.GetOr(0)], low := out.low + [r.candle.low.GetOr(0)]);
    } else {
      out' := out'.(open := out.open + [0], close := out.close + [0], high := out.high + [0], low := out.low + [0]);
    }
    out' := out'.(windowsN := out.windowsN + 1);
  }

  method PushBar(out: Response, b: Bar, ghost rows: seq<Row>, ghost r: Row) returns (out': Response)
    requires BarsOf(out, rows) && r.bar == b
    ensures BarsOf(out', rows + [r])
    ensures out' == out.(n := out'.n, windowStart := out'.windowStart, price := out'.price, bid := out'.bid,
                         ask := out'.ask, trades := out'.trades)
  {
    out' := out.(windowStart := out.windowStart + [b.ts], price := out.price + [b.price], bid := out.bid + [b.bid],
                 ask := out.ask + [b.ask], trades := out.trades + [b.trades], n := out.n + 1);
  }

  /** The response holds exactly these rows. */
  ghost predicate Holds(out: Response, rows: seq<Row>) {
    BarsOf(out, rows) && CandlesOf(out, Starts(rows)) && ScalesOf(out, rows)
  }

  method PushScales(out: Response, r: Row, ghost rows: seq<Row>) returns (out': Response)
    requires out.n == |rows| && ScalesOf(out, rows)
    ensures ScalesOf(out', rows + [r])
    ensures out' == out.(priceScale := out'.priceScale, qtyScale := out'.qtyScale)
  {
    out' := out;
    if out.n == 0 && !r.Five? {
      if r.scales.price.Some? {
        out' := out'.(priceScale := Min(r.scales.price.value, U8_MAX));
      }
      if r.scales.qty.Some? {
        out' := out'.(qtyScale := Min(r.scales.qty.value, U8_MAX));
      }
    }
  }

  method PushRow(out: Response, r: Row, lastTs: Option<int>, ghost rows: seq<Row>) returns (out': Response)
    requires Holds(out, rows)
    requires lastTs == if rows == [] then None else Some(rows[|rows| - 1].bar.ts)
    ensures Holds(out', rows + [r])
  {
    assert (rows + [r])[..|rows|] == rows;
    out' := PushScales(out, r, rows);
    if lastTs != Some(r.bar.ts) {
      out' := PushCandle(out', r, Starts(rows));
    }
    out' := PushBar(out', r.bar, rows, r);
  }

  method BuildResponse(lines: seq<Line>) returns (out: Response)
    ensures Holds(out, Kept(lines))
  {
    out := Response(0, 0, 0, [], [], [], [], [], 0, [], [], [], [], []);
    var lastTs: Option<int> := None;
    ghost var rows: seq<Row> := [];
    for i := 0 to |lines|
      invariant rows == Usable(lines[..i]) && |rows| < MAX_BARS && Holds(out, rows)
      invariant lastTs == if rows == [] then None else Some(rows[|rows| - 1].bar.ts)
    {
      var line := lines[i];
      UsableStep(lines, i);
      if line.Unusable? {
        continue;
      }
      out := PushRow(out, line, lastTs, rows);
      lastTs := Some(line.bar.ts);
      rows := rows + [line];
      if out.n >= MAX_BARS {
        KeptAtCeiling(lines, i + 1);
        return;
      }
    }
    assert lines[..|lines|] == lines;
  }

  lemma UsableStep(lines: seq<Line>, i: nat)
    requires i < |lines|
    ensures Usable(lines[..i + 1])
            == if lines[i].Unusable? then Usable(lines[..i]) else Usable(lines[..i]) + [lines[i]]
  {
    assert lines[..i + 1][..i] == lines[..i];
  }

  lemma KeptAtCeiling(lines: seq<Line>, i: nat)
    requires i <= |lines| && |Usable(lines[..i])| == MAX_BARS
    ensures Kept(lines) == Usable(lines[..i])
  {
    UsablePrefix(lines, i);
    assert |Usable(lines)| == MAX_BARS ==> Usable(lines)[..MAX_BARS] == Usable(lines);
  }

  lemma {:induction false} UsablePrefix(lines: seq<Line>, i: nat)
    requires i <= |lines|
    ensures |Usable(lines[..i])| <= |Usable(lines)| && Usable(lines)[..|Usable(lines[..i])|] == Usable(lines[..i])
    decreases |lines|
  {
    if i == |lines| {
      assert lines[..i] == lines;
    } else {
      UsablePrefix(lines[..|lines| - 1], i);
      assert lines[..|lines| - 1][..i] == lines[..i];
    }
  }

  // ---- What a client may rely on -------------------------------------------------------------------

  /** The query orders its rows by window. */
  ghost predicate Ordered(rows: seq<Row>) {
    forall i, j :: 0 <= i <= j < |rows| ==> rows[i].bar.ts <= rows[j].bar.ts
  }

  /** Rows of one window agree on its candle. */
  ghost predicate Agreed(rows: seq<Row>) {
    forall i, j :: 0 <= i < |rows| && 0 <= j < |rows| && rows[i].bar.ts == rows[j].bar.ts ==>
      CandleOf(rows[i]) == CandleOf(rows[j])
  }

  /** Row `i` is the first of its window. */
  predicate Begins(rows: seq<Row>, i: nat) {
    i < |rows| && (i == 0 || rows[i - 1].bar.ts != rows[i].bar.ts)
  }

  lemma {:induction false} StartIsRow(rows: seq<Row>, j: nat) returns (i: nat)
    requires j < |Starts(rows)|
    ensures Begins(rows, i) && Starts(rows)[j] == rows[i]
    decreases |rows|
  {
    var n := |rows| - 1;
    if j < |Starts(rows[..n])| {
      i := StartIsRow(rows[..n], j);
    } else {
      i := n;
    }
  }

  ghost predicate Ascending(rows: seq<Row>) {
    forall j, k :: 0 <= j < k < |rows| ==> rows[j].bar.ts < rows[k].bar.ts
  }

  lemma {:induction false} StartsAscend(rows: seq<Row>)
    requires Ordered(rows)
    ensures Ascending(Starts(rows))
    ensures rows != [] ==> Starts(rows) != [] && Starts(rows)[|Starts(rows)| - 1].bar.ts == rows[|rows| - 1].bar.ts
    decreases |rows|
  {
    if rows != [] {
      var init := rows[..|rows| - 1];
      StartsAscend(init);
      if Starts(rows) != Starts(init) && init != [] {
        assert init[|init| - 1].bar.ts < rows[|init|].bar.ts;
      }
    }
  }

  lemma {:induction false} StartOf(rows: seq<Row>, i: nat) returns (j: nat)
    requires i < |rows|
    ensures j < |Starts(rows)| && Starts(rows)[j].bar.ts == rows[i].bar.ts
    decreases |rows|
  {
    var n := |rows| - 1;
    if i < n {
      j := StartOf(rows[..n], i);
    } else if n > 0 && rows[n - 1].bar.ts == rows[n].bar.ts {
      j := StartOf(rows[..n], n - 1);
    } else {
      j := |Starts(rows)| - 1;
    }
  }

  function Number(cell: Option<int>): int {
    match cell case Some(x) => x case None => 0
  }

  predicate CandleAt(out: Response, j: nat, open: int, close: int, high: int, low: int) {
    && j < |out.open| == |out.close| == |out.high| == |out.low|
    && out.open[j] == open && out.close[j] == close && out.high[j] == high && out.low[j] == low
  }

  /** The candle at `j` holds the last four cells of the row, zeros for what it lacks. */
  predicate CandleOfRow(out: Response, j: nat, r: Row) {
    match r
    case Eleven(_, _, c) => CandleAt(out, j, Number(c.open), Number(c.close), Number(c.high), Number(c.low))
    case _ => CandleAt(out, j, 0, 0, 0, 0)
  }

  /** Looking a bar's window up among the windows finds exactly one candle: the one the first row of that window
      carried, also when the response was cut off at the ceiling. */
  lemma FirstRowsCandle(lines: seq<Line>, out: Response, i: nat) returns (j: nat, first: nat)
    requires Ordered(Kept(lines)) && i < |Kept(lines)| && Holds(out, Kept(lines))
    ensures j < |out.windows| && out.windows[j] == out.windowStart[i]
    ensures forall k :: 0 <= k < |out.windows| && out.windows[k] == out.windowStart[i] ==> k == j
    ensures Begins(Kept(lines), first) && Kept(lines)[first].bar.ts == Kept(lines)[i].bar.ts
    ensures CandleOfRow(out, j, Kept(lines)[first])
  {
    var rows := Kept(lines);
    StartsAscend(rows);
    j := StartOf(rows, i);
    first := StartIsRow(rows, j);
  }

  /** If the rows of a window agree, that is the candle of the bar's own row. */
  lemma CandleFound(lines: seq<Line>, out: Response, i: nat) returns (j: nat)
    requires Ordered(Kept(lines)) && Agreed(Kept(lines)) && i < |Kept(lines)|
    requires Holds(out, Kept(lines))
    ensures j < |out.windows| && out.windows[j] == out.windowStart[i]
    ensures forall k :: 0 <= k < |out.windows| && out.windows[k] == out.windowStart[i] ==> k == j
    ensures CandleOfRow(out, j, Kept(lines)[i])
  {
    var first: nat;
    j, first := FirstRowsCandle(lines, out, i);
    assert CandleOf(Kept(lines)[first]) == CandleOf(Kept(lines)[i]);
  }

  /** How many of the first `i` lines are usable. */
  function UsableBefore(lines: seq<Line>, i: nat): nat
    requires i <= |lines|
  {
    if i == 0 then 0 else UsableBefore(lines, i - 1) + if lines[i - 1].Unusable? then 0 else 1
  }

  lemma {:induction false} UsableAt(lines: seq<Line>, i: nat, j: nat)
    requires i <= |lines|
    ensures |Usable(lines[..i])| == UsableBefore(lines, i)
    ensures j < i && !lines[j].Unusable? ==>
              UsableBefore(lines, j) < UsableBefore(lines, i)
              && Usable(lines[..i])[UsableBefore(lines, j)] == lines[j]
    decreases i
  {
    if i > 0 {
      UsableAt(lines, i - 1, j);
      UsableStep(lines, i - 1);
    }
  }

  /** Every usable line is a bar, at the place its rank among them gives, up to the ceiling; there are no others. */
  lemma EveryLineIsABar(lines: seq<Line>, out: Response, i: nat)
    requires Holds(out, Kept(lines)) && i < |lines| && !lines[i].Unusable?
    ensures out.n == Min(UsableBefore(lines, |lines|), 500_000)
    ensures var n, bar := UsableBefore(lines, i), lines[i].bar;
            n < 500_000 ==>
              && n < |out.windowStart| == |out.price| == |out.bid| == |out.ask| == |out.trades| == out.n
              && out.windowStart[n] == bar.ts && out.price[n] == bar.price
              && out.bid[n] == bar.bid && out.ask[n] == bar.ask && out.trades[n] == bar.trades
  {
    UsableAt(lines, |lines|, i);
    assert lines[..|lines|] == lines;
  }

  /** The scales are those of the first usable line, if it has any, cut at 255. */
  lemma FirstLineScales(lines: seq<Line>, out: Response, first: Row)
    requires Holds(out, Kept(lines)) && Kept(lines) != [] && first == Kept(lines)[0]
    ensures first.Five? || first.scales.price.None? ==> out.priceScale == 0
    ensures first.Five? || first.scales.qty.None? ==> out.qtyScale == 0
    ensures !first.Five? && first.scales.price.Some? ==>
              out.priceScale == if first.scales.price.value > 255 then 255 else first.scales.price.value
    ensures !first.Five? && first.scales.qty.Some? ==>
              out.qtyScale == if first.scales.qty.value > 255 then 255 else first.scales.qty.value
  {
  }
}
