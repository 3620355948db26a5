/** What the range query computes from the deduplicated table, in its two branches: reading a base
    timeframe directly, and rolling a longer timeframe up from the one-minute rows. */
module RangeQuery {
  import opened Common
  import opened Footprint
  import opened ClusterTable
  import opened Timeframes

  // ---- SQL aggregates ------------------------------------------------------------------------

  lemma Inhabited(s: set<int>)
    ensures s == {} || exists x :: x in s
  {
    if forall x :: x !in s {
      assert s == {};
    }
  }

  lemma {:induction false} HasGreatest(s: set<int>)
    requires exists x :: x in s
    ensures exists m :: m in s && forall x :: x in s ==> x <= m
  {
    var x :| x in s;
    var rest := s - {x};
    Inhabited(rest);
    assert forall y :: y in s ==> y == x || y in rest;
    if rest != {} {
      HasGreatest(rest);
      var m :| m in rest && forall y :: y in rest ==> y <= m;
      if m < x {
        assert forall y :: y in s ==> y <= x;
      } else {
        assert m in s && forall y :: y in s ==> y <= m;
      }
    }
  }

  lemma HasLeast(s: set<int>)
    requires exists x :: x in s
    ensures exists m :: m in s && forall x :: x in s ==> m <= x
  {
    var x :| x in s;
    var negated := set y | y in s :: -y;
    assert -x in negated;
    HasGreatest(negated);
    var m :| m in negated && forall y :: y in negated ==> y <= m;
    forall y | y in s
      ensures -m <= y
    {
      assert -y in negated;
    }
  }

  ghost function Greatest(s: set<int>): (m: int)
    requires exists x :: x in s
    ensures m in s && forall x :: x in s ==> x <= m
  {
    HasGreatest(s);
    var m :| m in s && forall x :: x in s ==> x <= m;
    m
  }

  ghost function Least(s: set<int>): (m: int)
    requires exists x :: x in s
    ensures m in s && forall x :: x in s ==> m <= x
  {
    HasLeast(s);
    var m :| m in s && forall x :: x in s ==> m <= x;
    m
  }

  function Positive(s: set<int>): set<int> {
    set x | x in s && x > 0
  }

  /** `maxIf(x, x > 0)`: 0 when no value qualifies. */
  ghost function MaxIfPositive(s: set<int>): int {
    if exists x :: x in Positive(s) then Greatest(Positive(s)) else 0
  }

  /** `minIf(x, x > 0)`: 0 when no value qualifies. */
  ghost function MinIfPositive(s: set<int>): int {
    if exists x :: x in Positive(s) then Least(Positive(s)) else 0
  }

  lemma GreatestIs(s: set<int>, m: int)
    requires m in s && m > 0 && forall x :: x in s ==> x <= m
    ensures MaxIfPositive(s) == m
  {
    assert m in Positive(s);
  }

  lemma LeastIs(s: set<int>, m: int)
    requires m in s && m > 0 && forall x :: x in s ==> m <= x
    ensures MinIfPositive(s) == m
  {
    assert m in Positive(s);
  }

  // ---- Reading one stored window -------------------------------------------------------------

  /** The rows of a half-open range of windows. */
  function Slice(table: Table, from: int, to: int): Table {
    map k | k in table && from <= k.window < to :: table[k]
  }

  function RowsOfWindow(table: Table, w: int): set<Key> {
    set k | k in table && k.window == w
  }

  /** A row that `argMaxIf(close, ingested_at, close > 0)` may pick: ties are the engine's choice. */
  ghost predicate Newest(table: Table, w: int, k: Key) {
    && k in table && k.window == w && table[k].ohlc.close > 0
    && (forall k' :: k' in table && k'.window == w && table[k'].ohlc.close > 0 ==>
          table[k'].ingestedAt <= table[k].ingestedAt)
  }

  lemma HasNewest(table: Table, w: int)
    requires exists k :: k in table && k.window == w && table[k].ohlc.close > 0
    ensures exists k :: Newest(table, w, k)
  {
    var times := set k | k in table && k.window == w && table[k].ohlc.close > 0 :: table[k].ingestedAt;
    var k0 :| k0 in table && k0.window == w && table[k0].ohlc.close > 0;
    assert table[k0].ingestedAt in times;
    var top := Greatest(times);
    var k :| k in table && k.window == w && table[k].ohlc.close > 0 && table[k].ingestedAt == top;
    forall k' | k' in table && k'.window == w && table[k'].ohlc.close > 0
      ensures table[k'].ingestedAt <= top
    {
      assert table[k'].ingestedAt in times;
    }
    assert Newest(table, w, k);
  }

  ghost function NewestClose(table: Table, w: int): int {
    if exists k :: k in table && k.window == w && table[k].ohlc.close > 0 then
      HasNewest(table, w);
      var k :| Newest(table, w, k);
      table[k].ohlc.close
    else 0
  }

  /** The OHLC the query assembles from the rows of one stored window. */
  ghost function WindowOhlc(table: Table, w: int): Ohlc {
    var rows := RowsOfWindow(table, w);
    Ohlc(MaxIfPositive(set k | k in rows :: table[k].ohlc.open),
         NewestClose(table, w),
         MaxIfPositive(set k | k in rows :: table[k].ohlc.high),
         MinIfPositive(set k | k in rows :: table[k].ohlc.low))
  }

  // ---- Rolling up ----------------------------------------------------------------------------

  /** The stored windows that have a row for one price within one rolled window. */
  function SubWindowsOf(table: Table, interval: int, rw: int, p: int): set<int>
    requires interval > 0
  {
    set k | k in table && k.price == p && StartOfInterval(k.window, interval) == rw :: k.window
  }

  function SubWindows(table: Table, interval: int, rw: int): set<int>
    requires interval > 0
  {
    set k | k in table && StartOfInterval(k.window, interval) == rw :: k.window
  }

  ghost function SumOver(s: set<int>, f: int -> int): int {
    if exists x :: x in s then
      var x :| x in s;
      f(x) + SumOver(s - {x}, f)
    else 0
  }

  /** The value of one column of the row for a window and price, or 0 without such a row. */
  function Cell(table: Table, col: Column, w: int, p: int): int {
    if Key(w, p) in table then col.Of(table[Key(w, p)].bucket) else 0
  }

  /** `sum(col)` grouped by rolled window and price. */
  ghost function RolledSum(table: Table, col: Column, interval: int, rw: int, p: int): int
    requires interval > 0
  {
    SumOver(SubWindowsOf(table, interval, rw, p), w => Cell(table, col, w, p))
  }

  /** `argMinIf(sub_open, sub_ws, sub_open > 0)`. */
  ghost function FirstOpen(table: Table, interval: int, rw: int): int
    requires interval > 0
  {
    var started := set w | w in SubWindows(table, interval, rw) && WindowOhlc(table, w).open > 0;
    if exists w :: w in started then WindowOhlc(table, Least(started)).open else 0
  }

  /** `argMaxIf(sub_close, sub_ws, sub_close > 0)`. */
  ghost function LastClose(table: Table, interval: int, rw: int): int
    requires interval > 0
  {
    var closed := set w | w in SubWindows(table, interval, rw) && WindowOhlc(table, w).close > 0;
    if exists w :: w in closed then WindowOhlc(table, Greatest(closed)).close else 0
  }

  ghost function RolledOhlc(table: Table, interval: int, rw: int): Ohlc
    requires interval > 0
  {
    var subs := SubWindows(table, interval, rw);
    Ohlc(FirstOpen(table, interval, rw), LastClose(table, interval, rw),
         MaxIfPositive(set w | w in subs :: WindowOhlc(table, w).high),
         MinIfPositive(set w | w in subs :: WindowOhlc(table, w).low))
  }
}
