/** Trade-id gap accounting within one session: the highest id seen per symbol and the trades skipped
    on the way there.  Ids are plain integers: below u64::MAX adding one to them does not wrap. */
module TradeGaps {
  import opened Common

  datatype Symbol = Symbol(name: string)

  datatype Trade = Trade(symbol: Symbol, id: int)

  // ---- What one symbol's ids say -----------------------------------------------------------------

  function IdsOf(seen: seq<Trade>, symbol: Symbol): seq<int>
    decreases |seen|
  {
    if seen == [] then []
    else
      var n := |seen| - 1;
      if seen[n].symbol == symbol then IdsOf(seen[..n], symbol) + [seen[n].id] else IdsOf(seen[..n], symbol)
  }

  /** The highest id so far. */
  function Top(ids: seq<int>): int
    requires ids != []
    decreases |ids|
  {
    var n := |ids| - 1;
    if n == 0 then ids[0] else Max(Top(ids[..n]), ids[n])
  }

  lemma {:induction false} TopIsMaximum(ids: seq<int>)
    requires ids != []
    ensures Top(ids) in ids && forall x :: x in ids ==> x <= Top(ids)
    decreases |ids|
  {
    var n := |ids| - 1;
    if n > 0 {
      TopIsMaximum(ids[..n]);
      assert ids == ids[..n] + [ids[n]];
    }
  }

  /** The ids that were the highest when they arrived. */
  ghost function Raised(ids: seq<int>): set<int>
    decreases |ids|
  {
    if ids == [] then {}
    else
      var n := |ids| - 1;
      if n == 0 || ids[n] > Top(ids[..n]) then Raised(ids[..n]) + {ids[n]} else Raised(ids[..n])
  }

  /** How often the highest id rose by more than one. */
  ghost function Jumps(ids: seq<int>): int
    decreases |ids|
  {
    if |ids| <= 1 then 0
    else
      var n := |ids| - 1;
      Jumps(ids[..n]) + if ids[n] > Top(ids[..n]) + 1 then 1 else 0
  }

  /** Last minus first minus the ids that raised the mark after the first. */
  ghost function Missing(ids: seq<int>): int {
    if ids == [] then 0 else Top(ids) - ids[0] - (|Raised(ids)| - 1)
  }

  lemma {:induction false} RaisedBounds(ids: seq<int>)
    requires ids != []
    ensures ids[0] in Raised(ids) && Top(ids) in Raised(ids)
    ensures forall x :: x in Raised(ids) ==> x in ids && ids[0] <= x <= Top(ids)
    decreases |ids|
  {
    var n := |ids| - 1;
    if n > 0 {
      RaisedBounds(ids[..n]);
      assert ids == ids[..n] + [ids[n]];
    }
  }

  /** One more id: only a rise changes anything, and it adds what it skipped. */
  lemma MissingStep(ids: seq<int>, id: int)
    requires ids != []
    ensures Top(ids + [id]) == Max(Top(ids), id)
    ensures Missing(ids + [id]) == Missing(ids) + Max(id - Top(ids) - 1, 0)
  {
    var all := ids + [id];
    assert all[..|ids|] == ids && all[|ids|] == id;
    RaisedBounds(ids);
    assert id > Top(ids) ==> id !in Raised(ids);
    assert Raised(all) == if id > Top(ids) then Raised(ids) + {id} else Raised(ids);
  }

  lemma JumpsStep(ids: seq<int>, id: int)
    requires ids != []
    ensures Jumps(ids + [id]) == Jumps(ids) + if id > Top(ids) + 1 then 1 else 0
  {
    assert (ids + [id])[..|ids|] == ids;
  }

  // ---- Totals over symbols -------------------------------------------------------------------------

  /** Every symbol seen, once, in order of first appearance. */
  ghost function Symbols(seen: seq<Trade>): seq<Symbol>
    decreases |seen|
  {
    if seen == [] then []
    else
      var n := |seen| - 1;
      var earlier := Symbols(seen[..n]);
      if seen[n].symbol in earlier then earlier else earlier + [seen[n].symbol]
  }

  ghost predicate Distinct(syms: seq<Symbol>) {
    forall i, j :: 0 <= i < j < |syms| ==> syms[i] != syms[j]
  }

  datatype Count = Skips | Rises

  ghost function Of(count: Count, ids: seq<int>): int {
    if count.Skips? then Missing(ids) else Jumps(ids)
  }

  /** The sum over some symbols of a count of each one's ids. */
  ghost function SumOver(count: Count, seen: seq<Trade>, syms: seq<Symbol>): int
    decreases |syms|
  {
    if syms == [] then 0
    else SumOver(count, seen, syms[..|syms| - 1]) + Of(count, IdsOf(seen, syms[|syms| - 1]))
  }

  ghost function Total(count: Count, seen: seq<Trade>): int {
    SumOver(count, seen, Symbols(seen))
  }

  lemma {:induction false} SymbolsAre(seen: seq<Trade>, symbol: Symbol)
    ensures Distinct(Symbols(seen))
    ensures symbol in Symbols(seen) <==> IdsOf(seen, symbol) != []
    decreases |seen|
  {
    if seen != [] {
      SymbolsAre(seen[..|seen| - 1], symbol);
    }
  }

  lemma IdsStep(seen: seq<Trade>, t: Trade, s: Symbol)
    ensures IdsOf(seen + [t], s) == if s == t.symbol then IdsOf(seen, s) + [t.id] else IdsOf(seen, s)
  {
    assert (seen + [t])[..|seen|] == seen;
  }

  /** One more trade changes a sum only at its own symbol. */
  lemma {:induction false} SumStep(count: Count, seen: seq<Trade>, t: Trade, syms: seq<Symbol>)
    requires Distinct(syms)
    ensures var ids := IdsOf(seen, t.symbol);
            SumOver(count, seen + [t], syms) == SumOver(count, seen, syms)
               + if t.symbol in syms then Of(count, ids + [t.id]) - Of(count, ids) else 0
    decreases |syms|
  {
    if syms != [] {
      var n := |syms| - 1;
      assert syms == syms[..n] + [syms[n]];
      SumStep(count, seen, t, syms[..n]);
      IdsStep(seen, t, syms[n]);
    }
  }

  lemma TotalStep(count: Count, seen: seq<Trade>, t: Trade)
    requires Of(count, [t.id]) == 0
    ensures var ids := IdsOf(seen, t.symbol);
            Total(count, seen + [t])
            == Total(count, seen) + if ids == [] then 0 else Of(count, ids + [t.id]) - Of(count, ids)
  {
    var all, syms := seen + [t], Symbols(seen);
    assert all[..|seen|] == seen;
    SymbolsAre(seen, t.symbol);
    SumStep(count, seen, t, syms);
    if t.symbol !in syms {
      assert (syms + [t.symbol])[..|syms|] == syms;
      IdsStep(seen, t, t.symbol);
      assert [] + [t.id] == [t.id];
    }
  }

  /** A symbol's mark: none before its first trade. */
  function Mark(ids: seq<int>): Option<int> {
    if ids == [] then None else Some(Top(ids))
  }

  function Skipped(mark: Option<int>, id: int): int {
    if mark.None? then 0 else Max(id - mark.value - 1, 0)
  }

  lemma OneId(id: int)
    ensures Missing([id]) == 0 && Jumps([id]) == 0 && Top([id]) == id
  {
    assert Raised([id][..0]) == {} && Raised([id]) == {id};
  }

  lemma MarkStep(seen: seq<Trade>, t: Trade, s: Symbol)
    ensures var mark := Mark(IdsOf(seen, s));
            Mark(IdsOf(seen + [t], s))
            == if s != t.symbol then mark else Some(if mark.None? then t.id else Max(mark.value, t.id))
  {
    IdsStep(seen, t, s);
    var ids := IdsOf(seen, s);
    if ids == [] {
      assert ids + [t.id] == [t.id];
    } else {
      MissingStep(ids, t.id);
    }
  }

  function Added(count: Count, mark: Option<int>, id: int): int {
    if count.Skips? then Skipped(mark, id) else if Skipped(mark, id) > 0 then 1 else 0
  }

  lemma CountStep(count: Count, ids: seq<int>, id: int)
    ensures Of(count, ids + [id]) == Of(count, ids) + Added(count, Mark(ids), id)
  {
    if ids == [] {
      OneId(id);
      assert ids + [id] == [id];
    } else if count.Skips? {
      MissingStep(ids, id);
    } else {
      JumpsStep(ids, id);
    }
  }

  /** What one more trade adds to a total. */
  lemma TotalAdds(count: Count, seen: seq<Trade>, t: Trade)
    ensures Total(count, seen + [t]) == Total(count, seen) + Added(count, Mark(IdsOf(seen, t.symbol)), t.id)
  {
    OneId(t.id);
    CountStep(count, IdsOf(seen, t.symbol), t.id);
    TotalStep(count, seen, t);
  }

  // ---- The session's counters ----------------------------------------------------------------------

  ghost predicate MarksAre(marks: map<Symbol, int>, seen: seq<Trade>) {
    forall s :: (if s in marks then Some(marks[s]) else None) == Mark(IdsOf(seen, s))
  }

  /** Each mark is the symbol's highest id; the counters are the totals over all symbols, the second one
      saturating. */
  ghost predicate Accounts(marks: map<Symbol, int>, gaps: int, missing: int, seen: seq<Trade>) {
    MarksAre(marks, seen) && gaps == Total(Rises, seen) && missing == Min(Total(Skips, seen), U64_MAX)
  }

  lemma MarksStep(marks: map<Symbol, int>, seen: seq<Trade>, t: Trade)
    requires MarksAre(marks, seen)
    ensures Mark(IdsOf(seen, t.symbol)) == if t.symbol in marks then Some(marks[t.symbol]) else None
    ensures MarksAre(if t.symbol in marks && t.id <= marks[t.symbol] then marks else marks[t.symbol := t.id],
                     seen + [t])
  {
    forall s: Symbol { MarkStep(seen, t, s); }
  }

  lemma AccountsStep(marks: map<Symbol, int>, gaps: int, missing: int, seen: seq<Trade>, t: Trade)
    requires Accounts(marks, gaps, missing, seen)
    ensures t.symbol !in marks ==> Accounts(marks[t.symbol := t.id], gaps, missing, seen + [t])
    ensures t.symbol in marks && t.id <= marks[t.symbol] ==> Accounts(marks, gaps, missing, seen + [t])
    ensures t.symbol in marks && t.id > marks[t.symbol] ==>
              var skipped: int := t.id - marks[t.symbol] - 1;
              Accounts(marks[t.symbol := t.id], gaps + if skipped > 0 then 1 else 0,
                       Min(missing + skipped, U64_MAX), seen + [t])
  {
    MarksStep(marks, seen, t);
    TotalAdds(Skips, seen, t);
    TotalAdds(Rises, seen, t);
  }

  class GapTracker {
    var marks: map<Symbol, int>
    var gapsDetected: nat
    var tradesMissing: nat
    ghost var seen: seq<Trade>

    ghost predicate Valid()
      reads this
    {
      Accounts(marks, gapsDetected, tradesMissing, seen)
    }

    constructor ()
      ensures Valid() && seen == []
    {
      marks, gapsDetected, tradesMissing, seen := map[], 0, 0, [];
    }

    method DetectGap(symbol: Symbol, id: int)
      requires Valid()
      modifies this
      ensures Valid() && seen == old(seen) + [Trade(symbol, id)]
    {
      AccountsStep(marks, gapsDetected, tradesMissing, seen, Trade(symbol, id));
      seen := seen + [Trade(symbol, id)];
      if symbol !in marks {
        marks := marks[symbol := id];
        return;
      }
      var last: int := marks[symbol];
      if id > last + 1 {
        var missed: int := id - last - 1;
        gapsDetected := gapsDetected + 1;
        tradesMissing := Min(tradesMissing + missed, U64_MAX);
      }
      if id > last {
        marks := marks[symbol := id];
      }
    }
  }

  /** The tracker over a whole stream. */
  method Track(stream: seq<Trade>) returns (marks: map<Symbol, int>, gaps: nat, missing: nat)
    ensures Accounts(marks, gaps, missing, stream)
  {
    var tracker := new GapTracker();
    for i := 0 to |stream|
      invariant tracker.Valid() && tracker.seen == stream[..i]
    {
      tracker.DetectGap(stream[i].symbol, stream[i].id);
    }
    assert stream[..|stream|] == stream;
    return tracker.marks, tracker.gapsDetected, tracker.tradesMissing;
  }

  // ---- Missing ids and absent ids ------------------------------------------------------------------

  /** The ids between the first and the highest that are not in `present`. */
  ghost function Holes(ids: seq<int>, present: set<int>): set<int>
    requires ids != []
  {
    set x: int | ids[0] <= x <= Top(ids) && x !in present
  }

  lemma {:induction false} HolesCounted(lo: int, hi: int, present: set<int>)
    requires lo <= hi + 1 && forall x :: x in present ==> lo <= x <= hi
    ensures |set x: int | lo <= x <= hi && x !in present| == hi - lo + 1 - |present|
    decreases hi - lo + 1
  {
    var holes := set x: int | lo <= x <= hi && x !in present;
    if lo > hi {
      assert forall x :: x !in present && x !in holes;
      assert present == {} && holes == {};
    } else {
      var rest := set x: int | lo <= x <= hi - 1 && x !in present - {hi};
      HolesCounted(lo, hi - 1, present - {hi});
      assert holes == if hi in present then rest else rest + {hi};
    }
  }

  /** What is counted as missing is exactly the ids in range that were never the highest on arrival. */
  lemma MissingAreHoles(ids: seq<int>)
    requires ids != []
    ensures Missing(ids) == |Holes(ids, Raised(ids))|
  {
    RaisedBounds(ids);
    HolesCounted(ids[0], Top(ids), Raised(ids));
  }

  ghost function IdSet(ids: seq<int>): set<int> {
    set x | x in ids
  }

  /** The count is the number of ids truly absent exactly when no id came late into a hole: a trade
      below the mark is ignored, also when it fills a hole already counted. */
  lemma MissingIsAbsent(ids: seq<int>)
    requires ids != []
    ensures Missing(ids) == |Holes(ids, IdSet(ids))|
            <==> forall x :: x in ids && x >= ids[0] ==> x in Raised(ids)
  {
    var counted, absent := Holes(ids, Raised(ids)), Holes(ids, IdSet(ids));
    MissingAreHoles(ids);
    RaisedBounds(ids);
    TopIsMaximum(ids);
    assert absent <= counted;
    assert counted == absent + (counted - absent);
    if forall x :: x in ids && x >= ids[0] ==> x in Raised(ids) {
      assert counted == absent;
    }
    if |counted| == |absent| {
      assert counted - absent == {};
      forall x | x in ids && x >= ids[0] ensures x in Raised(ids) {
        assert x !in absent && x !in counted - absent;
      }
    }
  }

  /** Ids 1, 3, 2: one trade is counted as missing although none is. */
  lemma LateIdStaysMissing(ids: seq<int>)
    requires ids == [1, 3, 2]
    ensures Missing(ids) == 1 && Holes(ids, IdSet(ids)) == {}
  {
    assert ids[..1] == [1] && ids[..2] == [1] + [3] && ids == [1, 3] + [2];
    OneId(1);
    MissingStep([1], 3);
    MissingStep([1, 3], 2);
    assert 1 in ids && 2 in ids && 3 in ids;
  }

  ghost predicate Increasing(ids: seq<int>) {
    forall i, j :: 0 <= i < j < |ids| ==> ids[i] < ids[j]
  }

  /** An increasing stream: the count is exactly the ids that never came. */
  lemma IncreasingMissing(ids: seq<int>)
    requires ids != [] && Increasing(ids)
    ensures Missing(ids) == |Holes(ids, IdSet(ids))|
  {
    AllRaise(ids);
    MissingIsAbsent(ids);
  }

  lemma {:induction false} AllRaise(ids: seq<int>)
    requires Increasing(ids)
    ensures forall x :: x in ids ==> x in Raised(ids)
    decreases |ids|
  {
    if ids != [] {
      var n := |ids| - 1;
      AllRaise(ids[..n]);
      assert ids == ids[..n] + [ids[n]];
      if n > 0 {
        TopIsMaximum(ids[..n]);
      }
    }
  }
}
