/** Retention rules: which DELETE and move-to-cold clauses a table gets, and which rows they reach.
    Clauses are data here; their SQL text and its quoting are not part of the model. */
module Retention {
  import opened Common

  /** One exchange and market type. */
  datatype Slice = Slice(exchange: string, market: string)

  /** A rule for one slice: for every table, or only for the one of `interval` seconds. */
  datatype Override = Override(slice: Slice, interval: Option<nat>, days: nat)

  datatype Config = Config(defaultDays: nat, moveToColdDays: Option<nat>, overrides: seq<Override>)

  /** `WHERE exchange = … AND market_type = …`, or `WHERE NOT (… OR …)`. */
  datatype Selector = Only(slice: Slice) | AllBut(slices: seq<Slice>)

  datatype Clause = Delete(days: nat, rows: Selector) | ToCold(days: nat, rows: Selector)

  predicate Selects(rows: Selector, s: Slice) {
    match rows
    case Only(slice) => s == slice
    case AllBut(slices) => s !in slices
  }

  // ---- What the configuration means ------------------------------------------------------------

  /** The first rule for `s` written for exactly this interval. */
  function First(ovs: seq<Override>, s: Slice, interval: Option<nat>): Option<Override>
    decreases |ovs|
  {
    if ovs == [] then None
    else
      var earlier, last := First(ovs[..|ovs| - 1], s, interval), ovs[|ovs| - 1];
      if earlier.Some? then earlier
      else if last.slice == s && last.interval == interval then Some(last)
      else None
  }

  /** A rule for this very table goes before one for all tables. */
  function Governing(ovs: seq<Override>, tf: nat, s: Slice): Option<Override> {
    if First(ovs, s, Some(tf)).Some? then First(ovs, s, Some(tf)) else First(ovs, s, None)
  }

  /** After how many days the rows of `s` are to go; 0 is never. */
  function DaysFor(cfg: Config, tf: nat, s: Slice): nat {
    match Governing(cfg.overrides, tf, s)
    case Some(ov) => ov.days
    case None => cfg.defaultDays
  }

  /** The ages at which clauses delete (or move) the rows of `s`, one per clause. */
  function Deletions(clauses: seq<Clause>, s: Slice): seq<nat>
    decreases |clauses|
  {
    if clauses == [] then []
    else
      var earlier, last := Deletions(clauses[..|clauses| - 1], s), clauses[|clauses| - 1];
      if last.Delete? && Selects(last.rows, s) then earlier + [last.days] else earlier
  }

  function Moves(clauses: seq<Clause>, s: Slice): seq<nat>
    decreases |clauses|
  {
    if clauses == [] then []
    else
      var earlier, last := Moves(clauses[..|clauses| - 1], s), clauses[|clauses| - 1];
      if last.ToCold? && Selects(last.rows, s) then earlier + [last.days] else earlier
  }

  function OneIfPositive(days: nat): seq<nat> {
    if days > 0 then [days] else []
  }

  /** When rows that no rule governs are moved, if they are. */
  function ColdDays(cfg: Config): nat {
    if cfg.moveToColdDays.Some? && cfg.moveToColdDays.value < cfg.defaultDays then cfg.moveToColdDays.value else 0
  }

  // ---- Compiling it ------------------------------------------------------------------------------

  ghost predicate IsEffective(eff: map<Slice, Override>, ovs: seq<Override>, tf: nat) {
    forall s: Slice :: (if s in eff then Some(eff[s]) else None) == Governing(ovs, tf, s)
  }

  lemma EffectiveStep(ovs: seq<Override>, tf: nat, i: nat, s: Slice)
    requires i < |ovs|
    ensures forall interval :: First(ovs[..i + 1], s, interval) ==
              if First(ovs[..i], s, interval).Some? then First(ovs[..i], s, interval)
              else if ovs[i].slice == s && ovs[i].interval == interval then Some(ovs[i]) else None
    ensures First(ovs[..i], s, Some(tf)).Some? ==> First(ovs[..i], s, Some(tf)).value.interval == Some(tf)
    ensures First(ovs[..i], s, None).Some? ==> First(ovs[..i], s, None).value.interval == None
  {
    assert ovs[..i + 1][..i] == ovs[..i];
    FirstInterval(ovs[..i], s, Some(tf));
    FirstInterval(ovs[..i], s, None);
  }

  lemma {:induction false} FirstInterval(ovs: seq<Override>, s: Slice, interval: Option<nat>)
    ensures First(ovs, s, interval).Some? ==>
              First(ovs, s, interval).value.interval == interval && First(ovs, s, interval).value.slice == s
              && First(ovs, s, interval).value in ovs
    decreases |ovs|
  {
    if ovs != [] {
      FirstInterval(ovs[..|ovs| - 1], s, interval);
    }
  }

  method Effective(ovs: seq<Override>, tf: nat) returns (eff: map<Slice, Override>)
    ensures IsEffective(eff, ovs, tf)
  {
    eff := map[];
    for i := 0 to |ovs|
      invariant IsEffective(eff, ovs[..i], tf)
    {
      var ov := ovs[i];
      forall s: Slice { EffectiveStep(ovs, tf, i, s); }
      if ov.interval.Some? && ov.interval.value != tf {
        continue;
      }
      if ov.slice !in eff {
        eff := eff[ov.slice := ov];
      } else if eff[ov.slice].interval.None? && ov.interval.Some? {
        eff := eff[ov.slice := ov];
      }
    }
    assert ovs[..|ovs|] == ovs;
  }

  lemma DeletionsSnoc(clauses: seq<Clause>, c: Clause, s: Slice)
    ensures Deletions(clauses + [c], s)
            == if c.Delete? && Selects(c.rows, s) then Deletions(clauses, s) + [c.days] else Deletions(clauses, s)
    ensures Moves(clauses + [c], s)
            == if c.ToCold? && Selects(c.rows, s) then Moves(clauses, s) + [c.days] else Moves(clauses, s)
  {
    assert (clauses + [c])[..|clauses|] == clauses;
  }

  /** The clauses of the overrides in `done`, in whatever order the map was walked. */
  ghost predicate CoversDone(clauses: seq<Clause>, eff: map<Slice, Override>, done: set<Slice>) {
    && OnlyOverrides(clauses, eff)
    && forall s: Slice :: CoveredAt(clauses, eff, done, s)
  }

  ghost predicate OnlyOverrides(clauses: seq<Clause>, eff: map<Slice, Override>) {
    forall i :: 0 <= i < |clauses| ==> clauses[i].Delete? && clauses[i].rows.Only? && clauses[i].rows.slice in eff
  }

  ghost predicate CoveredAt(clauses: seq<Clause>, eff: map<Slice, Override>, done: set<Slice>, s: Slice) {
    && Moves(clauses, s) == []
    && Deletions(clauses, s) == if s in done && s in eff then OneIfPositive(eff[s].days) else []
  }

  function OverrideClause(clauses: seq<Clause>, eff: map<Slice, Override>, s: Slice): seq<Clause>
    requires s in eff
  {
    if eff[s].days > 0 then clauses + [Delete(eff[s].days, Only(s))] else clauses
  }

  lemma CoverOneMore(clauses: seq<Clause>, eff: map<Slice, Override>, done: set<Slice>, s: Slice)
    requires CoversDone(clauses, eff, done) && s in eff && s !in done
    ensures CoversDone(OverrideClause(clauses, eff, s), eff, done + {s})
  {
    forall t: Slice ensures CoveredAt(OverrideClause(clauses, eff, s), eff, done + {s}, t) {
      assert CoveredAt(clauses, eff, done, t);
      DeletionsSnoc(clauses, Delete(eff[s].days, Only(s)), t);
    }
  }

  method OverrideClauses(eff: map<Slice, Override>) returns (clauses: seq<Clause>, excluded: seq<Slice>)
    ensures CoversDone(clauses, eff, eff.Keys)
    ensures forall s :: s in excluded <==> s in eff
  {
    clauses, excluded := [], [];
    var left := eff.Keys;
    while |left| > 0
      invariant left <= eff.Keys
      invariant forall s :: s in excluded <==> s in eff && s !in left
      invariant CoversDone(clauses, eff, eff.Keys - left)
      decreases |left|
    {
      var s: Slice :| s in left;
      CoverOneMore(clauses, eff, eff.Keys - left, s);
      assert (eff.Keys - left) + {s} == eff.Keys - (left - {s});
      excluded := excluded + [s];
      if eff[s].days > 0 {
        clauses := clauses + [Delete(eff[s].days, Only(s))];
      }
      left := left - {s};
    }
    assert eff.Keys - left == eff.Keys;
  }

  function Defaulted(cfg: Config, clauses: seq<Clause>, rest: Selector): seq<Clause> {
    if cfg.defaultDays == 0 then clauses
    else if ColdDays(cfg) == 0 then clauses + [Delete(cfg.defaultDays, rest)]
    else (clauses + [ToCold(ColdDays(cfg), rest)]) + [Delete(cfg.defaultDays, rest)]
  }

  lemma DefaultedAt(cfg: Config, clauses: seq<Clause>, rest: Selector, s: Slice)
    ensures Deletions(Defaulted(cfg, clauses, rest), s)
            == if Selects(rest, s) then Deletions(clauses, s) + OneIfPositive(cfg.defaultDays)
               else Deletions(clauses, s)
    ensures Moves(Defaulted(cfg, clauses, rest), s)
            == if Selects(rest, s) then Moves(clauses, s) + OneIfPositive(ColdDays(cfg)) else Moves(clauses, s)
  {
    var cold, delete := ToCold(ColdDays(cfg), rest), Delete(cfg.defaultDays, rest);
    DeletionsSnoc(clauses, delete, s);
    DeletionsSnoc(clauses, cold, s);
    DeletionsSnoc(clauses + [cold], delete, s);
  }

  ghost predicate DeletesAsGoverned(cfg: Config, tf: nat, clauses: seq<Clause>) {
    forall s: Slice :: Deletions(clauses, s) == OneIfPositive(DaysFor(cfg, tf, s))
  }

  ghost predicate MovesTheUngoverned(cfg: Config, tf: nat, clauses: seq<Clause>) {
    forall s: Slice :: Moves(clauses, s)
                       == if Governing(cfg.overrides, tf, s).Some? then [] else OneIfPositive(ColdDays(cfg))
  }

  ghost predicate MovesBeforeDeletes(clauses: seq<Clause>) {
    forall i, j, s: Slice ::
      && 0 <= i < |clauses| && 0 <= j < |clauses|
      && clauses[i].ToCold? && clauses[j].Delete? && Selects(clauses[i].rows, s) && Selects(clauses[j].rows, s)
      ==> i < j
  }

  lemma RightAt(cfg: Config, tf: nat, eff: map<Slice, Override>, clauses: seq<Clause>, excluded: seq<Slice>, s: Slice)
    requires IsEffective(eff, cfg.overrides, tf) && CoversDone(clauses, eff, eff.Keys)
    requires forall s :: s in excluded <==> s in eff
    ensures var all := Defaulted(cfg, clauses, AllBut(excluded));
            && Deletions(all, s) == OneIfPositive(DaysFor(cfg, tf, s))
            && Moves(all, s) == if Governing(cfg.overrides, tf, s).Some? then [] else OneIfPositive(ColdDays(cfg))
  {
    assert CoveredAt(clauses, eff, eff.Keys, s);
    assert (if s in eff then Some(eff[s]) else None) == Governing(cfg.overrides, tf, s);
    DefaultedAt(cfg, clauses, AllBut(excluded), s);
  }

  lemma DefaultsComeLast(cfg: Config, eff: map<Slice, Override>, clauses: seq<Clause>, rest: Selector)
    requires OnlyOverrides(clauses, eff) && rest.AllBut? && forall s :: s in rest.slices <==> s in eff
    ensures MovesBeforeDeletes(Defaulted(cfg, clauses, rest))
  {
  }

  lemma ClausesAreRight(cfg: Config, tf: nat, eff: map<Slice, Override>, clauses: seq<Clause>, excluded: seq<Slice>)
    requires IsEffective(eff, cfg.overrides, tf) && CoversDone(clauses, eff, eff.Keys)
    requires forall s :: s in excluded <==> s in eff
    ensures var all := Defaulted(cfg, clauses, AllBut(excluded));
            DeletesAsGoverned(cfg, tf, all) && MovesTheUngoverned(cfg, tf, all) && MovesBeforeDeletes(all)
  {
    hide Defaulted, IsEffective, CoversDone;
    forall s: Slice
      ensures var all := Defaulted(cfg, clauses, AllBut(excluded));
              && Deletions(all, s) == OneIfPositive(DaysFor(cfg, tf, s))
              && Moves(all, s) == if Governing(cfg.overrides, tf, s).Some? then [] else OneIfPositive(ColdDays(cfg))
    {
      RightAt(cfg, tf, eff, clauses, excluded, s);
    }
    OverridesOnly(clauses, eff);
    DefaultsComeLast(cfg, eff, clauses, AllBut(excluded));
  }

  lemma OverridesOnly(clauses: seq<Clause>, eff: map<Slice, Override>)
    requires CoversDone(clauses, eff, eff.Keys)
    ensures OnlyOverrides(clauses, eff)
  {
  }

  lemma NoneMeansNothingExpires(cfg: Config, tf: nat, eff: map<Slice, Override>, clauses: seq<Clause>, all: seq<Clause>,
                                rest: Selector)
    requires OnlyOverrides(clauses, eff) && all == Defaulted(cfg, clauses, rest) && DeletesAsGoverned(cfg, tf, all)
    ensures all == [] <==> forall s: Slice :: DaysFor(cfg, tf, s) == 0
  {
    if all == [] {
      forall s: Slice ensures DaysFor(cfg, tf, s) == 0 {
        assert Deletions(all, s) == OneIfPositive(DaysFor(cfg, tf, s));
      }
    } else if cfg.defaultDays > 0 {
      var s := Ungoverned(cfg.overrides, tf);
      assert DaysFor(cfg, tf, s) == cfg.defaultDays;
    } else {
      var s := all[|all| - 1].rows.slice;
      assert Deletions(all, s) == OneIfPositive(DaysFor(cfg, tf, s));
    }
  }

  // ---- In terms of the list of rules ---------------------------------------------------------------

  /** Rule `i` is the first one for this slice and exactly this table, or exactly for all tables. */
  ghost predicate FirstAt(ovs: seq<Override>, s: Slice, interval: Option<nat>, i: nat) {
    && i < |ovs| && ovs[i].slice == s && ovs[i].interval == interval
    && forall j :: 0 <= j < i ==> ovs[j].slice != s || ovs[j].interval != interval
  }

  ghost predicate HasRule(ovs: seq<Override>, s: Slice, interval: Option<nat>) {
    exists i: nat :: FirstAt(ovs, s, interval, i)
  }

  /** The table's own rule decides; without one, the rule for all tables; without either, the defaults, which
      alone may move rows to cold storage, and only before they are deleted. */
  ghost predicate FollowsRules(cfg: Config, tf: nat, clauses: seq<Clause>) {
    && (forall s: Slice, i: nat :: FirstAt(cfg.overrides, s, Some(tf), i) ==>
          FollowsRule(cfg.overrides[i], clauses, s))
    && (forall s: Slice, i: nat :: FirstAt(cfg.overrides, s, None, i) && !HasRule(cfg.overrides, s, Some(tf)) ==>
          FollowsRule(cfg.overrides[i], clauses, s))
    && (forall s: Slice :: !HasRule(cfg.overrides, s, Some(tf)) && !HasRule(cfg.overrides, s, None) ==>
          FollowsDefaults(cfg, clauses, s))
  }

  predicate FollowsRule(ov: Override, clauses: seq<Clause>, s: Slice) {
    Deletions(clauses, s) == (if ov.days > 0 then [ov.days] else []) && Moves(clauses, s) == []
  }

  predicate FollowsDefaults(cfg: Config, clauses: seq<Clause>, s: Slice) {
    && Deletions(clauses, s) == (if cfg.defaultDays > 0 then [cfg.defaultDays] else [])
    && Moves(clauses, s)
       == match cfg.moveToColdDays
          case None => []
          case Some(days) => if 0 < days < cfg.defaultDays then [days] else []
  }

  lemma {:induction false} FirstIs(ovs: seq<Override>, s: Slice, interval: Option<nat>) returns (i: nat)
    ensures First(ovs, s, interval).Some? ==>
              FirstAt(ovs, s, interval, i) && First(ovs, s, interval) == Some(ovs[i])
    ensures First(ovs, s, interval).None? ==>
              forall j :: 0 <= j < |ovs| ==> ovs[j].slice != s || ovs[j].interval != interval
    decreases |ovs|
  {
    if ovs == [] {
      i := 0;
    } else {
      var n := |ovs| - 1;
      i := FirstIs(ovs[..n], s, interval);
      if First(ovs[..n], s, interval).None? {
        i := n;
      }
    }
  }

  lemma OneFirst(ovs: seq<Override>, s: Slice, interval: Option<nat>, i: nat, j: nat)
    requires FirstAt(ovs, s, interval, i) && FirstAt(ovs, s, interval, j)
    ensures i == j
  {
  }

  lemma FirstByPlace(ovs: seq<Override>, s: Slice, interval: Option<nat>)
    ensures forall i: nat :: FirstAt(ovs, s, interval, i) ==> First(ovs, s, interval) == Some(ovs[i])
    ensures First(ovs, s, interval).None? <==> !HasRule(ovs, s, interval)
  {
    var first := FirstIs(ovs, s, interval);
    forall i: nat | FirstAt(ovs, s, interval, i)
      ensures First(ovs, s, interval) == Some(ovs[i])
    {
      if First(ovs, s, interval).Some? {
        OneFirst(ovs, s, interval, i, first);
      }
    }
  }

  lemma GovernedByList(cfg: Config, tf: nat, clauses: seq<Clause>)
    requires DeletesAsGoverned(cfg, tf, clauses) && MovesTheUngoverned(cfg, tf, clauses)
    ensures FollowsRules(cfg, tf, clauses)
  {
    forall s: Slice
      ensures Deletions(clauses, s) == OneIfPositive(DaysFor(cfg, tf, s))
      ensures forall i: nat :: FirstAt(cfg.overrides, s, Some(tf), i) ==>
                First(cfg.overrides, s, Some(tf)) == Some(cfg.overrides[i])
      ensures forall i: nat :: FirstAt(cfg.overrides, s, None, i) ==>
                First(cfg.overrides, s, None) == Some(cfg.overrides[i])
      ensures First(cfg.overrides, s, Some(tf)).None? <==> !HasRule(cfg.overrides, s, Some(tf))
      ensures First(cfg.overrides, s, None).None? <==> !HasRule(cfg.overrides, s, None)
    {
      FirstByPlace(cfg.overrides, s, Some(tf));
      FirstByPlace(cfg.overrides, s, None);
    }
  }

  /** Once validated, every rule for this very table decides for its slice, and every rule for all tables does
      where there is none for this one. */
  lemma EveryRuleCounts(cfg: Config, upper: string -> string, lower: string -> string, tf: nat,
                        clauses: seq<Clause>, ov: Override)
    requires Valid(cfg.overrides, upper, lower) && FollowsRules(cfg, tf, clauses) && ov in cfg.overrides
    requires ov.interval == Some(tf)
             || (ov.interval == None && forall other :: other in cfg.overrides ==>
                   other.slice != ov.slice || other.interval != Some(tf))
    ensures FollowsRule(ov, clauses, ov.slice)
  {
    ByKey(cfg.overrides, upper, lower, ov);
    var i := FirstIs(cfg.overrides, ov.slice, ov.interval);
  }

  /** Whatever the configuration: each slice has at most one DELETE, at the age its governing rule (or the
      default) says, and none if that is 0; only ungoverned slices are moved, and before they are deleted;
      and there is no TTL at all exactly when no slice may expire. */
  method TtlClauseFor(cfg: Config, tf: nat) returns (r: Option<seq<Clause>>)
    ensures DeletesAsGoverned(cfg, tf, r.GetOr([]))
    ensures MovesTheUngoverned(cfg, tf, r.GetOr([]))
    ensures FollowsRules(cfg, tf, r.GetOr([]))
    ensures MovesBeforeDeletes(r.GetOr([]))
    ensures r.None? <==> forall s: Slice :: DaysFor(cfg, tf, s) == 0
    ensures r != Some([])
  {
    var eff := Effective(cfg.overrides, tf);
    var clauses, excluded := OverrideClauses(eff);
    var rest := AllBut(excluded);
    ghost var overrides := clauses;
    if cfg.defaultDays > 0 {
      if cfg.moveToColdDays.Some? {
        var cold := cfg.moveToColdDays.value;
        if cold > 0 && cold < cfg.defaultDays {
          clauses := clauses + [ToCold(cold, rest)];
        }
      }
      clauses := clauses + [Delete(cfg.defaultDays, rest)];
    }
    assert clauses == Defaulted(cfg, overrides, rest);
    ClausesAreRight(cfg, tf, eff, overrides, excluded);
    NoneMeansNothingExpires(cfg, tf, eff, overrides, clauses, rest);
    GovernedByList(cfg, tf, clauses);
    if |clauses| == 0 {
      return None;
    }
    return Some(clauses);
  }

  /** No finite list of rules governs every slice: here is one with a longer exchange name. */
  lemma Ungoverned(ovs: seq<Override>, tf: nat) returns (s: Slice)
    ensures Governing(ovs, tf, s).None?
  {
    s := Slice(LongName(ovs), "spot");
    LongNameIsNew(ovs);
    FirstInterval(ovs, s, Some(tf));
    FirstInterval(ovs, s, None);
  }

  ghost function LongName(ovs: seq<Override>): string {
    if ovs == [] then "" else LongName(ovs[1..]) + ovs[0].slice.exchange + "X"
  }

  lemma {:induction false} LongNameIsNew(ovs: seq<Override>)
    ensures forall ov :: ov in ovs ==> |ov.slice.exchange| < |LongName(ovs)|
  {
    if ovs != [] {
      LongNameIsNew(ovs[1..]);
    }
  }

  // ---- Which rows go, and when ---------------------------------------------------------------------

  /** Some clause deletes the rows of `s` once they are `age` days old. */
  ghost predicate Deleted(clauses: seq<Clause>, s: Slice, age: nat) {
    exists i :: 0 <= i < |clauses| && DeletesAt(clauses[i], s, age)
  }

  predicate DeletesAt(c: Clause, s: Slice, age: nat) {
    c.Delete? && Selects(c.rows, s) && age >= c.days
  }

  lemma DeletedSnoc(clauses: seq<Clause>, c: Clause, s: Slice, age: nat)
    ensures Deleted(clauses + [c], s, age) <==> Deleted(clauses, s, age) || DeletesAt(c, s, age)
  {
    var all := clauses + [c];
    if Deleted(clauses, s, age) {
      var i :| 0 <= i < |clauses| && DeletesAt(clauses[i], s, age);
      assert DeletesAt(all[i], s, age);
    } else if DeletesAt(c, s, age) {
      assert DeletesAt(all[|clauses|], s, age);
    }
  }

  ghost predicate AnyReached(days: seq<nat>, age: nat) {
    exists k :: 0 <= k < |days| && age >= days[k]
  }

  lemma AnyReachedSnoc(days: seq<nat>, d: nat, age: nat)
    ensures AnyReached(days + [d], age) <==> AnyReached(days, age) || age >= d
  {
    if AnyReached(days, age) {
      var k :| 0 <= k < |days| && age >= days[k];
      assert age >= (days + [d])[k];
    } else if age >= d {
      assert age >= (days + [d])[|days|];
    }
  }

  lemma {:induction false} DeletionsMembers(clauses: seq<Clause>, s: Slice, age: nat)
    ensures Deleted(clauses, s, age) <==> AnyReached(Deletions(clauses, s), age)
    decreases |clauses|
  {
    if clauses != [] {
      var init, last := clauses[..|clauses| - 1], clauses[|clauses| - 1];
      DeletionsMembers(init, s, age);
      assert clauses == init + [last];
      DeletedSnoc(init, last, s, age);
      AnyReachedSnoc(Deletions(init, s), last.days, age);
    }
  }

  /** A row goes exactly when its slice has a positive retention and the row has reached it. */
  lemma ExpiryMeaning(cfg: Config, tf: nat, clauses: seq<Clause>, s: Slice, age: nat)
    requires DeletesAsGoverned(cfg, tf, clauses)
    ensures Deleted(clauses, s, age) <==> 0 < DaysFor(cfg, tf, s) <= age
  {
    DeletionsMembers(clauses, s, age);
    assert Deletions(clauses, s) == OneIfPositive(DaysFor(cfg, tf, s));
    if 0 < DaysFor(cfg, tf, s) {
      assert Deletions(clauses, s)[0] == DaysFor(cfg, tf, s);
    }
  }

  /** Where a rule decides, a row goes exactly when the rule's positive number of days has passed. */
  lemma RuleExpires(clauses: seq<Clause>, ov: Override, s: Slice, age: nat)
    requires FollowsRule(ov, clauses, s)
    ensures Deleted(clauses, s, age) <==> 0 < ov.days <= age
  {
    DeletionsMembers(clauses, s, age);
    if ov.days > 0 {
      assert Deletions(clauses, s)[0] == ov.days;
    }
  }

  // ---- Validation ------------------------------------------------------------------------------------

  datatype Problem = Duplicate | ExchangeCase | MarketCase | UnknownMarket

  predicate SameKey(a: Override, b: Override) {
    a.slice == b.slice && a.interval == b.interval
  }

  /** What is wrong with rule `i`.  `upper` and `lower` are the case conversions of the string library. */
  ghost function ProblemAt(ovs: seq<Override>, upper: string -> string, lower: string -> string,
                           i: nat): Option<Problem>
    requires i < |ovs|
  {
    if exists j :: 0 <= j < i && SameKey(ovs[j], ovs[i]) then Some(Duplicate)
    else if ovs[i].slice.exchange != upper(ovs[i].slice.exchange) then Some(ExchangeCase)
    else if ovs[i].slice.market != lower(ovs[i].slice.market) then Some(MarketCase)
    else if ovs[i].slice.market != "spot" && ovs[i].slice.market != "perp" then Some(UnknownMarket)
    else None
  }

  ghost predicate Valid(ovs: seq<Override>, upper: string -> string, lower: string -> string) {
    forall i :: 0 <= i < |ovs| ==> ProblemAt(ovs, upper, lower, i).None?
  }

  /** Valid are exactly the lists without two rules for the same slice and table, with exchanges in upper case and
      the two markets in lower case. */
  lemma ValidMeaning(ovs: seq<Override>, upper: string -> string, lower: string -> string)
    ensures Valid(ovs, upper, lower)
            <==> (forall i, j :: 0 <= j < i < |ovs| ==>
                    ovs[j].slice != ovs[i].slice || ovs[j].interval != ovs[i].interval)
                 && (forall i :: 0 <= i < |ovs| ==>
                       && upper(ovs[i].slice.exchange) == ovs[i].slice.exchange
                       && lower(ovs[i].slice.market) == ovs[i].slice.market
                       && (ovs[i].slice.market == "spot" || ovs[i].slice.market == "perp"))
  {
    if Valid(ovs, upper, lower) {
      forall i | 0 <= i < |ovs|
        ensures forall j :: 0 <= j < i ==> !SameKey(ovs[j], ovs[i])
        ensures upper(ovs[i].slice.exchange) == ovs[i].slice.exchange
        ensures lower(ovs[i].slice.market) == ovs[i].slice.market
        ensures ovs[i].slice.market == "spot" || ovs[i].slice.market == "perp"
      {
        assert ProblemAt(ovs, upper, lower, i).None?;
      }
    }
  }

  /** Reports the first problem of the first rule that has one. */
  method Validate(cfg: Config, upper: string -> string, lower: string -> string) returns (bad: Option<(nat, Problem)>)
    ensures bad.None? ==> Valid(cfg.overrides, upper, lower)
    ensures bad.Some? ==>
              && bad.value.0 < |cfg.overrides|
              && ProblemAt(cfg.overrides, upper, lower, bad.value.0) == Some(bad.value.1)
              && forall i :: 0 <= i < bad.value.0 ==> ProblemAt(cfg.overrides, upper, lower, i).None?
  {
    var ovs := cfg.overrides;
    var seen: set<(Slice, Option<nat>)> := {};
    for i := 0 to |ovs|
      invariant forall key :: key in seen <==> exists j :: 0 <= j < i && (ovs[j].slice, ovs[j].interval) == key
      invariant forall j :: 0 <= j < i ==> ProblemAt(ovs, upper, lower, j).None?
    {
      var ov := ovs[i];
      var key := (ov.slice, ov.interval);
      assert key in seen <==> exists j :: 0 <= j < i && SameKey(ovs[j], ov);
      if key in seen {
        return Some((i, Duplicate));
      }
      seen := seen + {key};
      if ov.slice.exchange != upper(ov.slice.exchange) {
        return Some((i, ExchangeCase));
      }
      if ov.slice.market != lower(ov.slice.market) {
        return Some((i, MarketCase));
      }
      if ov.slice.market != "spot" && ov.slice.market != "perp" {
        return Some((i, UnknownMarket));
      }
    }
    return None;
  }

  lemma {:induction false} FirstFinds(ovs: seq<Override>, ov: Override)
    requires ov in ovs
    ensures First(ovs, ov.slice, ov.interval).Some?
    decreases |ovs|
  {
    var n := |ovs| - 1;
    if ov in ovs[..n] {
      FirstFinds(ovs[..n], ov);
    } else {
      assert ovs == ovs[..n] + [ovs[n]];
      assert ovs[n] == ov;
    }
  }

  /** Once validated, a rule is found by its key alone, wherever it stands in the list. */
  lemma ByKey(ovs: seq<Override>, upper: string -> string, lower: string -> string, ov: Override)
    requires Valid(ovs, upper, lower) && ov in ovs
    ensures First(ovs, ov.slice, ov.interval) == Some(ov)
  {
    FirstFinds(ovs, ov);
    FirstInterval(ovs, ov.slice, ov.interval);
    var found := First(ovs, ov.slice, ov.interval).value;
    var i :| 0 <= i < |ovs| && ovs[i] == ov;
    var j :| 0 <= j < |ovs| && ovs[j] == found;
    assert SameKey(ovs[i], ovs[j]) && SameKey(ovs[j], ovs[i]);
    assert ProblemAt(ovs, upper, lower, i).None? && ProblemAt(ovs, upper, lower, j).None?;
  }

  lemma SameFirst(ovs: seq<Override>, ovs': seq<Override>, upper: string -> string, lower: string -> string, s: Slice,
                  interval: Option<nat>)
    requires Valid(ovs, upper, lower) && Valid(ovs', upper, lower)
    requires forall ov :: ov in ovs <==> ov in ovs'
    ensures First(ovs, s, interval) == First(ovs', s, interval)
  {
    FirstInterval(ovs, s, interval);
    FirstInterval(ovs', s, interval);
    if First(ovs, s, interval).Some? {
      ByKey(ovs', upper, lower, First(ovs, s, interval).value);
    } else if First(ovs', s, interval).Some? {
      ByKey(ovs, upper, lower, First(ovs', s, interval).value);
    }
  }

  lemma SameMembers(a: seq<Override>, b: seq<Override>)
    requires multiset(a) == multiset(b)
    ensures forall ov :: ov in a <==> ov in b
  {
    forall ov ensures ov in a <==> ov in b {
      assert ov in a <==> ov in multiset(a);
      assert ov in b <==> ov in multiset(b);
    }
  }

  /** A value at two places of a list is in it at least twice, and the other way around. */
  lemma TwicePresent(s: seq<Override>, i: nat, j: nat)
    requires i < j < |s| && s[i] == s[j]
    ensures multiset(s)[s[i]] >= 2
  {
    assert s == s[..j] + [s[j]] + s[j + 1..];
    assert s[i] in s[..j];
  }

  lemma {:induction false} TwoPlaces(s: seq<Override>, ov: Override) returns (i: nat, j: nat)
    requires multiset(s)[ov] >= 2
    ensures i < j < |s| && s[i] == s[j] == ov
    decreases |s|
  {
    var n := |s| - 1;
    assert s == s[..n] + [s[n]];
    if s[n] == ov {
      assert ov in multiset(s[..n]);
      i :| 0 <= i < n && s[..n][i] == ov;
      j := n;
    } else {
      i, j := TwoPlaces(s[..n], ov);
    }
  }

  /** Validity does not depend on the order of the rules either. */
  lemma ValidInAnyOrder(ovs: seq<Override>, ovs': seq<Override>, upper: string -> string, lower: string -> string)
    requires Valid(ovs, upper, lower) && multiset(ovs) == multiset(ovs')
    ensures Valid(ovs', upper, lower)
  {
    SameMembers(ovs, ovs');
    forall i | 0 <= i < |ovs'|
      ensures ProblemAt(ovs', upper, lower, i).None?
    {
      assert ovs'[i] in ovs;
      var k :| 0 <= k < |ovs| && ovs[k] == ovs'[i];
      assert ProblemAt(ovs, upper, lower, k).None?;
      if j :| 0 <= j < i && SameKey(ovs'[j], ovs'[i]) {
        DuplicateStays(ovs, ovs', upper, lower, j, i);
      }
    }
  }

  lemma DuplicateStays(ovs: seq<Override>, ovs': seq<Override>, upper: string -> string, lower: string -> string,
                       j: nat, i: nat)
    requires multiset(ovs) == multiset(ovs') && j < i < |ovs'| && SameKey(ovs'[j], ovs'[i])
    ensures !Valid(ovs, upper, lower)
  {
    SameMembers(ovs, ovs');
    assert ovs'[i] in ovs && ovs'[j] in ovs;
    var m, n: nat;
    if ovs'[i] == ovs'[j] {
      TwicePresent(ovs', j, i);
      m, n := TwoPlaces(ovs, ovs'[i]);
    } else {
      m :| 0 <= m < |ovs| && ovs[m] == ovs'[i];
      n :| 0 <= n < |ovs| && ovs[n] == ovs'[j];
    }
    var later, earlier := if m < n then n else m, if m < n then m else n;
    assert SameKey(ovs[earlier], ovs[later]);
    assert ProblemAt(ovs, upper, lower, later).Some?;
  }

  /** Reordering the rules of a valid configuration changes nothing: not which rule governs a slice, not its
      retention, and not what may be compiled from them. */
  lemma RuleOrderIrrelevant(cfg: Config, cfg': Config, upper: string -> string, lower: string -> string, tf: nat)
    requires Valid(cfg.overrides, upper, lower) && multiset(cfg.overrides) == multiset(cfg'.overrides)
    requires cfg.defaultDays == cfg'.defaultDays && cfg.moveToColdDays == cfg'.moveToColdDays
    ensures Valid(cfg'.overrides, upper, lower)
    ensures forall s: Slice :: Governing(cfg.overrides, tf, s) == Governing(cfg'.overrides, tf, s)
    ensures forall s: Slice :: DaysFor(cfg, tf, s) == DaysFor(cfg', tf, s)
    ensures forall clauses :: DeletesAsGoverned(cfg, tf, clauses) && MovesTheUngoverned(cfg, tf, clauses)
                              <==> DeletesAsGoverned(cfg', tf, clauses) && MovesTheUngoverned(cfg', tf, clauses)
  {
    SameMembers(cfg.overrides, cfg'.overrides);
    ValidInAnyOrder(cfg.overrides, cfg'.overrides, upper, lower);
    forall s: Slice
      ensures Governing(cfg.overrides, tf, s) == Governing(cfg'.overrides, tf, s)
    {
      SameFirst(cfg.overrides, cfg'.overrides, upper, lower, s, Some(tf));
      SameFirst(cfg.overrides, cfg'.overrides, upper, lower, s, None);
    }
  }
}
