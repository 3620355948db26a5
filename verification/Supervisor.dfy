/** Symbol discovery: which symbols a supervisor serves after each cycle, through which channels, and
    when the session's routes are published.  What the exchange lists and how the filtered symbols are
    ranked are inputs of each cycle. */
module Supervisor {
  import opened Common

  datatype Quote = Usdt | Usdc

  datatype Key = Key(exchange: string, market: string, symbol: string)

  datatype Spec = Spec(key: Key, quote: Quote, priceScale: nat, qtyScale: nat, tickSize: int, stepSize: int)

  datatype Config = Config(
    exchange: string,
    market: string,
    allow: seq<string>,
    deny: seq<string>,
    includeQuotes: seq<string>,
    topN: Option<nat>
  )

  /** The channel stands for the tasks spawned with it. */
  datatype Handle = Handle(spec: Spec, channel: nat)

  /** One discovery cycle: the listing could not be fetched, or it was, and the symbols that pass the
      filter were put into some order. */
  datatype Cycle = Failed | Fetched(specs: seq<Spec>, ranked: seq<Spec>)

  // ---- The filter ----------------------------------------------------------------------------------

  predicate Included(quotes: seq<string>, q: Quote) {
    match q
    case Usdt => "USDT" in quotes
    case Usdc => "USDC" in quotes
  }

  predicate Passes(cfg: Config, s: Spec) {
    && s.key.exchange == cfg.exchange && s.key.market == cfg.market
    && Included(cfg.includeQuotes, s.quote)
    && s.key.symbol !in cfg.deny
    && (cfg.allow != [] ==> s.key.symbol in cfg.allow)
  }

  function FilterSymbols(cfg: Config, specs: seq<Spec>): seq<Spec> {
    if specs == [] then []
    else if Passes(cfg, specs[0]) then [specs[0]] + FilterSymbols(cfg, specs[1..])
    else FilterSymbols(cfg, specs[1..])
  }

  /** Ranking permutes the filtered symbols. */
  ghost predicate Possible(cfg: Config, c: Cycle) {
    c.Fetched? ==> multiset(c.ranked) == multiset(FilterSymbols(cfg, c.specs))
  }

  function Wanted(cfg: Config, c: Cycle): seq<Spec>
    requires c.Fetched?
  {
    if cfg.topN.Some? && cfg.topN.value < |c.ranked| then c.ranked[..cfg.topN.value] else c.ranked
  }

  /** Each symbol with the first spec listed for it. */
  function FirstSpecs(specs: seq<Spec>): map<Key, Spec>
    decreases |specs|
  {
    if specs == [] then map[]
    else
      var earlier, last := FirstSpecs(specs[..|specs| - 1]), specs[|specs| - 1];
      if last.key in earlier then earlier else earlier[last.key := last]
  }

  function KeysOf(specs: seq<Spec>): set<Key> {
    FirstSpecs(specs).Keys
  }

  /** The spec at `i` is the first one listed for its symbol. */
  ghost predicate FirstListed(specs: seq<Spec>, i: nat) {
    i < |specs| && forall j :: 0 <= j < i ==> specs[j].key != specs[i].key
  }

  lemma {:induction false} FirstSpecsAre(specs: seq<Spec>, i: nat)
    requires i < |specs|
    ensures specs[i].key in FirstSpecs(specs)
    ensures FirstListed(specs, i) ==> FirstSpecs(specs)[specs[i].key] == specs[i]
    decreases |specs|
  {
    var n := |specs| - 1;
    if i < n {
      FirstSpecsAre(specs[..n], i);
    } else if specs[n].key in FirstSpecs(specs[..n]) {
      var j := FirstSpecsListed(specs[..n], specs[n].key);
      assert specs[j].key == specs[i].key;
    }
  }

  lemma {:induction false} FirstSpecsListed(specs: seq<Spec>, k: Key) returns (i: nat)
    requires k in FirstSpecs(specs)
    ensures FirstListed(specs, i) && specs[i].key == k && FirstSpecs(specs)[k] == specs[i]
    decreases |specs|
  {
    var n := |specs| - 1;
    if k in FirstSpecs(specs[..n]) {
      i := FirstSpecsListed(specs[..n], k);
    } else {
      i := n;
      forall j: nat | j < n ensures specs[j].key != k {
        FirstSpecsAre(specs[..n], j);
      }
    }
  }

  /** Only listed symbols of this venue that the configuration admits are wanted: the first `topN` of the
      ranking, or all. */
  lemma WantedAreAdmitted(cfg: Config, c: Cycle)
    requires c.Fetched? && Possible(cfg, c)
    ensures forall s :: s in Wanted(cfg, c) ==> s in c.specs && Passes(cfg, s)
    ensures Wanted(cfg, c) <= c.ranked
    ensures |Wanted(cfg, c)| == if cfg.topN.Some? then Min(cfg.topN.value, |c.ranked|) else |c.ranked|
    ensures cfg.topN.None? ==> forall s :: s in c.specs && Passes(cfg, s) ==> s in Wanted(cfg, c)
  {
    forall s ensures s in c.ranked <==> s in c.specs && Passes(cfg, s) {
      FilterKeeps(cfg, c.specs, s);
      assert s in c.ranked <==> s in multiset(c.ranked);
    }
  }

  lemma {:induction false} FilterKeeps(cfg: Config, specs: seq<Spec>, s: Spec)
    ensures s in multiset(FilterSymbols(cfg, specs)) <==> s in FilterSymbols(cfg, specs)
    ensures s in FilterSymbols(cfg, specs) <==> s in specs && Passes(cfg, s)
  {
    if specs != [] {
      FilterKeeps(cfg, specs[1..], s);
      assert specs == [specs[0]] + specs[1..];
    }
  }

  // ---- A cycle as a function -------------------------------------------------------------------------

  /** The live handles, and the next unused channel. */
  datatype Serving = Serving(handles: map<Key, Handle>, next: nat)

  /** A listed symbol without a handle gets one, on a channel of its own. */
  function Extended(s: Serving, wanted: seq<Spec>): Serving
    decreases |wanted|
  {
    if wanted == [] then s
    else
      var earlier, spec := Extended(s, wanted[..|wanted| - 1]), wanted[|wanted| - 1];
      if spec.key in earlier.handles then earlier
      else Serving(earlier.handles[spec.key := Handle(spec, earlier.next)], earlier.next + 1)
  }

  function Gone(s: Serving, wanted: seq<Spec>): set<Key> {
    s.handles.Keys - KeysOf(wanted)
  }

  function Reconciled(cfg: Config, s: Serving, c: Cycle): Serving {
    if c.Failed? then s
    else
      var wanted := Wanted(cfg, c);
      Extended(Serving(s.handles - Gone(s, wanted), s.next), wanted)
  }

  function After(cfg: Config, cycles: seq<Cycle>): Serving
    decreases |cycles|
  {
    if cycles == [] then Serving(map[], 0)
    else Reconciled(cfg, After(cfg, cycles[..|cycles| - 1]), cycles[|cycles| - 1])
  }

  /** How often the set of symbols has changed. */
  ghost function Changes(cfg: Config, cycles: seq<Cycle>): nat
    decreases |cycles|
  {
    if cycles == [] then 0
    else
      var before := cycles[..|cycles| - 1];
      Changes(cfg, before) + if After(cfg, cycles).handles.Keys != After(cfg, before).handles.Keys then 1 else 0
  }

  lemma OneMore(cfg: Config, cycles: seq<Cycle>, c: Cycle)
    ensures After(cfg, cycles + [c]) == Reconciled(cfg, After(cfg, cycles), c)
    ensures Changes(cfg, cycles + [c])
            == Changes(cfg, cycles)
               + if After(cfg, cycles + [c]).handles.Keys != After(cfg, cycles).handles.Keys then 1 else 0
  {
    assert (cycles + [c])[..|cycles|] == cycles;
  }

  /** The cycle's result, and that counting removals and additions tells whether the symbols changed. */
  lemma OneMoreSucceeded(cfg: Config, cycles: seq<Cycle>, c: Cycle, s: Serving, e: Serving, gone: set<Key>, added: int)
    requires c.Fetched? && s == After(cfg, cycles) && gone == Gone(s, Wanted(cfg, c)) && added == e.next - s.next
    requires e == Extended(Serving(s.handles - gone, s.next), Wanted(cfg, c))
    ensures After(cfg, cycles + [c]) == e
    ensures Changes(cfg, cycles + [c]) == Changes(cfg, cycles) + if |gone| > 0 || added > 0 then 1 else 0
    ensures !(|gone| > 0 || added > 0) ==> e.handles == s.handles
  {
    OneMore(cfg, cycles, c);
    ChangedWhen(s, Wanted(cfg, c));
  }

  // ---- The supervisor --------------------------------------------------------------------------------

  method RemoveDelisted(handles: map<Key, Handle>, gone: set<Key>) returns (h: map<Key, Handle>)
    ensures h == handles - gone
  {
    h := handles;
    var left := gone;
    while |left| > 0
      invariant left <= gone && h == handles - (gone - left)
      decreases |left|
    {
      var key: Key :| key in left;
      h := h - {key};
      left := left - {key};
    }
    assert gone - left == gone;
  }

  method AddListed(s: Serving, wanted: seq<Spec>) returns (h: map<Key, Handle>, next: nat, added: nat)
    ensures Serving(h, next) == Extended(s, wanted)
    ensures added == next - s.next
  {
    h, next, added := s.handles, s.next, 0;
    for i := 0 to |wanted|
      invariant Serving(h, next) == Extended(s, wanted[..i])
      invariant added == next - s.next
    {
      var spec := wanted[i];
      assert wanted[..i + 1][..i] == wanted[..i];
      if spec.key in h {
        continue;
      }
      h := h[spec.key := Handle(spec, next)];
      next := next + 1;
      added := added + 1;
    }
    assert wanted[..|wanted|] == wanted;
  }

  class BinanceSupervisor {
    const cfg: Config
    var handles: map<Key, Handle>
    var routes: set<Handle>
    var publishes: nat
    var nextChannel: nat
    ghost var cycles: seq<Cycle>

    /** The published routes are the live handles, published once per change of the set of symbols. */
    ghost predicate Valid()
      reads this
    {
      && Serving(handles, nextChannel) == After(cfg, cycles)
      && routes == handles.Values
      && publishes == Changes(cfg, cycles)
    }

    constructor (cfg: Config)
      ensures Valid() && this.cfg == cfg && cycles == []
    {
      this.cfg := cfg;
      handles, routes, publishes, nextChannel, cycles := map[], {}, 0, 0, [];
    }

    /** A failed cycle changes nothing. */
    method ReconcileOnce(c: Cycle) returns (ok: bool)
      requires Valid()
      modifies this
      ensures Valid() && cycles == old(cycles) + [c] && ok == c.Fetched?
      ensures !ok ==> handles == old(handles) && routes == old(routes) && publishes == old(publishes)
    {
      ghost var past, before := cycles, Serving(handles, nextChannel);
      cycles := cycles + [c];
      if c.Failed? {
        OneMore(cfg, past, c);
        return false;
      }
      var wanted := Wanted(cfg, c);
      var gone := handles.Keys - KeysOf(wanted);
      var kept := RemoveDelisted(handles, gone);
      var h, next, added := AddListed(Serving(kept, nextChannel), wanted);
      OneMoreSucceeded(cfg, past, c, before, Serving(h, next), gone, added);
      if |gone| > 0 || added > 0 {
        routes := h.Values;
        publishes := publishes + 1;
      } else {
        assert h == handles;
      }
      handles, nextChannel := h, next;
      return true;
    }
  }

  // ---- What a cycle keeps ------------------------------------------------------------------------------

  /** Symbols with a handle keep it; the others get one for the first spec listed for them, on a channel
      not used before. */
  ghost predicate Extends(s: Serving, specs: map<Key, Spec>, e: Serving) {
    && e.handles.Keys == s.handles.Keys + specs.Keys && s.next <= e.next
    && (forall k :: k in s.handles ==> e.handles[k] == s.handles[k])
    && (forall k :: k in specs && k !in s.handles ==>
          e.handles[k].spec == specs[k] && s.next <= e.handles[k].channel < e.next)
    && (e.next == s.next <==> specs.Keys <= s.handles.Keys)
  }

  lemma {:induction false} ExtendedExtends(s: Serving, wanted: seq<Spec>)
    ensures Extends(s, FirstSpecs(wanted), Extended(s, wanted))
    decreases |wanted|
  {
    if wanted != [] {
      ExtendedExtends(s, wanted[..|wanted| - 1]);
      ExtendedByOne(s, wanted);
    }
  }

  lemma ExtendedByOne(s: Serving, wanted: seq<Spec>)
    requires wanted != []
    requires var earlier := wanted[..|wanted| - 1]; Extends(s, FirstSpecs(earlier), Extended(s, earlier))
    ensures Extends(s, FirstSpecs(wanted), Extended(s, wanted))
  {
  }

  /** Something is removed or added exactly when the set of symbols changes; otherwise nothing changes. */
  lemma ChangedWhen(s: Serving, wanted: seq<Spec>)
    ensures var kept := Serving(s.handles - Gone(s, wanted), s.next);
            var e := Extended(kept, wanted);
            && e.handles.Keys == KeysOf(wanted)
            && (|Gone(s, wanted)| > 0 || e.next - s.next > 0 <==> e.handles.Keys != s.handles.Keys)
            && (e.handles.Keys == s.handles.Keys ==> e.handles == s.handles)
  {
    var gone := Gone(s, wanted);
    var kept := Serving(s.handles - gone, s.next);
    ExtendedExtends(kept, wanted);
    if |gone| == 0 {
      assert kept.handles == s.handles;
    } else {
      var k :| k in gone;
      assert k in s.handles && k !in Extended(kept, wanted).handles;
    }
  }

  /** One cycle: exactly the wanted symbols are served; one that stays keeps its spec and channel; a new one
      gets its first listed spec and a channel never used before. */
  lemma CycleFacts(cfg: Config, s: Serving, c: Cycle)
    requires c.Fetched?
    ensures var e, wanted := Reconciled(cfg, s, c), Wanted(cfg, c);
            && e.handles.Keys == KeysOf(wanted) && s.next <= e.next
            && (forall k :: k in e.handles && k in s.handles ==> e.handles[k] == s.handles[k])
            && (forall k :: k in e.handles && k !in s.handles ==>
                  e.handles[k].spec == FirstSpecs(wanted)[k] && s.next <= e.handles[k].channel < e.next)
  {
    var wanted := Wanted(cfg, c);
    ExtendedExtends(Serving(s.handles - Gone(s, wanted), s.next), wanted);
    ChangedWhen(s, wanted);
  }

  // ---- Whole histories ---------------------------------------------------------------------------------

  /** The symbols of the last successful cycle. */
  function LastWanted(cfg: Config, cycles: seq<Cycle>): set<Key>
    decreases |cycles|
  {
    if cycles == [] then {}
    else if cycles[|cycles| - 1].Failed? then LastWanted(cfg, cycles[..|cycles| - 1])
    else KeysOf(Wanted(cfg, cycles[|cycles| - 1]))
  }

  lemma {:induction false} ServesLastWanted(cfg: Config, cycles: seq<Cycle>)
    ensures After(cfg, cycles).handles.Keys == LastWanted(cfg, cycles)
    decreases |cycles|
  {
    if cycles != [] {
      var before, c := cycles[..|cycles| - 1], cycles[|cycles| - 1];
      ServesLastWanted(cfg, before);
      if c.Fetched? {
        CycleFacts(cfg, After(cfg, before), c);
      }
    }
  }

  ghost predicate DistinctChannels(s: Serving) {
    && (forall k :: k in s.handles ==> s.handles[k].channel < s.next)
    && (forall k, l :: k in s.handles && l in s.handles && s.handles[k].channel == s.handles[l].channel ==> k == l)
  }

  /** No two symbols ever share a channel. */
  lemma {:induction false} ChannelsDistinct(cfg: Config, cycles: seq<Cycle>)
    ensures DistinctChannels(After(cfg, cycles))
    decreases |cycles|
  {
    if cycles != [] {
      var before, c := After(cfg, cycles[..|cycles| - 1]), cycles[|cycles| - 1];
      ChannelsDistinct(cfg, cycles[..|cycles| - 1]);
      if c.Fetched? {
        var wanted := Wanted(cfg, c);
        ExtendedDistinct(Serving(before.handles - Gone(before, wanted), before.next), wanted);
      }
    }
  }

  lemma {:induction false} ExtendedDistinct(s: Serving, wanted: seq<Spec>)
    requires DistinctChannels(s)
    ensures DistinctChannels(Extended(s, wanted))
    decreases |wanted|
  {
    if wanted != [] {
      ExtendedDistinct(s, wanted[..|wanted| - 1]);
    }
  }

  /** `i` is the cycle since which `k` has been served without a break. */
  ghost predicate ServedSince(cfg: Config, cycles: seq<Cycle>, k: Key, i: nat) {
    && i < |cycles| && cycles[i].Fetched?
    && k in KeysOf(Wanted(cfg, cycles[i])) && k !in After(cfg, cycles[..i]).handles
    && forall j :: i <= j < |cycles| && cycles[j].Fetched? ==> k in KeysOf(Wanted(cfg, cycles[j]))
  }

  /** `k` still has the spec it was listed with, and a channel allotted, in cycle `i`. */
  ghost predicate KeptFrom(cfg: Config, cycles: seq<Cycle>, k: Key, i: nat)
    requires k in After(cfg, cycles).handles && ServedSince(cfg, cycles, k, i)
  {
    var h := After(cfg, cycles).handles[k];
    && h.spec == FirstSpecs(Wanted(cfg, cycles[i]))[k]
    && After(cfg, cycles[..i]).next <= h.channel < After(cfg, cycles[..i + 1]).next
  }

  /** However often discovery has run since, failed or found other specs: a served symbol still has the
      spec it was listed with, and a channel allotted, in the cycle its service began. */
  lemma {:induction false} KeptSince(cfg: Config, cycles: seq<Cycle>, k: Key) returns (i: nat)
    requires k in After(cfg, cycles).handles
    ensures ServedSince(cfg, cycles, k, i) && KeptFrom(cfg, cycles, k, i)
    decreases |cycles|
  {
    var before := cycles[..|cycles| - 1];
    if k in After(cfg, before).handles {
      i := KeptSince(cfg, before, k);
      StillKept(cfg, cycles, k, i);
    } else {
      i := |cycles| - 1;
      NewlyServed(cfg, cycles, k);
    }
  }

  lemma StillKept(cfg: Config, cycles: seq<Cycle>, k: Key, i: nat)
    requires k in After(cfg, cycles).handles && cycles != []
    requires var before := cycles[..|cycles| - 1];
             k in After(cfg, before).handles && ServedSince(cfg, before, k, i) && KeptFrom(cfg, before, k, i)
    ensures ServedSince(cfg, cycles, k, i) && KeptFrom(cfg, cycles, k, i)
  {
    var n := |cycles| - 1;
    var before := cycles[..n];
    assert before[..i] == cycles[..i] && before[..i + 1] == cycles[..i + 1];
    forall j | i <= j < |cycles| && cycles[j].Fetched?
      ensures k in KeysOf(Wanted(cfg, cycles[j]))
    {
      if j < n {
        assert before[j] == cycles[j];
      } else {
        CycleOf(cfg, After(cfg, before), cycles[n], k);
      }
    }
    HandleKept(cfg, cycles, k);
  }

  lemma HandleKept(cfg: Config, cycles: seq<Cycle>, k: Key)
    requires k in After(cfg, cycles).handles && cycles != []
    requires k in After(cfg, cycles[..|cycles| - 1]).handles
    ensures After(cfg, cycles).handles[k] == After(cfg, cycles[..|cycles| - 1]).handles[k]
  {
    if cycles[|cycles| - 1].Fetched? {
      CycleOf(cfg, After(cfg, cycles[..|cycles| - 1]), cycles[|cycles| - 1], k);
    }
  }

  lemma NewlyServed(cfg: Config, cycles: seq<Cycle>, k: Key)
    requires k in After(cfg, cycles).handles && cycles != []
    requires k !in After(cfg, cycles[..|cycles| - 1]).handles
    ensures ServedSince(cfg, cycles, k, |cycles| - 1) && KeptFrom(cfg, cycles, k, |cycles| - 1)
  {
    var n := |cycles| - 1;
    if cycles[n].Fetched? {
      CycleOf(cfg, After(cfg, cycles[..n]), cycles[n], k);
    }
    assert cycles[..n + 1] == cycles;
  }

  /** What one cycle does to one symbol. */
  lemma CycleOf(cfg: Config, s: Serving, c: Cycle, k: Key)
    requires c.Fetched?
    ensures var e, wanted := Reconciled(cfg, s, c), Wanted(cfg, c);
            && (k in e.handles <==> k in KeysOf(wanted))
            && (k in e.handles && k in s.handles ==> e.handles[k] == s.handles[k])
            && (k in e.handles && k !in s.handles ==>
                  e.handles[k].spec == FirstSpecs(wanted)[k] && s.next <= e.handles[k].channel < e.next)
  {
    CycleFacts(cfg, s, c);
  }

  // ---- Who is served, in the configuration's own words -----------------------------------------------

  /** Of this venue, with an included quote, not denied, and allowed if there is an allow list. */
  predicate Admitted(cfg: Config, s: Spec) {
    && s.key.exchange == cfg.exchange
    && s.key.market == cfg.market
    && (if s.quote == Usdt then "USDT" else "USDC") in cfg.includeQuotes
    && !(s.key.symbol in cfg.deny)
    && (cfg.allow == [] || s.key.symbol in cfg.allow)
  }

  lemma FilterAdmits(cfg: Config, c: Cycle, s: Spec)
    requires c.Fetched? && Possible(cfg, c)
    ensures s in c.ranked <==> s in c.specs && Admitted(cfg, s)
  {
    FilterKeeps(cfg, c.specs, s);
    assert s in c.ranked <==> s in multiset(c.ranked);
  }

  /** After any history every served symbol has a spec listed in its last successful cycle that the configuration
      admits: none that is denied, of another venue, or of another quote. */
  lemma {:induction false} OnlyAdmittedServed(cfg: Config, cycles: seq<Cycle>, k: Key) returns (s: Spec)
    requires forall c :: c in cycles ==> Possible(cfg, c)
    requires k in After(cfg, cycles).handles
    ensures s.key == k && Admitted(cfg, s) && exists c :: c in cycles && c.Fetched? && s in c.specs
    decreases |cycles|
  {
    var n := |cycles| - 1;
    if cycles[n].Failed? {
      s := OnlyAdmittedServed(cfg, cycles[..n], k);
      var c :| c in cycles[..n] && c.Fetched? && s in c.specs;
      assert c in cycles;
    } else {
      CycleFacts(cfg, After(cfg, cycles[..n]), cycles[n]);
      var i := FirstSpecsListed(Wanted(cfg, cycles[n]), k);
      s := Wanted(cfg, cycles[n])[i];
      assert cycles[n] in cycles && s in cycles[n].ranked;
      FilterAdmits(cfg, cycles[n], s);
    }
  }

  /** Without a limit every admitted listing of a successful cycle is served after it. */
  lemma EveryAdmittedServed(cfg: Config, cycles: seq<Cycle>, s: Spec)
    requires cycles != [] && cycles[|cycles| - 1].Fetched? && Possible(cfg, cycles[|cycles| - 1])
    requires cfg.topN.None? && s in cycles[|cycles| - 1].specs && Admitted(cfg, s)
    ensures s.key in After(cfg, cycles).handles
  {
    var n := |cycles| - 1;
    FilterAdmits(cfg, cycles[n], s);
    CycleFacts(cfg, After(cfg, cycles[..n]), cycles[n]);
    var i :| 0 <= i < |cycles[n].ranked| && cycles[n].ranked[i] == s;
    FirstSpecsAre(cycles[n].ranked, i);
  }
}
