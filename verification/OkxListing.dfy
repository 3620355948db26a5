/** Which OKX instruments are listed: exactly when their sizes can be scaled. */
module OkxListing {
  import opened Common
  import opened Decimal
  import opened OkxScale
  import opened OkxContracts

  /** `n / 10^decimals`, times `10^k`, is the integer `v`. */
  predicate Represents(n: nat, decimals: nat, k: nat, v: nat) {
    n * Pow10(k) == v * Pow10(decimals)
  }

  /** The value is positive, and a power of ten up to the 18th turns it into an integer that fits an `i64`. */
  ghost predicate Sizeable(n: nat, decimals: nat) {
    exists k: nat, v: nat :: Represents(n, decimals, k, v) && k <= 18 && 0 < v <= I64_MAX
  }

  /** What the code derives from one size: its scale, and its value at that scale. */
  function SizeOf(s: string): Option<int> {
    Scaled(Trim(s), CountDecimalsTrimmed(s))
  }

  lemma FloorRepresents(s: string, k: nat)
    requires IsDecimal(s)
    ensures Represents(Numerator(s), Decimals(s), k, FloorScaled(s, k)) <==> SignificantDecimals(s) <= k
  {
    SignificantIsLeast(s, k);
    DivisionIsExact(Numerator(s) * Pow10(k), Pow10(Decimals(s)));
  }

  /** A greater power of ten gives no smaller integer. */
  lemma GreaterScale(n: nat, decimals: nat, k: nat, v: nat, k': nat, v': nat)
    requires Represents(n, decimals, k, v) && Represents(n, decimals, k', v') && k <= k'
    ensures v <= v'
  {
    Pow10Monotone(k, k');
    MulMonotone(Pow10(k), Pow10(k'), n);
    if v' + 1 <= v {
      MulMonotone(v' + 1, v, Pow10(decimals));
      Expand(1, v', 1, Pow10(decimals));
      assert false;
    }
  }

  lemma ExactFloor(n: nat, unit: nat, v: nat)
    requires unit > 0 && n == v * unit
    ensures n / unit == v && n % unit == 0
  {
    DivUnique(n, unit, v, 0);
  }

  lemma RepresentedIsFloor(s: string, k: nat, v: nat)
    requires IsDecimal(s) && Represents(Numerator(s), Decimals(s), k, v)
    ensures v == FloorScaled(s, k) && SignificantDecimals(s) <= k
  {
    ExactFloor(Numerator(s) * Pow10(k), Pow10(Decimals(s)), v);
    SignificantIsLeast(s, k);
  }

  lemma SizeableWhen(s: string)
    requires IsDecimal(s)
    ensures var k := SignificantDecimals(s);
            Sizeable(Numerator(s), Decimals(s)) <==> k <= 18 && 0 < FloorScaled(s, k) <= I64_MAX
  {
    var n, decimals, k := Numerator(s), Decimals(s), SignificantDecimals(s);
    var v := FloorScaled(s, k);
    FloorRepresents(s, k);
    assert k <= 18 && 0 < v <= I64_MAX ==> Represents(n, decimals, k, v);
    if Sizeable(n, decimals) {
      var k': nat, v': nat :| Represents(n, decimals, k', v') && k' <= 18 && 0 < v' <= I64_MAX;
      RepresentedIsFloor(s, k', v');
      GreaterScale(n, decimals, k, v, k', v');
      NotZero(n, decimals, k, v, k', v');
    }
  }

  /** A decimal size is usable exactly if it is sizeable, and then scaled by its significant decimals. */
  lemma SizeOfDecimal(s: string)
    requires IsDecimal(s)
    ensures Positive(SizeOf(s)) <==> Sizeable(Numerator(s), Decimals(s))
    ensures Positive(SizeOf(s)) ==>
              && CountDecimalsTrimmed(s) == SignificantDecimals(s)
              && Represents(Numerator(s), Decimals(s), SignificantDecimals(s), SizeOf(s).value)
  {
    hide Sizeable, Represents;
    TrimDecimal(s);
    CountIsSignificant(s);
    SizeableWhen(s);
    FloorRepresents(s, SignificantDecimals(s));
  }

  predicate Positive(size: Option<int>) {
    size.Some? && size.value > 0
  }

  lemma NotZero(n: nat, decimals: nat, k: nat, v: nat, k': nat, v': nat)
    requires Represents(n, decimals, k, v) && Represents(n, decimals, k', v') && v' > 0
    ensures v > 0
  {
    MulMonotone(1, v', Pow10(decimals));
    if v == 0 {
      ZeroFactor(n, Pow10(k));
      assert false;
    }
  }

  lemma ZeroFactor(n: nat, p: nat)
    requires p > 0 && n * p == 0
    ensures n == 0
  {
    if n > 0 {
      MulMonotone(1, n, p);
    }
  }

  /** A size that is no decimal is never usable. */
  lemma SizeOfOther(s: string)
    requires !IsDecimal(Trim(s))
    ensures SizeOf(s) == None
  {
  }

  /** `size` is the decimal times ten to the `scale`. */
  predicate Scales(s: string, scale: nat, size: int)
    requires IsDecimal(s)
  {
    size >= 0 && Represents(Numerator(s), Decimals(s), scale, size)
  }

  /** Listing needs both sizes. */
  lemma ListedWhenSized(tick: string, lot: string, effective: string, multiplier: (int, int))
    requires tick != [] && lot != []
    ensures var r := SizesFrom(tick, lot, effective, multiplier);
            && (r.Some? <==> Positive(SizeOf(tick)) && Positive(SizeOf(effective)))
            && (r.Some? ==>
                  && r.value.priceScale == CountDecimalsTrimmed(tick)
                  && r.value.qtyScale == CountDecimalsTrimmed(effective)
                  && Some(r.value.tickSize) == SizeOf(tick) && Some(r.value.stepSize) == SizeOf(effective)
                  && (r.value.ctNum, r.value.ctDen) == multiplier)
  {
  }

  /** A spot instrument with decimal sizes is listed exactly if tick and lot are sizeable; their scales are then
      the numbers of their significant decimals, and base amounts are not converted. */
  lemma SpotListed(tick: string, lot: string, ctVal: string)
    requires IsDecimal(tick) && IsDecimal(lot)
    ensures var r := InstrumentSizes(tick, lot, ctVal, false);
            && (r.Some? <==> Sizeable(Numerator(tick), Decimals(tick)) && Sizeable(Numerator(lot), Decimals(lot)))
            && (r.Some? ==>
                  && r.value.priceScale == SignificantDecimals(tick) && r.value.qtyScale == SignificantDecimals(lot)
                  && Scales(tick, r.value.priceScale, r.value.tickSize)
                  && Scales(lot, r.value.qtyScale, r.value.stepSize)
                  && r.value.ctNum == r.value.ctDen == 1)
  {
    hide Sizeable, SizesFrom, Represents;
    SizeOfDecimal(tick);
    SizeOfDecimal(lot);
    ListedWhenSized(tick, lot, lot, (1, 1));
  }

  /** The same value written differently is sizeable or not alike. */
  lemma SameValue(n: nat, decimals: nat, n': nat, decimals': nat, k: nat, v: nat)
    requires n * Pow10(decimals') == n' * Pow10(decimals)
    requires Represents(n, decimals, k, v)
    ensures Represents(n', decimals', k, v)
  {
    Times(n * Pow10(decimals'), n' * Pow10(decimals), Pow10(k));
    Swap(n, Pow10(decimals'), Pow10(k));
    Swap(n', Pow10(decimals), Pow10(k));
    Times(n * Pow10(k), v * Pow10(decimals), Pow10(decimals'));
    Swap(v, Pow10(decimals), Pow10(decimals'));
    CancelRight(n' * Pow10(k), v * Pow10(decimals'), Pow10(decimals));
  }

  lemma SizeableThen(n: nat, decimals: nat, n': nat, decimals': nat)
    requires n * Pow10(decimals') == n' * Pow10(decimals) && Sizeable(n, decimals)
    ensures Sizeable(n', decimals')
  {
    var k: nat, v: nat :| Represents(n, decimals, k, v) && k <= 18 && 0 < v <= I64_MAX;
    SameValue(n, decimals, n', decimals', k, v);
  }

  lemma DenotedIsSizeable(r: string, product: nat, decimals: nat)
    requires Denotes(r, product, decimals)
    ensures Sizeable(Numerator(r), Decimals(r)) <==> Sizeable(product, decimals)
  {
    if Sizeable(product, decimals) {
      SizeableThen(product, decimals, Numerator(r), Decimals(r));
    } else if Sizeable(Numerator(r), Decimals(r)) {
      SizeableThen(Numerator(r), Decimals(r), product, decimals);
    }
  }

  /** A swap whose product of lot and multiplier fits is listed exactly if tick and product are sizeable; its
      step is the scaled product, and its multiplier the fraction with which trades are converted. */
  lemma SwapListed(tick: string, lot: string, ctVal: string)
    requires IsDecimal(tick) && Fits(lot, ctVal)
    ensures var r := InstrumentSizes(tick, lot, ctVal, true);
            && (r.Some? <==> Sizeable(Numerator(tick), Decimals(tick))
                             && Sizeable(Product(Numerator(lot), Numerator(ctVal)), Decimals(lot) + Decimals(ctVal)))
            && (r.Some? ==>
                  && r.value.priceScale == SignificantDecimals(tick)
                  && Scales(tick, r.value.priceScale, r.value.tickSize)
                  && StepExact(r.value.stepSize, Numerator(lot), Numerator(ctVal), Decimals(lot) + Decimals(ctVal),
                               r.value.qtyScale)
                  && r.value.ctDen > 0 && r.value.ctNum * Pow10(Decimals(ctVal)) == Numerator(ctVal) * r.value.ctDen)
  {
    hide Sizeable, Scales, StepExact, Represents;
    NotEmpty(tick, lot, ctVal);
    EffectiveSize(lot, ctVal);
    TickScales(tick);
    SwapSizesFrom(tick, lot, ctVal);
    FractionOfDecimal(ctVal);
  }

  lemma TickScales(tick: string)
    requires IsDecimal(tick)
    ensures Positive(SizeOf(tick)) <==> Sizeable(Numerator(tick), Decimals(tick))
    ensures Positive(SizeOf(tick)) ==>
              && CountDecimalsTrimmed(tick) == SignificantDecimals(tick)
              && Scales(tick, SignificantDecimals(tick), SizeOf(tick).value)
  {
    SizeOfDecimal(tick);
  }

  lemma NotEmpty(tick: string, lot: string, ctVal: string)
    requires IsDecimal(tick) && Fits(lot, ctVal)
    ensures tick != [] && lot != [] && ScaleFits(lot, ctVal) && Decimals(ctVal) <= 18
  {
  }

  lemma SwapSizesFrom(tick: string, lot: string, ctVal: string)
    requires tick != [] && lot != [] && ScaleFits(lot, ctVal) && Decimals(ctVal) <= 18
    ensures var r := InstrumentSizes(tick, lot, ctVal, true);
            && (r.Some? <==> Positive(SizeOf(tick)) && Positive(SizeOf(MultiplyDecimalStrs(lot, ctVal))))
            && (r.Some? ==>
                  && r.value.priceScale == CountDecimalsTrimmed(tick) && Some(r.value.tickSize) == SizeOf(tick)
                  && r.value.qtyScale == CountDecimalsTrimmed(MultiplyDecimalStrs(lot, ctVal))
                  && Some(r.value.stepSize) == SizeOf(MultiplyDecimalStrs(lot, ctVal))
                  && (r.value.ctNum, r.value.ctDen) == CtValFraction(ctVal))
  {
    hide MultiplyDecimalStrs, SizesFrom, CtValFraction, SizeOf, Positive, CountDecimalsTrimmed;
    ListedWhenSized(tick, lot, MultiplyDecimalStrs(lot, ctVal), CtValFraction(ctVal));
  }

  lemma EffectiveSize(lot: string, ctVal: string)
    requires Fits(lot, ctVal)
    ensures var effective := MultiplyDecimalStrs(lot, ctVal);
            && (Positive(SizeOf(effective))
                <==> Sizeable(Product(Numerator(lot), Numerator(ctVal)), Decimals(lot) + Decimals(ctVal)))
            && (Positive(SizeOf(effective)) ==>
                  StepExact(SizeOf(effective).value, Numerator(lot), Numerator(ctVal), Decimals(lot) + Decimals(ctVal),
                            CountDecimalsTrimmed(effective)))
  {
    hide MultiplyDecimalStrs, Denotes, SizeOf, Positive, Sizeable, StepExact, Product, CountDecimalsTrimmed, IsDecimal;
    MultiplyExact(lot, ctVal);
    SizeOfDenoted(MultiplyDecimalStrs(lot, ctVal), Numerator(lot), Numerator(ctVal), Decimals(lot) + Decimals(ctVal));
  }

  lemma SizeOfDenoted(r: string, x: nat, y: nat, decimals: nat)
    requires Denotes(r, Product(x, y), decimals)
    ensures Positive(SizeOf(r)) <==> Sizeable(Product(x, y), decimals)
    ensures Positive(SizeOf(r)) ==> StepExact(SizeOf(r).value, x, y, decimals, CountDecimalsTrimmed(r))
  {
    SizeOfDecimal(r);
    DenotedIsSizeable(r, Product(x, y), decimals);
    if Positive(SizeOf(r)) {
      SameValue(Numerator(r), Decimals(r), Product(x, y), decimals, SignificantDecimals(r), SizeOf(r).value);
    }
  }

  /** An instrument whose tick is no decimal is skipped, and so is a spot instrument whose lot is none. */
  lemma OthersSkipped(tick: string, lot: string, ctVal: string, isSwap: bool)
    requires isSwap ==> ScaleFits(lot, ctVal) && Decimals(ctVal) <= 18
    requires !IsDecimal(Trim(tick)) || (!isSwap && !IsDecimal(Trim(lot)))
    ensures InstrumentSizes(tick, lot, ctVal, isSwap) == None
  {
    hide MultiplyDecimalStrs, CtValFraction;
  }

  /** A trade whose size is no decimal is refused. */
  lemma BadSizeRefused(sz: string, s: Sizes)
    requires !IsDecimal(Trim(sz)) && s.ctDen > 0
    ensures TradeQty(sz, s) == None
  {
  }

  /** A lot that is no number at all counts as 1 in a swap: the instrument is listed all the same. */
  lemma UnreadableLotCountsAsOne(tick: string, lot: string, ctVal: string, s: Sizes)
    requires tick == "1" && lot == "x" && ctVal == "1000" && s == Sizes(0, 0, 1, 1000, 1000, 1)
    ensures ScaleFits(lot, ctVal) && Decimals(ctVal) <= 18 && InstrumentSizes(tick, lot, ctVal, true) == Some(s)
  {
    UnreadableParts(lot);
    ContractParts(ctVal);
    OneHundred();
    WholeProduct(lot, ctVal, 1, 1000, 1, 1000);
    SwapSizes(tick, lot, ctVal, s);
  }

  lemma UnreadableParts(lot: string)
    requires lot == "x"
    ensures Decimals(lot) == 0 && ParseI128Or1(RemoveDots(lot)) == 1
  {
    assert lot[1..] == [] && FindDot(lot[1..]) == None;
    assert RemoveDots(lot) == "x" && !IsDigit(RemoveDots(lot)[0]);
  }

  /** So does a multiplier too large for an `i64`. */
  lemma HugeMultiplierCountsAsOne(ctVal: string)
    requires IsDecimal(ctVal) && Decimals(ctVal) <= 18 && Numerator(ctVal) > I64_MAX
    ensures CtValFraction(ctVal) == (1, Pow10(Decimals(ctVal)))
  {
    PointRemoved(ctVal);
    assert IsDigit(RemoveDots(ctVal)[0]);
    OneOver(Pow10(Decimals(ctVal)));
  }

  lemma OneOver(d: nat)
    requires d > 0
    ensures Reduced(1, d) == (1, d)
  {
    assert Gcd(1, d) == Gcd(d, 1 % d);
    if d == 1 {
      assert Gcd(1, 0) == 1;
    } else {
      GcdWithOne(d);
    }
    DivUnique(1, 1, 1, 0);
    DivUnique(d, 1, d, 0);
  }
}
