/** From contracts to base units: how an OKX swap's quantities are scaled, and when a trade of whole
    lots comes out as whole steps. */
module OkxContracts {
  import opened Common
  import opened Decimal
  import opened OkxScale

  /** The part of a symbol specification that sizes prices and quantities. */
  datatype Sizes = Sizes(
    priceScale: nat,
    qtyScale: nat,
    tickSize: int,
    stepSize: int,
    ctNum: int,
    ctDen: int
  )

  function EffectiveLot(lot: string, ctVal: string, isSwap: bool): string
    requires isSwap ==> ScaleFits(lot, ctVal)
  {
    if isSwap then MultiplyDecimalStrs(lot, ctVal) else lot
  }

  /** The sizing of one instrument; None where the instrument is skipped. */
  function InstrumentSizes(tick: string, lot: string, ctVal: string, isSwap: bool): Option<Sizes>
    requires isSwap ==> ScaleFits(lot, ctVal) && Decimals(ctVal) <= 18
  {
    SizesFrom(tick, lot, EffectiveLot(lot, ctVal, isSwap), if isSwap then CtValFraction(ctVal) else (1, 1))
  }

  /** The same from the lot in base units and the multiplier as a fraction. */
  function SizesFrom(tick: string, lot: string, effective: string, multiplier: (int, int)): Option<Sizes> {
    var priceScale := CountDecimalsTrimmed(tick);
    var qtyScale := CountDecimalsTrimmed(effective);
    var tickSize := Scaled(Trim(tick), priceScale);
    var stepSize := Scaled(Trim(effective), qtyScale);
    if tick == [] || lot == [] || tickSize.None? || stepSize.None? then None
    else if tickSize.value <= 0 || stepSize.value <= 0 then None
    else Some(Sizes(priceScale, qtyScale, tickSize.value, stepSize.value, multiplier.0, multiplier.1))
  }

  /** `parse_scaled(sz, qty_scale)? * ct_n / ct_d`. */
  function TradeQty(sz: string, s: Sizes): Option<int>
    requires s.ctDen > 0
  {
    var contracts := Scaled(Trim(sz), s.qtyScale);
    if contracts.None? then None else Some(TruncDiv(WrapI64(contracts.value * s.ctNum), s.ctDen))
  }

  lemma TrimDecimal(s: string)
    requires IsDecimal(s)
    ensures Trim(s) == s
  {
    assert IsDigit(IntPart(s)[0]) && s[0] == IntPart(s)[0];
    var last := s[|s| - 1];
    if FindDot(s).Some? {
      assert FracPart(s) == [] ==> last == '.';
      assert FracPart(s) != [] ==> last == FracPart(s)[|FracPart(s)| - 1];
    } else {
      assert last == IntPart(s)[|IntPart(s)| - 1];
    }
  }

  // ---- Bounds --------------------------------------------------------------------------------

  /** Over all sizes: a trade converts exactly when its size fits the scale, and with `num/10^f` contracts of
      `n/d` base units each the quantity never exceeds the true base amount.  It misses it by less than
      `1 + n/d` if and only if the product of contracts and numerator fits an `i64`.  Both sides are
      multiplied out by `d * 10^f`. */
  lemma QuantityBounds(sz: string, s: Sizes)
    requires IsDecimal(sz) && 0 <= s.ctNum <= I64_MAX && 0 < s.ctDen <= 1_000_000_000_000_000_000
    ensures TradeQty(sz, s).Some? <==> s.qtyScale <= 18 && FloorScaled(sz, s.qtyScale) <= I64_MAX
    ensures TradeQty(sz, s).Some? ==>
              var qty, n, d := TradeQty(sz, s).value, s.ctNum, s.ctDen;
              var unit := Pow10(Decimals(sz));
              var exact := Numerator(sz) * Pow10(s.qtyScale) * n;
              && qty * d * unit <= exact
              && (exact < (qty + 1) * d * unit + n * unit <==> FloorScaled(sz, s.qtyScale) * n <= I64_MAX)
  {
    TrimDecimal(sz);
    if TradeQty(sz, s).Some? {
      var p := FloorScaled(sz, s.qtyScale);
      MulMonotone(0, p, s.ctNum);
      QuantityWithin(Numerator(sz) * Pow10(s.qtyScale), Pow10(Decimals(sz)), s.ctNum, s.ctDen, p, p * s.ctNum,
                     TradeQty(sz, s).value);
    }
  }

  lemma QuantityWithin(whole: nat, unit: nat, n: nat, d: nat, p: nat, x: nat, qty: int)
    requires unit > 0 && n <= I64_MAX && 0 < d <= 1_000_000_000_000_000_000
    requires p == whole / unit && x == p * n && qty == TruncDiv(WrapI64(x), d)
    ensures qty * d * unit <= whole * n
    ensures whole * n < (qty + 1) * d * unit + n * unit <==> x <= I64_MAX
  {
    if x <= I64_MAX {
      WrapKeeps(x);
      FloorTwice(whole, unit, n, d, p, qty);
    } else {
      WrappedMisses(x, n, d, qty);
      FlooredProduct(whole, unit, n, p);
      MulMonotone((qty + 1) * d + n, x, unit);
      MulMonotone(qty * d, x, unit);
      Expand(1, (qty + 1) * d, n, unit);
    }
  }

  /** A wrapped quotient lies below the true one by more than the tolerance. */
  lemma WrappedMisses(x: int, n: nat, d: int, qty: int)
    requires x > I64_MAX && n <= I64_MAX && 0 < d <= 1_000_000_000_000_000_000 && qty == TruncDiv(WrapI64(x), d)
    ensures (qty + 1) * d + n <= x && qty * d <= x
  {
    var w := WrapI64(x);
    WrapDrops(x);
    QuotientRemainder(if w >= 0 then w else -w, d);
    Expand(1, qty, 1, d);
    NegatedTimes(qty, d);
  }

  lemma NegatedTimes(q: int, d: int)
    ensures (-q) * d == -(q * d)
    ensures (q + 1) * d == q * d + d
  {
  }

  lemma FlooredProduct(whole: nat, unit: nat, n: nat, p: nat)
    requires unit > 0 && p == whole / unit
    ensures p * n * unit <= whole * n
  {
    QuotientRemainder(whole, unit);
    MulMonotone(p * unit, whole, n);
    Swap(p, n, unit);
  }

  lemma FloorTwice(whole: nat, unit: nat, n: nat, d: nat, p: nat, qty: int)
    requires unit > 0 && d > 0 && p == whole / unit && qty == p * n / d
    ensures qty * d * unit <= whole * n < (qty + 1) * d * unit + n * unit
  {
    var r, r' := whole % unit, (p * n) % d;
    assert whole == p * unit + r && p * n == qty * d + r';
    Distributed(p, unit, r, n);
    MulMonotone(0, r, n);
    MulMonotone(r, unit, n);
    MulMonotone(r' + 1, d, unit);
    MulMonotone(0, r', unit);
    Expand(qty, d, r', unit);
    Expand(1, qty * d, d, unit);
    Expand(qty, d, d, unit);
    Regroup(qty, d, unit);
  }

  lemma Distributed(p: int, unit: int, r: int, n: int)
    ensures (p * unit + r) * n == (p * n) * unit + r * n
  {
  }

  lemma Regroup(qty: int, d: int, unit: int)
    ensures (qty + 1) * d * unit == qty * d * unit + d * unit
    ensures qty * (d * unit) == qty * d * unit
  {
  }

  // ---- Whole lots ----------------------------------------------------------------------------

  /** `sz` is `m` lots. */
  predicate IsLots(sz: string, lot: string, m: nat) {
    IsDecimal(sz) && IsDecimal(lot) && Numerator(sz) * Pow10(Decimals(lot)) == m * Numerator(lot) * Pow10(Decimals(sz))
  }

  /** Decimal inputs whose intermediate values fit the machine integers of the code. */
  predicate Fits(lot: string, ctVal: string) {
    && IsDecimal(lot) && IsDecimal(ctVal) && ScaleFits(lot, ctVal)
    && ProductFits(Numerator(lot), Numerator(ctVal))
    && Numerator(ctVal) <= I64_MAX && Decimals(ctVal) <= 18
  }

  /** Scale and step as `InstrumentSizes` derives them from the effective lot. */
  predicate EffectiveStep(effective: string, q: nat, step: int) {
    IsDecimal(effective) && q == CountDecimalsTrimmed(effective) <= 18 && step == FloorScaled(effective, q)
  }

  /** `step / 10^q` is the product of `nl` and `nc / 10^decimals`. */
  predicate StepExact(step: int, nl: nat, nc: nat, decimals: nat, q: nat) {
    Shifted(step, decimals) == Shifted(Product(nl, nc), q)
  }

  lemma StepIsExact(effective: string, q: nat, step: int)
    requires EffectiveStep(effective, q, step)
    ensures step * Pow10(Decimals(effective)) == Numerator(effective) * Pow10(q)
  {
    CountIsSignificant(effective);
    CountIsLeastExactScale(effective, q);
  }

  /** The step is the exact product of lot and multiplier at the quantity scale if and only if the product
      fits an `i128`. */
  lemma StepIsScaledProduct(lot: string, ctVal: string, q: nat, step: int)
    requires IsDecimal(lot) && IsDecimal(ctVal) && ScaleFits(lot, ctVal)
    requires EffectiveStep(MultiplyDecimalStrs(lot, ctVal), q, step)
    ensures StepExact(step, Numerator(lot), Numerator(ctVal), Decimals(lot) + Decimals(ctVal), q)
            <==> ProductFits(Numerator(lot), Numerator(ctVal))
  {
    hide *;
    MultiplyExact(lot, ctVal);
    StepOf(MultiplyDecimalStrs(lot, ctVal), Numerator(lot), Numerator(ctVal), Decimals(lot) + Decimals(ctVal), q, step);
  }

  lemma StepOf(effective: string, nl: nat, nc: nat, decimals: nat, q: nat, step: int)
    requires EffectiveStep(effective, q, step)
    requires Denotes(effective, Product(nl, nc), decimals) <==> ProductFits(nl, nc)
    ensures StepExact(step, nl, nc, decimals, q) <==> ProductFits(nl, nc)
  {
    StepIsExact(effective, q, step);
    StepTimesLots(step, nl, nc, Numerator(effective), Pow10(decimals), Pow10(Decimals(effective)), Pow10(q));
  }

  /** The step of a swap, times the denominator of the multiplier, is the scaled lot times its
      numerator: nothing is lost between instrument sizes and trade conversion. */
  lemma StepMatchesFraction(lot: string, ctVal: string, q: nat, step: int, n: nat, d: nat)
    requires IsDecimal(lot) && IsDecimal(ctVal)
    requires StepExact(step, Numerator(lot), Numerator(ctVal), Decimals(lot) + Decimals(ctVal), q)
    requires n * Pow10(Decimals(ctVal)) == Numerator(ctVal) * d
    ensures step * d * Pow10(Decimals(lot)) == Numerator(lot) * n * Pow10(q)
  {
    Pow10Adds(Decimals(lot), Decimals(ctVal));
    CancelScales(step, Numerator(lot), Numerator(ctVal), n, d, Pow10(Decimals(lot)), Pow10(Decimals(ctVal)),
                 Pow10(Decimals(lot) + Decimals(ctVal)), Pow10(q));
  }

  /** step * L * C == Nl * Nc * Q and n * C == Nc * d give step * d * L == Nl * n * Q. */
  lemma CancelScales(step: int, nl: nat, nc: nat, n: nat, d: nat, l: nat, c: nat, lc: nat, q: nat)
    requires c > 0 && lc == l * c
    requires step * lc == nl * nc * q
    requires n * c == nc * d
    ensures step * d * l == nl * n * q
  {
    Reorder(step, l, c, d);
    Reorder2(nl, nc, q, d);
    Reorder2(nl, n, q, c);
    Times(step * lc, nl * nc * q, d);
    CongruentLeft(nl, q, nc * d, n * c);
    CancelRight(step * d * l, nl * n * q, c);
  }

  lemma StepTimesLots(step: int, nl: nat, nc: nat, ne: nat, lc: nat, e: nat, q: nat)
    requires e > 0 && q > 0 && step * e == ne * q
    ensures step * lc == nl * nc * q <==> ne * lc == (nl * nc) * e
  {
    Times(step * e, ne * q, lc);
    Swap(step, e, lc);
    Swap(ne, q, lc);
    Swap(nl * nc, e, q);
    if ne * lc == (nl * nc) * e {
      Times(ne * lc, (nl * nc) * e, q);
      CancelRight(step * lc, nl * nc * q, e);
    } else if step * lc == nl * nc * q {
      Times(step * lc, nl * nc * q, e);
      CancelRight(ne * lc, (nl * nc) * e, q);
      assert false;
    }
  }

  lemma Times(x: int, y: int, z: int)
    requires x == y
    ensures x * z == y * z
  {
  }

  lemma Swap(x: int, y: int, z: int)
    ensures (x * y) * z == (x * z) * y
  {
  }

  lemma Reorder(step: int, l: int, c: int, d: int)
    ensures (step * (l * c)) * d == (step * d * l) * c
  {
  }

  lemma Reorder2(nl: int, x: int, q: int, y: int)
    ensures (nl * x * q) * y == (nl * q) * (x * y)
  {
  }

  lemma CongruentLeft(nl: int, q: int, x: int, y: int)
    requires x == y
    ensures (nl * q) * x == (nl * q) * y
  {
  }

  lemma FlooredLots(sz: string, q: nat, m: nat, nl: nat, step: int, n: nat, d: nat, l: nat)
    requires IsDecimal(sz) && n > 0 && d > 0 && l > 0
    requires Numerator(sz) * l == m * nl * Pow10(Decimals(sz))
    requires step * d * l == nl * n * Pow10(q)
    ensures FloorScaled(sz, q) * n / d == m * step <==> SignificantDecimals(sz) <= q
    ensures FloorScaled(sz, q) * n / d <= m * step
  {
    var r := FloorRemainder(sz, q);
    LotsToSteps(FloorScaled(sz, q), r, Numerator(sz), m, nl, step, n, d, Pow10(Decimals(sz)), l, Pow10(q));
  }

  lemma FloorRemainder(sz: string, q: nat) returns (r: nat)
    requires IsDecimal(sz)
    ensures Numerator(sz) * Pow10(q) == FloorScaled(sz, q) * Pow10(Decimals(sz)) + r
    ensures r < Pow10(Decimals(sz)) && (r == 0 <==> SignificantDecimals(sz) <= q)
  {
    r := Numerator(sz) * Pow10(q) % Pow10(Decimals(sz));
    SignificantIsLeast(sz, q);
    QuotientRemainder(Numerator(sz) * Pow10(q), Pow10(Decimals(sz)));
  }

  lemma QuotientRemainder(a: int, d: int)
    requires d > 0
    ensures a == (a / d) * d + a % d && 0 <= a % d < d
  {
  }

  lemma PositiveFactor(step: int, d: int, l: int, nl: nat, n: int, q: nat)
    requires step > 0 && d > 0 && l > 0 && n >= 0 && step * d * l == nl * n * q
    ensures n > 0
  {
    MulMonotone(1, step, d);
    MulMonotone(1, step * d, l);
  }

  /** A trade of `m` whole lots converts to exactly `m` steps if and only if its size has no more
      significant decimals than the quantity scale: a test a caller can make on the string. */
  lemma WholeLotsAreWholeSteps(lot: string, ctVal: string, sz: string, m: nat, q: nat, step: int)
    requires Fits(lot, ctVal) && EffectiveStep(MultiplyDecimalStrs(lot, ctVal), q, step) && step > 0
    requires IsLots(sz, lot, m)
    ensures var (n, d) := CtValFraction(ctVal);
            && d > 0
            && (FloorScaled(sz, q) * n / d == m * step <==> SignificantDecimals(sz) <= q)
            && FloorScaled(sz, q) * n / d <= m * step
  {
    FractionOfDecimal(ctVal);
    var (n, d) := CtValFraction(ctVal);
    StepIsScaledProduct(lot, ctVal, q, step);
    StepMatchesFraction(lot, ctVal, q, step, n, d);
    PositiveFactor(step, d, Pow10(Decimals(lot)), Numerator(lot), n, Pow10(q));
    FlooredLots(sz, q, m, Numerator(lot), step, n, d, Pow10(Decimals(lot)));
  }

  /** A product that does not fit wraps to a quantity that is too small. */
  lemma WrappedIsTooSmall(x: int, d: int, target: int)
    requires x > I64_MAX && 0 < d <= 1_000_000_000_000_000_000 && x / d <= target
    ensures TruncDiv(WrapI64(x), d) < target
  {
    var wrapped := WrapI64(x);
    WrapDrops(x);
    DivAtLeast(x, d, 1);
    if wrapped >= 0 {
      DivMonotone(wrapped, x - d, d);
      OneLess(x, d);
    } else {
      DivAtLeast(-wrapped, d, 0);
    }
  }

  lemma WrapDrops(x: int)
    requires x > I64_MAX
    ensures WrapI64(x) <= x - 0x1_0000_0000_0000_0000
  {
  }

  lemma OneLess(x: int, d: int)
    requires d > 0
    ensures (x - d) / d == x / d - 1
  {
    DivUnique(x - d, d, x / d - 1, x % d);
  }

  lemma SmallDenominator(ctVal: string)
    requires IsDecimal(ctVal) && Decimals(ctVal) <= 18 && Numerator(ctVal) <= I64_MAX
    ensures 0 < CtValFraction(ctVal).1 <= 1_000_000_000_000_000_000
  {
    var g, n, d := FractionParts(ctVal);
    PowerAtMost(Decimals(ctVal));
    MulMonotone(1, g, d);
  }

  lemma PowerAtMost(k: nat)
    requires k <= 18
    ensures Pow10(k) <= 1_000_000_000_000_000_000
  {
    KnownPower(9, 9, 1_000_000_000, 1_000_000_000);
    Pow10Monotone(k, 18);
  }

  /** The same through the code's own steps, from the instrument's strings to a trade's quantity: whole lots
      come out as whole steps if and only if the size has no more decimals than the scale and the product of
      contracts and numerator fits an `i64`. */
  lemma SwapTradeOfWholeLots(tick: string, lot: string, ctVal: string, sz: string, m: nat)
    requires Fits(lot, ctVal) && IsLots(sz, lot, m)
    requires InstrumentSizes(tick, lot, ctVal, true).Some?
    ensures var s := InstrumentSizes(tick, lot, ctVal, true).value;
            && s.ctDen > 0
            && (TradeQty(sz, s) == Some(m * s.stepSize)
                <==> SignificantDecimals(sz) <= s.qtyScale && FloorScaled(sz, s.qtyScale) * s.ctNum <= I64_MAX)
  {
    var s := InstrumentSizes(tick, lot, ctVal, true).value;
    var effective := MultiplyDecimalStrs(lot, ctVal);
    MultiplyExact(lot, ctVal);
    TrimDecimal(effective);
    TrimDecimal(sz);
    WholeLotsAreWholeSteps(lot, ctVal, sz, m, s.qtyScale, s.stepSize);
    FractionOfDecimal(ctVal);
    SmallDenominator(ctVal);
    PositiveNumerator(lot, ctVal, s.qtyScale, s.stepSize);
    QuantityOrWrapped(sz, s, m * s.stepSize);
  }

  lemma PositiveNumerator(lot: string, ctVal: string, q: nat, step: int)
    requires Fits(lot, ctVal) && EffectiveStep(MultiplyDecimalStrs(lot, ctVal), q, step) && step > 0
    ensures CtValFraction(ctVal).0 > 0
  {
    FractionOfDecimal(ctVal);
    var (n, d) := CtValFraction(ctVal);
    StepIsScaledProduct(lot, ctVal, q, step);
    StepMatchesFraction(lot, ctVal, q, step, n, d);
    PositiveFactor(step, d, Pow10(Decimals(lot)), Numerator(lot), n, Pow10(q));
  }

  lemma QuantityOrWrapped(sz: string, s: Sizes, target: int)
    requires IsDecimal(sz) && Trim(sz) == sz && s.qtyScale <= 18
    requires s.ctNum > 0 && 0 < s.ctDen <= 1_000_000_000_000_000_000
    requires FloorScaled(sz, s.qtyScale) * s.ctNum / s.ctDen <= target
    ensures TradeQty(sz, s) == Some(target)
            <==> FloorScaled(sz, s.qtyScale) * s.ctNum / s.ctDen == target
                 && FloorScaled(sz, s.qtyScale) * s.ctNum <= I64_MAX
  {
    var p := FloorScaled(sz, s.qtyScale);
    var x := p * s.ctNum;
    MulMonotone(1, s.ctNum, p);
    MulMonotone(0, p, s.ctNum);
    if x > I64_MAX {
      WrappedIsTooSmall(x, s.ctDen, target);
    }
  }

  lemma WrapKeeps(x: int)
    requires I64_MIN <= x <= I64_MAX
    ensures WrapI64(x) == x
  {
  }

  lemma SpotQuantity(sz: string, s: Sizes)
    requires s.ctNum == s.ctDen == 1
    ensures TradeQty(sz, s) == Scaled(Trim(sz), s.qtyScale)
  {
    var contracts := Scaled(Trim(sz), s.qtyScale);
    if contracts.Some? {
      WrapKeeps(contracts.value);
      DivUnique(contracts.value, 1, contracts.value, 0);
    }
  }

  /** The tick of an instrument, and the lot of a spot instrument, are scaled without loss; a spot trade's
      quantity is its size at that scale. */
  lemma SpotSizesExact(tick: string, lot: string, ctVal: string, sz: string)
    requires IsDecimal(tick) && IsDecimal(lot) && InstrumentSizes(tick, lot, ctVal, false).Some?
    ensures var s := InstrumentSizes(tick, lot, ctVal, false).value;
            && s.tickSize * Pow10(Decimals(tick)) == Numerator(tick) * Pow10(s.priceScale)
            && s.stepSize * Pow10(Decimals(lot)) == Numerator(lot) * Pow10(s.qtyScale)
            && s.ctDen > 0 && TradeQty(sz, s) == Scaled(Trim(sz), s.qtyScale)
  {
    TrimDecimal(tick);
    TrimDecimal(lot);
    CountIsSignificant(tick);
    CountIsSignificant(lot);
    CountIsLeastExactScale(tick, CountDecimalsTrimmed(tick));
    CountIsLeastExactScale(lot, CountDecimalsTrimmed(lot));
    SpotQuantity(sz, InstrumentSizes(tick, lot, ctVal, false).value);
  }

  /** Lots of 0.01 contracts of 1000 units: the step is 10 base units at scale 0, yet a trade of one
      lot, whose size "0.01" has two significant decimals, is floored to nothing. */
  lemma FractionalContractsVanish(tick: string, lot: string, ctVal: string, s: Sizes)
    requires tick == "1" && lot == "0.01" && ctVal == "1000" && s == Sizes(0, 0, 1, 10, 1000, 1)
    ensures Fits(lot, ctVal) && IsLots(lot, lot, 1)
    ensures InstrumentSizes(tick, lot, ctVal, true) == Some(s)
    ensures TradeQty(lot, s) == Some(0)
  {
    LotParts(lot);
    ContractParts(ctVal);
    OneHundred();
    WholeProduct(lot, ctVal, 1, 1000, 100, 10);
    SwapSizes(tick, lot, ctVal, s);
    FloorsToNothing(lot, 1, 2);
    Converted(lot, s, 0, 0);
  }

  /** What a size that reads `p` converts to. */
  lemma Converted(sz: string, s: Sizes, p: nat, x: int)
    requires IsDecimal(sz) && s.qtyScale == 0 && s.ctDen == 1 && FloorScaled(sz, 0) == p <= I64_MAX
    requires x == p * s.ctNum
    ensures TradeQty(sz, s) == Some(WrapI64(x))
  {
    TrimDecimal(sz);
  }

  lemma OneHundred()
    ensures Pow10(0) == 1 && Pow10(2) == 100
  {
    assert Pow10(1) == 10;
  }

  lemma FloorsToNothing(lot: string, x: nat, k: nat)
    requires IsDecimal(lot) && Numerator(lot) == x && Decimals(lot) == k && x < Pow10(k)
    ensures FloorScaled(lot, 0) == 0
  {
    assert x * Pow10(0) == x;
    DivUnique(x, Pow10(k), 0, x);
  }

  /** A trade of ten to the 16th contracts of 1000 units is a whole number of lots with no decimals at all, yet
      its quantity wraps to a negative one. */
  lemma HugeTradeWraps(tick: string, lot: string, ctVal: string, sz: string, s: Sizes)
    requires tick == "1" && lot == "1" && ctVal == "1000" && sz == "1" + Zeros(16)
    requires s == Sizes(0, 0, 1, 1000, 1000, 1)
    ensures Fits(lot, ctVal) && IsLots(sz, lot, Pow10(16))
    ensures InstrumentSizes(tick, lot, ctVal, true) == Some(s)
    ensures SignificantDecimals(sz) == 0 && TradeQty(sz, s) == Some(-8_446_744_073_709_551_616)
  {
    UnitParts(lot);
    ContractParts(ctVal);
    OneHundred();
    WholeProduct(lot, ctVal, 1, 1000, 1, 1000);
    SwapSizes(tick, lot, ctVal, s);
    OneAndZeros(sz, 16);
    TenToThe16();
    WholeScaled(sz, 10_000_000_000_000_000);
    Converted(sz, s, 10_000_000_000_000_000, 10_000_000_000_000_000_000);
  }

  lemma TenToThe16()
    ensures Pow10(16) == 10_000_000_000_000_000
  {
    assert Pow10(4) == 10_000;
    KnownPower(4, 4, 10_000, 10_000);
    KnownPower(8, 8, 100_000_000, 100_000_000);
  }

  /** A string of digits is read as it stands at scale 0. */
  lemma WholeScaled(s: string, x: nat)
    requires Reads(s, x) && x <= I64_MAX
    ensures CountDecimalsTrimmed(s) == SignificantDecimals(s) == 0
    ensures FloorScaled(s, 0) == x && Scaled(Trim(s), 0) == Some(x)
  {
    TrimDecimal(s);
    assert Decimals(s) == 0 && Pow10(0) == 1;
    DivUnique(x, 1, x, 0);
  }

  lemma WholeProduct(lot: string, ctVal: string, x: nat, y: nat, unit: nat, whole: nat)
    requires ScaleFits(lot, ctVal) && unit == Pow10(Decimals(lot) + Decimals(ctVal))
    requires ParseI128Or1(RemoveDots(lot)) == x && ParseI128Or1(RemoveDots(ctVal)) == y
    requires x * y == whole * unit <= I128_MAX
    ensures Reads(MultiplyDecimalStrs(lot, ctVal), whole)
  {
    MantissaProduct(lot, ctVal, x, y);
    MulMonotone(0, x, y);
    WrapsTo(Mantissa(lot, ctVal));
    WholeStr(WrapI128(Mantissa(lot, ctVal)), Decimals(lot) + Decimals(ctVal), unit, whole);
  }

  lemma WholeStr(product: int, decimals: nat, unit: nat, whole: nat)
    requires unit == Pow10(decimals) && product == whole * unit
    ensures Reads(DecimalStr(product, decimals), whole)
  {
    DivUnique(product, unit, whole, 0);
    MulMonotone(0, whole, unit);
    assert decimals == 0 ==> product == whole;
    WholeNumber(whole);
  }

  /** A string of digits that denotes `whole`. */
  predicate Reads(s: string, whole: nat) {
    IsDecimal(s) && FindDot(s) == None && Numerator(s) == whole
  }

  lemma SwapSizes(tick: string, lot: string, ctVal: string, s: Sizes)
    requires tick == "1" && lot != [] && ScaleFits(lot, ctVal) && Decimals(ctVal) <= 18
    requires 0 < s.stepSize <= I64_MAX && Reads(MultiplyDecimalStrs(lot, ctVal), s.stepSize)
    requires s.priceScale == s.qtyScale == 0 && s.tickSize == 1
    requires CtValFraction(ctVal) == (s.ctNum, s.ctDen)
    ensures InstrumentSizes(tick, lot, ctVal, true) == Some(s)
  {
    UnitParts(tick);
    WholeScaled(tick, 1);
    WholeScaled(MultiplyDecimalStrs(lot, ctVal), s.stepSize);
  }

  lemma UnitParts(lot: string)
    requires lot == "1"
    ensures Reads(lot, 1) && Decimals(lot) == 0
    ensures ParseI128Or1(RemoveDots(lot)) == 1
  {
    assert lot == "1" + Zeros(0);
    OneAndZeros(lot, 0);
    assert Pow10(0) == 1;
    MantissaOfDecimal(lot);
  }

  lemma LotParts(lot: string)
    requires lot == "0.01"
    ensures IsDecimal(lot) && Numerator(lot) == 1 && Decimals(lot) == 2
    ensures ParseI128Or1(RemoveDots(lot)) == 1
  {
    assert FindDot(".01") == Some(0) && FindDot(lot) == Some(1);
    assert IntPart(lot) == "0" && FracPart(lot) == "01";
    DigitValues();
    assert "0" + "01" == "001";
    PointRemoved(lot);
    UnsignedParse("001");
  }

  lemma ContractParts(ctVal: string)
    requires ctVal == "1000"
    ensures IsDecimal(ctVal) && Numerator(ctVal) == 1000 && Decimals(ctVal) == 0
    ensures ParseI128Or1(RemoveDots(ctVal)) == 1000 && CtValFraction(ctVal) == (1000, 1)
  {
    DigitsHaveNoDot(ctVal);
    assert "1000" + [] == "1000";
    DigitValues();
    UnsignedParse("1000");
    OverOne(1000);
  }

  /** A multiplier without decimals is a fraction over 1. */
  lemma OverOne(n: nat)
    ensures Pow10(0) == 1 && Reduced(n, 1) == (n, 1)
  {
    GcdWithOne(n);
    DivUnique(n, 1, n, 0);
  }

  lemma GcdWithOne(n: nat)
    ensures Gcd(n, 1) == 1
  {
    assert n % 1 == 0;
    assert Gcd(1, 0) == 1;
  }

  lemma DigitValues()
    ensures Digits("001") == 1 && Digits("1000") == 1000
  {
    assert "001"[..2] == "00" && "00"[..1] == "0" && "0"[..0] == [];
    assert Digits("0") == 0 && Digits("00") == 0;
    assert "1000"[..3] == "100" && "100"[..2] == "10" && "10"[..1] == "1" && "1"[..0] == [];
    assert Digits("1") == 1 && Digits("10") == 10 && Digits("100") == 100;
  }

  /** With p contracts-worth left after flooring and remainder r: qty == m * step exactly when r == 0. */
  lemma LotsToSteps(p: nat, r: nat, ns: nat, m: nat, nl: nat, step: int, n: nat, d: nat, s: nat, l: nat, q: nat)
    requires n > 0 && d > 0 && s > 0 && l > 0
    requires ns * q == p * s + r && r < s
    requires ns * l == m * nl * s
    requires step * d * l == nl * n * q
    ensures p * n / d == m * step <==> r == 0
    ensures p * n / d <= m * step
  {
    ScaledLots(p, r, ns, m, nl, step, n, d, s, l, q);
    var target := m * step;
    assert (p * n) * s + n * r == (target * d) * s;
    if r == 0 {
      CancelRight(p * n, target * d, s);
      DivUnique(p * n, d, target, 0);
    } else {
      MulMonotone(1, n, r);
      if p * n >= target * d {
        MulMonotone(target * d, p * n, s);
        assert false;
      }
      QuotientBelow(p * n, d, target);
    }
  }

  lemma QuotientBelow(a: int, d: int, q: int)
    requires d > 0 && a < q * d
    ensures a / d < q
  {
    var x := a / d;
    assert x * d <= a;
    if x >= q {
      MulMonotone(q, x, d);
      assert false;
    }
  }

  lemma ScaledLots(p: nat, r: nat, ns: nat, m: nat, nl: nat, step: int, n: nat, d: nat, s: nat, l: nat, q: nat)
    requires l > 0
    requires ns * q == p * s + r
    requires ns * l == m * nl * s
    requires step * d * l == nl * n * q
    ensures (p * n) * s + n * r == (m * step * d) * s
  {
    Times(ns * q, p * s + r, n * l);
    Times(ns * l, m * nl * s, n * q);
    Times(step * d * l, nl * n * q, m * s);
    Shuffle(p, r, ns, n, l, q, s);
    Shuffle2(m, nl, s, n, q, step, d, l);
    CancelRight((p * n) * s + n * r, (m * step * d) * s, l);
  }

  lemma Shuffle(p: int, r: int, ns: int, n: int, l: int, q: int, s: int)
    ensures (ns * q) * (n * l) == (ns * l) * (n * q)
    ensures (p * s + r) * (n * l) == ((p * n) * s + n * r) * l
  {
  }

  lemma Shuffle2(m: int, nl: int, s: int, n: int, q: int, step: int, d: int, l: int)
    ensures (m * nl * s) * (n * q) == (nl * n * q) * (m * s)
    ensures (step * d * l) * (m * s) == ((m * step * d) * s) * l
  {
  }
}
