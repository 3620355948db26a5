/** The scaled-integer arithmetic of the OKX adapter: parsing prices and quantities, deriving scales
    from instrument sizes, and the contract multiplier as a reduced fraction. */
module OkxScale {
  import opened Common
  import opened Decimal

  // ---- Parsing -------------------------------------------------------------------------------

  /** Unicode white space, as `str::trim` strips it. */
  predicate IsSpace(c: char) {
    || '\t' <= c <= '\r' || c == ' '
    || c == '\U{85}' || c == '\U{A0}' || c == '\U{1680}' || '\U{2000}' <= c <= '\U{200A}'
    || c == '\U{2028}' || c == '\U{2029}' || c == '\U{202F}' || c == '\U{205F}' || c == '\U{3000}'
  }

  function TrimStart(s: string): string {
    if s != [] && IsSpace(s[0]) then TrimStart(s[1..]) else s
  }

  function TrimEnd(s: string): string {
    if s != [] && IsSpace(s[|s| - 1]) then TrimEnd(s[..|s| - 1]) else s
  }

  function Trim(s: string): string {
    TrimEnd(TrimStart(s))
  }

  /** Trimming takes the white space off both ends and nothing else. */
  lemma TrimStrips(before: string, s: string, after: string)
    requires forall c :: c in before || c in after ==> IsSpace(c)
    requires s != [] && !IsSpace(s[0]) && !IsSpace(s[|s| - 1])
    ensures Trim(before + s + after) == s
  {
    StartStripped(before, s + after);
    assert before + s + after == before + (s + after);
    EndStripped(s, after);
  }

  lemma {:induction false} StartStripped(before: string, rest: string)
    requires (forall c :: c in before ==> IsSpace(c)) && rest != [] && !IsSpace(rest[0])
    ensures TrimStart(before + rest) == rest
  {
    if before == [] {
      assert before + rest == rest;
    } else {
      assert before[0] in before && (before + rest)[1..] == before[1..] + rest;
      StartStripped(before[1..], rest);
    }
  }

  lemma {:induction false} EndStripped(rest: string, after: string)
    requires (forall c :: c in after ==> IsSpace(c)) && rest != [] && !IsSpace(rest[|rest| - 1])
    ensures TrimEnd(rest + after) == rest
  {
    if after == [] {
      assert rest + after == rest;
    } else {
      var s := rest + after;
      assert after[|after| - 1] in after && s[..|s| - 1] == rest + after[..|after| - 1];
      EndStripped(rest, after[..|after| - 1]);
    }
  }

  /** `str::parse::<i64>` on digits: it fails only on overflow. */
  function ParseI64(s: string): Option<int>
    requires s != [] && AllDigits(s)
  {
    if Digits(s) <= I64_MAX then Some(Digits(s)) else None
  }

  function CheckedI64(x: int): Option<int> {
    if I64_MIN <= x <= I64_MAX then Some(x) else None
  }

  lemma KnownPower(m: nat, n: nat, x: nat, y: nat)
    requires Pow10(m) == x && Pow10(n) == y
    ensures Pow10(m + n) == x * y
  {
    Pow10Adds(m, n);
  }

  lemma PowerFits(k: nat)
    ensures Pow10(k) <= I64_MAX <==> k <= 18
  {
    assert Pow10(6) == 1_000_000;
    KnownPower(6, 6, 1_000_000, 1_000_000);
    KnownPower(6, 12, 1_000_000, 1_000_000_000_000);
    KnownPower(1, 18, 10, 1_000_000_000_000_000_000);
    if k <= 18 {
      Pow10Monotone(k, 18);
    } else {
      Pow10Monotone(19, k);
    }
  }

  /** The value of a decimal at a scale, or None where it is malformed or does not fit. */
  function Scaled(s: string, scale: nat): Option<int> {
    if IsDecimal(s) && scale <= 18 && FloorScaled(s, scale) <= I64_MAX then Some(FloorScaled(s, scale)) else None
  }

  /** Parsing succeeds exactly on well-formed decimals whose scaled floor fits an `i64` at a scale of
      at most 18, and returns that floor. */
  method ParseScaled(raw: string, scale: nat) returns (r: Option<int>)
    requires scale < 256
    ensures r == Scaled(Trim(raw), scale)
  {
    var s := Trim(raw);
    if s == [] {
      return None;
    }
    if s[0] == '-' {
      assert IntPart(s) != [] ==> IntPart(s)[0] == '-';
      return None;
    }
    var intPart, fracPart := IntPart(s), FracPart(s);
    if intPart == [] || !AllDigits(intPart) || !AllDigits(fracPart) {
      return None;
    }
    ghost var floor := FloorScaled(s, scale);
    FloorByDigits(s, scale);
    PowerFits(scale);
    PartsBelow(Digits(intPart), Pow10(scale), Digits(FracAt(fracPart, scale)), floor);
    var intVal := ParseI64(intPart);
    if intVal.None? {
      return None;
    }
    var fracVal := ParseFraction(fracPart, scale);
    if fracVal.None? {
      return None;
    }
    var multiplier := CheckedI64(Pow10(scale));
    if multiplier.None? {
      return None;
    }
    var product := CheckedI64(intVal.value * multiplier.value);
    if product.None? {
      return None;
    }
    return CheckedI64(product.value + fracVal.value);
  }

  /** No part of a sum of naturals exceeds the whole. */
  lemma PartsBelow(i: nat, p: nat, f: nat, whole: int)
    requires p > 0 && whole == i * p + f
    ensures i <= whole && i * p <= whole && f <= whole && 0 <= i * p
  {
    MulMonotone(1, p, i);
    MulMonotone(0, i, p);
  }

  /** The first `scale` fractional digits, padded with zeros where there are fewer. */
  method ParseFraction(frac: string, scale: nat) returns (r: Option<int>)
    requires AllDigits(frac)
    ensures r.Some? ==> r.value == Digits(FracAt(frac, scale))
    ensures r.None? ==> Digits(FracAt(frac, scale)) > I64_MAX
  {
    if frac == [] || scale == 0 {
      ZerosValue(FracAt(frac, scale));
      return Some(0);
    } else if |frac| <= scale {
      var padded := frac;
      for i := |frac| to scale
        invariant padded == frac + Zeros(i - |frac|)
      {
        padded := padded + ['0'];
      }
      return ParseI64(padded);
    } else {
      return ParseI64(frac[..scale]);
    }
  }

  // ---- Scales --------------------------------------------------------------------------------

  /** Decimals after the point, trailing zeros dropped, at most 255. */
  function CountDecimalsTrimmed(value: string): nat {
    match FindDot(value)
    case None => 0
    case Some(dot) =>
      var trimmed := TrimEndZeros(value);
      if trimmed != [] && trimmed[|trimmed| - 1] == '.' then 0
      else Min(|trimmed| - dot - 1, 255)
  }

  /** The count is the number of significant decimals. */
  lemma CountIsSignificant(s: string)
    requires IsDecimal(s)
    ensures CountDecimalsTrimmed(s) == Min(SignificantDecimals(s), 255)
  {
    if FindDot(s).Some? {
      var dot := FindDot(s).value;
      TrimAfter(s[..dot + 1], s[dot + 1..]);
      assert s == s[..dot + 1] + s[dot + 1..];
    }
  }

  /** Trimming zeros off the end does not reach past a character that is not a zero. */
  lemma {:induction false} TrimAfter(head: string, tail: string)
    requires head != [] && head[|head| - 1] != '0'
    ensures TrimEndZeros(head + tail) == head + TrimEndZeros(tail)
  {
    var s := head + tail;
    if tail == [] {
      assert s == head;
    } else if tail[|tail| - 1] == '0' {
      assert s[..|s| - 1] == head + tail[..|tail| - 1];
      TrimAfter(head, tail[..|tail| - 1]);
    }
  }

  /** The count is the least scale at which parsing loses nothing (values of up to 255 significant
      decimals; the count is a `u8`). */
  lemma CountIsLeastExactScale(s: string, k: nat)
    requires IsDecimal(s) && SignificantDecimals(s) <= 255
    ensures CountDecimalsTrimmed(s) <= k <==> FloorScaled(s, k) * Pow10(Decimals(s)) == Numerator(s) * Pow10(k)
  {
    CountIsSignificant(s);
    SignificantIsLeast(s, k);
    DivisionIsExact(Numerator(s) * Pow10(k), Pow10(Decimals(s)));
  }

  lemma DivisionIsExact(a: nat, d: nat)
    requires d > 0
    ensures a / d * d == a <==> a % d == 0
  {
  }

  // ---- Products ------------------------------------------------------------------------------

  function RemoveDots(s: string): string {
    if s == [] then [] else (if s[0] == '.' then [] else [s[0]]) + RemoveDots(s[1..])
  }

  /** `parse::<i128>().unwrap_or(1)`, sign included. */
  function ParseI128Or1(s: string): int {
    var negative := s != [] && s[0] == '-';
    var digits := if s != [] && (s[0] == '-' || s[0] == '+') then s[1..] else s;
    if digits == [] || !AllDigits(digits) then 1
    else if negative then if Digits(digits) <= I128_MAX + 1 then 0 - Digits(digits) else 1
    else if Digits(digits) <= I128_MAX then Digits(digits) else 1
  }

  function NatStr(n: nat): (s: string)
    ensures s != [] && AllDigits(s) && (s == "0" || s[0] != '0')
  {
    var last := ('0' as int + n % 10) as char;
    if n < 10 then [last] else NatStr(n / 10) + [last]
  }

  function IntStr(n: int): string {
    if n < 0 then "-" + NatStr(-n) else NatStr(n)
  }

  /** `{:0>width$}` */
  function PadLeft(s: string, width: nat): string {
    if |s| < width then Zeros(width - |s|) + s else s
  }

  function Abs(x: int): nat {
    if x < 0 then -x else x
  }

  /** The product of the two mantissas, before it is cut to an `i128`. */
  function Mantissa(a: string, b: string): int {
    ParseI128Or1(RemoveDots(a)) * ParseI128Or1(RemoveDots(b))
  }

  /** The power of ten the product is divided by fits an `i128`. */
  predicate ScaleFits(a: string, b: string) {
    Decimals(a) + Decimals(b) <= 38
  }

  function MultiplyDecimalStrs(a: string, b: string): string
    requires ScaleFits(a, b)
  {
    DecimalStr(WrapI128(Mantissa(a, b)), Decimals(a) + Decimals(b))
  }

  /** `product / 10^decimals` as a string, without trailing zeros in the fraction. */
  function DecimalStr(product: int, decimals: nat): string {
    if decimals == 0 then IntStr(product)
    else JoinedStr(TruncDiv(product, Pow10(decimals)), Abs(product) % Pow10(decimals), decimals)
  }

  function JoinedStr(intPart: int, fracPart: nat, decimals: nat): string {
    if fracPart == 0 then IntStr(intPart)
    else IntStr(intPart) + "." + TrimEndZeros(PadLeft(NatStr(fracPart), decimals))
  }

  lemma {:induction false} NatStrValue(n: nat)
    ensures Digits(NatStr(n)) == n
  {
    var s := NatStr(n);
    if n >= 10 {
      NatStrValue(n / 10);
      assert s[..|s| - 1] == NatStr(n / 10);
    }
  }

  lemma {:induction false} NatStrLength(n: nat, k: nat)
    requires k >= 1 && n < Pow10(k)
    ensures |NatStr(n)| <= k
  {
    assert Pow10(1) == 10;
    if n >= 10 {
      assert n / 10 < Pow10(k - 1);
      NatStrLength(n / 10, k - 1);
    }
  }

  lemma {:induction false} DigitsHaveNoDot(s: string)
    requires AllDigits(s)
    ensures RemoveDots(s) == s && FindDot(s) == None
  {
    if s != [] {
      DigitsHaveNoDot(s[1..]);
      assert [s[0]] + s[1..] == s;
    }
  }

  lemma {:induction false} RemoveDotsConcat(a: string, b: string)
    ensures RemoveDots(a + b) == RemoveDots(a) + RemoveDots(b)
  {
    if a == [] {
      assert a + b == b;
    } else {
      assert (a + b)[1..] == a[1..] + b;
      RemoveDotsConcat(a[1..], b);
    }
  }

  /** Removing the point of a decimal leaves its digits. */
  lemma PointRemoved(s: string)
    requires IsDecimal(s)
    ensures RemoveDots(s) == IntPart(s) + FracPart(s)
    ensures RemoveDots(s) != [] && AllDigits(RemoveDots(s))
  {
    var i, f := IntPart(s), FracPart(s);
    DigitsHaveNoDot(i);
    if FindDot(s).Some? {
      assert s == i + (['.'] + f);
      DotRemoved(i, f);
    } else {
      assert i + f == s;
    }
  }

  lemma DotRemoved(i: string, f: string)
    requires AllDigits(i) && AllDigits(f)
    ensures RemoveDots(i + (['.'] + f)) == i + f
  {
    DigitsHaveNoDot(i);
    DigitsHaveNoDot(f);
    RemoveDotsConcat(i, ['.'] + f);
    assert (['.'] + f)[1..] == f && [] + f == f;
  }

  function ParsedMantissa(x: nat): nat {
    if x <= I128_MAX then x else 1
  }

  lemma UnsignedParse(s: string)
    requires s != [] && AllDigits(s)
    ensures ParseI128Or1(s) == ParsedMantissa(Digits(s))
    ensures Digits(s) <= I64_MAX ==> ParseI64Or1(s) == Digits(s)
  {
    assert IsDigit(s[0]);
  }

  /** On a decimal the mantissa is the numerator if that fits, and 1 otherwise. */
  lemma MantissaOfDecimal(s: string)
    requires IsDecimal(s)
    ensures ParseI128Or1(RemoveDots(s)) == ParsedMantissa(Numerator(s))
  {
    PointRemoved(s);
    UnsignedParse(RemoveDots(s));
  }

  /** A decimal written without needless zeros. */
  predicate Canonical(s: string) {
    && IsDecimal(s)
    && (IntPart(s) == "0" || IntPart(s)[0] != '0')
    && (FindDot(s).Some? ==> FracPart(s) != [] && FracPart(s)[|FracPart(s)| - 1] != '0')
  }

  /** A decimal assembled from its parts. */
  lemma Assembled(i: string, frac: string)
    requires AllDigits(i) && i != [] && AllDigits(frac)
    ensures var s := i + "." + frac;
            IsDecimal(s) && FindDot(s) == Some(|i|) && IntPart(s) == i && FracPart(s) == frac
  {
    var s := i + (['.'] + frac);
    assert i + "." + frac == s;
    DotAfterDigits(i, frac);
    assert s[..|i|] == i && s[|i| + 1..] == frac;
  }

  lemma {:induction false} DotAfterDigits(i: string, frac: string)
    requires AllDigits(i)
    ensures FindDot(i + (['.'] + frac)) == Some(|i|)
  {
    var s := i + (['.'] + frac);
    if i != [] {
      assert s[1..] == i[1..] + (['.'] + frac);
      DotAfterDigits(i[1..], frac);
    }
  }

  lemma WholeNumber(n: nat)
    ensures var s := NatStr(n);
            Canonical(s) && Numerator(s) == n && Decimals(s) == 0 && FindDot(s) == None
  {
    var s := NatStr(n);
    DigitsHaveNoDot(s);
    NatStrValue(n);
    assert s + [] == s;
  }

  function Shifted(n: int, k: nat): int {
    n * Pow10(k)
  }

  function Product(x: nat, y: nat): nat {
    MulMonotone(0, x, y);
    x * y
  }

  /** The string denotes `product / 10^decimals`. */
  predicate Denotes(r: string, product: nat, decimals: nat) {
    IsDecimal(r) && Shifted(Numerator(r), decimals) == Shifted(product, Decimals(r))
  }

  /** Neither mantissa nor their product leaves an `i128`, or the product is 0 anyway. */
  predicate ProductFits(x: nat, y: nat) {
    Product(x, y) == 0 || (x <= I128_MAX && y <= I128_MAX && Product(x, y) <= I128_MAX)
  }

  /** The product string denotes exactly the product of the two values, in canonical form, if and only if
      the mantissas and their product fit an `i128` (or the product is 0). */
  lemma MultiplyExact(a: string, b: string)
    requires IsDecimal(a) && IsDecimal(b) && ScaleFits(a, b)
    ensures Denotes(MultiplyDecimalStrs(a, b), Product(Numerator(a), Numerator(b)), Decimals(a) + Decimals(b))
            <==> ProductFits(Numerator(a), Numerator(b))
    ensures ProductFits(Numerator(a), Numerator(b)) ==> Canonical(MultiplyDecimalStrs(a, b))
  {
    MantissaOfDecimal(a);
    MantissaOfDecimal(b);
    WrittenProduct(a, b, Numerator(a), Numerator(b));
  }

  lemma WrittenProduct(a: string, b: string, x: nat, y: nat)
    requires ScaleFits(a, b)
    requires ParseI128Or1(RemoveDots(a)) == ParsedMantissa(x) && ParseI128Or1(RemoveDots(b)) == ParsedMantissa(y)
    ensures Denotes(MultiplyDecimalStrs(a, b), Product(x, y), Decimals(a) + Decimals(b)) <==> ProductFits(x, y)
    ensures ProductFits(x, y) ==> Canonical(MultiplyDecimalStrs(a, b))
  {
    MantissaProduct(a, b, ParsedMantissa(x), ParsedMantissa(y));
    ProductStr(x, y, WrapI128(Mantissa(a, b)), Decimals(a) + Decimals(b));
  }

  /** A one followed by zeros. */
  lemma OneAndZeros(s: string, k: nat)
    requires s == "1" + Zeros(k)
    ensures IsDecimal(s) && FindDot(s) == None && Decimals(s) == 0 && Numerator(s) == Pow10(k)
  {
    DigitsHaveNoDot(s);
    ZerosValue(Zeros(k));
    assert "1"[..0] == [];
    assert Digits("1") == 1;
    DigitsConcat("1", Zeros(k));
    assert s + [] == s;
  }

  /** Ten to the 20th times itself does not fit an `i128`: the product string denotes something else. */
  lemma WideProductIsWrong(a: string)
    requires a == "1" + Zeros(20)
    ensures IsDecimal(a) && ScaleFits(a, a)
    ensures !Denotes(MultiplyDecimalStrs(a, a), Pow10(40), 0)
  {
    OneAndZeros(a, 20);
    MultiplyExact(a, a);
    Pow10Adds(20, 20);
    TenToThe40();
  }

  lemma TenToThe40()
    ensures Pow10(40) > I128_MAX
  {
    assert Pow10(6) == 1_000_000;
    KnownPower(6, 6, 1_000_000, 1_000_000);
    KnownPower(6, 12, 1_000_000, 1_000_000_000_000);
    KnownPower(2, 18, 100, 1_000_000_000_000_000_000);
    KnownPower(20, 20, 100_000_000_000_000_000_000, 100_000_000_000_000_000_000);
  }

  lemma MantissaProduct(a: string, b: string, x: int, y: int)
    requires ParseI128Or1(RemoveDots(a)) == x && ParseI128Or1(RemoveDots(b)) == y
    ensures Mantissa(a, b) == x * y
  {
  }

  lemma ProductStr(x: nat, y: nat, p: int, decimals: nat)
    requires decimals <= 38 && p == WrapI128(ParsedMantissa(x) * ParsedMantissa(y))
    ensures Denotes(DecimalStr(p, decimals), Product(x, y), decimals) <==> ProductFits(x, y)
    ensures ProductFits(x, y) ==> Canonical(DecimalStr(p, decimals))
  {
    MulMonotone(0, x, y);
    WrappedProduct(x, y, ParsedMantissa(x), ParsedMantissa(y));
    StrOfWrapped(p, x * y, decimals);
  }

  lemma StrOfWrapped(p: int, product: nat, decimals: nat)
    requires decimals <= 38 && (p < 0 ==> product > I128_MAX)
    ensures Denotes(DecimalStr(p, decimals), product, decimals) <==> p == product
    ensures p >= 0 ==> Canonical(DecimalStr(p, decimals))
  {
    var r := DecimalStr(p, decimals);
    if p >= 0 {
      DecimalStrExact(p, decimals);
      SameProduct(r, p, product, decimals);
    } else {
      NegativeStr(p, decimals, r);
      PowerBelowI128(decimals);
      if IsDecimal(r) {
        SameProduct(r, -p, product, decimals);
      }
    }
  }

  lemma PowerBelowI128(decimals: nat)
    requires decimals <= 38
    ensures Pow10(decimals) <= I128_MAX
  {
    assert Pow10(6) == 1_000_000;
    KnownPower(6, 6, 1_000_000, 1_000_000);
    KnownPower(6, 12, 1_000_000, 1_000_000_000_000);
    KnownPower(1, 18, 10, 1_000_000_000_000_000_000);
    KnownPower(19, 19, 10_000_000_000_000_000_000, 10_000_000_000_000_000_000);
    Pow10Monotone(decimals, 38);
  }

  /** The wrapped product is right exactly when it fits; when it is negative, the true one is out of range. */
  lemma WrappedProduct(x: nat, y: nat, x': nat, y': nat)
    requires x' == ParsedMantissa(x) && y' == ParsedMantissa(y)
    ensures var p := WrapI128(x' * y');
            && (p == x * y <==> x * y == 0 || (x <= I128_MAX && y <= I128_MAX && x * y <= I128_MAX))
            && (p < 0 ==> x * y > I128_MAX)
  {
    MulMonotone(0, x, y);
    if x <= I128_MAX && y <= I128_MAX {
      WrapsTo(x * y);
    } else if x <= I128_MAX {
      WrapsTo(x);
      LargerFactor(x, y);
    } else if y <= I128_MAX {
      WrapsTo(y);
      LargerFactor(y, x);
    } else {
      WrapsTo(1);
      MulMonotone(2, x, y);
    }
  }

  lemma WrapsTo(x: nat)
    ensures WrapI128(x) == x <==> x <= I128_MAX
    ensures WrapI128(x) < 0 ==> x > I128_MAX
  {
  }

  lemma LargerFactor(x: nat, y: nat)
    requires y > 1
    ensures x * y == x <==> x == 0
    ensures x * y == y * x
  {
    MulMonotone(2, y, x);
  }

  lemma SameProduct(r: string, p: nat, product: nat, decimals: nat)
    requires Denotes(r, p, decimals)
    ensures Denotes(r, product, decimals) <==> p == product
  {
    if Denotes(r, product, decimals) {
      CancelRight(p, product, Pow10(Decimals(r)));
    }
  }

  /** A negative product is written with a sign, or as the decimal of its absolute value. */
  lemma NegativeStr(product: int, decimals: nat, r: string)
    requires product < 0 && r == DecimalStr(product, decimals)
    ensures IsDecimal(r) ==> -product < Pow10(decimals) && Denotes(r, -product, decimals)
  {
    if decimals == 0 {
      Signed(r, product);
    } else {
      DivAtLeast(-product, Pow10(decimals), 0);
      NegativeParts(r, -product, Pow10(decimals), -product / Pow10(decimals), decimals);
    }
  }

  lemma NegativeParts(r: string, p: nat, unit: nat, i: int, decimals: nat)
    requires p > 0 && decimals > 0 && unit == Pow10(decimals) && i == p / unit
    requires r == JoinedStr(0 - i, p % unit, decimals)
    ensures IsDecimal(r) ==> p < unit && Denotes(r, p, decimals)
  {
    if p < unit {
      DivUnique(p, unit, 0, p);
      JoinedExact(0, p, p, decimals);
    } else {
      DivAtLeast(p, unit, 1);
      Signed(r, 0 - i);
    }
  }

  lemma Signed(r: string, i: int)
    requires i < 0 && IntStr(i) <= r
    ensures !IsDecimal(r)
  {
    assert r[0] == IntStr(i)[0] == '-';
    assert IntPart(r) != [] ==> IntPart(r)[0] == '-';
  }

  lemma DecimalStrExact(product: int, decimals: nat)
    requires product >= 0
    ensures var r := DecimalStr(product, decimals);
            Canonical(r) && Denotes(r, product, decimals)
  {
    if decimals == 0 {
      WholeNumber(product);
    } else {
      DivAtLeast(product, Pow10(decimals), 0);
      JoinedExact(product / Pow10(decimals), product % Pow10(decimals), product, decimals);
    }
  }

  lemma JoinedExact(i: nat, f: nat, product: nat, decimals: nat)
    requires decimals >= 1 && f < Pow10(decimals) && product == i * Pow10(decimals) + f
    ensures var r := JoinedStr(i, f, decimals);
            Canonical(r) && Denotes(r, product, decimals)
  {
    if f == 0 {
      WholeNumber(i);
    } else {
      QuotedFraction(i, f, product, decimals);
    }
  }

  lemma QuotedFraction(i: nat, f: nat, product: nat, decimals: nat)
    requires decimals >= 1 && 0 < f < Pow10(decimals) && product == i * Pow10(decimals) + f
    ensures var r := NatStr(i) + "." + TrimEndZeros(PadLeft(NatStr(f), decimals));
            Canonical(r) && Denotes(r, product, decimals)
  {
    var padded := PadLeft(NatStr(f), decimals);
    PaddedValue(f, decimals);
    NatStrValue(i);
    DigitsConcat(NatStr(i), padded);
    FractionExact(i, padded, decimals, product);
  }

  /** Dropping the trailing zeros of the fraction does not change the value. */
  lemma FractionExact(i: nat, padded: string, decimals: nat, product: nat)
    requires AllDigits(padded) && |padded| == decimals && Digits(padded) != 0
    requires AllDigits(NatStr(i) + padded) && Digits(NatStr(i) + padded) == product
    ensures var r := NatStr(i) + "." + TrimEndZeros(padded);
            Canonical(r) && Denotes(r, product, decimals)
  {
    var t := TrimEndZeros(padded);
    if t == [] {
      ZerosValue(padded);
    }
    Assembled(NatStr(i), t);
    DigitsTrimmed(NatStr(i), padded);
    Rescale(Digits(NatStr(i) + t), product, decimals, |t|);
  }

  lemma Rescale(n: nat, product: nat, decimals: nat, kept: nat)
    requires kept <= decimals && product == n * Pow10(decimals - kept)
    ensures n * Pow10(decimals) == product * Pow10(kept)
  {
    Pow10Adds(decimals - kept, kept);
    Assoc(n, Pow10(decimals - kept), Pow10(kept));
  }

  lemma PaddedValue(f: nat, decimals: nat)
    requires decimals >= 1 && f < Pow10(decimals)
    ensures var padded := PadLeft(NatStr(f), decimals);
            AllDigits(padded) && |padded| == decimals && Digits(padded) == f
  {
    NatStrLength(f, decimals);
    NatStrValue(f);
    var z := Zeros(decimals - |NatStr(f)|);
    ZerosValue(z);
    DigitsConcat(z, NatStr(f));
    if |NatStr(f)| == decimals {
      assert PadLeft(NatStr(f), decimals) == NatStr(f);
    }
  }

  // ---- Fractions -------------------------------------------------------------------------------

  /** Euclid's algorithm. */
  function Gcd(a: nat, b: nat): nat
    decreases b
  {
    if b == 0 then a else Gcd(b, a % b)
  }

  /** `i64::abs` as compiled for release: the one value without a counterpart stays as it is. */
  function WrappingAbs(x: int): int {
    if x == I64_MIN then x else Abs(x)
  }

  /** The loop finds the greatest common divisor up to its sign, which can come out negative only if an
      argument is the least `i64`, whose absolute value does not exist. */
  method GcdLoop(a0: int, b0: int) returns (g: int)
    requires I64_MIN <= a0 <= I64_MAX && I64_MIN <= b0 <= I64_MAX
    ensures Abs(g) == Gcd(Abs(a0), Abs(b0))
    ensures a0 != I64_MIN && b0 != I64_MIN ==> g >= 0
  {
    var a, b := WrappingAbs(a0), WrappingAbs(b0);
    while b != 0
      invariant Gcd(Abs(a), Abs(b)) == Gcd(Abs(a0), Abs(b0))
      invariant a0 != I64_MIN && b0 != I64_MIN ==> a >= 0 && b >= 0
      decreases Abs(b)
    {
      var t := b;
      b := TruncMod(a, b);
      a := t;
    }
    return a;
  }

  ghost predicate Divides(d: nat, n: nat) {
    exists q: nat :: n == q * d
  }

  lemma {:induction false} GcdDividesBoth(a: nat, b: nat)
    ensures a + b > 0 ==> Gcd(a, b) > 0
    ensures Divides(Gcd(a, b), a) && Divides(Gcd(a, b), b)
    decreases b
  {
    if b == 0 {
      assert a == 1 * Gcd(a, b) && b == 0 * Gcd(a, b);
    } else {
      GcdDividesBoth(b, a % b);
      var g := Gcd(b, a % b);
      var x: nat :| b == x * g;
      var y: nat :| a % b == y * g;
      DividendDivides(a, b, g, x, y);
    }
  }

  lemma DividendDivides(a: nat, b: nat, g: nat, x: nat, y: nat)
    requires b > 0 && b == x * g && a % b == y * g
    ensures Divides(g, a)
  {
    var q := a / b;
    MulMonotone(0, q, x);
    Expand(q, x, y, g);
    assert a == (q * x + y) * g;
  }

  lemma {:induction false} GcdIsGreatest(a: nat, b: nat, c: nat)
    requires Divides(c, a) && Divides(c, b) && c > 0
    ensures Divides(c, Gcd(a, b))
    decreases b
  {
    if b != 0 {
      var x: nat :| a == x * c;
      var y: nat :| b == y * c;
      RemainderDivides(a, b, c, x, y);
      GcdIsGreatest(b, a % b, c);
    }
  }

  lemma RemainderDivides(a: nat, b: nat, c: nat, x: nat, y: nat)
    requires b > 0 && c > 0 && a == x * c && b == y * c
    ensures Divides(c, a % b)
  {
    var q := a / b;
    Assoc(q, y, c);
    assert a % b == (x - q * y) * c by {
      Expand(-1, q * y, x, c);
    }
    if x - q * y < 0 {
      MulMonotone(x - q * y, -1, c);
      assert false;
    }
  }

  /** `ctVal` as a fraction in lowest terms; a multiplier that does not parse counts as 1. */
  function CtValFraction(ctVal: string): (int, int)
    requires Decimals(ctVal) <= 18
  {
    Reduced(ParseI64Or1(RemoveDots(ctVal)), Pow10(Decimals(ctVal)))
  }

  function Reduced(num: int, denom: nat): (int, int)
    requires denom > 0
  {
    var g := Gcd(Abs(num), denom);
    GcdDividesBoth(Abs(num), denom);
    (TruncDiv(num, g), denom / g)
  }

  function ParseI64Or1(s: string): int {
    var negative := s != [] && s[0] == '-';
    var digits := if s != [] && (s[0] == '-' || s[0] == '+') then s[1..] else s;
    if digits == [] || !AllDigits(digits) then 1
    else if negative then if Digits(digits) <= I64_MAX + 1 then 0 - Digits(digits) else 1
    else if Digits(digits) <= I64_MAX then Digits(digits) else 1
  }

  /** The fraction equals the value of the string. */
  lemma FractionOfDecimal(ctVal: string)
    requires IsDecimal(ctVal) && Decimals(ctVal) <= 18 && Numerator(ctVal) <= I64_MAX
    ensures var (n, d) := CtValFraction(ctVal);
            n >= 0 && d > 0 && n * Pow10(Decimals(ctVal)) == Numerator(ctVal) * d
  {
    var g, n, d := FractionParts(ctVal);
    CrossMultiply(n, d, g);
  }

  lemma FractionParts(ctVal: string) returns (g: nat, n: nat, d: nat)
    requires IsDecimal(ctVal) && Decimals(ctVal) <= 18 && Numerator(ctVal) <= I64_MAX
    ensures CtValFraction(ctVal) == (n, d)
    ensures g == Gcd(Numerator(ctVal), Pow10(Decimals(ctVal))) > 0 && d > 0
    ensures Numerator(ctVal) == n * g && Pow10(Decimals(ctVal)) == d * g
  {
    PointRemoved(ctVal);
    UnsignedParse(RemoveDots(ctVal));
    g, n, d := ReducedParts(Numerator(ctVal), Pow10(Decimals(ctVal)));
  }

  lemma ReducedParts(num: nat, denom: nat) returns (g: nat, n: nat, d: nat)
    requires denom > 0
    ensures Reduced(num, denom) == (n, d)
    ensures g == Gcd(num, denom) > 0 && d > 0 && num == n * g && denom == d * g
  {
    g := Gcd(num, denom);
    GcdDividesBoth(num, denom);
    n :| num == n * g;
    d :| denom == d * g;
    DivUnique(num, g, n, 0);
    DivUnique(denom, g, d, 0);
  }

  /** The fraction is in lowest terms. */
  lemma FractionReduced(ctVal: string, c: nat)
    requires IsDecimal(ctVal) && Decimals(ctVal) <= 18 && Numerator(ctVal) <= I64_MAX
    requires c > 0
    requires var (n, d) := CtValFraction(ctVal); n >= 0 && d > 0 && Divides(c, n) && Divides(c, d)
    ensures c == 1
  {
    var g, n, d := FractionParts(ctVal);
    LowestTerms(Numerator(ctVal), Pow10(Decimals(ctVal)), n, d, c);
  }

  lemma CrossMultiply(n: nat, d: nat, g: nat)
    ensures n * (d * g) == (n * g) * d
  {
  }

  lemma LowestTerms(num: nat, denom: nat, n: nat, d: nat, c: nat)
    requires denom > 0 && num == n * Gcd(num, denom) && denom == d * Gcd(num, denom)
    requires c > 0 && Divides(c, n) && Divides(c, d)
    ensures c == 1
  {
    var g := Gcd(num, denom);
    GcdDividesBoth(num, denom);
    var x: nat :| n == x * c;
    var y: nat :| d == y * c;
    Assoc(x, c, g);
    Assoc(y, c, g);
    MulMonotone(1, c, g);
    assert Divides(c * g, num) && Divides(c * g, denom);
    GcdIsGreatest(num, denom, c * g);
    var z: nat :| g == z * (c * g);
    OneFactor(z, c, g);
  }

  lemma OneFactor(z: nat, c: nat, g: nat)
    requires g > 0 && c > 0 && g == z * (c * g)
    ensures c == 1
  {
    Assoc(z, c, g);
    CancelRight(1, z * c, g);
    if z >= 1 && c >= 2 {
      MulMonotone(1, z, c);
    }
  }
}
