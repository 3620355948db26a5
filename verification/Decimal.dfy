/** Decimal strings: what they denote, and the laws of their digits. */
module Decimal {
  import opened Common

  function Pow10(k: nat): (p: nat)
    ensures p > 0
  {
    if k == 0 then 1 else 10 * Pow10(k - 1)
  }

  lemma {:induction false} Pow10Adds(m: nat, n: nat)
    ensures Pow10(m + n) == Pow10(m) * Pow10(n)
  {
    if m != 0 {
      Pow10Adds(m - 1, n);
      Assoc(10, Pow10(m - 1), Pow10(n));
    }
  }

  lemma Assoc(x: int, y: int, z: int)
    ensures (x * y) * z == x * (y * z)
  {
  }

  lemma {:induction false} Pow10Monotone(m: nat, n: nat)
    requires m <= n
    ensures Pow10(m) <= Pow10(n)
  {
    Pow10Adds(m, n - m);
    MulMonotone(1, Pow10(n - m), Pow10(m));
  }

  predicate IsDigit(c: char) {
    '0' <= c <= '9'
  }

  predicate AllDigits(s: string) {
    forall i :: 0 <= i < |s| ==> IsDigit(s[i])
  }

  function DigitValue(c: char): nat
    requires IsDigit(c)
  {
    c as int - '0' as int
  }

  /** The number a string of digits denotes; 0 for the empty string. */
  function Digits(s: string): nat
    requires AllDigits(s)
  {
    if s == [] then 0 else 10 * Digits(s[..|s| - 1]) + DigitValue(s[|s| - 1])
  }

  lemma {:induction false} DigitsConcat(a: string, b: string)
    requires AllDigits(a) && AllDigits(b)
    ensures AllDigits(a + b)
    ensures Digits(a + b) == Digits(a) * Pow10(|b|) + Digits(b)
  {
    if b == [] {
      assert a + b == a;
    } else {
      var b' := b[..|b| - 1];
      DigitsConcat(a, b');
      assert (a + b)[..|a + b| - 1] == a + b';
      Shift(Digits(a), Pow10(|b'|), Digits(b'), DigitValue(b[|b| - 1]));
    }
  }

  lemma Shift(a: int, p: int, b: int, d: int)
    ensures 10 * (a * p + b) + d == a * (10 * p) + (10 * b + d)
  {
  }

  lemma {:induction false} DigitsBelow(s: string)
    requires AllDigits(s)
    ensures Digits(s) < Pow10(|s|)
  {
    if s != [] {
      DigitsBelow(s[..|s| - 1]);
    }
  }

  function Zeros(n: nat): (z: string)
    ensures |z| == n && AllDigits(z) && forall i :: 0 <= i < n ==> z[i] == '0'
  {
    if n == 0 then [] else Zeros(n - 1) + ['0']
  }

  lemma {:induction false} ZerosValue(z: string)
    requires forall i :: 0 <= i < |z| ==> z[i] == '0'
    ensures AllDigits(z) && Digits(z) == 0
  {
    if z != [] {
      ZerosValue(z[..|z| - 1]);
    }
  }

  // ---- Decimal strings -----------------------------------------------------------------------

  /** The first occurrence of the decimal point. */
  function FindDot(s: string): (d: Option<nat>)
    ensures d.Some? ==> d.value < |s| && s[d.value] == '.' && forall i :: 0 <= i < d.value ==> s[i] != '.'
    ensures d.None? ==> forall i :: 0 <= i < |s| ==> s[i] != '.'
  {
    if s == [] then None
    else if s[0] == '.' then Some(0)
    else
      match FindDot(s[1..])
      case None => None
      case Some(i) => Some(i + 1)
  }

  /** What `splitn(2, '.')` returns: the part before the first point and everything after it. */
  function IntPart(s: string): string {
    match FindDot(s) case None => s case Some(d) => s[..d]
  }

  function FracPart(s: string): string {
    match FindDot(s) case None => [] case Some(d) => s[d + 1..]
  }

  /** Digits, optionally followed by a point and more digits. */
  predicate IsDecimal(s: string) {
    IntPart(s) != [] && AllDigits(IntPart(s)) && AllDigits(FracPart(s))
  }

  /** A decimal denotes `Numerator(s) / 10^Decimals(s)`. */
  function Numerator(s: string): nat
    requires IsDecimal(s)
  {
    DigitsConcat(IntPart(s), FracPart(s));
    Digits(IntPart(s) + FracPart(s))
  }

  function Decimals(s: string): nat {
    |FracPart(s)|
  }

  /** The largest integer not above `value(s) * 10^k`. */
  function FloorScaled(s: string, k: nat): nat
    requires IsDecimal(s)
  {
    DivAtLeast(Numerator(s) * Pow10(k), Pow10(Decimals(s)), 0);
    Numerator(s) * Pow10(k) / Pow10(Decimals(s))
  }

  /** `value(s) * 10^k` is an integer. */
  predicate ExactAt(s: string, k: nat)
    requires IsDecimal(s)
  {
    Numerator(s) * Pow10(k) % Pow10(Decimals(s)) == 0
  }

  /** A fraction cut or zero-padded to exactly `k` digits. */
  function FracAt(frac: string, k: nat): (r: string)
    requires AllDigits(frac)
    ensures |r| == k && AllDigits(r)
  {
    if |frac| <= k then frac + Zeros(k - |frac|) else frac[..k]
  }

  /** The floor at scale `k` is the integer part followed by the first `k` fractional digits. */
  lemma FloorByDigits(s: string, k: nat)
    requires IsDecimal(s)
    ensures FloorScaled(s, k) == Digits(IntPart(s)) * Pow10(k) + Digits(FracAt(FracPart(s), k))
  {
    var int_, frac := IntPart(s), FracPart(s);
    DigitsConcat(int_, frac);
    if |frac| <= k {
      PaddedFloor(int_, frac, k);
    } else {
      CutFloor(int_, frac, k);
    }
  }

  lemma PaddedFloor(int_: string, frac: string, k: nat)
    requires AllDigits(int_) && AllDigits(frac) && |frac| <= k
    ensures AllDigits(int_ + frac)
    ensures Digits(int_ + frac) * Pow10(k) / Pow10(|frac|) == Digits(int_) * Pow10(k) + Digits(FracAt(frac, k))
  {
    var n, f := Digits(int_ + frac), |frac|;
    var z := Zeros(k - f);
    DigitsConcat(int_, frac);
    ZerosValue(z);
    DigitsConcat(frac, z);
    Pow10Adds(k - f, f);
    Assoc(n, Pow10(k - f), Pow10(f));
    DivUnique(n * Pow10(k), Pow10(f), n * Pow10(k - f), 0);
    Pow10Adds(f, k - f);
    Expand(Digits(int_), Pow10(f), Digits(frac), Pow10(k - f));
  }

  lemma CutFloor(int_: string, frac: string, k: nat)
    requires AllDigits(int_) && AllDigits(frac) && k < |frac|
    ensures AllDigits(int_ + frac)
    ensures Digits(int_ + frac) * Pow10(k) / Pow10(|frac|) == Digits(int_) * Pow10(k) + Digits(FracAt(frac, k))
  {
    var head, tail := frac[..k], frac[k..];
    var q := Digits(int_) * Pow10(k) + Digits(head);
    assert int_ + frac == (int_ + head) + tail;
    DigitsConcat(int_, head);
    DigitsConcat(int_ + head, tail);
    DigitsBelow(tail);
    Pow10Adds(|tail|, k);
    ScaleUp(q, Pow10(|tail|), Digits(tail), Pow10(k));
  }

  /** Dividing by `t * p` what was multiplied by `p` leaves the quotient by `t`. */
  lemma ScaleUp(q: nat, t: nat, r: nat, p: nat)
    requires r < t && p > 0
    ensures t * p > 0 && (q * t + r) * p / (t * p) == q
  {
    Expand(q, t, r, p);
    MulMonotone(1, t, p);
    MulMonotone(r + 1, t, p);
    MulMonotone(0, r, p);
    Expand(1, r, 1, p);
    DivUnique((q * t + r) * p, t * p, q, r * p);
  }

  // ---- Significant decimals --------------------------------------------------------------------

  function TrimEndZeros(s: string): (t: string)
    ensures t <= s
    ensures t == [] || t[|t| - 1] != '0'
    ensures forall i :: |t| <= i < |s| ==> s[i] == '0'
  {
    if s != [] && s[|s| - 1] == '0' then TrimEndZeros(s[..|s| - 1]) else s
  }

  /** How many fractional digits remain when trailing zeros are dropped. */
  function SignificantDecimals(s: string): nat {
    |TrimEndZeros(FracPart(s))|
  }

  lemma LastDigit(s: string)
    requires AllDigits(s) && s != []
    ensures Digits(s) % 10 == DigitValue(s[|s| - 1])
  {
  }

  lemma DigitsTrimmed(int_: string, frac: string)
    requires AllDigits(int_) && AllDigits(frac)
    ensures var t := TrimEndZeros(frac);
            && AllDigits(int_ + t) && AllDigits(int_ + frac)
            && Digits(int_ + frac) == Digits(int_ + t) * Pow10(|frac| - |t|)
            && (t != [] ==> Digits(int_ + t) % 10 != 0)
  {
    var t := TrimEndZeros(frac);
    var kept, z := int_ + t, frac[|t|..];
    assert int_ + frac == kept + z && AllDigits(kept);
    ZerosValue(z);
    DigitsConcat(kept, z);
    if t != [] {
      LastDigit(kept);
      assert kept[|kept| - 1] == t[|t| - 1];
    }
  }

  lemma EnoughScale(v: nat, f: nat, m: nat, k: nat)
    requires m <= f && m <= k
    ensures (v * Pow10(f - m)) * Pow10(k) % Pow10(f) == 0
  {
    Assoc(v, Pow10(f - m), Pow10(k));
    Pow10Adds(f - m, k);
    Pow10Adds(k - m, f);
    Assoc(v, Pow10(k - m), Pow10(f));
    DivUnique((v * Pow10(f - m)) * Pow10(k), Pow10(f), v * Pow10(k - m), 0);
  }

  lemma TooSmallScale(v: nat, f: nat, m: nat, k: nat)
    requires k < m <= f && (v * Pow10(f - m)) * Pow10(k) % Pow10(f) == 0
    ensures v % 10 == 0
  {
    var whole := (v * Pow10(f - m)) * Pow10(k);
    Quotient(whole, Pow10(f));
    WholeAt(v, f, m, k, whole);
    Pow10Adds(m - k, f - m + k);
    EndsInZero(v, whole / Pow10(f), Pow10(m - k - 1), Pow10(f - m + k), Pow10(f));
  }

  lemma WholeAt(v: nat, f: nat, m: nat, k: nat, whole: int)
    requires m <= f && whole == (v * Pow10(f - m)) * Pow10(k)
    ensures whole == v * Pow10(f - m + k)
  {
    Assoc(v, Pow10(f - m), Pow10(k));
    Pow10Adds(f - m, k);
  }

  lemma Quotient(a: int, d: int)
    requires d > 0 && a % d == 0
    ensures a == (a / d) * d
  {
  }

  lemma EndsInZero(v: nat, q: int, p: nat, unit: nat, whole: nat)
    requires unit > 0 && v * unit == q * whole && whole == (10 * p) * unit
    ensures v % 10 == 0
  {
    Assoc(q, 10 * p, unit);
    CancelRight(v, q * (10 * p), unit);
    MultipleOfTen(q * p, v, q, p);
  }

  /** The significant decimals are the least scale at which the value is an integer. */
  lemma SignificantIsLeast(s: string, k: nat)
    requires IsDecimal(s)
    ensures ExactAt(s, k) <==> SignificantDecimals(s) <= k
  {
    var int_, frac := IntPart(s), FracPart(s);
    var t := TrimEndZeros(frac);
    DigitsTrimmed(int_, frac);
    var v := Digits(int_ + t);
    assert Numerator(s) == v * Pow10(|frac| - |t|);
    if |t| <= k {
      EnoughScale(v, |frac|, |t|, k);
    } else if ExactAt(s, k) {
      TooSmallScale(v, |frac|, |t|, k);
      assert false;
    }
  }

  lemma CancelRight(x: int, y: int, c: int)
    requires c > 0 && x * c == y * c
    ensures x == y
  {
    if x < y {
      MulMonotone(x + 1, y, c);
      Expand(1, x, 1, c);
      assert false;
    }
    if y < x {
      MulMonotone(y + 1, x, c);
      Expand(1, y, 1, c);
      assert false;
    }
  }

  lemma MultipleOfTen(x: int, v: nat, q: int, p: int)
    requires x == q * p && v == q * (10 * p)
    ensures v % 10 == 0
  {
    assert v == 10 * x;
  }
}
