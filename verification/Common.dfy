/** Shared vocabulary: optional values, machine-integer bounds and Rust's integer operators. */
module Common {

  datatype Option<+T> = None | Some(value: T) {
    function GetOr(default: T): T {
      if Some? then value else default
    }
  }

  const I64_MIN: int := -0x8000_0000_0000_0000
  const I64_MAX: int := 0x7FFF_FFFF_FFFF_FFFF
  const U32_MAX: int := 0xFFFF_FFFF
  const U64_MAX: int := 0xFFFF_FFFF_FFFF_FFFF
  const I128_MAX: int := 0x7FFF_FFFF_FFFF_FFFF_FFFF_FFFF_FFFF_FFFF

  type byte = x: int | 0 <= x < 256

  function Min(a: int, b: int): int {
    if a < b then a else b
  }

  function Max(a: int, b: int): int {
    if a < b then b else a
  }

  function Clamp(x: int, lo: int, hi: int): int {
    if x < lo then lo else if x > hi then hi else x
  }

  /** Rust's `/` on signed integers: truncation toward zero (Dafny's `/` is Euclidean). */
  function TruncDiv(a: int, b: int): int
    requires b > 0
  {
    if a >= 0 then a / b else -((-a) / b)
  }

  /** Rust's `%`: the remainder has the sign of the dividend. */
  function TruncMod(a: int, b: int): int
    requires b != 0
  {
    if a >= 0 then a % b else -((-a) % b)
  }

  /** Signed arithmetic as compiled for release: a result beyond the type, which ends at `max`, wraps around. */
  function Wrapped(x: int, max: nat): (r: int)
    ensures 0 - max - 1 <= r <= max
    ensures x > max ==> r <= x - 2 * (max + 1)
    decreases if x < 0 then -2 * x - 1 else 2 * x + 1
  {
    if x > max then Wrapped(x - 2 * (max + 1), max)
    else if x < 0 - max - 1 then Wrapped(x + 2 * (max + 1), max)
    else x
  }

  /** The result differs from the exact value by whole turns. */
  lemma {:induction false} WrappedByTurns(x: int, max: nat) returns (turns: int)
    ensures x == Wrapped(x, max) + turns * (2 * (max + 1))
    decreases if x < 0 then -2 * x - 1 else 2 * x + 1
  {
    var turn := 2 * (max + 1);
    turns := 0;
    if x > max {
      var t := WrappedByTurns(x - turn, max);
      turns := t + 1;
      Expand(1, t, 1, turn);
    } else if x < 0 - max - 1 {
      var t := WrappedByTurns(x + turn, max);
      turns := t - 1;
      Expand(1, t, -1, turn);
    }
  }

  function WrapI64(x: int): int {
    Wrapped(x, I64_MAX)
  }

  function WrapI128(x: int): int {
    Wrapped(x, I128_MAX)
  }

  lemma MulMonotone(x: int, y: int, z: int)
    requires x <= y && 0 <= z
    ensures x * z <= y * z
  {
  }

  /** A quotient is determined by its multiple and remainder. */
  lemma DivUnique(a: int, d: int, q: int, r: int)
    requires d > 0 && a == q * d + r && 0 <= r < d
    ensures a / d == q && a % d == r
  {
    var q', r' := a / d, a % d;
    assert a == q' * d + r';
    assert (q - q') * d == r' - r;
    if q - q' >= 1 {
      MulMonotone(1, q - q', d);
      assert false;
    }
    if q - q' <= -1 {
      MulMonotone(q - q', -1, d);
      assert false;
    }
  }

  /** The quotient is at least every multiplier that stays below the dividend. */
  lemma DivAtLeast(a: int, d: int, q: int)
    requires d > 0 && q * d <= a
    ensures q <= a / d
  {
    var q', r' := a / d, a % d;
    assert a == q' * d + r';
    if q' + 1 <= q {
      MulMonotone(q' + 1, q, d);
      assert false;
    }
  }

  lemma DivMonotone(a: int, a': int, d: int)
    requires d > 0 && a <= a'
    ensures a / d <= a' / d
  {
    assert a == (a / d) * d + a % d;
    DivAtLeast(a', d, a / d);
  }

  /** Truncating division by a positive number never decreases when the dividend grows. */
  lemma TruncDivMonotone(a: int, a': int, d: int)
    requires d > 0 && a <= a'
    ensures TruncDiv(a, d) <= TruncDiv(a', d)
  {
    if a >= 0 {
      DivMonotone(a, a', d);
    } else if a' < 0 {
      DivMonotone(-a', -a, d);
    } else {
      DivAtLeast(-a, d, 0);
      DivAtLeast(a', d, 0);
    }
  }

  lemma Expand(q: int, k: int, r: int, d: int)
    ensures (q * k + r) * d == q * (k * d) + r * d
  {
  }

  /** A remainder times a divisor still leaves room below the product of the divisors. */
  lemma RemainderBelow(r': int, k: int, r: int, d: int)
    requires 0 <= r' < k && 0 <= r < d
    ensures 0 <= r' * d + r < k * d
  {
    MulMonotone(0, r', d);
    MulMonotone(r' + 1, k, d);
    Expand(1, r', 1, d);
  }

  /** Dividing by `d` and then by `k` is dividing by `k * d`. */
  lemma DivDiv(a: int, d: int, k: int)
    requires d > 0 && k > 0
    ensures k * d > 0
    ensures (a / d) / k == a / (k * d)
  {
    var q, r := a / d, a % d;
    var q', r' := q / k, q % k;
    RemainderBelow(r', k, r, d);
    Expand(q', k, r', d);
    assert a == q * d + r && q == q' * k + r';
    DivUnique(a, k * d, q', r' * d + r);
  }
}
