/**
 Rust's 32-bit signed integers and its integer division operators.

 Rust's `/` rounds the quotient toward zero and its `%` takes the sign of the
 dividend, whereas Dafny's `/` and `%` are Euclidean. `Quot` and `Rem` model the
 Rust operators on unbounded integers; `Quot32` and `Rem32` restrict them to
 `i32` and exclude the one quotient that overflows (`i32::MIN / -1`, which
 panics in Rust, and so does `i32::MIN % -1`).
 */
module RustInt {

  import opened Arith

  const I32_MIN: int := -0x8000_0000
  const I32_MAX: int := 0x7fff_ffff

  predicate IsI32(x: int) {
    I32_MIN <= x <= I32_MAX
  }

  /** Rust's `i32`. Arithmetic on this type is range-checked by Dafny, just as
      a debug build of Rust panics on overflow. */
  newtype i32 = x: int | I32_MIN <= x <= I32_MAX

  /** Rust's `a / b`: the quotient truncated toward zero. */
  function Quot(a: int, b: int): (q: int)
    requires b != 0
    ensures Abs(q) == Abs(a) / Abs(b)
    ensures (a >= 0) == (b > 0) ==> q >= 0
    ensures (a >= 0) != (b > 0) ==> q <= 0
  {
    var n, d: int := Abs(a), Abs(b);
    if (a >= 0) == (b > 0) then n / d else -(n / d)
  }

  /** Rust's `a % b`: the remainder takes the sign of the dividend. */
  function Rem(a: int, b: int): (r: int)
    requires b != 0
    ensures Abs(r) == Abs(a) % Abs(b) < Abs(b)
    ensures a >= 0 ==> r >= 0
    ensures a <= 0 ==> r <= 0
  {
    var n, d: int := Abs(a), Abs(b);
    if a >= 0 then n % d else -(n % d)
  }

  /** The division identity that ties Rust's `/` and `%` together, and its
      form on magnitudes: the quotient times the divisor never overshoots. */
  lemma QuotRem(a: int, b: int)
    requires b != 0
    ensures a == Quot(a, b) * b + Rem(a, b)
    ensures Abs(a) == Abs(Quot(a, b)) * Abs(b) + Abs(Rem(a, b))
  {
    var n, d: int := Abs(a), Abs(b);
    SignedDivision(a, b, n / d, n % d);
  }

  /** A division of the magnitudes, `|a| == q * |b| + r`, carries over to the
      signed operands once the quotient takes the product of the signs and the
      remainder the dividend's sign. */
  lemma SignedDivision(a: int, b: int, q: int, r: int)
    requires b != 0 && Abs(a) == q * Abs(b) + r
    ensures a == (if (a >= 0) == (b > 0) then q else -q) * b + (if a >= 0 then r else -r)
  {
    if b < 0 {
      assert q * Abs(b) == (-q) * b;
    }
  }

  /** On non-negative operands Rust's `%` and `/` agree with Dafny's. */
  lemma RemOfNonNegative(a: int, b: int)
    requires b > 0
    ensures a >= 0 ==> Rem(a, b) == a % b && Quot(a, b) == a / b
  {
  }

  /** The remainder differs from the dividend by a multiple of the divisor. */
  lemma RemCongruent(a: int, b: int)
    requires b != 0
    ensures (a - Rem(a, b)) % b == 0
  {
    QuotRem(a, b);
    MultipleMod(Quot(a, b), b);
  }

  /** A dividend smaller in magnitude than the divisor is its own remainder. */
  lemma RemOfSmaller(a: int, b: int)
    requires b != 0 && Abs(a) < Abs(b)
    ensures Rem(a, b) == a
    ensures Quot(a, b) == 0
  {
    ModUnique(Abs(a), Abs(b), 0, Abs(a));
  }

  /** Rust's `a / b` and `a % b` on `i32` do not panic. */
  predicate DivDefined(a: int, b: int) {
    b != 0 && !(a == I32_MIN && b == -1)
  }

  /** Rust's `a % b` on `i32`; it panics on a zero divisor and on `i32::MIN % -1`. */
  function Rem32(a: i32, b: i32): (r: i32)
    requires DivDefined(a as int, b as int)
    ensures Abs(r as int) < Abs(b as int)
  {
    Rem(a as int, b as int) as i32
  }

  /** Rust's `a / b` on `i32`; it panics on a zero divisor and on `i32::MIN / -1`. */
  function Quot32(a: i32, b: i32): (q: i32)
    requires DivDefined(a as int, b as int)
    ensures q as int * b as int + Rem32(a, b) as int == a as int
  {
    var q := Quot(a as int, b as int);
    QuotRem(a as int, b as int);
    q as i32
  }
}
