/**
 The recursive extended Euclidean algorithm on `i32`, as `Fp::extended_euclidean`
 computes it with Rust's truncating `%` and `/`.

 For inputs `(a, b)` it returns `(g, x, y)` with `x * a + y * b == g`. The
 coefficients stay below the inputs in magnitude, which is why no step of the
 recursion overflows `i32`.
 */
module Euclid {

  import opened Arith
  import opened RustInt
  import opened NumberTheory

  /** The inputs on which no `%` or `/` of the recursion panics: only
      `i32::MIN % -1` does, and it is reached exactly from these two pairs. */
  predicate EuclidDefined(a: i32, b: i32) {
    && !(a as int == I32_MIN && b == -1)
    && !(b as int == I32_MIN && a == -1)
  }

  function ExtendedEuclidean(a: i32, b: i32): (r: (i32, i32, i32))
    requires EuclidDefined(a, b)
    ensures r.1 as int * a as int + r.2 as int * b as int == r.0 as int
    ensures b != 0 ==> Abs(r.1 as int) < Abs(b as int)
    ensures b != 0 ==> Abs(r.2 as int) < Abs(a as int) || r.2 == 1
    decreases Abs(b as int)
  {
    if b == 0 then
      (a, 1, 0)
    else
      var rem := Rem32(a, b);
      RecursionDefined(a, b);
      var (g, x, y) := ExtendedEuclidean(b, rem);
      var q := Quot32(a, b);
      QuotRem(a as int, b as int);
      EuclidStep(a as int, b as int, q as int, rem as int, g as int, x as int, y as int);
      (g, y, x - q * y)
  }

  /** The recursive call stays clear of `i32::MIN % -1`. */
  lemma RecursionDefined(a: i32, b: i32)
    requires EuclidDefined(a, b) && b != 0
    ensures EuclidDefined(b, Rem32(a, b))
  {
    if b as int == I32_MIN && a as int != I32_MIN {
      RemOfSmaller(a as int, b as int);
    }
  }

  /** One step of the recursion: the coefficients returned for `(b, a % b)`
      give coefficients for `(a, b)` that are again Bezout coefficients and
      again smaller than the inputs, and whose intermediate product stays
      below `|a|`. */
  lemma EuclidStep(a: int, b: int, q: int, r: int, g: int, x: int, y: int)
    requires b != 0 && a == q * b + r && Abs(a) == Abs(q) * Abs(b) + Abs(r)
    requires Abs(r) < Abs(b)
    requires x * b + y * r == g
    requires r != 0 ==> Abs(x) < Abs(r)
    requires r != 0 ==> Abs(y) < Abs(b) || y == 1
    requires r == 0 ==> x == 1 && y == 0
    ensures y * a + (x - q * y) * b == g
    ensures Abs(y) < Abs(b)
    ensures q * y == 0 || Abs(q * y) < Abs(a)
    ensures Abs(x - q * y) < Abs(a) || x - q * y == 1
  {
    BezoutStep(a, b, q, r, x, y);
    if r != 0 {
      ProductBound(Abs(q), Abs(y), Abs(b));
      AbsMul(q, y);
    }
  }

  lemma BezoutStep(a: int, b: int, q: int, r: int, x: int, y: int)
    requires a == q * b + r
    ensures y * a + (x - q * y) * b == x * b + y * r
  {
    assert y * a == y * (q * b) + y * r;
    assert (x - q * y) * b == x * b - (q * y) * b;
    assert y * (q * b) == (q * y) * b;
  }

  /** If `y < b` then `q * y` falls short of `q * b` by at least `q`. */
  lemma ProductBound(q: nat, y: nat, b: nat)
    requires y < b
    ensures q * y + q <= q * b
  {
    MulLeMono(q, y + 1, b);
    assert q * (y + 1) == q * y + q;
  }

  /** The returned `g` divides both inputs, whatever their signs; for
      non-negative inputs it is non-negative. */
  lemma {:induction false} ExtendedEuclideanDivides(a: i32, b: i32)
    requires EuclidDefined(a, b)
    ensures Divides(ExtendedEuclidean(a, b).0 as int, a as int)
    ensures Divides(ExtendedEuclidean(a, b).0 as int, b as int)
    ensures a >= 0 && b >= 0 ==> ExtendedEuclidean(a, b).0 >= 0
    decreases Abs(b as int)
  {
    if b == 0 {
      DividesSelf(a as int);
    } else {
      var rem := Rem32(a, b);
      RecursionDefined(a, b);
      ExtendedEuclideanDivides(b, rem);
      var g := ExtendedEuclidean(b, rem).0 as int;
      assert g == ExtendedEuclidean(a, b).0 as int;
      QuotRem(a as int, b as int);
      DividesLinear(g, b as int, rem as int, Quot(a as int, b as int), 1);
    }
  }

  /** For non-negative inputs the first component is their greatest common
      divisor and the other two are Bezout coefficients for it. */
  lemma ExtendedEuclideanIsGcd(a: i32, b: i32)
    requires a >= 0 && b >= 0
    ensures var (g, x, y) := ExtendedEuclidean(a, b);
      IsGcd(g as int, a as int, b as int) && x as int * a as int + y as int * b as int == g as int
  {
    var (g, x, y) := ExtendedEuclidean(a, b);
    var ai, bi := a as int, b as int;
    ExtendedEuclideanDivides(a, b);
    forall d | Divides(d, ai) && Divides(d, bi)
      ensures Divides(d, g as int)
    {
      DividesLinear(d, ai, bi, x as int, y as int);
    }
  }

  /** Zero is not rejected: for a positive `m` the algorithm on `(0, m)`
      returns `m` as the divisor and zero as the coefficient of zero. */
  lemma ExtendedEuclideanOfZero(m: i32)
    requires m > 0
    ensures ExtendedEuclidean(0, m) == (m, 0, 1)
  {
    RemOfSmaller(0, m as int);
    assert Rem32(0, m) == 0;
  }
}
