/**
 The prime field GF(p) as the value type `Fp`: a residue `value` paired with
 its `modulus`, both Rust `i32`.

 `New` is the validating constructor: it accepts a modulus exactly when trial
 division finds it prime, and stores the value unreduced. `Add`, `Sub` and
 `Mul` return `None` exactly when `CheckInput` rejects the operands; `Inv`
 never fails. Every `Fp` a caller can hold comes from `New` or from one of the
 operations, and each of them keeps the modulus, so every `Fp` has a prime,
 hence greater than one, modulus: the operations assume `modulus > 1`.
 */
module PrimeField {

  import opened Arith
  import opened RustInt
  import opened NumberTheory
  import opened Euclid

  /** Rust's `Option`. `unwrap` names the payload. */
  datatype Option<+T> = None | Some(unwrap: T)

  datatype Fp = Fp(value: i32, modulus: i32)

  /** The representation the field arithmetic is meant for: `0 <= value < modulus`. */
  predicate Canonical(x: Fp) {
    0 <= x.value < x.modulus
  }

  /** The largest number whose square fits in `i32`. */
  const SQRT_I32_MAX: int := 46340

  /** `New` squares its trial divisor in `i32`. The square overflows only if the
      search reaches 46341, that is, only if `m` is at least 46340 * 46340 and
      has no divisor up to 46340. */
  predicate TrialDivisionFits(m: int) {
    || m < SQRT_I32_MAX * SQRT_I32_MAX
    || exists d :: 2 <= d <= SQRT_I32_MAX && Divides(d, m)
  }

  /** `Fp::new`: checks by trial division that `m` is prime, and on success
      stores `v` and `m` as given, without reducing `v`. */
  method New(v: i32, m: i32) returns (r: Option<Fp>)
    requires TrialDivisionFits(m as int)
    ensures r.None? <==> !IsPrime(m as int)
    ensures r.Some? ==> r.unwrap == Fp(v, m)
  {
    if m <= 1 {
      return None;
    }
    ghost var n := m as int;
    var i: i32 := 2;
    while i * i <= m
      invariant 2 <= i as int <= SQRT_I32_MAX
      invariant (i as int - 1) * (i as int - 1) <= m as int
      invariant (i as int) * (i as int) <= SQRT_I32_MAX * SQRT_I32_MAX
      invariant forall d :: 2 <= d < i as int ==> !Divides(d, n)
    {
      // Both operands are positive, where Rust's `%` and Dafny's agree.
      if m % i == 0 {
        assert Divides(i as int, m as int);
        MulLeMono(i as int, 2, i as int);
        return None;
      }
      SquareMono(i as int + 1, SQRT_I32_MAX);
      i := i + 1;
    }
    forall j | 2 <= j && j * j <= m as int
      ensures !Divides(j, m as int)
    {
      if j >= i as int {
        SquareMono(i as int, j);
      }
    }
    TrialDivisionDecidesPrimality(m as int);
    return Some(Fp(v, m));
  }

  /** `Fp::check_input`: both values lie below the common modulus. There is no
      lower bound on the values. */
  predicate CheckInput(a: Fp, b: Fp) {
    a.value < a.modulus && b.value < b.modulus && a.modulus == b.modulus
  }

  /** `Fp::add`: the truncated remainder of the sum. */
  function Add(a: Fp, b: Fp): (r: Option<Fp>)
    requires a.modulus > 1
    requires CheckInput(a, b) ==> IsI32(a.value as int + b.value as int)
    ensures r.None? <==> !CheckInput(a, b)
    ensures r.Some? ==> r.unwrap.modulus == a.modulus
    ensures r.Some? ==> Abs(r.unwrap.value as int) < a.modulus as int
    ensures r.Some? ==> (a.value as int + b.value as int - r.unwrap.value as int) % a.modulus as int == 0
    ensures r.Some? && a.value >= 0 && b.value >= 0 ==>
      r.unwrap.value as int == (a.value as int + b.value as int) % a.modulus as int
  {
    if CheckInput(a, b) then
      var s := a.value + b.value;
      RemCongruent(s as int, a.modulus as int);
      RemOfNonNegative(s as int, a.modulus as int);
      Some(Fp(Rem32(s, a.modulus), a.modulus))
    else
      None
  }

  /** `Fp::sub`: the difference, with the modulus added once if it is negative. */
  function Sub(a: Fp, b: Fp): (r: Option<Fp>)
    requires a.modulus > 1
    requires CheckInput(a, b) ==> IsI32(a.value as int - b.value as int)
    ensures r.None? <==> !CheckInput(a, b)
    ensures r.Some? ==> r.unwrap.modulus == a.modulus
    ensures r.Some? ==> (a.value as int - b.value as int - r.unwrap.value as int) % a.modulus as int == 0
    ensures r.Some? && Canonical(a) && Canonical(b) ==>
      r.unwrap.value as int == (a.value as int - b.value as int) % a.modulus as int
  {
    if CheckInput(a, b) then
      var d := a.value - b.value;
      SubCorrection(d as int, a.modulus as int);
      Some(Fp(if d < 0 then d + a.modulus else d, a.modulus))
    else
      None
  }

  /** Adding the modulus once to a negative difference keeps its residue, and
      for a difference above `-m` it yields exactly the Euclidean residue. */
  lemma SubCorrection(d: int, m: int)
    requires m > 1
    ensures (d - (if d < 0 then d + m else d)) % m == 0
    ensures -m < d < m ==> (if d < 0 then d + m else d) == d % m
  {
    if d < 0 {
      MultipleMod(-1, m);
      if -m < d {
        ModUnique(d, m, -1, d + m);
      }
    } else {
      MultipleMod(0, m);
      if d < m {
        ModUnique(d, m, 0, d);
      }
    }
  }

  /** `Fp::mul`: the truncated remainder of the product. */
  function Mul(a: Fp, b: Fp): (r: Option<Fp>)
    requires a.modulus > 1
    requires CheckInput(a, b) ==> IsI32(a.value as int * b.value as int)
    ensures r.None? <==> !CheckInput(a, b)
    ensures r.Some? ==> r.unwrap.modulus == a.modulus
    ensures r.Some? ==> Abs(r.unwrap.value as int) < a.modulus as int
    ensures r.Some? ==> (a.value as int * b.value as int - r.unwrap.value as int) % a.modulus as int == 0
    ensures r.Some? && a.value >= 0 && b.value >= 0 ==>
      r.unwrap.value as int == (a.value as int * b.value as int) % a.modulus as int
  {
    if CheckInput(a, b) then
      var p := a.value * b.value;
      ProductResidue(a.value as int, b.value as int, a.modulus as int);
      Some(Fp(Rem32(p, a.modulus), a.modulus))
    else
      None
  }

  /** The truncated remainder of a product is congruent to it, and is its
      Euclidean residue when both factors are non-negative. */
  lemma ProductResidue(x: int, y: int, m: int)
    requires m > 1
    ensures (x * y - Rem(x * y, m)) % m == 0
    ensures x >= 0 && y >= 0 ==> Rem(x * y, m) == (x * y) % m
  {
    var p := x * y;
    RemCongruent(p, m);
    RemOfNonNegative(p, m);
  }

  /** `Fp::inv`: the Bezout coefficient of `value` from the extended Euclidean
      algorithm on `(value, modulus)`, with the modulus added once if it is
      negative. No input is rejected; zero yields zero. */
  function Inv(a: Fp): (r: Option<Fp>)
    requires a.modulus > 1
    ensures r.Some?
    ensures r.unwrap.modulus == a.modulus
    ensures 0 <= r.unwrap.value < a.modulus
    ensures a.value == 0 ==> r.unwrap.value == 0
  {
    var (_, u, _) := ExtendedEuclidean(a.value, a.modulus);
    ExtendedEuclideanOfZero(a.modulus);
    Some(Fp(if u < 0 then u + a.modulus else u, a.modulus))
  }
}
