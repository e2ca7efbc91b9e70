/**
 Laws of the prime-field operations, and the behaviour of the operations on
 the inputs `CheckInput` lets through although they are not canonical
 residues.
 */
module FieldLaws {

  import opened Arith
  import opened RustInt
  import opened NumberTheory
  import opened Euclid
  import opened PrimeField

  /** The largest modulus for which the sum of two canonical residues always
      fits in `i32`. */
  const ADD_SAFE_MODULUS: int := 0x4000_0000

  /** The largest modulus for which the product of two canonical residues
      always fits in `i32`. */
  const MUL_SAFE_MODULUS: int := SQRT_I32_MAX + 1

  lemma AddCommutative(a: Fp, b: Fp)
    requires a.modulus > 1 && b.modulus > 1
    requires CheckInput(a, b) ==> IsI32(a.value as int + b.value as int)
    ensures Add(a, b) == Add(b, a)
  {
    if CheckInput(a, b) {
      assert a.value + b.value == b.value + a.value;
    }
  }

  lemma MulCommutative(a: Fp, b: Fp)
    requires a.modulus > 1 && b.modulus > 1
    requires CheckInput(a, b) ==> IsI32(a.value as int * b.value as int)
    ensures Mul(a, b) == Mul(b, a)
  {
    if CheckInput(a, b) {
      assert a.value * b.value == b.value * a.value;
    }
  }

  /** Zero is an additive identity for every value `CheckInput` accepts that
      lies above `-modulus`, canonical or not. */
  lemma AddZeroIdentity(a: Fp)
    requires a.modulus > 1 && -(a.modulus as int) < a.value as int < a.modulus as int
    ensures Add(a, Fp(0, a.modulus)) == Some(a)
  {
    RemOfSmaller(a.value as int, a.modulus as int);
  }

  /** One is a multiplicative identity on the same values. */
  lemma MulOneIdentity(a: Fp)
    requires a.modulus > 1 && -(a.modulus as int) < a.value as int < a.modulus as int
    ensures Mul(a, Fp(1, a.modulus)) == Some(a)
  {
    RemOfSmaller(a.value as int, a.modulus as int);
  }

  /** Every value below the modulus minus itself is zero. */
  lemma SubSelfIsZero(a: Fp)
    requires a.modulus > 1 && a.value < a.modulus
    ensures Sub(a, a) == Some(Fp(0, a.modulus))
  {
  }

  /** Subtraction undoes addition and addition undoes subtraction on
      canonical residues. */
  lemma AddSubRoundTrip(a: Fp, b: Fp)
    requires Canonical(a) && Canonical(b) && a.modulus == b.modulus
    requires a.modulus > 1 && a.modulus as int <= ADD_SAFE_MODULUS
    ensures Add(a, b).Some? && Sub(Add(a, b).unwrap, b) == Some(a)
    ensures Sub(a, b).Some? && Add(Sub(a, b).unwrap, b) == Some(a)
  {
    var m := a.modulus as int;
    var av, bv := a.value as int, b.value as int;
    var s := Add(a, b).unwrap;
    assert s.value as int == (av + bv) % m;
    ModAddLeft(av + bv, -bv, m);
    ModUnique(av, m, 0, av);
    var d := Sub(a, b).unwrap;
    assert d.value as int == (av - bv) % m;
    ModAddLeft(av - bv, bv, m);
  }

  lemma AddAssociative(a: Fp, b: Fp, c: Fp)
    requires Canonical(a) && Canonical(b) && Canonical(c)
    requires a.modulus == b.modulus == c.modulus
    requires a.modulus > 1 && a.modulus as int <= ADD_SAFE_MODULUS
    ensures Add(a, b).Some? && Canonical(Add(a, b).unwrap)
    ensures Add(b, c).Some? && Canonical(Add(b, c).unwrap)
    ensures Add(Add(a, b).unwrap, c) == Add(a, Add(b, c).unwrap)
  {
    var m := a.modulus as int;
    var av, bv, cv := a.value as int, b.value as int, c.value as int;
    ResidueInRange(av + bv, m);
    ResidueInRange(bv + cv, m);
    ModAddLeft(av + bv, cv, m);
    ModAddLeft(bv + cv, av, m);
    assert (bv + cv) % m + av == av + (bv + cv) % m;
    assert av + bv + cv == av + (bv + cv);
  }

  /** On canonical residues the results of the three binary operations are
      again canonical, with the common modulus. */
  lemma ClosedOnCanonical(a: Fp, b: Fp)
    requires Canonical(a) && Canonical(b) && a.modulus == b.modulus
    requires a.modulus > 1 && a.modulus as int <= MUL_SAFE_MODULUS
    ensures Add(a, b).Some? && Canonical(Add(a, b).unwrap) && Add(a, b).unwrap.modulus == a.modulus
    ensures Sub(a, b).Some? && Canonical(Sub(a, b).unwrap) && Sub(a, b).unwrap.modulus == a.modulus
    ensures IsI32(a.value as int * b.value as int)
      && Mul(a, b).Some? && Canonical(Mul(a, b).unwrap) && Mul(a, b).unwrap.modulus == a.modulus
  {
    var m, av, bv := a.modulus as int, a.value as int, b.value as int;
    CanonicalProductFits(av, bv);
    ResidueInRange(av + bv, m);
    ResidueInRange(av - bv, m);
    ResidueInRange(av * bv, m);
  }

  lemma ResidueInRange(x: int, m: int)
    requires m > 0
    ensures 0 <= x % m < m
  {
  }

  /** Multiplication distributes over addition on canonical residues. */
  lemma MulDistributesOverAdd(a: Fp, b: Fp, c: Fp)
    requires Canonical(a) && Canonical(b) && Canonical(c)
    requires a.modulus == b.modulus == c.modulus
    requires a.modulus > 1 && a.modulus as int <= MUL_SAFE_MODULUS
    ensures Add(b, c).Some? && Canonical(Add(b, c).unwrap)
    ensures IsI32(a.value as int * b.value as int) && Mul(a, b).Some? && Canonical(Mul(a, b).unwrap)
    ensures IsI32(a.value as int * c.value as int) && Mul(a, c).Some? && Canonical(Mul(a, c).unwrap)
    ensures IsI32(a.value as int * Add(b, c).unwrap.value as int)
    ensures Mul(a, Add(b, c).unwrap) == Add(Mul(a, b).unwrap, Mul(a, c).unwrap)
  {
    var m, av, bv, cv := a.modulus as int, a.value as int, b.value as int, c.value as int;
    ClosedOnCanonical(b, c);
    ClosedOnCanonical(a, b);
    ClosedOnCanonical(a, c);
    ClosedOnCanonical(a, Add(b, c).unwrap);
    DistributiveResidue(av, bv, cv, m);
  }

  lemma DistributiveResidue(x: int, y: int, z: int, m: int)
    requires m > 0
    ensures (x * ((y + z) % m)) % m == ((x * y) % m + (x * z) % m) % m
  {
    ModMulLeft(y + z, x, m);
    assert x * ((y + z) % m) == (y + z) % m * x;
    assert (y + z) * x == x * y + x * z;
    ModAddLeft(x * y, x * z, m);
    ModAddLeft(x * z, (x * y) % m, m);
    assert (x * y) % m + (x * z) % m == (x * z) % m + (x * y) % m;
    assert x * z + (x * y) % m == (x * y) % m + x * z;
  }

  /** The product of two canonical residues of a modulus up to
      `MUL_SAFE_MODULUS` fits in `i32`. */
  lemma CanonicalProductFits(x: int, y: int)
    requires 0 <= x < MUL_SAFE_MODULUS && 0 <= y < MUL_SAFE_MODULUS
    ensures IsI32(x * y)
  {
    var n := MUL_SAFE_MODULUS - 1;
    MulLeMono(x, y, n);
    MulLeMono(n, x, n);
    assert x * y <= n * x <= n * n;
  }

  /** For a prime modulus and a non-zero canonical value, `Inv` returns a
      canonical residue whose product with the value is one modulo the
      modulus. */
  lemma InvIsInverse(a: Fp)
    requires IsPrime(a.modulus as int) && 0 < a.value < a.modulus
    ensures 0 <= Inv(a).unwrap.value < a.modulus
    ensures (a.value as int * Inv(a).unwrap.value as int) % a.modulus as int == 1
  {
    var (g, x, y) := ExtendedEuclidean(a.value, a.modulus);
    ExtendedEuclideanIsGcd(a.value, a.modulus);
    PrimeCoprime(a.modulus as int, a.value as int, g as int);
    InverseFromBezout(a.value as int, a.modulus as int, x as int, y as int, Inv(a).unwrap.value as int);
  }

  /** A Bezout coefficient for a gcd of one, shifted by at most one modulus,
      is an inverse modulo that modulus. */
  lemma InverseFromBezout(v: int, m: int, x: int, y: int, u: int)
    requires m > 1 && x * v + y * m == 1
    requires u == x || u == x + m
    ensures (v * u) % m == 1
  {
    var k := if u == x then 0 else 1;
    assert v * u == v * x + (v * k) * m;
    assert v * u == 1 + (v * k - y) * m;
    ModAddMultiple(1, v * k - y, m);
    ModUnique(1, m, 0, 1);
  }

  /** `Mul` of a non-zero canonical value and its `Inv` is one, for a prime
      modulus small enough that `Mul` cannot overflow. */
  lemma MulInvIsOne(a: Fp)
    requires IsPrime(a.modulus as int) && 0 < a.value < a.modulus
    requires a.modulus as int <= MUL_SAFE_MODULUS
    ensures IsI32(a.value as int * Inv(a).unwrap.value as int)
      && Mul(a, Inv(a).unwrap) == Some(Fp(1, a.modulus))
  {
    var i := Inv(a).unwrap;
    InvIsInverse(a);
    ClosedOnCanonical(a, i);
  }

  /** `Inv` does not reject zero: it returns zero, which is no inverse. */
  lemma InvOfZero(m: i32)
    requires m > 1
    ensures Inv(Fp(0, m)) == Some(Fp(0, m))
    ensures (0 * Inv(Fp(0, m)).unwrap.value as int) % m as int != 1
  {
  }

  /** `CheckInput` lets a negative value through, and `Add` then returns a
      negative, non-canonical result. */
  lemma NegativeOperandAccepted()
    ensures CheckInput(Fp(-5, 7), Fp(3, 7))
    ensures Add(Fp(-5, 7), Fp(3, 7)) == Some(Fp(-2, 7))
    ensures !Canonical(Add(Fp(-5, 7), Fp(3, 7)).unwrap)
  {
  }

  /** With a negative subtrahend `Sub` can return a value at or above the
      modulus, which `CheckInput` then rejects. */
  lemma SubCanLeaveRange()
    ensures Sub(Fp(5, 7), Fp(-5, 7)) == Some(Fp(10, 7))
    ensures !CheckInput(Sub(Fp(5, 7), Fp(-5, 7)).unwrap, Fp(0, 7))
  {
  }

  /** For a negative value `Inv` can return something that is not an inverse:
      `-1` is its own inverse modulo 7, but `Inv` returns 1. */
  lemma InvOfNegativeIsWrong()
    ensures Inv(Fp(-1, 7)) == Some(Fp(1, 7))
    ensures (-1 * Inv(Fp(-1, 7)).unwrap.value as int) % 7 == 6
  {
    assert ExtendedEuclidean(-1, 7) == (-1, 1, 0) by {
      RemOfSmaller(-1, 7);
      assert ExtendedEuclidean(7, -1) == (-1, 0, 1);
    }
  }

  /** Elements with different moduli are rejected by every binary operation. */
  lemma MismatchedModuliRejected(a: Fp, b: Fp)
    requires a.modulus > 1 && a.modulus != b.modulus
    ensures Add(a, b) == None && Sub(a, b) == None && Mul(a, b) == None
  {
  }

  /** The sample computations on the modulus 524269 and on the modulus 13. */
  lemma SampleComputations()
    ensures Add(Fp(23, 524269), Fp(123, 524269)) == Some(Fp(146, 524269))
    ensures Sub(Fp(23, 524269), Fp(123, 524269)) == Some(Fp(524169, 524269))
    ensures Mul(Fp(23, 524269), Fp(123, 524269)) == Some(Fp(2829, 524269))
    ensures Add(Fp(8, 13), Fp(9, 13)) == Some(Fp(4, 13))
  {
  }

  /** With the modulus 524269 the product of two canonical residues can
      exceed `i32`: `Mul` on such operands overflows. */
  lemma MulCanOverflow()
    ensures CheckInput(Fp(524268, 524269), Fp(524268, 524269))
    ensures !IsI32(524268 * 524268)
  {
  }
}
