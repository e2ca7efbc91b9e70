/**
 Facts about integer multiplication and Euclidean division that the rest of
 the model leans on. The solver does not find these unaided, because they are
 non-linear.
 */
module Arith {

  function Abs(x: int): nat {
    if x < 0 then -x else x
  }

  lemma NatMulMono(t: nat, b: nat)
    requires t >= 1
    ensures t * b >= b
  {
    if t > 1 {
      NatMulMono(t - 1, b);
      assert t * b == (t - 1) * b + b;
    }
  }

  lemma AbsMul(t: int, b: int)
    ensures Abs(t * b) == Abs(t) * Abs(b)
  {
    if t < 0 && b < 0 {
      assert t * b == (-t) * (-b);
    } else if t < 0 {
      assert t * b == -((-t) * b);
    } else if b < 0 {
      assert t * b == -(t * (-b));
    }
  }

  /** A non-zero multiple of `b` is at least as large as `b` in magnitude. */
  lemma MulAbsBound(t: int, b: int)
    requires t != 0
    ensures Abs(t * b) >= Abs(b)
  {
    AbsMul(t, b);
    NatMulMono(Abs(t), Abs(b));
  }

  /** Euclidean division is unique: any decomposition with a remainder in
      range is the one `/` and `%` compute. */
  lemma ModUnique(x: int, b: int, q: int, r: int)
    requires b != 0 && x == q * b + r && 0 <= r < Abs(b)
    ensures x % b == r
    ensures x / b == q
  {
    var q', r' := x / b, x % b;
    assert x == q' * b + r';
    assert (q - q') * b == r' - r;
    if q != q' {
      MulAbsBound(q - q', b);
    }
  }

  lemma MultipleMod(k: int, b: int)
    requires b != 0
    ensures (k * b) % b == 0
  {
    ModUnique(k * b, b, k, 0);
  }

  /** Adding a multiple of the modulus does not change the residue. */
  lemma ModAddMultiple(x: int, k: int, b: int)
    requires b != 0
    ensures (x + k * b) % b == x % b
  {
    var q, r := x / b, x % b;
    assert x + k * b == (q + k) * b + r;
    ModUnique(x + k * b, b, q + k, r);
  }

  lemma SquareMono(x: nat, y: nat)
    requires x <= y
    ensures x * x <= y * y
  {
    if x > 0 {
      NatMulMono(x, y - x);
      assert y * y == x * x + x * (y - x) + (y - x) * y;
      NatMulMono(y, y - x);
    }
  }

  /** Reducing one summand first does not change the residue of a sum. */
  lemma ModAddLeft(x: int, y: int, m: int)
    requires m != 0
    ensures (x % m + y) % m == (x + y) % m
  {
    assert x == (x / m) * m + x % m;
    assert x % m + y == (x + y) + (-(x / m)) * m;
    ModAddMultiple(x + y, -(x / m), m);
  }

  /** Reducing one factor first does not change the residue of a product. */
  lemma ModMulLeft(x: int, y: int, m: int)
    requires m != 0
    ensures (x % m * y) % m == (x * y) % m
  {
    var q := x / m;
    assert x == q * m + x % m;
    assert x * y == (q * m) * y + (x % m) * y;
    assert (q * m) * y == (q * y) * m;
    assert x % m * y == x * y + (-(q * y)) * m;
    ModAddMultiple(x * y, -(q * y), m);
  }
}
