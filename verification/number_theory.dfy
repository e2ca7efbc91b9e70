/**
 Divisibility, primality and greatest common divisors, stated independently of
 the algorithms that compute them.
 */
module NumberTheory {

  import opened Arith

  /** `d` divides `n`: `n` is an integer multiple of `d`. */
  predicate Divides(d: int, n: int) {
    if d == 0 then n == 0 else n % d == 0
  }

  /** `m` is prime: greater than one, with no divisor strictly between one and itself. */
  predicate IsPrime(m: int) {
    m > 1 && forall d :: 1 < d < m ==> !Divides(d, m)
  }

  /** `g` is the greatest common divisor of `a` and `b`, in the divisibility
      order: a non-negative common divisor that every common divisor divides. */
  ghost predicate IsGcd(g: int, a: int, b: int) {
    && g >= 0
    && Divides(g, a)
    && Divides(g, b)
    && forall d :: Divides(d, a) && Divides(d, b) ==> Divides(d, g)
  }

  lemma DividesIntro(d: int, n: int, k: int)
    requires n == d * k
    ensures Divides(d, n)
  {
    if d != 0 {
      MultipleMod(k, d);
    }
  }

  lemma DividesElim(d: int, n: int) returns (k: int)
    requires Divides(d, n)
    ensures n == d * k
  {
    if d == 0 {
      k := 0;
    } else {
      k := n / d;
    }
  }

  lemma DividesSelf(n: int)
    ensures Divides(n, n)
    ensures Divides(n, 0)
  {
    DividesIntro(n, n, 1);
    DividesIntro(n, 0, 0);
  }

  /** A common divisor of `a` and `b` divides every integer combination of them. */
  lemma DividesLinear(d: int, a: int, b: int, x: int, y: int)
    requires Divides(d, a) && Divides(d, b)
    ensures Divides(d, x * a + y * b)
  {
    var ka := DividesElim(d, a);
    var kb := DividesElim(d, b);
    assert x * a + y * b == d * (x * ka + y * kb);
    DividesIntro(d, x * a + y * b, x * ka + y * kb);
  }

  /** A positive divisor of a positive number is no larger than it. */
  lemma DividesBound(d: int, n: int)
    requires d > 0 && n > 0 && Divides(d, n)
    ensures d <= n
  {
    var k := DividesElim(d, n);
    if k <= 0 {
      assert false;
    }
    NatMulMono(k, d);
    assert k * d == d * k;
  }

  /** Trial division up to the square root decides primality: a number above
      one is prime exactly when no `i` with `2 <= i` and `i * i <= m` divides it. */
  lemma {:induction false} TrialDivisionDecidesPrimality(m: int)
    ensures IsPrime(m) <==> m > 1 && forall i :: 2 <= i && i * i <= m ==> !Divides(i, m)
  {
    if m > 1 && forall i :: 2 <= i && i * i <= m ==> !Divides(i, m) {
      forall d | 1 < d < m
        ensures !Divides(d, m)
      {
        if Divides(d, m) {
          var e := DividesElim(d, m);
          if e <= 1 {
            assert false;
          }
          DividesIntro(e, m, d);
          if d <= e {
            MulLeMono(d, d, e);
          } else {
            MulLeMono(e, e, d);
          }
          assert false;
        }
      }
    }
    if IsPrime(m) {
      forall i | 2 <= i && i * i <= m
        ensures !Divides(i, m)
      {
        NatMulMono(i, i);
        assert i * i >= 2 * i by { MulLeMono(i, 2, i); }
      }
    }
  }

  lemma MulLeMono(k: nat, x: nat, y: nat)
    requires x <= y
    ensures k * x <= y * k
  {
    if k > 0 {
      NatMulMono(k, y - x);
      assert k * y == k * x + k * (y - x);
    }
  }

  /** A prime is coprime to every positive number below it: their only
      non-negative common divisor is one. */
  lemma PrimeCoprime(m: int, v: int, g: int)
    requires IsPrime(m) && 0 < v < m
    requires g >= 0 && Divides(g, v) && Divides(g, m)
    ensures g == 1
  {
    if g == 0 {
      assert false;
    }
    DividesBound(g, v);
  }
}
