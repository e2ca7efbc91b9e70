# GF(p) arithmetic on `i32`: a Dafny model

This project models `Fp`, the single value type of a small Rust crate that does
integer arithmetic modulo a prime. An `Fp` pairs a residue `value` with its
`modulus`, both `i32`. The crate's operations are:

- `new(v, m)`: checks by trial division that `m` is prime and stores `(v, m)` unreduced;
- `check_input(a, b)`: the operand check shared by the binary operations;
- `add`, `sub`, `mul`: return `None` when the check fails;
- `inv`: a recursive extended Euclidean algorithm, with the modulus added once to a negative coefficient.

Modules, in dependency order:

- `Arith` (`arith.dfy`): non-linear facts about `*`, `/` and `%` that the solver needs spelled out.
- `RustInt` (`rust_int.dfy`): the `i32` newtype, plus Rust's truncating `/` and `%` (`Quot`, `Rem`, `Quot32`, `Rem32`). Dafny's own operators are Euclidean.
- `NumberTheory` (`number_theory.dfy`): `Divides`, `IsPrime` and `IsGcd`, each defined independently of the algorithms.
- `Euclid` (`euclid.dfy`): `extended_euclidean`.
- `PrimeField` (`prime_field.dfy`): the `Fp` datatype and `new`, `check_input`, `add`, `sub`, `mul` and `inv`.
- `FieldLaws` (`field_laws.dfy`): algebraic laws, plus lemmas showing the edge cases of the code as written.

How the Rust semantics are rendered:

- **Overflow.** `i32` is a Dafny newtype, so every arithmetic step on it is range-checked. A debug build of Rust panics on overflow in the same places. Each operation therefore `requires` that its own arithmetic does not overflow:
  - `New` needs `TrialDivisionFits(m)`. This is the exact condition under which the loop's `i * i` stays in range.
  - `Add`, `Sub` and `Mul` need their sum, difference or product to fit, when the check passes.
  - `ExtendedEuclidean` needs only to avoid `i32::MIN % -1`. Its contract bounds the coefficients below the inputs, so no other step can overflow.
- **Division.** Rust's `%` and `/` truncate toward zero. The model uses `Rem32`/`Quot32` wherever a negative operand can reach them. Where both operands are positive it uses Dafny's `%`.
- **Modulus invariant.** Every `Fp` a caller can hold comes from `New`, which only accepts primes, or from an operation, which copies the modulus. So every `Fp` has `modulus > 1`, and the operations assume it.

## The code as written versus the intended field

These lemmas state what the code actually does where it departs from a textbook prime field:

- **Negative values pass the check.** `check_input` has no lower bound, so a negative `value` is accepted. `add` then returns a negative residue (`NegativeOperandAccepted`). `sub` can return a value at or above the modulus, which the check later rejects (`SubCanLeaveRange`).
- **Zero is not rejected by `inv`.** `inv` returns `Some(0)`, which is not an inverse (`InvOfZero`, `Euclid.ExtendedEuclideanOfZero`).
- **`inv` can be wrong for a negative value.** For `-1` modulo 7 it returns 1, which is not an inverse (`InvOfNegativeIsWrong`).
- **`mul` overflows for large moduli.** Canonical operands can overflow `i32` once the modulus exceeds 46341. This includes the modulus 524269 used by the crate's demonstration (`MulCanOverflow`).

A textbook prime field rejects `inv` of zero and requires `0 <= value` in the operand check. The code does neither: it has one `Option` and no error variants. The model follows the code.

## Model

| member | source | states |
|---|---|---|
| PrimeField.New | src/main.rs:70-87 | returns `None` exactly when the modulus is not prime (at most 1, or with a divisor strictly between 1 and itself); on success holds the value and modulus exactly as given, unreduced; callable exactly when the trial divisor's square cannot overflow `i32` |
| NumberTheory.TrialDivisionDecidesPrimality | src/main.rs:76-82 | stopping trial division once `i * i > m` is sound: a number is prime exactly when it exceeds 1 and no `i >= 2` with `i * i <= m` divides it |
| PrimeField.CheckInput | src/main.rs:89-96 | the operand check: both values lie below their modulus and the moduli agree; there is no lower bound on the values. `Add`, `Sub` and `Mul` return `None` exactly when it fails |
| PrimeField.Add | src/main.rs:98-108 | `None` exactly when `check_input` fails; otherwise keeps the modulus, returns a value smaller than the modulus in magnitude and congruent to the sum, equal to the Euclidean residue of the sum when both values are non-negative |
| PrimeField.Sub | src/main.rs:110-124 | `None` exactly when `check_input` fails; otherwise keeps the modulus and returns a value congruent to the difference, equal to the Euclidean residue (so in `[0, m)`) for canonical operands |
| PrimeField.SubCorrection | src/main.rs:112-115 | adding the modulus once to a negative difference keeps it congruent, and yields the Euclidean residue whenever `-m < d < m` |
| PrimeField.Mul | src/main.rs:126-136 | `None` exactly when `check_input` fails; otherwise keeps the modulus, returns a value smaller than the modulus in magnitude and congruent to the product, equal to the Euclidean residue of the product for non-negative values |
| PrimeField.ProductResidue | src/main.rs:128 | Rust's remainder of a product is congruent to it, and is its Euclidean residue when both factors are non-negative |
| PrimeField.Inv | src/main.rs:138-147 | never fails, keeps the modulus, always returns a value in `[0, m)` whatever the sign of the input, and returns 0 for 0 |
| Euclid.ExtendedEuclidean | src/main.rs:149-155 | the returned `(g, x, y)` satisfy Bezout's identity `x*a + y*b == g` for inputs of any sign; for `b != 0`, `|x| < |b|` and `|y| < |a|` (or `y == 1`), which is why no step overflows `i32`; terminates because `|b|` strictly decreases |
| Euclid.RecursionDefined | src/main.rs:153 | the recursive call `(b, a % b)` never reaches Rust's panicking `i32::MIN % -1` |
| Euclid.ExtendedEuclideanDivides | src/main.rs:149-155 | the returned `g` divides both inputs, whatever their signs, and is non-negative for non-negative inputs |
| Euclid.ExtendedEuclideanIsGcd | src/main.rs:149-155 | for non-negative inputs `g` is their greatest common divisor and `x`, `y` are Bezout coefficients for it |
| Euclid.ExtendedEuclideanOfZero | src/main.rs:149-155 | on `(0, m)` with `m > 0` the result is `(m, 0, 1)`: zero is not rejected |
| RustInt.Quot | src/main.rs:154 | Rust's `/` truncates: the quotient's magnitude is the natural quotient of the magnitudes, its sign the product of the signs |
| RustInt.Rem | src/main.rs:153 | Rust's `%` takes the dividend's sign, with magnitude below the divisor's |
| RustInt.Quot32 | src/main.rs:154 | Rust's `/` on `i32`, defined except for a zero divisor and `i32::MIN / -1`; with `Rem32` it satisfies `a == (a / b) * b + a % b` |
| RustInt.QuotRem | src/main.rs:153-154 | Rust's `/` and `%` satisfy `a == (a / b) * b + a % b`, and the magnitudes add up without overshoot |
| RustInt.RemCongruent | src/main.rs:100 | Rust's remainder differs from the dividend by a multiple of the divisor |
| RustInt.Rem32 | src/main.rs:100 | Rust's `%` on `i32`, defined except for a zero divisor and `i32::MIN % -1`, has magnitude below the divisor's |
| FieldLaws.NegativeOperandAccepted | src/main.rs:89-96 | `check_input` accepts a negative value, and `add` then returns a negative, non-canonical residue |
| FieldLaws.MismatchedModuliRejected | src/main.rs:89-136 | operands with different moduli make `add`, `sub` and `mul` all return `None` |
| FieldLaws.AddCommutative | src/main.rs:98-108 | `add(a, b) == add(b, a)` for all operands, including rejected ones |
| FieldLaws.AddZeroIdentity | src/main.rs:98-108 | adding the zero of the same modulus returns the operand unchanged for every value in `(-m, m)` |
| FieldLaws.AddAssociative | src/main.rs:98-108 | `add` is associative on canonical residues while the sums fit in `i32` |
| FieldLaws.AddSubRoundTrip | src/main.rs:98-124 | on canonical residues `sub(add(a, b), b) == a` and `add(sub(a, b), b) == a` |
| FieldLaws.SubSelfIsZero | src/main.rs:110-124 | `sub(a, a)` is the zero of the modulus for every value below the modulus |
| FieldLaws.SubCanLeaveRange | src/main.rs:110-124 | with a negative subtrahend `sub` can return a value at or above the modulus, which `check_input` then rejects |
| FieldLaws.MulCommutative | src/main.rs:126-136 | `mul(a, b) == mul(b, a)` for all operands |
| FieldLaws.MulOneIdentity | src/main.rs:126-136 | multiplying by the one of the same modulus returns the operand for every value in `(-m, m)` |
| FieldLaws.MulDistributesOverAdd | src/main.rs:98-136 | `mul` distributes over `add` on canonical residues of a modulus up to 46341 |
| FieldLaws.ClosedOnCanonical | src/main.rs:98-136 | on canonical residues of a modulus up to 46341 all three binary operations succeed, without overflow, and return canonical residues of the same modulus |
| FieldLaws.CanonicalProductFits | src/main.rs:128 | the product of two canonical residues of a modulus up to 46341 fits in `i32` |
| FieldLaws.MulCanOverflow | src/main.rs:128 | for the modulus 524269 two canonical residues that pass `check_input` have a product beyond `i32` |
| FieldLaws.InvIsInverse | src/main.rs:138-155 | for a prime modulus and `0 < value < m`, `inv` returns `u` in `[0, m)` with `value * u` congruent to 1 |
| FieldLaws.InverseFromBezout | src/main.rs:139-142 | a Bezout coefficient for gcd 1, shifted by at most one modulus, is an inverse |
| FieldLaws.MulInvIsOne | src/main.rs:126-147 | for a prime modulus up to 46341 and a non-zero canonical value, `mul(a, inv(a))` is the one of the field |
| FieldLaws.InvOfZero | src/main.rs:138-147 | `inv` of zero returns `Some(0)`, whose product with zero is not 1 |
| FieldLaws.InvOfNegativeIsWrong | src/main.rs:138-155 | `inv` of `-1` modulo 7 is 1, and `-1 * 1` is 6 modulo 7, not 1 |
| FieldLaws.SampleComputations | src/main.rs:98-136 | `23 + 123`, `23 - 123` and `23 * 123` modulo 524269 give 146, 524169 and 2829, and `8 + 9` modulo 13 gives 4 |

## Left out

- `main` (src/main.rs:3-35): a demonstration driver that prints results and unwraps. It is I/O only.
- `impl Display for Fp` (src/main.rs:63-67): formatting as `"{value}mod{modulus}"`, for diagnostics only.
- The `Field` trait (src/main.rs:43-61): a signature list with no behaviour. The operations are modelled directly on `Fp`.
- Release-build wrap-around: the model follows debug-build semantics, where `i32` overflow panics, by requiring that no overflow occurs. It does not model the wrapped results a release build would compute.
- PrimeField.Add: assumes `modulus > 1`. Only a hand-built `Fp` that bypasses `new` could violate this.
- PrimeField.Sub: assumes `modulus > 1`, for the same reason.
- PrimeField.Mul: assumes `modulus > 1`, for the same reason.
- PrimeField.Inv: assumes `modulus > 1`, for the same reason. For a negative value the contract promises only the range, not an inverse. The actual result for `-1` is shown by `FieldLaws.InvOfNegativeIsWrong`.
- FieldLaws.InvIsInverse: stated only for `0 < value < m`. For zero see `InvOfZero`, and for negative values see `InvOfNegativeIsWrong`.
- FieldLaws.MulInvIsOne: stated only for moduli up to 46341. Beyond that, the product in `mul` can overflow `i32`.
- FieldLaws.AddAssociative: stated only for moduli up to 2^30. Beyond that, the sum in `add` can overflow `i32`.
- FieldLaws.AddSubRoundTrip: stated only for moduli up to 2^30, for the same reason.
