# modc: checked modular arithmetic, modelled in Dafny

`modc` is a small Rust library for arithmetic modulo a fixed non-zero
modulus. A `Field` holds the modulus as a 256-bit unsigned integer. Its
operations `add`, `sub`, `add_inv`, `mult`, `mult_inv`, `div`, `self_mod`
and `pow` take plain integers. Each returns a value reduced into
`[0, modulus)`, or a `ModCError`. Its tests also contain a trial-division
primality test and a helper that builds the Mersenne modulus `2^n - 1`.

The model has six modules:

- `Errors` (`error.dfy`): the error enumeration and `Result`.
- `Uint` (`uint.dfy`): the parts of the 256-bit integer library the code
  uses, over unbounded naturals. `u64` and `U256` are subset types.
  `checked_add`, `checked_mul` and `checked_pow` answer `None` exactly when
  the true result is `>= 2^256`; `checked_div` answers `None` exactly for a
  zero divisor. The panicking operators (`-`, `+`, `%`, `.pow`) are
  functions whose preconditions exclude the panic. So every unchecked
  operation in the code becomes a proof obligation at its call.
- `ModArith` (`mod_arith.dfy`): facts about `%` and powers.
- `Math` (`math.dfy`): `Field` and its operations, each one a function
  with the same branches as the code.
- `MathLaws` (`math_laws.dfy`): how the operations relate to each other,
  and the literal cases from the library's tests.
- `Mersenne` (`mersenne.dfy`): `is_prime` as a method with a loop, proved
  to return true exactly for primes, and `get_mersenne_mod`.

What the code does, as opposed to what its comments say:

- `Field::new` takes a `u64`, so every field has `0 < modulus < 2^64`.
  `Field.Valid()` states this, and every operation requires it.
- `add` and `mult` widen `u64` operands to 256 bits, so their error
  branches can never be taken. Both always return `Ok`.
- Neither branch of `sub` underflows. `sub` never fails.
- `add_inv` does not reduce its argument. `modulus - a` panics for
  `a > modulus`, so `a <= modulus` is a precondition.
- `mult_inv` computes `a'^(m - a') mod m`, not the Fermat inverse
  `a^(m-2) mod m`. Here `a'` is `a mod m` when `a > m` and `a` otherwise.
  - It is an inverse for `a = 1` and `a = m - 1`.
  - With `m = 7` and `a = 3` it gives 4, and `3 * 4 mod 7 = 5`.
  - It rejects only the literal 0. `mult_inv(m)` returns `Ok(1 % m)`, and
    `mult_inv(2m)` returns `Ok(0)`.
- `div` is the integer quotient `(a / b) mod m`, not `a * b^-1 mod m`.
  With `m = 7`, `div(3, 2)` is 1, but `1 * 2` is not 3 modulo 7.
- `div` reports a zero divisor as `Underflow`.

## Model

| member | source | states |
|---|---|---|
| `Math.Field.New` | src/modc_math/math.rs:10-18 | fails with `ModulusZero` exactly when the modulus is 0; otherwise the field holds the modulus unchanged and satisfies the invariant `0 < modulus < 2^64` |
| `Math.Field.SelfMod` | src/modc_math/math.rs:90-93 | the result is below the modulus and is the remainder in the division equation `a == (a / m) * m + r` |
| `Math.Field.Add` | src/modc_math/math.rs:20-30 | never returns `Err(Overflow)`, because two `u64` sum below 2^65; the value is `(a + b) mod m`, below `m` |
| `Math.Field.Sub` | src/modc_math/math.rs:32-45 | never fails, and the subtractions in both branches stay in range; the result `r` is below `m`, satisfies `(r + b) mod m == a mod m`, and equals the commented formula `(a mod m + m - b mod m) mod m` |
| `Math.SubCongruence` | src/modc_math/math.rs:38-44 | both branches of `sub` yield `(fa + m - fb) mod m`, the residue that added to `b` is congruent to `a` |
| `Math.Field.AddInv` | src/modc_math/math.rs:47-49 | for `a <= m`, always `Ok`; the result `x` is below `m`, `(a + x) mod m == 0`, and `add_inv(0) == 0` |
| `Math.Field.Mult` | src/modc_math/math.rs:51-61 | never returns `Err(Underflow)`, because two `u64` multiply below 2^128; the value is `(a * b) mod m`, below `m` |
| `Math.ProductOfU64Fits` | src/modc_math/math.rs:52-56 | the product of two `u64` is below 2^128, hence below 2^256, so `checked_mul` always succeeds |
| `Math.Field.InverseBase` | src/modc_math/math.rs:68-73 | the base that `mult_inv` raises is `a` itself when `a <= m` (so `a == m` is not reduced) and otherwise the residue below `m` congruent to `a`; it never exceeds `m` |
| `Math.NegationCancels` | src/modc_math/math.rs:47-49 | for `0 < m` and `a <= m`, `(m - a) mod m` is below `m`, cancels `a` modulo `m`, and is `0` when `a == 0` |
| `Math.Field.MultInv` | src/modc_math/math.rs:63-76 | `Err(InverseZero)` exactly when `a == 0`; otherwise `a'^(m - a') mod m`, below `m`; the unchecked power must fit in 256 bits |
| `Math.Field.Div` | src/modc_math/math.rs:78-88 | `Err(Underflow)` exactly when `b == 0`; otherwise the integer quotient `(a / b) mod m`, below `m` |
| `Math.Field.Pow` | src/modc_math/math.rs:95-104 | `Err(Overflow)` exactly when `a^power >= 2^256`; otherwise `a^power mod m`, below `m` |
| `MathLaws.SelfModIdempotent` | src/modc_math/math.rs:90-93 | reducing twice gives the same value as reducing once |
| `MathLaws.AddAssociative` | src/modc_math/math.rs:20-30 | `add(add(a, b), c) == add(a, add(b, c))` |
| `MathLaws.AddSubRoundTrip` | src/modc_math/math.rs:20-45 | `sub(add(a, b), b) == Ok(a mod m)` |
| `MathLaws.SubAddRoundTrip` | src/modc_math/math.rs:20-45 | `add(sub(a, b), b) == Ok(a mod m)` |
| `MathLaws.SubIsAddOfInverse` | src/modc_math/math.rs:32-49 | `sub(a, b) == add(a, add_inv(b mod m))` |
| `MathLaws.AddInvCancels` | src/modc_math/math.rs:47-49 | `add(a, add_inv(a)) == Ok(0)` for `a <= m` |
| `MathLaws.AddInvUnique` | src/modc_math/math.rs:47-49 | any `x < m` with `(a + x) mod m == 0` is `add_inv(a)` |
| `MathLaws.AddInvInvolutive` | src/modc_math/math.rs:47-49 | `add_inv(add_inv(a)) == Ok(a mod m)` for `a <= m` |
| `MathLaws.MultDistributesOverAdd` | src/modc_math/math.rs:51-61 | `mult(a, add(b, c)) == add(mult(a, b), mult(a, c))` |
| `MathLaws.PowSquareIsMult` | src/modc_math/math.rs:95-104 | `pow(a, 2) == mult(a, a)` for every `u64` `a` |
| `MathLaws.PowAddExponents` | src/modc_math/math.rs:95-104 | when `a^(p+q)` fits, `pow(a, p)` and `pow(a, q)` do not overflow and `pow(a, p + q) == mult(pow(a, p), pow(a, q))` |
| `MathLaws.DivOfMultiple` | src/modc_math/math.rs:78-88 | `div(b * k, b) == Ok(k mod m)` for `b != 0` |
| `MathLaws.DivIsNotModularDivision` | src/modc_math/math.rs:78-88 | with `m = 7`, `div(3, 2) == Ok(1)` while `mult(1, 2) == Ok(2)`, not 3 |
| `MathLaws.MultInvOfOne` | src/modc_math/math.rs:63-76 | for `m > 1`, `mult_inv(1) == Ok(1)`, an inverse of 1 |
| `MathLaws.MultInvOfMinusOne` | src/modc_math/math.rs:63-76 | for `m > 1`, `mult_inv(m - 1) == Ok(m - 1)`, and `mult(m - 1, m - 1) == Ok(1)` |
| `MathLaws.MultInvNotAnInverse` | src/modc_math/math.rs:63-76 | with `m = 7`, `mult_inv(3) == Ok(4)` while `mult(3, 4) == Ok(5)`, not 1 |
| `MathLaws.MultInvOfModulus` | src/modc_math/math.rs:65-75 | `mult_inv(m) == Ok(1 mod m)`: a zero residue other than the literal 0 is not rejected |
| `MathLaws.MultInvOfTwiceModulus` | src/modc_math/math.rs:65-71 | `mult_inv(2m) == Ok(0)` |
| `MathLaws.ModulusSevenCases` | tests/modc_test.rs:6-64 | with `m = 7`: `add(3,6)=2`, `sub(9,6)=3`, `sub(6,9)=4`, `add_inv(6)=1`, `mult_inv(2)=4`, `div(4,2)=2`, `pow(8,2)=1`; `new(0)` fails with `ModulusZero`, the expectation of the commented-out test at lines 6-11 |
| `Mersenne.ISqrt` | tests/mersenne_test.rs:43 | the loop bound's square root: `r * r <= n < (r + 1) * (r + 1)` |
| `Mersenne.PrimeSmallCases` | tests/mersenne_test.rs:35-41 | nothing `<= 1` is prime; 2 and 3 are prime; no `n > 3` divisible by 2 or 3 is prime |
| `Mersenne.NoDivisorInNextBlock` | tests/mersenne_test.rs:44-47 | when neither `i` nor `i + 2` divides `n`, for `i = 6k + 5`, there is no divisor below `i + 6` |
| `Mersenne.CandidateDivisorRefutes` | tests/mersenne_test.rs:44-47 | a candidate `i <= isqrt(n)`, or `i + 2`, that divides `n` is a proper divisor, so `n` is composite |
| `Mersenne.NoDivisorUpToRootMeansPrime` | tests/mersenne_test.rs:43-49 | no divisor in `(1, isqrt(n)]` implies `n` is prime |
| `Mersenne.IsPrime` | tests/mersenne_test.rs:35-51 | returns true exactly when `n` is prime |
| `Mersenne.PowerOfTwoFitsUsize` | tests/mersenne_test.rs:30 | `2^n` fits in a `usize` for `n < 64`, and `2^n - 1` does not underflow |
| `Mersenne.GetMersenneMod` | tests/mersenne_test.rs:20-33 | no result (the process exit) exactly when `n` is not prime; otherwise `2^n - 1` |
| `Mersenne.MersenneSevenAddition` | tests/mersenne_test.rs:11-18 | 7 is prime, `2^7 - 1 == 127`, and with `m = 127`, `add(91, 108) == Ok(72)` |

## Left out

- The 256-bit integer library itself. The model keeps only the exact behaviour it relies on: `checked_add`, `checked_mul` and `checked_pow` fail exactly when the result is `>= 2^256`, `checked_div` fails exactly for a zero divisor, and the plain operators panic on overflow, underflow or a zero divisor.
- Math.Field.AddInv: `a > modulus` makes `modulus - a` panic. The model states this as a precondition instead of modelling the panic.
- Math.Field.MultInv: an unchecked `pow` that overflows panics. The model states this as a precondition instead of modelling the panic.
- `NoAdditiveInverse` is declared but never produced.
- The `Debug` and `PartialEq` derivations of `Field` and `ModCError`.
- Mersenne.IsPrime: the loop bound uses an exact integer square root instead of the truncated `f64` square root. Above 2^52 the floating-point value can differ from the exact root; that rounding is not modelled.
- Mersenne.GetMersenneMod: the message printed and the `exit(1)` for a non-prime `n` become `None`. The generic parameter with its trait bounds becomes a `usize` argument. The overflow panic of `2^n` for a prime `n >= 64` is a precondition. The conversion of `n` to the exponent's type cannot fail below 64.
- `usize` is taken to be 64 bits wide.
- The test functions themselves. They call `Field::new` and `add` with `U256` arguments, which does not match the `u64` parameters in `math.rs`. Only their input and output values appear, as `MathLaws.ModulusSevenCases` and `Mersenne.MersenneSevenAddition`.
