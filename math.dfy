/** Checked arithmetic modulo a fixed non-zero modulus
    (src/modc_math/math.rs). */
module Math {
  import opened Uint
  import opened Errors
  import opened ModArith

  /** A modulus together with the operations reduced into `[0, modulus)`.
      The only constructor, `New`, takes a `u64`, so every field value
      satisfies `Valid()`: the modulus is non-zero and below 2^64. Every
      operation is a pure function of the field and its inputs. */
  datatype Field = Field(modulus: U256) {

    predicate Valid() {
      0 < modulus < U64_LIMIT
    }

    /** `Field::new`: fails exactly for a zero modulus, otherwise wraps the
        modulus unchanged. */
    static function New(modulus: U64): (r: Result<Field>)
      ensures r.Err? <==> modulus == 0
      ensures r.Err? ==> r.error == ModulusZero
      ensures r.Ok? ==> r.value.modulus == modulus && r.value.Valid()
    {
      if modulus == 0 then Err(ModulusZero) else Ok(Field(modulus))
    }

    /** `self_mod`: the remainder of `a`, characterised by the division
        equation. */
    function SelfMod(a: U256): (r: U256)
      requires Valid()
      ensures r < modulus
      ensures a == (a / modulus) * modulus + r
    {
      RemOrPanic(a, modulus)
    }

    /** `add`: two `u64` operands sum below 2^65, so the `Overflow` branch
        is never taken. */
    function Add(a: U64, b: U64): (r: Result<U256>)
      requires Valid()
      ensures r.Ok?
      ensures r.value < modulus && r.value == (a + b) % modulus
    {
      match CheckedAdd(a, b)
      case Some(s) => Ok(RemOrPanic(s, modulus))
      case None => Err(Overflow)
    }

    /** `sub`: both operands are reduced first; the subtraction that follows
        never underflows in either branch, and the result is the residue
        `r` with `r + b` congruent to `a`. */
    function Sub(a: U64, b: U64): (r: Result<U256>)
      requires Valid()
      ensures r.Ok?
      ensures r.value < modulus
      ensures r.value == (a % modulus + modulus - b % modulus) % modulus
      ensures (r.value + b) % modulus == a % modulus
    {
      var fa := SelfMod(a);
      var fb := SelfMod(b);
      var diff :=
        if fb > fa then RemOrPanic(SubOrPanic(AddOrPanic(fa, modulus), fb), modulus)
        else SubOrPanic(fa, fb);
      SubCongruence(fa, fb, b, modulus, diff);
      Ok(diff)
    }

    /** `add_inv`: `modulus - a` is an unchecked subtraction, so `a` must
        not exceed the modulus; the result cancels `a`. */
    function AddInv(a: U256): (r: Result<U256>)
      requires Valid()
      requires a <= modulus
      ensures r.Ok?
      ensures r.value < modulus
      ensures (a + r.value) % modulus == 0
      ensures a == 0 ==> r.value == 0
    {
      NegationCancels(a, modulus);
      Ok(RemOrPanic(SubOrPanic(modulus, a), modulus))
    }

    /** `mult`: two `u64` operands multiply below 2^128, so the
        `Underflow` branch is never taken. */
    function Mult(a: U64, b: U64): (r: Result<U256>)
      requires Valid()
      ensures r.Ok?
      ensures r.value < modulus && r.value == (a * b) % modulus
    {
      ProductOfU64Fits(a, b);
      match CheckedMul(a, b)
      case Some(s) => Ok(RemOrPanic(s, modulus))
      case None => Err(Underflow)
    }

    /** The base `mult_inv` raises: `a` reduced when it exceeds the modulus,
        `a` itself otherwise (so `a == modulus` is not reduced). It is
        congruent to `a` and never exceeds the modulus. */
    function InverseBase(a: U256): (base: U256)
      requires Valid()
      ensures base <= modulus
      ensures base % modulus == a % modulus
      ensures base < modulus || a == modulus
      ensures a <= modulus ==> base == a
    {
      if a > modulus then
        ModArith.ModMod(a, modulus);
        SelfMod(a)
      else
        a
    }

    /** `mult_inv`: `InverseZero` exactly for `a == 0`; otherwise the base
        raised to `modulus - base`, reduced. The power is unchecked, so it
        must fit in 256 bits. This is not the Fermat inverse `a^(m-2)`. */
    function MultInv(a: U256): (r: Result<U256>)
      requires Valid()
      requires Power(InverseBase(a), modulus - InverseBase(a)) < U256_LIMIT
      ensures r.Err? <==> a == 0
      ensures r.Err? ==> r.error == InverseZero
      ensures r.Ok? ==> r.value < modulus
      ensures r.Ok? ==> r.value == Power(InverseBase(a), modulus - InverseBase(a)) % modulus
    {
      if a == 0 then
        Err(InverseZero)
      else if a > modulus then
        var modA := SelfMod(a);
        var powered := PowOrPanic(modA, SubOrPanic(modulus, modA));
        Ok(RemOrPanic(powered, modulus))
      else
        var powered := PowOrPanic(a, SubOrPanic(modulus, a));
        Ok(RemOrPanic(powered, modulus))
    }

    /** `div`: the integer quotient `a / b`, reduced; `Underflow` exactly
        for `b == 0`. This is not multiplication by an inverse of `b`. */
    function Div(a: U64, b: U64): (r: Result<U256>)
      requires Valid()
      ensures r.Err? <==> b == 0
      ensures r.Err? ==> r.error == Underflow
      ensures r.Ok? ==> r.value < modulus && r.value == (a / b) % modulus
    {
      match CheckedDiv(a, b)
      case Some(s) => Ok(RemOrPanic(s, modulus))
      case None => Err(Underflow)
    }

    /** `pow`: `Overflow` exactly when `a^power` does not fit in 256 bits;
        otherwise the full power, reduced. */
    function Pow(a: U64, power: U64): (r: Result<U256>)
      requires Valid()
      ensures r.Err? <==> Power(a, power) >= U256_LIMIT
      ensures r.Err? ==> r.error == Overflow
      ensures r.Ok? ==> r.value < modulus && r.value == Power(a, power) % modulus
    {
      match CheckedPow(a, power)
      case Some(p) => Ok(RemOrPanic(p, modulus))
      case None => Err(Overflow)
    }
  }

  /** `(m - a) % m` is the residue that cancels `a`, and it is `0` for
      `a == 0` (where `m - a` is the modulus itself). */
  lemma NegationCancels(a: nat, m: nat)
    requires 0 < m && a <= m
    ensures (m - a) % m < m
    ensures (a + (m - a) % m) % m == 0
    ensures a == 0 ==> (m - a) % m == 0
  {
    ModArith.ModUnique(m, m, 1, 0);
    if a > 0 {
      ModArith.ModUnique(m - a, m, 0, m - a);
    }
  }

  /** Both branches of `sub` give `(fa + m - fb) % m`, the residue that
      added to `b` is congruent to `fa`. */
  lemma SubCongruence(fa: nat, fb: nat, b: nat, m: nat, diff: nat)
    requires m > 0 && fa < m && fb == b % m
    requires diff == if fb > fa then (fa + m - fb) % m else fa - fb
    ensures diff == (fa + m - fb) % m
    ensures (diff + b) % m == fa
  {
    ModArith.ModAdd(diff, b, m);
    if fb > fa {
      ModArith.ModUnique(fa + m - fb, m, 0, fa + m - fb);
      assert diff == fa + m - fb;
      ModArith.ModUnique(diff, m, 0, diff);
      ModArith.ModUnique(fa + m, m, 1, fa);
    } else {
      ModArith.ModUnique(fa + m - fb, m, 1, diff);
      ModArith.ModUnique(diff, m, 0, diff);
      ModArith.ModUnique(fa, m, 0, fa);
    }
  }

  /** Two `u64` values multiply below 2^128, hence below 2^256. */
  lemma ProductOfU64Fits(a: U64, b: U64)
    ensures a * b < U64_LIMIT * U64_LIMIT
    ensures a * b < U256_LIMIT
  {
    ModArith.MulMonotone(a, b, U64_LIMIT - 1, U64_LIMIT - 1);
  }
}
