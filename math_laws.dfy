/** Laws that relate the `Field` operations to one another, and the
    concrete cases that show where `mult_inv` and `div` differ from the
    inverse and the modular division their comments describe. */
module MathLaws {
  import opened Uint
  import opened Errors
  import opened ModArith
  import opened Math

  /** `self_mod` is idempotent. */
  lemma SelfModIdempotent(f: Field, a: U256)
    requires f.Valid()
    ensures f.SelfMod(f.SelfMod(a)) == f.SelfMod(a)
  {
    ModMod(a, f.modulus);
  }

  /** `add` is associative on the values it returns. */
  lemma AddAssociative(f: Field, a: U64, b: U64, c: U64)
    requires f.Valid()
    ensures f.Add(f.Add(a, b).value, c) == f.Add(a, f.Add(b, c).value)
  {
    ModAddAssociative(a, b, c, f.modulus);
  }

  /** Subtracting what was added gives back the first operand, reduced. */
  lemma AddSubRoundTrip(f: Field, a: U64, b: U64)
    requires f.Valid()
    ensures f.Sub(f.Add(a, b).value, b) == Ok(a % f.modulus)
  {
    var m := f.modulus;
    var s := f.Add(a, b).value;
    var d := f.Sub(s, b).value;
    ModMod(a + b, m);
    assert (d + b) % m == (a + b) % m;
    ModCancelAdd(d, a, b, m);
    ModMod(d, m);
    ModMod(a, m);
    ModInjective(d, a % m, m);
  }

  /** Adding the result of `sub` back restores the first operand, reduced. */
  lemma SubAddRoundTrip(f: Field, a: U64, b: U64)
    requires f.Valid()
    ensures f.Add(f.Sub(a, b).value, b) == Ok(a % f.modulus)
  {
  }

  /** `sub` is `add` of the additive inverse of the reduced subtrahend. */
  lemma SubIsAddOfInverse(f: Field, a: U64, b: U64)
    requires f.Valid()
    ensures f.Sub(a, b) == f.Add(a, f.AddInv(b % f.modulus).value)
  {
    var m := f.modulus;
    var fb := b % m;
    var x := f.AddInv(fb).value;
    assert x == (m - fb) % m;
    ModAdd(a, x, m);
    ModMod(m - fb, m);
    ModAdd(a, m - fb, m);
    assert (a % m + (m - fb) % m) % m == (a % m + m - fb) % m by {
      ModAdd(a % m, m - fb, m);
      ModMod(a, m);
    }
  }

  /** The additive inverse cancels its argument under `add`. */
  lemma AddInvCancels(f: Field, a: U256)
    requires f.Valid() && a <= f.modulus
    ensures f.Add(a, f.AddInv(a).value) == Ok(0)
  {
  }

  /** The additive inverse is the only residue that cancels `a`. */
  lemma AddInvUnique(f: Field, a: U256, x: nat)
    requires f.Valid() && a <= f.modulus
    requires x < f.modulus && (a + x) % f.modulus == 0
    ensures x == f.AddInv(a).value
  {
    var m := f.modulus;
    var y := f.AddInv(a).value;
    assert (x + a) % m == (y + a) % m;
    ModCancelAdd(x, y, a, m);
    ModInjective(x, y, m);
  }

  /** Taking the additive inverse twice gives back `a`, reduced. */
  lemma AddInvInvolutive(f: Field, a: U256)
    requires f.Valid() && a <= f.modulus
    ensures f.AddInv(f.AddInv(a).value) == Ok(a % f.modulus)
  {
    var m := f.modulus;
    if a == 0 || a == m {
      ModUnique(m, m, 1, 0);
      ModUnique(0, m, 0, 0);
      assert f.AddInv(a).value == 0;
    } else {
      ModUnique(m - a, m, 0, m - a);
      assert f.AddInv(a).value == m - a;
      ModUnique(a, m, 0, a);
    }
  }

  /** `mult` distributes over `add`. */
  lemma MultDistributesOverAdd(f: Field, a: U64, b: U64, c: U64)
    requires f.Valid()
    ensures f.Mult(a, f.Add(b, c).value) == f.Add(f.Mult(a, b).value, f.Mult(a, c).value)
  {
    var m := f.modulus;
    ModMulRight(a, b + c, m);
    assert a * (b + c) == a * b + a * c;
    ModAdd(a * b, a * c, m);
  }

  /** Squaring with `pow` agrees with `mult`. */
  lemma PowSquareIsMult(f: Field, a: U64)
    requires f.Valid()
    ensures f.Pow(a, 2) == f.Mult(a, a)
  {
    assert Power(a, 2) == a * a by {
      assert Power(a, 1) == a;
    }
    ProductOfU64Fits(a, a);
  }

  /** When `a^(p+q)` fits, `pow` turns a sum of exponents into a `mult`
      of the two smaller powers, neither of which overflows. */
  lemma PowAddExponents(f: Field, a: U64, p: U64, q: U64)
    requires f.Valid()
    requires p + q < U64_LIMIT && Power(a, p + q) < U256_LIMIT
    ensures f.Pow(a, p).Ok? && f.Pow(a, q).Ok?
    ensures f.Pow(a, p + q) == f.Mult(f.Pow(a, p).value, f.Pow(a, q).value)
  {
    var m := f.modulus;
    PowerAdd(a, p, q);
    if a == 0 {
      assert Power(a, p) <= 1 && Power(a, q) <= 1 by {
        if p > 0 { PowerOfZero(p); }
        if q > 0 { PowerOfZero(q); }
      }
    } else {
      PowerMonotone(a, p, q);
      PowerMonotone(a, q, p);
    }
    ModMul(Power(a, p), Power(a, q), m);
  }

  /** `div` undoes an exact multiplication: it is integer division. */
  lemma DivOfMultiple(f: Field, b: U64, k: nat)
    requires f.Valid() && b != 0 && b * k < U64_LIMIT
    ensures f.Div(b * k, b) == Ok(k % f.modulus)
  {
    ModUnique(b * k, b, k, 0);
  }

  /** With modulus 7, `div(3, 2)` is 1 although 1 times 2 is not 3 modulo
      7: `div` is the integer quotient, not division by an inverse. */
  lemma DivIsNotModularDivision()
    ensures Field(7).Div(3, 2) == Ok(1)
    ensures Field(7).Mult(1, 2) == Ok(2)
  {
  }

  /** For `a == 1`, `mult_inv` returns 1, an inverse of 1. */
  lemma MultInvOfOne(f: Field)
    requires f.Valid() && f.modulus > 1
    ensures Power(1, f.modulus - 1) < U256_LIMIT
    ensures f.MultInv(1) == Ok(1) && f.Mult(1, 1) == Ok(1)
  {
    var m := f.modulus;
    assert f.InverseBase(1) == 1;
    PowerOfOne(m - 1);
    ModUnique(1, m, 0, 1);
  }

  /** For `a == modulus - 1`, `mult_inv` returns `modulus - 1`, whose
      product with itself is 1 modulo the modulus: an inverse. */
  lemma MultInvOfMinusOne(f: Field)
    requires f.Valid() && f.modulus > 1
    ensures f.MultInv(f.modulus - 1) == Ok(f.modulus - 1)
    ensures f.Mult(f.modulus - 1, f.modulus - 1) == Ok(1)
  {
    var m := f.modulus;
    assert f.InverseBase(m - 1) == m - 1;
    assert Power(m - 1, 1) == m - 1;
    ModUnique(m - 1, m, 0, m - 1);
    MinusOneSquared(m);
  }

  /** With modulus 7, `mult_inv(3)` is 3^4 mod 7 = 4, and 3 times 4 is 5
      modulo 7, not 1: `a^(m-a)` is not an inverse in general. */
  lemma MultInvNotAnInverse()
    ensures Power(3, 4) < U256_LIMIT
    ensures Field(7).MultInv(3) == Ok(4)
    ensures Field(7).Mult(3, 4) == Ok(5)
  {
  }

  /** `mult_inv` rejects only the literal zero: the modulus itself, which
      is zero modulo itself, is not reduced and gets `1 % modulus`. */
  lemma MultInvOfModulus(f: Field)
    requires f.Valid()
    ensures f.MultInv(f.modulus) == Ok(1 % f.modulus)
  {
    assert f.InverseBase(f.modulus) == f.modulus;
    assert Power(f.modulus, 0) == 1;
  }

  /** Twice the modulus is reduced to 0 and gets 0, which is not an
      inverse of anything. */
  lemma MultInvOfTwiceModulus(f: Field)
    requires f.Valid()
    ensures f.InverseBase(2 * f.modulus) == 0 && Power(0, f.modulus) == 0
    ensures f.MultInv(2 * f.modulus) == Ok(0)
  {
    var m := f.modulus;
    ModUnique(2 * m, m, 2, 0);
    PowerOfZero(m);
  }

  /** The literal cases exercised by the library's tests, with modulus 7. */
  lemma ModulusSevenCases()
    ensures Field.New(7) == Ok(Field(7))
    ensures Field.New(0) == Err(ModulusZero)
    ensures Field(7).Add(3, 6) == Ok(2)
    ensures Field(7).Sub(9, 6) == Ok(3)
    ensures Field(7).Sub(6, 9) == Ok(4)
    ensures Field(7).AddInv(6) == Ok(1)
    ensures Power(2, 5) < U256_LIMIT
    ensures Field(7).MultInv(2) == Ok(4)
    ensures Field(7).Div(4, 2) == Ok(2)
    ensures Field(7).Pow(8, 2) == Ok(1)
  {
  }
}
