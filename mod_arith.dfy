/** Facts about Euclidean division, remainder and powers on naturals that
    the field laws are built from. */
module ModArith {

  /** The mathematical power `b^e`, with `0^0 == 1`. */
  function Power(b: nat, e: nat): nat
    decreases e
  {
    if e == 0 then 1 else b * Power(b, e - 1)
  }

  /** A power of a sum of exponents is the product of the powers. */
  lemma {:induction false} PowerAdd(b: nat, p: nat, q: nat)
    ensures Power(b, p + q) == Power(b, p) * Power(b, q)
    decreases p
  {
    if p > 0 {
      PowerAdd(b, p - 1, q);
      var x, y := Power(b, p - 1), Power(b, q);
      calc {
        Power(b, p + q);
        b * Power(b, p - 1 + q);
        b * (x * y);
        { MulAssociative(b, x, y); }
        (b * x) * y;
        Power(b, p) * y;
      }
    }
  }

  /** Multiplication of naturals is associative. */
  lemma MulAssociative(a: nat, b: nat, c: nat)
    ensures a * (b * c) == (a * b) * c
  {
  }

  /** Every power of one is one. */
  lemma {:induction false} PowerOfOne(e: nat)
    ensures Power(1, e) == 1
    decreases e
  {
    if e > 0 {
      PowerOfOne(e - 1);
    }
  }

  /** A positive power of zero is zero. */
  lemma PowerOfZero(e: nat)
    requires e > 0
    ensures Power(0, e) == 0
  {
  }

  /** For a positive base, raising the exponent never lowers the power. */
  lemma {:induction false} PowerMonotone(b: nat, p: nat, q: nat)
    requires b > 0
    ensures Power(b, p) <= Power(b, p + q)
  {
    PowerAdd(b, p, q);
    PowerPositive(b, q);
    MulMonotone(Power(b, p), 1, Power(b, p), Power(b, q));
  }

  /** A positive base has positive powers. */
  lemma {:induction false} PowerPositive(b: nat, e: nat)
    requires b > 0
    ensures Power(b, e) > 0
    decreases e
  {
    if e > 0 {
      PowerPositive(b, e - 1);
      MulMonotone(1, 1, b, Power(b, e - 1));
    }
  }

  /** The quotient and remainder are determined by the division equation. */
  lemma ModUnique(x: int, m: int, q: int, r: int)
    requires m > 0 && 0 <= r < m && x == q * m + r
    ensures x % m == r && x / m == q
  {
    var q', r' := x / m, x % m;
    var d := q - q';
    assert d * m == r' - r by {
      assert q * m + r == q' * m + r';
      assert (q - q') * m == q * m - q' * m;
    }
    if d > 0 {
      MulAtLeast(d, m);
    } else if d < 0 {
      MulAtLeast(-d, m);
    }
  }

  /** A positive multiple of m is at least m. */
  lemma MulAtLeast(d: int, m: int)
    requires d >= 1 && m > 0
    ensures d * m >= m
  {
    assert d * m == (d - 1) * m + m;
    assert (d - 1) * m >= 0;
  }

  /** Multiplication of naturals is monotone in both factors. */
  lemma MulMonotone(a: nat, b: nat, c: nat, d: nat)
    requires a <= c && b <= d
    ensures a * b <= c * d
  {
    assert a * b <= c * b by {
      assert c * b == a * b + (c - a) * b;
    }
    assert c * b <= c * d by {
      assert c * d == c * b + c * (d - b);
    }
  }

  /** Reducing twice is reducing once. */
  lemma ModMod(x: nat, m: nat)
    requires m > 0
    ensures (x % m) % m == x % m
  {
    ModUnique(x % m, m, 0, x % m);
  }

  /** Adding a multiple of the modulus does not change the remainder. */
  lemma ModAddMultiple(x: nat, k: nat, m: nat)
    requires m > 0
    ensures (x + k * m) % m == x % m
  {
    ModUnique(x + k * m, m, x / m + k, x % m);
  }

  /** Reducing the left term of a sum first does not change the remainder. */
  lemma ModAddLeft(x: nat, y: nat, m: nat)
    requires m > 0
    ensures (x % m + y) % m == (x + y) % m
  {
    ModAddMultiple(x % m + y, x / m, m);
    assert x % m + y + (x / m) * m == x + y;
  }

  /** Reducing the right factor of a product first does not change the
      remainder. */
  lemma ModMulRight(x: nat, y: nat, m: nat)
    requires m > 0
    ensures (x * (y % m)) % m == (x * y) % m
  {
    var q, r := y / m, y % m;
    assert x * y == x * r + (x * q) * m by {
      assert y == q * m + r;
      assert x * (q * m + r) == x * r + (x * q) * m;
    }
    ModAddMultiple(x * r, x * q, m);
  }

  /** Addition modulo m is associative. */
  lemma ModAddAssociative(a: nat, b: nat, c: nat, m: nat)
    requires m > 0
    ensures ((a + b) % m + c) % m == (a + (b + c) % m) % m
  {
    var rx, ry := (a + b) % m, (b + c) % m;
    ModAddLeft(a + b, c, m);
    ModAddLeft(b + c, a, m);
    assert (rx + c) % m == (a + ry) % m by {
      assert a + b + c == b + c + a;
      assert a + ry == ry + a;
    }
  }

  /** m - 1 is its own inverse modulo m. */
  lemma MinusOneSquared(m: nat)
    requires m > 1
    ensures ((m - 1) * (m - 1)) % m == 1
  {
    assert (m - 1) * (m - 1) == (m - 2) * m + 1;
    ModUnique((m - 1) * (m - 1), m, m - 2, 1);
  }

  /** The remainder of a sum depends only on the remainders of the terms. */
  lemma ModAdd(x: nat, y: nat, m: nat)
    requires m > 0
    ensures (x + y) % m == (x % m + y % m) % m
  {
    var s := x % m + y % m;
    ModUnique(x + y, m, x / m + y / m + s / m, s % m);
  }

  /** The remainder of a product depends only on the remainders of the factors. */
  lemma ModMul(x: nat, y: nat, m: nat)
    requires m > 0
    ensures (x * y) % m == ((x % m) * (y % m)) % m
  {
    var rx, ry := x % m, y % m;
    ModMulRight(x, y, m);
    ModMulRight(ry, x, m);
    assert x * ry == ry * x;
    assert ry * rx == rx * ry;
  }

  /** Two values below the modulus with the same remainder are equal. */
  lemma ModInjective(x: nat, y: nat, m: nat)
    requires m > 0 && x < m && y < m && x % m == y % m
    ensures x == y
  {
    ModUnique(x, m, 0, x);
    ModUnique(y, m, 0, y);
  }

  /** Adding the same value on both sides can be cancelled modulo m. */
  lemma ModCancelAdd(x: nat, y: nat, b: nat, m: nat)
    requires m > 0 && (x + b) % m == (y + b) % m
    ensures x % m == y % m
  {
    ModAdd(x, b, m);
    ModAdd(y, b, m);
    CancelResidues(x % m, y % m, b % m, m);
  }

  /** Cancelling a common term from two sums of residues. */
  lemma CancelResidues(u: nat, v: nat, c: nat, m: nat)
    requires u < m && v < m && c < m && (u + c) % m == (v + c) % m
    ensures u == v
  {
    ReduceBelowTwice(u + c, m);
    ReduceBelowTwice(v + c, m);
  }

  /** Reducing a value below 2m subtracts m at most once. */
  lemma ReduceBelowTwice(s: nat, m: nat)
    requires m > 0 && s < 2 * m
    ensures s % m == if s < m then s else s - m
  {
    if s < m {
      ModUnique(s, m, 0, s);
    } else {
      ModUnique(s, m, 1, s - m);
    }
  }
}
