/** The test helpers of tests/mersenne_test.rs: the trial-division primality
    test and the Mersenne modulus `2^n - 1` for a prime `n`. */
module Mersenne {
  import opened Uint
  import opened Errors
  import opened ModArith
  import opened Math

  /** `d` is a positive divisor of `n`. */
  predicate Divides(d: nat, n: nat) {
    d > 0 && n % d == 0
  }

  /** `n` is prime: above 1 with no divisor strictly between 1 and `n`. */
  ghost predicate IsPrimeNumber(n: nat) {
    n > 1 && forall d :: 1 < d < n ==> !Divides(d, n)
  }

  /** The integer square root: the largest `r` with `r * r <= n`. It stands
      in for the truncated floating-point square root the source uses. */
  function ISqrt(n: nat): (r: nat)
    ensures r * r <= n < (r + 1) * (r + 1)
    decreases n
  {
    if n < 4 then
      if n == 0 then 0 else 1
    else
      var h := ISqrt(n / 4);
      ISqrtStep(n, h);
      if (2 * h + 1) * (2 * h + 1) <= n then 2 * h + 1 else 2 * h
  }

  /** The root of `n` is twice the root of `n / 4`, or one more. */
  lemma ISqrtStep(n: nat, h: nat)
    requires h * h <= n / 4 < (h + 1) * (h + 1)
    ensures (2 * h) * (2 * h) <= n < (2 * h + 2) * (2 * h + 2)
  {
    var q := n / 4;
    assert (2 * h) * (2 * h) == 4 * (h * h);
    assert q + 1 <= (h + 1) * (h + 1);
    assert (2 * h + 2) * (2 * h + 2) == 4 * ((h + 1) * (h + 1));
  }

  /** Divisibility is transitive. */
  lemma DividesTransitive(a: nat, b: nat, c: nat)
    requires Divides(a, b) && Divides(b, c)
    ensures Divides(a, c)
  {
    var k, j := b / a, c / b;
    assert b == a * k;
    assert c == b * j;
    assert c == a * (k * j);
    ModUnique(c, a, k * j, 0);
  }

  /** The early answers of `is_prime`: nothing below 2 is prime, 2 and 3
      are, and no larger multiple of 2 or 3 is. */
  lemma PrimeSmallCases(n: nat)
    ensures n <= 1 ==> !IsPrimeNumber(n)
    ensures n == 2 || n == 3 ==> IsPrimeNumber(n)
    ensures n > 3 && (n % 2 == 0 || n % 3 == 0) ==> !IsPrimeNumber(n)
  {
    if n == 3 {
      forall d | 1 < d < 3 ensures !Divides(d, 3) {
        assert d == 2;
      }
    }
    if n > 3 && n % 2 == 0 {
      assert Divides(2, n);
    }
    if n > 3 && n % 3 == 0 {
      assert Divides(3, n);
    }
  }

  /** A number above 1 with no divisor in `(1, r]`, where `r` is its
      integer square root, is prime: a divisor above `r` pairs with one
      at most `r`. */
  lemma NoDivisorUpToRootMeansPrime(n: nat, r: nat)
    requires n > 1 && r * r <= n < (r + 1) * (r + 1)
    requires forall d :: 1 < d <= r ==> !Divides(d, n)
    ensures IsPrimeNumber(n)
  {
    forall d | 1 < d < n ensures !Divides(d, n) {
      if Divides(d, n) {
        var e := n / d;
        assert n == d * e;
        assert e > 1;
        ModUnique(n, e, d, 0);
        assert Divides(e, n);
        assert d > r;
        assert e > r;
        MulMonotone(r + 1, r + 1, d, e);
        assert false;
      }
    }
  }

  /** An odd number that 3 does not divide has no divisor in `(1, 5)`. */
  lemma NoDivisorBelowFive(n: nat)
    requires n % 2 != 0 && n % 3 != 0
    ensures forall d :: 1 < d < 5 ==> !Divides(d, n)
  {
    forall d | 1 < d < 5 ensures !Divides(d, n) {
      if d == 4 && Divides(4, n) {
        DividesTransitive(2, 4, n);
      }
    }
  }

  /** One round of the loop: when neither `i` nor `i + 2` divides `n`,
      there is no divisor below `i + 6` either, because `i + 1`, `i + 3`
      and `i + 5` are even and `i + 4` is a multiple of 3. */
  lemma NoDivisorInNextBlock(n: nat, i: nat, k: nat)
    requires n % 2 != 0 && n % 3 != 0 && i == 6 * k + 5
    requires !Divides(i, n) && !Divides(i + 2, n)
    requires forall d :: 1 < d < i ==> !Divides(d, n)
    ensures forall d :: 1 < d < i + 6 ==> !Divides(d, n)
  {
    forall d | 1 < d < i + 6 ensures !Divides(d, n) {
      if i <= d && Divides(d, n) {
        if d == i + 4 {
          ModUnique(d, 3, 2 * k + 3, 0);
          DividesTransitive(3, d, n);
        } else if d != i && d != i + 2 {
          ModUnique(d, 2, (d - 6 * k) / 2 + 3 * k, 0);
          DividesTransitive(2, d, n);
        }
      }
    }
  }

  /** A candidate `i` at most the root of `n`, or `i + 2`, that divides `n`
      is a proper divisor, so `n` is not prime. */
  lemma CandidateDivisorRefutes(n: nat, i: nat, root: nat)
    requires root * root <= n && 5 <= i <= root
    requires Divides(i, n) || Divides(i + 2, n)
    ensures !IsPrimeNumber(n)
  {
    MulMonotone(5, root, root, root);
    assert i + 2 < n;
  }

  /** `is_prime`: trial division by 2, 3 and then by every `i` and `i + 2`
      for `i = 5, 11, 17, ...` below `isqrt(n) + 1`. The answer is true
      exactly for prime `n`. */
  method IsPrime(n: Usize) returns (b: bool)
    ensures b <==> IsPrimeNumber(n)
  {
    PrimeSmallCases(n);
    if n <= 1 {
      return false;
    } else if n <= 3 {
      return true;
    } else if n % 2 == 0 || n % 3 == 0 {
      return false;
    }
    var root := ISqrt(n);
    var limit := root + 1;
    var i := 5;
    ghost var k := 0;
    NoDivisorBelowFive(n);
    while i < limit
      invariant i == 6 * k + 5
      invariant forall d :: 1 < d < i ==> !Divides(d, n)
    {
      if n % i == 0 || n % (i + 2) == 0 {
        assert Divides(i, n) || Divides(i + 2, n);
        CandidateDivisorRefutes(n, i, root);
        return false;
      }
      assert !Divides(i, n) && !Divides(i + 2, n);
      NoDivisorInNextBlock(n, i, k);
      i, k := i + 6, k + 1;
    }
    assert forall d :: 1 < d <= root ==> !Divides(d, n);
    NoDivisorUpToRootMeansPrime(n, root);
    return true;
  }

  /** Two to a power below 64 fits in a `usize`. */
  lemma PowerOfTwoFitsUsize(n: nat)
    requires n < 64
    ensures 1 <= Power(2, n) < U64_LIMIT
  {
    PowerPositive(2, n);
    PowerMonotone(2, n, 63 - n);
    assert Power(2, 7) == 0x80;
    PowerAdd(2, 7, 7);
    assert Power(2, 14) == 0x4000;
    PowerAdd(2, 14, 14);
    assert Power(2, 28) == 0x1000_0000;
    PowerAdd(2, 28, 28);
    assert Power(2, 56) == 0x100_0000_0000_0000;
    PowerAdd(2, 56, 7);
    assert Power(2, 63) == 0x8000_0000_0000_0000;
  }

  /** `get_mersenne_mod`: `None` stands for the process exit taken for a
      non-prime `n`; for a prime `n` the result is `2^n - 1`. The `usize`
      power panics from `n == 64` on, so a prime `n` must be below 64. */
  method GetMersenneMod(n: Usize) returns (r: Option<U256>)
    requires IsPrimeNumber(n) ==> n < 64
    ensures r.None? <==> !IsPrimeNumber(n)
    ensures r.Some? ==> r.value == Power(2, n) - 1 && r.value < U64_LIMIT
  {
    var prime := IsPrime(n);
    if !prime {
      return None;
    }
    PowerOfTwoFitsUsize(n);
    var p := Power(2, n) - 1;
    return Some(p);
  }

  /** The Mersenne addition case: 7 is prime, `2^7 - 1` is 127, and with
      modulus 127, `add(91, 108)` is 72. */
  lemma MersenneSevenAddition()
    ensures IsPrimeNumber(7)
    ensures Power(2, 7) - 1 == 127
    ensures Field.New(127) == Ok(Field(127))
    ensures Field(127).Add(91, 108) == Ok(72)
  {
    forall d | 1 < d < 7 ensures !Divides(d, 7) {
      assert d == 2 || d == 3 || d == 4 || d == 5 || d == 6;
    }
  }
}
