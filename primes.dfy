/** `isPrime(n)`: trial division by 2, by 3, and by the pairs `6k - 1`,
    `6k + 1` up to the square root. */
module Primes {

  /** `n` has no divisor strictly between 1 and itself. */
  predicate Prime(n: int)
  {
    n > 1 && forall d :: 1 < d < n ==> n % d != 0
  }

  /** Trial division found no divisor of `n` in `2 .. i - 1`. */
  predicate NoDivisorBelow(n: int, i: int)
  {
    forall d :: 1 < d < i ==> n % d != 0
  }

  /** `isPrime(n)` */
  method IsPrime(n: int) returns (r: bool)
    ensures r <==> Prime(n)
  {
    if n <= 1 {
      return false;
    }
    if n <= 3 {
      assert Prime(n) by {
        forall d | 1 < d < n
          ensures n % d != 0
        {
          assert n == 3 && d == 2;
        }
      }
      return true;
    }
    if n % 2 == 0 {
      Composite(n, 2);
      return false;
    }
    if n % 3 == 0 {
      Composite(n, 3);
      return false;
    }
    OnlySixKPlusMinusOne(n, 4);
    assert NoDivisorBelow(n, 5) by {
      forall d | 1 < d < 5
        ensures n % d != 0
      {
        assert d == 2 || d == 3 || d == 4;
      }
    }
    var i := 5;
    ghost var block := 0;
    while i * i <= n
      invariant block >= 0 && i == 6 * block + 5
      invariant NoDivisorBelow(n, i)
      decreases n - i
    {
      assert i + 2 < n by {
        MulAtLeast(i, i, 5);
      }
      if n % i == 0 {
        Composite(n, i);
        return false;
      }
      if n % (i + 2) == 0 {
        Composite(n, i + 2);
        return false;
      }
      NextBlock(n, i, block);
      i, block := i + 6, block + 1;
    }
    NoSmallDivisor(n, i);
    return true;
  }

  /** A divisor strictly between 1 and `n` makes `n` composite. */
  lemma Composite(n: int, d: int)
    requires 1 < d < n && n % d == 0
    ensures !Prime(n)
  {
  }

  /** Testing `i` and `i + 2` rules out every divisor below `i + 6`. */
  lemma NextBlock(n: int, i: int, block: nat)
    requires n > 3 && n % 2 != 0 && n % 3 != 0 && i == 6 * block + 5
    requires NoDivisorBelow(n, i)
    requires n % i != 0 && n % (i + 2) != 0
    ensures NoDivisorBelow(n, i + 6)
  {
    forall d | 1 < d < i + 6
      ensures n % d != 0
    {
      if d > i && d != i + 2 {
        assert d - 6 * block - 6 in {0, 2, 3, 4};
        assert d % 6 == d - 6 * block - 6 by {
          DivModUnique(d, 6, block + 1, d - 6 * block - 6);
        }
        OnlySixKPlusMinusOne(n, d);
      }
    }
  }

  /** Euclidean division is unique. */
  lemma DivModUnique(a: int, k: int, q: int, r: int)
    requires k > 0 && 0 <= r < k && a == k * q + r
    ensures a / k == q && a % k == r
  {
    var q0 := a / k;
    var r0 := a % k;
    var z := q - q0;
    assert k * z == r0 - r by {
      assert k * q - k * q0 == k * (q - q0);
    }
    if z > 0 {
      MulAtLeast(k, z, 1);
      assert false;
    } else if z < 0 {
      MulAtMost(k, z, -1);
      assert false;
    }
  }

  lemma MulAtLeast(a: int, b: int, c: int)
    requires a > 0 && b >= c
    ensures a * b >= a * c
  {
    assert a * b - a * c == a * (b - c);
  }

  lemma MulAtMost(a: int, b: int, c: int)
    requires a > 0 && b <= c
    ensures a * b <= a * c
  {
    assert a * c - a * b == a * (c - b);
  }

  /** A product is divisible by its factor. */
  lemma MultipleMod(n: int, k: int, m: int)
    requires k > 0 && n == k * m
    ensures n % k == 0
  {
    DivModUnique(n, k, m, 0);
  }

  /** A divisor of `n` that is a multiple of 2 or of 3 makes 2 or 3 a divisor
      of `n`: only `6k - 1` and `6k + 1` need testing. */
  lemma OnlySixKPlusMinusOne(n: int, d: int)
    requires n > 3 && n % 2 != 0 && n % 3 != 0 && d > 1
    requires d % 6 != 1 && d % 6 != 5
    ensures n % d != 0
  {
    if n % d == 0 {
      var q := n / d;
      assert n == d * q;
      var s := d / 6;
      assert d == 6 * s + d % 6;
      if d % 6 == 0 || d % 6 == 2 || d % 6 == 4 {
        var k := 3 * s + d % 6 / 2;
        assert d == 2 * k;
        assert n == 2 * (k * q);
        MultipleMod(n, 2, k * q);
      } else {
        var k := 2 * s + 1;
        assert d == 3 * k;
        assert n == 3 * (k * q);
        MultipleMod(n, 3, k * q);
      }
    }
  }

  /** A composite `n` has a divisor no larger than its square root, so a
      search that found none below `i` with `i * i > n` proves `n` prime. */
  lemma NoSmallDivisor(n: int, i: int)
    requires n > 1 && i > 1 && i * i > n
    requires NoDivisorBelow(n, i)
    ensures Prime(n)
  {
    forall d | 1 < d < n
      ensures n % d != 0
    {
      if n % d == 0 {
        CofactorSmall(n, d, i);
      }
    }
  }

  /** The cofactor of a divisor no smaller than `i` is smaller than `i`. */
  lemma CofactorSmall(n: int, d: int, i: int)
    requires n > 1 && i > 1 && i * i > n && 1 < d < n && n % d == 0
    ensures exists e :: 1 < e < i && n % e == 0
  {
    var q := n / d;
    assert n == d * q;
    if q <= 0 {
      MulAtLeast(d, 0, q);
    }
    assert q != 1;
    assert n == q * d;
    MultipleMod(n, q, d);
    if d < i {
      assert 1 < d < i && n % d == 0;
    } else {
      if q >= i {
        MulAtLeast(d, q, i);
        MulAtLeast(i, d, i);
        assert false;
      }
      assert 1 < q < i && n % q == 0;
    }
  }
}
