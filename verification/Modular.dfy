/** Division with remainder by a positive number, and powers. */
module Modular {

  lemma DivModUnique(a: int, n: int, q: int, r: int)
    requires 0 <= r < n && a == n * q + r
    ensures a / n == q && a % n == r
  {
    NoMultipleBetween(n, q, a / n, r, a % n);
  }

  lemma NoMultipleBetween(n: int, q: int, q': int, r: int, r': int)
    requires 0 <= r < n && 0 <= r' < n && n * q + r == n * q' + r'
    ensures q == q' && r == r'
  {
    if q < q' {
      AtLeastOnce(n, q' - q);
    } else if q' < q {
      AtLeastOnce(n, q - q');
    }
  }

  lemma AtLeastOnce(n: int, d: int)
    requires 0 < n && 1 <= d
    ensures n <= n * d
  {
  }

  /** Numbers less than n apart have different remainders. */
  lemma RemaindersDiffer(a: int, b: int, n: int)
    requires a < b < a + n
    ensures a % n != b % n
  {
    if a % n == b % n {
      DivModUnique(b - a, n, b / n - a / n, 0);
      DivModUnique(b - a, n, 0, b - a);
    }
  }

  /** How a counter that wraps at n goes on. */
  lemma NextRemainder(a: int, n: int)
    requires 0 < n
    ensures (a + 1) % n == if a % n + 1 == n then 0 else a % n + 1
  {
    if a % n + 1 == n {
      DivModUnique(a + 1, n, a / n + 1, 0);
    } else {
      DivModUnique(a + 1, n, a / n, a % n + 1);
    }
  }

  /** Equal remainders: the difference is a multiple. */
  lemma EqualRemainders(a: int, b: int, n: int)
    requires 0 < n
    ensures a % n == b % n <==> (a - b) % n == 0
  {
    var r := (a - b) % n;
    if r == 0 {
      DivModUnique(a, n, b / n + (a - b) / n, b % n);
    } else if a % n == b % n {
      DivModUnique(a - b, n, a / n - b / n, 0);
    }
  }

  lemma RemovesMultiples(a: int, n: int, k: int)
    requires 0 < n
    ensures (a + n * k) % n == a % n && (a + n * k) / n == a / n + k
  {
    DivModUnique(a + n * k, n, a / n + k, a % n);
  }

  lemma ProductBound(a: nat, a': nat, b: nat, b': nat)
    requires a <= a' && b <= b'
    ensures a * b <= a' * b'
  {
    assert a * b' == a * b + a * (b' - b);
    assert a' * b' == a * b' + (a' - a) * b';
  }

  function Power(base: nat, k: nat): (p: nat)
    ensures 1 <= base ==> 1 <= p
  {
    if k == 0 then 1
    else
      var p := Power(base, k - 1);
      assert 1 <= base && 1 <= p ==> 1 <= base * p;
      base * p
  }

  lemma {:induction false} PowersIncrease(base: nat, j: nat, k: nat)
    requires 1 <= base && j <= k
    ensures Power(base, j) <= Power(base, k)
  {
    if j < k {
      PowersIncrease(base, j, k - 1);
      AtLeastOnce(Power(base, k - 1), base);
    }
  }

  lemma {:induction false} PowerOfSum(base: nat, j: nat, k: nat)
    ensures Power(base, j + k) == Power(base, j) * Power(base, k)
  {
    if k > 0 {
      PowerOfSum(base, j, k - 1);
      var p, q := Power(base, j), Power(base, k - 1);
      assert base * (p * q) == p * (base * q);
    }
  }

  lemma PowersOfTwo()
    ensures Power(2, 9) == 0x200 && Power(2, 11) == 0x800 && Power(2, 32) == 0x1_0000_0000
  {
    assert Power(2, 8) == 0x100;
    assert Power(2, 16) == 0x1_0000;
    assert Power(2, 24) == 0x100_0000;
  }
}
