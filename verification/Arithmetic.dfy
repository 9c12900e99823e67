/** Division and remainder facts for variable divisors. */
module Arithmetic {

  lemma {:induction false} MulAtLeast(d: int, e: int)
    requires d > 0
    ensures e >= 1 ==> d * e >= d
    ensures e <= -1 ==> d * e <= -d
  {
  }

  /** The quotient and remainder of q * d + r are q and r. */
  lemma {:induction false} DivModUnique(d: nat, q: int, r: nat)
    requires 0 <= r < d
    ensures (q * d + r) / d == q && (q * d + r) % d == r
  {
    var x := q * d + r;
    assert x == d * (x / d) + x % d;
    var e := x / d - q;
    assert d * e == r - x % d by {
      assert d * e == d * (x / d) - d * q;
    }
    MulAtLeast(d, e);
  }

  /** Taking a remainder by a multiple of b first does not change the remainder by b. */
  lemma {:induction false} ModOfMultiple(n: int, b: nat, k: nat)
    requires b > 0 && k > 0 && b * k > 0
    ensures (n % (b * k)) % b == n % b
  {
    var q, r := n / (b * k), n % (b * k);
    assert n == (b * k) * q + r;
    assert n == (k * q + r / b) * b + r % b by {
      assert r == b * (r / b) + r % b;
      assert (b * k) * q == (k * q) * b;
      assert (k * q + r / b) * b == (k * q) * b + (r / b) * b;
    }
    DivModUnique(b, k * q + r / b, r % b);
  }

  /** Block number of a remainder: dividing n mod (b * k) by b gives n / b mod k. */
  lemma {:induction false} DivOfRemainder(n: int, b: nat, k: nat)
    requires b > 0 && k > 0 && b * k > 0
    ensures (n % (b * k)) / b == (n / b) % k
  {
    var h := n / b;
    TwoDigits(b, k, h / k, h % k, n % b);
    assert n == (h / k) * (b * k) + ((h % k) * b + n % b) by {
      assert n == b * h + n % b;
      assert h == k * (h / k) + h % k;
      Regroup(b, k, h / k, h % k);
    }
  }

  lemma {:induction false} Regroup(b: int, k: int, q: int, x: int)
    ensures b * (k * q + x) == q * (b * k) + x * b
  {
    assert b * (k * q + x) == b * (k * q) + b * x;
    assert b * (k * q) == q * (b * k);
  }

  /** The digits of q * (b * k) + x * b + y. */
  lemma {:induction false} TwoDigits(b: nat, k: nat, q: int, x: nat, y: nat)
    requires b * k > 0 && x < k && y < b
    ensures (q * (b * k) + (x * b + y)) % (b * k) == x * b + y
    ensures (x * b + y) / b == x
  {
    assert x * b + y < b * k by {
      assert x * b <= (k - 1) * b by { MulMonotone(x, k - 1, b); }
      assert (k - 1) * b == b * k - b;
    }
    DivModUnique(b * k, q, x * b + y);
    DivModUnique(b, x, y);
  }

  lemma {:induction false} MulMonotone(x: int, y: int, b: nat)
    requires x <= y
    ensures x * b <= y * b
  {
  }

  lemma {:induction false} DivMonotone(x: int, y: int, d: nat)
    requires d > 0 && x <= y
    ensures x / d <= y / d
  {
    if x / d > y / d {
      assert x == d * (x / d) + x % d && y == d * (y / d) + y % d;
      MulMonotone(y / d + 1, x / d, d);
    }
  }

  /** Remainders of a difference depend only on the remainders. */
  lemma {:induction false} ModOfDifference(a: int, b: int, d: nat)
    requires d > 0
    ensures (a % d - b % d) % d == (a - b) % d
  {
    var qa, qb := a / d, b / d;
    var e := a % d - b % d;
    assert a == d * qa + a % d && b == d * qb + b % d;
    assert a - b == d * (qa - qb) + e by {
      assert d * (qa - qb) == d * qa - d * qb;
    }
    assert a - b == (qa - qb + e / d) * d + e % d by {
      assert e == d * (e / d) + e % d;
      assert (qa - qb + e / d) * d == d * (qa - qb) + d * (e / d);
    }
    DivModUnique(d, qa - qb + e / d, e % d);
  }

  /** Multiplication as repeated addition, for definitions that most proofs should see through unevaluated. */
  function Times(a: nat, b: nat): nat {
    if b == 0 then 0 else a + Times(a, b - 1)
  }

  lemma {:induction false} TimesIsProduct(a: nat, b: nat)
    ensures Times(a, b) == a * b
  {
    if b > 0 {
      TimesIsProduct(a, b - 1);
      assert a * b == a + a * (b - 1);
    }
  }

  lemma {:induction false} QuotientBound(x: nat, n: nat, d: nat)
    requires d > 0 && x < n * d + d
    ensures x / d <= n
  {
    var e := x / d - n;
    assert x == d * (x / d) + x % d;
    assert d * e == d * (x / d) - n * d;
    MulAtLeast(d, e);
  }
}
