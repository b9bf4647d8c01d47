/**
 * Integer facts the multi-precision model leans on: powers, and the
 * division and remainder identities for non-negative operands that the
 * solver does not find on its own once the operands are symbolic.
 */
module Arith {

  /** b raised to the e-th power. */
  function Pow(b: nat, e: nat): (r: nat)
    ensures b > 0 ==> r > 0
  {
    if e == 0 then 1 else b * Pow(b, e - 1)
  }

  lemma PowPositive(b: nat, e: nat)
    requires b > 0
    ensures Pow(b, e) > 0
  {
  }

  lemma PowAdd(b: nat, m: nat, n: nat)
    ensures Pow(b, m + n) == Pow(b, m) * Pow(b, n)
    decreases m
  {
    if m > 0 {
      PowAdd(b, m - 1, n);
      calc {
        Pow(b, m + n);
        b * Pow(b, m - 1 + n);
        b * (Pow(b, m - 1) * Pow(b, n));
        { MulAssoc(b, Pow(b, m - 1), Pow(b, n)); }
        (b * Pow(b, m - 1)) * Pow(b, n);
      }
    }
  }

  /** 2^64, computed by repeated squaring. */
  lemma Pow2To64()
    ensures Pow(2, 64) == 0x1_0000_0000_0000_0000
  {
    assert Pow(2, 1) == 2;
    PowAdd(2, 1, 1);
    PowAdd(2, 2, 2);
    PowAdd(2, 4, 4);
    PowAdd(2, 8, 8);
    PowAdd(2, 16, 16);
    PowAdd(2, 32, 32);
  }

  lemma PowMul(b: nat, m: nat, n: nat)
    ensures Pow(b, m * n) == Pow(Pow(b, m), n)
    decreases n
  {
    if n > 0 {
      var k := m * (n - 1);
      MulSucc(m, n - 1);
      PowAdd(b, m, k);
      PowMul(b, m, n - 1);
      assert Pow(b, m * n) == Pow(b, m) * Pow(b, k);
    }
  }

  lemma PowMonotone(b: nat, m: nat, n: nat)
    requires b >= 1 && m <= n
    ensures Pow(b, m) <= Pow(b, n)
  {
    PowAdd(b, m, n - m);
    PowPositive(b, n - m);
    PowPositive(b, m);
    MulLe(1, Pow(b, n - m), Pow(b, m));
  }

  lemma PowStrict(b: nat, m: nat, n: nat)
    requires b >= 2 && m < n
    ensures Pow(b, m) < Pow(b, n)
  {
    PowMonotone(b, m, n - 1);
    PowPositive(b, n - 1);
  }

  lemma MulSucc(m: int, n: int)
    ensures m * (n + 1) == m + m * n
  {
  }

  lemma Distrib(a: int, x: int, y: int)
    ensures a * (x + y) == a * x + a * y
  {
  }

  lemma DistribRight(x: int, y: int, a: int)
    ensures (x + y) * a == x * a + y * a
  {
  }

  lemma MulPositive(a: nat, b: nat)
    requires a > 0 && b > 0
    ensures a * b > 0
  {
  }

  lemma MulAssoc(a: int, b: int, c: int)
    ensures a * (b * c) == (a * b) * c
  {
  }

  lemma MulLe(a: nat, b: nat, c: nat)
    requires a <= b
    ensures a * c <= b * c
  {
  }

  lemma MulLt(a: nat, b: nat, c: nat)
    requires a < b && c > 0
    ensures a * c < b * c
  {
  }

  /** Strict bounds multiply: x < xMax and y < yMax give x * y < xMax * yMax. */
  lemma MulStrictBound(x: nat, xMax: nat, y: nat, yMax: nat)
    requires x < xMax && y < yMax
    ensures x * y < xMax * yMax
  {
    MulLe(x, xMax - 1, y);
    MulLe(y, yMax - 1, xMax - 1);
  }

  /** A product smaller than its second factor has a zero first factor. */
  lemma MulBelowFactor(c: nat, p: nat)
    requires p > 0 && c * p < p
    ensures c == 0
  {
    if c >= 1 {
      MulLe(1, c, p);
    }
  }

  /** Division with remainder is unique: q and r are the quotient and remainder of x by d. */
  lemma DivModUnique(x: int, d: int, q: int, r: int)
    requires d > 0 && 0 <= r < d && x == q * d + r
    ensures x / d == q && x % d == r
  {
    var q', r' := x / d, x % d;
    assert x == q' * d + r';
    if q' > q {
      MulLe(1, q' - q, d);
    } else if q' < q {
      MulLe(1, q - q', d);
    }
  }

  /** x / d is the unique q with q*d <= x < (q+1)*d. */
  lemma DivBetween(x: int, d: int, q: int)
    requires d > 0 && q * d <= x < q * d + d
    ensures x / d == q
  {
    DivModUnique(x, d, q, x - q * d);
  }

  lemma MulDiv(a: int, d: int)
    requires d > 0
    ensures (a * d) / d == a && (a * d) % d == 0
  {
    DivModUnique(a * d, d, a, 0);
  }

  lemma DivAddMultiple(a: int, b: int, d: int)
    requires d > 0
    ensures (a + b * d) / d == a / d + b
    ensures (a + b * d) % d == a % d
  {
    DivModUnique(a + b * d, d, a / d + b, a % d);
  }

  /** Dividing by a and then by b is dividing by a*b. */
  lemma DivDiv(x: nat, a: nat, b: nat)
    requires a > 0 && b > 0
    ensures x / a / b == x / (a * b)
    ensures x % (a * b) == x % a + a * ((x / a) % b)
  {
    var q := x / a / b;
    var r := x % a + a * ((x / a) % b);
    assert x / a == q * b + (x / a) % b;
    assert x == (x / a) * a + x % a;
    calc {
      x;
      (q * b + (x / a) % b) * a + x % a;
      { MulAssoc(q, b, a); }
      q * (a * b) + r;
    }
    MulLe((x / a) % b, b - 1, a);
    DivModUnique(x, a * b, q, r);
  }

  lemma ModMod(x: nat, a: nat, b: nat)
    requires a > 0 && b > 0
    ensures (x % (a * b)) % a == x % a
  {
    var y := x % (a * b);
    assert x == (x / (a * b)) * (a * b) + y;
    MulAssoc(x / (a * b), b, a);
    assert x == y + ((x / (a * b)) * b) * a;
    DivAddMultiple(y, (x / (a * b)) * b, a);
  }

  lemma DivLe(x: nat, y: nat, d: nat)
    requires d > 0 && x <= y
    ensures x / d <= y / d
  {
    if x / d > y / d {
      MulLe(y / d + 1, x / d, d);
    }
  }

  /** Quotient and remainder of naturals are naturals, the remainder below d. */
  lemma DivModRange(x: nat, d: nat)
    requires d > 0
    ensures 0 <= x / d && 0 <= x % d < d
  {
  }

  lemma DivAtMost(x: nat, d: nat)
    requires d > 0
    ensures x / d <= x
  {
    if x / d > x {
      MulLe(1, d, x / d);
    }
  }

  /** Multiplying by a power of the divisor and dividing again loses nothing. */
  lemma DivMulLe(x: nat, d: nat)
    requires d > 0
    ensures (x / d) * d <= x
  {
  }

  /** (x*q) mod (p*q) keeps only x mod p, scaled by q. */
  lemma ModScale(x: nat, p: nat, q: nat)
    requires p > 0 && q > 0
    ensures (x * q) % (p * q) == (x % p) * q
    ensures (x * q) / (p * q) == x / p
  {
    assert x == (x / p) * p + x % p;
    calc {
      x * q;
      ((x / p) * p + x % p) * q;
      { MulAssoc(x / p, p, q); }
      (x / p) * (p * q) + (x % p) * q;
    }
    MulLt(x % p, p, q);
    DivModUnique(x * q, p * q, x / p, (x % p) * q);
  }

  lemma ModAddLeft(a: int, b: int, d: int)
    requires d > 0
    ensures (a + b) % d == (a % d + b) % d
  {
    DivAddMultiple(a % d + b, a / d, d);
  }

  lemma ModMulLeft(a: int, b: int, d: int)
    requires d > 0
    ensures (a * b) % d == ((a % d) * b) % d
  {
    assert a == (a / d) * d + a % d;
    assert a * b == (a % d) * b + ((a / d) * b) * d;
    DivAddMultiple((a % d) * b, (a / d) * b, d);
  }

  lemma ModSubLeft(a: int, b: int, d: int)
    requires d > 0
    ensures (a - b) % d == (a % d - b) % d
  {
    DivAddMultiple(a % d - b, a / d, d);
  }

  /** Congruence is an equivalence compatible with + and *. */
  lemma ModCongruentAdd(a: int, a': int, b: int, b': int, d: int)
    requires d > 0 && a % d == a' % d && b % d == b' % d
    ensures (a + b) % d == (a' + b') % d
  {
    ModAddLeft(a, b, d);
    ModAddLeft(b, a, d);
    ModAddLeft(a', b', d);
    ModAddLeft(b', a', d);
    ModAddLeft(b, a % d, d);
    ModAddLeft(b', a' % d, d);
  }

  lemma ModCongruentMul(a: int, a': int, b: int, b': int, d: int)
    requires d > 0 && a % d == a' % d && b % d == b' % d
    ensures (a * b) % d == (a' * b') % d
  {
    ModMulLeft(a, b, d);
    ModMulLeft(a', b', d);
    ModMulLeft(b, a % d, d);
    ModMulLeft(b', a' % d, d);
  }

  lemma ModOfSmall(x: int, d: int)
    requires 0 <= x < d
    ensures x % d == x && x / d == 0
  {
    DivModUnique(x, d, 0, x);
  }

  /** Splitting off the lowest bit of the exponent: b^e = b^(e mod 2) (b^2)^(e/2). */
  lemma PowHalve(b: nat, e: nat)
    ensures Pow(b, e) == Pow(b, e % 2) * Pow(b * b, e / 2)
  {
    PowAdd(b, e % 2, 2 * (e / 2));
    PowMul(b, 2, e / 2);
    assert Pow(b, 2) == b * b;
  }

  /** Congruent bases have congruent powers. */
  lemma {:induction false} PowCongruent(x: nat, y: nat, e: nat, d: nat)
    requires d > 0 && x % d == y % d
    ensures Pow(x, e) % d == Pow(y, e) % d
  {
    if e > 0 {
      PowCongruent(x, y, e - 1, d);
      ModCongruentMul(x, y, Pow(x, e - 1), Pow(y, e - 1), d);
    }
  }
}
