/**
 * Barrett reduction (Menezes, van Oorschot and Vanstone, Handbook of
 * Applied Cryptography, Algorithm 14.42) with radix b = 2^64 and k the
 * number of limbs of the modulus m. mu = floor(b^(2k) / m) is computed
 * once; a reduction then costs two multiplications and at most two
 * subtractions of m.
 *
 * The code departs from the textbook algorithm in two places, and each is
 * modelled as written next to a corrected form: the quotient estimate
 * uses only the limbs of mu from k - 1 up, and on a borrow the remainder
 * gets 2^(64k) added although it is already reduced modulo 2^(64(k+1)).
 */
module Barrett {
  import opened Arith
  import opened Limbs
  import opened Utility
  import opened Slicing
  import opened RelationalOps
  import opened Addition
  import opened Mult
  import opened Division

  // ---------------------------------------------------------------------
  // The quotient estimate on plain numbers
  // ---------------------------------------------------------------------

  /** Cancelling a positive factor from a strict inequality. */
  lemma CancelPositive(a: int, b: int, c: int)
    requires c > 0 && a * c > b * c
    ensures a > b
  {
    if a <= b {
      Distrib(c, b, -a);
    }
  }

  /** x is its quotient by d times d plus its remainder. */
  lemma Split(x: nat, d: nat)
    requires d > 0
    ensures x == (x / d) * d + x % d
  {
  }

  /** A number above c * d has a quotient by d of at least c. */
  lemma QuotientAbove(a: nat, d: nat, c: int)
    requires d > 0 && a > c * d
    ensures a / d >= c
  {
    if a / d < c {
      DivModRange(a, d);
      MulLe(a / d + 1, c, d);
    }
  }

  /**
   * The estimate never exceeds the quotient: from q1 * b^(k-1) <= x and
   * mu * m <= b^(2k) = b^(k-1) * p, any e with e * p <= q1 * mu is at
   * most x / m.
   */
  lemma EstimateAtMost(x: nat, m: nat, mu: nat, q1: nat, bk1: nat, p: nat, e: nat)
    requires m > 0 && p > 0
    requires q1 * bk1 <= x && mu * m <= bk1 * p
    requires e * p <= q1 * mu
    ensures e <= x / m
  {
    MulLe(e * p, q1 * mu, m);
    MulAssoc(q1, mu, m);
    MulLe(mu * m, bk1 * p, q1);
    MulAssoc(q1, bk1, p);
    MulLe(q1 * bk1, x, p);
    assert (e * m) * p <= x * p by {
      MulAssoc(e, p, m);
      MulAssoc(e, m, p);
    }
    if e * m > x {
      MulLt(x, e * m, p);
    }
    MulDiv(e, m);
    DivLe(e * m, x, m);
  }

  /**
   * The estimate falls short of the quotient by less than two, up to a
   * loss: write x = q1 * b^(k-1) + t and b^(2k) = mu * m + s; as long as
   * x * s and the loss (scaled by m * b^(k-1)) stay within m * b^(2k),
   * q1 * mu - loss exceeds (x / m - 2) * p.
   */
  lemma EstimateAtLeast(x: nat, m: nat, mu: nat, q1: nat, t: nat, s: nat, bk1: nat, p: nat, loss: nat)
    requires 0 < bk1 <= m && p > 0
    requires x == q1 * bk1 + t && t < bk1
    requires bk1 * p == mu * m + s && s < m
    requires x * s + loss * (m * bk1) <= m * (bk1 * p)
    ensures q1 * mu - loss > (x / m - 2) * p
  {
    var b2k: int := bk1 * p;
    var mm: int := m * bk1;
    var q: nat := x / m;
    var a: int := q1 * mu;
    DivMulLe(x, m);
    MulLe(0, q, m);
    MulPositive(bk1, p);
    MulPositive(m, bk1);
    ProductOfDifferences(q1, bk1, mu, m, x, t, b2k, s);
    MulLe(0, t, s);
    MulLt(t, m, b2k);
    MulLe(q * m, x, b2k);
    var lost: int := loss;
    Distrib(mm, a, -lost);
    ScaledShortfall(q, m, p, bk1);
    assert (a - loss) * mm > (q - 2) * m * b2k;
    CancelPositive(a - loss, (q - 2) * p, mm);
  }

  /** (q1 * mu) * (m * bk1) expanded through x - t = q1 * bk1 and b2k - s = mu * m. */
  lemma ProductOfDifferences(q1: int, bk1: int, mu: int, m: int, x: int, t: int, b2k: int, s: int)
    requires x - t == q1 * bk1 && b2k - s == mu * m
    ensures (q1 * mu) * (m * bk1) == x * b2k - x * s - t * b2k + t * s
  {
    assert (q1 * mu) * (m * bk1) == (q1 * bk1) * (mu * m);
    assert (x - t) * (b2k - s) == x * b2k - x * s - t * b2k + t * s;
  }

  /** (q - 2) * m * b^(2k) regrouped as ((q - 2) * p) * (m * b^(k-1)). */
  lemma ScaledShortfall(q: int, m: int, p: int, bk1: int)
    ensures (q - 2) * m * (bk1 * p) == ((q - 2) * p) * (m * bk1)
    ensures (q - 2) * (m * p) == ((q - 2) * m) * p
    ensures (q - 2) * m * (bk1 * p) == q * m * (bk1 * p) - 2 * (m * (bk1 * p))
  {
  }

  /**
   * The textbook estimate floor(q1 * mu / b^(k+1)) with the full mu is the
   * quotient or at most two below it, for every x < b^(2k).
   */
  lemma FullEstimate(x: nat, m: nat, mu: nat, bk1: nat, p: nat, b2k: nat, e: nat)
    requires 0 < bk1 <= m && p > 0 && b2k == bk1 * p
    requires x < b2k
    requires mu == b2k / m
    requires e == ((x / bk1) * mu) / p
    ensures x / m - 2 <= e <= x / m
  {
    var q1 := x / bk1;
    DivModRange(x, bk1);
    DivModRange(bk1 * p, m);
    MulStrictBound(x, bk1 * p, (bk1 * p) % m, m);
    Split(x, bk1);
    Split(bk1 * p, m);
    EstimateAtLeast(x, m, mu, q1, x % bk1, (bk1 * p) % m, bk1, p, 0);
    QuotientAbove(q1 * mu, p, x / m - 2);
    DivMulLe(q1 * mu, p);
    EstimateAtMost(x, m, mu, q1, bk1, p, e);
  }

  /**
   * The estimate as written, floor(q1 * floor(mu / b^(k-1)) / b^2), is
   * also the quotient or at most two below it, but only for
   * x * (b^(k-1) + 1) <= b^(2k): the limbs of mu below k - 1 are dropped,
   * which costs up to x / b^(k+1) more.
   */
  lemma TruncatedEstimate(x: nat, m: nat, mu: nat, bk1: nat, bb: nat, p: nat, b2k: nat, e: nat)
    requires 0 < bk1 <= m && bb > 0 && p == bb * bk1 && b2k == bk1 * p
    requires x * (bk1 + 1) <= b2k
    requires mu == b2k / m
    requires e == ((x / bk1) * (mu / bk1)) / bb
    ensures x / m - 2 <= e <= x / m
  {
    var q1 := x / bk1;
    var muHigh := mu / bk1;
    DivModRange(x, bk1);
    DivModRange(bk1 * p, m);
    MulPositive(bb, bk1);
    var s := (bk1 * p) % m;
    LossWithin(x, m, s, bk1, p);
    Split(x, bk1);
    Split(bk1 * p, m);
    EstimateAtLeast(x, m, mu, q1, x % bk1, s, bk1, p, x);
    DroppedLimbs(x, q1, mu, bk1);
    ScaledShortfall(x / m, bb, bk1, 1);
    assert (q1 * muHigh) * bk1 > ((x / m - 2) * bb) * bk1;
    CancelPositive(q1 * muHigh, (x / m - 2) * bb, bk1);
    QuotientAbove(q1 * muHigh, bb, x / m - 2);
    TruncatedProduct(q1, mu, bk1, bb, e);
    EstimateAtMost(x, m, mu, q1, bk1, p, e);
  }

  /** Dropping mu mod b^(k-1) loses at most q1 * b^(k-1) <= x of q1 * mu. */
  lemma DroppedLimbs(x: nat, q1: nat, mu: nat, bk1: nat)
    requires bk1 > 0 && q1 * bk1 <= x
    ensures (q1 * (mu / bk1)) * bk1 >= q1 * mu - x
  {
    DivModRange(mu, bk1);
    MulLe(mu % bk1, bk1, q1);
    assert mu == (mu / bk1) * bk1 + mu % bk1;
    assert (q1 * (mu / bk1)) * bk1 == q1 * mu - q1 * (mu % bk1);
  }

  /** The loss bound EstimateAtLeast needs, from x * (b^(k-1) + 1) <= b^(2k). */
  lemma LossWithin(x: nat, m: nat, s: nat, bk1: nat, p: nat)
    requires s < m && x * (bk1 + 1) <= bk1 * p
    ensures x * s + x * (m * bk1) <= m * (bk1 * p)
  {
    MulLe(s, m, x);
    assert x * m + x * (m * bk1) == m * (x * (bk1 + 1));
    MulLe(x * (bk1 + 1), bk1 * p, m);
  }

  /** e = floor(q1 * floor(mu / b^(k-1)) / b^2) satisfies e * b^(k+1) <= q1 * mu. */
  lemma TruncatedProduct(q1: nat, mu: nat, bk1: nat, bb: nat, e: nat)
    requires bk1 > 0 && bb > 0
    requires e == (q1 * (mu / bk1)) / bb
    ensures e * (bb * bk1) <= q1 * mu
  {
    DivMulLe(q1 * (mu / bk1), bb);
    MulLe(e * bb, q1 * (mu / bk1), bk1);
    DivMulLe(mu, bk1);
    MulLe((mu / bk1) * bk1, mu, q1);
    MulAssoc(e, bb, bk1);
    MulAssoc(q1, mu / bk1, bk1);
  }

  /** With e within two of the quotient, x - e * m lies in [0, 3m) and is congruent to x. */
  lemma RemainderRange(x: nat, m: nat, e: nat)
    requires m > 0 && x / m - 2 <= e <= x / m
    ensures 0 <= x - e * m < 3 * m
    ensures (x - e * m) % m == x % m
  {
    var q := x / m;
    DivModRange(x, m);
    assert x - e * m == (x % m) + (q - e) * m;
    assert (q - e) * m <= 2 * m;
    DivAddMultiple(x % m, q - e, m);
    ModOfSmall(x % m, m);
  }

  /** x < m * b^(k-1) * 2^63 keeps x * (b^(k-1) + 1) within b^(2k) = (b^(k-1) * b)^2. */
  lemma QuotientRegime(x: nat, m: nat, bk1: nat)
    requires 0 < bk1 <= m < bk1 * BASE
    requires x / m < 0x8000_0000_0000_0000
    ensures x * (bk1 + 1) <= (bk1 * BASE) * (bk1 * BASE)
  {
    Split(x, m);
    DivModRange(x, m);
    MulLe(x / m + 1, 0x8000_0000_0000_0000, m);
    MulLe(x, 0x8000_0000_0000_0000 * m, bk1 + 1);
    MulLe(bk1 + 1, 2 * bk1, 0x8000_0000_0000_0000 * m);
    MulLe(m, bk1 * BASE, bk1 * BASE);
    assert (0x8000_0000_0000_0000 * m) * (2 * bk1) == m * (bk1 * BASE);
  }

  /** (a mod d - b mod d) mod d is (a - b) mod d. */
  lemma ModSubBoth(a: int, b: int, d: int)
    requires d > 0
    ensures (a % d - b % d) % d == (a - b) % d
  {
    ModSubLeft(a, b, d);
    assert a % d - b == (a % d - b % d) + (-(b / d)) * d;
    DivAddMultiple(a % d - b % d, -(b / d), d);
  }

  /** A sum that either fits or lost one n is the sum modulo n. */
  lemma WrapAdd(v: nat, a: nat, b: nat, n: nat)
    requires v < n && (v == a + b || v + n == a + b)
    ensures v == (a + b) % n
  {
    if v == a + b {
      ModOfSmall(v, n);
    } else {
      DivModUnique(a + b, n, 1, v);
    }
  }

  /**
   * The two guarded subtractions on numbers: below 3m they leave r mod m,
   * and from 3m up they take off exactly 2m.
   */
  lemma TwoSubtractions(r: nat, m: nat, once: nat, twice: nat, bk: nat)
    requires m < bk
    requires once == (if r >= m then r - m else r)
    requires twice == (if once >= m then once - m else once)
    ensures 0 < m && r < 3 * m ==> twice % bk == r % m
    ensures 0 < m && r >= 3 * m ==> twice == r - 2 * m
  {
    if 0 < m && r < 3 * m {
      if r < m {
        DivModUnique(r, m, 0, r);
      } else if r < 2 * m {
        DivModUnique(r, m, 1, r - m);
      } else {
        DivModUnique(r, m, 2, r - 2 * m);
      }
      ModOfSmall(twice, bk);
    }
  }

  // ---------------------------------------------------------------------
  // The reduction on limbs
  // ---------------------------------------------------------------------

  /**
   * Steps 1 and 2 as written: q3 = floor(floor(x / b^(k-1)) *
   * floor(mu / b^(k-1)) / b^2). The limbs of mu below k - 1 are not
   * used. The static lengths need k >= 1, x of at least k + 1 limbs
   * and mu of at least k - 1.
   */
  function QuotientEstimate(x: seq<Limb>, m: seq<Limb>, mu: seq<Limb>): (q3: seq<Limb>)
    requires 1 <= |m| < |x| && |m| <= |mu| + 1
    ensures |q3| == |x| + |mu| - 2 * |m|
    ensures Val(q3) == ((Val(x) / BPow(|m| - 1)) * (Val(mu) / BPow(|m| - 1))) / BPow(2)
  {
    var k := |m|;
    Skip(Mul(Skip(x, k - 1), Skip(mu, k - 1), 0), 2)
  }

  /** Steps 1 and 2 of Algorithm 14.42 with all of mu: q3 = floor(floor(x / b^(k-1)) * mu / b^(k+1)). */
  function QuotientEstimateFull(x: seq<Limb>, m: seq<Limb>, mu: seq<Limb>): (q3: seq<Limb>)
    requires 1 <= |m| < |x| && |m| <= |mu| + 1
    ensures |q3| == |x| + |mu| - 2 * |m|
    ensures Val(q3) == ((Val(x) / BPow(|m| - 1)) * Val(mu)) / BPow(|m| + 1)
  {
    var k := |m|;
    Skip(Mul(Skip(x, k - 1), mu, 0), k + 1)
  }

  /** Step 3 of Algorithm 14.42: r = (x - q3 * m) mod b^(k+1), with no correction on a borrow. */
  function RemainderEstimateCorrected(x: seq<Limb>, m: seq<Limb>, q3: seq<Limb>): (r: seq<Limb>)
    requires 1 <= |m| < |x|
    ensures |r| == |m| + 1
    ensures Val(r) == (Val(x) - Val(q3) * Val(m)) % BPow(|m| + 1)
  {
    var k := |m|;
    var r1 := First(x, k + 1);
    var r2 := PartialMul(q3, m, k + 1);
    var d := MpSub(r1, r2);
    assert Val(d) == (Val(r1) - Val(r2)) % BPow(k + 1);
    ModSubBoth(Val(x), Val(q3) * Val(m), BPow(k + 1));
    d
  }

  /** Whether the subtraction of step 3 borrows out of the top of the k + 1 low limbs. */
  predicate Borrows(x: seq<Limb>, m: seq<Limb>, q3: seq<Limb>)
  {
    Val(x) % BPow(|m| + 1) < (Val(q3) * Val(m)) % BPow(|m| + 1)
  }

  /**
   * Step 3 as written: the low k + 1 limbs of x minus those of q3 * m,
   * through a subtraction that keeps its borrow; when it borrows, b^k is
   * added on top, modulo b^(k+1). Without a borrow this is step 3 of the
   * algorithm; with one, the already wrapped r is moved by b^k.
   */
  function RemainderEstimate(x: seq<Limb>, m: seq<Limb>, q3: seq<Limb>): (r: seq<Limb>)
    requires 1 <= |m| < |x|
    ensures |r| == |m| + 1
    ensures !Borrows(x, m, q3) ==> r == RemainderEstimateCorrected(x, m, q3)
    ensures Borrows(x, m, q3) ==> r == AddOnBorrow(RemainderEstimateCorrected(x, m, q3), |m|, true)
  {
    var k := |m|;
    var withCarry := SubtractLow(x, m, q3);
    var r := First(withCarry, k + 1);
    assert r == withCarry[..k + 1];
    AddOnBorrow(r, k, withCarry[k + 1] != 0)
  }

  /**
   * r_with_carry: the low k + 1 limbs of x minus those of q3 * m, and one
   * more limb that holds the borrow.
   */
  function SubtractLow(x: seq<Limb>, m: seq<Limb>, q3: seq<Limb>): (w: seq<Limb>)
    requires 1 <= |m| < |x|
    ensures |w| == |m| + 2
    ensures w[..|m| + 1] == RemainderEstimateCorrected(x, m, q3)
    ensures (w[|m| + 1] != 0) == Borrows(x, m, q3)
  {
    MpSubCarryOut(First(x, |m| + 1), PartialMul(q3, m, |m| + 1))
  }

  /** On a borrow, b^k is added to the k + 1 limbs of r, the carry out of the top dropped. */
  function AddOnBorrow(r: seq<Limb>, k: nat, borrow: bool): (res: seq<Limb>)
    requires |r| == k + 1
    ensures |res| == k + 1
    ensures !borrow ==> res == r
    ensures borrow ==> Val(res) == (Val(r) + BPow(k)) % BPow(k + 1)
  {
    if borrow then
      var added := MpAddIgnoreLastCarry(r, UnaryEncoding(k, k + 1));
      WrapAdd(Val(added), Val(r), BPow(k), BPow(k + 1));
      added
    else
      r
  }

  /**
   * Step 4: subtract m while r >= m, at most twice, and keep the low k
   * limbs. Below 3m this is r mod m; from 3m up it is r - 2m, truncated.
   */
  function FinalSubtractions(r: seq<Limb>, m: seq<Limb>): (res: seq<Limb>)
    requires |r| == |m| + 1
    ensures |res| == |m|
    ensures 0 < Val(m) && Val(r) < 3 * Val(m) ==> Val(res) == Val(r) % Val(m)
    ensures 0 < Val(m) && Val(r) >= 3 * Val(m) ==> Val(res) == (Val(r) - 2 * Val(m)) % BPow(|m|)
  {
    var padded := Pad(m, 1);
    var once := SubtractIfNotBelow(r, padded);
    var twice := SubtractIfNotBelow(once, padded);
    ValBound(m);
    TwoSubtractions(Val(r), Val(m), Val(once), Val(twice), BPow(|m|));
    First(twice, |m|)
  }

  /** The modulus precondition shared by the reductions: tight, and mu = floor(b^(2k) / m). */
  predicate ReductionParameters(m: seq<Limb>, mu: seq<Limb>)
    ensures ReductionParameters(m, mu) ==> |m| >= 1 && BPow(|m| - 1) <= Val(m) < BPow(|m|)
  {
    TightRange(m);
    ConstantDivisor(m) && ModulusParameters(Val(m), Val(mu), |m|)
  }

  /** On numbers: m has k limbs, the top one nonzero, and mu = floor(b^(2k) / m). */
  predicate ModulusParameters(m: nat, mu: nat, k: nat)
    requires k >= 1
  {
    BPow(k - 1) <= m < BPow(k) && mu == BPow(2 * k) / m
  }

  /** Powers of 2^64 regrouped for a k-limb modulus. */
  lemma PowersOfModulusLength(k: nat)
    requires k >= 1
    ensures BPow(k + 1) == BPow(2) * BPow(k - 1)
    ensures BPow(2 * k) == BPow(k - 1) * BPow(k + 1)
    ensures BPow(k) == BPow(k - 1) * BASE
    ensures BPow(2 * k) == BPow(k) * BPow(k)
    ensures 3 * BPow(k) <= BPow(k + 1)
    ensures BPow(k - 1) > 0
  {
    BPowPositive(k - 1);
    BPowAdd(2, k - 1);
    BPowAdd(k - 1, k + 1);
    BPowAdd(k - 1, 1);
    BPowAdd(k, k);
    BPowSucc(k);
    BPowSucc(0);
  }

  /**
   * Where the as-written steps 1-3 are sound, on numbers: with a k-limb m,
   * mu = floor(b^(2k) / m) and x * (b^(k-1) + 1) <= b^(2k), the estimate
   * e is within two of the quotient, the subtraction of step 3 does not
   * borrow, and r = (x - e * m) mod b^(k+1) is below 3m and congruent to x.
   */
  lemma TruncatedRegime(x: nat, m: nat, mu: nat, e: nat, r: nat, k: nat)
    requires k >= 1
    requires e == ((x / BPow(k - 1)) * (mu / BPow(k - 1))) / BPow(2)
    requires r == (x - e * m) % BPow(k + 1)
    ensures ModulusParameters(m, mu, k) && TruncatedBound(x, k) ==>
      x % BPow(k + 1) >= (e * m) % BPow(k + 1) && NearlyReducedValue(r, x, m)
  {
    if ModulusParameters(m, mu, k) && TruncatedBound(x, k) {
      PowersOfModulusLength(k);
      TruncatedRegimeValues(x, m, mu, e, r, BPow(k - 1), BPow(2), BPow(k), BPow(k + 1), BPow(2 * k));
    }
  }

  /** TruncatedRegime with the powers of b as plain numbers. */
  lemma TruncatedRegimeValues(x: nat, m: nat, mu: nat, e: nat, r: nat, bk1: nat, bb: nat, bk: nat, p: nat, b2k: nat)
    requires 0 < bk1 <= m < bk && 3 * bk <= p && bb > 0
    requires p == bb * bk1 && b2k == bk1 * p
    requires x * (bk1 + 1) <= b2k && mu == b2k / m
    requires e == ((x / bk1) * (mu / bk1)) / bb
    requires r == (x - e * m) % p
    ensures x % p >= (e * m) % p && r < 3 * m && r % m == x % m
  {
    TruncatedEstimate(x, m, mu, bk1, bb, p, b2k, e);
    RemainderRange(x, m, e);
    NoBorrow(x, m, e, bk1, p, b2k);
  }

  /** Below b^(k+1), x and e * m <= x are their own residues and x - e * m is too. */
  lemma NoBorrow(x: nat, m: nat, e: nat, bk1: nat, p: nat, b2k: nat)
    requires bk1 > 0 && p > 0 && b2k == bk1 * p && x * (bk1 + 1) <= b2k && e * m <= x
    ensures x % p == x && (e * m) % p == e * m && (x - e * m) % p == x - e * m
  {
    Distrib(x, bk1, 1);
    MulPositive(bk1, p);
    assert x * bk1 < bk1 * p;
    CancelPositive(p, x, bk1);
    ModOfSmall(x, p);
    ModOfSmall(e * m, p);
    ModOfSmall(x - e * m, p);
  }

  /**
   * The same for the corrected steps 1-3, on numbers: with all of mu the
   * estimate is within two of the quotient for every x < b^(2k).
   */
  lemma FullRegime(x: nat, m: nat, mu: nat, e: nat, r: nat, k: nat)
    requires k >= 1
    requires e == ((x / BPow(k - 1)) * mu) / BPow(k + 1)
    requires r == (x - e * m) % BPow(k + 1)
    ensures ModulusParameters(m, mu, k) && x < BPow(2 * k) ==> NearlyReducedValue(r, x, m)
  {
    if ModulusParameters(m, mu, k) && x < BPow(2 * k) {
      PowersOfModulusLength(k);
      FullRegimeValues(x, m, mu, e, r, BPow(k - 1), BPow(k), BPow(k + 1), BPow(2 * k));
    }
  }

  /** FullRegime with the powers of b as plain numbers. */
  lemma FullRegimeValues(x: nat, m: nat, mu: nat, e: nat, r: nat, bk1: nat, bk: nat, p: nat, b2k: nat)
    requires 0 < bk1 <= m < bk && 3 * bk <= p && b2k == bk1 * p
    requires x < b2k && mu == b2k / m
    requires e == ((x / bk1) * mu) / p
    requires r == (x - e * m) % p
    ensures r < 3 * m && r % m == x % m
  {
    FullEstimate(x, m, mu, bk1, p, b2k, e);
    RemainderRange(x, m, e);
    ModOfSmall(x - e * m, p);
  }

  /**
   * The inputs for which the as-written steps 1-3 are exact:
   * x * (b^(k-1) + 1) <= b^(2k), which holds whenever floor(x / m) < 2^63.
   */
  predicate TruncatedRange(x: seq<Limb>, m: seq<Limb>)
    requires |m| >= 1
  {
    TruncatedBound(Val(x), |m|)
  }

  /** TruncatedRange on numbers, for a k-limb modulus. */
  predicate TruncatedBound(x: nat, k: nat)
    requires k >= 1
  {
    x * (BPow(k - 1) + 1) <= BPow(2 * k)
  }

  /** What steps 1-3 deliver: r is congruent to x modulo m and below 3m. */
  predicate NearlyReduced(r: seq<Limb>, x: seq<Limb>, m: seq<Limb>)
  {
    NearlyReducedValue(Val(r), Val(x), Val(m))
  }

  /** NearlyReduced on numbers. */
  predicate NearlyReducedValue(r: nat, x: nat, m: nat)
  {
    m > 0 && r < 3 * m && r % m == x % m
  }

  /**
   * Steps 1-3 as written. With mu = floor(b^(2k) / m) for a tight m and
   * x * (b^(k-1) + 1) <= b^(2k), r is below 3m and congruent to x.
   */
  function ReduceAsWritten(x: seq<Limb>, m: seq<Limb>, mu: seq<Limb>): (r: seq<Limb>)
    requires 1 <= |m| < |x| && |m| <= |mu| + 1
    ensures |r| == |m| + 1
    ensures ReductionParameters(m, mu) && TruncatedRange(x, m) ==> NearlyReduced(r, x, m)
  {
    AsWrittenRegime(x, m, mu);
    RemainderEstimate(x, m, QuotientEstimate(x, m, mu))
  }

  /** In the truncated range, step 3 does not borrow and its r is nearly reduced. */
  lemma AsWrittenRegime(x: seq<Limb>, m: seq<Limb>, mu: seq<Limb>)
    requires 1 <= |m| < |x| && |m| <= |mu| + 1
    ensures ReductionParameters(m, mu) && TruncatedRange(x, m) ==>
      !Borrows(x, m, QuotientEstimate(x, m, mu))
    ensures ReductionParameters(m, mu) && TruncatedRange(x, m) ==>
      NearlyReduced(RemainderEstimateCorrected(x, m, QuotientEstimate(x, m, mu)), x, m)
  {
    var q3 := QuotientEstimate(x, m, mu);
    var r := RemainderEstimateCorrected(x, m, q3);
    TruncatedRegime(Val(x), Val(m), Val(mu), Val(q3), Val(r), |m|);
  }

  /**
   * Steps 1-3 of Algorithm 14.42 with all of mu and no correction on a
   * borrow: for every x < b^(2k), r is below 3m and congruent to x.
   */
  function Reduce(x: seq<Limb>, m: seq<Limb>, mu: seq<Limb>): (r: seq<Limb>)
    requires 1 <= |m| < |x| && |m| <= |mu| + 1
    ensures |r| == |m| + 1
    ensures ReductionParameters(m, mu) && Val(x) < BPow(2 * |m|) ==>
      NearlyReduced(r, x, m)
  {
    var q3 := QuotientEstimateFull(x, m, mu);
    var r := RemainderEstimateCorrected(x, m, q3);
    FullRegime(Val(x), Val(m), Val(mu), Val(q3), Val(r), |m|);
    r
  }

  /**
   * barrett_reduction(x, modulus, mu), as written. With mu = floor(b^(2k)
   * / m) for a tight m the result is x mod m whenever x * (b^(k-1) + 1)
   * <= b^(2k), in particular whenever floor(x / m) < 2^63
   * (SmallQuotientSuffices). Past that bound it can be wrong for
   * x < b^(2k) (TruncatedMuCounterexample, BorrowCounterexample).
   */
  function BarrettReduction(x: seq<Limb>, m: seq<Limb>, mu: seq<Limb>): (r: seq<Limb>)
    requires 1 <= |m| < |x| && |m| <= |mu| + 1
    ensures |r| == |m|
    ensures ReductionParameters(m, mu) && TruncatedRange(x, m) ==>
      Val(r) == Val(x) % Val(m)
  {
    FinalSubtractions(ReduceAsWritten(x, m, mu), m)
  }

  /**
   * Algorithm 14.42 with all of mu and no correction on a borrow: x mod m
   * for every x < b^(2k), the range the algorithm is stated for.
   */
  function BarrettReductionCorrected(x: seq<Limb>, m: seq<Limb>, mu: seq<Limb>): (r: seq<Limb>)
    requires 1 <= |m| < |x| && |m| <= |mu| + 1
    ensures |r| == |m|
    ensures ReductionParameters(m, mu) && Val(x) < BPow(2 * |m|) ==> Val(r) == Val(x) % Val(m)
  {
    FinalSubtractions(Reduce(x, m, mu), m)
  }

  /** A quotient below 2^63 puts x in the range where the as-written reduction is exact. */
  lemma SmallQuotientSuffices(x: seq<Limb>, m: seq<Limb>)
    requires ConstantDivisor(m)
    ensures Val(x) / Val(m) < 0x8000_0000_0000_0000 ==> TruncatedRange(x, m)
  {
    if Val(x) / Val(m) < 0x8000_0000_0000_0000 {
      PowersOfModulusLength(|m|);
      TightRange(m);
      QuotientRegime(Val(x), Val(m), BPow(|m| - 1));
    }
  }

  /**
   * precompute_mu: mu = floor(b^(2k) / m), by dividing the unary encoding
   * of b^(2k) in 2k + 1 limbs by the modulus pack.
   */
  method PrecomputeMu(m: seq<Limb>) returns (mu: seq<Limb>)
    requires ConstantDivisor(m)
    ensures |mu| == 2 * |m| + 1
    ensures Val(mu) == BPow(2 * |m|) / Val(m)
    ensures ReductionParameters(m, mu)
  {
    var k := |m|;
    var u := UnaryEncoding(2 * k, 2 * k + 1);
    var rem;
    TightRange(m);
    mu, rem := Div(u, m, 0);
    if k == 1 {
      assert m == [m[0]];
      ValSingle(m[0]);
    }
    assert Val(mu) == BPow(2 * k) / Val(m);
    assert ModulusParameters(Val(m), Val(mu), k);
  }

  /**
   * barrett_reduction(x, integer_sequence<Modulus...>): the modulus given
   * as a pack, mu precomputed from it, then the steps of the explicit
   * overload.
   */
  method BarrettReductionFixed(x: seq<Limb>, m: seq<Limb>) returns (r: seq<Limb>)
    requires ConstantDivisor(m) && |m| < |x|
    ensures |r| == |m|
    ensures TruncatedRange(x, m) ==> Val(r) == Val(x) % Val(m)
  {
    var mu := PrecomputeMu(m);
    r := BarrettReduction(x, m, mu);
  }

  /** The powers of 2^64 the test vectors need. */
  lemma SmallPowers()
    ensures BPow(1) == 18446744073709551616
    ensures BPow(2) == 340282366920938463463374607431768211456
    ensures BPow(3) == 6277101735386680763835789423207666416102355444464034512896
    ensures BPow(4) == 115792089237316195423570985008687907853269984665640564039457584007913129639936
  {
    BPowSucc(0);
    BPowSucc(1);
    BPowSucc(2);
    BPowSucc(3);
  }

  /**
   * The Barrett test vector: a 4-limb prime p, mu = floor(b^8 / p) and a
   * 5-limb x with floor(x / p) = 2^30 - 1. The parameters meet
   * ReductionParameters, x lies in the truncated range, and the reduction
   * returns the expected remainder.
   */
  lemma BarrettVector()
    ensures ReductionParameters([235, 0, 0, 256],
      [0, 18380597454182547456, 18446744073709551615, 18446744073709551615, 72057594037927935])
    ensures TruncatedRange([67, 0, 0, 274877906944, 0], [235, 0, 0, 256])
    ensures BarrettReduction([67, 0, 0, 274877906944, 0], [235, 0, 0, 256],
      [0, 18380597454182547456, 18446744073709551615, 18446744073709551615, 72057594037927935])
      == [18446743821380223278, 18446744073709551615, 18446744073709551615, 255]
  {
    var p: seq<Limb> := [235, 0, 0, 256];
    var mu: seq<Limb> := [0, 18380597454182547456, 18446744073709551615, 18446744073709551615, 72057594037927935];
    var x: seq<Limb> := [67, 0, 0, 274877906944, 0];
    var ans: seq<Limb> := [18446743821380223278, 18446744073709551615, 18446744073709551615, 255];
    LiteralValue(p, 1606938044258990275541962092341162602522202993782792835301611);
    LiteralValue(mu, 8343699359066055009355553539724812947666814540455674882604411090793790119337922481889828929536);
    LiteralValue(x, 1725436586697640946858688965569256363112777243042596638790631055949891);
    LiteralValue(ans, 1606938044258990275541962092341162602522202993782540505973038);
    SmallPowers();
    assert BPow(8) == BPow(4) * BPow(4) by {
      BPowAdd(4, 4);
    }
    assert BPow(8) == 13407807929942597099574024998205846127479365820592393377723561443721764030073546976801874298166903427690031858186486050853753882811946569946433649006084096;
    DivModUnique(13407807929942597099574024998205846127479365820592393377723561443721764030073546976801874298166903427690031858186486050853753882811946569946433649006084096,
      1606938044258990275541962092341162602522202993782792835301611,
      8343699359066055009355553539724812947666814540455674882604411090793790119337922481889828929536,
      286744594012585855785596659781179801600);
    assert ModulusParameters(Val(p), Val(mu), 4);
    assert ReductionParameters(p, mu);
    assert 1725436586697640946858688965569256363112777243042596638790631055949891 * (6277101735386680763835789423207666416102355444464034512896 + 1)
        <= 13407807929942597099574024998205846127479365820592393377723561443721764030073546976801874298166903427690031858186486050853753882811946569946433649006084096;
    assert TruncatedRange(x, p);
    DivModUnique(1725436586697640946858688965569256363112777243042596638790631055949891,
      1606938044258990275541962092341162602522202993782792835301611, 1073741823,
      1606938044258990275541962092341162602522202993782540505973038);
    ValInjective(BarrettReduction(x, p, mu), ans);
  }

  /**
   * Dropping the low k - 1 limbs of mu loses more than the two units of
   * quotient the final subtractions repair. With k = 2, m = b^2 - 5,
   * mu = b^2 + 5 = floor(b^4 / m) and x = (b^2 - 6)^2 < b^4, the estimate
   * is q - 5 and the reduction returns b^2 - 14, while x mod m is 1.
   */
  lemma TruncatedMuCounterexample()
    ensures ReductionParameters([18446744073709551611, 18446744073709551615], [5, 0, 1])
    ensures Val([36, 0, 18446744073709551604, 18446744073709551615]) < BPow(4)
    ensures Val([36, 0, 18446744073709551604, 18446744073709551615])
          % Val([18446744073709551611, 18446744073709551615]) == 1
    ensures Val(BarrettReduction([36, 0, 18446744073709551604, 18446744073709551615],
                                 [18446744073709551611, 18446744073709551615], [5, 0, 1]))
         == 340282366920938463463374607431768211442
  {
    var x: seq<Limb> := [36, 0, 18446744073709551604, 18446744073709551615];
    var m: seq<Limb> := [18446744073709551611, 18446744073709551615];
    var mu: seq<Limb> := [5, 0, 1];
    LiteralValue(x, 115792089237316195423570985008687907849186596262589302477897088718731911102500);
    LiteralValue(m, 340282366920938463463374607431768211451);
    LiteralValue(mu, 340282366920938463463374607431768211461);
    SmallPowers();
    DivModUnique(115792089237316195423570985008687907853269984665640564039457584007913129639936, 340282366920938463463374607431768211451, 340282366920938463463374607431768211461, 25);
    DivModUnique(115792089237316195423570985008687907849186596262589302477897088718731911102500, 18446744073709551616, 6277101735386680763835789423207666415880994515579519893504, 36);
    DivModUnique(340282366920938463463374607431768211461, 18446744073709551616, 18446744073709551616, 5);
    assert 6277101735386680763835789423207666415880994515579519893504 * 18446744073709551616 == 115792089237316195423570985008687907849186596262589302477897088718731911102464;
    DivModUnique(115792089237316195423570985008687907849186596262589302477897088718731911102464, 340282366920938463463374607431768211456, 340282366920938463463374607431768211444, 0);
    var q3 := QuotientEstimate(x, m, mu);
    assert Val(q3) == 340282366920938463463374607431768211444;
    assert 340282366920938463463374607431768211444 * 340282366920938463463374607431768211451 == 115792089237316195423570985008687907847485184427984610160580215681573070045244;
    DivModUnique(115792089237316195423570985008687907849186596262589302477897088718731911102500, 6277101735386680763835789423207666416102355444464034512896, 18446744073709551615, 6277101735386680759752401020156404854541860155282815975460);
    DivModUnique(115792089237316195423570985008687907847485184427984610160580215681573070045244, 6277101735386680763835789423207666416102355444464034512896, 18446744073709551615, 6277101735386680758050989185551712537224987118123974918204);
    DivModUnique(1701411834604692317316873037158841057256, 6277101735386680763835789423207666416102355444464034512896, 0, 1701411834604692317316873037158841057256);
    assert !Borrows(x, m, q3);
    assert Val(RemainderEstimateCorrected(x, m, q3)) == 1701411834604692317316873037158841057256;
    var r := ReduceAsWritten(x, m, mu);
    assert Val(r) == 1701411834604692317316873037158841057256;
    DivModUnique(1020847100762815390390123822295304634354, 340282366920938463463374607431768211456, 2, 340282366920938463463374607431768211442);
    DivModUnique(115792089237316195423570985008687907849186596262589302477897088718731911102500, 340282366920938463463374607431768211451, 340282366920938463463374607431768211449, 1);
  }

  /**
   * The borrow correction adds b^k to an r that has already wrapped
   * modulo b^(k+1). With k = 2, m = b + 1, mu = floor(b^4 / m) and
   * x = b^3, the low limbs of x are zero, step 3 borrows, and the
   * reduction returns b^2 - b - 2, while x mod m is b.
   */
  lemma BorrowCounterexample()
    ensures ReductionParameters([1, 1], [18446744073709551615, 0, 18446744073709551615])
    ensures Val([0, 0, 0, 1]) < BPow(4)
    ensures Val([0, 0, 0, 1]) % Val([1, 1]) == 18446744073709551616
    ensures Val(BarrettReduction([0, 0, 0, 1], [1, 1], [18446744073709551615, 0, 18446744073709551615]))
         == 340282366920938463444927863358058659838
  {
    var x: seq<Limb> := [0, 0, 0, 1];
    var m: seq<Limb> := [1, 1];
    var mu: seq<Limb> := [18446744073709551615, 0, 18446744073709551615];
    LiteralValue(x, 6277101735386680763835789423207666416102355444464034512896);
    LiteralValue(m, 18446744073709551617);
    LiteralValue(mu, 6277101735386680763495507056286727952657427581105975853055);
    SmallPowers();
    DivModUnique(115792089237316195423570985008687907853269984665640564039457584007913129639936, 18446744073709551617, 6277101735386680763495507056286727952657427581105975853055, 1);
    DivModUnique(6277101735386680763835789423207666416102355444464034512896, 18446744073709551616, 340282366920938463463374607431768211456, 0);
    DivModUnique(6277101735386680763495507056286727952657427581105975853055, 18446744073709551616, 340282366920938463444927863358058659840, 18446744073709551615);
    assert 340282366920938463463374607431768211456 * 340282366920938463444927863358058659840 == 115792089237316195417293883273301227089434195242432897623355228563449095127040;
    DivModUnique(115792089237316195417293883273301227089434195242432897623355228563449095127040, 340282366920938463463374607431768211456, 340282366920938463444927863358058659840, 0);
    var q3 := QuotientEstimate(x, m, mu);
    assert Val(q3) == 340282366920938463444927863358058659840;
    assert 340282366920938463444927863358058659840 * 18446744073709551617 == 6277101735386680763835789423207666416083908700390324961280;
    DivModUnique(6277101735386680763835789423207666416102355444464034512896, 6277101735386680763835789423207666416102355444464034512896, 1, 0);
    DivModUnique(6277101735386680763835789423207666416083908700390324961280, 6277101735386680763835789423207666416102355444464034512896, 0, 6277101735386680763835789423207666416083908700390324961280);
    DivModUnique(18446744073709551616, 6277101735386680763835789423207666416102355444464034512896, 0, 18446744073709551616);
    assert Borrows(x, m, q3);
    assert Val(RemainderEstimateCorrected(x, m, q3)) == 18446744073709551616;
    DivModUnique(340282366920938463481821351505477763072, 6277101735386680763835789423207666416102355444464034512896, 0, 340282366920938463481821351505477763072);
    var r := ReduceAsWritten(x, m, mu);
    assert Val(r) == 340282366920938463481821351505477763072;
    DivModUnique(340282366920938463444927863358058659838, 340282366920938463463374607431768211456, 0, 340282366920938463444927863358058659838);
    DivModUnique(6277101735386680763835789423207666416102355444464034512896, 18446744073709551617, 340282366920938463444927863358058659840, 18446744073709551616);
  }
}
