/**
 * Division by a divisor fixed at compile time (invariant_div.hpp), after
 * Granlund and Montgomery, "Division by Invariant Integers using
 * Multiplication" (1994), Figure 4.1: with l = bit_length(d - 1) and
 * W = 64 N, the multiplier m' = floor(2^W (2^l - d) / d) + 1 turns
 * floor(n / d) into a multiply-high, a halving and two shifts.
 */
module InvariantDiv {
  import opened Arith
  import opened Limbs
  import opened Utility
  import opened Slicing
  import opened BitShift
  import opened Addition
  import opened Mult
  import opened Division

  // ---------------------------------------------------------------------
  // The multiplier and the quotient formula, on plain numbers
  // ---------------------------------------------------------------------

  /**
   * The multiplier with 2^W added back: P + m' is floor(P * 2^l / d) + 1,
   * and m' itself is at least 1 and below P, so it fits in N limbs.
   */
  lemma MultiplierRange(p: nat, t: nat, d: nat, mp: nat)
    requires 1 <= d < p && d <= t < 2 * d
    requires mp == (p * (t - d)) / d + 1
    ensures 1 <= mp < p
    ensures p + mp == (p * t) / d + 1
  {
    var a := p * (t - d);
    MultiplierParts(p, t, d, a);
    DivAddMultiple(a, p, d);
    DigitBelow(a, d, p - 1);
  }

  /** The two facts MultiplierRange rests on, with a = P (t - d) named. */
  lemma MultiplierParts(p: nat, t: nat, d: nat, a: nat)
    requires 1 <= d < p && d <= t < 2 * d && a == p * (t - d)
    ensures p * t == a + p * d
    ensures a < (p - 1) * d
  {
    DistribRight(t - d, d, p);
    MulLe(t - d, d - 1, p);
    DistribRight(d, -1, p);
    DistribRight(p, -1, d);
  }

  /** t1 + floor((x - t1) / 2) is floor((x + t1) / 2). */
  lemma HalfSum(x: nat, t1: nat)
    requires t1 <= x
    ensures t1 + (x - t1) / 2 == (x + t1) / 2
  {
    DivAddMultiple(x - t1, t1, 2);
  }

  /** x + floor(mp * x / p) is floor((p + mp) * x / p). */
  lemma HighProductSum(x: nat, p: nat, mp: nat)
    requires p > 0
    ensures x + (mp * x) / p == ((p + mp) * x) / p
  {
    DistribRight(p, mp, x);
    DivAddMultiple(mp * x, x, p);
  }

  /**
   * The heart of Figure 4.1: with m = floor(P * 2^l / d) + 1, d <= 2^l
   * and x < P, the quotient floor(m * x / (P * 2^l)) is floor(x / d).
   */
  lemma MagicQuotient(x: nat, p: nat, t: nat, d: nat, m: nat)
    requires 1 <= d <= t && x < p && m == (p * t) / d + 1
    ensures (m * x) / (p * t) == x / d
  {
    var big := p * t;
    var e := m * d - big;
    DivModRange(big, d);
    assert 0 < e <= d by {
      DistribRight(big / d, 1, d);
    }
    var q, r := x / d, x % d;
    DivModRange(x, d);
    MagicLower(x, d, big, e, m, q);
    MagicUpper(x, p, t, d, big, e, m, q, r);
    DivBetween(m * x, big, q);
  }

  /** floor(x / d) * P 2^l never exceeds m * x. */
  lemma MagicLower(x: nat, d: nat, big: nat, e: nat, m: nat, q: nat)
    requires d > 0 && m * d == big + e && q * d <= x
    ensures q * big <= m * x
  {
    MulLe(q * d, x, big);
    MulAssoc(q, d, big);
    MulAssoc(q, big, d);
    MulLe(big, big + e, x);
    MulAssoc(m, d, x);
    MulAssoc(m, x, d);
    assert (q * big) * d <= (m * x) * d;
    if q * big > m * x {
      MulLt(m * x, q * big, d);
      assert false;
    }
  }

  /** m * x stays below (floor(x / d) + 1) * P 2^l. */
  lemma MagicUpper(x: nat, p: nat, t: nat, d: nat, big: nat, e: nat, m: nat, q: nat, r: nat)
    requires d > 0 && big == p * t && x < p && e <= d <= t
    requires m * d == big + e && x == q * d + r && r < d
    ensures m * x < (q + 1) * big
  {
    assert x * e < big by {
      MulLe(e, t, x);
      MulLt(x, p, t);
    }
    assert (m * x) * d == x * big + x * e by {
      MulAssoc(m, x, d);
      MulAssoc(x, m, d);
      Distrib(x, big, e);
    }
    assert x * big + big <= ((q + 1) * big) * d by {
      DistribRight(q * d, r, big);
      MulLe(r + 1, d, big);
      DistribRight(q, 1, big);
      MulAssoc(q, d, big);
      MulAssoc(q, big, d);
      DistribRight(q * big, big, d);
      DistribRight(r, 1, big);
    }
    if m * x >= (q + 1) * big {
      MulLe((q + 1) * big, m * x, d);
      assert false;
    }
  }

  /** floor(m' x / P) is at most x when m' < P. */
  lemma HighProductAtMost(x: nat, p: nat, mp: nat)
    requires mp < p
    ensures (mp * x) / p <= x
  {
    MulLe(mp, p, x);
    DivLe(mp * x, p * x, p);
    MulDiv(x, p);
  }

  /**
   * Halving, then dropping (l - 1) / 64 whole limbs, then shifting right
   * by (l - 1) % 64 bits divides by 2^l.
   */
  lemma ShiftChain(y: nat, l: nat)
    requires l >= 1
    ensures y / 2 / BPow((l - 1) / LIMB_BITS) / Pow(2, (l - 1) % LIMB_BITS) == y / Pow(2, l)
  {
    var lo, hi := BPow((l - 1) / LIMB_BITS), Pow(2, (l - 1) % LIMB_BITS);
    PowerOfTwoLimbs(l - 1);
    assert Pow(2, l) == 2 * Pow(2, l - 1);
    PowPositive(2, (l - 1) % LIMB_BITS);
    DivThree(y, lo, hi, Pow(2, l));
  }

  /** Dividing by 2, then lo, then hi is dividing by 2 lo hi. */
  lemma DivThree(y: nat, lo: nat, hi: nat, t: nat)
    requires lo > 0 && hi > 0 && t == 2 * (hi * lo)
    ensures y / 2 / lo / hi == y / t
  {
    var a := 2 * lo;
    DivDiv(y, 2, lo);
    DivDiv(y, a, hi);
    assert a * hi == t by {
      MulAssoc(2, lo, hi);
    }
  }

  /**
   * The whole formula on plain numbers: with t1 = floor(m' x / P), the
   * source's t1 + floor((x - t1) / 2), shifted right by l - 1 bits in two
   * steps (whole limbs, then bits), is floor(x / d).
   */
  lemma FormulaValue(x: nat, p: nat, d: nat, l: nat, mp: nat, t1: nat)
    requires 1 <= d <= Pow(2, l) && 1 <= l && x < p
    requires mp < p && p + mp == (p * Pow(2, l)) / d + 1
    requires t1 == (mp * x) / p
    ensures t1 <= x
    ensures (t1 + (x - t1) / 2) / BPow((l - 1) / LIMB_BITS) / Pow(2, (l - 1) % LIMB_BITS) == x / d
  {
    HighProductAtMost(x, p, mp);
    HalfSum(x, t1);
    ShiftChain(x + t1, l);
    HighProductSum(x, p, mp);
    DivDiv((p + mp) * x, p, Pow(2, l));
    MagicQuotient(x, p, Pow(2, l), d, p + mp);
  }

  /**
   * 2^l as a one-bit limb placed at limb l / 64: place_at of
   * 1 << (l % 64) at limb_shifts = l / 64 has the value 2^l.
   */
  lemma PowerOfTwoLimbs(l: nat)
    ensures Pow(2, l % LIMB_BITS) < BASE
    ensures Pow(2, l % LIMB_BITS) * BPow(l / LIMB_BITS) == Pow(2, l)
  {
    PowStrict(2, l % LIMB_BITS, 64);
    Pow2To64();
    BPowBits(l / LIMB_BITS);
    PowAdd(2, LIMB_BITS * (l / LIMB_BITS), l % LIMB_BITS);
  }

  // ---------------------------------------------------------------------
  // Precomputation of m'
  // ---------------------------------------------------------------------

  /**
   * ell = bit_length(d - 1): the least l with d <= 2^l, so that
   * 2^(l-1) < d <= 2^l; it never needs more bits than d has limbs.
   */
  function Ell(d: seq<Limb>): (l: nat)
    requires Val(d) >= 1
    ensures Val(d) <= Pow(2, l) < 2 * Val(d)
    ensures l <= LIMB_BITS * |d|
  {
    var l := BitLength(Val(d) - 1);
    assert l <= LIMB_BITS * |d| by {
      ValBound(d);
      BPowBits(|d|);
      if l > LIMB_BITS * |d| {
        PowMonotone(2, LIMB_BITS * |d|, l - 1);
      }
    }
    assert Pow(2, 0) == 1;
    l
  }

  /**
   * precompute_m_prime_nontight: m' = floor(2^W (2^l - d) / d) + 1 in N
   * limbs, with W = 64 N. When d fits in N limbs, m' is at least 1 and
   * below 2^W, and 2^W + m' = floor(2^(W+l) / d) + 1.
   */
  method PrecomputeMPrimeNontight(d: seq<Limb>, n: nat) returns (mp: seq<Limb>)
    requires ConstantDivisor(d)
    ensures |mp| == n
    ensures |d| <= n ==>
      1 <= Val(mp) < BPow(n) && BPow(n) + Val(mp) == (BPow(n) * Pow(2, Ell(d))) / Val(d) + 1
  {
    TightRange(d);
    var l := Ell(d);
    var limbShifts, bitShifts := l / LIMB_BITS, l % LIMB_BITS;
    PowerOfTwoLimbs(l);
    var top: Limb := Pow(2, bitShifts);
    var width := if |d| < limbShifts + 1 then limbShifts + 1 else |d|;
    var pow2ell := PlaceAt(top, limbShifts, width);
    assert Val(pow2ell) == Pow(2, l);
    var pow2N := UnaryEncoding(n, n + 1);
    var diff := Subtract(pow2ell, d);
    assert Val(diff) == Pow(2, l) - Val(d);
    var prod := Mul(pow2N, diff, 0);
    assert Val(prod) == BPow(n) * Val(diff);
    var quot, _ := Div(prod, d, 0);
    var sum := AddWide(quot, [1]);
    mp := ToLength(sum, n);
    ValSingle(1);
    if |d| <= n {
      BPowMonotone(|d|, n);
      MultiplierValue(BPow(n), Pow(2, l), Val(d), Val(diff), Val(prod), Val(quot), Val(sum), Val(mp));
    }
  }

  /**
   * The values along precompute_m_prime_nontight: 2^l - d, times 2^W,
   * divided by d, plus one, cut to N limbs.
   */
  lemma MultiplierValue(p: nat, t: nat, d: nat, diff: nat, prod: nat, quot: nat, sum: nat, mp: nat)
    requires 1 <= d < p && d <= t < 2 * d
    requires diff == t - d && prod == p * diff && quot == prod / d && sum == quot + 1 && mp == sum % p
    ensures 1 <= mp < p && p + mp == (p * t) / d + 1
  {
    MultiplierRange(p, t, d, sum);
    ModOfSmall(sum, p);
  }

  /**
   * precompute_m_prime: m' with its zero top limbs dropped, so that the
   * multiplication by it runs over as few limbs as possible.
   */
  method PrecomputeMPrime(d: seq<Limb>, n: nat) returns (mp: seq<Limb>)
    requires ConstantDivisor(d) && |d| <= n
    ensures IsTight(mp) && |mp| <= n
    ensures 1 <= Val(mp) < BPow(n)
    ensures BPow(n) + Val(mp) == (BPow(n) * Pow(2, Ell(d))) / Val(d) + 1
    ensures mp == MPrime(d, n)
  {
    var full := PrecomputeMPrimeNontight(d, n);
    mp := full[..TightLength(full)];
    TightLengthValue(full);
    TightInjective(mp, MPrime(d, n));
  }

  /**
   * m' defined by what it is rather than by how it is computed: the tight
   * number with 2^W + m' = floor(2^(W+l) / d) + 1.
   */
  function MPrime(d: seq<Limb>, n: nat): (mp: seq<Limb>)
    requires ConstantDivisor(d) && |d| <= n
    ensures IsTight(mp) && |mp| <= n
    ensures 1 <= Val(mp) < BPow(n)
    ensures BPow(n) + Val(mp) == (BPow(n) * Pow(2, Ell(d))) / Val(d) + 1
  {
    TightRange(d);
    BPowMonotone(|d|, n);
    MPrimeRange(BPow(n), Pow(2, Ell(d)), Val(d));
    var limbs := ToLimbs((BPow(n) * Pow(2, Ell(d))) / Val(d) + 1 - BPow(n), n);
    TightLengthValue(limbs);
    limbs[..TightLength(limbs)]
  }

  /** With P = 2^W and t = 2^l: floor(P t / d) + 1 - P lies in [1, P). */
  lemma MPrimeRange(p: nat, t: nat, d: nat)
    requires 1 <= d < p && d <= t < 2 * d
    ensures 1 <= (p * t) / d + 1 - p < p
    ensures ((p * t) / d + 1 - p) % p == (p * t) / d + 1 - p
  {
    MultiplierRange(p, t, d, (p * (t - d)) / d + 1);
    ModOfSmall((p * t) / d + 1 - p, p);
  }

  // ---------------------------------------------------------------------
  // quotient, mod and div
  // ---------------------------------------------------------------------

  /**
   * The divisor packs quotient, mod and div accept: a non-zero number,
   * which must be tight when it has at most |n| limbs. A longer pack is
   * caught by the first branch of quotient whatever its top limbs.
   */
  predicate DivisorPack(nn: seq<Limb>, d: seq<Limb>)
  {
    Val(d) >= 1 && (|d| <= |nn| ==> ConstantDivisor(d))
  }

  /**
   * quotient(n, Divisor...): floor(n / d) for a compile-time divisor d.
   * A divisor longer than n gives the one-limb zero, the divisor 1 gives
   * n itself, and otherwise Figure 4.1 of Granlund and Montgomery gives
   * the quotient in |n| limbs from one multiplication.
   */
  method Quotient(nn: seq<Limb>, d: seq<Limb>) returns (q: seq<Limb>)
    requires |nn| >= 1 && DivisorPack(nn, d)
    ensures |q| == (if |d| > |nn| then 1 else |nn|)
    ensures |d| > |nn| ==> Val(q) == 0
    ensures ConstantDivisor(d) ==> Val(q) == Val(nn) / Val(d)
  {
    var n := |nn|;
    TightRange(d);
    ValBound(nn);
    if |d| > n {
      ValSingle(0);
      q := [0];
      if ConstantDivisor(d) {
        BPowMonotone(n, |d| - 1);
        ModOfSmall(Val(nn), Val(d));
      }
    } else if d == [1] {
      ValSingle(1);
      q := nn;
    } else {
      assert Val(d) >= 2 by {
        if |d| == 1 {
          ValSingle(d[0]);
          assert d == [d[0]];
        } else {
          BPowMonotone(1, |d| - 1);
        }
      }
      var l := Ell(d);
      var mp := PrecomputeMPrime(d, n);
      BPowMonotone(|d|, n);
      q := MultiplyShift(nn, mp, l, d);
    }
  }

  /**
   * The run-time part of quotient: t1 = floor(m' n / 2^W), then
   * t1 + floor((n - t1) / 2) shifted right by l - 1 bits, cut to |n|
   * limbs. For the m' and l of a divisor d this is floor(n / d).
   */
  method MultiplyShift(nn: seq<Limb>, mp: seq<Limb>, l: nat, d: seq<Limb>) returns (q: seq<Limb>)
    requires |mp| <= |nn| && 1 <= l <= LIMB_BITS * |nn| && Val(mp) < BPow(|nn|)
    requires 1 <= Val(d) <= Pow(2, l)
    requires BPow(|nn|) + Val(mp) == (BPow(|nn|) * Pow(2, l)) / Val(d) + 1
    ensures |q| == |nn|
    ensures Val(q) == Val(nn) / Val(d)
  {
    var n := |nn|;
    var t1, sum := AverageWithHigh(nn, mp);
    var skipped := Skip(sum, (l - 1) / LIMB_BITS);
    var shifted := ShiftRight(skipped, (l - 1) % LIMB_BITS);
    q := ToLength(shifted, n);
    ValBound(nn);
    MultiplyShiftValue(Val(nn), Val(mp), BPow(n), l, Val(d), Val(t1), Val(sum),
      Val(skipped), Val(shifted), Val(q));
  }

  /**
   * The first half of the run-time part: t1 = floor(m' n / 2^W) and
   * add(t1, shift_right(n - t1, 1)), which is floor((n + t1) / 2).
   */
  method AverageWithHigh(nn: seq<Limb>, mp: seq<Limb>) returns (t1: seq<Limb>, sum: seq<Limb>)
    requires 1 <= |nn| && |mp| <= |nn| && Val(mp) < BPow(|nn|)
    ensures |t1| == |mp| && |sum| == |nn| + 1
    ensures Val(t1) == (Val(mp) * Val(nn)) / BPow(|nn|) && Val(t1) <= Val(nn)
    ensures Val(sum) == (Val(nn) + Val(t1)) / 2
  {
    var n := |nn|;
    ValBound(nn);
    t1 := Skip(Mul(mp, nn, 0), n);
    HighLimbs(mp, nn);
    HighProductAtMost(Val(nn), BPow(n), Val(mp));
    var half := ShiftRight(MpSub(nn, ToLength(t1, n)), 1);
    HalfDifference(nn, t1);
    sum := AddWide(t1, half);
    HalfSum(Val(nn), Val(t1));
  }

  /** skip<N>(mul(m', n)): the limbs from |n| up hold floor(m' n / 2^W). */
  lemma HighLimbs(mp: seq<Limb>, nn: seq<Limb>)
    ensures Val(Skip(Mul(mp, nn, 0), |nn|)) == (Val(mp) * Val(nn)) / BPow(|nn|)
  {
  }

  /**
   * shift_right(subtract_ignore_carry(n, to_length<N>(t1)), 1) for t1 at
   * most n: the subtraction does not wrap, so this is floor((n - t1) / 2).
   */
  lemma HalfDifference(nn: seq<Limb>, t1: seq<Limb>)
    requires 1 <= |nn| && |t1| <= |nn| && Val(t1) <= Val(nn)
    ensures Val(ShiftRight(MpSub(nn, ToLength(t1, |nn|)), 1)) == (Val(nn) - Val(t1)) / 2
  {
    ValBound(nn);
    var tl := ToLength(t1, |nn|);
    ModOfSmall(Val(t1), BPow(|nn|));
    assert Val(tl) == Val(t1);
    ExactDifference(nn, tl);
    assert Val(MpSub(nn, tl)) == Val(nn) - Val(t1);
    Halve(MpSub(nn, tl));
  }

  /** mp_sub of a smaller number from a larger one does not wrap. */
  lemma ExactDifference(a: seq<Limb>, b: seq<Limb>)
    requires |a| == |b| && Val(b) <= Val(a)
    ensures Val(MpSub(a, b)) == Val(a) - Val(b)
  {
    ValBound(a);
    ModOfSmall(Val(a) - Val(b), BPow(|a|));
  }

  /** shift_right by one bit halves. */
  lemma Halve(a: seq<Limb>)
    requires |a| >= 1
    ensures Val(ShiftRight(a, 1)) == Val(a) / 2
  {
    assert Pow(2, 1) == 2;
  }

  /**
   * The values along the second half of the run-time part: the sum
   * floor((n + t1) / 2), shifted right by l - 1 bits, is floor(n / d),
   * which fits in N limbs.
   */
  lemma MultiplyShiftValue(x: nat, mp: nat, p: nat, l: nat, d: nat, t1: nat,
                           sum: nat, skipped: nat, shifted: nat, q: nat)
    requires x < p && mp < p && l >= 1 && 1 <= d <= Pow(2, l) && p + mp == (p * Pow(2, l)) / d + 1
    requires t1 == (mp * x) / p && sum == (x + t1) / 2
    requires skipped == sum / BPow((l - 1) / LIMB_BITS) && shifted == skipped / Pow(2, (l - 1) % LIMB_BITS)
    requires q == shifted % p
    ensures q == x / d
  {
    FormulaValue(x, p, d, l, mp, t1);
    HalfSum(x, t1);
    DivAtMost(x, d);
    ModOfSmall(x / d, p);
  }

  /**
   * The remainder as mod and div compute it from the quotient: n minus
   * d * q, both taken modulo 2^(64|n|), cut to |d| limbs.
   */
  function RemainderFrom(nn: seq<Limb>, d: seq<Limb>, q: seq<Limb>): (r: seq<Limb>)
    requires ConstantDivisor(d) && |q| <= |nn| + 1
    requires Val(q) == Val(nn) / Val(d)
    ensures |r| == |d|
    ensures Val(r) == Val(nn) % Val(d)
  {
    var product := PartialMul(d, q, |nn|);
    RemainderValue(nn, d, q, product);
    ToLength(MpSub(nn, product), |d|)
  }

  /**
   * d q is at most n, so partial_mul<N> and the subtraction are exact,
   * and what is left is below d, so the cut to |d| limbs keeps it.
   */
  lemma RemainderValue(nn: seq<Limb>, d: seq<Limb>, q: seq<Limb>, product: seq<Limb>)
    requires ConstantDivisor(d) && |q| <= |nn| + 1
    requires Val(q) == Val(nn) / Val(d) && product == PartialMul(d, q, |nn|)
    ensures Val(ToLength(MpSub(nn, product), |d|)) == Val(nn) % Val(d)
  {
    var x, dv := Val(nn), Val(d);
    ValBound(nn);
    DivisionIdentity(x, dv, Val(q));
    assert 0 <= dv * Val(q) < BPow(|nn|);
    ModOfSmall(dv * Val(q), BPow(|nn|));
    assert Val(product) == dv * Val(q);
    ExactDifference(nn, product);
    assert Val(MpSub(nn, product)) == x % dv;
    TightRange(d);
    ModOfSmall(x % dv, BPow(|d|));
  }

  /** n = d floor(n / d) + (n mod d), with both parts natural. */
  lemma DivisionIdentity(x: nat, d: nat, q: nat)
    requires d > 0 && q == x / d
    ensures 0 <= d * q <= x && x - d * q == x % d && 0 <= x % d < d
  {
    DivModRange(x, d);
    MulLe(0, d, q);
  }

  /**
   * The remainder for the zero quotient that a pack longer than n gets:
   * n itself, in |d| limbs.
   */
  function RemainderOfZero(nn: seq<Limb>, d: seq<Limb>, q: seq<Limb>): (r: seq<Limb>)
    requires |d| > |nn| && |q| == 1 && Val(q) == 0
    ensures |r| == |d|
    ensures Val(r) == Val(nn)
  {
    var product := PartialMul(d, q, |nn|);
    ValBound(nn);
    ModOfSmall(0, BPow(|nn|));
    assert Val(product) == 0;
    ExactDifference(nn, product);
    BPowMonotone(|nn|, |d|);
    ModOfSmall(Val(nn), BPow(|d|));
    ToLength(MpSub(nn, product), |d|)
  }

  /**
   * mod(n, Modulus...): n mod d in |d| limbs. A non-tight pack longer
   * than n leaves n as it is.
   */
  method Mod(nn: seq<Limb>, d: seq<Limb>) returns (r: seq<Limb>)
    requires |nn| >= 1 && DivisorPack(nn, d)
    ensures |r| == |d|
    ensures ConstantDivisor(d) ==> Val(r) == Val(nn) % Val(d)
    ensures |d| > |nn| ==> Val(r) == Val(nn)
  {
    var q := Quotient(nn, d);
    r := Remainder(nn, d, q);
  }

  /** div(n, Modulus...): the quotient and the remainder together. */
  method QuotientRemainder(nn: seq<Limb>, d: seq<Limb>) returns (q: seq<Limb>, r: seq<Limb>)
    requires |nn| >= 1 && DivisorPack(nn, d)
    ensures |q| == (if |d| > |nn| then 1 else |nn|) && |r| == |d|
    ensures ConstantDivisor(d) ==> Val(q) == Val(nn) / Val(d) && Val(r) == Val(nn) % Val(d)
    ensures |d| > |nn| ==> Val(q) == 0 && Val(r) == Val(nn)
  {
    q := Quotient(nn, d);
    r := Remainder(nn, d, q);
  }

  /** The remainder step shared by mod and div, after quotient. */
  method Remainder(nn: seq<Limb>, d: seq<Limb>, q: seq<Limb>) returns (r: seq<Limb>)
    requires |nn| >= 1 && DivisorPack(nn, d)
    requires |q| == (if |d| > |nn| then 1 else |nn|)
    requires |d| > |nn| ==> Val(q) == 0
    requires ConstantDivisor(d) ==> Val(q) == Val(nn) / Val(d)
    ensures |r| == |d|
    ensures ConstantDivisor(d) ==> Val(r) == Val(nn) % Val(d)
    ensures |d| > |nn| ==> Val(r) == Val(nn)
  {
    if ConstantDivisor(d) {
      r := RemainderFrom(nn, d, q);
      if |d| > |nn| {
        ValBound(nn);
        TightRange(d);
        BPowMonotone(|nn|, |d| - 1);
        ModOfSmall(Val(nn), Val(d));
      }
    } else {
      r := RemainderOfZero(nn, d, q);
    }
  }

  /**
   * A pack with a zero top limb and more limbs than n: d = [5, 0] and
   * n = [7]. quotient returns 0 and mod returns 7, where 7 = 1 * 5 + 2.
   */
  method LongPackCounterexample() returns (q: seq<Limb>, r: seq<Limb>)
    ensures Val([7]) / Val([5, 0]) == 1 && Val([7]) % Val([5, 0]) == 2
    ensures Val(q) == 0 && Val(r) == 7
  {
    var nn: seq<Limb> := [7];
    var d: seq<Limb> := [5, 0];
    LongPackValues(nn, d);
    q, r := QuotientRemainder(nn, d);
  }

  /** The values of n = [7] and d = [5, 0]. */
  lemma LongPackValues(nn: seq<Limb>, d: seq<Limb>)
    requires nn == [7] && d == [5, 0]
    ensures Val(nn) == 7 && Val(d) == 5 && DivisorPack(nn, d)
    ensures Val(nn) / Val(d) == 1 && Val(nn) % Val(d) == 2
  {
    ValSingle(7);
    ValSingle(0);
    assert d[1..] == [0];
  }

  /**
   * quotient and mod with the pack cut to its tight length first: any
   * non-zero pack gives floor(n / d) and n mod d.
   */
  method QuotientRemainderOfPack(nn: seq<Limb>, d: seq<Limb>) returns (q: seq<Limb>, r: seq<Limb>)
    requires |nn| >= 1 && Val(d) >= 1
    ensures Val(q) == Val(nn) / Val(d) && Val(r) == Val(nn) % Val(d)
  {
    var tight := d[..TightLength(d)];
    TightLengthValue(d);
    q, r := QuotientRemainder(nn, tight);
  }

  // ---------------------------------------------------------------------
  // quotient as written: the final shift_right by (l - 1) % 64 bits
  // ---------------------------------------------------------------------

  /**
   * The run-time part of quotient with both shift_right calls as written
   * (BitShift.ShiftRightAsWritten): when (l - 1) % 64 == 0 the final
   * shift ORs every limb with its upper neighbour.
   */
  function MultiplyShiftAsWritten(nn: seq<Limb>, mp: seq<Limb>, l: nat): (q: seq<Limb>)
    requires 1 <= |nn| && |mp| <= |nn| && 1 <= l <= LIMB_BITS * |nn|
    ensures |q| == |nn|
  {
    var n := |nn|;
    var t1 := Skip(Mul(mp, nn, 0), n);
    var half := ShiftRightAsWritten(MpSub(nn, ToLength(t1, n)), 1);
    var sum := AddWide(t1, half);
    ToLength(ShiftRightAsWritten(Skip(sum, (l - 1) / LIMB_BITS), (l - 1) % LIMB_BITS), n)
  }

  /**
   * When (l - 1) % 64 != 0 no shift count reaches 64, and the as-written
   * run-time part computes floor(n / d) like MultiplyShift.
   */
  lemma {:induction false} MultiplyShiftAgrees(nn: seq<Limb>, mp: seq<Limb>, l: nat, d: seq<Limb>)
    requires |mp| <= |nn| && 1 <= l <= LIMB_BITS * |nn| && Val(mp) < BPow(|nn|)
    requires 1 <= Val(d) <= Pow(2, l)
    requires BPow(|nn|) + Val(mp) == (BPow(|nn|) * Pow(2, l)) / Val(d) + 1
    requires (l - 1) % LIMB_BITS != 0
    ensures Val(MultiplyShiftAsWritten(nn, mp, l)) == Val(nn) / Val(d)
  {
    var n := |nn|;
    var t1 := Skip(Mul(mp, nn, 0), n);
    ValBound(nn);
    HighLimbs(mp, nn);
    HighProductAtMost(Val(nn), BPow(n), Val(mp));
    var diff := MpSub(nn, ToLength(t1, n));
    ShiftRightAsWrittenAgrees(diff, 1);
    HalfDifference(nn, t1);
    var sum := AddWide(t1, ShiftRight(diff, 1));
    HalfSum(Val(nn), Val(t1));
    var skipped := Skip(sum, (l - 1) / LIMB_BITS);
    ShiftRightAsWrittenAgrees(skipped, (l - 1) % LIMB_BITS);
    var shifted := ShiftRight(skipped, (l - 1) % LIMB_BITS);
    MultiplyShiftValue(Val(nn), Val(mp), BPow(n), l, Val(d), Val(t1), Val(sum),
      Val(skipped), Val(shifted), Val(ToLength(shifted, n)));
  }

  /**
   * quotient(n, Divisor...) as written. It is floor(n / d) unless
   * l = bit_length(d - 1) leaves (l - 1) % 64 == 0, where the last shift
   * is by zero bits (QuotientShiftCounterexample).
   */
  method QuotientAsWritten(nn: seq<Limb>, d: seq<Limb>) returns (q: seq<Limb>)
    requires |nn| >= 1 && DivisorPack(nn, d)
    ensures |q| == (if |d| > |nn| then 1 else |nn|)
    ensures |d| > |nn| ==> Val(q) == 0
    ensures ConstantDivisor(d) ==> ExactUnlessZeroShift(nn, d, Ell(d), q)
    ensures |d| <= |nn| && Val(d) >= 2 ==> q == MultiplyShiftAsWritten(nn, MPrime(d, |nn|), Ell(d))
  {
    var n := |nn|;
    TightRange(d);
    ValBound(nn);
    if |d| > n {
      ValSingle(0);
      q := [0];
      if ConstantDivisor(d) {
        BPowMonotone(n, |d| - 1);
        ModOfSmall(Val(nn), Val(d));
      }
    } else if d == [1] {
      ValSingle(1);
      q := nn;
    } else {
      assert Val(d) >= 2 by {
        if |d| == 1 {
          ValSingle(d[0]);
          assert d == [d[0]];
        } else {
          BPowMonotone(1, |d| - 1);
        }
      }
      q := QuotientAsWrittenGeneral(nn, d);
    }
  }

  /** The quotient q is floor(n / d) unless the last shift count (l - 1) % 64 is zero. */
  predicate ExactUnlessZeroShift(nn: seq<Limb>, d: seq<Limb>, l: nat, q: seq<Limb>)
    requires Val(d) >= 1
  {
    (l - 1) % LIMB_BITS != 0 ==> Val(q) == Val(nn) / Val(d)
  }

  /** The last branch of quotient as written: a divisor of at least 2 and at most |n| limbs. */
  method QuotientAsWrittenGeneral(nn: seq<Limb>, d: seq<Limb>) returns (q: seq<Limb>)
    requires |nn| >= 1 && ConstantDivisor(d) && |d| <= |nn| && Val(d) >= 2
    ensures |q| == |nn|
    ensures ExactUnlessZeroShift(nn, d, Ell(d), q)
    ensures q == MultiplyShiftAsWritten(nn, MPrime(d, |nn|), Ell(d))
  {
    var mp := PrecomputeMPrime(d, |nn|);
    BPowMonotone(|d|, |nn|);
    q := MultiplyShiftAsWrittenRun(nn, mp, Ell(d), d);
  }

  /** The as-written run-time part for the m' and l of d: floor(n / d) when (l - 1) % 64 != 0. */
  method MultiplyShiftAsWrittenRun(nn: seq<Limb>, mp: seq<Limb>, l: nat, d: seq<Limb>) returns (q: seq<Limb>)
    requires |mp| <= |nn| && 1 <= l <= LIMB_BITS * |nn| && Val(mp) < BPow(|nn|)
    requires 1 <= Val(d) <= Pow(2, l)
    requires BPow(|nn|) + Val(mp) == (BPow(|nn|) * Pow(2, l)) / Val(d) + 1
    ensures q == MultiplyShiftAsWritten(nn, mp, l)
    ensures ExactUnlessZeroShift(nn, d, l, q)
  {
    q := MultiplyShiftAsWritten(nn, mp, l);
    if (l - 1) % LIMB_BITS != 0 {
      MultiplyShiftAgrees(nn, mp, l, d);
    }
  }

  /**
   * n = 2^65 in two limbs divided by d = 2: l = bit_length(1) = 1, m' = 1,
   * the last shift_right is by (l - 1) % 64 = 0 bits, and quotient as
   * written returns 2^64 + 1 instead of 2^64.
   */
  method QuotientShiftCounterexample() returns (q: seq<Limb>)
    ensures Val([0, 2]) / Val([2]) == BASE
    ensures Val(q) == BASE + 1
  {
    var nn: seq<Limb> := [0, 2];
    var d: seq<Limb> := [2];
    DivisorTwo(d);
    q := QuotientAsWritten(nn, d);
    TwoLimbQuotient(nn, d, MPrime(d, 2), q);
  }

  /** The divisor 2: tight, l = 1, and m' = 1 for two-limb dividends. */
  lemma {:induction false} DivisorTwo(d: seq<Limb>)
    requires d == [2]
    ensures ConstantDivisor(d) && Val(d) == 2 && Ell(d) == 1
    ensures (Ell(d) - 1) % LIMB_BITS == 0
    ensures MPrime(d, 2) == [1]
  {
    ValSingle(2);
    assert BitLength(1) == 1 + BitLength(0);
    var mp := MPrime(d, 2);
    BPowPositive(2);
    assert (BPow(2) * Pow(2, 1)) / 2 == BPow(2);
    ValSingle(1);
    TightInjective(mp, [1]);
  }

  /** The as-written run-time part on n = [0, 2], m' = [1], l = 1, limb by limb. */
  lemma {:induction false} TwoLimbQuotient(nn: seq<Limb>, d: seq<Limb>, mp: seq<Limb>, q: seq<Limb>)
    requires nn == [0, 2] && d == [2] && mp == [1]
    requires q == MultiplyShiftAsWritten(nn, mp, 1)
    ensures Val(nn) / Val(d) == BASE
    ensures Val(q) == BASE + 1
  {
    var t1 := Skip(Mul(mp, nn, 0), 2);
    var diff := MpSub(nn, ToLength(t1, 2));
    var sum := AddWide(t1, ShiftRight(diff, 1));
    TwoLimbSteps(nn, d, mp, t1, diff, sum);
    AsWrittenFromSum(nn, mp, 1, sum);
    ZeroShiftTail(sum, q);
  }

  /** The as-written run-time part is the as-written final shift of the corrected average. */
  lemma {:induction false} AsWrittenFromSum(nn: seq<Limb>, mp: seq<Limb>, l: nat, sum: seq<Limb>)
    requires 1 <= |nn| && |mp| <= |nn| && 1 <= l <= LIMB_BITS * |nn|
    requires sum == AddWide(Skip(Mul(mp, nn, 0), |nn|),
                            ShiftRight(MpSub(nn, ToLength(Skip(Mul(mp, nn, 0), |nn|), |nn|)), 1))
    ensures MultiplyShiftAsWritten(nn, mp, l)
         == ToLength(ShiftRightAsWritten(Skip(sum, (l - 1) / LIMB_BITS), (l - 1) % LIMB_BITS), |nn|)
  {
    ShiftRightAsWrittenAgrees(MpSub(nn, ToLength(Skip(Mul(mp, nn, 0), |nn|), |nn|)), 1);
  }

  /** The final shift_right by zero bits as written on [0, 1, 0], cut to two limbs, is 2^64 + 1. */
  lemma {:induction false} ZeroShiftTail(sum: seq<Limb>, q: seq<Limb>)
    requires sum == [0, 1, 0]
    requires q == ToLength(ShiftRightAsWritten(Skip(sum, 0), 0), 2)
    ensures Val(q) == BASE + 1
  {
    assert Skip(sum, 0) == sum by {
      ValInjective(Skip(sum, 0), sum);
    }
    ZeroShiftOfSum(sum);
    LowTwoLimbs([1, 1, 0]);
  }

  /** shift_right by zero bits as written on [0, 1, 0]. */
  lemma {:induction false} ZeroShiftOfSum(sum: seq<Limb>)
    requires sum == [0, 1, 0]
    ensures ShiftRightAsWritten(sum, 0) == [1, 1, 0]
  {
    assert ShrMasked(0, 0) == 0 && ShrMasked(1, 0) == 1;
    assert ShlMasked(1, 64) == 1 && ShlMasked(0, 64) == 0;
    assert BitOr(0, 1) == 1 && BitOr(1, 0) == 1;
  }

  /** to_length<2> of [1, 1, 0] is 2^64 + 1. */
  lemma {:induction false} LowTwoLimbs(s: seq<Limb>)
    requires s == [1, 1, 0]
    ensures Val(ToLength(s, 2)) == BASE + 1
  {
    SmallValues();
    assert BPow(1) == BASE;
    BPowSucc(1);
    ModOfSmall(BASE + 1, BPow(2));
  }

  /** The intermediate limbs of TwoLimbQuotient: t1 = [0], n - t1 = [0, 2], the sum [0, 1, 0]. */
  lemma {:induction false} TwoLimbSteps(nn: seq<Limb>, d: seq<Limb>, mp: seq<Limb>, t1: seq<Limb>,
                                        diff: seq<Limb>, sum: seq<Limb>)
    requires nn == [0, 2] && d == [2] && mp == [1]
    requires t1 == Skip(Mul(mp, nn, 0), 2) && diff == MpSub(nn, ToLength(t1, 2))
    requires sum == AddWide(t1, ShiftRight(diff, 1))
    ensures Val(nn) / Val(d) == BASE
    ensures sum == [0, 1, 0]
  {
    ValSingle(0);
    ValSingle(1);
    ValSingle(2);
    assert Val(nn) == 2 * BASE by {
      assert nn[1..] == [2];
    }
    assert BPow(1) == BASE;
    BPowSucc(1);
    assert Val(t1) == 0 by {
      DivModUnique(2 * BASE, BPow(2), 0, 2 * BASE);
    }
    assert Val(ToLength(t1, 2)) == 0;
    ModOfSmall(2 * BASE, BPow(2));
    assert Val(diff) == 2 * BASE;
    assert Val(ShiftRight(diff, 1)) == BASE by {
      assert Pow(2, 1) == 2;
    }
    assert Val([0, 1, 0]) == BASE by {
      assert [0, 1, 0][1..] == [1, 0];
      assert [1, 0][1..] == [0];
    }
    ValInjective(sum, [0, 1, 0]);
  }

  /**
   * The cases of the unit tests, stated of the model: the quotients
   * floor(1237940039285380274899124054 / 12676500229401496703205653) = 97
   * and floor(983475380176018765409862740849389839818376450874681244 /
   * 182016134597461982754761) = 5403231874751241207206728823349, and the
   * residue 31892671234697813764376159476 mod 837201975682367548938754 =
   * 299173053704355103264600.
   */
  method DivisionVectors() returns (q1: seq<Limb>, q2: seq<Limb>, r3: seq<Limb>)
    ensures |q1| == 2 && Val(q1) == 97
    ensures |q2| == 3 && Val(q2) == 5403231874751241207206728823349
    ensures |r3| == 2 && Val(r3) == 299173053704355103264600
  {
    var n1: seq<Limb> := [18446744073709551446, 67108863];
    var d1: seq<Limb> := [8382412735090000149, 687194];
    LiteralValue(n1, 1237940039285380274899124054);
    LiteralValue(d1, 12676500229401496703205653);
    var r1;
    q1, r1 := QuotientRemainder(n1, d1);
    var n2: seq<Limb> := [4842160353398368156, 17697198135678137645, 2890174383924278];
    var d2: seq<Limb> := [2110822169836959689, 9867];
    LiteralValue(n2, 983475380176018765409862740849389839818376450874681244);
    LiteralValue(d2, 182016134597461982754761);
    var r2;
    q2, r2 := QuotientRemainder(n2, d2);
    var n3: seq<Limb> := [17547764823382353140, 1728905171];
    var d3: seq<Limb> := [14942641133258398210, 45384];
    LiteralValue(n3, 31892671234697813764376159476);
    LiteralValue(d3, 837201975682367548938754);
    r3 := Mod(n3, d3);
  }
}
