/**
 * Montgomery reduction and Montgomery multiplication with radix 2^64:
 * for an n-limb odd modulus m, R = 2^(64n) and mprime = -m^(-1) mod 2^64,
 * montgomery_reduction(A) is A R^(-1) mod m and montgomery_mul(x, y) is
 * x y R^(-1) mod m (Handbook of Applied Cryptography, Algorithms 14.32
 * and 14.36).
 */
module Montgomery {
  import opened Arith
  import opened Limbs
  import opened Slicing
  import opened Addition
  import opened Mult
  import opened Division

  /** mprime is -m^(-1) modulo 2^64, which exists only for an odd low limb. */
  predicate NegatedInverse(m: seq<Limb>, mprime: Limb)
  {
    |m| >= 1 && (m[0] * mprime) % BASE == BASE - 1
  }

  /**
   * The multiplier u = (c mod 2^64) mprime mod 2^64 clears the low limb:
   * c + u m is a multiple of 2^64.
   */
  lemma {:induction false} Clears(c: nat, mv: nat, m0: nat, mp: nat, u: nat)
    requires m0 == mv % BASE && (m0 * mp) % BASE == BASE - 1
    requires u == ((c % BASE) * mp) % BASE
    ensures (c + u * mv) % BASE == 0
  {
    var d := c % BASE;
    ModOfSmall(u, BASE);
    ModOfSmall(m0, BASE);
    ModOfSmall(d, BASE);
    ModOfSmall(BASE - 1, BASE);
    ModCongruentMul(u, d * mp, mv, m0, BASE);
    MulAssoc(d, mp, m0);
    ModCongruentMul(d, d, mp * m0, BASE - 1, BASE);
    ModCongruentAdd(c, d, u * mv, d * (BASE - 1), BASE);
    assert d + d * (BASE - 1) == d * BASE;
    MulDiv(d, BASE);
  }

  /** A product with an even first factor is even. */
  lemma {:induction false} EvenProduct(a: int, b: int)
    ensures a % 2 == 0 ==> (a * b) % 2 == 0
  {
    ModMulLeft(a, b, 2);
    if a % 2 == 0 {
      assert (a % 2) * b == 0;
    }
  }

  /** A modulus with a negated inverse is odd, and so positive. */
  lemma {:induction false} OddModulus(m: seq<Limb>, mprime: Limb)
    requires NegatedInverse(m, mprime)
    ensures Val(m) % 2 == 1 && Val(m) > 0
  {
    ValLimb(m, 0);
    assert m[0] == Val(m) % BASE;
    assert 2 * (BASE / 2) == BASE;
    ModMod(Val(m), 2, BASE / 2);
    ModMod(m[0] * mprime, 2, BASE / 2);
    EvenProduct(m[0], mprime);
  }

  // ---------------------------------------------------------------------
  // Odd moduli cancel powers of two

  /** A product of two odd factors is odd. */
  lemma {:induction false} OddProduct(a: int, b: int)
    ensures a % 2 == 1 && b % 2 == 1 ==> (a * b) % 2 == 1
  {
    ModMulLeft(a, b, 2);
    if a % 2 == 1 {
      assert (a % 2) * b == b;
    }
  }

  /** m odd and m | 2d imply m | d. */
  lemma {:induction false} CancelTwo(d: int, m: nat)
    requires m % 2 == 1 && (2 * d) % m == 0
    ensures d % m == 0
  {
    var q := (2 * d) / m;
    assert 2 * d == q * m;
    MulDiv(d, 2);
    OddProduct(q, m);
    var h := q / 2;
    assert q == h * 2;
    MulAssoc(h, 2, m);
    assert d == h * m;
    MulDiv(h, m);
  }

  /** m odd and m | d 2^k imply m | d. */
  lemma {:induction false} CancelPowerOfTwo(d: int, m: nat, k: nat)
    requires m % 2 == 1 && (d * Pow(2, k)) % m == 0
    ensures d % m == 0
    decreases k
  {
    if k > 0 {
      assert Pow(2, k) == 2 * Pow(2, k - 1);
      MulAssoc(d, 2, Pow(2, k - 1));
      CancelPowerOfTwo(2 * d, m, k - 1);
      CancelTwo(d, m);
    }
  }

  /** Equal residues of r1 p and r2 p make (r1 - r2) p a multiple of m. */
  lemma {:induction false} DiffDivisible(r1: int, r2: int, p: int, m: int)
    requires m > 0 && (r1 * p) % m == (r2 * p) % m
    ensures ((r1 - r2) * p) % m == 0
  {
    var q1, q2 := (r1 * p) / m, (r2 * p) / m;
    var s := (r1 * p) % m;
    assert r1 * p == q1 * m + s;
    assert r2 * p == q2 * m + s;
    DistribRight(r1, -r2, p);
    DistribRight(q1, -q2, m);
    assert (r1 - r2) * p == (q1 - q2) * m;
    MulDiv(q1 - q2, m);
  }

  /** The only multiple of m strictly between -m and m is 0. */
  lemma {:induction false} SmallMultiple(d: int, m: int)
    requires m > 0 && -m < d < m && d % m == 0
    ensures d == 0
  {
    var k := d / m;
    assert d == k * m;
    if k >= 1 {
      MulLe(1, k, m);
    } else if k <= -1 {
      MulLe(1, -k, m);
    }
  }

  /** Multiplication by R is injective on the residues below an odd m. */
  lemma {:induction false} CancelR(r1: nat, r2: nat, m: nat, n: nat)
    requires m % 2 == 1 && r1 < m && r2 < m
    requires (r1 * BPow(n)) % m == (r2 * BPow(n)) % m
    ensures r1 == r2
  {
    DiffDivisible(r1, r2, BPow(n), m);
    BPowBits(n);
    CancelPowerOfTwo(r1 - r2, m, LIMB_BITS * n);
    SmallMultiple(r1 - r2, m);
  }

  // ---------------------------------------------------------------------
  // montgomery_reduction

  /**
   * One round i of the reduction loop: accum + u_i m 2^(64i), where
   * u_i = accum[i] mprime mod 2^64, added with the last carry dropped.
   */
  function RedcRound(accum: seq<Limb>, m: seq<Limb>, mprime: Limb, i: nat): (r: seq<Limb>)
    requires i < |m| && |accum| > |m| + i
    ensures |r| == |accum|
    ensures Val(accum) + ((accum[i] * mprime) % BASE) * Val(m) * BPow(i) < BPow(|accum|) ==>
              Val(r) == Val(accum) + ((accum[i] * mprime) % BASE) * Val(m) * BPow(i)
  {
    var u: Limb := (accum[i] * mprime) % BASE;
    var prod := Mul([u], m, 0);
    ValSingle(u);
    var prod2 := LimbwiseShiftLeft(prod, i, |accum|);
    var r := MpAddIgnoreLastCarry(accum, prod2);
    if Val(accum) + u * Val(m) * BPow(i) < BPow(|accum|) then
      ModOfSmall(u * Val(m) * BPow(i), BPow(|accum|));
      r
    else
      r
  }

  /** The accumulator a before round i, on numbers: p = 2^(64i) divides it and a < m (R + p). */
  predicate RedcBounds(a: nat, mv: nat, p: nat, rr: nat)
    requires p > 0
  {
    a % p == 0 && a < mv * (rr + p)
  }

  /**
   * What holds of the accumulator before round i: the low i limbs are
   * zero and the value stays below m (R + 2^(64i)).
   */
  predicate RedcInvariant(accum: seq<Limb>, m: seq<Limb>, mprime: Limb, i: nat)
  {
    NegatedInverse(m, mprime) && |accum| == 2 * |m| + 1 && i <= |m|
    && RedcBounds(Val(accum), Val(m), BPow(i), BPow(|m|))
  }

  /** Adding u m p to a multiple c p of p, where c + u m is a multiple of 2^64, leaves a multiple of 2^64 p. */
  lemma {:induction false} RedcDivisible(a: nat, mv: nat, p: nat, u: nat)
    requires p > 0 && a % p == 0 && (a / p + u * mv) % BASE == 0
    ensures (a + u * mv * p) % (p * BASE) == 0
  {
    var c := a / p;
    assert a == c * p;
    var k := (c + u * mv) / BASE;
    assert c + u * mv == k * BASE;
    DistribRight(c, u * mv, p);
    MulAssoc(k, BASE, p);
    assert a + u * mv * p == k * (BASE * p);
    MulDiv(k, BASE * p);
  }

  /** With u < 2^64 the round adds less than m 2^64 p. */
  lemma {:induction false} RedcBelow(a: nat, mv: nat, p: nat, rr: nat, u: nat)
    requires u < BASE && a < mv * (rr + p)
    ensures a + u * mv * p < mv * (rr + p * BASE)
  {
    MulLe(u, BASE - 1, mv * p);
    MulAssoc(u, mv, p);
    Distrib(mv, rr, p);
    Distrib(mv, rr, p * BASE);
    MulAssoc(mv, p, BASE);
    assert (BASE - 1) * (mv * p) + mv * p == (mv * p) * BASE;
  }

  /** m (R + 2^64 p) <= 2 m R < 2^64 R^2: the accumulator never needs a (2n+2)-th limb. */
  lemma {:induction false} RedcFits(mv: nat, p: nat, rr: nat, w: nat)
    requires p * BASE <= rr && BASE * rr * rr <= w && mv < rr
    ensures mv * (rr + p * BASE) < w
  {
    MulLe(rr + p * BASE, 2 * rr, mv);
    MulLt(mv, rr, 2 * rr);
    MulLe(2, BASE, rr * rr);
    MulAssoc(2, rr, rr);
    MulAssoc(BASE, rr, rr);
  }

  /** The round invariant on numbers, with p = 2^(64i), R = 2^(64n), W = 2^(64(2n+1)). */
  lemma {:induction false} RedcStepValues(a: nat, mv: nat, p: nat, rr: nat, w: nat, m0: nat, mp: nat, u: nat)
    requires p > 0 && p * BASE <= rr && BASE * rr * rr <= w && 0 < mv < rr
    requires RedcBounds(a, mv, p, rr)
    requires m0 == mv % BASE && (m0 * mp) % BASE == BASE - 1
    requires u == (((a / p) % BASE) * mp) % BASE
    ensures a + u * mv * p < w
    ensures RedcBounds(a + u * mv * p, mv, p * BASE, rr)
    ensures (a + u * mv * p) % mv == a % mv
  {
    Clears(a / p, mv, m0, mp, u);
    RedcDivisible(a, mv, p, u);
    RedcBelow(a, mv, p, rr, u);
    RedcFits(mv, p, rr, w);
    MulAssoc(u, mv, p);
    MulAssoc(u, p, mv);
    DivAddMultiple(a, u * p, mv);
  }

  /** One round keeps the invariant, one limb further up, and the residue modulo m. */
  lemma {:induction false} RedcStep(accum: seq<Limb>, m: seq<Limb>, mprime: Limb, i: nat)
    requires i < |m| && |accum| == 2 * |m| + 1
    ensures RedcInvariant(accum, m, mprime, i) ==>
              RedcInvariant(RedcRound(accum, m, mprime, i), m, mprime, i + 1)
              && Val(RedcRound(accum, m, mprime, i)) % Val(m) == Val(accum) % Val(m)
  {
    if RedcInvariant(accum, m, mprime, i) {
      RedcStepHolds(accum, m, mprime, i);
    }
  }

  lemma {:induction false} RedcStepHolds(accum: seq<Limb>, m: seq<Limb>, mprime: Limb, i: nat)
    requires RedcInvariant(accum, m, mprime, i) && i < |m|
    ensures RedcInvariant(RedcRound(accum, m, mprime, i), m, mprime, i + 1)
    ensures Val(RedcRound(accum, m, mprime, i)) % Val(m) == Val(accum) % Val(m)
  {
    var n := |m|;
    var u: Limb := (accum[i] * mprime) % BASE;
    ValLimb(accum, i);
    ValLimb(m, 0);
    assert m[0] == Val(m) % BASE;
    RedcPowers(i, n);
    ValBound(m);
    OddModulus(m, mprime);
    RedcStepValues(Val(accum), Val(m), BPow(i), BPow(n), BPow(|accum|), m[0], mprime, u);
    var next := RedcRound(accum, m, mprime, i);
    assert Val(next) == Val(accum) + u * Val(m) * BPow(i);
  }

  /** The powers of 2^64 a round of the reduction works with. */
  lemma {:induction false} RedcPowers(i: nat, n: nat)
    requires i < n
    ensures BPow(i + 1) == BPow(i) * BASE
    ensures BPow(i) * BASE <= BPow(n)
    ensures BASE * BPow(n) * BPow(n) == BPow(2 * n + 1)
  {
    BPowSucc(i);
    BPowMonotone(i + 1, n);
    BPowAdd(n, n);
    BPowSucc(n + n);
    MulAssoc(BASE, BPow(n), BPow(n));
  }

  /** Rounds i, ..., n-1 of the reduction loop. */
  function RedcRounds(accum: seq<Limb>, m: seq<Limb>, mprime: Limb, i: nat): (r: seq<Limb>)
    requires i <= |m| && |accum| == 2 * |m| + 1
    ensures |r| == |accum|
    ensures RedcInvariant(accum, m, mprime, i) ==>
              RedcInvariant(r, m, mprime, |m|) && Val(r) % Val(m) == Val(accum) % Val(m)
    decreases |m| - i
  {
    if i == |m| then accum
    else
      var next := RedcRound(accum, m, mprime, i);
      RedcStep(accum, m, mprime, i);
      RedcRounds(next, m, mprime, i + 1)
  }

  /** The final step on numbers: c = acc / R and the conditional subtraction. */
  lemma {:induction false} RedcFinal(acc: nat, a: nat, mv: nat, rr: nat, c: nat, s: nat)
    requires mv > 0 && rr > 0
    requires RedcBounds(acc, mv, rr, rr) && acc % mv == a % mv
    requires c == acc / rr
    requires s == (if c >= mv then c - mv else c)
    ensures s < mv && (s * rr) % mv == a % mv
  {
    assert acc == c * rr;
    Distrib(mv, rr, rr);
    MulAssoc(2, mv, rr);
    FactorBelow(c, 2 * mv, rr);
    if c >= mv {
      DistribRight(s, mv, rr);
      MulAssoc(rr, mv, 1);
      DivAddMultiple(s * rr, rr, mv);
    }
  }

  /** The padded input satisfies the invariant before the first round. */
  lemma {:induction false} RedcStart(start: seq<Limb>, m: seq<Limb>, mprime: Limb)
    requires NegatedInverse(m, mprime) && |start| == 2 * |m| + 1
    requires Val(start) < Val(m) * BPow(|m|)
    ensures RedcInvariant(start, m, mprime, 0)
  {
    assert BPow(0) == 1;
    Distrib(Val(m), BPow(|m|), 1);
  }

  /** What the rounds and the final subtraction of montgomery_reduction leave. */
  lemma {:induction false} RedcOutput(a: seq<Limb>, m: seq<Limb>, mprime: Limb, accum: seq<Limb>, reduced: seq<Limb>)
    requires |m| >= 1 && |a| == 2 * |m|
    requires accum == RedcRounds(Pad(a, 1), m, mprime, 0)
    requires reduced == SubtractIfNotBelow(Skip(accum, |m|), Pad(m, 1))
    ensures NegatedInverse(m, mprime) && Val(a) < Val(m) * BPow(|m|) ==>
              Val(reduced) < Val(m) && (Val(reduced) * BPow(|m|)) % Val(m) == Val(a) % Val(m)
              && Val(reduced) % BPow(|m|) == Val(reduced)
  {
    if NegatedInverse(m, mprime) && Val(a) < Val(m) * BPow(|m|) {
      var n := |m|;
      RedcStart(Pad(a, 1), m, mprime);
      OddModulus(m, mprime);
      RedcFinal(Val(accum), Val(a), Val(m), BPow(n), Val(Skip(accum, n)), Val(reduced));
      ValBound(m);
      ModOfSmall(Val(reduced), BPow(n));
    }
  }

  /**
   * montgomery_reduction(A, m, mprime) for a 2n-limb A and an n-limb m:
   * for A < m R the result is the residue below m with result R = A (mod m),
   * that is A R^(-1) mod m.
   */
  function MontgomeryReduction(a: seq<Limb>, m: seq<Limb>, mprime: Limb): (r: seq<Limb>)
    requires |m| >= 1 && |a| == 2 * |m|
    ensures |r| == |m|
    ensures NegatedInverse(m, mprime) && Val(a) < Val(m) * BPow(|m|) ==>
              Val(r) < Val(m) && (Val(r) * BPow(|m|)) % Val(m) == Val(a) % Val(m)
  {
    var n := |m|;
    var accum := RedcRounds(Pad(a, 1), m, mprime, 0);
    var reduced := SubtractIfNotBelow(Skip(accum, n), Pad(m, 1));
    RedcOutput(a, m, mprime, accum, reduced);
    First(reduced, n)
  }

  // ---------------------------------------------------------------------
  // montgomery_mul

  /** u_i = (A[0] + x_i y[0]) mprime, each operation in 64-bit arithmetic. */
  function RoundMultiplier(a0: Limb, xi: Limb, y0: Limb, mprime: Limb): Limb
  {
    (((a0 + (xi * y0) % BASE) % BASE) * mprime) % BASE
  }

  /** On numbers: the accumulator a is below m + y, and (m + y) 2^64 fits in w. */
  predicate MulFits(a: nat, yv: nat, mv: nat, w: nat)
  {
    (mv + yv) * BASE <= w && a < mv + yv
  }

  /** The condition under which a round of montgomery_mul loses nothing. */
  predicate Fits(acc: seq<Limb>, y: seq<Limb>, m: seq<Limb>, mprime: Limb)
  {
    NegatedInverse(m, mprime) && MulFits(Val(acc), Val(y), Val(m), BPow(|acc|))
  }

  /** r k = t (mod m): r stands for t / k in the residues modulo m. */
  predicate Represents(r: int, k: int, t: int, mv: int)
  {
    mv > 0 && (r * k) % mv == t % mv
  }

  /** r 2^(64 |x[i..]|) = A + x[i..] y (mod m): the rounds from i on turn A into r. */
  predicate RoundsRepresent(r: seq<Limb>, acc: seq<Limb>, x: seq<Limb>, i: nat, y: seq<Limb>, m: seq<Limb>)
    requires i <= |x|
  {
    Represents(Val(r), BPow(|x[i..]|), Val(acc) + Val(x[i..]) * Val(y), Val(m))
  }

  /**
   * One round of montgomery_mul with a w-limb accumulator A: A + x_i y and
   * then + u_i m, each accumulate wrapping modulo 2^(64w), and the sum
   * moved down one limb (skip<1, 1>). When (m + y) 2^64 fits in w limbs and
   * A < m + y nothing wraps, the low limb that is dropped is zero, and the
   * new A is again below m + y.
   */
  function MulRound(acc: seq<Limb>, xi: Limb, y: seq<Limb>, m: seq<Limb>, mprime: Limb): (r: seq<Limb>)
    requires |y| == |m| >= 1 && |acc| > |m|
    ensures |r| == |acc|
  {
    var u := RoundMultiplier(acc[0], xi, y[0], mprime);
    var pad := |acc| - |m| - 1;
    var a1 := Accumulate(acc, Mul([xi], y, pad));
    var a2 := Accumulate(a1, Mul([u], m, pad));
    Pad(Skip(a2, 1), 1)
  }

  /**
   * While the accumulator fits, a round of montgomery_mul computes
   * (A + x_i y + u_i m) / 2^64 exactly, and the new A is below m + y.
   */
  lemma {:induction false} MulRoundSpec(acc: seq<Limb>, xi: Limb, y: seq<Limb>, m: seq<Limb>, mprime: Limb)
    requires |y| == |m| >= 1 && |acc| > |m|
    requires Fits(acc, y, m, mprime)
    ensures Val(MulRound(acc, xi, y, m, mprime)) * BASE
              == Val(acc) + xi * Val(y) + RoundMultiplier(acc[0], xi, y[0], mprime) * Val(m)
    ensures Val(MulRound(acc, xi, y, m, mprime)) < Val(m) + Val(y)
  {
    var u := RoundMultiplier(acc[0], xi, y[0], mprime);
    var p1 := Mul([xi], y, |acc| - |m| - 1);
    var p2 := Mul([u], m, |acc| - |m| - 1);
    MulRoundShape(acc, xi, y, m, mprime, u, p1, p2);
    MulSingle(xi, y, |acc| - |m| - 1, p1);
    MulSingle(u, m, |acc| - |m| - 1, p2);
    TwoAccumulates(acc, p1, p2);
    MulRoundValues(acc, xi, y, m, mprime, u, p1, p2, Accumulate(Accumulate(acc, p1), p2),
                   MulRound(acc, xi, y, m, mprime));
  }

  /** A round is x_i y and u_i m accumulated into A, shifted down by one limb. */
  lemma {:induction false} MulRoundShape(acc: seq<Limb>, xi: Limb, y: seq<Limb>, m: seq<Limb>, mprime: Limb,
                                          u: Limb, p1: seq<Limb>, p2: seq<Limb>)
    requires |y| == |m| >= 1 && |acc| > |m|
    requires u == RoundMultiplier(acc[0], xi, y[0], mprime)
    requires p1 == Mul([xi], y, |acc| - |m| - 1) && p2 == Mul([u], m, |acc| - |m| - 1)
    ensures Val(MulRound(acc, xi, y, m, mprime)) == Val(Accumulate(Accumulate(acc, p1), p2)) / BASE
  {
    ShiftDownOne(Accumulate(Accumulate(acc, p1), p2));
  }

  /** Two accumulates of full-width addends add modulo 2^(64|A|) twice. */
  lemma {:induction false} TwoAccumulates(acc: seq<Limb>, p1: seq<Limb>, p2: seq<Limb>)
    requires |p1| == |p2| == |acc| >= 1
    ensures Val(Accumulate(Accumulate(acc, p1), p2)) == ((Val(acc) + Val(p1)) % BPow(|acc|) + Val(p2)) % BPow(|acc|)
  {
    AccumulateFull(acc, p1);
    AccumulateFull(Accumulate(acc, p1), p2);
  }

  /** An accumulate of a full-width addend adds modulo 2^(64|A|). */
  lemma {:induction false} AccumulateFull(acc: seq<Limb>, p: seq<Limb>)
    requires |p| == |acc|
    ensures |Accumulate(acc, p)| == |acc|
    ensures Val(Accumulate(acc, p)) == (Val(acc) + Val(p)) % BPow(|acc|)
  {
  }

  /** skip<1> followed by padding one limb divides by 2^64. */
  lemma {:induction false} ShiftDownOne(t: seq<Limb>)
    requires |t| >= 1
    ensures Val(Pad(Skip(t, 1), 1)) == Val(t) / BASE
  {
    assert BPow(1) == BASE;
  }

  /** A one-limb factor times y. */
  lemma {:induction false} MulSingle(xi: Limb, y: seq<Limb>, pad: nat, p: seq<Limb>)
    requires p == Mul([xi], y, pad)
    ensures Val(p) == xi * Val(y) && |p| == 1 + |y| + pad
  {
    ValSingle(xi);
  }

  /** MulRound's accumulates do not wrap and leave a multiple of 2^64. */
  lemma {:induction false} MulRoundValues(acc: seq<Limb>, xi: Limb, y: seq<Limb>, m: seq<Limb>, mprime: Limb, u: Limb,
                                          p1: seq<Limb>, p2: seq<Limb>, a2: seq<Limb>, r: seq<Limb>)
    requires |y| == |m| >= 1 && |acc| > |m|
    requires Fits(acc, y, m, mprime)
    requires u == RoundMultiplier(acc[0], xi, y[0], mprime)
    requires Val(p1) == xi * Val(y) && Val(p2) == u * Val(m)
    requires Val(a2) == ((Val(acc) + Val(p1)) % BPow(|acc|) + Val(p2)) % BPow(|acc|)
    requires Val(r) == Val(a2) / BASE
    ensures Val(r) * BASE == Val(acc) + xi * Val(y) + u * Val(m) && Val(r) < Val(m) + Val(y)
  {
    SameVal(p1, Val(p1));
    SameVal(p2, Val(p2));
    SameVal(a2, Val(a2));
    SameVal(r, Val(r));
    RoundLowLimbs(acc, xi, y, m, mprime, u);
    RoundNumbers(Val(acc), xi, Val(y), Val(m), mprime, u, Val(p1), Val(p2), BPow(|acc|), Val(a2), Val(r));
  }

  /** The round multiplier and m' in terms of the low limbs of the values. */
  lemma {:induction false} RoundLowLimbs(acc: seq<Limb>, xi: Limb, y: seq<Limb>, m: seq<Limb>, mprime: Limb, u: Limb)
    requires |acc| >= 1 && |y| >= 1 && NegatedInverse(m, mprime)
    requires u == RoundMultiplier(acc[0], xi, y[0], mprime)
    ensures u == (((Val(acc) % BASE + (xi * (Val(y) % BASE)) % BASE) % BASE) * mprime) % BASE
    ensures ((Val(m) % BASE) * mprime) % BASE == BASE - 1
  {
    LowLimb(acc);
    LowLimb(y);
    LowLimb(m);
  }

  /** MulRoundValues on numbers: w = 2^(64|A|), s the twice-wrapped sum, r = s / 2^64. */
  lemma {:induction false} RoundNumbers(a: nat, xi: nat, yv: nat, mv: nat, mp: nat, u: nat,
                                        p1: nat, p2: nat, w: nat, s: nat, r: nat)
    requires xi < BASE && MulFits(a, yv, mv, w)
    requires ((mv % BASE) * mp) % BASE == BASE - 1
    requires u == (((a % BASE + (xi * (yv % BASE)) % BASE) % BASE) * mp) % BASE
    requires p1 == xi * yv && p2 == u * mv
    requires s == ((a + p1) % w + p2) % w && r == s / BASE
    ensures r * BASE == a + xi * yv + u * mv && r < mv + yv
  {
    MulNoWrap(a, xi, yv, mv, u, p1, p2, w, (a + p1) % w, s);
    RoundClears(a, xi, yv, mv, a % BASE, yv % BASE, mv % BASE, mp, u, p1, p2, s);
    QuotientOfMultiple(s, mv + yv);
  }

  /** The suffix from limb i is x_i plus 2^64 times the suffix from limb i + 1. */
  lemma {:induction false} ValFrom(x: seq<Limb>, i: nat, j: nat)
    requires i < |x| && j == i + 1
    ensures Val(x[i..]) == x[i] + BASE * Val(x[j..])
  {
    assert x[i..][1..] == x[j..];
  }

  /** Names the value of s. */
  lemma {:induction false} SameVal(s: seq<Limb>, v: int)
    requires v == Val(s)
    ensures Val(s) == v
  {
  }

  /** The low limb of a number is its residue modulo 2^64. */
  lemma {:induction false} LowLimb(s: seq<Limb>)
    requires |s| >= 1
    ensures s[0] == Val(s) % BASE
  {
    ValLimb(s, 0);
    assert BPow(0) == 1;
  }

  /** u_i clears the low limb of A + x_i y + u_i m. */
  lemma {:induction false} RoundClears(a: nat, xi: nat, yv: nat, mv: nat, a0: nat, y0: nat, m0: nat, mp: nat, u: nat,
                     p1: nat, p2: nat, s: nat)
    requires a0 == a % BASE && y0 == yv % BASE && m0 == mv % BASE && (m0 * mp) % BASE == BASE - 1
    requires u == (((a0 + (xi * y0) % BASE) % BASE) * mp) % BASE
    requires p1 == xi * yv && p2 == u * mv && s == a + p1 + p2
    ensures s % BASE == 0
  {
    LowLimbSum(a, xi, yv, a0, y0);
    Clears(a + xi * yv, mv, m0, mp, u);
  }

  /** A multiple of 2^64 below b 2^64 is q 2^64 for some q < b. */
  lemma {:induction false} QuotientOfMultiple(s: nat, b: nat)
    requires s % BASE == 0 && s < b * BASE
    ensures (s / BASE) * BASE == s && s / BASE < b
  {
    DigitBelow(s, BASE, b);
    DivModRange(s, BASE);
  }

  /** Neither accumulate of a round wraps while the accumulator fits. */
  lemma {:induction false} MulNoWrap(a: nat, xi: nat, yv: nat, mv: nat, u: nat, p1: nat, p2: nat, w: nat, a1: nat, a2: nat)
    requires xi < BASE && u < BASE && MulFits(a, yv, mv, w)
    requires p1 == xi * yv && p2 == u * mv
    requires a1 == (a + p1) % w && a2 == (a1 + p2) % w
    ensures a2 == a + p1 + p2 && a2 < (mv + yv) * BASE
  {
    MulLe(xi, BASE - 1, yv);
    MulLe(u, BASE - 1, mv);
    DistribRight(mv, yv, BASE);
    assert a + p1 + p2 < (mv + yv) * BASE;
    ModOfSmall(a + p1, w);
    ModOfSmall(a + p1 + p2, w);
  }

  /** The low limb of A + x_i y is A[0] + x_i y[0] in 64-bit arithmetic. */
  lemma {:induction false} LowLimbSum(a: nat, xi: nat, yv: nat, a0: nat, y0: nat)
    requires a0 == a % BASE && y0 == yv % BASE
    ensures (a + xi * yv) % BASE == (a0 + (xi * y0) % BASE) % BASE
  {
    ModOfSmall(y0, BASE);
    ModCongruentMul(xi, xi, yv, y0, BASE);
    ModOfSmall(a0, BASE);
    ModMod(xi * y0, BASE, 1);
    ModCongruentAdd(a, a0, xi * yv, (xi * y0) % BASE, BASE);
  }

  /**
   * Rounds i, ..., |x| - 1 of montgomery_mul. While A < m + y, the rounds
   * keep A below m + y and compute A' 2^(64(|x| - i)) = A + x[i..] y (mod m).
   */
  function MulRounds(acc: seq<Limb>, x: seq<Limb>, y: seq<Limb>, m: seq<Limb>, mprime: Limb, i: nat): (r: seq<Limb>)
    requires |y| == |m| >= 1 && |acc| > |m| && i <= |x|
    ensures |r| == |acc|
    decreases |x| - i
  {
    if i == |x| then acc
    else MulRounds(MulRound(acc, x[i], y, m, mprime), x, y, m, mprime, i + 1)
  }

  /**
   * While A < m + y, the rounds from i on keep A below m + y and compute
   * A' 2^(64(|x| - i)) = A + x[i..] y (mod m).
   */
  lemma {:induction false} MulRoundsSpec(acc: seq<Limb>, x: seq<Limb>, y: seq<Limb>, m: seq<Limb>, mprime: Limb, i: nat)
    requires |y| == |m| >= 1 && |acc| > |m| && i <= |x|
    requires Fits(acc, y, m, mprime)
    ensures Val(MulRounds(acc, x, y, m, mprime, i)) < Val(m) + Val(y)
    ensures RoundsRepresent(MulRounds(acc, x, y, m, mprime, i), acc, x, i, y, m)
    decreases |x| - i
  {
    if i == |x| {
      OddModulus(m, mprime);
      MulRoundsDone(acc, x, y, m, i);
    } else {
      MulRoundSpec(acc, x[i], y, m, mprime);
      assert Fits(MulRound(acc, x[i], y, m, mprime), y, m, mprime);
      MulRoundsSpec(MulRound(acc, x[i], y, m, mprime), x, y, m, mprime, i + 1);
      MulRoundsLink(acc, x, y, m, mprime, i, i + 1, MulRound(acc, x[i], y, m, mprime),
                    MulRounds(MulRound(acc, x[i], y, m, mprime), x, y, m, mprime, i + 1));
    }
  }

  /** With no rounds left, A stands for itself. */
  lemma {:induction false} MulRoundsDone(acc: seq<Limb>, x: seq<Limb>, y: seq<Limb>, m: seq<Limb>, i: nat)
    requires i == |x| && Val(m) > 0
    ensures RoundsRepresent(acc, acc, x, i, y, m)
  {
    assert x[i..] == [];
    assert BPow(0) == 1;
  }

  /** From the rounds after i to the rounds from i on. */
  lemma {:induction false} MulRoundsLink(acc: seq<Limb>, x: seq<Limb>, y: seq<Limb>, m: seq<Limb>, mprime: Limb,
                                         i: nat, j: nat, next: seq<Limb>, r: seq<Limb>)
    requires i < |x| && j == i + 1 && |acc| >= 1 && |y| >= 1
    requires Val(next) * BASE == Val(acc) + x[i] * Val(y) + RoundMultiplier(acc[0], x[i], y[0], mprime) * Val(m)
    requires RoundsRepresent(r, next, x, j, y, m)
    ensures RoundsRepresent(r, acc, x, i, y, m)
  {
    ValFrom(x, i, j);
    SameVal(r, Val(r));
    SameVal(next, Val(next));
    SameVal(acc, Val(acc));
    SameVal(x[j..], Val(x[j..]));
    SameVal(x[i..], Val(x[i..]));
    SameVal(y, Val(y));
    SameVal(m, Val(m));
    BPowSucc(|x[j..]|);
    assert |x[j..]| + 1 == |x[i..]|;
    MulRoundsStep(Val(r), Val(next), Val(acc), x[i], Val(x[j..]), Val(x[i..]), Val(y), Val(m),
                  RoundMultiplier(acc[0], x[i], y[0], mprime), BPow(|x[j..]|), BPow(|x[i..]|));
  }

  /**
   * The inductive step of MulRounds on numbers: with k = 2^(64(|x| - i - 1)),
   * kk = 2^64 k and xs = x_i + 2^64 rest.
   */
  lemma {:induction false} MulRoundsStep(r: int, next: int, a: int, xi: int, rest: int, xs: int, yv: int, mv: int, u: int,
                                         k: int, kk: int)
    requires next * BASE == a + xi * yv + u * mv
    requires kk == BASE * k && xs == xi + BASE * rest
    requires Represents(r, k, next + rest * yv, mv)
    ensures Represents(r, kk, a + xs * yv, mv)
  {
    ModCongruentMul(r * k, next + rest * yv, BASE, BASE, mv);
    MulAssoc(r, k, BASE);
    DistribRight(next, rest * yv, BASE);
    MulAssoc(BASE, rest, yv);
    DistribRight(xi, BASE * rest, yv);
    MulAssoc(u, mv, 1);
    DivAddMultiple(a + xs * yv, u, mv);
  }

  /** The final subtraction on numbers: a < m + y < 2m leaves a residue below m. */
  lemma {:induction false} MulFinal(a: nat, s: nat, p: nat, mv: nat, yv: nat, rr: nat)
    requires yv < mv && a < mv + yv
    requires Represents(a, rr, p, mv)
    requires s == (if a >= mv then a - mv else a)
    ensures s < mv && Represents(s, rr, p, mv)
  {
    if a >= mv {
      DistribRight(s, mv, rr);
      MulAssoc(rr, mv, 1);
      DivAddMultiple(s * rr, rr, mv);
    }
  }

  /** What the rounds and the final subtraction of montgomery_mul leave. */
  lemma {:induction false} MulOutput(x: seq<Limb>, y: seq<Limb>, m: seq<Limb>, mprime: Limb, w: nat, a: seq<Limb>, reduced: seq<Limb>)
    requires |x| == |y| == |m| >= 1 && w > |m|
    requires a == MulRounds(Zeros(w), x, y, m, mprime, 0)
    requires reduced == SubtractIfNotBelow(a, Pad(m, w - |m|))
    ensures NegatedInverse(m, mprime) && Val(y) < Val(m) && (Val(m) + Val(y)) * BASE <= BPow(w) ==>
              Val(reduced) < Val(m) && Represents(Val(reduced), BPow(|m|), Val(x) * Val(y), Val(m))
              && Val(reduced) % BPow(|m|) == Val(reduced)
  {
    if NegatedInverse(m, mprime) && Val(y) < Val(m) && (Val(m) + Val(y)) * BASE <= BPow(w) {
      MulRoundsFromZero(x, y, m, mprime, w, a);
      MulSubtract(a, m, x, y, w, reduced);
      ValBound(m);
      ModOfSmall(Val(reduced), BPow(|m|));
    }
  }

  /** The rounds of montgomery_mul from a zero accumulator. */
  lemma {:induction false} MulRoundsFromZero(x: seq<Limb>, y: seq<Limb>, m: seq<Limb>, mprime: Limb, w: nat, a: seq<Limb>)
    requires |x| == |y| == |m| >= 1 && w > |m|
    requires a == MulRounds(Zeros(w), x, y, m, mprime, 0)
    requires NegatedInverse(m, mprime) && Val(y) < Val(m) && (Val(m) + Val(y)) * BASE <= BPow(w)
    ensures Val(a) < Val(m) + Val(y)
    ensures Represents(Val(a), BPow(|m|), Val(x) * Val(y), Val(m))
  {
    OddModulus(m, mprime);
    assert Fits(Zeros(w), y, m, mprime);
    MulRoundsSpec(Zeros(w), x, y, m, mprime, 0);
    RoundsFromZero(a, Zeros(w), x, y, m);
  }

  /** The rounds invariant from a zero accumulator over all of x. */
  lemma {:induction false} RoundsFromZero(a: seq<Limb>, z: seq<Limb>, x: seq<Limb>, y: seq<Limb>, m: seq<Limb>)
    requires |x| == |m| && Val(z) == 0
    requires RoundsRepresent(a, z, x, 0, y, m)
    ensures Represents(Val(a), BPow(|m|), Val(x) * Val(y), Val(m))
  {
    assert x[0..] == x;
    SameVal(x, Val(x));
    SameVal(y, Val(y));
    SameVal(z, Val(z));
  }

  /** The conditional subtraction of m from a < m + y leaves a residue below m. */
  lemma {:induction false} MulSubtract(a: seq<Limb>, m: seq<Limb>, x: seq<Limb>, y: seq<Limb>, w: nat, reduced: seq<Limb>)
    requires |a| == w && w > |m|
    requires reduced == SubtractIfNotBelow(a, Pad(m, w - |m|))
    requires Val(y) < Val(m) && Val(a) < Val(m) + Val(y)
    requires Represents(Val(a), BPow(|m|), Val(x) * Val(y), Val(m))
    ensures Val(reduced) < Val(m) && Represents(Val(reduced), BPow(|m|), Val(x) * Val(y), Val(m))
  {
    SameVal(x, Val(x));
    SameVal(a, Val(a));
    SameVal(m, Val(m));
    SameVal(y, Val(y));
    SameVal(reduced, Val(reduced));
    MulFinal(Val(a), Val(reduced), Val(x) * Val(y), Val(m), Val(y), BPow(|m|));
  }

  /**
   * montgomery_mul with a w-limb accumulator: the rounds, the conditional
   * subtraction of m and the low n limbs. The result is x y R^(-1) mod m
   * whenever y < m and (m + y) 2^64 fits in w limbs.
   */
  function MontgomeryMulWidth(x: seq<Limb>, y: seq<Limb>, m: seq<Limb>, mprime: Limb, w: nat): (r: seq<Limb>)
    requires |x| == |y| == |m| >= 1 && w > |m|
    ensures |r| == |m|
    ensures NegatedInverse(m, mprime) && Val(y) < Val(m) && (Val(m) + Val(y)) * BASE <= BPow(w) ==>
              Val(r) < Val(m) && (Val(r) * BPow(|m|)) % Val(m) == (Val(x) * Val(y)) % Val(m)
  {
    var a := MulRounds(Zeros(w), x, y, m, mprime, 0);
    var reduced := SubtractIfNotBelow(a, Pad(m, w - |m|));
    MulOutput(x, y, m, mprime, w, a, reduced);
    First(reduced, |m|)
  }

  /**
   * montgomery_mul(x, y, m, mprime) as written: an (n+1)-limb accumulator.
   * It is correct when also m + y <= R; otherwise the top carry of a round
   * can be lost (MulCarryLost).
   */
  function MontgomeryMul(x: seq<Limb>, y: seq<Limb>, m: seq<Limb>, mprime: Limb): (r: seq<Limb>)
    requires |x| == |y| == |m| >= 1
    ensures |r| == |m|
    ensures NegatedInverse(m, mprime) && Val(y) < Val(m) && Val(m) + Val(y) <= BPow(|m|) ==>
              Val(r) < Val(m) && (Val(r) * BPow(|m|)) % Val(m) == (Val(x) * Val(y)) % Val(m)
  {
    WidthFits(Val(m) + Val(y), |m|);
    MontgomeryMulWidth(x, y, m, mprime, |m| + 1)
  }

  /**
   * montgomery_mul with one more accumulator limb, so that the sum of a
   * round never wraps: x y R^(-1) mod m for every y < m.
   */
  function MontgomeryMulCorrected(x: seq<Limb>, y: seq<Limb>, m: seq<Limb>, mprime: Limb): (r: seq<Limb>)
    requires |x| == |y| == |m| >= 1
    ensures |r| == |m|
    ensures NegatedInverse(m, mprime) && Val(y) < Val(m) ==>
              Val(r) < Val(m) && (Val(r) * BPow(|m|)) % Val(m) == (Val(x) * Val(y)) % Val(m)
  {
    ValBound(m);
    WidthFits(Val(m) + Val(y), |m| + 1);
    MontgomeryMulWidth(x, y, m, mprime, |m| + 2)
  }

  /** s <= 2^(64n) gives s 2^64 <= 2^(64(n+1)). */
  lemma {:induction false} WidthFits(s: nat, n: nat)
    ensures s <= BPow(n) ==> s * BASE <= BPow(n + 1)
  {
    BPowSucc(n);
    if s <= BPow(n) {
      MulLe(s, BPow(n), BASE);
    }
  }

  // ---------------------------------------------------------------------
  // Agreement of the two operations

  /** montgomery_mul(x, y) is montgomery_reduction(mul(x, y)) for x, y < m. */
  lemma {:induction false} MulIsReduction(x: seq<Limb>, y: seq<Limb>, m: seq<Limb>, mprime: Limb)
    requires |x| == |y| == |m| >= 1
    ensures NegatedInverse(m, mprime) && Val(x) < Val(m) && Val(y) < Val(m) ==>
              MontgomeryMulCorrected(x, y, m, mprime) == MontgomeryReduction(Mul(x, y, 0), m, mprime)
  {
    if NegatedInverse(m, mprime) && Val(x) < Val(m) && Val(y) < Val(m) {
      SameResidue(MontgomeryMulCorrected(x, y, m, mprime), x, y, m, mprime);
    }
  }

  /** The as-written montgomery_mul agrees too, while m + y <= R. */
  lemma {:induction false} MulAsWrittenIsReduction(x: seq<Limb>, y: seq<Limb>, m: seq<Limb>, mprime: Limb)
    requires |x| == |y| == |m| >= 1
    ensures NegatedInverse(m, mprime) && Val(x) < Val(m) && Val(y) < Val(m) && Val(m) + Val(y) <= BPow(|m|) ==>
              MontgomeryMul(x, y, m, mprime) == MontgomeryReduction(Mul(x, y, 0), m, mprime)
  {
    if NegatedInverse(m, mprime) && Val(x) < Val(m) && Val(y) < Val(m) && Val(m) + Val(y) <= BPow(|m|) {
      SameResidue(MontgomeryMul(x, y, m, mprime), x, y, m, mprime);
    }
  }

  /** Any residue r < m with r R = x y (mod m) is montgomery_reduction(mul(x, y)). */
  lemma {:induction false} SameResidue(r: seq<Limb>, x: seq<Limb>, y: seq<Limb>, m: seq<Limb>, mprime: Limb)
    requires |x| == |y| == |m| == |r| >= 1
    requires NegatedInverse(m, mprime) && Val(x) < Val(m) && Val(y) < Val(m)
    requires Val(r) < Val(m) && (Val(r) * BPow(|m|)) % Val(m) == (Val(x) * Val(y)) % Val(m)
    ensures r == MontgomeryReduction(Mul(x, y, 0), m, mprime)
  {
    var p := Mul(x, y, 0);
    ValBound(m);
    MulStrictBound(Val(x), Val(m), Val(y), BPow(|m|));
    MulLe(Val(m), Val(m), BPow(|m|));
    var s := MontgomeryReduction(p, m, mprime);
    OddModulus(m, mprime);
    CancelR(Val(r), Val(s), Val(m), |m|);
    ValInjective(r, s);
  }

  // ---------------------------------------------------------------------
  // Vectors

  /** The REDC vector: 2-limb modulus 1267650600228229401496703205653. */
  lemma {:induction false} ReductionVector()
    ensures NegatedInverse([277, 68719476736], 1265300135019788739)
    ensures MontgomeryReduction([18446744073709551615, 18446744073709551615, 4503599627370495, 0],
                                [277, 68719476736], 1265300135019788739)
            == [18384652929388512338, 39602208060]
  {
    var m: seq<Limb> := [277, 68719476736];
    var t: seq<Limb> := [18446744073709551615, 18446744073709551615, 4503599627370495, 0];
    var ans: seq<Limb> := [18384652929388512338, 39602208060];
    var mp: Limb := 1265300135019788739;
    var mv := 1267650600228229401496703205653;
    var tv := 1532495540865888858358347027150309183618739122183602175;
    var av := 730531796855002292035529737298;
    var rr := 340282366920938463463374607431768211456;
    assert 277 * 1265300135019788739 == 350488137400481480703;
    DivModUnique(350488137400481480703, BASE, 18, BASE - 1);
    LiteralValue(m, mv);
    LiteralValue(t, tv);
    LiteralValue(ans, av);
    BPowAdd(1, 1);
    assert BPow(1) == BASE;
    assert BPow(2) == rr;
    assert mv * rr == 431359146674410236714672241486572306415294265140003925956257558560768;
    OddModulus(m, mp);
    assert av * rr == 248587088944826369376056944343910715121898980430235260164658994085888;
    DivModUnique(av * rr, mv, 196100636011271906143602593190298011196, 1267315727776196149215309594900);
    DivModUnique(tv, mv, 1208925819614629174706175, 1267315727776196149215309594900);
    var r := MontgomeryReduction(t, m, mp);
    CancelR(Val(r), av, mv, 2);
    ValInjective(r, ans);
  }

  /**
   * The lost carry of the as-written montgomery_mul: for m = 2^64 - 1,
   * x = y = 2^64 - 2 and mprime = 1 (m + y > R), the as-written result is 0;
   * x y R^(-1) mod m is 1, which the corrected operation returns.
   */
  lemma {:induction false} MulCarryLost()
    ensures NegatedInverse([BASE - 1], 1)
    ensures Val(MontgomeryMul([BASE - 2], [BASE - 2], [BASE - 1], 1)) == 0
    ensures Val(MontgomeryMulCorrected([BASE - 2], [BASE - 2], [BASE - 1], 1)) == 1
  {
    CarryLostModulus();
    CarryLostAsWritten();
    CarryLostCorrected();
  }

  /** m = 2^64 - 1 has m' = 1: m m' = -1 modulo 2^64. */
  lemma {:induction false} CarryLostModulus()
    ensures Val([BASE - 1]) == BASE - 1
    ensures NegatedInverse([BASE - 1], 1)
  {
    ValSingle(BASE - 1);
    DivModUnique((BASE - 1) * 1, BASE, 0, BASE - 1);
  }

  /** The one round of the example: (2^64 - 2)^2 + 4 (2^64 - 1) = 2^128 wraps to 0. */
  lemma {:induction false} CarryLostRound(acc: seq<Limb>, xi: Limb, y: seq<Limb>, m: seq<Limb>)
    requires acc == Zeros(2) && xi == BASE - 2 && y == [BASE - 2] && m == [BASE - 1]
    ensures Val(MulRound(acc, xi, y, m, 1)) == 0
  {
    var p1 := Mul([xi], y, 0);
    var p2 := Mul([4], m, 0);
    CarryLostMultiplier();
    MulRoundShape(acc, xi, y, m, 1, 4, p1, p2);
    CarryLostProducts(xi, y, m, p1, p2);
    TwoAccumulates(acc, p1, p2);
    assert Val(acc) == 0 && BPow(|acc|) == BPow(2);
    CarryLostSum(Val(acc), Val(y), Val(m), Val(p1), Val(p2), BPow(|acc|), Val(Accumulate(Accumulate(acc, p1), p2)),
                 Val(MulRound(acc, xi, y, m, 1)));
  }

  /** The two products of the example's round. */
  lemma {:induction false} CarryLostProducts(xi: Limb, y: seq<Limb>, m: seq<Limb>, p1: seq<Limb>, p2: seq<Limb>)
    requires xi == BASE - 2 && y == [BASE - 2] && m == [BASE - 1]
    requires p1 == Mul([xi], y, 0) && p2 == Mul([4], m, 0)
    ensures |p1| == |p2| == 2
    ensures Val(y) == BASE - 2 && Val(m) == BASE - 1
    ensures Val(p1) == (BASE - 2) * Val(y) && Val(p2) == 4 * Val(m)
  {
    MulSingle(xi, y, 0, p1);
    MulSingle(4, m, 0, p2);
    ValSingle(BASE - 2);
    ValSingle(BASE - 1);
  }

  /** The round multiplier of the example is 4. */
  lemma {:induction false} CarryLostMultiplier()
    ensures RoundMultiplier(0, BASE - 2, BASE - 2, 1) == 4
  {
    assert (BASE - 2) * (BASE - 2) == 340282366920938463389587631136930004996;
    DivModUnique(340282366920938463389587631136930004996, BASE, 18446744073709551612, 4);
    DivModUnique(4, BASE, 0, 4);
  }

  /** The sums of the example's round, modulo 2^128. */
  lemma {:induction false} CarryLostSum(a: int, y: int, mv: int, v1: int, v2: int, b2: int, t: int, r: int)
    requires a == 0 && y == BASE - 2 && mv == BASE - 1 && b2 == BPow(2)
    requires v1 == (BASE - 2) * y && v2 == 4 * mv
    requires t == ((a + v1) % b2 + v2) % b2 && r == t / BASE
    ensures r == 0
  {
    assert BPow(1) == BASE;
    BPowAdd(1, 1);
    assert b2 == 340282366920938463463374607431768211456;
    assert v1 == 340282366920938463389587631136930004996;
    DivModUnique(v1, b2, 0, v1);
    assert v1 + v2 == b2;
    DivModUnique(b2, b2, 1, 0);
  }

  /** As written, the lost carry leaves 0. */
  lemma {:induction false} CarryLostAsWritten()
    ensures Val(MontgomeryMul([BASE - 2], [BASE - 2], [BASE - 1], 1)) == 0
  {
    CarryLostRound(Zeros(2), BASE - 2, [BASE - 2], [BASE - 1]);
    CarryLostModulus();
    var next := MulRound(Zeros(2), BASE - 2, [BASE - 2], [BASE - 1], 1);
    assert MulRounds(Zeros(2), [BASE - 2], [BASE - 2], [BASE - 1], 1, 0) == next;
    assert MulRounds(next, [BASE - 2], [BASE - 2], [BASE - 1], 1, 1) == next;
    assert Val(Pad([BASE - 1], 1)) == BASE - 1;
  }

  /** Corrected, the result is (2^64 - 2)^2 2^(-64) mod (2^64 - 1) = 1. */
  lemma {:induction false} CarryLostCorrected()
    ensures Val(MontgomeryMulCorrected([BASE - 2], [BASE - 2], [BASE - 1], 1)) == 1
  {
    CarryLostModulus();
    ValSingle(BASE - 2);
    assert BPow(1) == BASE;
    var r := MontgomeryMulCorrected([BASE - 2], [BASE - 2], [BASE - 1], 1);
    SameVal(r, Val(r));
    CarryLostResidue(Val(r), BPow(|[BASE - 1]|), Val([BASE - 1]), Val([BASE - 2]) * Val([BASE - 2]));
  }

  /** The only residue r < 2^64 - 1 with r 2^64 = (2^64 - 2)^2 modulo 2^64 - 1 is 1. */
  lemma {:induction false} CarryLostResidue(rv: int, k: int, mv: int, p: int)
    requires k == BASE && mv == BASE - 1 && p == (BASE - 2) * (BASE - 2)
    requires 0 <= rv < mv && (rv * k) % mv == p % mv
    ensures rv == 1
  {
    assert p == 340282366920938463389587631136930004996;
    DivModUnique(p, mv, 18446744073709551613, 1);
    assert rv * k == rv * mv + rv;
    DivModUnique(rv * k, mv, rv, rv);
  }


}
