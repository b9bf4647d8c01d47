/**
 * Modular exponentiation (mod_exp.hpp): right-to-left square and multiply
 * over the bits of a multi-limb exponent, reducing every product either
 * by Barrett reduction (mod_exp) or inside Montgomery multiplication
 * (mod_exp_montgomery).
 *
 * Both come in the variant the source writes, built on the reductions it
 * calls, and a corrected variant built on the corrected reductions; the
 * Variant parameter selects which.
 */
module ModExp {
  import opened Arith
  import opened Limbs
  import opened Utility
  import opened Slicing
  import opened RelationalOps
  import opened BitShift
  import opened Mult
  import opened Power
  import opened Division
  import opened Barrett
  import opened Montgomery

  /** Which reduction the loop calls: the source's, or the corrected one. */
  datatype Variant = AsWritten | Corrected

  /** 2^63: the as-written Barrett reduction is exact for quotients below it. */
  const TOP_BIT: nat := 0x8000_0000_0000_0000

  // ---------------------------------------------------------------------
  // Exponent bits

  /** The low bit of a limb sequence is the low bit of its first limb. */
  lemma LowBit(s: seq<Limb>)
    requires |s| >= 1
    ensures Val(s) % 2 == s[0] % 2
  {
    ValCons(s[0], s[1..]);
    assert [s[0]] + s[1..] == s;
    DivModUnique(Val(s), 2, s[0] / 2 + (BASE / 2) * Val(s[1..]), s[0] % 2);
  }

  /**
   * exp[0] & 1, then exp = shift_right(exp, 1): the low bit of the
   * exponent and the exponent without it.
   */
  method NextBit(exp: seq<Limb>) returns (lsb: nat, rest: seq<Limb>)
    requires |exp| >= 1
    ensures lsb == Val(exp) % 2
    ensures |rest| == |exp| && Val(rest) == Val(exp) / 2
  {
    LowBit(exp);
    lsb := exp[0] % 2;
    assert Pow(2, 1) == 2;
    rest := ShiftRight(exp, 1);
  }

  // ---------------------------------------------------------------------
  // mod_exp (Barrett)

  /**
   * barrett_reduction(x, modulus) on a 2N-limb product: the source's
   * reduction is exact when the quotient is below 2^63; the corrected one
   * (all of mu, no borrow fix-up) always is.
   */
  method Reduce(variant: Variant, x: seq<Limb>, m: seq<Limb>) returns (r: seq<Limb>)
    requires ConstantDivisor(m) && |x| == 2 * |m|
    ensures |r| == |m|
    ensures variant == Corrected || Val(x) / Val(m) < TOP_BIT ==> Val(r) == Val(x) % Val(m)
  {
    if variant == AsWritten {
      SmallQuotientSuffices(x, m);
      r := BarrettReductionFixed(x, m);
    } else {
      var mu := PrecomputeMu(m);
      ValBound(x);
      r := BarrettReductionCorrected(x, m, mu);
    }
  }

  /**
   * The regime in which every reduction mod_exp makes is exact for the
   * source's Barrett reduction: m below 2^63, and a / m below 2^63.
   */
  predicate BarrettRegime(a: seq<Limb>, m: seq<Limb>)
    requires ConstantDivisor(m)
  {
    Val(m) < TOP_BIT && Val(a) / Val(m) < TOP_BIT
  }

  /** Every reduction of the loop is exact in the regime the variant needs. */
  predicate ExactReductions(variant: Variant, a: seq<Limb>, m: seq<Limb>)
    requires ConstantDivisor(m)
  {
    variant == Corrected || BarrettRegime(a, m)
  }

  /** A product of two numbers at most m has quotient at most m by m. */
  lemma QuotientOfProduct(x: nat, y: nat, mv: nat)
    requires 0 < mv && x <= mv && y <= mv
    ensures (x * y) / mv <= mv
  {
    MulLe(x, mv, y);
    MulLe(y, mv, mv);
    assert mv * y == y * mv;
    DivLe(x * y, mv * mv, mv);
    MulDiv(mv, mv);
  }

  /**
   * The product of base and result, reduced: residues at most m keep the
   * quotient at most m, below 2^63 in the Barrett regime.
   */
  method ReduceProduct(variant: Variant, x: seq<Limb>, y: seq<Limb>, ghost a: seq<Limb>, m: seq<Limb>)
    returns (r: seq<Limb>)
    requires ConstantDivisor(m) && |x| == |y| == |m|
    requires ExactReductions(variant, a, m) ==> Val(x) <= Val(m) && Val(y) <= Val(m)
    ensures |r| == |m|
    ensures ExactReductions(variant, a, m) ==> Val(r) == (Val(x) * Val(y)) % Val(m)
  {
    var p := Mul(x, y, 0);
    if ExactReductions(variant, a, m) {
      QuotientOfProduct(Val(x), Val(y), Val(m));
    }
    r := Reduce(variant, p, m);
  }

  /**
   * The starting base: a reduced by Barrett reduction when a > m, and
   * otherwise a copied into the low limbs of N zero limbs. It is congruent
   * to a, and at most m.
   */
  method InitialBase(variant: Variant, a: seq<Limb>, m: seq<Limb>) returns (base: seq<Limb>)
    requires ConstantDivisor(m) && |a| <= 2 * |m|
    requires |a| > |m| ==> Val(a) > Val(m)
    ensures |base| == |m|
    ensures ExactReductions(variant, a, m) ==> Val(base) <= Val(m) && Val(base) % Val(m) == Val(a) % Val(m)
  {
    if GreaterThan(a, m) {
      var x := Pad(a, 2 * |m| - |a|);
      assert Val(x) == Val(a);
      base := Reduce(variant, x, m);
      if ExactReductions(variant, a, m) {
        ModMod(Val(a), Val(m), 1);
      }
    } else {
      base := Pad(a, |m| - |a|);
      assert Val(base) == Val(a);
    }
  }

  /**
   * mod_exp(a, exp, modulus). exp = 0 gives 1, checked before m = 1,
   * which gives 0. Otherwise the loop consumes one exponent bit per
   * round, BitLength(exp) rounds in all, and returns a^exp mod m whenever
   * the reductions it calls are exact. The source copies a limb by limb
   * when a <= m, which writes past the base when a has more limbs than m,
   * and pads a to 2N limbs, which needs at most 2N limbs.
   */
  method ModExpWith(variant: Variant, a: seq<Limb>, exp: seq<Limb>, m: seq<Limb>)
    returns (result: seq<Limb>, rounds: nat)
    requires ConstantDivisor(m) && |exp| >= 1 && |a| <= 2 * |m|
    requires |a| > |m| ==> Val(a) > Val(m)
    ensures |result| == |m|
    ensures Val(exp) == 0 ==> Val(result) == 1 && rounds == 0
    ensures Val(exp) > 0 && Val(m) == 1 ==> Val(result) == 0
    ensures Val(m) >= 2 ==> rounds == BitLength(Val(exp))
    ensures Val(m) >= 2 && ExactReductions(variant, a, m) ==>
      Val(result) == Pow(Val(a), Val(exp)) % Val(m)
  {
    var n := |m|;
    var zero := Zeros(|exp|);
    result := One(n);
    rounds := 0;
    if IsEqual(exp, zero) {
      assert Pow(Val(a), 0) == 1;
      if Val(m) >= 2 {
        ModOfSmall(1, Val(m));
      }
      return;
    }
    if IsEqual(m, result) {
      result := Zeros(n);
      return;
    }
    ghost var mv := Val(m);
    ghost var e0 := Val(exp);
    ghost var exact := ExactReductions(variant, a, m);
    var base := InitialBase(variant, a, m);
    var e := exp;
    ModOfSmall(1, mv);
    if exact {
      PowCongruent(Val(base), Val(a), e0, mv);
    }
    while true
      invariant |base| == n && |result| == n && |e| == |exp|
      invariant 0 < Val(e)
      invariant rounds + BitLength(Val(e)) == BitLength(e0)
      invariant exact ==> Val(base) <= mv && Val(result) < mv
      invariant exact ==> (Val(result) * Pow(Val(base), Val(e))) % mv == Pow(Val(a), e0) % mv
      decreases Val(e)
    {
      ghost var r, b, ev := Val(result), Val(base), Val(e);
      var lsb;
      lsb, e := NextBit(e);
      rounds := rounds + 1;
      if lsb == 1 {
        result := ReduceProduct(variant, base, result, a, m);
        if IsEqual(e, zero) {
          if exact {
            LastRound(r, b, ev, mv);
          }
          break;
        }
      }
      base := ReduceProduct(variant, base, base, a, m);
      if exact {
        PowRound(r, b, ev, Val(result), Val(base), mv);
      }
    }
  }

  /** mod_exp as written, on the source's Barrett reduction. */
  method ModExpAsWritten(a: seq<Limb>, exp: seq<Limb>, m: seq<Limb>) returns (result: seq<Limb>, rounds: nat)
    requires ConstantDivisor(m) && |exp| >= 1 && |a| <= 2 * |m|
    requires |a| > |m| ==> Val(a) > Val(m)
    ensures |result| == |m|
    ensures Val(exp) == 0 ==> Val(result) == 1
    ensures Val(exp) > 0 && Val(m) == 1 ==> Val(result) == 0
    ensures Val(m) >= 2 ==> rounds == BitLength(Val(exp))
    ensures Val(m) >= 2 && BarrettRegime(a, m) ==> Val(result) == Pow(Val(a), Val(exp)) % Val(m)
  {
    result, rounds := ModExpWith(AsWritten, a, exp, m);
  }

  /** mod_exp on the corrected Barrett reduction: a^exp mod m for every m >= 2. */
  method ModExpCorrected(a: seq<Limb>, exp: seq<Limb>, m: seq<Limb>) returns (result: seq<Limb>, rounds: nat)
    requires ConstantDivisor(m) && |exp| >= 1 && |a| <= 2 * |m|
    requires |a| > |m| ==> Val(a) > Val(m)
    ensures |result| == |m|
    ensures Val(exp) == 0 ==> Val(result) == 1
    ensures Val(exp) > 0 && Val(m) == 1 ==> Val(result) == 0
    ensures Val(m) >= 2 ==> rounds == BitLength(Val(exp))
    ensures Val(m) >= 2 ==> Val(result) == Pow(Val(a), Val(exp)) % Val(m)
  {
    result, rounds := ModExpWith(Corrected, a, exp, m);
  }

  // ---------------------------------------------------------------------
  // mod_exp_montgomery

  /**
   * montgomery_mul(x, y, modulus): the source's (n+1)-limb accumulator is
   * exact while m + y <= R, which 2m <= R guarantees for y < m; the
   * corrected one always is.
   */
  function MontMul(variant: Variant, x: seq<Limb>, y: seq<Limb>, m: seq<Limb>, mprime: Limb): (r: seq<Limb>)
    requires |x| == |y| == |m| >= 1
    ensures |r| == |m|
    ensures NegatedInverse(m, mprime) && Val(y) < Val(m) && (variant == Corrected || 2 * Val(m) <= BPow(|m|)) ==>
              Val(r) < Val(m) && (Val(r) * BPow(|m|)) % Val(m) == (Val(x) * Val(y)) % Val(m)
  {
    if variant == AsWritten then MontgomeryMul(x, y, m, mprime) else MontgomeryMulCorrected(x, y, m, mprime)
  }

  /** Every Montgomery multiplication of the loop is exact in the regime the variant needs. */
  predicate ExactProducts(variant: Variant, m: seq<Limb>, mprime: Limb)
  {
    NegatedInverse(m, mprime) && Val(m) >= 2 && (variant == Corrected || 2 * Val(m) <= BPow(|m|))
  }

  /** x stands for the residue t in the Montgomery domain: x = t R mod m. */
  predicate InDomain(x: nat, t: nat, mv: nat, n: nat)
    requires mv > 0
  {
    x == (t * BPow(n)) % mv
  }

  /**
   * A Montgomery product of two Montgomery forms is the Montgomery form
   * of the product of the residues: z R = x y and x = s R, y = t R give
   * z = s t R (mod m), R being invertible for odd m.
   */
  lemma {:induction false} DomainProduct(x: nat, y: nat, z: nat, s: nat, t: nat, mv: nat, n: nat)
    requires mv % 2 == 1 && InDomain(x, s, mv, n) && InDomain(y, t, mv, n)
    requires z < mv && (z * BPow(n)) % mv == (x * y) % mv
    ensures InDomain(z, (s * t) % mv, mv, n)
  {
    var p := BPow(n);
    var w := (((s * t) % mv) * p) % mv;
    FormsMultiply(x, y, s, t, mv, p);
    FormOfResidue(w, s * t, mv, p);
    CancelR(z, w, mv, n);
  }

  /** The product of the forms s p and t p is s t p p, modulo m. */
  lemma FormsMultiply(x: nat, y: nat, s: nat, t: nat, mv: nat, p: nat)
    requires mv > 0 && x == (s * p) % mv && y == (t * p) % mv
    ensures (x * y) % mv == ((s * t * p) * p) % mv
  {
    ModMod(s * p, mv, 1);
    ModMod(t * p, mv, 1);
    ModCongruentMul(x, s * p, y, t * p, mv);
    assert (s * p) * (t * p) == (s * t * p) * p by {
      MulAssoc(s, t, p);
      MulAssoc(s * t, p, p);
      MulAssoc(s, p, t * p);
      MulAssoc(p, t, p);
    }
  }

  /** The form of st mod m, times p once more, is s t p p modulo m. */
  lemma FormOfResidue(w: nat, st: nat, mv: nat, p: nat)
    requires mv > 0 && w == ((st % mv) * p) % mv
    ensures (w * p) % mv == ((st * p) * p) % mv
  {
    ModMulLeft(st, p, mv);
    ModMod((st % mv) * p, mv, 1);
    ModCongruentMul(w, st * p, p, p, mv);
  }

  /**
   * montgomery_mul on two Montgomery forms, for the residues s and t
   * they stand for: the form of s t mod m.
   */
  method DomainMul(variant: Variant, x: seq<Limb>, y: seq<Limb>, m: seq<Limb>, mprime: Limb, ghost s: nat, ghost t: nat)
    returns (z: seq<Limb>, ghost u: nat)
    requires |x| == |y| == |m| >= 1
    requires ExactProducts(variant, m, mprime) ==>
      InDomain(Val(x), s, Val(m), |m|) && InDomain(Val(y), t, Val(m), |m|)
    ensures |z| == |m|
    ensures ExactProducts(variant, m, mprime) ==>
      u == (s * t) % Val(m) && Val(z) < Val(m) && InDomain(Val(z), u, Val(m), |m|)
  {
    z := MontMul(variant, x, y, m, mprime);
    u := 0;
    if ExactProducts(variant, m, mprime) {
      u := (s * t) % Val(m);
      OddModulus(m, mprime);
      DomainProduct(Val(x), Val(y), Val(z), s, t, Val(m), |m|);
    }
  }

  /** Leaving the Montgomery domain: a product by 1 turns t R into t mod m. */
  lemma {:induction false} LeaveDomain(x: nat, z: nat, t: nat, mv: nat, n: nat)
    requires mv % 2 == 1 && InDomain(x, t, mv, n)
    requires z < mv && (z * BPow(n)) % mv == (x * 1) % mv
    ensures z == t % mv
  {
    ModMulLeft(t, BPow(n), mv);
    ModMod(t * BPow(n), mv, 1);
    CancelR(z, t % mv, mv, n);
  }

  /**
   * The two constants the source precomputes with div: R mod m and
   * R^2 mod m, as remainders of the unary encodings of B^N and B^2N.
   */
  method Constants(m: seq<Limb>) returns (rModM: seq<Limb>, rsqModM: seq<Limb>)
    requires ConstantDivisor(m)
    ensures |rModM| == |m| && Val(rModM) == BPow(|m|) % Val(m)
    ensures |rsqModM| == |m| && Val(rsqModM) == BPow(2 * |m|) % Val(m)
  {
    var n := |m|;
    var q1, q2;
    TightRange(m);
    q1, rModM := Div(UnaryEncoding(n, n + 1), m, 0);
    q2, rsqModM := Div(UnaryEncoding(2 * n, 2 * n + 1), m, 0);
  }

  /**
   * The Montgomery forms the loop starts from: result = R mod m stands
   * for 1, and base = montgomery_mul(a, R^2 mod m) stands for a.
   */
  lemma {:induction false} StartInDomain(a: nat, base: nat, r1: nat, r2: nat, mv: nat, n: nat)
    requires mv % 2 == 1 && r1 == BPow(n) % mv && r2 == BPow(2 * n) % mv
    requires base < mv && (base * BPow(n)) % mv == (a * r2) % mv
    ensures InDomain(r1, 1, mv, n) && InDomain(base, a, mv, n)
  {
    var p := BPow(n);
    BPowAdd(n, n);
    ModMulLeft(a * p, p, mv);
    ModMod(BPow(2 * n), mv, 1);
    ModCongruentMul(a, a, r2, p * p, mv);
    MulAssoc(a, p, p);
    CancelR(base, (a * p) % mv, mv, n);
  }

  /**
   * The loop of mod_exp_montgomery on Montgomery forms: it consumes one
   * exponent bit per round, and the result stands for res0 b0^exp.
   */
  method DomainRounds(variant: Variant, base0: seq<Limb>, result0: seq<Limb>, exp: seq<Limb>, m: seq<Limb>,
                      mprime: Limb, ghost b0: nat, ghost res0: nat)
    returns (result: seq<Limb>, rounds: nat, ghost res: nat)
    requires |base0| == |result0| == |m| >= 1 && |exp| >= 1 && Val(exp) > 0
    requires ExactProducts(variant, m, mprime) ==>
      InDomain(Val(result0), res0, Val(m), |m|) && InDomain(Val(base0), b0, Val(m), |m|)
    ensures |result| == |m| && rounds == BitLength(Val(exp))
    ensures ExactProducts(variant, m, mprime) ==>
      InDomain(Val(result), res, Val(m), |m|) && res == (res0 * Pow(b0, Val(exp))) % Val(m)
  {
    var n := |m|;
    var zero := Zeros(|exp|);
    ghost var mv := Val(m);
    ghost var e0 := Val(exp);
    ghost var exact := ExactProducts(variant, m, mprime);
    ghost var b := b0;
    var base, e := base0, exp;
    result, rounds, res := result0, 0, res0;
    while true
      invariant |base| == n && |result| == n && |e| == |exp|
      invariant 0 < Val(e)
      invariant rounds + BitLength(Val(e)) == BitLength(e0)
      invariant exact ==> InDomain(Val(result), res, mv, n) && InDomain(Val(base), b, mv, n)
      invariant exact ==> (res * Pow(b, Val(e))) % mv == (res0 * Pow(b0, e0)) % mv
      decreases Val(e)
    {
      ghost var ev := Val(e);
      ghost var r, bb := res, b;
      var lsb;
      lsb, e := NextBit(e);
      rounds := rounds + 1;
      if lsb == 1 {
        result, res := DomainMul(variant, base, result, m, mprime, b, res);
        if IsEqual(e, zero) {
          if exact {
            LastRound(r, bb, ev, mv);
          }
          break;
        }
      }
      base, b := DomainMul(variant, base, base, m, mprime, b, b);
      if exact {
        PowRound(r, bb, ev, res, b, mv);
      }
    }
    if exact {
      ModMod(res0 * Pow(b0, e0), mv, 1);
    }
  }

  /**
   * The forms mod_exp_montgomery starts from: R mod m, standing for 1, and
   * montgomery_mul(a, R^2 mod m), standing for a.
   */
  method EnterDomain(variant: Variant, a: seq<Limb>, m: seq<Limb>, mprime: Limb)
    returns (rModM: seq<Limb>, base: seq<Limb>)
    requires ConstantDivisor(m) && |a| == |m|
    ensures |rModM| == |m| && |base| == |m|
    ensures ExactProducts(variant, m, mprime) ==>
      InDomain(Val(rModM), 1, Val(m), |m|) && InDomain(Val(base), Val(a), Val(m), |m|)
  {
    var rsqModM;
    rModM, rsqModM := Constants(m);
    base := MontMul(variant, a, rsqModM, m, mprime);
    if ExactProducts(variant, m, mprime) {
      OddModulus(m, mprime);
      StartInDomain(Val(a), Val(base), Val(rModM), Val(rsqModM), Val(m), |m|);
    }
  }

  /** The last montgomery_mul(result, 1): the form of t becomes t mod m itself. */
  method LeaveDomainMul(variant: Variant, x: seq<Limb>, m: seq<Limb>, mprime: Limb, ghost t: nat)
    returns (z: seq<Limb>)
    requires |x| == |m| >= 1
    requires ExactProducts(variant, m, mprime) ==> InDomain(Val(x), t, Val(m), |m|)
    ensures |z| == |m|
    ensures ExactProducts(variant, m, mprime) ==> Val(z) == t % Val(m)
  {
    z := MontMul(variant, x, One(|m|), m, mprime);
    if ExactProducts(variant, m, mprime) {
      OddModulus(m, mprime);
      LeaveDomain(Val(x), Val(z), t, Val(m), |m|);
    }
  }

  /**
   * mod_exp_montgomery(a, exp, modulus). The pack overload of
   * montgomery_mul reads an mprime it does not declare; the model takes
   * mprime = -m^(-1) mod 2^64 as a parameter. The forms R mod m and
   * a R mod m are computed before exp = 0 (which gives 1) and m = 1
   * (which gives 0) are checked; the loop is the one of mod_exp in the
   * Montgomery domain, and a last product by 1 leaves it.
   */
  method ModExpMontgomeryWith(variant: Variant, a: seq<Limb>, exp: seq<Limb>, m: seq<Limb>, mprime: Limb)
    returns (result: seq<Limb>, rounds: nat)
    requires ConstantDivisor(m) && |a| == |m| && |exp| >= 1
    ensures |result| == |m|
    ensures Val(exp) == 0 ==> Val(result) == 1 && rounds == 0
    ensures Val(exp) > 0 && Val(m) == 1 ==> Val(result) == 0
    ensures Val(m) >= 2 ==> rounds == BitLength(Val(exp))
    ensures ExactProducts(variant, m, mprime) ==> Val(result) == Pow(Val(a), Val(exp)) % Val(m)
  {
    var n := |m|;
    var rModM, base := EnterDomain(variant, a, m, mprime);
    var zero := Zeros(|exp|);
    rounds := 0;
    if IsEqual(exp, zero) {
      result := One(n);
      assert Pow(Val(a), 0) == 1;
      if Val(m) >= 2 {
        ModOfSmall(1, Val(m));
      }
      return;
    }
    if IsEqual(m, One(n)) {
      result := Zeros(n);
      return;
    }
    ghost var res;
    result, rounds, res := DomainRounds(variant, base, rModM, exp, m, mprime, Val(a), 1);
    result := LeaveDomainMul(variant, result, m, mprime, res);
    if ExactProducts(variant, m, mprime) {
      assert res == Pow(Val(a), Val(exp)) % Val(m);
      ModOfSmall(res, Val(m));
    }
  }

  /** mod_exp_montgomery as written: exact while 2m <= R. */
  method ModExpMontgomeryAsWritten(a: seq<Limb>, exp: seq<Limb>, m: seq<Limb>, mprime: Limb)
    returns (result: seq<Limb>, rounds: nat)
    requires ConstantDivisor(m) && |a| == |m| && |exp| >= 1
    ensures |result| == |m|
    ensures Val(exp) == 0 ==> Val(result) == 1
    ensures Val(exp) > 0 && Val(m) == 1 ==> Val(result) == 0
    ensures Val(m) >= 2 ==> rounds == BitLength(Val(exp))
    ensures NegatedInverse(m, mprime) && Val(m) >= 2 && 2 * Val(m) <= BPow(|m|) ==>
      Val(result) == Pow(Val(a), Val(exp)) % Val(m)
  {
    result, rounds := ModExpMontgomeryWith(AsWritten, a, exp, m, mprime);
  }

  /** mod_exp_montgomery on the corrected montgomery_mul: a^exp mod m for every odd m >= 2. */
  method ModExpMontgomeryCorrected(a: seq<Limb>, exp: seq<Limb>, m: seq<Limb>, mprime: Limb)
    returns (result: seq<Limb>, rounds: nat)
    requires ConstantDivisor(m) && |a| == |m| && |exp| >= 1
    ensures |result| == |m|
    ensures Val(exp) == 0 ==> Val(result) == 1
    ensures Val(exp) > 0 && Val(m) == 1 ==> Val(result) == 0
    ensures Val(m) >= 2 ==> rounds == BitLength(Val(exp))
    ensures NegatedInverse(m, mprime) && Val(m) >= 2 ==> Val(result) == Pow(Val(a), Val(exp)) % Val(m)
  {
    result, rounds := ModExpMontgomeryWith(Corrected, a, exp, m, mprime);
  }
}
