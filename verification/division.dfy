/**
 * Division: short division by one limb, Knuth's Algorithm D (The Art of
 * Computer Programming, Vol. 2, section 4.3.1) for divisors of two or
 * more limbs, and the two dispatchers div<L> and div_v.
 */
module Division {
  import opened Arith
  import opened Limbs
  import opened Utility
  import opened Slicing
  import opened BitShift
  import opened Addition
  import opened Mult

  /** 2^63: a normalized divisor has this bit set in its top limb. */
  const TOP_BIT: nat := 0x8000_0000_0000_0000

  // ---------------------------------------------------------------------
  // short_div
  // ---------------------------------------------------------------------

  /**
   * One step of short division: the partial remainder r (< v) gets the
   * next limb ui appended, w = r * 2^64 + ui, and the quotient digit
   * w / v fits in a limb because r < v.
   */
  lemma ShortDivStep(ui: Limb, rest: nat, qrest: nat, rem: nat, v: nat)
    requires v > 0 && rem < v && rest == qrest * v + rem
    ensures (rem * BASE + ui) / v < BASE
    ensures ui + BASE * rest == ((rem * BASE + ui) / v + BASE * qrest) * v + (rem * BASE + ui) % v
  {
    var w := rem * BASE + ui;
    assert w < v * BASE by {
      MulLe(rem, v - 1, BASE);
      DistribRight(v, -1, BASE);
    }
    DivMulLe(w, v);
    if w / v >= BASE {
      MulLe(BASE, w / v, v);
      assert false;
    }
    DivModUnique(w, v, w / v, w % v);
    Distrib(BASE, qrest * v, rem);
    MulAssoc(BASE, qrest, v);
    DistribRight(w / v, BASE * qrest, v);
  }

  /** The loop body of short_div on limb sequences: digit i joins q. */
  lemma ShortDivAdvance(u: seq<Limb>, q: seq<Limb>, i: nat, rem: nat, v: nat, w: nat)
    requires i < |u| == |q| && v > 0 && rem < v && w == rem * BASE + u[i]
    requires Val(u[i + 1..]) == Val(q[i + 1..]) * v + rem
    ensures 0 <= w / v < BASE && 0 <= w % v < v
    ensures Val(u[i..]) == Val(q[i := w / v][i..]) * v + w % v
  {
    ShortDivStep(u[i], Val(u[i + 1..]), Val(q[i + 1..]), rem, v);
    var q' := q[i := w / v];
    assert q'[i + 1..] == q[i + 1..];
    ValCons(u[i], u[i + 1..]);
    assert u[i..] == [u[i]] + u[i + 1..];
    ValCons(w / v, q'[i + 1..]);
    assert q'[i..] == [w / v] + q'[i + 1..];
  }

  /**
   * short_div(u, v): the digits of u are divided from the top, carrying
   * the partial remainder; the result is the quotient in |u| limbs and
   * the remainder in one limb. A zero divisor is not checked by the
   * library (it is undefined behaviour), hence the precondition.
   */
  method ShortDiv(u: seq<Limb>, v: Limb) returns (q: seq<Limb>, r: seq<Limb>)
    requires v != 0
    ensures |q| == |u| && |r| == 1
    ensures Val(u) == Val(q) * v + r[0] && r[0] < v
    ensures Val(q) == Val(u) / v && r[0] == Val(u) % v
  {
    q := Zeros(|u|);
    var rem: nat := 0;
    var i := |u|;
    while i > 0
      invariant 0 <= i <= |u| && |q| == |u|
      invariant rem < v
      invariant Val(u[i..]) == Val(q[i..]) * v + rem
    {
      i := i - 1;
      var w: nat := rem * BASE + u[i];
      ShortDivAdvance(u, q, i, rem, v, w);
      q := q[i := w / v];
      rem := w % v;
    }
    assert u[0..] == u && q[0..] == q;
    r := [rem];
    DivModUnique(Val(u), v, Val(q), rem);
  }

  /**
   * The library's short-division vector: short_div of
   * 12103081107736073677280037 (two limbs) by 2893462387 gives the
   * quotient 4182905975247458 in limb 0 and the remainder 936917791.
   */
  method ShortDivVector() returns (q: seq<Limb>, r: seq<Limb>)
    ensures q == [4182905975247458, 0] && r == [936917791]
  {
    var u: seq<Limb> := [6300278573476057893, 656109];
    ValCons(6300278573476057893, [656109]);
    ValSingle(656109);
    assert [6300278573476057893] + [656109] == u;
    q, r := ShortDiv(u, 2893462387);
    DivModUnique(Val(u), 2893462387, 4182905975247458, 936917791);
    ValCons(4182905975247458, [0]);
    ValSingle(0);
    assert [4182905975247458] + [0] == [4182905975247458, 0];
    ValInjective(q, [4182905975247458, 0]);
    ValInjective(r, [936917791]);
    ValSingle(936917791);
  }

  // ---------------------------------------------------------------------
  // Algorithm D, step D3: the quotient-digit estimate, on plain numbers
  // ---------------------------------------------------------------------

  /**
   * A number split at its two leading digits: hi * 2^64 + lo, scaled by
   * p = 2^(64(n-2)), plus the remaining low part. The normalized divisor
   * is Joined(v1, v2, vl, p); the current window of the dividend is
   * Joined(top2, u2, wl, p), where top2 holds its two leading limbs.
   */
  function Joined(hi: nat, lo: nat, low: nat, p: nat): nat
  {
    (hi * BASE + lo) * p + low
  }

  /**
   * The situation at step D3: the divisor is normalized (v1 has its top
   * bit set) and the window is below 2^64 times the divisor, so its
   * quotient by the divisor is a single digit.
   */
  predicate Setting(v1: nat, v2: nat, vl: nat, top2: nat, u2: nat, wl: nat, p: nat)
  {
    p > 0 && TOP_BIT <= v1 < BASE && v2 < BASE && vl < p && u2 < BASE && wl < p
    && Joined(top2, u2, wl, p) < BASE * Joined(v1, v2, vl, p)
  }

  /** The divisor is at least v1 * 2^64 * p and below (v1 + 1) * 2^64 * p. */
  lemma DivisorRange(v1: nat, v2: nat, vl: nat, p: nat)
    requires p > 0 && v2 < BASE && vl < p
    ensures v1 * BASE * p <= Joined(v1, v2, vl, p) < (v1 + 1) * BASE * p
  {
    var top, bottom := v1 * BASE * p, v2 * p;
    DistribRight(v1 * BASE, v2, p);
    assert Joined(v1, v2, vl, p) == top + bottom + vl;
    MulLe(0, v2, p);
    MulLe(v2 + 1, BASE, p);
    DistribRight(v2, 1, p);
    assert (v1 + 1) * BASE == v1 * BASE + BASE;
    DistribRight(v1 * BASE, BASE, p);
  }

  /** The window is at least top2 * 2^64 * p and below (top2 + 1) * 2^64 * p. */
  lemma WindowRange(top2: nat, u2: nat, wl: nat, p: nat)
    requires p > 0 && u2 < BASE && wl < p
    ensures top2 * BASE * p <= Joined(top2, u2, wl, p) < (top2 + 1) * BASE * p
  {
    DivisorRange(top2, u2, wl, p);
  }

  /** x * y < c * y bounds x below c. */
  lemma FactorBelow(x: nat, c: nat, y: nat)
    requires y > 0 && x * y < c * y
    ensures x < c
  {
    if x >= c {
      MulLe(c, x, y);
    }
  }

  /** w < c * v bounds the quotient w / v below c. */
  lemma DigitBelow(w: nat, v: nat, c: nat)
    requires v > 0 && w < c * v
    ensures w / v < c
  {
    DivMulLe(w, v);
    if w / v >= c {
      MulLe(c, w / v, v);
    }
  }

  /**
   * The leading limb of the window is at most v1, so the two-limb
   * numerator of the estimate is below (v1 + 1) * 2^64 and the first
   * estimate top2 / v1 is at most 2^64 + 1.
   */
  lemma EstimateStart(v1: nat, v2: nat, vl: nat, top2: nat, u2: nat, wl: nat, p: nat)
    requires Setting(v1, v2, vl, top2, u2, wl, p)
    ensures top2 < (v1 + 1) * BASE
    ensures top2 / v1 <= BASE + 1
  {
    var v := Joined(v1, v2, vl, p);
    DivisorRange(v1, v2, vl, p);
    WindowRange(top2, u2, wl, p);
    if top2 >= (v1 + 1) * BASE {
      MulLe((v1 + 1) * BASE, top2, BASE * p);
      MulAssoc((v1 + 1) * BASE, BASE, p);
      MulAssoc(top2, BASE, p);
      MulLt(v, (v1 + 1) * BASE * p, BASE);
      MulAssoc((v1 + 1) * BASE, p, BASE);
      MulAssoc((v1 + 1) * BASE, BASE, p);
      assert false;
    }
    DivMulLe(top2, v1);
    if top2 / v1 >= BASE + 2 {
      MulLe(BASE + 2, top2 / v1, v1);
      assert false;
    }
  }

  /** The first estimate top2 / v1 is never below the true digit. */
  lemma EstimateNotLow(v1: nat, v2: nat, vl: nat, top2: nat, u2: nat, wl: nat, p: nat)
    requires Setting(v1, v2, vl, top2, u2, wl, p)
    ensures Joined(top2, u2, wl, p) / Joined(v1, v2, vl, p) <= top2 / v1
  {
    var v, w := Joined(v1, v2, vl, p), Joined(top2, u2, wl, p);
    var q0 := top2 / v1;
    DivisorRange(v1, v2, vl, p);
    WindowRange(top2, u2, wl, p);
    DivModUnique(top2, v1, q0, top2 % v1);
    assert (q0 + 1) * v1 >= top2 + 1 by {
      DistribRight(q0, 1, v1);
    }
    assert (top2 + 1) * BASE * p <= (q0 + 1) * v by {
      MulLe(v1 * BASE * p, v, q0 + 1);
      MulAssoc(q0 + 1, v1 * BASE, p);
      MulAssoc(q0 + 1, v1, BASE);
      MulLe(top2 + 1, (q0 + 1) * v1, BASE * p);
      MulAssoc(top2 + 1, BASE, p);
      MulAssoc((q0 + 1) * v1, BASE, p);
    }
    DigitBelow(w, v, q0 + 1);
  }

  /**
   * Theorem B of section 4.3.1 of Knuth's book, for the estimate without
   * the cap at 2^64 - 1: top2 / v1 is at most two above the true digit.
   */
  lemma EstimateNotFar(v1: nat, v2: nat, vl: nat, top2: nat, u2: nat, wl: nat, p: nat)
    requires Setting(v1, v2, vl, top2, u2, wl, p)
    ensures top2 / v1 <= Joined(top2, u2, wl, p) / Joined(v1, v2, vl, p) + 2
  {
    var v, w := Joined(v1, v2, vl, p), Joined(top2, u2, wl, p);
    var qhat, qt := top2 / v1, w / v;
    DivisorRange(v1, v2, vl, p);
    WindowRange(top2, u2, wl, p);
    EstimateStart(v1, v2, vl, top2, u2, wl, p);
    DivMulLe(top2, v1);
    if qhat >= qt + 3 {
      DivModUnique(w, v, qt, w % v);
      MulAssoc(v1, BASE, p);
      MulAssoc(top2, BASE, p);
      FarEstimate(w, v, v1, BASE * p, top2, qhat, qt);
      assert false;
    }
  }

  /**
   * The arithmetic of Theorem B: with v1 P <= v < v1 P + P, an estimate
   * qhat with qhat v1 P <= w that is three or more above w / v has
   * 2 v1 < qhat - 2.
   */
  lemma FarEstimate(w: nat, v: nat, v1: nat, pp: nat, top2: nat, qhat: nat, qt: nat)
    requires pp > 0 && v1 * pp <= v < v1 * pp + pp
    requires qhat * v1 <= top2 && top2 * pp <= w
    requires w < (qt + 1) * v && qhat >= qt + 3
    ensures 2 * v1 < qhat - 2
  {
    var a := v1 * pp;
    MulLe(qhat * v1, top2, pp);
    MulAssoc(qhat, v1, pp);
    assert qhat * a <= w;
    MulLe(qt + 1, qhat - 2, v);
    MulLt(v, a + pp, qhat - 2);
    Distrib(qhat - 2, a, pp);
    DistribRight(qhat - 2, 2, a);
    assert 2 * a < (qhat - 2) * pp;
    MulAssoc(2, v1, pp);
    FactorBelow(2 * v1, qhat - 2, pp);
  }

  /**
   * qhat times the two leading divisor limbs, against the three leading
   * window limbs, given qhat * v1 + rhat == top2.
   */
  lemma LeadingProduct(v1: nat, v2: nat, top2: nat, u2: nat, qhat: nat, rhat: nat)
    requires qhat * v1 + rhat == top2
    ensures qhat * (v1 * BASE + v2) + rhat * BASE == top2 * BASE + qhat * v2
  {
    Distrib(qhat, v1 * BASE, v2);
    MulAssoc(qhat, v1, BASE);
    DistribRight(qhat * v1, rhat, BASE);
  }

  /** Scaling a bound on qhat * a up to the whole divisor a * p + vl. */
  lemma ScaledProduct(a: nat, vl: nat, p: nat, t: nat, qhat: nat)
    requires vl < p && qhat * a <= t
    ensures qhat * (a * p + vl) <= t * p + qhat * p
  {
    MulLe(0, qhat, a);
    MulLe(qhat * a, t, p);
    MulAssoc(qhat, a, p);
    Distrib(qhat, a * p, vl);
    MulLe(vl, p, qhat);
  }

  /**
   * The test of the correction loop: when qhat * v2 exceeds
   * rhat * 2^64 + u2, qhat times the divisor exceeds the window, so qhat
   * is too large.
   */
  lemma TestMeansTooLarge(v1: nat, v2: nat, vl: nat, top2: nat, u2: nat, wl: nat, p: nat,
                          qhat: nat, rhat: nat)
    requires Setting(v1, v2, vl, top2, u2, wl, p)
    requires qhat * v1 + rhat == top2
    requires qhat * v2 > rhat * BASE + u2
    ensures qhat > Joined(top2, u2, wl, p) / Joined(v1, v2, vl, p)
  {
    var v, w := Joined(v1, v2, vl, p), Joined(top2, u2, wl, p);
    var a := v1 * BASE + v2;
    LeadingProduct(v1, v2, top2, u2, qhat, rhat);
    assert qhat * v > w by {
      MulLe(0, qhat, a);
      MulLe(top2 * BASE + u2 + 1, qhat * a, p);
      DistribRight(top2 * BASE + u2, 1, p);
      MulLe(a * p, v, qhat);
      MulAssoc(qhat, a, p);
    }
    DivMulLe(w, v);
    if qhat <= w / v {
      MulLe(qhat, w / v, v);
      assert false;
    }
  }

  /**
   * When the test fails, qhat is at most one above the true digit: the
   * two leading limbs of the divisor account for all but less than one
   * divisor's worth of qhat times the divisor.
   */
  lemma NoTestMeansClose(v1: nat, v2: nat, vl: nat, top2: nat, u2: nat, wl: nat, p: nat,
                         qhat: nat, rhat: nat)
    requires Setting(v1, v2, vl, top2, u2, wl, p)
    requires qhat <= BASE + 1 && qhat * v1 + rhat == top2
    requires qhat * v2 <= rhat * BASE + u2
    ensures qhat <= Joined(top2, u2, wl, p) / Joined(v1, v2, vl, p) + 1
  {
    var v, w := Joined(v1, v2, vl, p), Joined(top2, u2, wl, p);
    LeadingProduct(v1, v2, top2, u2, qhat, rhat);
    ScaledProduct(v1 * BASE + v2, vl, p, top2 * BASE + u2, qhat);
    assert qhat * p < v by {
      MulLe(qhat, BASE + 1, p);
      DivisorRange(v1, v2, vl, p);
      MulLe(TOP_BIT * BASE, v1 * BASE, p);
    }
    assert qhat * v < w + v;
    CloseDigit(w, v, qhat);
  }

  /** qhat * v < w + v means qhat is at most w / v + 1. */
  lemma CloseDigit(w: nat, v: nat, qhat: nat)
    requires v > 0 && qhat * v < w + v
    ensures qhat <= w / v + 1
  {
    DivModUnique(w, v, w / v, w % v);
    if qhat >= w / v + 2 {
      MulLe(w / v + 2, qhat, v);
      DistribRight(w / v, 2, v);
      assert false;
    }
  }

  /**
   * The correction loop of step D3, entered with an estimate qhat and
   * rhat = top2 - qhat * v1. While qhat is 2^64 or the test
   * qhat * v2 > rhat * 2^64 + u2 holds, qhat drops by one and rhat grows
   * by v1; the loop also stops once rhat reaches 2^64. The 128-bit
   * intermediates never wrap (see RefineNoWrap).
   */
  function Refine(qhat: nat, rhat: nat, v1: Limb, v2: Limb, u2: Limb): (q: nat)
    requires qhat <= BASE + 1 && rhat < BASE
    ensures q <= qhat
    decreases qhat
  {
    if qhat == BASE || qhat * v2 > rhat * BASE + u2 then
      if rhat + v1 >= BASE then qhat - 1
      else Refine(qhat - 1, rhat + v1, v1, v2, u2)
    else qhat
  }

  /**
   * The double-width (128-bit) arithmetic of the correction loop does not
   * wrap: with qhat <= 2^64 + 1 and rhat < 2^64 at every test, both sides
   * of the comparison stay below 2^128.
   */
  lemma RefineNoWrap(qhat: nat, rhat: nat, v2: Limb, u2: Limb)
    requires qhat <= BASE + 1 && rhat < BASE
    ensures qhat * v2 < BASE * BASE
    ensures rhat * BASE + u2 < BASE * BASE
  {
    MulLe(qhat, BASE + 1, v2);
    MulLe(v2, BASE - 1, BASE + 1);
    MulLe(rhat, BASE - 1, BASE);
  }

  /**
   * After the correction loop qhat is the true quotient digit or one too
   * large, and it fits in a limb. Each round is justified: the loop only
   * lowers qhat when qhat is 2^64 or the test proves qhat too large.
   */
  lemma {:induction false} RefineBounds(v1: Limb, v2: Limb, vl: nat, top2: nat, u2: Limb, wl: nat,
                                        p: nat, qhat: nat, rhat: nat)
    requires Setting(v1, v2, vl, top2, u2, wl, p)
    requires qhat <= BASE + 1 && rhat < BASE && qhat * v1 + rhat == top2
    requires Joined(top2, u2, wl, p) / Joined(v1, v2, vl, p) <= qhat
    ensures var qt := Joined(top2, u2, wl, p) / Joined(v1, v2, vl, p);
      qt <= Refine(qhat, rhat, v1, v2, u2) <= qt + 1
    ensures Refine(qhat, rhat, v1, v2, u2) < BASE
    decreases qhat
  {
    var v, w := Joined(v1, v2, vl, p), Joined(top2, u2, wl, p);
    DivisorRange(v1, v2, vl, p);
    DigitBelow(w, v, BASE);
    EstimateStart(v1, v2, vl, top2, u2, wl, p);
    if qhat == BASE || qhat * v2 > rhat * BASE + u2 {
      if qhat != BASE {
        TestMeansTooLarge(v1, v2, vl, top2, u2, wl, p, qhat, rhat);
      }
      assert (qhat - 1) * v1 + (rhat + v1) == top2 by {
        DistribRight(qhat - 1, 1, v1);
      }
      if rhat + v1 >= BASE {
        FactorBelow(qhat - 1, BASE, v1);
        assert (qhat - 1) * v2 <= (rhat + v1) * BASE + u2 by {
          MulLe(qhat - 1, BASE - 1, v2);
          MulLe(v2, BASE - 1, BASE - 1);
          MulLe(BASE, rhat + v1, BASE);
        }
        NoTestMeansClose(v1, v2, vl, top2, u2, wl, p, qhat - 1, rhat + v1);
      } else {
        RefineBounds(v1, v2, vl, top2, u2, wl, p, qhat - 1, rhat + v1);
      }
    } else {
      NoTestMeansClose(v1, v2, vl, top2, u2, wl, p, qhat, rhat);
    }
  }

  // ---------------------------------------------------------------------
  // Steps D4 to D6: multiply, subtract, and add back
  // ---------------------------------------------------------------------

  /** A number below 2^(64n) has a zero limb n. */
  lemma LimbOfSmall(s: seq<Limb>, n: nat)
    requires n < |s| && Val(s) < BPow(n)
    ensures s[n] == 0
  {
    ValLimb(s, n);
    ModOfSmall(Val(s), BPow(n));
  }

  /**
   * A number just below 2^(64|s|), by at most 2^(64n), has all ones in
   * limb n.
   */
  lemma LimbBelowPower(s: seq<Limb>, n: nat, x: nat)
    requires n < |s| && 0 < x <= BPow(n)
    requires Val(s) == BPow(|s|) - x
    ensures s[n] == BASE - 1
  {
    var k := |s| - n - 1;
    BPowAdd(n, k + 1);
    BPowSucc(k);
    BPowPositive(k);
    AllOnesDigit(BPow(n), BPow(k), x, Val(s));
    ValLimb(s, n);
  }

  /** y = pn * 2^64 * pk - x with 0 < x <= pn has digit 2^64 - 1 at pn. */
  lemma AllOnesDigit(pn: nat, pk: nat, x: nat, y: int)
    requires pk > 0 && 0 < x <= pn && y == pn * (BASE * pk) - x
    ensures y / pn % BASE == BASE - 1
  {
    assert y == pn * (BASE * pk - 1) + (pn - x) by {
      Distrib(pn, BASE * pk, -1);
    }
    DivModUnique(y, pn, BASE * pk - 1, pn - x);
    assert BASE * pk - 1 == (pk - 1) * BASE + (BASE - 1) by {
      DistribRight(pk, -1, BASE);
    }
    DivModUnique(BASE * pk - 1, BASE, pk - 1, BASE - 1);
  }

  /**
   * Step D4: subtract qhat times the divisor (prod) from the window w,
   * where w = (w / v) * v + rem and qhat is w / v or, when tooLarge, one
   * more. The difference has a borrow limb on top; its limb n is nonzero
   * exactly when qhat was too large, and then the difference has wrapped
   * and borrowed to 2 * 2^(64L) - (v - rem).
   */
  lemma MultiplySubtract(take: seq<Limb>, prod: seq<Limb>, w: nat, v: nat, rem: nat,
                         tooLarge: bool, n: nat)
    requires |take| == |prod| && n < |take|
    requires 0 < v < BPow(n) && rem < v && Val(take) == w
    requires !tooLarge ==> Val(prod) + rem == w
    requires tooLarge ==> Val(prod) + rem == w + v
    ensures var tv := Subtract(take, prod);
      && |tv| == |take| + 1
      && (tv[n] != 0 <==> tooLarge)
      && (!tooLarge ==> Val(tv) == rem)
      && (tooLarge ==> Val(tv) == 2 * BPow(|take|) - (v - rem))
  {
    if tooLarge {
      WrappedDifference(take, prod, v - rem, n);
    } else {
      LimbOfSmall(Subtract(take, prod), n);
    }
  }

  /** The difference that borrowed, x below 2^(64L) on top of the borrow. */
  lemma WrappedDifference(take: seq<Limb>, prod: seq<Limb>, x: nat, n: nat)
    requires |take| == |prod| && n < |take|
    requires 0 < x <= BPow(n)
    requires Val(prod) - Val(take) == x
    ensures var tv := Subtract(take, prod);
      tv[n] == BASE - 1 && Val(tv) == 2 * BPow(|take|) - x
  {
    var tv := Subtract(take, prod);
    var l := |take|;
    LimbBelowPower(tv[..l], n, x);
    ValTop(tv);
    assert tv[..|tv| - 1] == tv[..l];
    assert tv[l] == 1;
    assert tv[l] * BPow(l) == BPow(l);
  }

  /** qhat is the digit w / v, or one more, against the window w. */
  lemma DigitCases(w: nat, v: nat, qhat: nat)
    requires v > 0 && w / v <= qhat <= w / v + 1
    ensures qhat == w / v ==> qhat * v <= w && w - qhat * v == w % v
    ensures qhat == w / v + 1 ==> w < qhat * v && qhat * v - w == v - w % v
    ensures 0 <= w % v < v
  {
    DivModUnique(w, v, w / v, w % v);
    DistribRight(w / v, 1, v);
  }

  /**
   * Steps D5 and D6 when qhat was too large: adding 2^(64(n+1)) and then
   * the divisor (both modulo 2^(64(L+1))) leaves, in the low n + 1 limbs,
   * the difference plus one divisor: the window's true remainder.
   */
  lemma AddBack(tv: seq<Limb>, vn: seq<Limb>, n: nat, x: nat)
    requires n <= |vn| && |tv| == |vn| + 2
    requires 0 < x <= Val(vn) < BPow(n)
    requires Val(tv) == 2 * BPow(|vn| + 1) - x
    ensures var corrected := MpAddIgnoreLastCarry(tv, UnaryEncoding(n + 1, |vn| + 2));
      var fixed := MpAddIgnoreLastCarry(corrected, Pad(vn, 2));
      |fixed| == |vn| + 2 && Val(fixed[..n + 1]) == Val(vn) - x
  {
    var l := |vn| + 1;
    var corrected := MpAddIgnoreLastCarry(tv, UnaryEncoding(n + 1, |vn| + 2));
    var fixed := MpAddIgnoreLastCarry(corrected, Pad(vn, 2));
    BPowAdd(n + 1, l - n - 1);
    BPowStrict(n, n + 1);
    BPowPositive(l - n - 1);
    BPowSucc(l);
    ValSplit(fixed, n + 1);
    AddBackArith(BPow(l), BPow(n + 1), BPow(l - n - 1), BPow(n), Val(vn), x,
                 Val(corrected), Val(fixed), BPow(l + 1));
  }

  /**
   * AddBack on plain numbers: bl = 2^(64L) = b1 * k with b1 = 2^(64(n+1)),
   * the two sums c and f are taken modulo top = 2^64 * bl, and neither
   * wraps, so f modulo b1 is the remainder vv - x.
   */
  lemma AddBackArith(bl: nat, b1: nat, k: nat, bn: nat, vv: nat, x: nat, c: nat, f: nat, top: nat)
    requires k >= 1 && bl == b1 * k && bn < b1 && top == BASE * bl
    requires 0 < x <= vv < bn
    requires c < top && (c == 2 * bl - x + b1 || c + top == 2 * bl - x + b1)
    requires f < top && (f == c + vv || f + top == c + vv)
    ensures f % b1 == vv - x
  {
    MulLe(1, k, b1);
    MulLe(4, BASE, bl);
    assert c == 2 * bl - x + b1;
    assert f == 2 * bl - x + b1 + vv;
    assert f == (vv - x) + b1 * (2 * k + 1) by {
      Distrib(b1, 2 * k, 1);
      MulAssoc(b1, 2, k);
    }
    CutDivMod(f, vv - x, 2 * k + 1, b1);
  }

  // ---------------------------------------------------------------------
  // One digit of the quotient
  // ---------------------------------------------------------------------

  /** A divisor normalized to tight length n: top limb with its top bit set. */
  predicate Normalized(vn: seq<Limb>, n: nat)
    ensures Normalized(vn, n) ==> 0 < Val(vn) < BPow(n)
  {
    TightLengthValue(vn);
    ValBound(vn[..TightLength(vn)]);
    2 <= n <= |vn| && TightLength(vn) == n && vn[n - 1] >= TOP_BIT
  }

  /** A value written as low + p * (a + BASE * (b + BASE * c)), regrouped. */
  lemma JoinedDigits(a: nat, b: nat, c: nat, low: nat, p: nat, h: nat, t: nat)
    requires h == a + BASE * (b + BASE * c) && t == low + p * h
    ensures t == Joined(b + c * BASE, a, low, p)
  {
  }

  /** Three leading limbs over the low part of an (m + 3)-limb window. */
  lemma LeadingThree(s: seq<Limb>, m: nat)
    requires |s| == m + 3
    ensures Val(s[..m]) < BPow(m)
    ensures Val(s) == Joined(s[m + 1] + s[m + 2] * BASE, s[m], Val(s[..m]), BPow(m))
  {
    var low, high := s[..m], s[m..];
    ValSplit(s, m);
    ValBound(low);
    assert high == [s[m]] + ([s[m + 1]] + [s[m + 2]]);
    ValCons(s[m], [s[m + 1]] + [s[m + 2]]);
    ValCons(s[m + 1], [s[m + 2]]);
    ValSingle(s[m + 2]);
    JoinedDigits(s[m], s[m + 1], s[m + 2], Val(low), BPow(m), Val(high), Val(s));
  }

  /** Two leading limbs over the low part of a normalized divisor. */
  lemma LeadingTwo(vn: seq<Limb>, n: nat)
    requires Normalized(vn, n)
    ensures Val(vn[..n - 2]) < BPow(n - 2)
    ensures Val(vn) == Joined(vn[n - 1], vn[n - 2], Val(vn[..n - 2]), BPow(n - 2))
  {
    TightLengthValue(vn);
    var s := vn[..n];
    var low, high := s[..n - 2], s[n - 2..];
    ValSplit(s, n - 2);
    ValBound(low);
    assert low == vn[..n - 2];
    assert high == [vn[n - 2]] + [vn[n - 1]];
    ValCons(vn[n - 2], [vn[n - 1]]);
    ValSingle(vn[n - 1]);
    JoinedDigits(vn[n - 2], vn[n - 1], 0, Val(low), BPow(n - 2), Val(high), Val(s));
  }

  /**
   * Step D3 on numbers: the estimate qhat = top2 / v1 with remainder
   * rhat, corrected by the loop, is the true digit or one more, and fits
   * in a limb. Each round of the loop lowers qhat by one, so
   * qhat - Refine(..) is the number of rounds: at most two.
   */
  lemma EstimateBounds(v1: Limb, v2: Limb, vl: nat, top2: nat, u2: Limb, wl: nat, p: nat,
                       qhat: nat, rhat: nat)
    requires Setting(v1, v2, vl, top2, u2, wl, p)
    requires qhat * v1 + rhat == top2 && rhat < v1
    ensures qhat <= BASE + 1
    ensures var qt := Joined(top2, u2, wl, p) / Joined(v1, v2, vl, p);
      qt <= Refine(qhat, rhat, v1, v2, u2) <= qt + 1
    ensures Refine(qhat, rhat, v1, v2, u2) < BASE
    ensures qhat <= Refine(qhat, rhat, v1, v2, u2) + 2
  {
    DivModUnique(top2, v1, qhat, rhat);
    EstimateStart(v1, v2, vl, top2, u2, wl, p);
    EstimateNotLow(v1, v2, vl, top2, u2, wl, p);
    EstimateNotFar(v1, v2, vl, top2, u2, wl, p);
    RefineBounds(v1, v2, vl, top2, u2, wl, p, qhat, rhat);
  }

  /**
   * Step D3 on the window us[j..j+n+1], which is below 2^64 times the
   * divisor: qhat and rhat are the quotient and remainder of the two
   * leading window limbs by the leading divisor limb.
   */
  lemma EstimateDigit(us: seq<Limb>, j: nat, vn: seq<Limb>, n: nat, qhat: nat, rhat: nat)
    requires Normalized(vn, n) && j + n < |us|
    requires Val(us[j..j + n + 1]) < BASE * Val(vn)
    requires qhat * vn[n - 1] + rhat == us[j + n - 1] + us[j + n] * BASE && rhat < vn[n - 1]
    ensures qhat <= BASE + 1
    ensures var qt := Val(us[j..j + n + 1]) / Val(vn);
      qt <= Refine(qhat, rhat, vn[n - 1], vn[n - 2], us[j + n - 2]) <= qt + 1
    ensures Refine(qhat, rhat, vn[n - 1], vn[n - 2], us[j + n - 2]) < BASE
    ensures qhat <= Refine(qhat, rhat, vn[n - 1], vn[n - 2], us[j + n - 2]) + 2
  {
    var win := us[j..j + n + 1];
    var top2 := us[j + n - 1] + us[j + n] * BASE;
    assert win[n - 2] == us[j + n - 2] && win[n - 1] == us[j + n - 1] && win[n] == us[j + n];
    LeadingThree(win, n - 2);
    LeadingTwo(vn, n);
    var p, wl, vl := BPow(n - 2), Val(win[..n - 2]), Val(vn[..n - 2]);
    assert Setting(vn[n - 1], vn[n - 2], vl, top2, us[j + n - 2], wl, p);
    EstimateBounds(vn[n - 1], vn[n - 2], vl, top2, us[j + n - 2], wl, p, qhat, rhat);
  }

  /**
   * Steps D4 to D6 on the window: with qhat the true digit or one more,
   * the branch on limb n of the difference is taken exactly when qhat is
   * too large, and either way the low n + 1 limbs written back hold the
   * window's remainder.
   */
  lemma WindowStep(us: seq<Limb>, j: nat, vn: seq<Limb>, n: nat, qhat: Limb)
    requires Normalized(vn, n) && j + n < |us|
    requires var qt := Val(us[j..j + n + 1]) / Val(vn); qt <= qhat <= qt + 1
    ensures var w, v := Val(us[j..j + n + 1]), Val(vn);
      var tv := Subtract(TakeRange(us, |vn| + 1, j, j + n + 1), Mul(vn, [qhat], 0));
      && |tv| == |vn| + 2
      && (tv[n] != 0 <==> qhat == w / v + 1)
      && (tv[n] == 0 ==> Val(tv[..n + 1]) == w % v)
      && (tv[n] != 0 ==>
            var fixed := MpAddIgnoreLastCarry(MpAddIgnoreLastCarry(tv, UnaryEncoding(n + 1, |vn| + 2)), Pad(vn, 2));
            Val(fixed[..n + 1]) == w % v)
  {
    var w, v := Val(us[j..j + n + 1]), Val(vn);
    var take := TakeRange(us, |vn| + 1, j, j + n + 1);
    var prod := Mul(vn, [qhat], 0);
    TakeWindow(us, j, vn, n);
    ProductDigit(vn, qhat);
    DigitCases(w, v, qhat);
    if qhat == w / v + 1 {
      OverDigit(take, prod, vn, w, w % v, n);
    } else {
      ExactDigit(take, prod, w, v, w % v, n);
    }
  }

  /** The window us[j..j+n+1] taken into |vn| + 1 limbs keeps its value. */
  lemma TakeWindow(us: seq<Limb>, j: nat, vn: seq<Limb>, n: nat)
    requires n <= |vn| && j + n < |us|
    ensures var take := TakeRange(us, |vn| + 1, j, j + n + 1);
      |take| == |vn| + 1 && Val(take) == Val(us[j..j + n + 1])
  {
    ValSlice(us, j, j + n + 1);
  }

  /** The divisor times the single limb qhat. */
  lemma ProductDigit(vn: seq<Limb>, qhat: Limb)
    ensures var prod := Mul(vn, [qhat], 0);
      |prod| == |vn| + 1 && Val(prod) == Val(vn) * qhat
  {
    ValSingle(qhat);
  }

  /** The case qhat = w / v: no borrow out of limb n, and the low limbs hold the remainder. */
  lemma ExactDigit(take: seq<Limb>, prod: seq<Limb>, w: nat, v: nat, rem: nat, n: nat)
    requires |take| == |prod| && n < |take|
    requires 0 < v < BPow(n) && rem < v && Val(take) == w && Val(prod) + rem == w
    ensures var tv := Subtract(take, prod);
      |tv| == |take| + 1 && tv[n] == 0 && Val(tv[..n + 1]) == rem
  {
    MultiplySubtract(take, prod, w, v, rem, false, n);
    var tv := Subtract(take, prod);
    ValSplit(tv, n + 1);
    BPowStrict(n, n + 1);
    ModOfSmall(Val(tv), BPow(n + 1));
  }

  /** The case qhat = w / v + 1: a borrow out of limb n, and the add-back restores the remainder. */
  lemma OverDigit(take: seq<Limb>, prod: seq<Limb>, vn: seq<Limb>, w: nat, rem: nat, n: nat)
    requires |take| == |prod| == |vn| + 1 && n < |take|
    requires 0 < Val(vn) < BPow(n) && rem < Val(vn)
    requires Val(take) == w && Val(prod) + rem == w + Val(vn)
    ensures var tv := Subtract(take, prod);
      && |tv| == |vn| + 2 && tv[n] != 0
      && var fixed := MpAddIgnoreLastCarry(MpAddIgnoreLastCarry(tv, UnaryEncoding(n + 1, |vn| + 2)), Pad(vn, 2));
      Val(fixed[..n + 1]) == rem
  {
    MultiplySubtract(take, prod, w, Val(vn), rem, true, n);
    AddBack(Subtract(take, prod), vn, n, Val(vn) - rem);
  }

  /**
   * Steps D4 to D6 on the window us[j..j+n+1] with the corrected estimate
   * qhat: multiply and subtract, and add the divisor back when the
   * difference went negative.
   */
  method SubtractWindow(us: seq<Limb>, j: nat, vn: seq<Limb>, n: nat, qhat: Limb)
      returns (digit: Limb, part: seq<Limb>)
    requires Normalized(vn, n) && j + n < |us|
    requires var qt := Val(us[j..j + n + 1]) / Val(vn); qt <= qhat <= qt + 1
    ensures |part| == n + 1
    ensures digit == Val(us[j..j + n + 1]) / Val(vn)
    ensures Val(part) == Val(us[j..j + n + 1]) % Val(vn)
  {
    WindowStep(us, j, vn, n, qhat);
    DivModRange(Val(us[j..j + n + 1]), Val(vn));
    var qs: seq<Limb> := [qhat];
    var tv := Subtract(TakeRange(us, |vn| + 1, j, j + n + 1), Mul(vn, qs, 0));
    if tv[n] != 0 {
      var corrected := MpAddIgnoreLastCarry(tv, UnaryEncoding(n + 1, |vn| + 2));
      var fixed := MpAddIgnoreLastCarry(corrected, Pad(vn, 2));
      part := fixed[..n + 1];
      digit := qhat - 1;
    } else {
      part := tv[..n + 1];
      digit := qhat;
    }
  }

  /** Step D3's first estimate: the two leading window limbs divided by the leading divisor limb. */
  function TwoLimbEstimate(top2: nat, v1: nat): (qr: (nat, nat))
    requires v1 > 0
    ensures qr.0 * v1 + qr.1 == top2 && qr.1 < v1
  {
    DivModRange(top2, v1);
    (top2 / v1, top2 % v1)
  }

  /**
   * One round of the main loop of knuth_div on the window us[j..j+n+1]:
   * the quotient digit q[j] and the n + 1 limbs written back into us.
   * The window is below 2^64 times the divisor, as the loop keeps it.
   */
  method DivideWindow(us: seq<Limb>, j: nat, vn: seq<Limb>, n: nat) returns (digit: Limb, part: seq<Limb>)
    requires Normalized(vn, n) && j + n < |us|
    requires Val(us[j..j + n + 1]) < BASE * Val(vn)
    ensures |part| == n + 1
    ensures digit == Val(us[j..j + n + 1]) / Val(vn)
    ensures Val(part) == Val(us[j..j + n + 1]) % Val(vn)
  {
    var top2: nat := us[j + n - 1] + us[j + n] * BASE;
    var estimate := TwoLimbEstimate(top2, vn[n - 1]);
    var qhat, rhat := estimate.0, estimate.1;
    EstimateDigit(us, j, vn, n, qhat, rhat);
    var refined: Limb := Refine(qhat, rhat, vn[n - 1], vn[n - 2], us[j + n - 2]);
    digit, part := SubtractWindow(us, j, vn, n, refined);
  }

  // ---------------------------------------------------------------------
  // Step D1: normalization
  // ---------------------------------------------------------------------

  /** The top bit of a limb is 2^63. */
  lemma TopBitPower()
    ensures Pow(2, 63) == TOP_BIT
  {
    Pow2To64();
    assert Pow(2, 64) == 2 * Pow(2, 63);
  }

  /** Below BPow(n), limb n - 1 is the value's quotient by BPow(n - 1). */
  lemma TopLimb(s: seq<Limb>, n: nat)
    requires 1 <= n <= |s| && Val(s) < BPow(n)
    ensures s[n - 1] == Val(s) / BPow(n - 1)
  {
    ValLimb(s, n - 1);
    BPowSucc(n - 1);
    DigitBelow(Val(s), BPow(n - 1), BASE);
    DivModRange(Val(s), BPow(n - 1));
    ModOfSmall(Val(s) / BPow(n - 1), BASE);
  }

  /** x / p < c gives x < c * p. */
  lemma QuotientBelow(x: nat, p: nat, c: nat)
    requires p > 0 && x / p < c
    ensures x < c * p
  {
    DivModRange(x, p);
    MulLe(x / p + 1, c, p);
    DistribRight(x / p, 1, p);
  }

  /** One more factor of two. */
  lemma DoubleScaled(x: nat, k: nat)
    ensures x * Pow(2, k + 1) == 2 * (x * Pow(2, k))
  {
    MulAssoc(x, 2, Pow(2, k));
  }

  /** A value in [BPow(n - 1), BPow(n)) has tight length n. */
  lemma TightFromValue(s: seq<Limb>, n: nat)
    requires 1 <= n <= |s| && BPow(n - 1) <= Val(s) < BPow(n)
    ensures TightLength(s) == n
  {
    var l := TightLength(s);
    TightLengthValue(s);
    ValBound(s[..l]);
    if l < n {
      BPowMonotone(l, n - 1);
      assert false;
    } else if l > n {
      BPowMonotone(n, l - 1);
      assert false;
    }
  }

  /** A normalized divisor is at least 2^63 * BPow(n - 1). */
  lemma NormalizedLow(vn: seq<Limb>, n: nat)
    requires Normalized(vn, n)
    ensures TOP_BIT * BPow(n - 1) <= Val(vn)
  {
    TightLengthValue(vn);
    ValTop(vn[..n]);
    assert vn[..n][..n - 1] == vn[..n - 1];
    MulLe(TOP_BIT, vn[n - 1], BPow(n - 1));
  }

  /**
   * One round of the normalization loop: while the top limb of the
   * divisor lacks its top bit, shifting the whole divisor left by one and
   * keeping its |s| limbs doubles it without overflow, and the shift
   * count stays below 63.
   */
  lemma NormalizeStep(s: seq<Limb>, n: nat, k: nat)
    requires 1 <= n <= |s| && Val(s) < BPow(n) && s[n - 1] < TOP_BIT
    requires Pow(2, k) * BPow(n - 1) <= Val(s)
    ensures var t := First(ShiftLeft(s, 1), |s|);
      |t| == |s| && Val(t) == 2 * Val(s) && Val(t) < BPow(n)
    ensures k < 63 && Pow(2, k + 1) * BPow(n - 1) <= 2 * Val(s)
  {
    var p := BPow(n - 1);
    TopLimb(s, n);
    QuotientBelow(Val(s), p, TOP_BIT);
    BPowSucc(n - 1);
    BPowMonotone(n, |s|);
    assert Pow(2, 1) == 2;
    ModOfSmall(2 * Val(s), BPow(|s|));
    FactorBelow(Pow(2, k), TOP_BIT, p);
    TopBitPower();
    if k >= 63 {
      PowMonotone(2, 63, k);
      assert false;
    }
    MulAssoc(2, Pow(2, k), p);
  }

  /**
   * The normalization loop of knuth_div: the divisor of tight length n
   * is shifted left k bits, k < 64, until the top bit of limb n - 1 is
   * set. The result is the divisor times 2^k and is normalized, which
   * fixes k: it is the number of leading zero bits of v[n - 1].
   */
  method Normalize(v: seq<Limb>) returns (vn: seq<Limb>, k: nat)
    requires TightLength(v) >= 2
    ensures |vn| == |v| && k <= 63
    ensures Normalized(vn, TightLength(v))
    ensures Val(vn) == Val(v) * Pow(2, k)
  {
    var n := TightLength(v);
    TightLengthValue(v);
    ValBound(v[..n]);
    vn, k := v, 0;
    while vn[n - 1] < TOP_BIT
      invariant |vn| == |v| && k <= 63
      invariant Val(vn) == Val(v) * Pow(2, k)
      invariant Pow(2, k) * BPow(n - 1) <= Val(vn) < BPow(n)
      decreases 63 - k
    {
      NormalizeStep(vn, n, k);
      DoubleScaled(Val(v), k);
      vn := First(ShiftLeft(vn, 1), |v|);
      k := k + 1;
    }
    PowPositive(2, k);
    MulLe(1, Pow(2, k), BPow(n - 1));
    TightFromValue(vn, n);
  }

  // ---------------------------------------------------------------------
  // The main loop of knuth_div
  // ---------------------------------------------------------------------

  /** Before the first round the shifted dividend is below v * BPow(m + 1). */
  lemma InitialWindow(u: seq<Limb>, k: nat, vn: seq<Limb>, n: nat)
    requires Normalized(vn, n) && n <= |u| + 1 && k <= 63
    ensures Val(u) * Pow(2, k) < Val(vn) * BPow(|u| - n + 1)
  {
    ValBound(u);
    NormalizedLow(vn, n);
    TopBitPower();
    PowMonotone(2, k, 63);
    BPowAdd(n - 1, |u| - n + 1);
    InitialArith(Val(u), BPow(|u|), Pow(2, k), BPow(n - 1), BPow(|u| - n + 1), Val(vn));
  }

  /** InitialWindow on numbers: x < p1 * pm and s <= 2^63 <= v / p1. */
  lemma InitialArith(x: nat, xMax: nat, s: nat, p1: nat, pm: nat, v: nat)
    requires x < xMax == p1 * pm && 0 < s <= TOP_BIT && TOP_BIT * p1 <= v
    ensures x * s < v * pm
  {
    MulLt(x, xMax, s);
    MulLe(s, TOP_BIT, xMax);
    MulAssoc(TOP_BIT, p1, pm);
    MulLe(TOP_BIT * p1, v, pm);
  }

  /**
   * The loop keeps the partial remainder below v * BPow(j + 1); then the
   * window us[j..j+n+1] is below 2^64 * v and the limbs above it are zero.
   */
  lemma WindowBelow(us: seq<Limb>, j: nat, n: nat, v: nat)
    requires j + n < |us| && 0 < v < BPow(n) && Val(us) < v * BPow(j + 1)
    ensures Val(us[j..j + n + 1]) < BASE * v && Val(us[j + n + 1..]) == 0
  {
    HighOfRemainder(us, j, v);
    var high := us[j..];
    assert high[..n + 1] == us[j..j + n + 1] && high[n + 1..] == us[j + n + 1..];
    WindowOfHigh(high, n, v);
  }

  /** Below v * BPow(j + 1), the limbs from j on are below 2^64 * v. */
  lemma HighOfRemainder(us: seq<Limb>, j: nat, v: nat)
    requires j <= |us| && v > 0 && Val(us) < v * BPow(j + 1)
    ensures Val(us[j..]) < BASE * v
  {
    ValSplit(us, j);
    BPowSucc(j);
    HighBelow(Val(us), v, BPow(j));
  }

  /** Limbs below 2^64 * v with v < BPow(n): the first n + 1 carry all of it. */
  lemma WindowOfHigh(high: seq<Limb>, n: nat, v: nat)
    requires n < |high| && 0 < v < BPow(n) && Val(high) < BASE * v
    ensures Val(high[..n + 1]) < BASE * v && Val(high[n + 1..]) == 0
  {
    ValSplit(high, n + 1);
    BPowSucc(n);
    WindowTop(Val(high), Val(high[..n + 1]), Val(high[n + 1..]), v, BPow(n), BPow(n + 1));
  }

  /** x < v * (2^64 * p) gives x / p < 2^64 * v. */
  lemma HighBelow(x: nat, v: nat, p: nat)
    requires p > 0 && x < v * (BASE * p)
    ensures x / p < BASE * v
  {
    MulAssoc(v, BASE, p);
    DigitBelow(x, p, BASE * v);
  }

  /** h = w + p' * r below 2^64 * v <= p' forces r = 0. */
  lemma WindowTop(h: nat, w: nat, r: nat, v: nat, p: nat, p': nat)
    requires h == w + p' * r && h < BASE * v && v < p && p' == BASE * p
    ensures w < BASE * v && r == 0
  {
    MulLt(v, p, BASE);
    MulBelowFactor(r, p');
  }

  /**
   * Writing the n + 1 new limbs back over the window: the value changes
   * by the difference times BPow(j), and the partial remainder drops
   * below v * BPow(j).
   */
  lemma SpliceWindow(us: seq<Limb>, j: nat, n: nat, part: seq<Limb>, v: nat)
    requires j + n < |us| && |part| == n + 1 && Val(part) < v
    requires Val(us[j + n + 1..]) == 0
    ensures var us' := us[..j] + part + us[j + n + 1..];
      && |us'| == |us|
      && Val(us') + Val(us[j..j + n + 1]) * BPow(j) == Val(us) + Val(part) * BPow(j)
      && Val(us') < v * BPow(j)
  {
    var low, rest := us[..j], us[j + n + 1..];
    var win := us[j..j + n + 1];
    assert us[..j + n + 1] == low + win;
    assert us == us[..j + n + 1] + rest;
    ValAppend(low + win, rest);
    ValAppend(low, win);
    ValAppend(low + part, rest);
    ValAppend(low, part);
    ValBound(low);
    MulLe(Val(part), v - 1, BPow(j));
    DistribRight(v - 1, 1, BPow(j));
  }

  /** One round keeps remainder + v * quotient fixed. */
  lemma StepInvariant(r0: int, r1: int, q0: int, q1: int, w: nat, v: nat, d: int, rem: int, p: int)
    requires v > 0 && d == w / v && rem == w % v
    requires r1 + w * p == r0 + rem * p && q1 == q0 + d * p
    ensures r1 + v * q1 == r0 + v * q0
  {
    assert w == d * v + rem;
    DistribRight(d * v, rem, p);
    MulAssoc(v, d, p);
    Distrib(v, q0, d * p);
  }

  /**
   * Undoing the normalization: a quotient and remainder of x * s by y * s
   * are the quotient of x by y and s times its remainder.
   */
  lemma ScaledDivision(x: nat, y: nat, s: nat, q: nat, r: nat)
    requires y > 0 && s > 0 && r + (y * s) * q == x * s && r < y * s
    ensures q == x / y && r / s == x % y
  {
    MulPositive(y, s);
    ModScale(x, y, s);
    DivModUnique(x * s, y * s, q, r);
    MulDiv(x % y, s);
  }

  /**
   * knuth_div: Algorithm D of section 4.3.1 of Knuth's The Art of
   * Computer Programming, Volume 2. The divisor must have tight length at
   * least 2 and fit in one more limb than the dividend. The quotient has
   * |u| limbs and the remainder |v| limbs. A divisor of tight length
   * |u| + 1 leaves m = |u| - n at -1: no round runs, and the result is
   * q = 0 with the remainder u.
   */
  method KnuthDiv(u: seq<Limb>, v: seq<Limb>) returns (q: seq<Limb>, rem: seq<Limb>)
    requires 2 <= TightLength(v) && |v| <= |u| + 1
    ensures |q| == |u| && |rem| == |v|
    ensures Val(v) > 0
    ensures Val(q) == Val(u) / Val(v) && Val(rem) == Val(u) % Val(v)
  {
    var n := TightLength(v);
    var vn, k := Normalize(v);
    var us := ShiftLeft(u, k);
    InitialWindow(u, k, vn, n);
    q, us := KnuthRounds(us, vn, n);
    TightLengthValue(v);
    PowPositive(2, k);
    BPowMonotone(n, |v|);
    ModOfSmall(Val(us), BPow(|v|));
    rem := ShiftRight(First(us, |v|), k);
    ScaledDivision(Val(u), Val(v), Pow(2, k), Val(q), Val(us));
  }

  /**
   * The rounds j = m, ..., 0 of knuth_div on the normalized dividend: each
   * replaces the window us[j..j + n] by its remainder and stores the
   * quotient digit. What is left is the remainder by v, and together with
   * v q it makes up the dividend. With m = -1 no round runs.
   */
  method KnuthRounds(us0: seq<Limb>, vn: seq<Limb>, n: nat) returns (q: seq<Limb>, us: seq<Limb>)
    requires Normalized(vn, n) && n <= |us0|
    requires Val(us0) < Val(vn) * BPow(|us0| - n)
    ensures |us| == |us0| && |q| == |us0| - 1
    ensures Val(us) + Val(vn) * Val(q) == Val(us0) && Val(us) < Val(vn)
  {
    us := us0;
    q := Zeros(|us0| - 1);
    var j: int := |us0| - 1 - n;
    while j >= 0
      invariant -1 <= j <= |us0| - 1 - n
      invariant |us| == |us0| && |q| == |us0| - 1
      invariant forall i :: 0 <= i <= j ==> q[i] == 0
      invariant Val(us) + Val(vn) * Val(q) == Val(us0)
      invariant Val(us) < Val(vn) * BPow(j + 1)
      decreases j + 1
    {
      WindowBelow(us, j, n, Val(vn));
      var digit, part := DivideWindow(us, j, vn, n);
      var us' := us[..j] + part + us[j + n + 1..];
      var q' := q[j := digit];
      SpliceWindow(us, j, n, part, Val(vn));
      assert q[j] == 0;
      ValUpdate(q, j, digit);
      StepInvariant(Val(us), Val(us'), Val(q), Val(q'), Val(us[j..j + n + 1]), Val(vn), digit, Val(part), BPow(j));
      us, q := us', q';
      j := j - 1;
    }
    assert Val(us) < Val(vn) by {
      assert BPow(j + 1) == 1;
    }
  }

  // ---------------------------------------------------------------------
  // Entry points
  // ---------------------------------------------------------------------

  /**
   * div_v: division where the tight length of the divisor is only known
   * at run time. Tight length 1 goes to short division, with the one-limb
   * remainder padded to |v| limbs; otherwise Algorithm D. The divisor
   * must be non-zero and, as knuth_div is instantiated either way, fit
   * in one more limb than the dividend.
   */
  method DivV(u: seq<Limb>, v: seq<Limb>) returns (q: seq<Limb>, r: seq<Limb>)
    requires TightLength(v) >= 1 && |v| <= |u| + 1
    ensures |q| == |u| && |r| == |v|
    ensures Val(v) > 0
    ensures Val(q) == Val(u) / Val(v) && Val(r) == Val(u) % Val(v)
  {
    var l := TightLength(v);
    if l == 1 {
      TightLengthValue(v);
      ValSingle(v[0]);
      assert v[..1] == [v[0]];
      var q1, r1 := ShortDiv(u, v[0]);
      ValSingle(r1[0]);
      assert r1 == [r1[0]];
      q, r := q1, Pad(r1, |v| - 1);
    } else {
      q, r := KnuthDiv(u, v);
    }
  }

  /** The divisor length div<L> works with: L, or |v| when L is left at 0. */
  function DeclaredLength(L: nat, v: seq<Limb>): nat
  {
    if L == 0 then |v| else L
  }

  /**
   * div<L>: the caller states the tight length L of the divisor (0 for
   * "all of v"). Length 1 is short division by v[0], with a one-limb
   * remainder; any other length is Algorithm D, which needs tight length
   * at least 2. When L is the true tight length, the result is the
   * quotient and remainder by v.
   */
  method Div(u: seq<Limb>, v: seq<Limb>, L: nat) returns (q: seq<Limb>, r: seq<Limb>)
    requires |v| >= 1
    requires DeclaredLength(L, v) == 1 ==> v[0] != 0
    requires DeclaredLength(L, v) != 1 ==> 2 <= TightLength(v) && |v| <= |u| + 1
    ensures |q| == |u|
    ensures DeclaredLength(L, v) == 1 ==>
      |r| == 1 && Val(q) == Val(u) / v[0] && r[0] == Val(u) % v[0]
    ensures DeclaredLength(L, v) != 1 ==>
      |r| == |v| && Val(v) > 0 && Val(q) == Val(u) / Val(v) && Val(r) == Val(u) % Val(v)
    ensures TightLength(v) == DeclaredLength(L, v) ==>
      Val(v) > 0 && Val(q) == Val(u) / Val(v) && Val(r) == Val(u) % Val(v)
  {
    if DeclaredLength(L, v) == 1 {
      var r1: seq<Limb>;
      q, r1 := ShortDiv(u, v[0]);
      r := r1;
      if TightLength(v) == 1 {
        TightLengthValue(v);
        ValSingle(v[0]);
        assert v[..1] == [v[0]];
        ValSingle(r[0]);
        assert r == [r[0]];
      }
    } else {
      q, r := KnuthDiv(u, v);
    }
  }

  /** The value of a literal of up to six limbs, most significant last. */
  lemma ValOfSix(s: seq<Limb>)
    requires 1 <= |s| <= 6
    ensures Val(s) == s[0] + BASE * Val(s[1..])
    ensures |s| >= 2 ==> Val(s[1..]) == s[1] + BASE * Val(s[2..])
    ensures |s| >= 3 ==> Val(s[2..]) == s[2] + BASE * Val(s[3..])
    ensures |s| >= 4 ==> Val(s[3..]) == s[3] + BASE * Val(s[4..])
    ensures |s| >= 5 ==> Val(s[4..]) == s[4] + BASE * Val(s[5..])
    ensures |s| == 6 ==> Val(s[5..]) == s[5]
    ensures |s| < 6 ==> Val(s[|s|..]) == 0
  {
    if |s| == 6 {
      assert s[5..][1..] == [];
    }
  }

  /**
   * The division test vector: div(u, v) of a 6-limb dividend by a 4-limb
   * divisor, with L left unspecified, is Knuth division. The low three
   * quotient limbs are 2^128 - 1 and the remainder is the listed one.
   */
  method KnuthDivVector() returns (q: seq<Limb>, r: seq<Limb>)
    ensures |q| == 6 && First(q, 3) == [18446744073709551615, 18446744073709551615, 0]
    ensures r == [546, 0, 18446744073709551577, 2305843009213693951]
  {
    var u: seq<Limb> := [507, 0, 0, 0, 0, 2305843009213693952];
    var v: seq<Limb> := [39, 0, 0, 2305843009213693952];
    var quot: seq<Limb> := [18446744073709551615, 18446744073709551615, 0];
    var rem: seq<Limb> := [546, 0, 18446744073709551577, 2305843009213693951];
    VectorDivisorTight();
    q, r := Div(u, v, 0);
    VectorValues(u, v, quot, rem);
    ValBound(quot);
    ModOfSmall(Val(q), BPow(3));
    ValInjective(First(q, 3), quot);
    ValInjective(r, rem);
  }

  /** The values of the division vector's four literals, and the quotient and remainder they stand in. */
  lemma VectorValues(u: seq<Limb>, v: seq<Limb>, quot: seq<Limb>, rem: seq<Limb>)
    requires u == [507, 0, 0, 0, 0, 2305843009213693952] && v == [39, 0, 0, 2305843009213693952]
    requires quot == [18446744073709551615, 18446744073709551615, 0]
    requires rem == [546, 0, 18446744073709551577, 2305843009213693951]
    ensures Val(v) > 0 && Val(u) / Val(v) == Val(quot) && Val(u) % Val(v) == Val(rem)
  {
    LiteralValue(u,
      4925250774549309901534880012517951725634967408808180833493536675530715221437151326426783281860614455100828498788859);
    LiteralValue(v,
      14474011154664524427946373126085988481658748083205070504932198000989141205031);
    LiteralValue(quot, 340282366920938463463374607431768211455);
    LiteralValue(rem,
      14474011154664524427946373126085988468387735773288470429860588311150180958754);
    DivModUnique(4925250774549309901534880012517951725634967408808180833493536675530715221437151326426783281860614455100828498788859,
      14474011154664524427946373126085988481658748083205070504932198000989141205031,
      340282366920938463463374607431768211455,
      14474011154664524427946373126085988468387735773288470429860588311150180958754);
  }

  /** A literal of up to six limbs has the value its digits spell. */
  lemma LiteralValue(s: seq<Limb>, x: nat)
    requires 1 <= |s| <= 6
    requires x == s[0] + BASE * ((if |s| > 1 then s[1] else 0) + BASE * ((if |s| > 2 then s[2] else 0)
      + BASE * ((if |s| > 3 then s[3] else 0) + BASE * ((if |s| > 4 then s[4] else 0)
      + BASE * (if |s| > 5 then s[5] else 0)))))
    ensures Val(s) == x
  {
    ValOfSix(s);
  }

  /** The test divisor has tight length 4. */
  lemma VectorDivisorTight()
    ensures TightLength([39, 0, 0, 2305843009213693952]) == 4
  {
    var v: seq<Limb> := [39, 0, 0, 2305843009213693952];
    LiteralValue(v, 14474011154664524427946373126085988481658748083205070504932198000989141205031);
    assert BPow(3) == 6277101735386680763835789423207666416102355444464034512896 && BPow(4) == 115792089237316195423570985008687907853269984665640564039457584007913129639936 by {
      BPowSucc(0);
      BPowSucc(1);
      BPowSucc(2);
      BPowSucc(3);
    }
    TightFromValue(v, 4);
  }

}
