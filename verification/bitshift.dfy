/**
 * Shifting a limb sequence by 0..63 bits. The bitwise OR of the two
 * shifted parts of a result limb combines disjoint bit ranges, so it is
 * written as an addition.
 */
module BitShift {
  import opened Arith
  import opened Limbs
  import opened Slicing

  /** 2^k * 2^(64-k) == 2^64. */
  lemma SplitBase(k: nat)
    requires k <= 64
    ensures Pow(2, k) * Pow(2, 64 - k) == BASE
    ensures 0 < Pow(2, k) <= BASE && 0 < Pow(2, 64 - k) <= BASE
  {
    PowAdd(2, k, 64 - k);
    Pow2To64();
    MulLe(1, Pow(2, 64 - k), Pow(2, k));
    MulLe(1, Pow(2, k), Pow(2, 64 - k));
  }

  /** x >> c on a 64-bit word, 0 <= c <= 63. */
  function ShrWord(x: Limb, c: nat): (r: Limb)
    requires c <= 63
    ensures r == x / Pow(2, c)
  {
    DivAtMost(x, Pow(2, c));
    x / Pow(2, c)
  }

  /** x << c on a 64-bit word, 0 <= c <= 63: the bits pushed past bit 63 are lost. */
  function ShlWord(x: Limb, c: nat): (r: Limb)
    requires c <= 63
    ensures r == (x * Pow(2, c)) % BASE
  {
    (x * Pow(2, c)) % BASE
  }

  /**
   * One limb of a left shift by k: the low word of x << k keeps x mod
   * 2^(64-k) scaled by 2^k, and x >> (64-k) is what moves up.
   */
  lemma LeftDigit(x: Limb, carryIn: nat, k: nat)
    requires 1 <= k <= 63 && carryIn < Pow(2, k)
    ensures ShlWord(x, k) == (x % Pow(2, 64 - k)) * Pow(2, k)
    ensures ShlWord(x, k) + carryIn < BASE
    ensures ShrWord(x, 64 - k) < Pow(2, k)
  {
    SplitBase(k);
    LeftDigitParts(x, carryIn, Pow(2, k), Pow(2, 64 - k));
  }

  lemma LeftDigitParts(x: Limb, carryIn: nat, p: nat, q: nat)
    requires p > 0 && q > 0 && p * q == BASE && carryIn < p
    ensures (x * p) % BASE == (x % q) * p
    ensures (x % q) * p + carryIn < BASE
    ensures x / q < p
  {
    ModScale(x, q, p);
    MulLe(x % q, q - 1, p);
    if x / q >= p {
      MulLe(p, x / q, q);
    }
  }

  /** The value identity behind one step of the left-shift loop. */
  lemma ShiftLeftValue(x: nat, rest: nat, p: nat, q: nat, carryIn: nat, restVal: nat)
    requires p > 0 && q > 0 && p * q == BASE
    requires restVal == rest * p + x / q
    ensures (x % q) * p + carryIn + BASE * restVal == (x + BASE * rest) * p + carryIn
  {
    var out, r := x / q, x % q;
    assert x == out * q + r;
    DistribRight(out * q, r, p);
    MulAssoc(out, q, p);
    DistribRight(x, BASE * rest, p);
    MulAssoc(BASE, rest, p);
  }

  /**
   * The loop of shift_left for 1 <= k <= 63, entered with the bits that
   * the previous limb pushes into this one: limb i of the result is
   * (a[i] << k) | (a[i-1] >> (64-k)), and the last limb is
   * a[N-1] >> (64-k).
   */
  function ShiftLeftFrom(a: seq<Limb>, k: nat, carryIn: nat): (r: seq<Limb>)
    requires 1 <= k <= 63 && carryIn < Pow(2, k)
    ensures |r| == |a| + 1
    ensures Val(r) == Val(a) * Pow(2, k) + carryIn
  {
    if |a| == 0 then
      SplitBase(k);
      ValSingle(carryIn);
      [carryIn]
    else
      LeftDigit(a[0], carryIn, k);
      var lo: Limb := ShlWord(a[0], k) + carryIn;
      var rest := ShiftLeftFrom(a[1..], k, ShrWord(a[0], 64 - k));
      SplitBase(k);
      ShiftLeftValue(a[0], Val(a[1..]), Pow(2, k), Pow(2, 64 - k), carryIn, Val(rest));
      assert ([lo] + rest)[1..] == rest;
      [lo] + rest
  }

  /** shift_left(a, k) for 1 <= k <= 63. */
  function ShiftLeftLimbs(a: seq<Limb>, k: nat): (r: seq<Limb>)
    requires 1 <= k <= 63 && |a| >= 1
    ensures |r| == |a| + 1
    ensures Val(r) == Val(a) * Pow(2, k)
  {
    ShiftLeftFrom(a, k, 0)
  }

  /**
   * shift_left(a, k) with the shift by zero bits handled as the identity
   * (the loop itself would shift by 64 bits when k == 0): N+1 limbs
   * holding a * 2^k, nothing lost.
   */
  function ShiftLeft(a: seq<Limb>, k: nat): (r: seq<Limb>)
    requires k <= 63 && |a| >= 1
    ensures |r| == |a| + 1
    ensures Val(r) == Val(a) * Pow(2, k)
  {
    if k == 0 then Pad(a, 1) else ShiftLeftLimbs(a, k)
  }

  /**
   * One limb of a right shift by k: x >> k, and the low k bits of the
   * next limb y moved to the top by y << (64-k).
   */
  lemma RightDigit(x: Limb, y: Limb, k: nat)
    requires 1 <= k <= 63
    ensures ShlWord(y, 64 - k) == (y % Pow(2, k)) * Pow(2, 64 - k)
    ensures ShrWord(x, k) + ShlWord(y, 64 - k) < BASE
    ensures ShrWord(x, k) < Pow(2, 64 - k)
  {
    SplitBase(k);
    RightDigitParts(x, y, Pow(2, k), Pow(2, 64 - k));
  }

  lemma RightDigitParts(x: Limb, y: Limb, p: nat, q: nat)
    requires p > 0 && q > 0 && p * q == BASE
    ensures (y * q) % BASE == (y % p) * q
    ensures x / p + (y % p) * q < BASE
    ensures x / p < q
  {
    ModScale(y, p, q);
    MulLe(y % p, p - 1, q);
    if x / p >= q {
      MulLe(q, x / p, p);
    }
  }

  /** The value identity behind one step of the right-shift loop. */
  lemma ShiftRightValue(x: nat, y: nat, rest: nat, p: nat, q: nat)
    requires p > 0 && q > 0 && p * q == BASE
    ensures x / p + (y % p) * q + BASE * ((y + BASE * rest) / p)
         == (x + BASE * (y + BASE * rest)) / p
  {
    var v := y + BASE * rest;
    var w, s := v / p, y % p;
    TailResidue(y, rest, p, q);
    assert v == w * p + s;
    Regroup(x, w, s, p, q);
    DivAddMultiple(x, BASE * w + q * s, p);
  }

  /** Adding a multiple of BASE leaves the residue modulo a divisor of BASE alone. */
  lemma TailResidue(y: nat, rest: nat, p: nat, q: nat)
    requires p > 0 && q > 0 && p * q == BASE
    ensures (y + BASE * rest) % p == y % p
  {
    MulAssoc(q, rest, p);
    assert BASE * rest == (q * rest) * p;
    DivAddMultiple(y, q * rest, p);
  }

  /** BASE (w p + s) regrouped as a multiple of p. */
  lemma Regroup(x: nat, w: nat, s: nat, p: nat, q: nat)
    requires p * q == BASE
    ensures x + BASE * (w * p + s) == x + (BASE * w + q * s) * p
  {
    MulAssoc(BASE, w, p);
    MulAssoc(p, q, s);
  }

  /**
   * The loop of shift_right for 1 <= k <= 63: limb i of the result is
   * (a[i] >> k) | (a[i+1] << (64-k)), truncated to 64 bits, and the last
   * limb is a[N-1] >> k.
   */
  function ShiftRightLimbs(a: seq<Limb>, k: nat): (r: seq<Limb>)
    requires 1 <= k <= 63 && |a| >= 1
    ensures |r| == |a|
    ensures Val(r) == Val(a) / Pow(2, k)
  {
    if |a| == 1 then
      ValSingle(a[0]);
      ValSingle(ShrWord(a[0], k));
      [ShrWord(a[0], k)]
    else
      RightDigit(a[0], a[1], k);
      var lo: Limb := ShrWord(a[0], k) + ShlWord(a[1], 64 - k);
      var rest := ShiftRightLimbs(a[1..], k);
      ShiftRightStep(a, k, lo, rest);
      [lo] + rest
  }

  lemma ShiftRightStep(a: seq<Limb>, k: nat, lo: Limb, rest: seq<Limb>)
    requires 1 <= k <= 63 && |a| >= 2
    requires lo == a[0] / Pow(2, k) + (a[1] % Pow(2, k)) * Pow(2, 64 - k)
    requires Val(rest) == Val(a[1..]) / Pow(2, k)
    ensures Val([lo] + rest) == Val(a) / Pow(2, k)
  {
    SplitBase(k);
    var tail := Val(a[2..]);
    assert Val(a[1..]) == a[1] + BASE * tail by {
      assert a[1..][1..] == a[2..];
    }
    ShiftRightValue(a[0], a[1], tail, Pow(2, k), Pow(2, 64 - k));
    assert ([lo] + rest)[1..] == rest;
  }

  /**
   * shift_right(a, k) with the shift by zero bits handled as the identity
   * (the loop itself would shift by 64 bits when k == 0): floor(a / 2^k).
   */
  function ShiftRight(a: seq<Limb>, k: nat): (r: seq<Limb>)
    requires k <= 63 && |a| >= 1
    ensures |r| == |a|
    ensures Val(r) == Val(a) / Pow(2, k)
  {
    if k == 0 then a else ShiftRightLimbs(a, k)
  }

  /** Shifting left and then right by the same amount gives back the original limbs. */
  lemma ShiftRoundTrip(a: seq<Limb>, k: nat)
    requires k <= 63 && |a| >= 1
    ensures First(ShiftRight(ShiftLeft(a, k), k), |a|) == a
  {
    PowPositive(2, k);
    MulDiv(Val(a), Pow(2, k));
    ValBound(a);
    ModOfSmall(Val(a), BPow(|a|));
    ValInjective(First(ShiftRight(ShiftLeft(a, k), k), |a|), a);
  }

  // ---------------------------------------------------------------------
  // The loops exactly as written, with the hardware's shift semantics

  /** Bitwise OR of two natural numbers. */
  function Or(x: nat, y: nat): nat
  {
    if x == 0 then y
    else if y == 0 then x
    else 2 * Or(x / 2, y / 2) + (if x % 2 == 1 || y % 2 == 1 then 1 else 0)
  }

  lemma OrBound(x: nat, y: nat, n: nat)
    requires x < Pow(2, n) && y < Pow(2, n)
    ensures Or(x, y) < Pow(2, n)
  {
    if x != 0 && y != 0 {
      OrBound(x / 2, y / 2, n - 1);
    }
  }

  /** x | y on 64-bit words. */
  function BitOr(x: Limb, y: Limb): Limb
  {
    Pow2To64();
    OrBound(x, y, 64);
    Or(x, y)
  }

  /** x << c on x86-64, which reduces the count modulo 64. */
  function ShlMasked(x: Limb, c: nat): Limb
  {
    ShlWord(x, c % 64)
  }

  /** x >> c on x86-64, which reduces the count modulo 64. */
  function ShrMasked(x: Limb, c: nat): Limb
  {
    ShrWord(x, c % 64)
  }

  /**
   * shift_left(a, k) as written for every k < 64, with the shift counts
   * reduced modulo 64 the way x86-64 shift instructions reduce them. A
   * count of 64 is undefined in C++; with k == 0 the code asks for it.
   */
  function ShiftLeftAsWritten(a: seq<Limb>, k: nat): (r: seq<Limb>)
    requires k < 64 && |a| >= 1
    ensures |r| == |a| + 1
  {
    seq(|a| + 1, i requires 0 <= i <= |a| =>
      if i == 0 then ShlMasked(a[0], k)
      else if i < |a| then BitOr(ShlMasked(a[i], k), ShrMasked(a[i - 1], 64 - k))
      else ShrMasked(a[|a| - 1], 64 - k))
  }

  /** shift_right(a, k) as written, with the same reduction of the count 64 - k. */
  function ShiftRightAsWritten(a: seq<Limb>, k: nat): (r: seq<Limb>)
    requires k < 64 && |a| >= 1
    ensures |r| == |a|
  {
    seq(|a|, i requires 0 <= i < |a| =>
      if i < |a| - 1 then BitOr(ShrMasked(a[i], k), ShlMasked(a[i + 1], 64 - k))
      else ShrMasked(a[|a| - 1], k))
  }

  /** Or is symmetric. */
  lemma {:induction false} OrSymmetric(x: nat, y: nat)
    ensures Or(x, y) == Or(y, x)
    decreases x
  {
    if x != 0 && y != 0 {
      OrSymmetric(x / 2, y / 2);
    }
  }

  /** The OR of x < 2^j and a multiple of 2^j is their sum: the bits do not meet. */
  lemma {:induction false} OrDisjoint(x: nat, y: nat, j: nat)
    requires x < Pow(2, j)
    ensures Or(x, y * Pow(2, j)) == x + y * Pow(2, j)
    decreases j
  {
    if x != 0 && y != 0 {
      assert j >= 1;
      var h := y * Pow(2, j - 1);
      assert y * Pow(2, j) == 2 * h by {
        MulAssoc(y, 2, Pow(2, j - 1));
      }
      assert (2 * h) / 2 == h && (2 * h) % 2 == 0;
      OrDisjoint(x / 2, y, j - 1);
      assert Or(x, 2 * h) == 2 * Or(x / 2, h) + (if x % 2 == 1 then 1 else 0);
    }
  }

  /** Limb i of the loop of shift_right for 1 <= k <= 63. */
  lemma {:induction false} ShiftRightLimbsAt(a: seq<Limb>, k: nat, i: nat)
    requires 1 <= k <= 63 && i < |a|
    ensures ShiftRightLimbs(a, k)[i]
         == if i < |a| - 1 then ShrWord(a[i], k) + ShlWord(a[i + 1], 64 - k) else ShrWord(a[|a| - 1], k)
    decreases i
  {
    if |a| > 1 && i > 0 {
      ShiftRightLimbsAt(a[1..], k, i - 1);
    }
  }

  /**
   * For 1 <= k <= 63 no count reaches 64 and the as-written shift_right is
   * the shift: the ORs join disjoint bit ranges.
   */
  lemma {:induction false} ShiftRightAsWrittenAgrees(a: seq<Limb>, k: nat)
    requires 1 <= k <= 63 && |a| >= 1
    ensures ShiftRightAsWritten(a, k) == ShiftRight(a, k)
  {
    forall i | 0 <= i < |a|
      ensures ShiftRightAsWritten(a, k)[i] == ShiftRight(a, k)[i]
    {
      RightLimbAgrees(a, k, i);
    }
  }

  lemma {:induction false} RightLimbAgrees(a: seq<Limb>, k: nat, i: nat)
    requires 1 <= k <= 63 && i < |a|
    ensures ShiftRightAsWritten(a, k)[i] == ShiftRight(a, k)[i]
  {
    ShiftRightLimbsAt(a, k, i);
    if i < |a| - 1 {
      RightOrIsSum(a[i], a[i + 1], k);
    } else {
      assert k % 64 == k;
    }
  }

  /** The two parts ORed into a limb of shift_right do not overlap. */
  lemma {:induction false} RightOrIsSum(x: Limb, y: Limb, k: nat)
    requires 1 <= k <= 63
    ensures BitOr(ShrMasked(x, k), ShlMasked(y, 64 - k)) == ShrWord(x, k) + ShlWord(y, 64 - k)
  {
    assert k % 64 == k && (64 - k) % 64 == 64 - k;
    RightDigit(x, y, k);
    OrDisjoint(ShrWord(x, k), y % Pow(2, k), 64 - k);
  }

  /** Limb i of the loop of shift_left for 1 <= k <= 63, entered with carryIn. */
  lemma {:induction false} ShiftLeftFromAt(a: seq<Limb>, k: nat, carryIn: nat, i: nat)
    requires 1 <= k <= 63 && carryIn < Pow(2, k) && i <= |a|
    ensures ShiftLeftFrom(a, k, carryIn)[i]
         == if i == |a| then (if |a| == 0 then carryIn else ShrWord(a[|a| - 1], 64 - k))
            else if i == 0 then ShlWord(a[0], k) + carryIn
            else ShlWord(a[i], k) + ShrWord(a[i - 1], 64 - k)
    decreases i
  {
    if |a| > 0 && i > 0 {
      LeftDigit(a[0], carryIn, k);
      ShiftLeftFromAt(a[1..], k, ShrWord(a[0], 64 - k), i - 1);
    }
  }

  /**
   * For 1 <= k <= 63 no count reaches 64 and the as-written shift_left is
   * the shift: the ORs join disjoint bit ranges.
   */
  lemma {:induction false} ShiftLeftAsWrittenAgrees(a: seq<Limb>, k: nat)
    requires 1 <= k <= 63 && |a| >= 1
    ensures ShiftLeftAsWritten(a, k) == ShiftLeft(a, k)
  {
    forall i | 0 <= i <= |a|
      ensures ShiftLeftAsWritten(a, k)[i] == ShiftLeft(a, k)[i]
    {
      LeftLimbAgrees(a, k, i);
    }
  }

  lemma {:induction false} LeftLimbAgrees(a: seq<Limb>, k: nat, i: nat)
    requires 1 <= k <= 63 && i <= |a| && |a| >= 1
    ensures ShiftLeftAsWritten(a, k)[i] == ShiftLeft(a, k)[i]
  {
    ShiftLeftFromAt(a, k, 0, i);
    if 0 < i < |a| {
      LeftOrIsSum(a[i], a[i - 1], k);
    } else {
      assert k % 64 == k && (64 - k) % 64 == 64 - k;
    }
  }

  /** The two parts ORed into a limb of shift_left do not overlap. */
  lemma {:induction false} LeftOrIsSum(x: Limb, y: Limb, k: nat)
    requires 1 <= k <= 63
    ensures BitOr(ShlMasked(x, k), ShrMasked(y, 64 - k)) == ShlWord(x, k) + ShrWord(y, 64 - k)
  {
    assert k % 64 == k && (64 - k) % 64 == 64 - k;
    LeftDigit(x, 0, k);
    LeftDigit(y, 0, k);
    OrDisjoint(ShrWord(y, 64 - k), x % Pow(2, 64 - k), k);
    OrSymmetric(ShlWord(x, k), ShrWord(y, 64 - k));
  }

  /**
   * With k == 0 the as-written shift_left does not compute a * 2^0: each
   * limb gets ORed with its lower neighbour.
   */
  lemma ZeroShiftLeftCounterexample()
    ensures ShiftLeftAsWritten([1, 0], 0) == [1, 1, 0]
    ensures Val([1, 1, 0]) != Val([1, 0]) * Pow(2, 0)
    ensures ShiftLeft([1, 0], 0) == [1, 0, 0]
  {
    assert ShlMasked(1, 0) == 1 && ShlMasked(0, 0) == 0;
    assert ShrMasked(1, 64) == 1 && ShrMasked(0, 64) == 0;
    assert BitOr(0, 1) == 1;
    assert ShiftLeftAsWritten([1, 0], 0) == [1, 1, 0];
    SmallValues();
    assert Pad([1, 0], 1) == [1, 0, 0];
  }

  /**
   * With k == 0 the as-written shift_right does not compute a / 2^0: each
   * limb gets ORed with its upper neighbour.
   */
  lemma ZeroShiftRightCounterexample()
    ensures ShiftRightAsWritten([0, 1], 0) == [1, 1]
    ensures Val([1, 1]) != Val([0, 1]) / Pow(2, 0)
    ensures ShiftRight([0, 1], 0) == [0, 1]
  {
    assert ShrMasked(1, 0) == 1 && ShrMasked(0, 0) == 0;
    assert ShlMasked(1, 64) == 1;
    assert BitOr(0, 1) == 1;
    assert ShiftRightAsWritten([0, 1], 0) == [1, 1];
    SmallValues();
  }

  lemma SmallValues()
    ensures Val([1, 0]) == 1 && Val([0, 1]) == BASE
    ensures Val([1, 1]) == 1 + BASE && Val([1, 1, 0]) == 1 + BASE
  {
    ValSingle(1);
    ValSingle(0);
    assert [1, 0][1..] == [0];
    assert [0, 1][1..] == [1];
    assert [1, 1][1..] == [1];
    assert [1, 1, 0][1..] == [1, 0];
  }
}
