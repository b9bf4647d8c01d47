/**
 * Schoolbook multiplication of limb sequences: short_mul, mul,
 * partial_mul, and mul2 with its helper mul128.
 *
 * Every kernel is a recursion that mirrors the source's loops one
 * iteration per call, so the result is the source's limb array and the
 * contract says which number it holds.
 */
module Mult {
  import opened Arith
  import opened Limbs
  import opened Addition

  /**
   * One step of the inner loop: the double-width t = x * y + w + k split
   * into its low word (stored) and its high word (the next carry). The sum
   * of two limbs' product and two more limbs always fits in 128 bits.
   */
  function MulStep(x: Limb, y: Limb, w: Limb, k: Limb): (s: Step)
    ensures x * y + w + k < BASE * BASE
    ensures s.carry < BASE
    ensures s.word + BASE * s.carry == x * y + w + k
  {
    StepFits(x, y, w, k);
    var t := x * y + w + k;
    Step(t % BASE, t / BASE)
  }

  /** (2^64 - 1)^2 + 2 (2^64 - 1) = 2^128 - 1. */
  lemma StepFits(x: Limb, y: Limb, w: Limb, k: Limb)
    ensures x * y + w + k < BASE * BASE
    ensures (x * y + w + k) / BASE < BASE
  {
    var m := BASE - 1;
    MulLe(x, m, y);
    MulLe(y, m, m);
    assert x * y <= m * m;
    assert m * m + m + m == BASE * BASE - 1;
    DivLe(x * y + w + k, BASE * BASE - 1, BASE);
    DivModUnique(BASE * BASE - 1, BASE, m, m);
  }

  /** The arithmetic of one step of a row: value moves from the rest of the input into the output. */
  lemma RowStep(word: int, carry: int, x: int, y: int, wl: int, k: int, rest: int, p: int,
                vw: int, vw': int, vu: int, p': int)
    requires word + BASE * carry == x * y + wl + k
    requires vw' == vw - wl * p + word * p
    requires vu == x + BASE * rest && p' == BASE * p
    ensures vw' + (rest * y + carry) * p' == vw + (vu * y + k) * p
  {
    calc {
      (rest * y + carry) * p';
      (rest * y + carry) * (BASE * p);
      { MulAssoc(rest * y + carry, BASE, p); }
      ((rest * y + carry) * BASE) * p;
      { DistribRight(rest * y, carry, BASE); }
      (rest * y * BASE + BASE * carry) * p;
    }
    calc {
      (vu * y + k) * p;
      ((x + BASE * rest) * y + k) * p;
      { DistribRight(x, BASE * rest, y); }
      (x * y + BASE * rest * y + k) * p;
    }
    DistribRight(rest * y * BASE, BASE * carry, p);
    DistribRight(x * y + BASE * rest * y, k, p);
    DistribRight(x * y, BASE * rest * y, p);
    assert word * p + (BASE * carry) * p == (x * y + wl + k) * p by {
      DistribRight(word, BASE * carry, p);
    }
    DistribRight(x * y + k, wl, p);
    DistribRight(x * y, k, p);
  }

  /**
   * One step of a row, on limb sequences: limb i + j of w becomes the low
   * word and the carry moves on to the next limb.
   */
  lemma RowAdvance(u: seq<Limb>, vj: Limb, w: seq<Limb>, j: nat, i: nat, k: Limb, word: Limb, carry: nat)
    requires i < |u| && i + j < |w|
    requires word + BASE * carry == u[i] * vj + w[i + j] + k
    ensures Val(w[i + j := word]) + (Val(u[i + 1..]) * vj + carry) * BPow(i + 1 + j)
         == Val(w) + (Val(u[i..]) * vj + k) * BPow(i + j)
  {
    ValUpdate(w, i + j, word);
    ValCons(u[i], u[i + 1..]);
    assert u[i..] == [u[i]] + u[i + 1..];
    BPowSucc(i + j);
    RowStep(word, carry, u[i], vj, w[i + j], k, Val(u[i + 1..]), BPow(i + j),
            Val(w), Val(w[i + j := word]), Val(u[i..]), BPow(i + 1 + j));
  }

  /** short_mul(a, b) from limb j on, entered with carry k. */
  function ShortMulFrom(a: seq<Limb>, b: Limb, k: Limb): (r: seq<Limb>)
    ensures |r| == |a| + 1
    ensures Val(r) == Val(a) * b + k
    decreases |a|
  {
    if |a| == 0 then
      ValSingle(k);
      [k]
    else
      var s := MulStep(a[0], b, 0, k);
      var rest := ShortMulFrom(a[1..], b, s.carry);
      ValCons(s.word, rest);
      ValCons(a[0], a[1..]);
      assert a == [a[0]] + a[1..];
      RowStep(s.word, s.carry, a[0], b, 0, k, Val(a[1..]), 1, 0, s.word, Val(a), BASE);
      [s.word] + rest
  }

  /** short_mul(a, b): an N-limb number times one limb, in N + 1 limbs. */
  function ShortMul(a: seq<Limb>, b: Limb): (r: seq<Limb>)
    ensures |r| == |a| + 1
    ensures Val(r) == Val(a) * b
  {
    ShortMulFrom(a, b, 0)
  }

  /**
   * The inner loop of mul for row j, from i on, entered with carry k: it
   * adds u[i..] * vj * 2^(64(i+j)) into w and finally stores the carry in
   * limb j + M, which the earlier rows left zero.
   */
  function MulRowFrom(u: seq<Limb>, vj: Limb, w: seq<Limb>, j: nat, i: nat, k: Limb): (r: seq<Limb>)
    requires i <= |u| && j + |u| < |w|
    requires w[j + |u|] == 0
    ensures |r| == |w|
    ensures Val(r) == Val(w) + (Val(u[i..]) * vj + k) * BPow(i + j)
    ensures forall l :: 0 <= l < |w| && (l < i + j || j + |u| < l) ==> r[l] == w[l]
    decreases |u| - i
  {
    if i == |u| then
      ValUpdate(w, j + |u|, k);
      assert u[i..] == [];
      w[j + |u| := k]
    else
      var s := MulStep(u[i], vj, w[i + j], k);
      RowAdvance(u, vj, w, j, i, k, s.word, s.carry);
      MulRowFrom(u, vj, w[i + j := s.word], j, i + 1, s.carry)
  }

  /** Row j's product u * vj * 2^(64j) plus the rows after it is u * v[j..] * 2^(64j). */
  lemma RowsStep(x: int, y: int, rest: int, p: int, vv: int, p': int)
    requires vv == y + BASE * rest && p' == BASE * p
    ensures x * y * p + x * rest * p' == x * vv * p
  {
    calc {
      x * vv * p;
      x * (y + BASE * rest) * p;
      { Distrib(x, y, BASE * rest); }
      (x * y + x * (BASE * rest)) * p;
      { DistribRight(x * y, x * (BASE * rest), p); }
      x * y * p + x * (BASE * rest) * p;
      { MulAssoc(x, BASE, rest); MulAssoc(x * rest, BASE, p); }
      x * y * p + x * rest * p';
    }
  }

  /** The bookkeeping of moving on to row j + 1, on limb sequences. */
  lemma RowsAdvance(u: seq<Limb>, v: seq<Limb>, j: nat)
    requires j < |v|
    ensures Val(u) * v[j] * BPow(j) + Val(u) * Val(v[j + 1..]) * BPow(j + 1)
         == Val(u) * Val(v[j..]) * BPow(j)
  {
    ValCons(v[j], v[j + 1..]);
    assert v[j..] == [v[j]] + v[j + 1..];
    BPowSucc(j);
    RowsStep(Val(u), v[j], Val(v[j + 1..]), BPow(j), Val(v[j..]), BPow(j + 1));
  }

  /** The outer loop of mul from row j on: the limbs from j + M up are still zero. */
  function MulRows(u: seq<Limb>, v: seq<Limb>, w: seq<Limb>, j: nat): (r: seq<Limb>)
    requires j <= |v| && |u| + |v| <= |w|
    requires forall l :: j + |u| <= l < |w| ==> w[l] == 0
    ensures |r| == |w|
    ensures Val(r) == Val(w) + Val(u) * Val(v[j..]) * BPow(j)
    decreases |v| - j
  {
    if j == |v| then
      assert v[j..] == [];
      w
    else
      assert u[0..] == u;
      var w' := MulRowFrom(u, v[j], w, j, 0, 0);
      RowsAdvance(u, v, j);
      MulRows(u, v, w', j + 1)
  }

  /**
   * mul<padding>(u, v): the full product of an M-limb and an N-limb number
   * in M + N + padding limbs. M + N limbs always hold the product, so it is
   * exact.
   */
  function Mul(u: seq<Limb>, v: seq<Limb>, padding: nat): (r: seq<Limb>)
    ensures |r| == |u| + |v| + padding
    ensures Val(r) == Val(u) * Val(v)
  {
    assert v[0..] == v;
    MulRows(u, v, Zeros(|u| + |v| + padding), 0)
  }

  /** mul is commutative limb for limb, not only in value. */
  lemma MulCommutes(u: seq<Limb>, v: seq<Limb>, padding: nat)
    ensures Mul(u, v, padding) == Mul(v, u, padding)
  {
    ValInjective(Mul(u, v, padding), Mul(v, u, padding));
  }

  /** The end of a partial_mul row: the carry is stored only if limb j + M is inside the result. */
  lemma PartialRowEnd(u: seq<Limb>, vj: Limb, w: seq<Limb>, j: nat, i: nat, k: Limb)
    requires j <= |w| && i <= |u| && i <= |w| - j
    requires i == |u| || i == |w| - j
    requires forall l :: j + |u| <= l < |w| ==> w[l] == 0
    ensures j + |u| < |w| ==>
      Val(w[j + |u| := k]) == (Val(w) + (Val(u[i..]) * vj + k) * BPow(i + j)) % BPow(|w|)
    ensures j + |u| >= |w| ==>
      Val(w) == (Val(w) + (Val(u[i..]) * vj + k) * BPow(i + j)) % BPow(|w|)
  {
    ValBound(w);
    if j + |u| < |w| {
      assert i == |u| && u[i..] == [];
      var w' := w[j + |u| := k];
      ValUpdate(w, j + |u|, k);
      ValBound(w');
      ModOfSmall(Val(w'), BPow(|w|));
    } else {
      assert i + j == |w|;
      DivAddMultiple(Val(w), Val(u[i..]) * vj + k, BPow(|w|));
      ModOfSmall(Val(w), BPow(|w|));
    }
  }

  /**
   * The inner loop of partial_mul for row j: it runs over the first
   * min(M, R - j) limbs of u only, and stores the final carry only when
   * limb j + M lies inside the R-limb result.
   */
  function PartialRowFrom(u: seq<Limb>, vj: Limb, w: seq<Limb>, j: nat, i: nat, k: Limb): (r: seq<Limb>)
    requires j <= |w| && i <= |u| && i <= |w| - j
    requires forall l :: j + |u| <= l < |w| ==> w[l] == 0
    ensures |r| == |w|
    ensures Val(r) == (Val(w) + (Val(u[i..]) * vj + k) * BPow(i + j)) % BPow(|w|)
    ensures forall l :: 0 <= l < |w| && (l < i + j || j + |u| < l) ==> r[l] == w[l]
    decreases |u| - i
  {
    if i == |u| || i == |w| - j then
      PartialRowEnd(u, vj, w, j, i, k);
      if j + |u| < |w| then w[j + |u| := k] else w
    else
      var s := MulStep(u[i], vj, w[i + j], k);
      RowAdvance(u, vj, w, j, i, k, s.word, s.carry);
      PartialRowFrom(u, vj, w[i + j := s.word], j, i + 1, s.carry)
  }

  /** Adding the rows one by one modulo M gives the sum modulo M. */
  lemma ModRows(vw: int, row: int, rest: int, vw': int, vr: int, total: int, m: int)
    requires m > 0
    requires vw' == (vw + row) % m && vr == (vw' + rest) % m && total == row + rest
    ensures vr == (vw + total) % m
  {
    ModAddLeft(vw + row, rest, m);
  }

  /** The outer loop of partial_mul from row j on. */
  function PartialRows(u: seq<Limb>, v: seq<Limb>, w: seq<Limb>, j: nat): (r: seq<Limb>)
    requires j <= |v| <= |w| + 1
    requires forall l :: j + |u| <= l < |w| ==> w[l] == 0
    ensures |r| == |w|
    ensures Val(r) == (Val(w) + Val(u) * Val(v[j..]) * BPow(j)) % BPow(|w|)
    decreases |v| - j
  {
    if j == |v| then
      ValBound(w);
      ModOfSmall(Val(w), BPow(|w|));
      assert v[j..] == [];
      w
    else
      assert u[0..] == u;
      var w' := PartialRowFrom(u, v[j], w, j, 0, 0);
      var r := PartialRows(u, v, w', j + 1);
      RowsAdvance(u, v, j);
      ModRows(Val(w), Val(u) * v[j] * BPow(j), Val(u) * Val(v[j + 1..]) * BPow(j + 1),
              Val(w'), Val(r), Val(u) * Val(v[j..]) * BPow(j), BPow(|w|));
      r
  }

  /**
   * partial_mul<R>(u, v): the product truncated to its R least significant
   * limbs. The row loop computes R - j in an unsigned type, so a v with
   * more than R + 1 limbs would make it wrap around and write outside the
   * result; callers never pass one.
   */
  function PartialMul(u: seq<Limb>, v: seq<Limb>, resultLength: nat): (r: seq<Limb>)
    requires |v| <= resultLength + 1
    ensures |r| == resultLength
    ensures Val(r) == (Val(u) * Val(v)) % BPow(resultLength)
  {
    assert v[0..] == v;
    PartialRows(u, v, Zeros(resultLength), 0)
  }

  /** The product of an M-limb and an N-limb number fits in M + N limbs. */
  lemma ProductFits(a: seq<Limb>, b: seq<Limb>)
    ensures Val(a) * Val(b) < BPow(|a| + |b|)
  {
    ValBound(a);
    ValBound(b);
    MulStrictBound(Val(a), BPow(|a|), Val(b), BPow(|b|));
    BPowAdd(|a|, |b|);
  }

  /** With room for the whole product, partial_mul computes the same limbs as mul. */
  lemma PartialMulIsMul(u: seq<Limb>, v: seq<Limb>)
    ensures PartialMul(u, v, |u| + |v|) == Mul(u, v, 0)
  {
    ProductFits(u, v);
    ModOfSmall(Val(u) * Val(v), BPow(|u| + |v|));
    ValInjective(PartialMul(u, v, |u| + |v|), Mul(u, v, 0));
  }

  const HALF: nat := 0x1_0000_0000

  /** The product of two 32-bit halves never wraps a 64-bit multiply. */
  lemma HalfProduct(x: nat, y: nat)
    requires x < HALF && y < HALF
    ensures x * y < BASE
  {
    MulLe(x, HALF - 1, y);
    MulLe(y, HALF - 1, HALF - 1);
  }

  /**
   * mul128(a, b): the high word of the 128-bit product, built from four
   * 64-bit products of 32-bit halves. Every uint64 operation is written
   * with its wrap-around; Mul128Correct shows that none of them wraps.
   */
  function Mul128(a: Limb, b: Limb): Limb
  {
    var aLo, aHi := a % HALF, a / HALF;
    var bLo, bHi := b % HALF, b / HALF;
    var abHi := (aHi * bHi) % BASE;
    var abMid := (aHi * bLo) % BASE;
    var baMid := (bHi * aLo) % BASE;
    var abLo := (aLo * bLo) % BASE;
    var carryBit := ((abMid % HALF + baMid % HALF + abLo / HALF) % BASE) / HALF;
    (abHi + abMid / HALF + baMid / HALF + carryBit) % BASE
  }

  /** mul128 is the high word of the full product. */
  lemma Mul128Correct(a: Limb, b: Limb)
    ensures Mul128(a, b) == (a * b) / BASE
  {
    var aLo, aHi := a % HALF, a / HALF;
    var bLo, bHi := b % HALF, b / HALF;
    assert a == aHi * HALF + aLo && aHi < HALF;
    assert b == bHi * HALF + bLo && bHi < HALF;
    Mul128High(aHi, aLo, bHi, bLo);
  }

  /** The arithmetic behind mul128, on the four 32-bit halves. */
  lemma Mul128High(aHi: nat, aLo: nat, bHi: nat, bLo: nat)
    requires aHi < HALF && aLo < HALF && bHi < HALF && bLo < HALF
    ensures (aHi * bHi) % BASE == aHi * bHi
    ensures (aHi * bLo) % BASE == aHi * bLo
    ensures (bHi * aLo) % BASE == bHi * aLo
    ensures (aLo * bLo) % BASE == aLo * bLo
    ensures ((aHi * bLo) % HALF + (bHi * aLo) % HALF + (aLo * bLo) / HALF) % BASE
            == (aHi * bLo) % HALF + (bHi * aLo) % HALF + (aLo * bLo) / HALF
    ensures var hi := aHi * bHi + (aHi * bLo) / HALF + (bHi * aLo) / HALF
                      + ((aHi * bLo) % HALF + (bHi * aLo) % HALF + (aLo * bLo) / HALF) / HALF;
            hi % BASE == hi && hi == ((aHi * HALF + aLo) * (bHi * HALF + bLo)) / BASE
  {
    HalfProduct(aHi, bHi);
    HalfProduct(aHi, bLo);
    HalfProduct(bHi, aLo);
    HalfProduct(aLo, bLo);
    ModOfSmall(aHi * bHi, BASE);
    ModOfSmall(aHi * bLo, BASE);
    ModOfSmall(bHi * aLo, BASE);
    ModOfSmall(aLo * bLo, BASE);
    var hh, m1, m2, lo := aHi * bHi, aHi * bLo, bHi * aLo, aLo * bLo;
    var s := m1 % HALF + m2 % HALF + lo / HALF;
    ModOfSmall(s, BASE);
    var hi := hh + m1 / HALF + m2 / HALF + s / HALF;
    var p := (aHi * HALF + aLo) * (bHi * HALF + bLo);
    HalfSplit(aHi, aLo, bHi, bLo, p);
    assert p == hi * BASE + (s % HALF) * HALF + lo % HALF;
    MulLe(s % HALF, HALF - 1, HALF);
    DivModUnique(p, BASE, hi, (s % HALF) * HALF + lo % HALF);
    StepFits(aHi * HALF + aLo, bHi * HALF + bLo, 0, 0);
    ModOfSmall(hi, BASE);
  }

  /** (aHi 2^32 + aLo)(bHi 2^32 + bLo) expanded into its four partial products. */
  lemma HalfSplit(aHi: nat, aLo: nat, bHi: nat, bLo: nat, p: nat)
    requires p == (aHi * HALF + aLo) * (bHi * HALF + bLo)
    ensures p == (aHi * bHi) * BASE + (aHi * bLo + bHi * aLo) * HALF + aLo * bLo
  {
    DistribRight(aHi * HALF, aLo, bHi * HALF + bLo);
    Distrib(aHi * HALF, bHi * HALF, bLo);
    Distrib(aLo, bHi * HALF, bLo);
    assert (aHi * HALF) * (bHi * HALF) == (aHi * bHi) * BASE;
    assert (aHi * HALF) * bLo == (aHi * bLo) * HALF;
    assert aLo * (bHi * HALF) == (bHi * aLo) * HALF;
    DistribRight(aHi * bLo, bHi * aLo, HALF);
  }

  /** A number below 2^128 is its low word plus 2^64 times its high word. */
  lemma WordSplit(v: nat)
    ensures v == v % BASE + BASE * (v / BASE)
  {
  }

  /**
   * prod = {a_i * b_j, mul128(a_i, b_j)} holds the whole product, and
   * accumulate(prod, {high, 0}) adds the previous high word without wrapping.
   */
  lemma Mul2StepValue(x: Limb, y: Limb, high: Limb)
    ensures var sum := Accumulate([(x * y) % BASE, Mul128(x, y)], [high, 0]);
            |sum| == 2 && sum[0] + BASE * sum[1] == x * y + high
  {
    var prod := [(x * y) % BASE, Mul128(x, y)];
    var h: seq<Limb> := [high, 0];
    Mul128Correct(x, y);
    WordSplit(x * y);
    TwoLimbValue(prod[0], prod[1]);
    TwoLimbValue(high, 0);
    assert Val(prod) + Val(h) == x * y + high;
    StepFits(x, y, high, 0);
    BPowSucc(1);
    BPowSucc(0);
    assert Val(prod) + Val(h) < BPow(|h|);
    var sum := Accumulate(prod, h);
    assert sum == [sum[0], sum[1]];
    TwoLimbValue(sum[0], sum[1]);
  }

  /**
   * One step of mul2's inner loop: the low word goes to tmp and the high
   * word is carried to the next limb.
   */
  function Mul2Step(x: Limb, y: Limb, high: Limb): (s: Step)
    ensures s.carry < BASE
    ensures s.word + BASE * s.carry == x * y + high
  {
    var sum := Accumulate([(x * y) % BASE, Mul128(x, y)], [high, 0]);
    Mul2StepValue(x, y, high);
    Step(sum[0], sum[1])
  }

  /** With no limb of w to add in, mul2's step and mul's step split x * y + high alike. */
  lemma Mul2StepIsMulStep(x: Limb, y: Limb, high: Limb)
    ensures Mul2Step(x, y, high) == MulStep(x, y, 0, high)
  {
    var s, t := Mul2Step(x, y, high), MulStep(x, y, 0, high);
    DivModUnique(x * y + high, BASE, s.carry, s.word);
    DivModUnique(x * y + high, BASE, t.carry, t.word);
  }

  /**
   * mul2's inner loop for row j from i on: it writes limbs j..j+N1-1 of
   * tmp, which are still zero, and ends with the row's last high word.
   * Every other limb, limb j + N1 among them, is left as it was.
   */
  function Mul2RowFrom(a: seq<Limb>, bj: Limb, tmp: seq<Limb>, j: nat, i: nat, high: Limb): (c: Chain)
    requires i <= |a| && j + |a| < |tmp|
    ensures |c.limbs| == |tmp| && c.carry < BASE
    ensures forall l :: 0 <= l < |tmp| && (l < i + j || j + |a| <= l) ==> c.limbs[l] == tmp[l]
    decreases |a| - i
  {
    if i == |a| then
      Chain(tmp, high)
    else
      var s := Mul2Step(a[i], bj, high);
      Mul2RowFrom(a, bj, tmp[i + j := s.word], j, i + 1, s.carry)
  }

  /**
   * On a tmp that is zero from limb i + j up to limb j + N1, mul2's row with
   * its last high word stored at limb j + N1 is exactly mul's row.
   */
  lemma {:induction false} Mul2RowIsMulRow(a: seq<Limb>, bj: Limb, tmp: seq<Limb>, j: nat, i: nat, high: Limb)
    requires i <= |a| && j + |a| < |tmp|
    requires forall l :: i + j <= l <= j + |a| ==> tmp[l] == 0
    ensures Mul2RowFrom(a, bj, tmp, j, i, high).limbs[j + |a| := Mul2RowFrom(a, bj, tmp, j, i, high).carry as Limb]
         == MulRowFrom(a, bj, tmp, j, i, high)
    decreases |a| - i
  {
    if i < |a| {
      Mul2StepIsMulStep(a[i], bj, high);
      var s := Mul2Step(a[i], bj, high);
      Mul2RowIsMulRow(a, bj, tmp[i + j := s.word], j, i + 1, s.carry);
    }
  }

  /** Every row of a times b fits in N1 limbs: then mul2 drops only zero high words. */
  predicate RowsFit(a: seq<Limb>, b: seq<Limb>)
  {
    forall j :: 0 <= j < |b| ==> Val(a) * b[j] < BPow(|a|)
  }

  /**
   * A row x * 2^(64j) with x below 2^(64 N1) has a zero high word at limb
   * j + N1, so leaving it out of tmp loses nothing.
   */
  lemma HighWordZero(lo: nat, c: nat, p: nat, stored: int, x: int, q: nat, r: nat)
    requires q > 0 && p == q * r && x < r
    requires stored == lo - 0 * p + c * p && stored == x * q
    ensures c == 0 && lo == stored
  {
    MulPositive(r - x, q);
    DistribRight(r, -x, q);
    MulBelowFactor(c, p);
  }

  /** Row j of mul2 on a zero tmp, with its high word stored, holds a * b_j * 2^(64j). */
  lemma Mul2RowStored(a: seq<Limb>, bj: Limb, j: nat, n: nat, row: Chain)
    requires j + |a| < n && row == Mul2RowFrom(a, bj, Zeros(n), j, 0, 0)
    ensures |row.limbs| == n && row.carry < BASE && row.limbs[j + |a|] == 0
    ensures Val(row.limbs[j + |a| := row.carry as Limb]) == Val(a) * bj * BPow(j)
  {
    Mul2RowIsMulRow(a, bj, Zeros(n), j, 0, 0);
    assert a[0..] == a;
  }

  /**
   * The tmp that row j hands to accumulate: a * b_j * 2^(64j) when the
   * high word is stored, and that less the high word otherwise, which is
   * zero when the row fits.
   */
  lemma Mul2RowValue(a: seq<Limb>, b: seq<Limb>, j: nat, storeHigh: bool, row: Chain)
    requires j < |b| && |row.limbs| == |a| + |b| && row.carry < BASE
    requires row.limbs[j + |a|] == 0
    requires Val(row.limbs[j + |a| := row.carry as Limb]) == Val(a) * b[j] * BPow(j)
    requires storeHigh || RowsFit(a, b)
    ensures Val(if storeHigh then row.limbs[j + |a| := row.carry as Limb] else row.limbs)
         == Val(a) * b[j] * BPow(j)
  {
    if !storeHigh {
      ValUpdate(row.limbs, j + |a|, row.carry as Limb);
      BPowAdd(j, |a|);
      HighWordZero(Val(row.limbs), row.carry, BPow(j + |a|), Val(row.limbs[j + |a| := row.carry as Limb]),
                   Val(a) * b[j], BPow(j), BPow(|a|));
    }
  }

  /**
   * The tmp that row j of mul2 hands to accumulate: the row on a zero tmp,
   * with its last high word stored at limb j + N1 or, as written, not.
   * It is a * b_j * 2^(64j) when the high word is stored or the row fits.
   */
  function Mul2Tmp(a: seq<Limb>, b: seq<Limb>, j: nat, storeHigh: bool): (tmp: seq<Limb>)
    requires j < |b|
    ensures |tmp| == |a| + |b|
    ensures storeHigh || RowsFit(a, b) ==> Val(tmp) == Val(a) * b[j] * BPow(j)
  {
    var row := Mul2RowFrom(a, b[j], Zeros(|a| + |b|), j, 0, 0);
    Mul2RowStored(a, b[j], j, |a| + |b|, row);
    assert storeHigh || RowsFit(a, b) ==>
      Val(if storeHigh then row.limbs[j + |a| := row.carry as Limb] else row.limbs) == Val(a) * b[j] * BPow(j) by {
      if storeHigh || RowsFit(a, b) {
        Mul2RowValue(a, b, j, storeHigh, row);
      }
    }
    if storeHigh then row.limbs[j + |a| := row.carry as Limb] else row.limbs
  }

  /** A product of three naturals is a natural. */
  lemma ProductNonNegative(x: nat, y: nat, z: nat)
    ensures x * y * z >= 0
  {
    MulLe(0, x, y);
    MulLe(0, x * y, z);
  }

  /** Adding row j to the accumulator leaves the rows after it to be added. */
  lemma Mul2RowsStep(a: seq<Limb>, b: seq<Limb>, accum: seq<Limb>, j: nat, tmp: seq<Limb>)
    requires j < |b| && |a| + |b| <= |accum| && |tmp| == |a| + |b|
    requires Val(tmp) == Val(a) * b[j] * BPow(j)
    requires Val(accum) + Val(a) * Val(b[j..]) * BPow(j) < BPow(|a| + |b|)
    ensures Val(Accumulate(accum, tmp)) + Val(a) * Val(b[j + 1..]) * BPow(j + 1)
         == Val(accum) + Val(a) * Val(b[j..]) * BPow(j)
  {
    RowsAdvance(a, b, j);
    ProductNonNegative(Val(a), Val(b[j + 1..]), BPow(j + 1));
    assert Val(tmp) + Val(a) * Val(b[j + 1..]) * BPow(j + 1) == Val(a) * Val(b[j..]) * BPow(j);
    assert Val(a) * Val(b[j + 1..]) * BPow(j + 1) >= 0;
    assert Val(accum) + Val(a) * Val(b[j..]) * BPow(j) < BPow(|tmp|);
    RowsLink(Val(accum), Val(tmp), Val(a) * Val(b[j + 1..]) * BPow(j + 1), Val(a) * Val(b[j..]) * BPow(j),
             BPow(|tmp|), Val(Accumulate(accum, tmp)));
    assert |tmp| <= |accum|;
    assert Val(accum) + Val(tmp) < BPow(|tmp|);
  }

  /** The arithmetic of one outer step: add row t, leaving the rest to come. */
  lemma RowsLink(acc: int, t: int, rest: int, all: int, bound: int, sum: int)
    requires t + rest == all && rest >= 0 && acc + all < bound
    ensures acc + t < bound
    ensures sum == acc + t ==> sum + rest == acc + all
  {
  }

  /**
   * The outer loop of mul2 from row j on. With storeHigh false it is the
   * loop as written, which leaves each row's last high word out of tmp;
   * with storeHigh true it stores that word at limb j + N1.
   */
  function Mul2Rows(a: seq<Limb>, b: seq<Limb>, accum: seq<Limb>, j: nat, storeHigh: bool): (r: seq<Limb>)
    requires j <= |b| && |a| + |b| <= |accum|
    ensures |r| == |accum|
    decreases |b| - j
  {
    if j == |b| then
      accum
    else
      Mul2Rows(a, b, Accumulate(accum, Mul2Tmp(a, b, j, storeHigh)), j + 1, storeHigh)
  }

  /**
   * When every row's tmp is complete (the high word is stored, or it is
   * zero) and the product fits, the rows from j on add a * b[j..] * 2^(64j).
   */
  lemma {:induction false} Mul2RowsValue(a: seq<Limb>, b: seq<Limb>, accum: seq<Limb>, j: nat, storeHigh: bool)
    requires j <= |b| && |a| + |b| <= |accum|
    requires storeHigh || RowsFit(a, b)
    requires Val(accum) + Val(a) * Val(b[j..]) * BPow(j) < BPow(|a| + |b|)
    ensures Val(Mul2Rows(a, b, accum, j, storeHigh)) == Val(accum) + Val(a) * Val(b[j..]) * BPow(j)
    decreases |b| - j
  {
    if j == |b| {
      assert b[j..] == [];
    } else {
      var tmp := Mul2Tmp(a, b, j, storeHigh);
      Mul2RowsStep(a, b, accum, j, tmp);
      ProductNonNegative(Val(a), Val(b[j + 1..]), BPow(j + 1));
      Mul2RowsValue(a, b, Accumulate(accum, tmp), j + 1, storeHigh);
    }
  }

  /** Before the first row the accumulator is zero and the whole product is still to come. */
  lemma RowsStart(a: seq<Limb>, b: seq<Limb>, padding: nat)
    ensures Val(Zeros(|a| + |b| + padding)) + Val(a) * Val(b[0..]) * BPow(0) == Val(a) * Val(b)
    ensures Val(a) * Val(b) < BPow(|a| + |b|)
  {
    assert b[0..] == b;
    ProductFits(a, b);
  }

  /** mul2<padding>(a, b) as written: each row's last high word is dropped. */
  function Mul2(a: seq<Limb>, b: seq<Limb>, padding: nat): (r: seq<Limb>)
    ensures |r| == |a| + |b| + padding
    ensures RowsFit(a, b) ==> Val(r) == Val(a) * Val(b)
  {
    assert RowsFit(a, b) ==> Val(Mul2Rows(a, b, Zeros(|a| + |b| + padding), 0, false)) == Val(a) * Val(b) by {
      if RowsFit(a, b) {
        RowsStart(a, b, padding);
        Mul2RowsValue(a, b, Zeros(|a| + |b| + padding), 0, false);
      }
    }
    Mul2Rows(a, b, Zeros(|a| + |b| + padding), 0, false)
  }

  /** mul2 with each row's last high word stored at limb j + N1: always the full product. */
  function Mul2Corrected(a: seq<Limb>, b: seq<Limb>, padding: nat): (r: seq<Limb>)
    ensures |r| == |a| + |b| + padding
    ensures Val(r) == Val(a) * Val(b)
  {
    RowsStart(a, b, padding);
    Mul2RowsValue(a, b, Zeros(|a| + |b| + padding), 0, true);
    Mul2Rows(a, b, Zeros(|a| + |b| + padding), 0, true)
  }

  /**
   * The corrected mul2 agrees with mul, and so does mul2 as written
   * whenever every row fits.
   */
  lemma Mul2IsMul(a: seq<Limb>, b: seq<Limb>, padding: nat)
    ensures Mul2Corrected(a, b, padding) == Mul(a, b, padding)
    ensures RowsFit(a, b) ==> Mul2(a, b, padding) == Mul(a, b, padding)
  {
    ValInjective(Mul2Corrected(a, b, padding), Mul(a, b, padding));
    if RowsFit(a, b) {
      ValInjective(Mul2(a, b, padding), Mul(a, b, padding));
    }
  }

  /**
   * (2^64 - 1)^2 = (2^64 - 2) 2^64 + 1. The single row of mul2 leaves the
   * high word 2^64 - 2 in high and never stores it, so mul2 as written
   * returns 1 where mul returns the full product.
   */
  lemma Mul2DropsHighWord()
    ensures Val(Mul2([BASE - 1], [BASE - 1], 0)) == 1
    ensures Val(Mul([BASE - 1], [BASE - 1], 0)) == (BASE - 1) * (BASE - 1)
    ensures !RowsFit([BASE - 1], [BASE - 1])
  {
    var a: seq<Limb> := [BASE - 1];
    var s := Mul2Step(BASE - 1, BASE - 1, 0);
    assert s.word == 1 by {
      DivModUnique((BASE - 1) * (BASE - 1), BASE, BASE - 2, 1);
      DivModUnique((BASE - 1) * (BASE - 1), BASE, s.carry, s.word);
    }
    var z := Zeros(2);
    assert z == [0, 0];
    var row := Mul2RowFrom(a, BASE - 1, z, 0, 0, 0);
    assert row == Mul2RowFrom(a, BASE - 1, z[0 := s.word], 0, 1, s.carry);
    assert row == Chain(z[0 := s.word], s.carry);
    var tmp := Mul2Tmp(a, a, 0, false);
    assert tmp == [1, 0];
    TwoLimbValue(1, 0);
    BPowSucc(1);
    BPowSucc(0);
    var acc := Accumulate(z, tmp);
    assert Val(acc) == 1;
    assert Mul2Rows(a, a, acc, 1, false) == acc;
    assert Mul2([BASE - 1], [BASE - 1], 0) == acc;
    ValSingle(BASE - 1);
    assert Val(a) * a[0] >= BPow(1);
  }

  // Concrete vectors from the library's unit tests

  /** Value of a two-limb number and of its four-limb zero extension. */
  lemma TwoAndFour(lo: Limb, hi: Limb, x: Limb, y: Limb)
    ensures Val([lo, hi]) == lo + BASE * hi
    ensures Val([lo, hi, x, y]) == lo + BASE * hi + BASE * BASE * x + BASE * BASE * BASE * y
  {
    ValCons(lo, [hi]);
    ValSingle(hi);
    assert [lo, hi] == [lo] + [hi];
    ValCons(y, []);
    ValCons(x, [y]);
    ValCons(hi, [x, y]);
    ValCons(lo, [hi, x, y]);
    assert [x, y] == [x] + [y] && [hi, x, y] == [hi] + [x, y] && [lo, hi, x, y] == [lo] + [hi, x, y];
    var v2 := x + BASE * y;
    var v3 := hi + BASE * v2;
    Distrib(BASE, x, BASE * y);
    MulAssoc(BASE, BASE, y);
    Distrib(BASE, hi, BASE * v2);
    MulAssoc(BASE, BASE, v2);
    Distrib(BASE * BASE, x, BASE * y);
    MulAssoc(BASE * BASE, BASE, y);
  }

  /** mul on the first multiplication test. */
  lemma MulVector()
    ensures Mul([9223372036854753777, 0], [51461, 0], 0) == [9223372035721038517, 25730, 0, 0]
  {
    TwoAndFour(9223372036854753777, 0, 0, 0);
    TwoAndFour(51461, 0, 0, 0);
    TwoAndFour(9223372035721038517, 25730, 0, 0);
    ValInjective(Mul([9223372036854753777, 0], [51461, 0], 0), [9223372035721038517, 25730, 0, 0]);
  }

  /** mul and mul2 on the second multiplication test; every row of mul2 fits. */
  lemma Mul2Vector()
    ensures Mul([151, 23], [8712364, 832176], 0) == [1315566964, 326042948, 19140048, 0]
    ensures Mul2([151, 23], [8712364, 832176], 0) == [1315566964, 326042948, 19140048, 0]
  {
    var a: seq<Limb> := [151, 23];
    var b: seq<Limb> := [8712364, 832176];
    TwoAndFour(151, 23, 0, 0);
    TwoAndFour(8712364, 832176, 0, 0);
    TwoAndFour(1315566964, 326042948, 19140048, 0);
    BPowSucc(1);
    BPowSucc(0);
    assert RowsFit(a, b);
    ValInjective(Mul(a, b, 0), [1315566964, 326042948, 19140048, 0]);
    Mul2IsMul(a, b, 0);
  }
}
