/**
 * Carry and borrow chains: mp_sub, mp_sub_carry_out,
 * mp_add_ignore_last_carry, mod_add, accumulate, and the carry-out add
 * of verification/add.cpp. Every limb step does two wrapping 64-bit
 * operations and derives the next carry (or borrow) from two comparisons.
 */
module Addition {
  import opened Arith
  import opened Limbs
  import opened Slicing
  import opened RelationalOps

  /** One step of a carry or borrow chain: the result word and the carry (or borrow) out. */
  datatype Step = Step(word: Limb, carry: nat)

  /** The result limbs of a chain and its final carry (or borrow). */
  datatype Chain = Chain(limbs: seq<Limb>, carry: nat)

  /**
   * sum = aa + b (wrapping), res = sum + carry (wrapping),
   * carry' = (sum < aa) | (res < sum): the two comparisons together give
   * the exact carry of aa + b + carry.
   */
  function AddStep(aa: Limb, b: Limb, carry: nat): (s: Step)
    requires carry <= 1
    ensures s.carry <= 1
    ensures s.word + BASE * s.carry == aa + b + carry
  {
    var sum := (aa + b) % BASE;
    var res := (sum + carry) % BASE;
    Step(res, if sum < aa || res < sum then 1 else 0)
  }

  /**
   * diff = aa - b (wrapping), res = diff - borrow (wrapping),
   * borrow' = (diff > aa) | (res > diff): the exact borrow of
   * aa - b - borrow.
   */
  function SubStep(aa: Limb, b: Limb, borrow: nat): (s: Step)
    requires borrow <= 1
    ensures s.carry <= 1
    ensures s.word - BASE * s.carry == aa - b - borrow
  {
    var diff := (aa - b) % BASE;
    var res := (diff - borrow) % BASE;
    Step(res, if diff > aa || res > diff then 1 else 0)
  }

  /** Prepending a limb to a chain's limbs and its carry weight. */
  lemma ChainValue(lo: Limb, x: int, n: nat)
    requires n > 0
    ensures lo + BASE * (x + BPow(n - 1)) == lo + BASE * x + BPow(n)
  {
    BPowSucc(n - 1);
  }

  /**
   * The addition loop over limbs 0..N-1, entered with a carry. The final
   * carry, 0 or 1, stands for 2^(64N).
   */
  function AddChain(a: seq<Limb>, b: seq<Limb>, carry: nat): (c: Chain)
    requires |a| == |b| && carry <= 1
    ensures |c.limbs| == |a| && c.carry <= 1
    ensures c.carry == 0 ==> Val(c.limbs) == Val(a) + Val(b) + carry
    ensures c.carry == 1 ==> Val(c.limbs) + BPow(|a|) == Val(a) + Val(b) + carry
  {
    if |a| == 0 then Chain([], carry)
    else
      var s := AddStep(a[0], b[0], carry);
      var rest := AddChain(a[1..], b[1..], s.carry);
      ValCons(s.word, rest.limbs);
      ValCons(a[0], a[1..]);
      assert a == [a[0]] + a[1..];
      ValCons(b[0], b[1..]);
      assert b == [b[0]] + b[1..];
      ChainValue(s.word, Val(rest.limbs), |a|);
      Chain([s.word] + rest.limbs, rest.carry)
  }

  /**
   * The subtraction loop over limbs 0..N-1, entered with a borrow. The
   * final borrow, 0 or 1, stands for 2^(64N).
   */
  function SubChain(a: seq<Limb>, b: seq<Limb>, borrow: nat): (c: Chain)
    requires |a| == |b| && borrow <= 1
    ensures |c.limbs| == |a| && c.carry <= 1
    ensures c.carry == 0 ==> Val(c.limbs) == Val(a) - Val(b) - borrow
    ensures c.carry == 1 ==> Val(c.limbs) - BPow(|a|) == Val(a) - Val(b) - borrow
  {
    if |a| == 0 then Chain([], borrow)
    else
      var s := SubStep(a[0], b[0], borrow);
      var rest := SubChain(a[1..], b[1..], s.carry);
      ValCons(s.word, rest.limbs);
      ValCons(a[0], a[1..]);
      assert a == [a[0]] + a[1..];
      ValCons(b[0], b[1..]);
      assert b == [b[0]] + b[1..];
      ChainValue(s.word, Val(rest.limbs) - BPow(|a| - 1), |a|);
      Chain([s.word] + rest.limbs, rest.carry)
  }

  /** A chain result that fits in n limbs is the true result reduced modulo 2^(64n). */
  lemma WrapValue(v: nat, x: int, n: nat, c: int)
    requires v < BPow(n) && v == x + BPow(n) * c
    ensures v == x % BPow(n)
  {
    DivModUnique(x, BPow(n), -c, v);
  }

  /** mp_sub(a, b): (a - b) mod 2^(64N). */
  function MpSub(a: seq<Limb>, b: seq<Limb>): (r: seq<Limb>)
    requires |a| == |b|
    ensures |r| == |a|
    ensures Val(r) == (Val(a) - Val(b)) % BPow(|a|)
  {
    var c := SubChain(a, b, 0);
    ValBound(c.limbs);
    WrapValue(Val(c.limbs), Val(a) - Val(b), |a|, c.carry);
    c.limbs
  }

  /**
   * mp_sub_carry_out(a, b): the N limbs of mp_sub followed by the final
   * borrow, which is 1 exactly when a < b.
   */
  function MpSubCarryOut(a: seq<Limb>, b: seq<Limb>): (r: seq<Limb>)
    requires |a| == |b|
    ensures |r| == |a| + 1
    ensures r[..|a|] == MpSub(a, b)
    ensures r[|a|] == (if Val(a) < Val(b) then 1 else 0)
  {
    var c := SubChain(a, b, 0);
    ValBound(c.limbs);
    ValBound(a);
    ValBound(b);
    var top: Limb := c.carry;
    assert (c.limbs + [top])[..|a|] == c.limbs;
    c.limbs + [top]
  }

  /**
   * subtract(a, b), called by the division code but not defined in the
   * headers modelled here: both operands are zero-extended to
   * L = max(|a|, |b|) limbs, limbs 0..L-1 hold the difference modulo
   * 2^(64L) and limb L holds the final borrow, as in mp_sub_carry_out.
   */
  function Subtract(a: seq<Limb>, b: seq<Limb>): (r: seq<Limb>)
    ensures |r| == (if |a| < |b| then |b| else |a|) + 1
    ensures Val(a) >= Val(b) ==> Val(r) == Val(a) - Val(b) && r[|r| - 1] == 0
    ensures Val(a) < Val(b) ==> Val(r[..|r| - 1]) == BPow(|r| - 1) + Val(a) - Val(b) && r[|r| - 1] == 1
  {
    var n := if |a| < |b| then |b| else |a|;
    var c := SubChain(Pad(a, n - |a|), Pad(b, n - |b|), 0);
    var borrow: Limb := c.carry;
    BorrowOut(c.limbs, borrow, Val(a), Val(b), n);
    c.limbs + [borrow]
  }

  /**
   * An n-limb borrow chain with its final borrow appended: the exact
   * difference when a >= b, and otherwise the wrapped difference below a
   * borrow of 1.
   */
  lemma BorrowOut(limbs: seq<Limb>, borrow: Limb, a: nat, b: nat, n: nat)
    requires |limbs| == n && borrow <= 1
    requires borrow == 0 ==> Val(limbs) == a - b
    requires borrow == 1 ==> Val(limbs) - BPow(n) == a - b
    ensures var r := limbs + [borrow];
      && (a >= b ==> Val(r) == a - b && r[n] == 0)
      && (a < b ==> Val(r[..n]) == BPow(n) + a - b && r[n] == 1)
  {
    ValBound(limbs);
    ValPush(limbs, borrow);
    assert (limbs + [borrow])[..n] == limbs;
  }

  /** mp_add_ignore_last_carry(a, b): (a + b) mod 2^(64N). */
  function MpAddIgnoreLastCarry(a: seq<Limb>, b: seq<Limb>): (r: seq<Limb>)
    requires |a| == |b|
    ensures |r| == |a|
    ensures Val(r) < BPow(|a|)
    ensures Val(r) == Val(a) + Val(b) || Val(r) + BPow(|a|) == Val(a) + Val(b)
  {
    var c := AddChain(a, b, 0);
    ValBound(c.limbs);
    c.limbs
  }

  /**
   * add(a, b) from verification/add.cpp: N+1 limbs holding the exact sum;
   * the top limb is the final carry, 0 or 1.
   */
  function Add(a: seq<Limb>, b: seq<Limb>): (r: seq<Limb>)
    requires |a| == |b|
    ensures |r| == |a| + 1
    ensures Val(r) == Val(a) + Val(b)
    ensures r[|a|] <= 1
    ensures r[..|a|] == MpAddIgnoreLastCarry(a, b)
  {
    var c := AddChain(a, b, 0);
    ValPush(c.limbs, c.carry);
    var top: Limb := c.carry;
    assert (c.limbs + [top])[..|a|] == c.limbs;
    c.limbs + [top]
  }

  /**
   * add(a, b) on operands of different lengths, as the invariant-divisor
   * code calls it: both are zero-extended to the longer length, and the
   * result has one limb more than that, holding the exact sum.
   */
  function AddWide(a: seq<Limb>, b: seq<Limb>): (r: seq<Limb>)
    ensures |r| == (if |a| < |b| then |b| else |a|) + 1
    ensures Val(r) == Val(a) + Val(b)
  {
    var n := if |a| < |b| then |b| else |a|;
    Add(Pad(a, n - |a|), Pad(b, n - |b|))
  }

  /** add is commutative, limb for limb. */
  lemma AddCommutes(a: seq<Limb>, b: seq<Limb>)
    requires |a| == |b|
    ensures Add(a, b) == Add(b, a)
  {
    ValInjective(Add(a, b), Add(b, a));
  }

  /**
   * `if (!greater_than(m, r)) r = mp_sub(r, m);`, the guarded subtraction
   * the Barrett and Montgomery reductions end with: m is taken off exactly
   * when r >= m, and nothing wraps.
   */
  function SubtractIfNotBelow(r: seq<Limb>, m: seq<Limb>): (s: seq<Limb>)
    requires |r| == |m|
    ensures |s| == |r|
    ensures Val(r) >= Val(m) ==> Val(s) == Val(r) - Val(m)
    ensures Val(r) < Val(m) ==> s == r
  {
    if !GreaterThan(m, r) then
      ValBound(r);
      ModOfSmall(Val(r) - Val(m), BPow(|r|));
      MpSub(r, m)
    else r
  }

  /**
   * mod_add(a, b, m): add with carry, then subtract m once when the
   * addition carried out or m is not greater than the sum. Whenever
   * a + b < 2m (in particular for a, b < m) the result is (a + b) mod m.
   */
  function ModAdd(a: seq<Limb>, b: seq<Limb>, m: seq<Limb>): (r: seq<Limb>)
    requires |a| == |b| == |m|
    ensures |r| == |a|
    ensures Val(a) + Val(b) < 2 * Val(m) ==>
              Val(r) == (Val(a) + Val(b)) % Val(m) && Val(r) < Val(m)
  {
    var c := AddChain(a, b, 0);
    var r := if c.carry == 1 || !GreaterThan(m, c.limbs) then MpSub(c.limbs, m) else c.limbs;
    ValBound(m);
    ValBound(c.limbs);
    ModAddValue(Val(a) + Val(b), Val(c.limbs), c.carry, Val(m), BPow(|a|), Val(r),
                c.carry == 1 || !GreaterThan(m, c.limbs));
    r
  }

  /**
   * The arithmetic of mod_add: s = a + b, held as lv plus a carry of n;
   * one subtraction of mv (modulo n) is taken when sub holds.
   */
  lemma ModAddValue(s: nat, lv: nat, carry: nat, mv: nat, n: nat, rv: nat, sub: bool)
    requires carry <= 1 && lv < n && mv < n
    requires carry == 0 ==> lv == s
    requires carry == 1 ==> lv + n == s
    requires sub <==> carry == 1 || lv >= mv
    requires sub ==> rv == (lv - mv) % n
    requires !sub ==> rv == lv
    ensures s < 2 * mv ==> rv == s % mv && rv < mv
  {
    if s < 2 * mv {
      if sub {
        assert mv <= s;
        assert lv + n * carry == s;
        assert lv - mv == (s - mv) + n * (-(carry as int));
        DivAddMultiple(s - mv, -(carry as int), n);
        ModOfSmall(s - mv, n);
        DivModUnique(s, mv, 1, s - mv);
      } else {
        DivModUnique(s, mv, 0, s);
      }
    }
  }

  /**
   * The loop of accumulate when accum is the longer operand, entered with
   * a carry: limb-wise add with carry over the N2 limbs of b, then the
   * carry is stored in the next limb and the limbs above stay zero.
   */
  function AccumulateLoop(accum: seq<Limb>, b: seq<Limb>, carry: nat): (r: seq<Limb>)
    requires |accum| > |b| && carry <= 1
    ensures |r| == |accum|
    ensures Val(r) == Val(accum[..|b|]) + Val(b) + carry
    decreases |b|
  {
    if |b| == 0 then
      ValCons(carry, Zeros(|accum| - 1));
      [carry] + Zeros(|accum| - 1)
    else
      var s := AddStep(accum[0], b[0], carry);
      var rest := AccumulateLoop(accum[1..], b[1..], s.carry);
      ValCons(s.word, rest);
      assert accum[..|b|][1..] == accum[1..][..|b| - 1];
      AccumulateStep(accum[..|b|], b, carry, s, rest);
      [s.word] + rest
  }

  /** One step of the accumulate loop, on equal-length slices. */
  lemma AccumulateStep(a: seq<Limb>, b: seq<Limb>, carry: nat, s: Step, rest: seq<Limb>)
    requires |a| == |b| > 0
    requires s.word + BASE * s.carry == a[0] + b[0] + carry
    requires Val(rest) == Val(a[1..]) + Val(b[1..]) + s.carry
    ensures s.word + BASE * Val(rest) == Val(a) + Val(b) + carry
  {
    ValCons(a[0], a[1..]);
    assert a == [a[0]] + a[1..];
    ValCons(b[0], b[1..]);
    assert b == [b[0]] + b[1..];
  }

  /**
   * accumulate(accum, b): the loop runs over min(N1, N2) limbs. For
   * N1 > N2 the carry lands in limb N2 and the limbs of accum at N2 and
   * above are discarded; otherwise the loop is mp_add_ignore_last_carry
   * on the low N1 limbs of b, and the result wraps modulo 2^(64 N1).
   */
  function Accumulate(accum: seq<Limb>, b: seq<Limb>): (r: seq<Limb>)
    ensures |r| == |accum|
    ensures |accum| > |b| ==> Val(r) == Val(accum) % BPow(|b|) + Val(b)
    ensures |accum| <= |b| ==> Val(r) == (Val(accum) + Val(b)) % BPow(|accum|)
    ensures |b| <= |accum| && Val(accum) + Val(b) < BPow(|b|) ==> Val(r) == Val(accum) + Val(b)
  {
    if |accum| > |b| then
      PrefixResidue(accum, |b|);
      assert Val(accum) < BPow(|b|) ==> Val(accum) % BPow(|b|) == Val(accum) by {
        if Val(accum) < BPow(|b|) {
          ModOfSmall(Val(accum), BPow(|b|));
        }
      }
      AccumulateLoop(accum, b, 0)
    else
      var r := MpAddIgnoreLastCarry(accum, b[..|accum|]);
      WrapPrefix(Val(accum), b, |accum|, Val(r));
      r
  }

  /** The low n limbs of s hold s modulo 2^(64n). */
  lemma PrefixResidue(s: seq<Limb>, n: nat)
    requires n <= |s|
    ensures Val(s[..n]) == Val(s) % BPow(n)
  {
    ValSplit(s, n);
  }

  /**
   * Adding only the low n limbs of b, with the carry out of limb n
   * dropped, is adding b modulo 2^(64n).
   */
  lemma WrapPrefix(x: nat, b: seq<Limb>, n: nat, v: nat)
    requires n <= |b| && v < BPow(n)
    requires v == x + Val(b[..n]) || v + BPow(n) == x + Val(b[..n])
    ensures v == (x + Val(b)) % BPow(n)
    ensures n == |b| && x + Val(b) < BPow(n) ==> v == x + Val(b)
  {
    ValSplit(b, n);
    if n == |b| {
      assert b[n..] == [];
    }
    WrapSum(x, Val(b[..n]), Val(b[n..]), BPow(n), v);
  }

  /** The same on plain integers: lo is one limb block, hi the rest. */
  lemma WrapSum(x: nat, lo: nat, hi: nat, p: nat, v: nat)
    requires p > 0 && v < p
    requires v == x + lo || v + p == x + lo
    ensures v == (x + lo + p * hi) % p
    ensures hi == 0 && x + lo < p ==> v == x + lo
  {
    if v == x + lo {
      DivModUnique(x + lo + p * hi, p, hi, v);
    } else {
      assert p * (hi + 1) == p * hi + p;
      DivModUnique(x + lo + p * hi, p, hi + 1, v);
    }
  }

  // Concrete vectors from the library's unit tests

  /** 2^127 + 2^127 mod p with a carry out of the top limb. */
  lemma ModAddVector()
    ensures ModAdd([0, 0x8000_0000_0000_0000], [0, 0x8000_0000_0000_0000],
                   [181, 13835058055282163712])
         == [18446744073709551435, 4611686018427387903]
  {
    var a: seq<Limb> := [0, 0x8000_0000_0000_0000];
    var p: seq<Limb> := [181, 13835058055282163712];
    var want: seq<Limb> := [18446744073709551435, 4611686018427387903];
    TwoLimbValue(0, 0x8000_0000_0000_0000);
    TwoLimbValue(181, 13835058055282163712);
    TwoLimbValue(18446744073709551435, 4611686018427387903);
    ValInjective(ModAdd(a, a, p), want);
  }

  /** p + 0 == 0 mod p: the sum equals the modulus and one subtraction clears it. */
  lemma ModAddOfModulus()
    ensures ModAdd([181, 13835058055282163712], [0, 0], [181, 13835058055282163712]) == [0, 0]
  {
    var p: seq<Limb> := [181, 13835058055282163712];
    TwoLimbValue(181, 13835058055282163712);
    TwoLimbValue(0, 0);
    ValInjective(ModAdd(p, [0, 0], p), [0, 0]);
  }

  /** 15 - 10 == 5; 10 - 15 borrows; (10 - 15 mod 2^128) + 6 == 1. */
  lemma SubtractionVectors()
    ensures MpSub([15, 0], [10, 0]) == [5, 0]
    ensures MpSubCarryOut([10, 0], [15, 0])[2] == 1
    ensures MpAddIgnoreLastCarry(First(MpSubCarryOut([10, 0], [15, 0]), 2), [6, 0])
         == UnaryEncoding(0, 2)
  {
    TwoLimbValue(15, 0);
    TwoLimbValue(10, 0);
    TwoLimbValue(5, 0);
    TwoLimbValue(6, 0);
    TwoLimbValue(1, 0);
    ValInjective(MpSub([15, 0], [10, 0]), [5, 0]);
    var d := MpSubCarryOut([10, 0], [15, 0]);
    assert First(d, 2) == MpSub([10, 0], [15, 0]);
    BPowSucc(1);
    BPowSucc(0);
    ValInjective(MpAddIgnoreLastCarry(First(d, 2), [6, 0]), UnaryEncoding(0, 2));
  }

  lemma TwoLimbValue(lo: Limb, hi: Limb)
    ensures Val([lo, hi]) == lo + BASE * hi
  {
    assert [lo, hi][1..] == [hi];
    ValSingle(hi);
  }
}
