/**
 * A big_int<N, uint64_t> is an array of N machine words, least
 * significant first. The model keeps the words as a sequence of limbs,
 * each a natural number below 2^64, and reads the sequence as the number
 * Val(s) = s[0] + 2^64 * s[1] + ... + 2^(64(N-1)) * s[N-1].
 */
module Limbs {
  import opened Arith

  /** The radix: one limb holds 64 bits. */
  const BASE: nat := 0x1_0000_0000_0000_0000
  const LIMB_BITS: nat := 64

  type Limb = x: nat | x < BASE

  /** The number a limb sequence denotes (little-endian). */
  function Val(s: seq<Limb>): nat
  {
    if |s| == 0 then 0 else s[0] + BASE * Val(s[1..])
  }

  /** 2^(64n), the first number that does not fit in n limbs. */
  function BPow(n: nat): (r: nat)
    ensures r > 0
  {
    Pow(BASE, n)
  }

  /** n limbs that are all zero. */
  function Zeros(n: nat): (r: seq<Limb>)
    ensures |r| == n
    ensures forall i :: 0 <= i < n ==> r[i] == 0
    ensures Val(r) == 0
  {
    if n == 0 then [] else [0] + Zeros(n - 1)
  }

  /** The n-limb representation of v mod 2^(64n). */
  function ToLimbs(v: nat, n: nat): (r: seq<Limb>)
    ensures |r| == n
    ensures Val(r) == v % BPow(n)
  {
    if n == 0 then [] else
      var rest := ToLimbs(v / BASE, n - 1);
      assert Val([v % BASE] + rest) == v % BASE + BASE * Val(rest) by {
        assert ([v % BASE] + rest)[1..] == rest;
      }
      DivDiv(v, BASE, BPow(n - 1));
      [v % BASE] + rest
  }

  lemma BPowPositive(n: nat)
    ensures BPow(n) > 0
  {
    PowPositive(BASE, n);
  }

  lemma BPowSucc(n: nat)
    ensures BPow(n + 1) == BASE * BPow(n)
  {
  }

  lemma BPowAdd(m: nat, n: nat)
    ensures BPow(m + n) == BPow(m) * BPow(n)
  {
    PowAdd(BASE, m, n);
  }

  lemma BPowMonotone(m: nat, n: nat)
    requires m <= n
    ensures BPow(m) <= BPow(n)
  {
    PowMonotone(BASE, m, n);
  }

  lemma BPowStrict(m: nat, n: nat)
    requires m < n
    ensures BPow(m) < BPow(n)
  {
    PowStrict(BASE, m, n);
  }

  /** 2^(64n) as a power of two. */
  lemma BPowBits(n: nat)
    ensures BPow(n) == Pow(2, LIMB_BITS * n)
  {
    PowMul(2, LIMB_BITS, n);
    Pow2To64();
  }

  /** n limbs hold exactly the numbers below 2^(64n). */
  lemma ValBound(s: seq<Limb>)
    ensures Val(s) < BPow(|s|)
  {
    if |s| > 0 {
      ValBound(s[1..]);
      MulLe(Val(s[1..]), BPow(|s| - 1) - 1, BASE);
    }
  }

  /** Concatenation places the high part above the low part. */
  lemma {:induction false} ValAppend(lo: seq<Limb>, hi: seq<Limb>)
    ensures Val(lo + hi) == Val(lo) + BPow(|lo|) * Val(hi)
  {
    if |lo| > 0 {
      var s := lo + hi;
      assert s[0] == lo[0] && s[1..] == lo[1..] + hi;
      ValAppend(lo[1..], hi);
      BPowSucc(|lo| - 1);
      AppendStep(lo[0], Val(lo[1..]), BPow(|lo| - 1), Val(hi));
    } else {
      assert lo + hi == hi;
    }
  }

  /** The arithmetic of one ValAppend step. */
  lemma AppendStep(d: int, x: int, p: int, h: int)
    ensures d + BASE * (x + p * h) == (d + BASE * x) + (BASE * p) * h
  {
    Distrib(BASE, x, p * h);
    MulAssoc(BASE, p, h);
  }

  /** Cutting at limb i separates the value into a low and a high part. */
  lemma ValSplit(s: seq<Limb>, i: nat)
    requires i <= |s|
    ensures Val(s) == Val(s[..i]) + BPow(i) * Val(s[i..])
    ensures Val(s[..i]) == Val(s) % BPow(i)
    ensures Val(s[i..]) == Val(s) / BPow(i)
  {
    assert s == s[..i] + s[i..];
    ValAppend(s[..i], s[i..]);
    ValBound(s[..i]);
    CutDivMod(Val(s), Val(s[..i]), Val(s[i..]), BPow(i));
  }

  /** x = lo + p * hi with lo below p: lo is the residue, hi the quotient. */
  lemma CutDivMod(x: int, lo: int, hi: int, p: int)
    requires 0 <= lo < p && x == lo + p * hi
    ensures x % p == lo && x / p == hi
  {
    DivModUnique(x, p, hi, lo);
  }

  /** Adding one limb on top. */
  lemma ValPush(s: seq<Limb>, x: Limb)
    ensures Val(s + [x]) == Val(s) + x * BPow(|s|)
  {
    ValAppend(s, [x]);
    ValSingle(x);
  }

  /** The value of a prefix grows by one limb at a time. */
  lemma ValPrefix(s: seq<Limb>, i: nat)
    requires i < |s|
    ensures Val(s[..i + 1]) == Val(s[..i]) + s[i] * BPow(i)
  {
    assert s[..i + 1] == s[..i] + [s[i]];
    ValPush(s[..i], s[i]);
  }

  /** The most significant limb contributes s[n-1] * 2^(64(n-1)). */
  lemma ValTop(s: seq<Limb>)
    requires |s| > 0
    ensures Val(s) == Val(s[..|s| - 1]) + s[|s| - 1] * BPow(|s| - 1)
  {
    ValPrefix(s, |s| - 1);
    assert s[..|s|] == s;
  }

  /** Zero limbs on top do not change the value. */
  lemma ValZeroExtend(s: seq<Limb>, n: nat)
    ensures Val(s + Zeros(n)) == Val(s)
  {
    ValAppend(s, Zeros(n));
  }

  /** Limb i is digit i of the value in radix 2^64. */
  lemma ValLimb(s: seq<Limb>, i: nat)
    requires i < |s|
    ensures s[i] == (Val(s) / BPow(i)) % BASE
  {
    ValSplit(s, i);
    var t := s[i..];
    assert t[0] == s[i];
    DivAddMultiple(t[0], Val(t[1..]), BASE);
    ModOfSmall(t[0], BASE);
  }

  /** Equal-length limb sequences with equal values are equal. */
  lemma ValInjective(a: seq<Limb>, b: seq<Limb>)
    requires |a| == |b| && Val(a) == Val(b)
    ensures a == b
  {
    forall i | 0 <= i < |a|
      ensures a[i] == b[i]
    {
      ValLimb(a, i);
      ValLimb(b, i);
    }
  }

  /** ToLimbs undoes Val. */
  lemma ToLimbsOfVal(s: seq<Limb>)
    ensures ToLimbs(Val(s), |s|) == s
  {
    ValBound(s);
    ModOfSmall(Val(s), BPow(|s|));
    ValInjective(ToLimbs(Val(s), |s|), s);
  }

  /** Val undoes ToLimbs on numbers that fit. */
  lemma ValOfToLimbs(v: nat, n: nat)
    requires v < BPow(n)
    ensures Val(ToLimbs(v, n)) == v
  {
    ModOfSmall(v, BPow(n));
  }

  /** Overwriting limb p replaces its contribution s[p] * 2^(64p). */
  lemma ValUpdate(s: seq<Limb>, p: nat, x: Limb)
    requires p < |s|
    ensures Val(s[p := x]) == Val(s) - s[p] * BPow(p) + x * BPow(p)
  {
    var t := s[p := x];
    ValSplit(s, p);
    ValSplit(t, p);
    assert t[..p] == s[..p];
    var hs, ht := s[p..], t[p..];
    assert hs[1..] == ht[1..];
    assert hs[0] == s[p] && ht[0] == x;
    Distrib(BPow(p), hs[0], BASE * Val(hs[1..]));
    Distrib(BPow(p), ht[0], BASE * Val(ht[1..]));
  }

  /** Adding one limb at the bottom. */
  lemma ValCons(x: Limb, s: seq<Limb>)
    ensures Val([x] + s) == x + BASE * Val(s)
  {
    assert ([x] + s)[1..] == s;
  }

  /** The value of a single limb. */
  lemma ValSingle(x: Limb)
    ensures Val([x]) == x
  {
    assert [x][1..] == [];
  }
}
