/**
 * Decimal literals: the characters of an integer literal turned into
 * limbs at compile time (chars_to_big_int), and the _Z suffix, which
 * keeps the limbs up to the tight length and one limb for zero.
 */
module DecimalLiterals {
  import opened Arith
  import opened Limbs
  import opened Utility
  import opened Addition
  import opened Mult
  import opened Power

  predicate IsDigit(c: char)
  {
    '0' <= c <= '9'
  }

  predicate AllDigits(s: string)
  {
    forall i :: 0 <= i < |s| ==> IsDigit(s[i])
  }

  /** The digit a character stands for: its code minus 48. */
  function Digit(c: char): (d: nat)
    requires IsDigit(c)
    ensures d < 10
  {
    (c as int) - 48
  }

  /** The number a string of decimal digits denotes, most significant digit first. */
  function DecimalValue(s: string): nat
    requires AllDigits(s)
  {
    if s == [] then 0 else 10 * DecimalValue(s[..|s| - 1]) + Digit(s[|s| - 1])
  }

  /**
   * Writing t after s: the digits of s move up by |t| decimal places.
   * With s a single digit this is the step of the right-to-left loop.
   */
  lemma {:induction false} DecimalConcat(s: string, t: string)
    requires AllDigits(s) && AllDigits(t)
    ensures AllDigits(s + t)
    ensures DecimalValue(s + t) == DecimalValue(s) * Pow(10, |t|) + DecimalValue(t)
    decreases |t|
  {
    assert AllDigits(s + t) by {
      forall i | 0 <= i < |s + t|
        ensures IsDigit((s + t)[i])
      {
        if i >= |s| {
          assert (s + t)[i] == t[i - |s|];
        }
      }
    }
    if t == [] {
      assert s + t == s;
    } else {
      var t' := t[..|t| - 1];
      assert AllDigits(t');
      assert (s + t)[..|s + t| - 1] == s + t';
      DecimalConcat(s, t');
      MulAssoc(DecimalValue(s), Pow(10, |t'|), 10);
      Distrib(10, DecimalValue(s) * Pow(10, |t'|), DecimalValue(t'));
    }
  }

  /** k decimal digits denote a number below 10^k. */
  lemma {:induction false} DecimalBound(s: string)
    requires AllDigits(s)
    ensures DecimalValue(s) < Pow(10, |s|)
    decreases |s|
  {
    if s != [] {
      var s' := s[..|s| - 1];
      assert AllDigits(s');
      DecimalBound(s');
      MulLe(DecimalValue(s') + 1, Pow(10, |s'|), 10);
    }
  }

  /** 10^3 < 2^10, so k decimal digits need fewer than 10k/3 + 1 bits. */
  lemma {:induction false} TenPowBits(k: nat)
    ensures Pow(10, k) < Pow(2, (10 * k) / 3 + 1)
    decreases k
  {
    if k == 0 {
    } else if k == 1 {
      assert Pow(2, 4) == 16;
    } else if k == 2 {
      assert Pow(10, 2) == 100;
      assert Pow(2, 7) == 128;
    } else {
      var e := (10 * (k - 3)) / 3 + 1;
      TenPowBits(k - 3);
      PowAdd(10, 3, k - 3);
      PowAdd(2, 10, e);
      assert (10 * k) / 3 + 1 == 10 + e;
      assert Pow(10, 3) == 1000;
      assert Pow(2, 10) == 1024;
      PowPositive(10, k - 3);
      MulLt(Pow(10, k - 3), Pow(2, e), 1000);
      MulLe(1000, 1024, Pow(2, e));
    }
  }

  /** The limb count of chars_to_big_int: max(L, 1 + 10 len / (3 * 64)). */
  function LimbCount(len: nat, l: nat): (n: nat)
    ensures n >= l && n >= 1 + (10 * len) / 192
  {
    var needed := 1 + (10 * len) / 192;
    if l < needed then needed else l
  }

  /** 1 + 10 len / 192 limbs hold 10^len, so no step of the loop wraps. */
  lemma TenPowFits(len: nat, n: nat)
    requires n >= 1 + (10 * len) / 192
    ensures Pow(10, len) < BPow(n)
  {
    var q := (10 * len) / 192;
    var r := 10 * len - 192 * q;
    assert 0 <= r < 192;
    assert (10 * len) / 3 == 64 * q + r / 3 by {
      DivModUnique(10 * len, 3, 64 * q + r / 3, r % 3);
    }
    TenPowBits(len);
    PowMonotone(2, (10 * len) / 3 + 1, LIMB_BITS * n);
    BPowBits(n);
  }

  /**
   * chars_to_big_int<T, L>(chars): the digits are read from the last one
   * back, adding digit * 10^k to num and multiplying the power of ten by
   * 10, both truncated to N limbs. N is large enough that nothing is
   * truncated: the limbs hold the decimal value exactly, and may have
   * zero limbs on top.
   */
  method CharsToBigInt(digits: string, l: nat) returns (num: seq<Limb>)
    requires AllDigits(digits)
    ensures |num| == LimbCount(|digits|, l)
    ensures Val(num) == DecimalValue(digits)
  {
    var len := |digits|;
    var n := LimbCount(len, l);
    TenPowFits(len, n);
    num := Zeros(n);
    var power := One(n);
    var i := len;
    assert digits[len..] == [];
    while i > 0
      invariant 0 <= i <= len
      invariant |num| == n && |power| == n
      invariant AllDigits(digits[i..])
      invariant Val(num) == DecimalValue(digits[i..])
      invariant Val(power) == Pow(10, len - i)
    {
      i := i - 1;
      var d: Limb := Digit(digits[i]);
      DigitStep(digits, i, len, n);
      var term := PartialMul([d], power, n);
      var next := PartialMul([10], power, n);
      ScaledPower(d, power, term, len - 1 - i, n);
      ScaledPower(10, power, next, len - 1 - i, n);
      num := AddExact(num, term, DecimalValue(digits[i..]), n);
      power := next;
    }
    assert digits[0..] == digits;
  }

  /** partial_mul<N>({c}, 10^k) is c * 10^k when that fits in N limbs. */
  lemma ScaledPower(c: Limb, power: seq<Limb>, t: seq<Limb>, k: nat, n: nat)
    requires |power| == n && Val(power) == Pow(10, k) && c * Pow(10, k) < BPow(n)
    requires t == PartialMul([c], power, n)
    ensures Val(t) == c * Pow(10, k)
  {
    ValSingle(c);
    NoWrap(Val([c]), Val(power), c, Pow(10, k), BPow(n), Val(t));
  }

  /** A product below the modulus is its own residue. */
  lemma NoWrap(a: nat, b: nat, a': nat, b': nat, m: nat, r: nat)
    requires a == a' && b == b' && a' * b' < m && r == (a * b) % m
    ensures r == a' * b'
  {
    ModOfSmall(a * b, m);
  }

  /** add_ignore_carry of two numbers whose sum v fits: the sum itself. */
  function AddExact(a: seq<Limb>, b: seq<Limb>, v: nat, n: nat): (r: seq<Limb>)
    requires |a| == |b| == n && Val(a) + Val(b) == v && v < BPow(n)
    ensures |r| == n && Val(r) == v
  {
    MpAddIgnoreLastCarry(a, b)
  }

  /** One round of the loop: digit i joins the suffix after it without leaving n limbs. */
  lemma DigitStep(digits: string, i: nat, len: nat, n: nat)
    requires AllDigits(digits) && len == |digits| && i < len
    requires Pow(10, len) < BPow(n)
    ensures AllDigits(digits[i + 1..]) && AllDigits(digits[i..])
    ensures DecimalValue(digits[i..]) == Digit(digits[i]) * Pow(10, len - 1 - i) + DecimalValue(digits[i + 1..])
    ensures DecimalValue(digits[i..]) < BPow(n)
    ensures Digit(digits[i]) * Pow(10, len - 1 - i) < BPow(n)
    ensures 10 * Pow(10, len - 1 - i) < BPow(n)
  {
    assert AllDigits(digits[i + 1..]);
    assert digits[i..] == [digits[i]] + digits[i + 1..];
    DecimalConcat([digits[i]], digits[i + 1..]);
    assert DecimalValue([digits[i]]) == Digit(digits[i]) by {
      assert [digits[i]][..0] == [];
    }
    DecimalBound(digits[i..]);
    PowMonotone(10, len - i, len);
    MulLe(0, Digit(digits[i]), Pow(10, len - 1 - i));
  }

  /**
   * The shortest limb sequence for v: one limb for zero, otherwise the
   * limbs up to the most significant nonzero one.
   */
  function MinimalLimbs(v: nat): (r: seq<Limb>)
    ensures Val(r) == v
    ensures v == 0 ==> r == [0]
    ensures v > 0 ==> IsTight(r)
    decreases v
  {
    if v < BASE then
      ValSingle(v);
      [v]
    else
      var rest := MinimalLimbs(v / BASE);
      ValCons(v % BASE, rest);
      [v % BASE] + rest
  }

  /**
   * The _Z literal suffix: the digits converted in len limbs, the first
   * 1 + 10 len / 192 of them kept, then cut to the tight length, with one
   * limb kept when the number is zero. The result is the shortest limb
   * sequence for the decimal value.
   */
  method ZLiteral(digits: string) returns (r: seq<Limb>)
    requires AllDigits(digits)
    ensures Val(r) == DecimalValue(digits)
    ensures r == MinimalLimbs(DecimalValue(digits))
  {
    var len := |digits|;
    var full := CharsToBigInt(digits, len);
    var n := 1 + (10 * len) / 192;
    TenPowFits(len, n);
    DecimalBound(digits);
    var num := full[..n];
    ValSplit(full, n);
    ValBound(num);
    assert Val(num) == Val(full) by {
      AtMostValue(Val(num), BPow(n), Val(full[n..]), Val(full));
    }
    var l := PackTightLength(num);
    TightLengthValue(num);
    if Val(num) == 0 {
      l := l + 1;
    }
    r := num[..l];
    ShortestIsMinimal(r, num, Val(num));
  }

  /** x = lo + p hi with lo < p and x < p forces hi = 0. */
  lemma AtMostValue(lo: nat, p: nat, hi: nat, x: nat)
    requires x == lo + p * hi && lo < p && x < p
    ensures hi == 0
  {
    if hi > 0 {
      MulLe(1, hi, p);
    }
  }

  /** A prefix cut at the tight length (one limb for zero) is the minimal sequence. */
  lemma ShortestIsMinimal(r: seq<Limb>, num: seq<Limb>, v: nat)
    requires Val(num) == v && |num| >= 1
    requires Val(num[..TightLength(num)]) == Val(num)
    requires TightLength(num) == 0 <==> v == 0
    requires r == num[..if v == 0 then TightLength(num) + 1 else TightLength(num)]
    ensures Val(r) == v && r == MinimalLimbs(v)
  {
    var l := TightLength(num);
    if v == 0 {
      assert r == [num[0]];
      assert num[0] == 0;
      ValSingle(0);
    } else {
      assert r == num[..l];
      TightInjective(r, MinimalLimbs(v));
    }
  }

  /** The number of the initialization test and its three limbs. */
  lemma InitializationVector(v: nat)
    requires v == 6513020836420374401749667047018991798096360820
    ensures MinimalLimbs(v) == [1315566964, 326042948, 19140048]
  {
    ValSingle(19140048);
    ValCons(326042948, [19140048]);
    ValCons(1315566964, [326042948, 19140048]);
    TightInjective(MinimalLimbs(v), [1315566964, 326042948, 19140048]);
  }
}
