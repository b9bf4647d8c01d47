/**
 * The extended Euclidean algorithm on compile-time limb packs (gcd.hpp):
 * ext_gcd returns the gcd and the two Bezout coefficients, each truncated
 * to N limbs, and mod_inv reads a modular inverse off that triple.
 *
 * Euclid is the reference on unbounded integers; ExtGcdImpl is shown to
 * compute it limb by limb, with the signed coefficients held modulo
 * 2^(64N) as the two's-complement arithmetic of mp_sub and partial_mul
 * leaves them.
 */
module Gcd {
  import opened Arith
  import opened Limbs
  import opened Utility
  import opened Slicing
  import opened RelationalOps
  import opened Addition
  import opened Mult
  import opened Power
  import opened Division

  datatype Option<T> = None | Some(value: T)

  /** d divides x; zero divides only zero. */
  predicate Divides(d: nat, x: int)
  {
    if d == 0 then x == 0 else x % d == 0
  }

  /** g is a greatest common divisor of a and b: a common divisor every common divisor divides. */
  ghost predicate IsGcd(g: nat, a: nat, b: nat)
  {
    Divides(g, a) && Divides(g, b) && forall d: nat :: Divides(d, a) && Divides(d, b) ==> Divides(d, g)
  }

  /** The gcd with two coefficients s and t. */
  datatype Triple = Triple(g: nat, s: int, t: int)

  /** A common divisor of x and y divides k x + y. */
  lemma {:induction false} DividesLinear(d: nat, x: int, y: int, k: int)
    requires Divides(d, x) && Divides(d, y)
    ensures Divides(d, k * x + y)
  {
    if d > 0 {
      assert x == (x / d) * d;
      assert y == (y / d) * d;
      assert k * x + y == (k * (x / d) + y / d) * d;
      MulDiv(k * (x / d) + y / d, d);
    }
  }

  /** The coefficient update of one Euclid step keeps s a + t b = g. */
  lemma {:induction false} BezoutStep(s: int, t: int, q: int, a: int, r: int, b: int, g: int)
    requires b == q * a + r && s * r + t * a == g
    ensures (t - q * s) * a + s * b == g
  {
    calc {
      (t - q * s) * a + s * b;
      t * a - q * s * a + s * (q * a + r);
      { Distrib(s, q * a, r); }
      t * a - q * s * a + s * (q * a) + s * r;
      { MulAssoc(s, q, a); }
      t * a + s * r;
    }
  }

  /**
   * The recursion of ext_gcd_impl on integers: with a zero the answer is
   * (b, 0, 1); otherwise recurse on (b mod a, a) and update the
   * coefficients with the quotient b / a.
   */
  function Euclid(a: nat, b: nat): Triple
    decreases a
  {
    if a == 0 then
      Triple(b, 0, 1)
    else
      var rest := Euclid(b % a, a);
      Triple(rest.g, rest.t - (b / a) * rest.s, rest.s)
  }

  /** Bezout's identity for a triple: s a + t b = g. */
  predicate Bezout(a: nat, b: nat, e: Triple)
  {
    e.s * a + e.t * b == e.g
  }

  /** One step of Euclid carries Bezout's identity from (b mod a, a) to (a, b). */
  lemma {:induction false} BezoutStepCase(a: nat, b: nat)
    requires a > 0 && Bezout(b % a, a, Euclid(b % a, a))
    ensures Bezout(a, b, Euclid(a, b))
  {
    var q, r := b / a, b % a;
    var e := Euclid(r, a);
    EuclidStep(a, b);
    assert b == q * a + r;
    BezoutStep(e.s, e.t, q, a, r, b, e.g);
  }

  /** Euclid's coefficients satisfy Bezout's identity. */
  lemma {:induction false} EuclidBezout(a: nat, b: nat)
    ensures Bezout(a, b, Euclid(a, b))
    decreases a
  {
    if a > 0 {
      EuclidBezout(b % a, a);
      BezoutStepCase(a, b);
    }
  }

  /** Euclid's g divides both a and b. */
  lemma {:induction false} EuclidDivides(a: nat, b: nat)
    ensures Divides(Euclid(a, b).g, a) && Divides(Euclid(a, b).g, b)
    decreases a
  {
    if a > 0 {
      var q, r := b / a, b % a;
      var e := Euclid(r, a);
      EuclidDivides(r, a);
      EuclidStep(a, b);
      assert Euclid(a, b).g == e.g;
      assert b == q * a + r;
      DividesLinear(e.g, a, r, q);
    }
  }

  /** Every common divisor of a and b divides Euclid's g. */
  lemma {:induction false} EuclidGreatest(a: nat, b: nat, d: nat)
    requires Divides(d, a) && Divides(d, b)
    ensures Divides(d, Euclid(a, b).g)
    decreases a
  {
    if a > 0 {
      assert b % a == -(b / a) * a + b;
      DividesLinear(d, a, b, -(b / a));
      EuclidGreatest(b % a, a, d);
    }
  }

  /** Euclid's g is the greatest common divisor. */
  lemma {:induction false} EuclidIsGcd(a: nat, b: nat)
    ensures IsGcd(Euclid(a, b).g, a, b)
  {
    EuclidDivides(a, b);
    forall d: nat | Divides(d, a) && Divides(d, b)
      ensures Divides(d, Euclid(a, b).g)
    {
      EuclidGreatest(a, b, d);
    }
  }

  /** The larger of b and 1. */
  function AtLeastOne(b: nat): (r: nat)
    ensures r >= 1 && r >= b
  {
    if b == 0 then 1 else b
  }

  /** One unfolding of Euclid at a positive a. */
  lemma {:induction false} EuclidStep(a: nat, b: nat)
    requires a > 0
    ensures var e := Euclid(b % a, a);
      Euclid(a, b) == Triple(e.g, e.t - (b / a) * e.s, e.s)
  {
  }

  /** The new coefficients t - q s and s of a step stay within b and a when the old ones stay within a and r. */
  lemma {:induction false} StepBound(q: nat, a: nat, r: nat, b: nat, s: int, t: int, s': int, t': int)
    requires b == q * a + r
    requires -(a as int) <= s <= a && -(r as int) <= t <= r
    requires s' == t - q * s && t' == s
    ensures -(b as int) <= s' <= b && -(a as int) <= t' <= a
  {
    MulLe(0, s + a, q);
    MulLe(s + a, 2 * a, q);
  }

  /** |s| is at most max(b, 1), and |t| at most a when a is positive. */
  predicate CoefficientsBounded(a: nat, b: nat, e: Triple)
  {
    -(AtLeastOne(b) as int) <= e.s <= AtLeastOne(b) && (a > 0 ==> -(a as int) <= e.t <= a)
  }

  /** When a divides b, the coefficients are 1 and 0. */
  lemma {:induction false} BoundExact(a: nat, b: nat)
    requires a > 0 && b % a == 0
    ensures CoefficientsBounded(a, b, Euclid(a, b))
  {
    EuclidStep(a, b);
    assert Euclid(b % a, a) == Triple(a, 0, 1);
  }

  /** A step from bounded coefficients of (b mod a, a) to bounded coefficients of (a, b). */
  lemma {:induction false} BoundStepCase(a: nat, b: nat)
    requires a > 0 && b % a > 0
    requires CoefficientsBounded(b % a, a, Euclid(b % a, a))
    ensures CoefficientsBounded(a, b, Euclid(a, b))
  {
    var q, r := b / a, b % a;
    var e, f := Euclid(r, a), Euclid(a, b);
    assert b == q * a + r;
    EuclidStep(a, b);
    assert f.s == e.t - q * e.s && f.t == e.s;
    assert AtLeastOne(a) == a;
    assert -(a as int) <= e.s <= a && -(r as int) <= e.t <= r;
    StepBound(q, a, r, b, e.s, e.t, f.s, f.t);
  }

  /** The coefficients stay small: |s| <= max(b, 1), and |t| <= a for positive a. */
  lemma {:induction false} EuclidBound(a: nat, b: nat)
    ensures CoefficientsBounded(a, b, Euclid(a, b))
    decreases a
  {
    if a > 0 {
      if b % a == 0 {
        BoundExact(a, b);
      } else {
        EuclidBound(b % a, a);
        BoundStepCase(a, b);
      }
    }
  }

  /**
   * Without gcd 1 nothing is an inverse: a common divisor above 1 of x
   * and m divides x v - k m but not 1.
   */
  lemma {:induction false} NoInverseUnlessCoprime(x: nat, m: nat, v: int)
    requires m >= 1 && Euclid(x, m).g != 1
    ensures (x * v) % m != 1 % m
  {
    var g := Euclid(x, m).g;
    EuclidDivides(x, m);
    if (x * v) % m == 1 % m {
      DividesLinear(g, x, 0, v);
      if m == 1 {
        assert 1 == 1 * m + 0;
        DividesLinear(g, m, 0, 1);
      } else {
        var k := (x * v) / m;
        ModOfSmall(1, m);
        assert x * v == k * m + 1;
        DividesLinear(g, m, v * x, -k);
        assert -k * m + v * x == 1;
      }
      OnlyOneDividesOne(g);
    }
  }

  /** The only divisor of 1 is 1. */
  lemma {:induction false} OnlyOneDividesOne(g: nat)
    requires Divides(g, 1)
    ensures g == 1
  {
    if g >= 2 {
      ModOfSmall(1, g);
    }
  }

  /**
   * The triple ext_gcd returns for limbs of length n: three blocks of n
   * limbs holding g, and s and t modulo 2^(64n).
   */
  predicate Represents(triple: seq<Limb>, n: nat, e: Triple)
  {
    |triple| == 3 * n
    && Val(triple[..n]) == e.g
    && Val(triple[n..2 * n]) == e.s % BPow(n)
    && Val(triple[2 * n..]) == e.t % BPow(n)
  }

  /** first<N>, take<N, 2N> and skip<2N> read the three blocks of a triple. */
  lemma {:induction false} TripleParts(triple: seq<Limb>, n: nat)
    requires |triple| == 3 * n
    ensures Val(First(triple, n)) == Val(triple[..n])
    ensures Take(triple, n, 2 * n, 0) == triple[n..2 * n]
    ensures Val(Skip(triple, 2 * n)) == Val(triple[2 * n..])
  {
    ValSplit(triple, n);
    ValSplit(triple, 2 * n);
  }

  /** (a - b) mod p only depends on b mod p. */
  lemma {:induction false} ModSubRight(a: int, b: int, p: int)
    requires p > 0
    ensures (a - b) % p == (a - b % p) % p
  {
    assert a - b == (a - b % p) + (-(b / p)) * p;
    DivAddMultiple(a - b % p, -(b / p), p);
  }

  /** mp_sub(z, partial_mul(q, y)) on the truncated coefficients is t - q s truncated. */
  lemma {:induction false} CoefficientStep(zv: int, qyv: int, t: int, s: int, q: int, p: int)
    requires p > 0 && zv == t % p && qyv == (q * (s % p)) % p
    ensures (zv - qyv) % p == (t - q * s) % p
  {
    ModMulLeft(s, q, p);
    assert qyv == (q * s) % p;
    ModSubRight(zv, q * s, p);
    ModSubLeft(t, q * s, p);
  }

  /** The join of one step of ext_gcd_impl represents Euclid(a, b) when the recursive triple represents Euclid(b mod a, a). */
  lemma {:induction false} JoinRepresents(rest: seq<Limb>, n: nat, q: seq<Limb>, av: nat, bv: nat, triple: seq<Limb>)
    requires av > 0 && Val(q) == bv / av
    requires Represents(rest, n, Euclid(bv % av, av))
    requires triple == First(rest, n) + MpSub(Skip(rest, 2 * n), PartialMul(q, Take(rest, n, 2 * n, 0), n)) + Take(rest, n, 2 * n, 0)
    ensures Represents(triple, n, Euclid(av, bv))
  {
    var e := Euclid(bv % av, av);
    EuclidStep(av, bv);
    TripleParts(rest, n);
    var x := First(rest, n);
    var y := Take(rest, n, 2 * n, 0);
    var z := Skip(rest, 2 * n);
    var qy := PartialMul(q, y, n);
    var mid := MpSub(z, qy);
    assert triple[..n] == x;
    assert triple[n..2 * n] == mid;
    assert triple[2 * n..] == y;
    BPowPositive(n);
    CoefficientStep(Val(z), Val(qy), e.t, e.s, bv / av, BPow(n));
  }

  /**
   * ext_gcd_impl(a, b) for packs of the same length n: with a zero, the
   * join of b, 0 and 1; otherwise the division of b by a at a's tight
   * length, the recursion on the remainder and a, and the coefficient
   * update with mp_sub and partial_mul<N>.
   */
  method ExtGcdImpl(a: seq<Limb>, b: seq<Limb>) returns (triple: seq<Limb>)
    requires |a| == |b| >= 1
    ensures Represents(triple, |a|, Euclid(Val(a), Val(b)))
    decreases Val(a)
  {
    var n := |a|;
    if a == Zeros(n) {
      triple := b + Zeros(n) + One(n);
      assert triple[..n] == b;
      assert triple[n..2 * n] == Zeros(n);
      assert triple[2 * n..] == One(n);
      BPowStrict(0, n);
      ModOfSmall(1, BPow(n));
    } else {
      assert Val(a) > 0 by {
        if Val(a) == 0 {
          ValInjective(a, Zeros(n));
        }
      }
      var l := TightLength(a);
      TightLengthValue(a);
      var q, rem := Div(b, a, l);
      var arg1 := Pad(rem, n - |rem|);
      var rest := ExtGcdImpl(arg1, a);
      var x := First(rest, n);
      var y := Take(rest, n, 2 * n, 0);
      var z := Skip(rest, 2 * n);
      var qy := PartialMul(q, y, n);
      triple := x + MpSub(z, qy) + y;
      JoinRepresents(rest, n, q, Val(a), Val(b), triple);
    }
  }

  /** The common length ext_gcd pads both packs to. */
  function Width(a: seq<Limb>, b: seq<Limb>): (n: nat)
    ensures n >= |a| && n >= |b| && (n == |a| || n == |b|)
  {
    if |a| < |b| then |b| else |a|
  }

  /** With s a + t b = g and g below p, the truncated coefficients still satisfy it modulo p. */
  lemma {:induction false} BezoutModular(s: int, t: int, a: nat, b: nat, g: nat, sv: int, tv: int, p: nat)
    requires p > 0 && s * a + t * b == g && g < p && sv == s % p && tv == t % p
    ensures (sv * a + tv * b) % p == g
  {
    ModOfSmall(sv, p);
    ModOfSmall(tv, p);
    ModCongruentMul(sv, s, a, a, p);
    ModCongruentMul(tv, t, b, b, p);
    ModCongruentAdd(sv * a, s * a, tv * b, t * b, p);
    ModOfSmall(g, p);
  }

  /**
   * ext_gcd_impl recognises a zero first pack by comparing its type with
   * the pack of N zeros, so a zero pack with fewer than N limbs is not
   * recognised. Its tight length is then 0 and the division of b by it
   * that follows has no valid input: a zero limb for short division, a
   * tight length below 2 for Knuth division. Constant evaluation fails
   * there, and ext_gcd has no result for such packs.
   */
  lemma {:induction false} UndetectedZeroPack(a: seq<Limb>, b: seq<Limb>)
    requires |a| < |b| && Val(a) == 0
    ensures a != Zeros(|b|) && TightLength(a) == 0
    ensures var v := Pad(a, |b| - |a|);
      if DeclaredLength(TightLength(a), v) == 1 then v[0] == 0 else TightLength(v) < 2
  {
    var v := Pad(a, |b| - |a|);
    TightLengthValue(a);
    TightLengthValue(v);
    LowLimb(v);
  }

  /**
   * ext_gcd(a, b): both packs zero-padded to the longer length N. The
   * first block is the gcd, and the other two satisfy Bezout's identity
   * modulo 2^(64N). A zero first pack shorter than the second has no
   * result (UndetectedZeroPack).
   */
  method ExtGcd(a: seq<Limb>, b: seq<Limb>) returns (triple: seq<Limb>)
    requires |a| > 0 || |b| > 0
    requires |a| < |b| ==> Val(a) > 0
    ensures Represents(triple, Width(a, b), Euclid(Val(a), Val(b)))
    ensures IsGcd(Val(triple[..Width(a, b)]), Val(a), Val(b))
    ensures var n := Width(a, b);
      (Val(triple[n..2 * n]) * Val(a) + Val(triple[2 * n..]) * Val(b)) % BPow(n) == Val(triple[..n])
  {
    var n := Width(a, b);
    triple := ExtGcdImpl(Pad(a, n - |a|), Pad(b, n - |b|));
    var e := Euclid(Val(a), Val(b));
    EuclidIsGcd(Val(a), Val(b));
    EuclidBezout(Val(a), Val(b));
    ValBound(triple[..n]);
    BezoutModular(e.s, e.t, Val(a), Val(b), e.g, Val(triple[n..2 * n]), Val(triple[2 * n..]), BPow(n));
  }

  /** Limb 0 of a pack is its value modulo 2^64. */
  lemma {:induction false} LowLimb(s: seq<Limb>)
    requires |s| > 0
    ensures s[0] == Val(s) % BASE
  {
    ValLimb(s, 0);
  }

  /** first<L> at the tight length L keeps the value and drops the zero limbs on top. */
  lemma {:induction false} TightPrefix(t: seq<Limb>)
    ensures Val(First(t, TightLength(t))) == Val(t)
    ensures First(t, TightLength(t)) == [] || IsTight(First(t, TightLength(t)))
  {
    var l := TightLength(t);
    TightLengthValue(t);
    ValSplit(t, l);
    if l > 0 {
      assert First(t, l)[l - 1] == t[l - 1];
    }
  }

  /**
   * mod_inv(x, m) as written: fails unless limb 0 of the gcd is 1, and
   * otherwise returns the coefficient of x cut to its tight length. That
   * coefficient is s modulo 2^(64N), not modulo m.
   */
  method ModInv(x: seq<Limb>, m: seq<Limb>) returns (r: Option<seq<Limb>>)
    requires |x| > 0 || |m| > 0
    requires |x| < |m| ==> Val(x) > 0
    ensures r.None? <==> Euclid(Val(x), Val(m)).g % BASE != 1
    ensures r.Some? ==> Val(r.value) == Euclid(Val(x), Val(m)).s % BPow(Width(x, m))
    ensures r.Some? ==> r.value == [] || IsTight(r.value)
  {
    var n := Width(x, m);
    var triple := ExtGcd(x, m);
    LowLimb(triple[..n]);
    if triple[0] != 1 {
      r := None;
    } else {
      var inverse := Take(triple, n, 2 * n, 0);
      assert inverse == triple[n..2 * n];
      TightPrefix(inverse);
      r := Some(First(inverse, TightLength(inverse)));
    }
  }

  /**
   * x = 2^64 + 1 and m = 2 (2^64 + 1): their gcd is 2^64 + 1, whose limb 0
   * is 1, so mod_inv reports an inverse although none exists.
   */
  method LimbCheckCounterexample(x: seq<Limb>, m: seq<Limb>) returns (r: Option<seq<Limb>>)
    requires x == [1, 1] && m == [2, 2]
    ensures r.Some? && Euclid(Val(x), Val(m)).g == BASE + 1
  {
    ValSingle(1);
    ValSingle(2);
    ValCons(1, [1]);
    ValCons(2, [2]);
    assert [1] + [1] == x && [2] + [2] == m;
    DivModUnique(2 * BASE + 2, BASE + 1, 2, 0);
    assert Euclid(0, BASE + 1) == Triple(BASE + 1, 0, 1);
    assert Euclid(BASE + 1, 2 * BASE + 2).g == BASE + 1;
    ModOfSmall(1, BASE);
    r := ModInv(x, m);
  }

  /**
   * mod_inv(3, 7): the Bezout coefficient of 3 is -2, returned as
   * 2^64 - 2, and 3 (2^64 - 2) is divisible by 7.
   */
  method CoefficientCounterexample(x: seq<Limb>, m: seq<Limb>) returns (r: Option<seq<Limb>>)
    requires x == [3] && m == [7]
    ensures r.Some? && Val(r.value) == BASE - 2
    ensures (Val(x) * Val(r.value)) % Val(m) == 0
  {
    ThreeSevenPacks(x, m);
    r := ModInv(x, m);
    SevenDivides();
  }

  /** The packs [3] and [7]: limb 0 of their gcd is 1 and the coefficient of 3 truncates to 2^64 - 2. */
  lemma ThreeSevenPacks(x: seq<Limb>, m: seq<Limb>)
    requires x == [3] && m == [7]
    ensures Val(x) == 3 && Val(m) == 7
    ensures Euclid(Val(x), Val(m)).g % BASE == 1
    ensures Euclid(Val(x), Val(m)).s % BPow(Width(x, m)) == BASE - 2
  {
    ValSingle(3);
    ValSingle(7);
    EuclidOfThreeSeven(Val(x), Val(m));
    MinusTwoTruncated(Width(x, m));
  }

  /** Euclid on 3 and 7: gcd 1 with 3 (-2) + 7 (1) = 1. */
  lemma EuclidOfThreeSeven(a: nat, b: nat)
    requires a == 3 && b == 7
    ensures Euclid(a, b) == Triple(1, -2, 1)
  {
    DivModUnique(b, a, 2, 1);
    var r := b % a;
    DivModUnique(a, r, 3, 0);
    EuclidStep(a, b);
    EuclidStep(r, a);
    assert Euclid(a % r, r) == Triple(1, 0, 1);
  }

  /** -2 truncated to one limb is 2^64 - 2; limb 0 of 1 is 1. */
  lemma MinusTwoTruncated(n: nat)
    requires n == 1
    ensures (-2) % BPow(n) == BASE - 2 && 1 % BASE == 1
  {
    ModOfSmall(1, BASE);
    assert BPow(n) == BASE;
    DivModUnique(-2, BASE, -1, BASE - 2);
  }

  /** 3 (2^64 - 2) = 7 * 7905747460161236406. */
  lemma SevenDivides()
    ensures (3 * (BASE - 2)) % 7 == 0
  {
    assert 3 * (BASE - 2) == 7905747460161236406 * 7 + 0;
    DivModUnique(3 * (BASE - 2), 7, 7905747460161236406, 0);
  }

  /**
   * Picking the residue of s modulo m from s modulo p: with |s| <= m and
   * 2m < p, a truncated value above m is a negative s, and adding m
   * with the carry dropped gives s + m.
   */
  lemma {:induction false} ReduceCoefficient(s: int, raw: nat, mv: nat, p: nat, inv: nat)
    requires 1 <= mv && 2 * mv < p && -(mv as int) <= s <= mv && raw == s % p && inv < p
    requires raw > mv ==> inv == raw + mv || inv + p == raw + mv
    requires raw == mv ==> inv == 0
    requires raw < mv ==> inv == raw
    ensures inv == s % mv
  {
    if s >= 0 {
      ModOfSmall(s, p);
      if s == mv {
        DivModUnique(s, mv, 1, 0);
      } else {
        ModOfSmall(s, mv);
      }
    } else {
      DivModUnique(s, p, -1, s + p);
      DivModUnique(s, mv, -1, s + mv);
    }
  }

  /** x s + m t = 1 makes s mod m an inverse of x. */
  lemma {:induction false} InverseFromBezout(x: nat, m: nat, s: int, t: int)
    requires m >= 1 && s * x + t * m == 1
    ensures (x * (s % m)) % m == 1 % m
  {
    ModMulLeft(s, x, m);
    DivAddMultiple(s * x, t, m);
  }

  /** m fits in fewer than n limbs, so 2m < 2^(64n). */
  lemma ModulusFits(m: seq<Limb>, n: nat)
    requires |m| < n
    ensures 2 * Val(m) < BPow(n)
  {
    ValBound(m);
    BPowMonotone(|m|, n - 1);
    BPowSucc(n - 1);
  }

  /** The residue chosen from the coefficient truncated to N + 1 limbs is s mod m. */
  lemma {:induction false} CorrectedValue(x: seq<Limb>, m: seq<Limb>, n: nat, raw: seq<Limb>, inverse: seq<Limb>)
    requires n == Width(x, m) + 1 && |raw| == n && |inverse| == n && Val(m) >= 1
    requires Val(raw) == Euclid(Val(x), Val(m)).s % BPow(n)
    requires Val(raw) > Val(m) ==> Val(inverse) == Val(raw) + Val(m) || Val(inverse) + BPow(n) == Val(raw) + Val(m)
    requires Val(raw) == Val(m) ==> Val(inverse) == 0
    requires Val(raw) < Val(m) ==> Val(inverse) == Val(raw)
    ensures Val(inverse) == Euclid(Val(x), Val(m)).s % Val(m)
  {
    ModulusFits(m, n);
    ValBound(inverse);
    EuclidBound(Val(x), Val(m));
    ReduceCoefficient(Euclid(Val(x), Val(m)).s, Val(raw), Val(m), BPow(n), Val(inverse));
  }

  /** With gcd 1, s mod m is an inverse of x modulo m. */
  lemma CoefficientInverts(x: seq<Limb>, m: seq<Limb>, inverse: seq<Limb>)
    requires Val(m) >= 1 && Euclid(Val(x), Val(m)).g == 1
    requires Val(inverse) == Euclid(Val(x), Val(m)).s % Val(m)
    ensures (Val(x) * Val(inverse)) % Val(m) == 1 % Val(m)
  {
    EuclidBezout(Val(x), Val(m));
    InverseFromBezout(Val(x), Val(m), Euclid(Val(x), Val(m)).s, Euclid(Val(x), Val(m)).t);
  }

  /**
   * mod_inv with both defects removed: the packs get one extra limb, so
   * that 2m fits below 2^(64(N+1)) and the sign of s can be read off its
   * truncation; the whole gcd is compared with 1; s is brought into
   * [0, m). A zero modulus has no inverses.
   */
  method ModInvCorrected(x: seq<Limb>, m: seq<Limb>) returns (r: Option<seq<Limb>>)
    requires |x| > 0 || |m| > 0
    ensures r.None? <==> Val(m) == 0 || Euclid(Val(x), Val(m)).g != 1
    ensures r.Some? ==> Val(r.value) == Euclid(Val(x), Val(m)).s % Val(m)
    ensures r.Some? ==> Val(r.value) < Val(m) && (Val(x) * Val(r.value)) % Val(m) == 1 % Val(m)
    ensures r.Some? ==> r.value == [] || IsTight(r.value)
  {
    var n := Width(x, m) + 1;
    var xs := Pad(x, n - |x|);
    var ms := Pad(m, n - |m|);
    var triple := ExtGcdImpl(xs, ms);
    TripleParts(triple, n);
    if IsEqual(ms, Zeros(n)) || !IsEqual(First(triple, n), One(n)) {
      r := None;
    } else {
      var raw := Take(triple, n, 2 * n, 0);
      var inverse;
      if GreaterThan(raw, ms) {
        inverse := MpAddIgnoreLastCarry(raw, ms);
      } else if IsEqual(raw, ms) {
        inverse := Zeros(n);
      } else {
        inverse := raw;
      }
      CorrectedValue(x, m, n, raw, inverse);
      CoefficientInverts(x, m, inverse);
      TightPrefix(inverse);
      r := Some(First(inverse, TightLength(inverse)));
    }
  }
}
