/**
 * Niels Moller's binary inversion (mod_inv.hpp): for an odd modulus n
 * the loop runs 2 * bit_length(n) rounds over four N-limb registers
 * a, b, u, v, starting from (x, n, 1, 0). Each round subtracts the
 * smaller of a and b from the larger when a is odd (swapping the pairs
 * when b was the larger), halves a, and mirrors both moves on u modulo n.
 *
 * Round is the round on unbounded integers; RoundPreserves shows that it
 * keeps a = u x and b = v x modulo n, keeps the common divisors of a and
 * b those of x and n, and at least halves a b. After 2 bit_length(n)
 * rounds a is therefore 0, b is gcd(x, n) and v x = gcd(x, n) modulo n.
 */
module ModInverse {
  import opened Arith
  import opened Limbs
  import opened Utility
  import opened Slicing
  import opened RelationalOps
  import opened Addition
  import opened BitShift
  import opened Power
  import opened Gcd
  import ModExp

  // ---------------------------------------------------------------------
  // The round on integers

  /** The four registers of the loop. */
  datatype State = State(a: nat, b: nat, u: nat, v: nat)

  /** y and z are congruent modulo p. */
  predicate Congruent(p: nat, y: int, z: int)
  {
    Divides(p, y - z)
  }

  /** a and b have exactly the common divisors of c and e. */
  ghost predicate SameCommonDivisors(a: nat, b: nat, c: nat, e: nat)
  {
    forall d: nat :: Divides(d, a) && Divides(d, b) <==> Divides(d, c) && Divides(d, e)
  }

  /** u - v modulo n for u and v below n, as the source's two branches compute it. */
  function SubMod(u: nat, v: nat, n: nat): nat
    requires u < n && v < n
  {
    if u >= v then u - v else u + n - v
  }

  /** u / 2 modulo an odd n: u halved, after adding n when u is odd. */
  function Halve(u: nat, n: nat): nat
  {
    if u % 2 == 1 then (u + n) / 2 else u / 2
  }

  /** u and v are reduced modulo n. */
  predicate Reduced(s: State, n: nat)
  {
    s.u < n && s.v < n
  }

  /** The subtraction of a round: only when a is odd, swapping the pairs when b > a. */
  function Reduce(s: State, n: nat): State
    requires Reduced(s, n)
  {
    if s.a % 2 == 1 && s.a >= s.b then State(s.a - s.b, s.b, SubMod(s.u, s.v, n), s.v)
    else if s.a % 2 == 1 then State(s.b - s.a, s.a, SubMod(s.v, s.u, n), s.u)
    else s
  }

  /** The halving of a round: a by two, u by two modulo n. */
  function Halved(s: State, n: nat): State
  {
    State(s.a / 2, s.b, Halve(s.u, n), s.v)
  }

  /** One round of the loop. */
  function Round(s: State, n: nat): State
    requires Reduced(s, n)
  {
    Halved(Reduce(s, n), n)
  }

  /** The arithmetic the loop keeps for an odd n: u and v reduced, b odd, a = u x and b = v x modulo n. */
  predicate Congruences(x: nat, n: nat, s: State)
  {
    n % 2 == 1 && Reduced(s, n) && s.b % 2 == 1
    && Congruent(n, s.a, s.u * x) && Congruent(n, s.b, s.v * x)
  }

  /** a and b have the common divisors of x and n, so gcd(a, b) = gcd(x, n). */
  ghost predicate GcdKept(x: nat, n: nat, s: State)
  {
    SameCommonDivisors(s.a, s.b, x, n)
  }

  /** What the loop keeps: the congruences and the gcd. */
  ghost predicate Invariant(x: nat, n: nat, s: State)
  {
    Congruences(x, n, s) && GcdKept(x, n, s)
  }

  /** a b, doubled i times, is still at most the bound. */
  predicate Shrunk(s: State, i: nat, bound: int)
  {
    s.a * s.b * Pow(2, i) <= bound
  }

  /** The odd divisor of an even number divides its half. */
  lemma {:induction false} OddCancel(p: nat, y: int)
    requires p % 2 == 1 && Divides(p, 2 * y)
    ensures Divides(p, y)
  {
    var k := (2 * y) / p;
    assert 2 * y == k * p;
    if k % 2 == 1 {
      OddTimesOdd(k, p);
    }
    var j := k / 2;
    assert y == j * p;
    MulDiv(j, p);
  }

  /** A divisor of an odd number is odd. */
  lemma {:induction false} DivisorOfOdd(d: nat, b: nat)
    requires b % 2 == 1 && Divides(d, b)
    ensures d % 2 == 1
  {
    var k := b / d;
    assert b == k * d;
    if d % 2 == 0 {
      EvenMultiple(k, d);
    }
  }

  /** The product of two odd numbers is odd. */
  lemma {:induction false} OddTimesOdd(k: int, p: int)
    requires k % 2 == 1 && p % 2 == 1
    ensures (k * p) % 2 == 1
  {
    var j, m := k / 2, p / 2;
    assert k * p == (2 * j + 1) * (2 * m + 1);
    assert (2 * j + 1) * (2 * m + 1) == 2 * (2 * j * m + j + m) + 1;
  }

  /** A multiple of an even number is even. */
  lemma {:induction false} EvenMultiple(k: int, d: int)
    requires d % 2 == 0
    ensures (k * d) % 2 == 0
  {
    var h := d / 2;
    assert k * d == 2 * (k * h);
  }

  /** Two numbers dividing each other are equal. */
  lemma {:induction false} DividesAntisymmetric(p: nat, q: nat)
    requires Divides(p, q) && Divides(q, p)
    ensures p == q
  {
    if p > 0 && q > 0 {
      MulLe(1, q / p, p);
      MulLe(1, p / q, q);
    }
  }

  /** Pairs with the same common divisors have the same gcd. */
  lemma {:induction false} SameGcd(a: nat, b: nat, c: nat, e: nat)
    requires SameCommonDivisors(a, b, c, e)
    ensures Euclid(a, b).g == Euclid(c, e).g
  {
    var g, h := Euclid(a, b).g, Euclid(c, e).g;
    EuclidDivides(a, b);
    EuclidDivides(c, e);
    EuclidGreatest(c, e, g);
    EuclidGreatest(a, b, h);
    DividesAntisymmetric(g, h);
  }

  /** Having the common divisors of a pair is transitive. */
  lemma {:induction false} DivisorsTransitive(a: nat, b: nat, c: nat, e: nat, f: nat, h: nat)
    requires SameCommonDivisors(a, b, c, e) && SameCommonDivisors(c, e, f, h)
    ensures SameCommonDivisors(a, b, f, h)
  {
  }

  /** The order of a pair does not change its common divisors. */
  lemma {:induction false} DivisorsSwap(a: nat, b: nat, f: nat, h: nat)
    requires SameCommonDivisors(a, b, f, h)
    ensures SameCommonDivisors(b, a, f, h)
  {
  }

  /** Subtracting b from a changes no common divisor of the pair. */
  lemma {:induction false} SubtractKeepsDivisors(a: nat, b: nat)
    requires a >= b
    ensures SameCommonDivisors(a - b, b, a, b)
  {
    forall d: nat
      ensures Divides(d, a - b) && Divides(d, b) <==> Divides(d, a) && Divides(d, b)
    {
      if Divides(d, a - b) && Divides(d, b) {
        DividesLinear(d, b, a - b, 1);
      }
      if Divides(d, a) && Divides(d, b) {
        DividesLinear(d, b, a, -1);
      }
    }
  }

  /** Halving an even a next to an odd b changes no common divisor of the pair. */
  lemma {:induction false} HalveKeepsDivisors(a: nat, b: nat)
    requires a % 2 == 0 && b % 2 == 1
    ensures SameCommonDivisors(a / 2, b, a, b)
  {
    forall d: nat
      ensures Divides(d, a / 2) && Divides(d, b) <==> Divides(d, a) && Divides(d, b)
    {
      if Divides(d, a / 2) && Divides(d, b) {
        DividesLinear(d, a / 2, 0, 2);
        assert Divides(d, 0) by {
          if d > 0 {
            MulDiv(0, d);
          }
        }
      }
      if Divides(d, a) && Divides(d, b) {
        DivisorOfOdd(d, b);
        assert 2 * (a / 2) == a;
        OddCancel(d, a / 2);
      }
    }
  }

  /** a - b = (u - v) x modulo n, with u - v taken modulo n. */
  lemma {:induction false} SubtractKeepsCongruence(n: nat, a: nat, b: nat, u: nat, v: nat, x: nat)
    requires u < n && v < n
    requires Congruent(n, a, u * x) && Congruent(n, b, v * x)
    ensures Congruent(n, a - b, SubMod(u, v, n) * x)
  {
    var c := if u >= v then 0 else 1;
    var w := SubMod(u, v, n);
    assert w == u - v + c * n;
    DividesLinear(n, b - v * x, a - u * x, -1);
    assert Divides(n, n) by {
      MulDiv(1, n);
    }
    DividesLinear(n, n, -1 * (b - v * x) + (a - u * x), -(c * x));
    calc {
      -(c * x) * n + (-1 * (b - v * x) + (a - u * x));
      { MulAssoc(c, x, n); MulAssoc(c, n, x); }
      a - b - (u * x - v * x + (c * n) * x);
      { DistribRight(u, -(v as int), x); DistribRight(u - v, c * n, x); }
      a - b - w * x;
    }
  }

  /** a / 2 = Halve(u) x modulo an odd n, when a is even and a = u x. */
  lemma {:induction false} HalveKeepsCongruence(n: nat, a: nat, u: nat, x: nat)
    requires n % 2 == 1 && a % 2 == 0 && Congruent(n, a, u * x)
    ensures Congruent(n, a / 2, Halve(u, n) * x)
  {
    var c := if u % 2 == 1 then 1 else 0;
    var h := Halve(u, n);
    assert 2 * h == u + c * n;
    assert Divides(n, n) by {
      MulDiv(1, n);
    }
    DividesLinear(n, n, a - u * x, -(c * x));
    calc {
      -(c * x) * n + (a - u * x);
      { MulAssoc(c, x, n); MulAssoc(c, n, x); }
      a - (u * x + (c * n) * x);
      { DistribRight(u, c * n, x); }
      a - (2 * h) * x;
      { MulAssoc(2, h, x); }
      2 * (a / 2 - h * x);
    }
    OddCancel(n, a / 2 - h * x);
  }

  /** t, the state after the subtraction of a round from s, keeps the congruences, has a even and no larger a b. */
  predicate ReducedFrom(x: nat, n: nat, s: State, t: State)
  {
    Congruences(x, n, t) && t.a % 2 == 0 && t.a * t.b <= s.a * s.b
  }

  /**
   * Subtracting the odd b from the odd a at least b, and v from u modulo
   * n, keeps the congruences, leaves an even a and does not grow a b.
   */
  lemma {:induction false} SubtractPair(x: nat, n: nat, a: nat, b: nat, u: nat, v: nat)
    requires Congruences(x, n, State(a, b, u, v)) && a % 2 == 1 && a >= b
    ensures ReducedFrom(x, n, State(a, b, u, v), State(a - b, b, SubMod(u, v, n), v))
  {
    assert Congruent(n, a - b, SubMod(u, v, n) * x) by {
      SubtractKeepsCongruence(n, a, b, u, v, x);
    }
    ProductShrinks(a, b);
    OddDifference(a, b);
  }

  /** The difference of two odd numbers is even. */
  lemma {:induction false} OddDifference(a: nat, b: nat)
    requires a % 2 == 1 && b % 2 == 1 && a >= b
    ensures (a - b) % 2 == 0
  {
    DivModUnique(a - b, 2, a / 2 - b / 2, 0);
  }

  /** Taking b off a does not grow a b. */
  lemma {:induction false} ProductShrinks(a: nat, b: nat)
    requires a >= b
    ensures (a - b) * b <= a * b
  {
    MulLe(a - b, a, b);
  }

  /** The subtraction keeps the congruences, leaves a even, and does not grow a b. */
  lemma {:induction false} ReduceCongruences(x: nat, n: nat, s: State)
    requires Congruences(x, n, s)
    ensures ReducedFrom(x, n, s, Reduce(s, n))
  {
    if s.a % 2 == 1 && s.a >= s.b {
      SubtractPair(x, n, s.a, s.b, s.u, s.v);
    } else if s.a % 2 == 1 {
      SubtractPair(x, n, s.b, s.a, s.v, s.u);
      assert s.a * s.b == s.b * s.a;
    }
  }

  /** The subtraction keeps gcd(a, b) and an odd b, and leaves a even. */
  lemma {:induction false} ReduceGcd(x: nat, n: nat, s: State)
    requires Reduced(s, n) && s.b % 2 == 1 && GcdKept(x, n, s)
    ensures GcdKept(x, n, Reduce(s, n))
    ensures Reduce(s, n).a % 2 == 0 && Reduce(s, n).b % 2 == 1
  {
    if s.a % 2 == 1 && s.a >= s.b {
      SubtractKeepsDivisors(s.a, s.b);
      DivisorsTransitive(s.a - s.b, s.b, s.a, s.b, x, n);
      OddDifference(s.a, s.b);
    } else if s.a % 2 == 1 {
      SubtractKeepsDivisors(s.b, s.a);
      DivisorsSwap(s.a, s.b, x, n);
      DivisorsTransitive(s.b - s.a, s.a, s.b, s.a, x, n);
      OddDifference(s.b, s.a);
    }
  }

  /** The halving keeps the congruences and halves a b. */
  lemma {:induction false} HalveCongruences(x: nat, n: nat, s: State)
    requires Congruences(x, n, s) && s.a % 2 == 0
    ensures Congruences(x, n, Halved(s, n))
    ensures 2 * (Halved(s, n).a * Halved(s, n).b) == s.a * s.b
  {
    HalveKeepsCongruence(n, s.a, s.u, x);
    assert s.a == 2 * (s.a / 2);
    MulAssoc(2, s.a / 2, s.b);
  }

  /** The halving keeps gcd(a, b). */
  lemma {:induction false} HalveGcd(x: nat, n: nat, s: State)
    requires s.a % 2 == 0 && s.b % 2 == 1 && GcdKept(x, n, s)
    ensures GcdKept(x, n, Halved(s, n))
  {
    HalveKeepsDivisors(s.a, s.b);
    DivisorsTransitive(s.a / 2, s.b, s.a, s.b, x, n);
  }

  /**
   * A round keeps the invariant and at least halves a b: one more
   * doubling keeps a b within the bound.
   */
  lemma {:induction false} RoundPreserves(x: nat, n: nat, s: State, i: nat, bound: int)
    requires Invariant(x, n, s) && Shrunk(s, i, bound)
    ensures Invariant(x, n, Round(s, n))
    ensures Shrunk(Round(s, n), i + 1, bound)
  {
    var t := Reduce(s, n);
    var r := Round(s, n);
    ReduceCongruences(x, n, s);
    ReduceGcd(x, n, s);
    HalveCongruences(x, n, t);
    HalveGcd(x, n, t);
    Doubling(r.a * r.b, s.a * s.b, i, bound);
  }

  /** A product at most half of q, doubled i + 1 times, stays below what q doubled i times does. */
  lemma {:induction false} Doubling(p: nat, q: nat, i: nat, bound: int)
    requires 2 * p <= q && q * Pow(2, i) <= bound
    ensures p * Pow(2, i + 1) <= bound
  {
    MulLe(2 * p, q, Pow(2, i));
    MulAssoc(p, 2, Pow(2, i));
  }

  /** The loop starts from (x, n, 1, 0), which satisfies the invariant for an odd n >= 3. */
  lemma {:induction false} StartInvariant(x: nat, n: nat)
    requires n % 2 == 1 && n >= 3
    ensures Invariant(x, n, State(x, n, 1, 0))
    ensures Shrunk(State(x, n, 1, 0), 0, x * n)
  {
    MulDiv(0, n);
    MulDiv(1, n);
  }

  /** With x < n < 2^ell, a b doubled 2 ell times stays below x n only at a = 0 (b is odd). */
  lemma {:induction false} ProductVanishes(x: nat, n: nat, s: State, ell: nat)
    requires Shrunk(s, 2 * ell, x * n) && x < n < Pow(2, ell) && s.b % 2 == 1
    ensures s.a == 0
  {
    var p := Pow(2, 2 * ell);
    PowAdd(2, ell, ell);
    MulStrictBound(x, Pow(2, ell), n, Pow(2, ell));
    if s.a * s.b >= 1 {
      MulLe(1, s.a * s.b, p);
    }
    if s.a >= 1 {
      MulLe(1, s.a, s.b);
    }
  }

  /** Congruent numbers leave the same remainder. */
  lemma {:induction false} SameResidue(n: nat, y: int, z: int)
    requires n > 0 && Congruent(n, y, z)
    ensures z % n == y % n
  {
    var k := (y - z) / n;
    assert z == y + (-k) * n;
    DivAddMultiple(y, -k, n);
  }

  /**
   * After 2 ell rounds with x < n < 2^ell the bound forces a = 0; then b
   * is the gcd of x and n, and v x is that gcd modulo n.
   */
  lemma {:induction false} Finish(x: nat, n: nat, s: State, ell: nat)
    requires Invariant(x, n, s) && Shrunk(s, 2 * ell, x * n)
    requires x < n < Pow(2, ell)
    ensures s.a == 0
    ensures s.b == Euclid(x, n).g
    ensures (x * s.v) % n == Euclid(x, n).g % n
  {
    ProductVanishes(x, n, s, ell);
    SameGcd(s.a, s.b, x, n);
    SameResidue(n, s.b, s.v * x);
    assert x * s.v == s.v * x;
  }

  // ---------------------------------------------------------------------
  // The loop on limbs

  /** The four registers as numbers. */
  function Numbers(a: seq<Limb>, b: seq<Limb>, u: seq<Limb>, v: seq<Limb>): State
  {
    State(Val(a), Val(b), Val(u), Val(v))
  }

  /**
   * The u update of an odd round: subtract_ignore_carry(u, v) when u >= v,
   * otherwise first<N>(subtract(add_same(u, n), v)).
   */
  method SubtractMod(u: seq<Limb>, v: seq<Limb>, n: seq<Limb>) returns (r: seq<Limb>)
    requires |u| == |v| == |n|
    ensures |r| == |n|
    ensures Val(u) < Val(n) && Val(v) < Val(n) ==> Val(r) == SubMod(Val(u), Val(v), Val(n))
  {
    if !GreaterThan(v, u) {
      r := MpSub(u, v);
      ValBound(u);
      ModOfSmall(Val(u) - Val(v), BPow(|u|));
      assert Val(r) == Val(u) - Val(v);
    } else {
      var sum := Add(u, n);
      var diff := Subtract(sum, v);
      r := First(diff, |n|);
      if Val(u) < Val(n) && Val(v) < Val(n) {
        assert Val(sum) >= Val(v);
        assert Val(diff) == Val(u) + Val(n) - Val(v);
        ValBound(n);
        ModOfSmall(Val(diff), BPow(|n|));
      }
    }
  }

  /**
   * The halving of u: to_length<N + 1>(u), or add(u, n) when u is odd,
   * shifted right by one and cut back to N limbs.
   */
  method HalveMod(u: seq<Limb>, n: seq<Limb>) returns (r: seq<Limb>)
    requires |u| == |n| >= 1
    ensures |r| == |n|
    ensures Val(u) < Val(n) ==> Val(r) == Halve(Val(u), Val(n)) && Val(r) < Val(n)
  {
    var tmp := ToLength(u, |n| + 1);
    ValBound(u);
    BPowMonotone(|u|, |u| + 1);
    ModOfSmall(Val(u), BPow(|n| + 1));
    ModExp.LowBit(u);
    if u[0] % 2 == 1 {
      tmp := Add(u, n);
    }
    assert Pow(2, 1) == 2;
    var half := ShiftRight(tmp, 1);
    r := First(half, |n|);
    if Val(u) < Val(n) {
      ValBound(n);
      ModOfSmall(Val(half), BPow(|n|));
    }
  }

  /** One iteration of the loop body on limbs. */
  method RoundLimbs(a: seq<Limb>, b: seq<Limb>, u: seq<Limb>, v: seq<Limb>, n: seq<Limb>)
    returns (a': seq<Limb>, b': seq<Limb>, u': seq<Limb>, v': seq<Limb>)
    requires |a| == |b| == |u| == |v| == |n| >= 1
    ensures |a'| == |b'| == |u'| == |v'| == |n|
    ensures Reduced(Numbers(a, b, u, v), Val(n)) ==>
      Numbers(a', b', u', v') == Round(Numbers(a, b, u, v), Val(n))
  {
    ModExp.LowBit(a);
    var odd := a[0] % 2;
    var gteq := !GreaterThan(b, a);
    a', b', u', v' := a, b, u, v;
    if odd == 1 && gteq {
      a' := MpSub(a, b);
      ValBound(a);
      ModOfSmall(Val(a) - Val(b), BPow(|a|));
    } else if odd == 1 && !gteq {
      a', b', u', v' := MpSub(b, a), a, v, u;
      ValBound(b);
      ModOfSmall(Val(b) - Val(a), BPow(|b|));
    }
    assert Pow(2, 1) == 2;
    a' := ShiftRight(a', 1);
    if odd == 1 {
      u' := SubtractMod(u', v', n);
    }
    u' := HalveMod(u', n);
  }

  /** An odd modulus of at least 3 and a number below it: the inputs the loop is meant for. */
  predicate InverseDomain(x: nat, n: nat)
  {
    n % 2 == 1 && n >= 3 && x < n
  }

  /**
   * mod_inv(x, n): 2 bit_length(n) rounds from (x, n, 1, 0), returning v.
   * For an odd n >= 3 and x < n, v is below n and v x is gcd(x, n)
   * modulo n; in particular v is the inverse of x when the two are coprime.
   */
  method ModInv(x: seq<Limb>, n: seq<Limb>) returns (v: seq<Limb>, rounds: nat)
    requires |x| == |n| >= 1
    ensures |v| == |n|
    ensures rounds == 2 * BitLength(Val(n))
    ensures InverseDomain(Val(x), Val(n)) ==> Val(v) < Val(n)
    ensures InverseDomain(Val(x), Val(n)) ==>
      (Val(x) * Val(v)) % Val(n) == Euclid(Val(x), Val(n)).g % Val(n)
    ensures InverseDomain(Val(x), Val(n)) && Euclid(Val(x), Val(n)).g == 1 ==>
      (Val(x) * Val(v)) % Val(n) == 1
  {
    var a, b, u := x, n, One(|n|);
    v := Zeros(|n|);
    var ell := BitLength(Val(n));
    var dom := InverseDomain(Val(x), Val(n));
    if dom {
      StartInvariant(Val(x), Val(n));
    }
    var i := 0;
    while i < 2 * ell
      invariant 0 <= i <= 2 * ell
      invariant |a| == |b| == |u| == |v| == |n|
      invariant dom ==> Invariant(Val(x), Val(n), Numbers(a, b, u, v))
      invariant dom ==> Shrunk(Numbers(a, b, u, v), i, Val(x) * Val(n))
    {
      ghost var s := Numbers(a, b, u, v);
      a, b, u, v := RoundLimbs(a, b, u, v, n);
      if dom {
        RoundPreserves(Val(x), Val(n), s, i, Val(x) * Val(n));
      }
      i := i + 1;
    }
    rounds := i;
    if dom {
      Finish(Val(x), Val(n), Numbers(a, b, u, v), ell);
      ModOfSmall(1, Val(n));
    }
  }
}
