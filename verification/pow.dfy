/**
 * pow(base, exp): the integer power truncated to the N1 limbs of base,
 * computed right to left, one bit of the 64-bit exponent per round.
 */
module Power {
  import opened Arith
  import opened Limbs
  import opened Utility
  import opened Mult

  /** big_int<N>{1}: the number one in n limbs. */
  function One(n: nat): (r: seq<Limb>)
    requires n > 0
    ensures |r| == n && Val(r) == 1
  {
    ValCons(1, Zeros(n - 1));
    [1] + Zeros(n - 1)
  }

  /**
   * One round of the loop, on values: the low bit of e is consumed, the
   * result picks up one factor of base when the bit is set, and base is
   * squared. The product result * base^e stays the same modulo m.
   */
  lemma PowRound(r: nat, b: nat, e: nat, r': nat, b': nat, m: nat)
    requires m > 0
    requires r' == (if e % 2 == 1 then (b * r) % m else r)
    requires b' == (b * b) % m
    ensures (r' * Pow(b', e / 2)) % m == (r * Pow(b, e)) % m
  {
    PowHalve(b, e);
    ModMod(b * b, m, 1);
    PowCongruent(b', b * b, e / 2, m);
    if e % 2 == 1 {
      assert Pow(b, 1) == b;
    } else {
      assert Pow(b, 0) == 1;
    }
    RoundResidue(r, b, Pow(b, e), Pow(b * b, e / 2), Pow(b', e / 2), r', m, e % 2 == 1);
  }

  /** PowRound on plain numbers: p = b^e, q = (b^2)^(e/2), q' = (b')^(e/2). */
  lemma RoundResidue(r: nat, b: nat, p: nat, q: nat, q': nat, r': nat, m: nat, odd: bool)
    requires m > 0
    requires p == (if odd then b * q else q)
    requires q' % m == q % m
    requires r' == (if odd then (b * r) % m else r)
    ensures (r' * q') % m == (r * p) % m
  {
    if odd {
      ModMod(b * r, m, 1);
      ModCongruentMul(r', b * r, q', q, m);
      MulAssoc(r, b, q);
    } else {
      ModCongruentMul(r, r, q', q, m);
    }
  }

  /** The round that consumes the last set bit leaves result = result * base. */
  lemma LastRound(r: nat, b: nat, e: nat, m: nat)
    requires m > 0 && e == 1
    ensures (r * Pow(b, e)) % m == (b * r) % m
  {
    assert Pow(b, 1) == b;
  }

  /**
   * pow(base, exp) with the number of loop rounds: the result is
   * base^exp mod 2^(64 N1), and the loop runs once per bit of exp.
   */
  method TruncatedPow(base0: seq<Limb>, exp0: Limb) returns (result: seq<Limb>, rounds: nat)
    requires |base0| > 0
    ensures |result| == |base0|
    ensures Val(result) == Pow(Val(base0), exp0) % BPow(|base0|)
    ensures exp0 == 0 ==> Val(result) == 1
    ensures rounds == BitLength(exp0)
  {
    var n := |base0|;
    var m := BPow(n);
    BPowStrict(0, n);
    result := One(n);
    rounds := 0;
    if exp0 == 0 {
      assert Pow(Val(base0), exp0) == 1;
      ModOfSmall(1, m);
      return;
    }
    var base := base0;
    var e: nat := exp0;
    ModOfSmall(Val(result), m);
    while true
      invariant |base| == n && |result| == n
      invariant 0 < e
      invariant (Val(result) * Pow(Val(base), e)) % m == Pow(Val(base0), exp0) % m
      invariant rounds + BitLength(e) == BitLength(exp0)
      decreases e
    {
      var lsb := e % 2;
      ghost var r, b, e0 := Val(result), Val(base), e;
      e := e / 2;
      rounds := rounds + 1;
      if lsb == 1 {
        result := PartialMul(base, result, n);
        if e == 0 {
          LastRound(r, b, e0, m);
          break;
        }
      }
      base := PartialMul(base, base, n);
      PowRound(r, b, e0, Val(result), Val(base), m);
    }
  }
}
