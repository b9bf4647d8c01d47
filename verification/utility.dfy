/**
 * Counting limbs and bits.
 */
module Utility {
  import opened Arith
  import opened Limbs

  /**
   * tight_length(num): starting from N, step down past every zero limb on
   * the most significant side. Both overloads (std::array and
   * integer_sequence) run this same loop on the same limbs.
   */
  function TightLength(num: seq<Limb>): (l: nat)
    ensures l <= |num|
    ensures forall i :: l <= i < |num| ==> num[i] == 0
    ensures l > 0 ==> num[l - 1] != 0
  {
    TightFrom(num, |num|)
  }

  /** The loop of tight_length, entered with L limbs still to examine. */
  function TightFrom(num: seq<Limb>, l: nat): (r: nat)
    requires l <= |num|
    requires forall i :: l <= i < |num| ==> num[i] == 0
    ensures r <= l
    ensures forall i :: r <= i < |num| ==> num[i] == 0
    ensures r > 0 ==> num[r - 1] != 0
  {
    if l > 0 && num[l - 1] == 0 then TightFrom(num, l - 1) else l
  }

  /**
   * tight_length over an integer_sequence: the pack is copied into an
   * array and the same loop runs on it, so it yields the L of the array
   * overload.
   */
  method PackTightLength(pack: seq<Limb>) returns (l: nat)
    ensures l == TightLength(pack)
  {
    var num := pack;
    l := |num|;
    while l > 0 && num[l - 1] == 0
      invariant l <= |num|
      invariant forall i :: l <= i < |num| ==> num[i] == 0
      decreases l
    {
      l := l - 1;
    }
    TightLengthUnique(num, l);
  }

  /** A number is tight when its most significant limb is nonzero. */
  predicate IsTight(num: seq<Limb>)
  {
    |num| > 0 && num[|num| - 1] != 0
  }

  /**
   * The three facts in TightLength's contract pin L down: L is the only
   * length with zeros above it and a nonzero limb just below it.
   */
  lemma TightLengthUnique(num: seq<Limb>, l: nat)
    requires l <= |num|
    requires forall i :: l <= i < |num| ==> num[i] == 0
    requires l > 0 ==> num[l - 1] != 0
    ensures l == TightLength(num)
  {
  }

  /** Dropping the zero limbs above the tight length keeps the value. */
  lemma TightLengthValue(num: seq<Limb>)
    ensures Val(num[..TightLength(num)]) == Val(num)
    ensures TightLength(num) == 0 <==> Val(num) == 0
    ensures TightLength(num) > 0 ==> BPow(TightLength(num) - 1) <= Val(num)
  {
    var l := TightLength(num);
    ValSplit(num, l);
    assert num[l..] == Zeros(|num| - l);
    if l > 0 {
      ValTop(num[..l]);
      assert num[..l][..l - 1] == num[..l - 1];
      MulLe(1, num[l - 1], BPow(l - 1));
    }
  }

  /**
   * A tight number is its own tight length long, and its value lies
   * between the powers of 2^64 its length allows.
   */
  lemma TightRange(d: seq<Limb>)
    ensures IsTight(d) ==> TightLength(d) == |d| && BPow(|d| - 1) <= Val(d) < BPow(|d|)
  {
    if IsTight(d) {
      TightLengthUnique(d, |d|);
      TightLengthValue(d);
      ValBound(d);
    }
  }

  /** Two tight numbers with the same value have the same limbs. */
  lemma TightInjective(a: seq<Limb>, b: seq<Limb>)
    requires IsTight(a) && IsTight(b) && Val(a) == Val(b)
    ensures a == b
  {
    TightRange(a);
    TightRange(b);
    if |a| < |b| {
      BPowMonotone(|a|, |b| - 1);
    } else if |b| < |a| {
      BPowMonotone(|b|, |a| - 1);
    }
    ValInjective(a, b);
  }

  /**
   * A divisor or modulus given as a parameter pack: a tight number, so at
   * least 1 and every one of its limbs counted by div.
   */
  predicate ConstantDivisor(d: seq<Limb>)
    ensures ConstantDivisor(d) ==> Val(d) >= 1 && TightLength(d) == |d|
  {
    TightRange(d);
    IsTight(d)
  }

  /** The least number of bits that hold x (bit_length). */
  function BitLength(x: nat): (n: nat)
    ensures x == 0 <==> n == 0
    ensures x > 0 ==> Pow(2, n - 1) <= x < Pow(2, n)
  {
    if x == 0 then 0 else 1 + BitLength(x / 2)
  }
}
