/**
 * Comparison of limb sequences.
 */
module RelationalOps {
  import opened Arith
  import opened Limbs
  import opened Slicing

  /** When the most significant limbs differ, they alone decide the order. */
  lemma TopLimbDecides(a: seq<Limb>, b: seq<Limb>)
    requires |a| == |b| > 0 && a[|a| - 1] > b[|b| - 1]
    ensures Val(a) > Val(b)
  {
    var n := |a| - 1;
    ValTop(a);
    ValTop(b);
    ValBound(b[..n]);
    MulLe(b[n] + 1, a[n], BPow(n));
  }

  /**
   * greater_than_(a, b): a lexicographic comparison of the reversed limb
   * sequences, that is, from the most significant limb down; the first
   * limb where they differ decides, and equal sequences compare false.
   */
  function GreaterThanSame(a: seq<Limb>, b: seq<Limb>): (r: bool)
    requires |a| == |b|
    ensures r <==> Val(a) > Val(b)
    decreases |a|
  {
    if |a| == 0 then false
    else
      var n := |a| - 1;
      if b[n] < a[n] then
        TopLimbDecides(a, b);
        true
      else if a[n] < b[n] then
        TopLimbDecides(b, a);
        false
      else
        ValTop(a);
        ValTop(b);
        GreaterThanSame(a[..n], b[..n])
  }

  /** greater_than(a, b) for operands of different lengths: zero-pad both to the longer length. */
  function GreaterThan(a: seq<Limb>, b: seq<Limb>): (r: bool)
    ensures r <==> Val(a) > Val(b)
  {
    var l := if |a| < |b| then |b| else |a|;
    GreaterThanSame(Pad(a, l - |a|), Pad(b, l - |b|))
  }

  /** is_equal(a, b) and operator== on equal lengths: limb-wise equality. */
  function IsEqual(a: seq<Limb>, b: seq<Limb>): (r: bool)
    requires |a| == |b|
    ensures r <==> Val(a) == Val(b)
  {
    assert Val(a) == Val(b) ==> a == b by {
      if Val(a) == Val(b) {
        ValInjective(a, b);
      }
    }
    a == b
  }

  /**
   * On equal lengths exactly one of a > b, b > a and a == b holds; in
   * particular greater_than is irreflexive and asymmetric.
   */
  lemma Trichotomy(a: seq<Limb>, b: seq<Limb>)
    requires |a| == |b|
    ensures !GreaterThanSame(a, a)
    ensures GreaterThanSame(a, b) ==> !GreaterThanSame(b, a)
    ensures (GreaterThanSame(a, b) || GreaterThanSame(b, a) || a == b)
    ensures a == b ==> !GreaterThanSame(a, b) && !GreaterThanSame(b, a)
  {
    if !GreaterThanSame(a, b) && !GreaterThanSame(b, a) {
      ValInjective(a, b);
    }
  }
}
