/**
 * Limb plumbing: cutting, padding and placing limbs. Each operation is a
 * multiplication or division by, or a reduction modulo, a power of 2^64.
 */
module Slicing {
  import opened Arith
  import opened Limbs

  /** The limbs from..to-1 of t read as a number are digits from..to-1 of Val(t). */
  lemma ValSlice(t: seq<Limb>, from: nat, to: nat)
    requires from <= to <= |t|
    ensures Val(t[from..to]) == (Val(t) / BPow(from)) % BPow(to - from)
  {
    ValSplit(t, from);
    var hi := t[from..];
    assert hi[..to - from] == t[from..to];
    ValSplit(hi, to - from);
  }

  /**
   * take<Begin, End, Padding>(t): limbs Begin..End-1 of t moved down to
   * position 0, followed by Padding zero limbs. Reading limb End-1 needs
   * End <= N.
   */
  function Take(t: seq<Limb>, begin: nat, end: nat, padding: nat): (r: seq<Limb>)
    requires begin <= end <= |t|
    ensures |r| == end - begin + padding
    ensures forall i :: 0 <= i < end - begin ==> r[i] == t[begin + i]
    ensures forall i :: end - begin <= i < |r| ==> r[i] == 0
    ensures Val(r) == (Val(t) / BPow(begin)) % BPow(end - begin)
  {
    ValSlice(t, begin, end);
    ValZeroExtend(t[begin..end], padding);
    t[begin..end] + Zeros(padding)
  }

  /**
   * The run-time take<ResultLength>(t, Begin, End). Its range checks are
   * disabled, so the caller must guarantee that the copied window lies
   * inside t and fits in the result; an empty window gives zero.
   */
  function TakeRange(t: seq<Limb>, resultLength: nat, begin: nat, end: nat): (r: seq<Limb>)
    requires begin < end ==> end <= |t| && end - begin <= resultLength
    ensures |r| == resultLength
    ensures begin < end ==> Val(r) == (Val(t) / BPow(begin)) % BPow(end - begin)
    ensures begin >= end ==> Val(r) == 0
  {
    if begin < end then Take(t, begin, end, resultLength - (end - begin))
    else Zeros(resultLength)
  }

  /** skip<N>(t): drop the N least significant limbs. */
  function Skip(t: seq<Limb>, n: nat): (r: seq<Limb>)
    requires n <= |t|
    ensures |r| == |t| - n
    ensures Val(r) == Val(t) / BPow(n)
  {
    assert Val(t) / BPow(n) < BPow(|t| - n) by {
      ValSplit(t, n);
      ValBound(t[n..]);
    }
    ModOfSmall(Val(t) / BPow(n), BPow(|t| - n));
    Take(t, n, |t|, 0)
  }

  /** first<N>(t): keep the N least significant limbs. */
  function First(t: seq<Limb>, n: nat): (r: seq<Limb>)
    requires n <= |t|
    ensures |r| == n
    ensures Val(r) == Val(t) % BPow(n)
  {
    Take(t, 0, n, 0)
  }

  /** pad<N>(t): N zero limbs on the most significant side. */
  function Pad(t: seq<Limb>, n: nat): (r: seq<Limb>)
    ensures |r| == |t| + n
    ensures r[..|t|] == t
    ensures Val(r) == Val(t)
  {
    ValBound(t);
    ModOfSmall(Val(t), BPow(|t|));
    Take(t, 0, |t|, n)
  }

  /** place_at<N>(value, K): N limbs, all zero except limb K which holds value. */
  function PlaceAt(value: Limb, k: nat, n: nat): (r: seq<Limb>)
    requires k < n
    ensures |r| == n
    ensures Val(r) == value * BPow(k)
  {
    var r := Zeros(n)[k := value];
    assert r == Zeros(k) + [value] + Zeros(n - k - 1);
    ValAppend(Zeros(k) + [value], Zeros(n - k - 1));
    ValPush(Zeros(k), value);
    r
  }

  /** unary_encoding<K, N>() and unary_encoding<N>(K): the number 2^(64K) in N limbs. */
  function UnaryEncoding(k: nat, n: nat): (r: seq<Limb>)
    requires k < n
    ensures |r| == n
    ensures Val(r) == BPow(k)
  {
    PlaceAt(1, k, n)
  }

  /** to_length<N>(t): truncate or zero-extend t to N limbs. */
  function ToLength(t: seq<Limb>, n: nat): (r: seq<Limb>)
    ensures |r| == n
    ensures Val(r) == Val(t) % BPow(n)
  {
    if n <= |t| then First(t, n)
    else
      ValBound(t);
      BPowMonotone(|t|, n);
      ModOfSmall(Val(t), BPow(n));
      Pad(t, n - |t|)
  }

  /** limbwise_shift_left<N>(t, i): t moved up by i limbs, truncated to N limbs. */
  function LimbwiseShiftLeft(t: seq<Limb>, i: nat, n: nat): (r: seq<Limb>)
    ensures |r| == n
    ensures Val(r) == (Val(t) * BPow(i)) % BPow(n)
  {
    ValAppend(Zeros(i), t);
    ToLength(Zeros(i) + t, n)
  }
}
