/** Big-endian bit strings as numbers: order, exclusive or, leading zeros. */
module BitStrings {

  function Pow2(n: nat): (p: nat)
    ensures p >= 1
  {
    if n == 0 then 1 else 2 * Pow2(n - 1)
  }

  function Value(bits: seq<bool>): nat {
    if bits == [] then 0
    else (if bits[0] then Pow2(|bits| - 1) else 0) + Value(bits[1..])
  }

  function Xor(a: seq<bool>, b: seq<bool>): (c: seq<bool>)
    requires |a| == |b|
    ensures |c| == |a|
  {
    seq(|a|, i requires 0 <= i < |a| => a[i] != b[i])
  }

  lemma {:induction false} ValueBound(bits: seq<bool>)
    ensures Value(bits) < Pow2(|bits|)
  {
    if bits != [] {
      ValueBound(bits[1..]);
    }
  }

  /** The first differing bit decides which of two equally long strings is smaller. */
  lemma {:induction false} ValueOrder(a: seq<bool>, b: seq<bool>, p: nat)
    requires p < |a| == |b|
    requires a[..p] == b[..p] && a[p] != b[p]
    ensures if b[p] then Value(a) < Value(b) else Value(b) < Value(a)
  {
    ValueBound(a[1..]);
    ValueBound(b[1..]);
    if p > 0 {
      assert a[0] == a[..p][0] && b[0] == b[..p][0];
      assert a[1..][..p - 1] == a[..p][1..] && b[1..][..p - 1] == b[..p][1..];
      ValueOrder(a[1..], b[1..], p - 1);
    }
  }

  /** Carry-free addition never exceeds addition. */
  lemma {:induction false} XorAtMostSum(a: seq<bool>, b: seq<bool>)
    requires |a| == |b|
    ensures Value(Xor(a, b)) <= Value(a) + Value(b)
  {
    if a != [] {
      XorAtMostSum(a[1..], b[1..]);
      assert Xor(a, b)[1..] == Xor(a[1..], b[1..]);
    }
  }

  /** A string whose first set bit is bit `p` lies in the binary octave of that bit. */
  lemma {:induction false} LeadingBit(bits: seq<bool>, p: nat)
    requires p < |bits| && bits[p]
    requires forall q :: 0 <= q < p ==> !bits[q]
    ensures Pow2(|bits| - 1 - p) <= Value(bits) < Pow2(|bits| - p)
  {
    if p == 0 {
      ValueBound(bits);
    } else {
      LeadingBit(bits[1..], p - 1);
    }
  }

  lemma {:induction false} AllZero(bits: seq<bool>)
    requires forall q :: 0 <= q < |bits| ==> !bits[q]
    ensures Value(bits) == 0
  {
    if bits != [] {
      AllZero(bits[1..]);
    }
  }

  lemma {:induction false} Pow2Monotone(m: nat, n: nat)
    requires m <= n
    ensures Pow2(m) <= Pow2(n)
  {
    if m < n {
      Pow2Monotone(m, n - 1);
    }
  }
}
