/**
  Subsets of candidate indices encoded as bit masks, as `findMaxFeeSet`
  enumerates them. A mask is a natural number; bit `i` is set when the
  mask halved `i` times is odd, which is what `(mask & (1 << i)) != 0`
  tests for the masks and indices that loop uses.
*/
module Masks {

  function Pow2(k: nat): (r: nat)
    ensures r >= 1
  {
    if k == 0 then 1 else 2 * Pow2(k - 1)
  }

  /** Bit `i` of `mask`. */
  predicate Bit(mask: nat, i: nat)
    decreases i
  {
    if i == 0 then mask % 2 == 1 else Bit(mask / 2, i - 1)
  }

  /** The empty mask has no bit set. */
  lemma {:induction false} ZeroHasNoBits(i: nat)
    ensures !Bit(0, i)
    decreases i
  {
    if i > 0 {
      ZeroHasNoBits(i - 1);
    }
  }

  /** The mask whose bit `i` is `bits[i]`, for every `i < |bits|`. */
  function MaskOf(bits: seq<bool>): (m: nat)
    ensures m < Pow2(|bits|)
    ensures forall i :: 0 <= i < |bits| ==> (Bit(m, i) <==> bits[i])
    decreases |bits|
  {
    if |bits| == 0 then 0
    else
      var rest := MaskOf(bits[1..]);
      var m := (if bits[0] then 1 else 0) + 2 * rest;
      assert m / 2 == rest;
      assert forall i :: 1 <= i < |bits| ==> bits[1..][i - 1] == bits[i];
      m
  }

  /**
    Masks below `2^n` are ordered at least as their bit sets are: if every bit
    of `a` is a bit of `b` then `a <= b`, and `a < b` when `b` has a bit `a`
    lacks.
  */
  lemma {:induction false} SubsetMaskIsSmaller(a: nat, b: nat, n: nat)
    requires a < Pow2(n) && b < Pow2(n)
    requires forall i :: 0 <= i < n && Bit(a, i) ==> Bit(b, i)
    ensures a <= b
    ensures (exists i :: 0 <= i < n && Bit(b, i) && !Bit(a, i)) ==> a < b
    decreases n
  {
    if n > 0 {
      assert Bit(a, 0) ==> Bit(b, 0);
      forall i | 0 <= i < n - 1 && Bit(a / 2, i)
        ensures Bit(b / 2, i)
      {
        assert Bit(a, i + 1);
      }
      SubsetMaskIsSmaller(a / 2, b / 2, n - 1);
      if exists i :: 0 <= i < n && Bit(b, i) && !Bit(a, i) {
        var i :| 0 <= i < n && Bit(b, i) && !Bit(a, i);
        if i > 0 {
          assert Bit(b / 2, i - 1) && !Bit(a / 2, i - 1);
        }
      }
    }
  }

  /** The indices `i < n` whose bit is set in `mask`, in increasing order. */
  function Members(mask: nat, n: nat): (r: seq<nat>)
    ensures forall k :: 0 <= k < |r| ==> r[k] < n && Bit(mask, r[k])
    ensures forall i :: 0 <= i < n && Bit(mask, i) ==> i in r
    ensures forall k, l :: 0 <= k < l < |r| ==> r[k] < r[l]
    decreases n
  {
    if n == 0 then []
    else Members(mask, n - 1) + (if Bit(mask, n - 1) then [n - 1] else [])
  }
}
