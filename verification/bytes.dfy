/** Byte sequences, 32-bit unsigned integers and the in-place `Vec::reverse`
    used to move hash-valued fields between RPC and internal byte order. */
module Bytes {

  /** Rust's `u32`. */
  type u32 = x: int | 0 <= x < 0x1_0000_0000

  /** A byte-string hash function such as SHA-256; its internals are not modelled. */
  type Hasher = seq<bv8> -> seq<bv8>

  /** `a` read back to front is `b`: the effect of `Vec::reverse` on `a`. */
  ghost predicate IsReversal<T>(a: seq<T>, b: seq<T>)
  {
    && |a| == |b|
    && forall i :: 0 <= i < |a| ==> b[i] == a[|a| - 1 - i]
  }

  /** The reversal of `s`: element `i` moves to position `|s| - 1 - i`. */
  function Reverse<T>(s: seq<T>): (r: seq<T>)
    ensures IsReversal(s, r)
  {
    if |s| == 0 then [] else Reverse(s[1..]) + [s[0]]
  }

  /** Reversal relates exactly one sequence to a given one. */
  lemma ReversalUnique<T>(a: seq<T>, b: seq<T>, c: seq<T>)
    requires IsReversal(a, b) && IsReversal(a, c)
    ensures b == c
  {
    assert forall i :: 0 <= i < |b| ==> b[i] == c[i];
  }

  /** Reversal is symmetric, so reversing twice gives back the original. */
  lemma ReversalSymmetric<T>(a: seq<T>, b: seq<T>)
    requires IsReversal(a, b)
    ensures IsReversal(b, a)
  {
    forall i | 0 <= i < |b|
      ensures a[i] == b[|b| - 1 - i]
    {
      var j := |a| - 1 - i;
      assert b[j] == a[|a| - 1 - j];
    }
  }

  /** Reversing is an involution. */
  lemma ReverseInvolutive<T>(s: seq<T>)
    ensures Reverse(Reverse(s)) == s
  {
    ReversalSymmetric(s, Reverse(s));
    ReversalUnique(Reverse(s), Reverse(Reverse(s)), s);
  }
}
