/** The bitmask arithmetic of the Held-Karp table, on unbounded naturals:
    `1 << i` is `Pow2(i)`, `(mask & (1 << i)) != 0` is `Bit(mask, i)`, setting a clear
    bit is adding its power of two and clearing a set bit is subtracting it. */
module Bitmask {

  function Pow2(i: nat): (r: nat)
    ensures r >= 1
  {
    if i == 0 then 1 else 2 * Pow2(i - 1)
  }

  /** Bit `i` of `mask` is set. */
  predicate Bit(mask: nat, i: nat)
  {
    if i == 0 then mask % 2 == 1 else Bit(mask / 2, i - 1)
  }

  /** All positions of a list of indices are different. */
  ghost predicate Distinct(s: seq<nat>)
  {
    forall a, b :: 0 <= a < b < |s| ==> s[a] != s[b]
  }

  /** The mask whose set bits are the elements of `s` (for distinct `s`). */
  function MaskOf(s: seq<nat>): nat
  {
    if s == [] then 0 else MaskOf(s[..|s| - 1]) + Pow2(s[|s| - 1])
  }

  lemma {:induction false} NoBitsOfZero(i: nat)
    ensures !Bit(0, i)
  {
    if i > 0 { NoBitsOfZero(i - 1); }
  }

  /** The start mask `1 << 0` holds index 0 and nothing else. */
  lemma BitsOfOne(i: nat)
    ensures Bit(1, i) <==> i == 0
  {
    if i > 0 { NoBitsOfZero(i - 1); }
  }

  /** Setting a clear bit `j` (`mask | (1 << j)`) adds `Pow2(j)` and changes no other bit. */
  lemma {:induction false} SetBit(m: nat, j: nat, i: nat)
    requires !Bit(m, j)
    ensures Bit(m + Pow2(j), i) <==> Bit(m, i) || i == j
  {
    if j == 0 {
      assert m % 2 == 0;
      if i > 0 { assert (m + 1) / 2 == m / 2; }
    } else {
      var p := Pow2(j - 1);
      assert m + Pow2(j) == m + 2 * p;
      assert (m + 2 * p) % 2 == m % 2;
      if i > 0 {
        assert (m + 2 * p) / 2 == m / 2 + p;
        SetBit(m / 2, j - 1, i - 1);
      }
    }
  }

  /** A set bit `j` accounts for at least `Pow2(j)` of the mask. */
  lemma {:induction false} BitLowerBound(m: nat, j: nat)
    requires Bit(m, j)
    ensures m >= Pow2(j)
  {
    if j > 0 { BitLowerBound(m / 2, j - 1); }
  }

  lemma {:induction false} ClearedBitIsClear(m: nat, j: nat)
    requires Bit(m, j)
    ensures m >= Pow2(j) && !Bit(m - Pow2(j), j)
  {
    BitLowerBound(m, j);
    if j > 0 {
      var p := Pow2(j - 1);
      assert (m - 2 * p) / 2 == m / 2 - p;
      BitLowerBound(m / 2, j - 1);
      ClearedBitIsClear(m / 2, j - 1);
    }
  }

  /** Clearing a set bit `j` (`mask ^= (1 << j)`) subtracts `Pow2(j)` and changes no other bit. */
  lemma ClearBit(m: nat, j: nat, i: nat)
    requires Bit(m, j)
    ensures m >= Pow2(j)
    ensures Bit(m - Pow2(j), i) <==> Bit(m, i) && i != j
  {
    ClearedBitIsClear(m, j);
    SetBit(m - Pow2(j), j, i);
  }

  /** Below `1 << n` only bits `0 .. n-1` can be set. */
  lemma {:induction false} BitBelowWidth(m: nat, n: nat, i: nat)
    requires m < Pow2(n) && Bit(m, i)
    ensures i < n
  {
    if n == 0 {
      NoBitsOfZero(i);
    } else if i > 0 {
      BitBelowWidth(m / 2, n - 1, i - 1);
    }
  }

  /** Setting a clear bit below `n` keeps the mask below `1 << n`. */
  lemma {:induction false} SetBitStaysBelow(m: nat, n: nat, j: nat)
    requires m < Pow2(n) && j < n && !Bit(m, j)
    ensures m + Pow2(j) < Pow2(n)
  {
    var half := Pow2(n - 1);
    assert Pow2(n) == 2 * half;
    if j == 0 {
      assert m % 2 == 0;
      assert m == 2 * (m / 2);
      assert m / 2 < half;
    } else {
      assert m / 2 < half;
      SetBitStaysBelow(m / 2, n - 1, j - 1);
      assert Pow2(j) == 2 * Pow2(j - 1);
      assert m == 2 * (m / 2) + m % 2;
    }
  }

  /** `(1 << n) - 1` has exactly bits `0 .. n-1` set. */
  lemma {:induction false} FullMaskBits(n: nat, i: nat)
    requires n >= 1
    ensures Bit(Pow2(n) - 1, i) <==> i < n
  {
    if i == 0 {
    } else if n == 1 {
      NoBitsOfZero(i - 1);
    } else {
      assert (Pow2(n) - 1) / 2 == Pow2(n - 1) - 1;
      FullMaskBits(n - 1, i - 1);
    }
  }

  /** A mask is determined by its bits. */
  lemma {:induction false} SameBitsSameMask(m1: nat, m2: nat)
    requires forall i: nat :: Bit(m1, i) == Bit(m2, i)
    ensures m1 == m2
    decreases m1 + m2
  {
    if m1 + m2 > 0 {
      forall i: nat ensures Bit(m1 / 2, i) == Bit(m2 / 2, i) {
        assert Bit(m1, i + 1) == Bit(m2, i + 1);
      }
      SameBitsSameMask(m1 / 2, m2 / 2);
      assert Bit(m1, 0) == Bit(m2, 0);
    }
  }

  /** The bits of the mask of distinct indices are those indices, and the mask stays below
      `1 << n` when every index does. */
  lemma {:induction false} MaskOfBits(s: seq<nat>, n: nat)
    requires Distinct(s)
    requires forall k :: 0 <= k < |s| ==> s[k] < n
    ensures MaskOf(s) < Pow2(n)
    ensures forall i: nat :: Bit(MaskOf(s), i) <==> i in s
  {
    if s == [] {
      forall i: nat ensures !Bit(0, i) { NoBitsOfZero(i); }
    } else {
      var init, x := s[..|s| - 1], s[|s| - 1];
      assert s == init + [x];
      MaskOfBits(init, n);
      assert forall k :: 0 <= k < |init| ==> init[k] == s[k] && s[k] != x;
      assert x !in init;
      SetBitStaysBelow(MaskOf(init), n, x);
      forall i: nat ensures Bit(MaskOf(s), i) <==> i in s {
        SetBit(MaskOf(init), x, i);
      }
    }
  }
}
