/** Bits of a size, and the bin that holds it (compute_tree_index, minsize_for_tree_index and
    leftshift_for_tree_index in common/malloc.c, in the portable variant). */
module DlBits {

  /** The size without its `k` low bits: s >> k. */
  function Top(s: nat, k: nat): nat {
    if k == 0 then s else Top(s, k - 1) / 2
  }

  function Bit(s: nat, k: nat): nat {
    Top(s, k) % 2
  }

  function Pow2(k: nat): (p: nat)
    ensures p > 0
  {
    if k == 0 then 1 else 2 * Pow2(k - 1)
  }

  lemma {:induction false} Pow2Grows(i: nat, j: nat)
    ensures i <= j ==> Pow2(i) <= Pow2(j)
    ensures i < j ==> 2 * Pow2(i) <= Pow2(j)
    decreases j
  {
    if i < j {
      Pow2Grows(i, j - 1);
    }
  }

  lemma TopStep(s: nat, k: nat)
    ensures Top(s, k) == 2 * Top(s, k + 1) + Bit(s, k)
  {
  }

  lemma {:induction false} TopAdd(s: nat, a: nat, b: nat)
    ensures Top(s, a + b) == Top(Top(s, a), b)
  {
    if b > 0 {
      TopAdd(s, a, b - 1);
    }
  }

  /** Comparing the high bits decides, where they differ. */
  lemma {:induction false} TopOrders(s: nat, t: nat, k: nat)
    requires Top(s, k) < Top(t, k)
    ensures s < t
  {
    if k > 0 {
      TopOrders(s, t, k - 1);
    }
  }

  lemma HalveProduct(q: nat, p: nat)
    ensures (2 * q) * p == q * (2 * p)
    ensures (2 * q + 1) * p == q * (2 * p) + p
    ensures (2 * q + 2) * p == (q + 1) * (2 * p)
  {
  }

  /** The sizes with high bits `q` form one interval. */
  lemma {:induction false} TopInterval(s: nat, k: nat, q: nat)
    ensures Top(s, k) == q <==> q * Pow2(k) <= s < (q + 1) * Pow2(k)
  {
    if k > 0 {
      var p := Pow2(k - 1);
      HalveProduct(q, p);
      TopInterval(s, k - 1, 2 * q);
      TopInterval(s, k - 1, 2 * q + 1);
      assert (2 * q + 1 + 1) * p == (2 * q + 2) * p;
    }
  }

  // ---- tree bins ----------------------------------------------------------------------------

  const NTREEBINS := 32

  /** The number of size bits a bin leaves open, and the value of the bits above them.  The last
      bin takes every larger size and leaves all bits open. */
  function OpenBits(i: nat): nat {
    if i == NTREEBINS - 1 then SIZE_BITS else i / 2 + 7
  }

  function Prefix(i: nat): nat {
    if i == NTREEBINS - 1 then 0 else 2 + i % 2
  }

  /** minsize_for_tree_index */
  function MinSize(i: nat): nat {
    if i % 2 == 0 then 2 * Pow2(i / 2 + 7) else 3 * Pow2(i / 2 + 7)
  }

  /** Subtraction of 32-bit unsigned numbers, of which the upper half is kept. */
  function UpperHalfOfDifference(y: nat, c: nat): nat {
    ((y - c) % 0x1_0000_0000) / 0x1_0000
  }

  /** The position of the highest set bit of a 16-bit number: the source takes bits 3, 2 and 1
      of a difference that wraps around exactly when `y` is the smaller number. */
  function HighBit(y0: nat): (k: int)
    requires 0 < y0 <= 0xFFFF
  {
    var n0 := 8 * (UpperHalfOfDifference(y0, 0x100) / 8 % 2);
    var y1 := if n0 == 8 then y0 * 256 else y0;
    var k1 := 4 * (UpperHalfOfDifference(y1, 0x1000) / 4 % 2);
    var y2 := if k1 == 4 then y1 * 16 else y1;
    var k2 := 2 * (UpperHalfOfDifference(y2, 0x4000) / 2 % 2);
    var y3 := if k2 == 2 then y2 * 4 else y2;
    14 - (n0 + k1 + k2) + y3 / 0x8000
  }

  lemma WrapDetectsBelow(y: nat, c: nat)
    requires y < 0x1_0000 && 0 < c <= 0x4000
    ensures UpperHalfOfDifference(y, c) == if y < c then 0xFFFF else 0
    ensures 8 * (UpperHalfOfDifference(y, c) / 8 % 2) == if y < c then 8 else 0
    ensures 4 * (UpperHalfOfDifference(y, c) / 4 % 2) == if y < c then 4 else 0
    ensures 2 * (UpperHalfOfDifference(y, c) / 2 % 2) == if y < c then 2 else 0
  {
    if y < c {
      assert (y - c) % 0x1_0000_0000 == 0x1_0000_0000 + y - c;
    }
  }

  lemma Pow2Values()
    ensures Pow2(0) == 1 && Pow2(1) == 2 && Pow2(2) == 4 && Pow2(3) == 8
    ensures Pow2(4) == 16 && Pow2(5) == 32 && Pow2(6) == 64 && Pow2(7) == 128
    ensures Pow2(8) == 0x100 && Pow2(9) == 0x200 && Pow2(10) == 0x400 && Pow2(11) == 0x800
    ensures Pow2(12) == 0x1000 && Pow2(13) == 0x2000 && Pow2(14) == 0x4000 && Pow2(15) == 0x8000
    ensures Pow2(16) == 0x10000
  {
  }

  /** The same by halving the range three times. */
  function HighBitByCases(y0: nat): int {
    var (n0, y1) := if y0 < 0x100 then (8, y0 * 256) else (0, y0);
    var (k1, y2) := if y1 < 0x1000 then (4, y1 * 16) else (0, y1);
    var (k2, y3) := if y2 < 0x4000 then (2, y2 * 4) else (0, y2);
    14 - (n0 + k1 + k2) + y3 / 0x8000
  }

  lemma HighBitCases(y: nat)
    requires 0 < y <= 0xFFFF
    ensures HighBit(y) == HighBitByCases(y)
  {
    WrapDetectsBelow(y, 0x100);
    var y1 := if y < 0x100 then y * 256 else y;
    WrapDetectsBelow(y1, 0x1000);
    var y2 := if y1 < 0x1000 then y1 * 16 else y1;
    WrapDetectsBelow(y2, 0x4000);
  }

  lemma CasesFindHighest(y: nat)
    requires 0 < y <= 0xFFFF
    ensures 0 <= HighBitByCases(y) <= 15
    ensures Top(y, HighBitByCases(y)) == 1
  {
    Pow2Values();
    TopInterval(y, HighBitByCases(y), 1);
  }

  lemma HighBitIsHighest(y: nat)
    requires 0 < y <= 0xFFFF
    ensures 0 <= HighBit(y) <= 15
    ensures Top(y, HighBit(y)) == 1
  {
    HighBitCases(y);
    CasesFindHighest(y);
  }

  /** compute_tree_index */
  function TreeIndex(s: nat): nat
  {
    var x := s / 0x100;
    if x == 0 then 0
    else if x > 0xFFFF then NTREEBINS - 1
    else
      HighBitIsHighest(x);
      2 * HighBit(x) + Bit(s, HighBit(x) + 7)
  }

  lemma TopEight(s: nat)
    ensures Top(s, 8) == s / 0x100
  {
    Pow2Values();
    TopInterval(s, 8, s / 0x100);
  }

  /** Sizes are 64 bits wide. */
  const SIZE_BITS: nat := 64

  predicate IsSize(s: nat) {
    s < 0x1_0000_0000_0000_0000
  }

  lemma NothingAbove(s: nat)
    requires IsSize(s)
    ensures Top(s, SIZE_BITS) == 0
  {
    Pow2Values();
    Pow2Sum(16, 16);
    Pow2Sum(32, 32);
    TopInterval(s, SIZE_BITS, 0);
  }

  lemma {:induction false} Pow2Sum(a: nat, b: nat)
    ensures Pow2(a + b) == Pow2(a) * Pow2(b)
  {
    if b > 0 {
      Pow2Sum(a, b - 1);
      assert Pow2(a + b) == 2 * Pow2(a + (b - 1)) && Pow2(b) == 2 * Pow2(b - 1);
      hide Pow2;
      DoubleInside(Pow2(a), Pow2(b - 1));
    }
  }

  lemma DoubleInside(p: nat, q: nat)
    ensures p * (2 * q) == 2 * (p * q)
  {
  }

  lemma IndexBelowLast(s: nat, k: nat, b: nat)
    requires Top(s, k + 8) == 1 && b == Bit(s, k + 7)
    ensures Top(s, k + 7) == 2 + b
    ensures MinSize(2 * k + b) <= s < MinSize(2 * k + b + 1)
  {
    TopStep(s, k + 7);
    var i := 2 * k + b;
    var p := Pow2(k + 7);
    if b == 0 {
      assert i / 2 == (i + 1) / 2 == k;
      TopInterval(s, k + 7, 2);
    } else {
      assert i / 2 == k && (i + 1) / 2 == k + 1;
      assert Pow2(k + 8) == 2 * p;
      TopInterval(s, k + 7, 3);
    }
  }

  /** The smallest size of the last bin. */
  lemma LastMinSize()
    ensures MinSize(NTREEBINS - 1) == 0xC00000
  {
    Pow2Values();
    var p := Pow2(16);
    assert Pow2(19) == 8 * p;
    assert Pow2(22) == 8 * Pow2(19);
    assert (NTREEBINS - 1) / 2 + 7 == 22 && (NTREEBINS - 1) % 2 == 1;
  }

  lemma TreeIndexParts(s: nat)
    requires 0x100 <= s && s / 0x100 <= 0xFFFF
    ensures var k := HighBit(s / 0x100);
            0 <= k <= 15 && Top(s, k + 8) == 1 && TreeIndex(s) == 2 * k + Bit(s, k + 7)
  {
    hide HighBit;
    TopEight(s);
    HighBitIsHighest(s / 0x100);
    TopAdd(s, 8, HighBit(s / 0x100));
  }

  /** Size `s` lies in bin `i`: it has the bin's prefix, and the bin's bounds hold. */
  ghost predicate LiesIn(s: nat, i: nat) {
    && i < NTREEBINS && Top(s, OpenBits(i)) == Prefix(i) && MinSize(i) <= s
    && (i < NTREEBINS - 1 ==> s < MinSize(i + 1))
  }

  lemma BitIsBit(s: nat, k: nat)
    ensures Bit(s, k) <= 1
  {
  }

  lemma BinOfParts(s: nat, k: nat)
    requires IsSize(s) && k <= 15 && Top(s, k + 8) == 1
    ensures LiesIn(s, 2 * k + Bit(s, k + 7))
  {
    hide Top, Bit, MinSize;
    var b := Bit(s, k + 7);
    BitIsBit(s, k + 7);
    IndexBelowLast(s, k, b);
    NothingAbove(s);
    assert (2 * k + b) / 2 == k && (2 * k + b) % 2 == b;
  }

  /** A chunk size lies in its bin. */
  lemma TreeIndexSound(s: nat)
    requires 0x100 <= s && IsSize(s)
    ensures TreeIndex(s) < NTREEBINS
    ensures Top(s, OpenBits(TreeIndex(s))) == Prefix(TreeIndex(s))
    ensures MinSize(TreeIndex(s)) <= s
    ensures TreeIndex(s) < NTREEBINS - 1 ==> s < MinSize(TreeIndex(s) + 1)
  {
    hide Top, Bit, MinSize, HighBit;
    if s / 0x100 > 0xFFFF {
      LastMinSize();
      NothingAbove(s);
    } else {
      TreeIndexParts(s);
      BinOfParts(s, HighBit(s / 0x100));
    }
  }

  lemma {:induction false} MinSizeMonotone(i: nat, j: nat)
    requires i <= j
    ensures MinSize(i) <= MinSize(j)
  {
    if i < j {
      MinSizeMonotone(i, j - 1);
      var k := (j - 1) / 2;
      if j % 2 == 1 {
        assert j / 2 == k;
      } else {
        assert j / 2 == k + 1;
      }
    }
  }

  /** Lower bins hold smaller sizes. */
  lemma TreeIndexOrders(s: nat, t: nat)
    requires 0x100 <= s && IsSize(s) && 0x100 <= t && IsSize(t)
    requires TreeIndex(s) < TreeIndex(t)
    ensures s < t
  {
    TreeIndexSound(s);
    TreeIndexSound(t);
    MinSizeMonotone(TreeIndex(s) + 1, TreeIndex(t));
  }
}
