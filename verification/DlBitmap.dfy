/** The bit tricks on 32-bit bin maps (idx2bit, mark and clear, least_bit, left_bits and the
    portable compute_bit2idx in common/malloc.c). */
module DlBitmap {

  predicate On(m: bv32, i: bv32) {
    i < 32 && (m >> i) & 1 == 1
  }

  function BitAt(i: bv32): bv32
    requires i < 32
  {
    (1 as bv32) << i
  }

  function LeastBit(x: bv32): bv32 {
    x & -x
  }

  function LeftBits(x: bv32): bv32 {
    (x << 1) | -(x << 1)
  }

  /** compute_bit2idx */
  function BitIndex(x: bv32): bv32 {
    var y := x - 1;
    var k := (y >> 12) & 16;
    var n := k;
    var y := y >> k;
    var k := (y >> 5) & 8;
    var n := n + k;
    var y := y >> k;
    var k := (y >> 2) & 4;
    var n := n + k;
    var y := y >> k;
    var k := (y >> 1) & 2;
    var n := n + k;
    var y := y >> k;
    var k := y & 1;
    var n := n + k;
    var y := y >> k;
    n + y
  }

  /** The isolated lowest bit leads to the lowest marked bin, whatever the map. */
  lemma LeastBitIsLowest(m: bv32, j: bv32)
    requires m != 0
    ensures On(m, BitIndex(LeastBit(m)))
    ensures On(m, j) ==> BitIndex(LeastBit(m)) <= j
  {
    assert BitIndex(LeastBit(m)) < 32;
  }

  /** mark_smallmap and mark_treemap, from the bin's number as a word. */
  function MarkBit(m: bv32, i: bv32): bv32
    requires i < 32
  {
    m | BitAt(i)
  }

  /** clear_smallmap and clear_treemap */
  function ClearBit(m: bv32, i: bv32): bv32
    requires i < 32
  {
    m & !BitAt(i)
  }

  /** The part of the map above bin `i`: m & left_bits(idx2bit(i)). */
  function LeftOf(m: bv32, i: bv32): bv32
    requires i < 32
  {
    m & LeftBits(BitAt(i))
  }

  lemma LeftBitsAreAbove(m: bv32, i: bv32, j: bv32)
    requires i < 32 && j < 32
    ensures On(LeftOf(m, i), j) <==> On(m, j) && i < j
  {
  }

  lemma MarkSetsOne(m: bv32, i: bv32, j: bv32)
    requires i < 32 && j < 32
    ensures On(MarkBit(m, i), j) <==> On(m, j) || j == i
  {
  }

  lemma ClearRemovesOne(m: bv32, i: bv32, j: bv32)
    requires i < 32 && j < 32
    ensures On(ClearBit(m, i), j) <==> On(m, j) && j != i
  {
  }

  // The word dlmalloc calls smallbits: the small map shifted down to bin `i`.

  function Shifted(m: bv32, i: bv32): bv32
    requires i < 32
  {
    m >> i
  }

  predicate HasPair(bits: bv32) {
    bits & 3 != 0
  }

  /** The next bin if bin `i` is empty. */
  function PairPick(bits: bv32, i: bv32): bv32 {
    i + (!bits & 1)
  }

  function ShiftedBack(bits: bv32, i: bv32): bv32
    requires i < 32
  {
    bits << i
  }

  function LeftOfShifted(bits: bv32, i: bv32): bv32
    requires i < 32
  {
    LeftOf(ShiftedBack(bits, i), i)
  }

  lemma ShiftedPair(m: bv32, i: bv32)
    requires i < 32
    ensures HasPair(Shifted(m, i)) <==> On(m, i) || (i < 31 && On(m, i + 1))
    ensures PairPick(Shifted(m, i), i) == if On(m, i) then i else i + 1
  {
  }

  lemma ShiftedKeeps(m: bv32, i: bv32, j: bv32)
    requires i <= j && j < 32
    ensures On(ShiftedBack(Shifted(m, i), i), j) <==> On(m, j)
  {
  }

  lemma ShiftedAbove(m: bv32, i: bv32, j: bv32)
    requires i < 32 && j < 32
    ensures On(LeftOfShifted(Shifted(m, i), i), j) <==> On(m, j) && i < j
  {
    hide On, LeftOf, Shifted, ShiftedBack;
    LeftBitsAreAbove(ShiftedBack(Shifted(m, i), i), i, j);
    if i < j {
      ShiftedKeeps(m, i, j);
    }
  }

  lemma ShiftedOut(m: bv32, i: bv32, j: bv32)
    requires i <= j && j < 32 && Shifted(m, i) == 0
    ensures !On(m, j)
  {
  }

  lemma ShiftedLeft(m: bv32, i: bv32)
    requires i < 32 && Shifted(m, i) != 0 && !On(m, i)
    ensures LeftOfShifted(Shifted(m, i), i) != 0
  {
  }

  // ---- bin numbers --------------------------------------------------------------------------

  /** The value of a word. */
  function Index(b: bv32): nat
    decreases b
  {
    if b == 0 then 0 else 1 + Index(b - 1)
  }

  lemma IndexOfZero()
    ensures Index(0) == 0
  {
  }

  lemma LastIndex()
    ensures Index(31) == 31
  {
    assert Index(10) == 10;
    assert Index(20) == 20;
  }

  /** The word of a bin number. */
  function Word(i: nat): (b: bv32)
    requires i < 32
    ensures b < 32 && Index(b) == i
  {
    if i == 0 then 0
    else
      LastIndex();
      Word(i - 1) + 1
  }

  lemma {:induction false} WordUp(i: nat, j: nat)
    requires i < j < 32
    ensures Word(i) < Word(j)
  {
    hide Index;
    assert Word(j) == Word(j - 1) + 1;
    assert Word(j) != 0 by { IndexOfZero(); }
    if i < j - 1 {
      WordUp(i, j - 1);
    }
  }

  lemma WordOrder(i: nat, j: nat)
    requires i < 32 && j < 32
    ensures Word(i) < Word(j) <==> i < j
    ensures Word(i) == Word(j) <==> i == j
  {
    if i < j {
      WordUp(i, j);
    } else if j < i {
      WordUp(j, i);
    }
  }

  lemma LastWord()
    ensures Word(31) == 31
  {
    assert Word(10) == 10;
    assert Word(20) == 20;
  }

  lemma {:induction false} WordOfIndex(b: bv32)
    requires b < 32
    ensures Index(b) < 32 && Word(Index(b)) == b
  {
    LastWord();
    if b > 0 {
      WordOfIndex(b - 1);
    }
  }

  // ---- maps of bins -------------------------------------------------------------------------

  /** Bin `i` is marked in the map. */
  predicate Marked(m: bv32, i: nat) {
    i < 32 && On(m, Word(i))
  }

  /** mark_smallmap, mark_treemap */
  function Mark(m: bv32, i: nat): bv32
    requires i < 32
  {
    MarkBit(m, Word(i))
  }

  /** clear_smallmap, clear_treemap */
  function Clear(m: bv32, i: nat): bv32
    requires i < 32
  {
    ClearBit(m, Word(i))
  }

  /** left_bits(idx2bit(i)) & m */
  function Above(m: bv32, i: nat): bv32
    requires i < 32
  {
    LeftOf(m, Word(i))
  }

  /** The bin of the lowest bit: compute_bit2idx(least_bit(m)). */
  function Lowest(m: bv32): nat
  {
    Index(BitIndex(LeastBit(m)))
  }

  lemma MarkedAfterMark(m: bv32, i: nat, j: nat)
    requires i < 32
    ensures Marked(Mark(m, i), j) <==> Marked(m, j) || j == i
  {
    hide Index, On, MarkBit, ClearBit, LeftOf, Word;
    if j < 32 {
      var a, b := Word(i), Word(j);
      assert (a == b <==> i == j) && (a < b <==> i < j) by { WordOrder(i, j); }
      assert On(MarkBit(m, a), b) <==> On(m, b) || b == a by { MarkSetsOne(m, a, b); }
    }
  }

  lemma MarkedAfterClear(m: bv32, i: nat, j: nat)
    requires i < 32
    ensures Marked(Clear(m, i), j) <==> Marked(m, j) && j != i
  {
    hide Index, On, MarkBit, ClearBit, LeftOf, Word;
    if j < 32 {
      var a, b := Word(i), Word(j);
      assert (a == b <==> i == j) && (a < b <==> i < j) by { WordOrder(i, j); }
      assert On(ClearBit(m, a), b) <==> On(m, b) && b != a by { ClearRemovesOne(m, a, b); }
    }
  }

  lemma MarkedAbove(m: bv32, i: nat, j: nat)
    requires i < 32
    ensures Marked(Above(m, i), j) <==> Marked(m, j) && i < j
  {
    hide Index, On, MarkBit, ClearBit, LeftOf, Word;
    if j < 32 {
      var a, b := Word(i), Word(j);
      assert (a == b <==> i == j) && (a < b <==> i < j) by { WordOrder(i, j); }
      assert On(LeftOf(m, a), b) <==> On(m, b) && a < b by { LeftBitsAreAbove(m, a, b); }
    }
  }

  lemma MarkedPair(m: bv32, i: nat)
    requires i < 32
    ensures HasPair(Shifted(m, Word(i))) <==> Marked(m, i) || (i < 31 && Marked(m, i + 1))
    ensures Marked(m, i) ==> Index(PairPick(Shifted(m, Word(i)), Word(i))) == i
    ensures !Marked(m, i) && i < 31 ==> Index(PairPick(Shifted(m, Word(i)), Word(i))) == i + 1
  {
    hide Index, On, Shifted, HasPair, PairPick;
    ShiftedPair(m, Word(i));
    if i == 31 {
      LastWord();
    }
  }

  lemma MarkedAboveShifted(m: bv32, i: nat, j: nat)
    requires i < 32
    ensures Marked(LeftOfShifted(Shifted(m, Word(i)), Word(i)), j) <==> Marked(m, j) && i < j
  {
    hide Index, On, Shifted, LeftOfShifted, Word;
    if j < 32 {
      var a, b := Word(i), Word(j);
      assert (a == b <==> i == j) && (a < b <==> i < j) by { WordOrder(i, j); }
      assert On(LeftOfShifted(Shifted(m, a), a), b) <==> On(m, b) && a < b by { ShiftedAbove(m, a, b); }
    }
  }

  lemma MarkedOut(m: bv32, i: nat, j: nat)
    requires i < 32 && Shifted(m, Word(i)) == 0 && i <= j
    ensures !Marked(m, j)
  {
    hide Index, On, Shifted, Word;
    if j < 32 {
      WordOrder(i, j);
      ShiftedOut(m, Word(i), Word(j));
    }
  }

  lemma LowestIs(m: bv32)
    requires m != 0
    ensures Marked(m, Lowest(m)) && Lowest(m) < 32
    ensures forall j | Marked(m, j) :: Lowest(m) <= j
  {
    hide Index, BitIndex;
    var b := BitIndex(LeastBit(m));
    LeastBitIsLowest(m, 0);
    WordOfIndex(b);
    forall j | Marked(m, j) ensures Index(b) <= j {
      LeastBitIsLowest(m, Word(j));
      WordOrder(Index(b), j);
    }
  }

  lemma NotMarked(m: bv32, i: nat)
    requires i < 32 && !Marked(m, i)
    ensures !On(m, Word(i))
  {
  }

  // The same for all bins at once.

  lemma NothingMarked()
    ensures forall j: nat :: !Marked(0, j)
  {
  }

  lemma MarkChanges(m: bv32, i: nat)
    requires i < 32
    ensures forall j: nat :: Marked(Mark(m, i), j) <==> Marked(m, j) || j == i
  {
    hide Marked, Mark;
    forall j: nat ensures Marked(Mark(m, i), j) <==> Marked(m, j) || j == i {
      MarkedAfterMark(m, i, j);
    }
  }

  lemma ClearChanges(m: bv32, i: nat)
    requires i < 32
    ensures forall j: nat :: Marked(Clear(m, i), j) <==> Marked(m, j) && j != i
  {
    hide Marked, Clear;
    forall j: nat ensures Marked(Clear(m, i), j) <==> Marked(m, j) && j != i {
      MarkedAfterClear(m, i, j);
    }
  }

  lemma AboveMarks(m: bv32, i: nat)
    requires i < 32
    ensures forall j: nat :: Marked(Above(m, i), j) <==> Marked(m, j) && i < j
  {
    hide Marked, Above;
    forall j: nat ensures Marked(Above(m, i), j) <==> Marked(m, j) && i < j {
      MarkedAbove(m, i, j);
    }
  }

  lemma ShiftedMarks(m: bv32, i: nat)
    requires i < 32
    ensures forall j: nat :: Marked(LeftOfShifted(Shifted(m, Word(i)), Word(i)), j) <==> Marked(m, j) && i < j
  {
    hide Marked, Shifted, LeftOfShifted, Word;
    forall j: nat ensures Marked(LeftOfShifted(Shifted(m, Word(i)), Word(i)), j) <==> Marked(m, j) && i < j {
      MarkedAboveShifted(m, i, j);
    }
  }

  lemma NothingFrom(m: bv32, i: nat)
    requires i < 32 && Shifted(m, Word(i)) == 0
    ensures forall j: nat | i <= j :: !Marked(m, j)
  {
    hide Marked, Shifted, Word;
    forall j: nat | i <= j ensures !Marked(m, j) {
      MarkedOut(m, i, j);
    }
  }
}
