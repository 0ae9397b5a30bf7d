/** The loop of internal_memalign in common/malloc.c that raises an alignment to a power of two, in
    machine words: the doubling wraps around to zero. */
module DlAlign {
  import opened DlArena
  import opened DlBits

  const HALF_WORD: nat := 0x8000_0000_0000_0000

  /** `a << 1` */
  function Doubled(a: nat): nat {
    2 * a % 0x1_0000_0000_0000_0000
  }

  /** The value of the loop's variable after `i` turns. */
  function Turn(i: nat): nat {
    if i == 0 then 32 else Doubled(Turn(i - 1))
  }

  lemma DoubledIs(a: nat)
    ensures a < HALF_WORD ==> Doubled(a) == 2 * a
    ensures Doubled(HALF_WORD) == 0 && Doubled(0) == 0
  {
  }

  lemma Pow2Sixty()
    ensures Pow2(63) == HALF_WORD
  {
    hide Pow2;
    Pow2Values();
    Pow2Sum(16, 16);
    Pow2Sum(32, 16);
    Pow2Sum(48, 15);
  }

  /** The values are the powers of two that fit in a word, and then zero for ever. */
  lemma {:induction false} TurnIs(i: nat)
    ensures Turn(i) == if i <= 58 then Pow2(5 + i) else 0
  {
    hide Doubled;
    if i == 0 {
      assert Pow2(5) == 32;
    } else {
      TurnIs(i - 1);
      Pow2Sixty();
      DoubledIs(Turn(i - 1));
      if i <= 58 {
        Pow2Grows(5 + i, 63);
      }
    }
  }

  lemma TurnBounded(i: nat)
    ensures Turn(i) <= HALF_WORD && Turn(58) == HALF_WORD
  {
    hide Turn, Pow2;
    TurnIs(i);
    TurnIs(58);
    Pow2Sixty();
    if i <= 58 {
      Pow2Grows(5 + i, 63);
    }
  }

  /** The loop reaches an alignment if and only if it is at most 2^63. */
  lemma LoopEnds(alignment: nat)
    ensures (exists i :: Turn(i) >= alignment) <==> alignment <= HALF_WORD
  {
    hide Turn;
    TurnBounded(58);
    forall i ensures Turn(i) <= HALF_WORD {
      TurnBounded(i);
    }
  }

  /** An alignment for which the loop runs for ever. */
  lemma LoopForEver()
    ensures forall i :: Turn(i) < 0x8000_0000_0000_0001
  {
    hide Turn;
    LoopEnds(HALF_WORD + 1);
  }

  lemma RaisedFits(alignment: nat)
    requires alignment <= HALF_WORD
    ensures Pow2(RaiseTo(5, alignment)) <= HALF_WORD
  {
    var j := RaiseTo(5, alignment);
    Pow2Sixty();
    if j > 63 {
      Pow2Grows(63, j - 1);
    } else {
      Pow2Grows(j, 63);
    }
  }

  /** The alignment internal_memalign works with, for one above 16: the least power of two from 32 on
      that is not below it. */
  method RaiseAlignment(alignment: nat) returns (a: nat, ghost j: nat)
    requires alignment <= HALF_WORD
    ensures j == RaiseTo(5, alignment) && a == Pow2(j) <= HALF_WORD
  {
    hide Doubled;
    RaisedFits(alignment);
    assert Pow2(5) == 32;
    a, j := 32, 5;
    while a < alignment
      invariant 5 <= j && a == Pow2(j) && RaiseTo(j, alignment) == RaiseTo(5, alignment)
      decreases alignment - a
    {
      DoubledIs(a);
      a, j := Doubled(a), j + 1;
    }
  }
}
