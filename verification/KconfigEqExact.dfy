/** How much expr_eq finds: it is reflexive on all expressions, and on flat lists of literals it
    decides equality of the operand multisets. */
module KconfigEqExact {
  import opened KconfigExpr
  import opened KconfigEq

  // ---- reflexivity --------------------------------------------------------------------------

  /** Every operand of the `c` tree is the constant `y` or `n`. */
  predicate Blank(c: Conn, e: Expr) {
    if IsNode(c, e) then Blank(c, e.l) && Blank(c, e.r) else IsYn(e)
  }

  /** The tree with every operand cancelled against itself. */
  function Blanked(c: Conn, e: Expr): Expr {
    if IsNode(c, e) then Node(c, Blanked(c, e.l), Blanked(c, e.r))
    else if IsYn(e) then e
    else Unit(c)
  }

  lemma {:induction false} BlankedIsBlank(c: Conn, e: Expr)
    ensures Blank(c, Blanked(c, e))
    ensures IsNode(c, Blanked(c, e)) == IsNode(c, e)
  {
    if IsNode(c, e) {
      BlankedIsBlank(c, e.l);
      BlankedIsBlank(c, e.r);
    }
  }

  lemma {:induction false} BlankCollapses(c: Conn, e: Expr)
    requires Blank(c, e)
    ensures IsYn(EliminateYn(e))
  {
    if IsNode(c, e) {
      BlankCollapses(c, e.l);
      BlankCollapses(c, e.r);
    }
  }

  /** An operand that is already a constant cancels with nothing. */
  lemma {:induction false} ConstantIsInert(c: Conn, a: Expr, b: Expr)
    requires IsYn(a)
    ensures Cancel(c, a, b) == (a, b, 0)
  {
    if IsNode(c, b) {
      ConstantIsInert(c, a, b.l);
      ConstantIsInert(c, a, b.r);
    }
  }

  /** Nothing cancels with a tree of constants. */
  lemma {:induction false} BlankIsInert(c: Conn, a: Expr, b: Expr)
    requires !IsNode(c, a) && Blank(c, b)
    ensures Cancel(c, a, b) == (a, b, 0)
  {
    if IsNode(c, b) {
      BlankIsInert(c, a, b.l);
      BlankIsInert(c, a, b.r);
    }
  }

  /** A place in the `c` tree: the operands before it, the subtree, the operands after it. */
  datatype Zipper = Here | InL(up: Zipper, r: Expr) | InR(l: Expr, up: Zipper)

  function Plug(c: Conn, z: Zipper, e: Expr): Expr {
    match z
    case Here => e
    case InL(up, r) => Node(c, Plug(c, up, e), r)
    case InR(l, up) => Node(c, l, Plug(c, up, e))
  }

  /** All operands before the place have been cancelled. */
  predicate BlankBefore(c: Conn, z: Zipper) {
    match z
    case Here => true
    case InL(up, r) => BlankBefore(c, up)
    case InR(l, up) => Blank(c, l) && BlankBefore(c, up)
  }

  function Deepen(z: Zipper, inner: Zipper): Zipper {
    match z
    case Here => inner
    case InL(up, r) => InL(Deepen(up, inner), r)
    case InR(l, up) => InR(l, Deepen(up, inner))
  }

  lemma {:induction false} DeepenPlug(c: Conn, z: Zipper, inner: Zipper, e: Expr)
    ensures Plug(c, Deepen(z, inner), e) == Plug(c, z, Plug(c, inner, e))
    ensures BlankBefore(c, z) && BlankBefore(c, inner) ==> BlankBefore(c, Deepen(z, inner))
  {
    match z
    case Here =>
    case InL(up, r) => DeepenPlug(c, up, inner, e);
    case InR(l, up) => DeepenPlug(c, up, inner, e);
  }

  lemma {:induction false} OperandMeetsItself(c: Conn, a: Expr, z: Zipper)
    requires !IsNode(c, a) && ExprEq(a, a) && BlankBefore(c, z)
    ensures var (a', b', _) := Cancel(c, a, Plug(c, z, a));
            a' == Blanked(c, a) && b' == Plug(c, z, Blanked(c, a))
  {
    match z
    case Here =>
    case InL(up, r) =>
      OperandMeetsItself(c, a, up);
      ConstantIsInert(c, Blanked(c, a), r);
    case InR(l, up) =>
      BlankIsInert(c, a, l);
      OperandMeetsItself(c, a, up);
  }

  lemma {:induction false} CancelDiagonal(c: Conn, a: Expr, z: Zipper)
    requires BlankBefore(c, z)
    ensures var (a', b', _) := Cancel(c, a, Plug(c, z, a));
            a' == Blanked(c, a) && b' == Plug(c, z, Blanked(c, a))
    decreases Size(a), if IsNode(c, a) then 0 else 2
  {
    if IsNode(c, a) {
      assert BlankBefore(c, Here);
      var zl := Deepen(z, InL(Here, a.r));
      DeepenPlug(c, z, InL(Here, a.r), a.l);
      DeepenPlug(c, z, InL(Here, a.r), Blanked(c, a.l));
      CancelDiagonal(c, a.l, zl);
      var zr := Deepen(z, InR(Blanked(c, a.l), Here));
      BlankedIsBlank(c, a.l);
      DeepenPlug(c, z, InR(Blanked(c, a.l), Here), a.r);
      DeepenPlug(c, z, InR(Blanked(c, a.l), Here), Blanked(c, a.r));
      CancelDiagonal(c, a.r, zr);
    } else {
      ExprEqReflexive(a);
      OperandMeetsItself(c, a, z);
    }
  }

  /** Every expression is found equal to its own copy. */
  lemma {:induction false} ExprEqReflexive(a: Expr)
    ensures ExprEq(a, a)
    decreases Size(a), 1
  {
    match a
    case Not(x) => ExprEqReflexive(x);
    case And(_, _) =>
      CancelDiagonal(AndC, a, Here);
      BlankedIsBlank(AndC, a);
      BlankCollapses(AndC, Blanked(AndC, a));
    case Or(_, _) =>
      CancelDiagonal(OrC, a, Here);
      BlankedIsBlank(OrC, a);
      BlankCollapses(OrC, Blanked(OrC, a));
    case _ =>
  }

  // ---- exactness on flat lists --------------------------------------------------------------

  predicate Literal(e: Expr) {
    match e
    case And(_, _) => false
    case Or(_, _) => false
    case Not(x) => Literal(x)
    case _ => true
  }

  /** All operands of the `c` tree are literals, and the only constant is the neutral one. */
  predicate Flat(c: Conn, e: Expr) {
    if IsNode(c, e) then Flat(c, e.l) && Flat(c, e.r)
    else Literal(e) && (IsYn(e) ==> e == Unit(c))
  }

  /** How often `x` occurs among the operands, not counting the neutral constant. */
  function Count(c: Conn, e: Expr, x: Expr): nat {
    if IsNode(c, e) then Count(c, e.l, x) + Count(c, e.r, x)
    else if e == x && x != Unit(c) then 1
    else 0
  }

  lemma {:induction false} LiteralEq(a: Expr, b: Expr)
    requires Literal(a) && Literal(b)
    ensures ExprEq(a, b) <==> a == b
  {
    if a.Not? && b.Not? {
      LiteralEq(a.e, b.e);
    }
  }

  function Minus(a: nat, b: nat): nat {
    if a < b then 0 else a - b
  }

  lemma CountNode(c: Conn, l: Expr, r: Expr, x: Expr)
    ensures Count(c, Node(c, l, r), x) == Count(c, l, x) + Count(c, r, x)
  {
  }

  lemma {:induction false} CancelKeepsFlat(c: Conn, a: Expr, b: Expr)
    requires Flat(c, a) && Flat(c, b)
    ensures Flat(c, Cancel(c, a, b).0) && Flat(c, Cancel(c, a, b).1)
    decreases Weight(a, b)
  {
    hide Cancel, ExprEq;
    if IsNode(c, a) {
      CancelFromLeft(c, a, b);
      CancelKeepsFlat(c, a.l, b);
      CancelKeepsFlat(c, a.r, Cancel(c, a.l, b).1);
    } else if IsNode(c, b) {
      CancelFromRight(c, a, b);
      CancelKeepsFlat(c, a, b.l);
      CancelKeepsFlat(c, Cancel(c, a, b.l).0, b.r);
    } else {
      CancelLeaf(c, a, b);
    }
  }

  /** Of operand `x`, the results hold what the other side did not match. */
  predicate Differ(c: Conn, a: Expr, b: Expr, a': Expr, b': Expr, x: Expr) {
    && Count(c, a', x) == Minus(Count(c, a, x), Count(c, b, x))
    && Count(c, b', x) == Minus(Count(c, b, x), Count(c, a, x))
  }

  lemma DifferNode(c: Conn, l: Expr, r: Expr, b: Expr, l': Expr, b1: Expr, r': Expr, b2: Expr, x: Expr)
    requires Differ(c, l, b, l', b1, x) && Differ(c, r, b1, r', b2, x)
    ensures Differ(c, Node(c, l, r), b, Node(c, l', r'), b2, x)
  {
    CountNode(c, l, r, x);
    CountNode(c, l', r', x);
  }

  lemma DifferLeaf(c: Conn, a: Expr, b: Expr, x: Expr)
    requires !IsNode(c, a) && !IsNode(c, b)
    ensures a == b ==> Differ(c, a, b, Unit(c), Unit(c), x)
    ensures a == b && IsYn(a) && a == Unit(c) ==> Differ(c, a, b, a, b, x)
    ensures a != b ==> Differ(c, a, b, a, b, x)
  {
  }

  lemma DifferSwap(c: Conn, a: Expr, b: Expr, a': Expr, b': Expr, x: Expr)
    requires Differ(c, a, b, a', b', x)
    ensures Differ(c, b, a, b', a', x)
  {
  }

  /** Pairwise cancellation leaves the two multiset differences. */
  lemma {:induction false} CancelIsDifference(c: Conn, a: Expr, b: Expr, x: Expr)
    requires Flat(c, a) && Flat(c, b)
    ensures Differ(c, a, b, Cancel(c, a, b).0, Cancel(c, a, b).1, x)
    decreases Weight(a, b)
  {
    if IsNode(c, a) {
      hide Cancel, Differ, ExprEq;
      var r1 := Cancel(c, a.l, b);
      var r2 := Cancel(c, a.r, r1.1);
      CancelFromLeft(c, a, b);
      CancelKeepsFlat(c, a.l, b);
      CancelIsDifference(c, a.l, b, x);
      CancelIsDifference(c, a.r, r1.1, x);
      DifferNode(c, a.l, a.r, b, r1.0, r1.1, r2.0, r2.1, x);
    } else if IsNode(c, b) {
      hide Cancel, Differ, ExprEq;
      var r1 := Cancel(c, a, b.l);
      var r2 := Cancel(c, r1.0, b.r);
      CancelFromRight(c, a, b);
      CancelKeepsFlat(c, a, b.l);
      CancelIsDifference(c, a, b.l, x);
      CancelIsDifference(c, r1.0, b.r, x);
      DifferSwap(c, a, b.l, r1.0, r1.1, x);
      DifferSwap(c, r1.0, b.r, r2.0, r2.1, x);
      DifferNode(c, b.l, b.r, a, r1.1, r1.0, r2.1, r2.0, x);
      DifferSwap(c, b, a, Node(c, r1.1, r2.1), r2.0, x);
    } else {
      hide Cancel, Differ, ExprEq;
      CancelLeaf(c, a, b);
      LiteralEq(a, b);
      DifferLeaf(c, a, b, x);
    }
  }

  /** Elimination at a node neither of whose parts has become the absorbing constant. */
  lemma EliminateYnNode(c: Conn, e: Expr)
    requires IsNode(c, e)
    requires (IsYn(EliminateYn(e.l)) ==> EliminateYn(e.l) == Unit(c))
    requires (IsYn(EliminateYn(e.r)) ==> EliminateYn(e.r) == Unit(c))
    ensures var l, r := EliminateYn(e.l), EliminateYn(e.r);
            EliminateYn(e) == if l == Unit(c) then r else if r == Unit(c) then l else Node(c, l, r)
  {
  }

  lemma FlatConstant(c: Conn, e: Expr)
    requires Flat(c, e)
    ensures IsYn(e) ==> e == Unit(c)
  {
  }

  lemma {:induction false} EliminateYnCount(c: Conn, e: Expr, x: Expr)
    requires Flat(c, e)
    ensures Count(c, EliminateYn(e), x) == Count(c, e, x)
    ensures Flat(c, EliminateYn(e))
  {
    if IsNode(c, e) {
      EliminateYnCount(c, e.l, x);
      EliminateYnCount(c, e.r, x);
      hide EliminateYn;
      var l, r := EliminateYn(e.l), EliminateYn(e.r);
      FlatConstant(c, l);
      FlatConstant(c, r);
      EliminateYnNode(c, e);
      CountNode(c, l, r, x);
    }
  }

  function FirstOperand(c: Conn, e: Expr): Expr {
    if IsNode(c, e) then FirstOperand(c, e.l) else e
  }

  lemma {:induction false} FirstOperandCounts(c: Conn, e: Expr)
    requires Flat(c, e) && !HasYn(e) && e != Unit(c)
    ensures Count(c, e, FirstOperand(c, e)) > 0
  {
    if IsNode(c, e) {
      FirstOperandCounts(c, e.l);
    }
  }

  lemma LeftoverOnTheLeft(c: Conn, a: Expr, b: Expr) returns (x: Expr)
    requires Flat(c, a) && Flat(c, b)
    requires EliminateYn(Cancel(c, a, b).0) != Unit(c)
    ensures Count(c, a, x) > Count(c, b, x)
    ensures EliminateYn(Cancel(c, a, b).0).Sym? ==> x == EliminateYn(Cancel(c, a, b).0)
  {
    var a1 := Cancel(c, a, b).0;
    x := FirstOperand(c, EliminateYn(a1));
    CancelKeepsFlat(c, a, b);
    CancelIsDifference(c, a, b, x);
    EliminateYnShape(a1);
    EliminateYnCount(c, a1, x);
    FirstOperandCounts(c, EliminateYn(a1));
  }

  lemma {:induction false} LeftoverOnTheRight(c: Conn, a: Expr, b: Expr) returns (x: Expr)
    requires Flat(c, a) && Flat(c, b)
    requires EliminateYn(Cancel(c, a, b).1) != Unit(c)
    ensures Count(c, b, x) > Count(c, a, x)
  {
    var b1 := Cancel(c, a, b).1;
    x := FirstOperand(c, EliminateYn(b1));
    CancelKeepsFlat(c, a, b);
    CancelIsDifference(c, a, b, x);
    EliminateYnShape(b1);
    EliminateYnCount(c, b1, x);
    FirstOperandCounts(c, EliminateYn(b1));
  }

  /** On flat && or || lists, expr_eq answers true exactly when both sides have the same
      operands with the same multiplicities, in any order and any grouping. */
  lemma ExprEqExactOnFlat(c: Conn, a: Expr, b: Expr)
    requires IsNode(c, a) && IsNode(c, b) && Flat(c, a) && Flat(c, b)
    ensures ExprEq(a, b) <==> forall x :: Count(c, a, x) == Count(c, b, x)
  {
    var (a1, b1, _) := Cancel(c, a, b);
    var a2, b2 := EliminateYn(a1), EliminateYn(b1);
    assert ExprEq(a, b) <==> a2.Sym? && a2 == b2;
    CancelKeepsFlat(c, a, b);
    if a2 != Unit(c) {
      var x := LeftoverOnTheLeft(c, a, b);
      CancelIsDifference(c, a, b, x);
      EliminateYnCount(c, b1, x);
    } else if b2 != Unit(c) {
      var x := LeftoverOnTheRight(c, a, b);
    } else {
      forall x ensures Count(c, a, x) == Count(c, b, x) {
        CancelIsDifference(c, a, b, x);
        EliminateYnCount(c, a1, x);
        EliminateYnCount(c, b1, x);
      }
    }
  }
}
