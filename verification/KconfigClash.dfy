/** The inputs on which expr_eliminate_dups2 is not exact (tools/kconfig/expr.c). */
module KconfigClash {
  import opened KconfigExpr
  import opened KconfigEq
  import opened KconfigEqExact
  import opened KconfigFactor
  import opened Options
  import opened KconfigOperands
  import opened KconfigTransform
  import opened KconfigDups

  // ---- trees on which a pass does nothing ---------------------------------------------------

  /** No two operands join, and no operand of the other connective changes by itself. */
  ghost predicate NothingToJoin(c: Conn, xs: seq<Expr>) {
    && Loose(c, xs)
    && (forall i | 0 <= i < |xs| && IsNode(Flip(c), xs[i]) :: Dups1(Flip(c), xs[i]) == (xs[i], 0))
    && (forall i, j | 0 <= i < |xs| && 0 <= j < |xs| && i != j :: Join(c, xs[i], xs[j]).None?)
  }

  lemma Pair1Inert(c: Conn, xs: seq<Expr>, i: nat, j: nat)
    requires NothingToJoin(c, xs) && i < |xs| && j < |xs| && i != j
    ensures Pair1(c, xs, i, j) == (xs, 0)
  {
    assert xs[i := xs[i]] == xs;
  }

  lemma {:induction false} Row1Inert(c: Conn, xs: seq<Expr>, i: nat, j: nat)
    requires NothingToJoin(c, xs) && i < |xs| && j <= |xs|
    ensures Row1(c, xs, i, j) == (xs, 0)
    decreases |xs| - j
  {
    if j < |xs| {
      Row1Inert(c, xs, i, j + 1);
      if i != j {
        Pair1Inert(c, xs, i, j);
      }
    }
  }

  lemma {:induction false} Rows1Inert(c: Conn, xs: seq<Expr>, i: nat)
    requires NothingToJoin(c, xs) && i <= |xs|
    ensures Rows1(c, xs, i) == (xs, 0)
    decreases |xs| - i
  {
    if i < |xs| {
      Row1Inert(c, xs, i, 0);
      Rows1Inert(c, xs, i + 1);
    }
  }

  lemma Dups1Inert(c: Conn, e: Expr)
    requires IsNode(c, e) && NothingToJoin(c, Operands(c, e))
    ensures Dups1(c, e) == (e, 0)
  {
    Rows1Inert(c, Operands(c, e), 0);
    RefillSame(c, e);
  }

  /** Operands that are not of the other connective are left alone. */
  lemma {:induction false} Row2Inert(c: Conn, sub: Expr, lo: nat, xs: seq<Expr>, i: nat)
    requires lo + Width(c, sub) <= |xs| && i < |xs| && Loose(c, xs) && !IsNode(Flip(c), xs[i])
    ensures Row2(c, sub, lo, xs, i) == (xs, 0)
  {
    if IsNode(c, sub) {
      Row2Inert(c, sub.l, lo, xs, i);
      Row2Inert(c, sub.r, lo + Width(c, sub.l), xs, i);
    }
  }

  lemma {:induction false} Rows2Inert(c: Conn, e: Expr, xs: seq<Expr>, i: nat)
    requires |xs| == Width(c, e) && i <= |xs| && Loose(c, xs)
    requires forall k | i <= k < |xs| :: !IsNode(Flip(c), xs[k])
    ensures Rows2(c, e, xs, i) == (xs, 0)
    decreases |xs| - i
  {
    if i < |xs| {
      Row2Inert(c, e, 0, xs, i);
      Rows2Inert(c, e, xs, i + 1);
    }
  }

  // ---- (f || b) && !f && !b -----------------------------------------------------------------

  predicate TristatePair(f: Symbol, b: Symbol) {
    f != b && TypeOf(f).Tristate? && TypeOf(b).Tristate?
  }

  lemma OrOperands(l: Expr, r: Expr)
    requires !l.Or? && !r.Or?
    ensures Operands(OrC, Or(l, r)) == [l, r]
  {
  }

  lemma AndOperands(l: Expr, r: Expr)
    requires !l.And? && !r.And?
    ensures Operands(AndC, And(l, r)) == [l, r]
  {
  }

  lemma ChoiceIsInert(f: Symbol, b: Symbol)
    requires TristatePair(f, b)
    ensures Dups1(OrC, Or(Sym(f), Sym(b))) == (Or(Sym(f), Sym(b)), 0)
    ensures Dups2(OrC, Or(Sym(f), Sym(b))) == (Or(Sym(f), Sym(b)), 0)
  {
    var e := Or(Sym(f), Sym(b));
    OrOperands(Sym(f), Sym(b));
    Dups1Inert(OrC, e);
    Rows2Inert(OrC, e, [Sym(f), Sym(b)], 0);
    RefillSame(OrC, e);
  }

  /** The three operands, with the refuted one as given. */
  function Parts(x: Expr, nf: Expr, nb: Expr): seq<Expr> {
    [x, nf, nb]
  }

  lemma ClashOperands(x: Expr, nf: Expr, nb: Expr)
    requires !x.And? && !nf.And? && !nb.And?
    ensures Operands(AndC, And(nf, nb)) == [nf, nb]
    ensures Operands(AndC, And(x, And(nf, nb))) == Parts(x, nf, nb)
    ensures Refill(AndC, And(nf, nb), Parts(x, nf, nb)[1..3]) == And(nf, nb)
  {
    AndOperands(nf, nb);
    assert Operands(AndC, x) == [x];
    assert Parts(x, nf, nb)[1..3] == [nf, nb];
    RefillSame(AndC, And(nf, nb));
  }

  lemma NothingCommon(a: Expr, b: Expr)
    requires !ExprEq(a, b) && Subject(a, b).None?
    ensures Join(AndC, a, b).None?
  {
    hide ExprEq;
  }

  /** No two of the operands join. */
  lemma ClashJoins(f: Symbol, b: Symbol, x: Expr, nf: Expr, nb: Expr)
    requires TristatePair(f, b) && x == Or(Sym(f), Sym(b)) && nf == Not(Sym(f)) && nb == Not(Sym(b))
    ensures Join(AndC, x, nf).None? && Join(AndC, nf, x).None? && Join(AndC, x, nb).None? && Join(AndC, nb, x).None?
    ensures Join(AndC, nf, nb).None? && Join(AndC, nb, nf).None?
  {
    assert !ExprEq(x, nf) && !ExprEq(nf, x) && !ExprEq(x, nb) && !ExprEq(nb, x);
    hide ExprEq, Join;
    LiteralEq(nf, nb);
    LiteralEq(nb, nf);
    NothingCommon(x, nf);
    NothingCommon(nf, x);
    NothingCommon(x, nb);
    NothingCommon(nb, x);
    NothingCommon(nf, nb);
    NothingCommon(nb, nf);
  }

  lemma PartsInert(x: Expr, nf: Expr, nb: Expr)
    requires x.Or? && nf.Not? && nb.Not? && Dups1(OrC, x) == (x, 0)
    requires Join(AndC, x, nf).None? && Join(AndC, nf, x).None? && Join(AndC, x, nb).None? && Join(AndC, nb, x).None?
    requires Join(AndC, nf, nb).None? && Join(AndC, nb, nf).None?
    ensures NothingToJoin(AndC, Parts(x, nf, nb))
  {
    hide Join, Dups1;
  }

  lemma ClashFirstPass(f: Symbol, b: Symbol, e: Expr)
    requires TristatePair(f, b) && e == And(Or(Sym(f), Sym(b)), And(Not(Sym(f)), Not(Sym(b))))
    ensures Dups1(AndC, e) == (e, 0)
  {
    hide Join, Dups1, NothingToJoin, Operands, Refill, Parts;
    var x, nf, nb := Or(Sym(f), Sym(b)), Not(Sym(f)), Not(Sym(b));
    ClashOperands(x, nf, nb);
    ChoiceIsInert(f, b);
    ClashJoins(f, b, x, nf, nb);
    PartsInert(x, nf, nb);
    Dups1Inert(AndC, e);
  }

  lemma NegatedChoice(f: Symbol, b: Symbol)
    requires TristatePair(f, b)
    ensures Transform(Not(Or(Sym(f), Sym(b)))) == And(Not(Sym(f)), Not(Sym(b)))
  {
    TransformNegation(Or(Sym(f), Sym(b)));
    assert Dual(Sym(f)) == Not(Sym(f)) && Dual(Sym(b)) == Not(Sym(b));
  }

  // One step of the extraction each.

  lemma ExtractAlike(k: Option<Expr>, a: Expr, b: Expr)
    requires !a.And? && !b.And?
    ensures Extract(AndC, k, a, b) ==
            if ExprEq(a, b) then (Some(if k.Some? then And(k.value, a) else a), Sym(Yes), Sym(Yes)) else (k, a, b)
  {
    hide ExprEq;
  }

  lemma ExtractLeft(k: Option<Expr>, l: Expr, r: Expr, b: Expr)
    ensures var (k1, l', b1) := Extract(AndC, k, l, b);
            var (k2, r', b2) := Extract(AndC, k1, r, b1);
            Extract(AndC, k, And(l, r), b) == (k2, And(l', r'), b2)
  {
    hide ExprEq;
  }

  lemma ExtractRight(k: Option<Expr>, a: Expr, l: Expr, r: Expr)
    requires !a.And?
    ensures var (k1, a1, l') := Extract(AndC, k, a, l);
            var (k2, a2, r') := Extract(AndC, k1, a1, r);
            Extract(AndC, k, a, And(l, r)) == (k2, a2, And(l', r'))
  {
    hide ExprEq;
  }

  /** Two different negated symbols. */
  ghost predicate Apart(nf: Expr, nb: Expr) {
    && !nf.And? && !nb.And? && !IsYn(nf) && !IsYn(nb) && EliminateYn(nf) == nf && EliminateYn(nb) == nb
    && ExprEq(nf, nf) && ExprEq(nb, nb) && !ExprEq(nf, nb)
    && !ExprEq(Sym(Yes), nb) && !ExprEq(nb, Sym(Yes))
  }

  lemma LiteralsApart(nf: Expr, nb: Expr)
    requires Literal(nf) && Literal(nb) && nf.Not? && nb.Not? && nf != nb
    ensures Apart(nf, nb)
  {
    hide ExprEq;
    LiteralEq(nf, nf);
    LiteralEq(nb, nb);
    LiteralEq(nf, nb);
    LiteralEq(Sym(Yes), nb);
    LiteralEq(nb, Sym(Yes));
  }

  /** Pulling the common operands out of two equal pairs leaves nothing. */
  lemma FactorSamePair(nf: Expr, nb: Expr)
    requires Apart(nf, nb)
    ensures FactorOut(AndC, And(nf, nb), And(nf, nb)).1 == Sym(Yes)
  {
    hide Extract, ExprEq;
    var yes := Sym(Yes);
    assert Extract(AndC, None, nf, And(nf, nb)) == (Some(nf), yes, And(yes, nb)) by {
      ExtractRight(None, nf, nf, nb);
      ExtractAlike(None, nf, nf);
      ExtractAlike(Some(nf), yes, nb);
    }
    assert Extract(AndC, Some(nf), nb, And(yes, nb)) == (Some(And(nf, nb)), yes, And(yes, yes)) by {
      ExtractRight(Some(nf), nb, yes, nb);
      ExtractAlike(Some(nf), nb, yes);
      ExtractAlike(Some(nf), nb, nb);
    }
    ExtractLeft(None, nf, nb, And(nf, nb));
    assert EliminateYn(And(yes, yes)) == yes;
  }

  lemma FactorFirst(nf: Expr, nb: Expr)
    requires Apart(nf, nb)
    ensures FactorOut(AndC, And(nf, nb), nf).1 == nb
  {
    hide Extract, ExprEq;
    ExtractLeft(None, nf, nb, nf);
    ExtractAlike(None, nf, nf);
    ExtractAlike(Some(nf), nb, Sym(Yes));
    assert EliminateYn(And(Sym(Yes), nb)) == nb;
  }

  lemma FactorSecond(nf: Expr, nb: Expr)
    requires Apart(nf, nb)
    ensures FactorOut(AndC, And(nf, nb), nb).1 == nf
  {
    hide Extract, ExprEq;
    ExtractLeft(None, nf, nb, nb);
    ExtractAlike(None, nf, nb);
    ExtractAlike(None, nb, nb);
    assert EliminateYn(And(nf, Sym(Yes))) == nf;
  }

  /** The second pointer refutes the first operand with the pair, and with neither part of it. */
  lemma ClashVisits(f: Symbol, b: Symbol, xs: seq<Expr>, ys: seq<Expr>)
    requires TristatePair(f, b)
    requires xs == Parts(Or(Sym(f), Sym(b)), Not(Sym(f)), Not(Sym(b))) && ys == Parts(Sym(No), Not(Sym(f)), Not(Sym(b)))
    ensures Loose(AndC, xs) && Visit2(AndC, Not(Sym(f)), 1, xs, 0) == (xs, 0)
    ensures Visit2(AndC, Not(Sym(b)), 2, xs, 0) == (xs, 0)
    ensures Visit2(AndC, And(Not(Sym(f)), Not(Sym(b))), 1, xs, 0) == (ys, 1)
  {
    hide Dups2, FactorOut, Transform, ExprEq;
    var x, nf, nb := Or(Sym(f), Sym(b)), Not(Sym(f)), Not(Sym(b));
    ClashOperands(x, nf, nb);
    ChoiceIsInert(f, b);
    NegatedChoice(f, b);
    LiteralsApart(nf, nb);
    FactorSamePair(nf, nb);
    FactorFirst(nf, nb);
    FactorSecond(nf, nb);
    assert xs[0 := x] == xs && xs[0 := Sym(No)] == ys;
    assert xs[1..2] == [nf] && xs[2..3] == [nb];
  }

  lemma ClashSecondPass(f: Symbol, b: Symbol, e: Expr)
    requires TristatePair(f, b) && e == And(Or(Sym(f), Sym(b)), And(Not(Sym(f)), Not(Sym(b))))
    ensures Dups2(AndC, e) == (And(Sym(No), And(Not(Sym(f)), Not(Sym(b)))), 1)
  {
    hide Visit2;
    var x, nf, nb := Or(Sym(f), Sym(b)), Not(Sym(f)), Not(Sym(b));
    var xs, ys := Parts(x, nf, nb), Parts(Sym(No), nf, nb);
    var pair := And(nf, nb);
    ClashOperands(x, nf, nb);
    ClashOperands(Sym(No), nf, nb);
    ClashVisits(f, b, xs, ys);
    assert Row2(AndC, pair, 1, xs, 0) == (ys, 1);
    assert Row2(AndC, x, 0, xs, 0) == (xs, 0);
    VisitInert(AndC, e, 0, ys, 0);
    assert Row2(AndC, e, 0, xs, 0) == (ys, 1);
    Rows2Inert(AndC, e, ys, 1);
    assert Rows2(AndC, e, xs, 0) == (ys, 1);
    assert ys[..1] == [Sym(No)] && ys[1..] == ys[1..3];
    assert Refill(AndC, x, ys[..1]) == Sym(No) && Refill(AndC, pair, ys[1..]) == pair;
    assert Refill(AndC, e, ys) == And(Sym(No), pair);
  }

  lemma VisitInert(c: Conn, sub: Expr, lo: nat, xs: seq<Expr>, i: nat)
    requires lo + Width(c, sub) <= |xs| && i < |xs| && Loose(c, xs) && !IsNode(Flip(c), xs[i])
    ensures Visit2(c, sub, lo, xs, i) == (xs, 0)
  {
  }

  /** The elimination is not exact in three-valued logic.  With f and b both at `mod` this
      expression is `mod`, and it is replaced by the constant `n`. */
  lemma ClashLosesMod(f: Symbol, b: Symbol, e: Expr, v: Valuation)
    requires TristatePair(f, b) && e == And(Or(Sym(f), Sym(b)), And(Not(Sym(f)), Not(Sym(b))))
    requires Legal(v) && v.tri(f) == v.tri(b) == M
    ensures Value(e, v) == M
    ensures Eliminated(e) == Sym(No) && Value(Eliminated(e), v) == N
  {
    ClashFirstPass(f, b, e);
    ClashSecondPass(f, b, e);
    assert Value(Sym(f), v) == M && Value(Sym(b), v) == M;
    assert Value(Not(Sym(f)), v) == M && Value(Not(Sym(b)), v) == M;
    assert Value(Or(Sym(f), Sym(b)), v) == M && Value(And(Not(Sym(f)), Not(Sym(b))), v) == M;
    var e' := And(Sym(No), And(Not(Sym(f)), Not(Sym(b))));
    assert Round(e) == (e', 1);
    assert EliminateYn(e') == Sym(No);
    assert Round(Sym(No)) == (Sym(No), 0);
    assert Eliminated(Sym(No)) == Sym(No);
  }
}
