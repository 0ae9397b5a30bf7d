/** When expr_eliminate_dups keeps the value of an expression, exactly.  Its second pass
    (expr_eliminate_dups2 in tools/kconfig/expr.c) replaces a refuted operand although the whole may be
    `mod`; this module says, for every expression and every legal valuation, when that is seen. */
module KconfigDupsExact {
  import opened KconfigExpr
  import opened KconfigOperands
  import opened KconfigDups

  /** Values only get sharper, so that a chain of steps keeps a value just when each step does. */
  lemma Chain(a: Tri, b: Tri, c: Tri)
    requires InfoLe(a, b) && InfoLe(b, c)
    ensures a == c <==> a == b && b == c
  {
  }

  /** A change of one operand from `mod` to `s` does not show beside the others, whose value is `rest`. */
  predicate Masked(c: Conn, s: Tri, rest: Tri) {
    Apply(c, M, rest) == Apply(c, s, rest)
  }

  // ---- one visit, one pass ------------------------------------------------------------------

  /** A visit keeps the value: a refuted operand is replaced only while the whole is not `mod`, and what
      the inner pass does to the operand keeps its value or is masked by the others. */
  ghost predicate VisitKeeps(c: Conn, sub: Expr, lo: nat, xs: seq<Expr>, i: nat, v: Valuation)
    requires lo + Width(c, sub) <= |xs| && i < |xs| && Loose(c, xs)
    decreases Total(xs), |xs| - i, Size(sub), 0
  {
    if !IsNode(Flip(c), xs[i]) then true
    else
      OperandsSize(Flip(c), xs[i]);
      TotalUpdate(xs, i, xs[i]);
      var x := Dups2(Flip(c), xs[i]).0;
      if Refuted(c, sub, lo, xs[i := x], i) then All(c, xs, v) != M
      else PassKeeps(Flip(c), xs[i], v) || Masked(c, Value(x, v), All(c, Without(xs, i), v))
  }

  ghost predicate RowKeeps(c: Conn, sub: Expr, lo: nat, xs: seq<Expr>, i: nat, v: Valuation)
    requires lo + Width(c, sub) <= |xs| && i < |xs| && Loose(c, xs)
    decreases Total(xs), |xs| - i, Size(sub)
  {
    if IsNode(c, sub) then
      var ys := Row2(c, sub.l, lo, xs, i).0;
      var zs := Row2(c, sub.r, lo + Width(c, sub.l), ys, i).0;
      && RowKeeps(c, sub.l, lo, xs, i, v)
      && RowKeeps(c, sub.r, lo + Width(c, sub.l), ys, i, v)
      && VisitKeeps(c, sub, lo, zs, i, v)
    else lo == i || VisitKeeps(c, sub, lo, xs, i, v)
  }

  ghost predicate RowsKeep(c: Conn, e: Expr, xs: seq<Expr>, i: nat, v: Valuation)
    requires |xs| == Width(c, e) && i <= |xs| && Loose(c, xs)
    decreases Total(xs), |xs| - i, Size(e) + 1
  {
    i < |xs| ==> RowKeeps(c, e, 0, xs, i, v) && RowsKeep(c, e, Row2(c, e, 0, xs, i).0, i + 1, v)
  }

  /** Every visit of the second pass keeps the value. */
  ghost predicate PassKeeps(c: Conn, e: Expr, v: Valuation)
    requires IsNode(c, e)
    decreases Total(Operands(c, e)), Width(c, e) + 1
  {
    RowsKeep(c, e, Operands(c, e), 0, v)
  }

  lemma {:induction false} VisitExact(c: Conn, sub: Expr, lo: nat, xs: seq<Expr>, i: nat, v: Valuation)
    requires lo + Width(c, sub) <= |xs| && i < |xs| && Loose(c, xs) && Legal(v)
    ensures All(c, Visit2(c, sub, lo, xs, i).0, v) == All(c, xs, v) <==> VisitKeeps(c, sub, lo, xs, i, v)
    decreases Total(xs), |xs| - i, Size(sub), 0
  {
    if IsNode(Flip(c), xs[i]) {
      OperandsSize(Flip(c), xs[i]);
      TotalUpdate(xs, i, xs[i]);
      var x := Dups2(Flip(c), xs[i]).0;
      if Refuted(c, sub, lo, xs[i := x], i) {
        VisitRefutes(c, sub, lo, xs, i, v);
      } else {
        PassExact(Flip(c), xs[i], v);
        Dups2Info(Flip(c), xs[i], v);
        AllSplit(c, xs, i, v);
        AllReplace(c, xs, i, x, v);
        StepExact(c, Value(xs[i], v), Value(x, v), All(c, Without(xs, i), v));
      }
    }
  }

  lemma StepExact(c: Conn, a: Tri, a': Tri, rest: Tri)
    requires InfoLe(a, a')
    ensures Apply(c, a', rest) == Apply(c, a, rest) <==> a' == a || Masked(c, a', rest)
  {
  }

  /** A visit that replaces a refuted operand keeps the value of the whole exactly when that value is
      not `mod`. */
  lemma VisitRefutes(c: Conn, sub: Expr, lo: nat, xs: seq<Expr>, i: nat, v: Valuation)
    requires lo + Width(c, sub) <= |xs| && i < |xs| && Loose(c, xs) && Legal(v) && IsNode(Flip(c), xs[i])
    requires Refuted(c, sub, lo, xs[i := Dups2(Flip(c), xs[i]).0], i)
    ensures All(c, Visit2(c, sub, lo, xs, i).0, v) == All(c, xs, v) <==> All(c, xs, v) != M
  {
    var x := Dups2(Flip(c), xs[i]).0;
    RefutedValue(c, sub, lo, xs[i := x], i, v);
    assert xs[i := x][i := Absorber(c)] == xs[i := Absorber(c)];
    Visit2Info(c, sub, lo, xs, i, v);
  }

  lemma {:induction false} RowExact(c: Conn, sub: Expr, lo: nat, xs: seq<Expr>, i: nat, v: Valuation)
    requires lo + Width(c, sub) <= |xs| && i < |xs| && Loose(c, xs) && Legal(v)
    ensures All(c, Row2(c, sub, lo, xs, i).0, v) == All(c, xs, v) <==> RowKeeps(c, sub, lo, xs, i, v)
    decreases Total(xs), |xs| - i, Size(sub)
  {
    hide All, Visit2, VisitKeeps;
    if IsNode(c, sub) {
      var mid := lo + Width(c, sub.l);
      var ys := Row2(c, sub.l, lo, xs, i).0;
      var zs := Row2(c, sub.r, mid, ys, i).0;
      RowExact(c, sub.l, lo, xs, i, v);
      RowExact(c, sub.r, mid, ys, i, v);
      VisitExact(c, sub, lo, zs, i, v);
      Row2Info(c, sub.l, lo, xs, i, v);
      Row2Info(c, sub.r, mid, ys, i, v);
      Visit2Info(c, sub, lo, zs, i, v);
      Chain(All(c, xs, v), All(c, ys, v), All(c, zs, v));
      Chain(All(c, xs, v), All(c, zs, v), All(c, Visit2(c, sub, lo, zs, i).0, v));
    } else if lo != i {
      VisitExact(c, sub, lo, xs, i, v);
    }
  }

  lemma {:induction false} RowsExact(c: Conn, e: Expr, xs: seq<Expr>, i: nat, v: Valuation)
    requires |xs| == Width(c, e) && i <= |xs| && Loose(c, xs) && Legal(v)
    ensures All(c, Rows2(c, e, xs, i).0, v) == All(c, xs, v) <==> RowsKeep(c, e, xs, i, v)
    decreases Total(xs), |xs| - i, Size(e) + 1
  {
    hide All, Row2, RowKeeps;
    if i < |xs| {
      var ys := Row2(c, e, 0, xs, i).0;
      RowExact(c, e, 0, xs, i, v);
      RowsExact(c, e, ys, i + 1, v);
      Row2Info(c, e, 0, xs, i, v);
      Rows2Info(c, e, ys, i + 1, v);
      Chain(All(c, xs, v), All(c, ys, v), All(c, Rows2(c, e, ys, i + 1).0, v));
    }
  }

  lemma {:induction false} PassExact(c: Conn, e: Expr, v: Valuation)
    requires IsNode(c, e) && Legal(v)
    ensures Value(Dups2(c, e).0, v) == Value(e, v) <==> PassKeeps(c, e, v)
    decreases Total(Operands(c, e)), Width(c, e) + 1
  {
    RowsExact(c, e, Operands(c, e), 0, v);
    RefillValue(c, e, Rows2(c, e, Operands(c, e), 0).0, v);
    OperandsValue(c, e, v);
  }

  // ---- a whole call -------------------------------------------------------------------------

  function Connective(e: Expr): Conn
    requires e.And? || e.Or?
  {
    if e.And? then AndC else OrC
  }

  /** Every visit of every round keeps the value. */
  ghost predicate CallKeeps(e: Expr, v: Valuation)
    decreases Size(e)
  {
    var (e', n) := Round(e);
    RoundMarks(e);
    EliminateYnShape(e');
    && (e.And? || e.Or? ==> PassKeeps(Connective(e), Dups1(Connective(e), e).0, v))
    && (n > 0 ==> CallKeeps(EliminateYn(e'), v))
  }

  lemma RoundExact(e: Expr, v: Valuation)
    requires Legal(v) && (e.And? || e.Or?)
    ensures Value(Round(e).0, v) == Value(e, v) <==> PassKeeps(Connective(e), Dups1(Connective(e), e).0, v)
  {
    var c := Connective(e);
    Dups1Value(c, e, v);
    PassExact(c, Dups1(c, e).0, v);
  }

  /** A call keeps the value of an expression exactly when each of its visits does. */
  lemma {:induction false} EliminatedExact(e: Expr, v: Valuation)
    requires Legal(v)
    ensures Value(Eliminated(e), v) == Value(e, v) <==> CallKeeps(e, v)
    decreases Size(e)
  {
    var (e', n) := Round(e);
    RoundMarks(e);
    RoundInfo(e, v);
    EliminateYnShape(e');
    if e.And? || e.Or? {
      RoundExact(e, v);
    }
    if n > 0 {
      var f := EliminateYn(e');
      EliminateYnValue(e', v);
      EliminatedExact(f, v);
      EliminatedInfo(f, v);
      Chain(Value(e, v), Value(f, v), Value(Eliminated(f), v));
    }
  }

  /** Some round of the call leaves the absorbing constant among the operands of the root, as a refuted
      operand does. */
  ghost predicate RootCollapses(e: Expr)
    decreases Size(e)
  {
    var (e', n) := Round(e);
    RoundMarks(e);
    EliminateYnShape(e');
    || ((e.And? || e.Or?) && Absorber(Connective(e)) in Operands(Connective(e), e'))
    || (n > 0 && RootCollapses(EliminateYn(e')))
  }

  lemma CollapsedValue(c: Conn, e: Expr, v: Valuation)
    requires Legal(v) && Absorber(c) in Operands(c, e)
    ensures Value(e, v) == Value(Absorber(c), v) && Value(e, v) != M
  {
    var xs := Operands(c, e);
    var i :| 0 <= i < |xs| && xs[i] == Absorber(c);
    OperandsValue(c, e, v);
    AllSplit(c, xs, i, v);
  }

  /** A call that refutes an operand of the root keeps the value exactly where it was not `mod`. */
  lemma {:induction false} CollapseExact(e: Expr, v: Valuation)
    requires Legal(v) && RootCollapses(e)
    ensures Value(Eliminated(e), v) == Value(e, v) <==> Value(e, v) != M
    decreases Size(e)
  {
    var (e', n) := Round(e);
    RoundMarks(e);
    RoundInfo(e, v);
    EliminateYnShape(e');
    EliminatedInfo(e, v);
    if n > 0 {
      var f := EliminateYn(e');
      EliminateYnValue(e', v);
      EliminatedInfo(f, v);
      if RootCollapses(f) {
        CollapseExact(f, v);
      } else {
        CollapsedValue(Connective(e), e', v);
      }
    } else {
      CollapsedValue(Connective(e), e', v);
    }
  }

  /** No second pass of the call counts a change. */
  ghost predicate NothingRefuted(e: Expr)
    decreases Size(e)
  {
    var (e', n) := Round(e);
    RoundMarks(e);
    EliminateYnShape(e');
    && (e.And? || e.Or? ==> Dups2(Connective(e), Dups1(Connective(e), e).0).1 == 0)
    && (n > 0 ==> NothingRefuted(EliminateYn(e')))
  }

  /** A call whose second passes find nothing keeps every value. */
  lemma {:induction false} UnrefutedExact(e: Expr, v: Valuation)
    requires Legal(v) && NothingRefuted(e)
    ensures Value(Eliminated(e), v) == Value(e, v)
    decreases Size(e)
  {
    var (e', n) := Round(e);
    RoundMarks(e);
    EliminateYnShape(e');
    if e.And? || e.Or? {
      var c := Connective(e);
      Dups1Value(c, e, v);
      Dups2Marks(c, Dups1(c, e).0);
    }
    if n > 0 {
      EliminateYnValue(e', v);
      UnrefutedExact(EliminateYn(e'), v);
    }
  }
}
