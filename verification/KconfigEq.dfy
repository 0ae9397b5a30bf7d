/** Comparison of expressions by pairwise cancellation (expr_eq, expr_eliminate_eq and
    __expr_eliminate_eq in tools/kconfig/expr.c). */
module KconfigEq {
  import opened KconfigExpr

  // ---- the mutually recursive comparison ----------------------------------------------------

  function Weight(a: Expr, b: Expr): nat {
    Size(a) + Size(b)
  }

  /** __expr_eliminate_eq: both trees after replacing each pair of equal operands by the neutral
      constant, and the number of pairs found (the increments of trans_count). */
  function Cancel(c: Conn, a: Expr, b: Expr): (r: (Expr, Expr, nat))
    ensures Size(r.0) <= Size(a) && Size(r.1) <= Size(b)
    ensures IsNode(c, a) ==> IsNode(c, r.0)
    ensures IsNode(c, b) ==> IsNode(c, r.1)
    decreases Weight(a, b), if IsNode(c, a) || IsNode(c, b) then 0 else 3
  {
    if IsNode(c, a) then
      var (l, b1, n1) := Cancel(c, a.l, b);
      var (r, b2, n2) := Cancel(c, a.r, b1);
      (Node(c, l, r), b2, n1 + n2)
    else if IsNode(c, b) then
      var (a1, l, n1) := Cancel(c, a, b.l);
      var (a2, r, n2) := Cancel(c, a1, b.r);
      (a2, Node(c, l, r), n1 + n2)
    else if a == b && IsYn(a) then (a, b, 0)
    else if !ExprEq(a, b) then (a, b, 0)
    else (Unit(c), Unit(c), 1)
  }

  /** expr_eliminate_eq */
  function EliminateEq(a: Expr, b: Expr): (r: (Expr, Expr))
    decreases Weight(a, b), 1
  {
    var (a1, b1, _) :=
      if a.Or? then Cancel(OrC, a, b) else if a.And? then Cancel(AndC, a, b) else (a, b, 0);
    var sameType := (a1.Or? && b1.Or?) || (a1.And? && b1.And?);
    var (a2, b2, _) :=
      if !sameType && b1.Or? then Cancel(OrC, a1, b1)
      else if !sameType && b1.And? then Cancel(AndC, a1, b1)
      else (a1, b1, 0);
    (EliminateYn(a2), EliminateYn(b2))
  }

  /** expr_eq */
  function ExprEq(a: Expr, b: Expr): bool
    decreases Weight(a, b), 2
  {
    match (a, b)
    case (Equal(_, _), Equal(_, _)) => a == b
    case (Unequal(_, _), Unequal(_, _)) => a == b
    case (Sym(_), Sym(_)) => a == b
    case (Not(x), Not(y)) => ExprEq(x, y)
    case (And(_, _), And(_, _)) =>
      var (a', b') := EliminateEq(a, b);
      a'.Sym? && a' == b'
    case (Or(_, _), Or(_, _)) =>
      var (a', b') := EliminateEq(a, b);
      a'.Sym? && a' == b'
    case _ => false
  }

  // ---- soundness ----------------------------------------------------------------------------

  /** What cancellation keeps: one common value was taken out of both sides. */
  ghost predicate Cancelled(c: Conn, a: Tri, b: Tri, a': Tri, b': Tri) {
    exists k: Tri :: Apply(c, a', k) == a && Apply(c, b', k) == b
  }

  lemma ApplyMix(c: Conn, l: Tri, r: Tri, k1: Tri, k2: Tri)
    ensures Apply(c, Apply(c, l, r), Apply(c, k1, k2)) == Apply(c, Apply(c, l, k1), Apply(c, r, k2))
  {
  }

  lemma ApplyTwice(c: Conn, b: Tri, k1: Tri, k2: Tri)
    ensures Apply(c, b, Apply(c, k1, k2)) == Apply(c, Apply(c, b, k2), k1)
  {
  }

  lemma CancelledLeft(c: Conn, l: Tri, r: Tri, b: Tri, l': Tri, b1: Tri, r': Tri, b2: Tri)
    requires Cancelled(c, l, b, l', b1) && Cancelled(c, r, b1, r', b2)
    ensures Cancelled(c, Apply(c, l, r), b, Apply(c, l', r'), b2)
  {
    var k1: Tri :| Apply(c, l', k1) == l && Apply(c, b1, k1) == b;
    var k2: Tri :| Apply(c, r', k2) == r && Apply(c, b2, k2) == b1;
    var k := Apply(c, k1, k2);
    ApplyMix(c, l', r', k1, k2);
    ApplyTwice(c, b2, k1, k2);
    assert Apply(c, Apply(c, l', r'), k) == Apply(c, l, r) && Apply(c, b2, k) == b;
  }

  lemma CancelledSwap(c: Conn, a: Tri, b: Tri, a': Tri, b': Tri)
    requires Cancelled(c, a, b, a', b')
    ensures Cancelled(c, b, a, b', a')
  {
    var k: Tri :| Apply(c, a', k) == a && Apply(c, b', k) == b;
    assert Apply(c, b', k) == b && Apply(c, a', k) == a;
  }

  lemma SplitValue(c: Conn, e: Expr, v: Valuation)
    requires IsNode(c, e)
    ensures Value(e, v) == Apply(c, Value(e.l, v), Value(e.r, v)) && Size(e.l) < Size(e) && Size(e.r) < Size(e)
  {
  }

  lemma NodeValue(c: Conn, l: Expr, r: Expr, v: Valuation)
    ensures Value(Node(c, l, r), v) == Apply(c, Value(l, v), Value(r, v))
  {
  }

  lemma CancelFromLeft(c: Conn, a: Expr, b: Expr)
    requires IsNode(c, a)
    ensures var r1 := Cancel(c, a.l, b);
            var r2 := Cancel(c, a.r, r1.1);
            Cancel(c, a, b).0 == Node(c, r1.0, r2.0) && Cancel(c, a, b).1 == r2.1
  {
  }

  lemma CancelFromRight(c: Conn, a: Expr, b: Expr)
    requires !IsNode(c, a) && IsNode(c, b)
    ensures var r1 := Cancel(c, a, b.l);
            var r2 := Cancel(c, r1.0, b.r);
            Cancel(c, a, b).0 == r2.0 && Cancel(c, a, b).1 == Node(c, r1.1, r2.1)
  {
  }

  lemma CancelLeaf(c: Conn, a: Expr, b: Expr)
    requires !IsNode(c, a) && !IsNode(c, b)
    ensures Cancel(c, a, b).0 == if ExprEq(a, b) && !(a == b && IsYn(a)) then Unit(c) else a
    ensures Cancel(c, a, b).1 == if ExprEq(a, b) && !(a == b && IsYn(a)) then Unit(c) else b
  {
    hide ExprEq;
  }

  lemma {:induction false} CancelSound(c: Conn, a: Expr, b: Expr, v: Valuation)
    requires Legal(v)
    ensures Cancelled(c, Value(a, v), Value(b, v), Value(Cancel(c, a, b).0, v), Value(Cancel(c, a, b).1, v))
    decreases Weight(a, b), if IsNode(c, a) || IsNode(c, b) then 0 else 3
  {
    if IsNode(c, a) {
      hide Cancel, Cancelled, Value, Apply;
      var (l, b1, _) := Cancel(c, a.l, b);
      var (r, b2, _) := Cancel(c, a.r, b1);
      SplitValue(c, a, v);
      NodeValue(c, l, r, v);
      CancelFromLeft(c, a, b);
      CancelSound(c, a.l, b, v);
      CancelSound(c, a.r, b1, v);
      CancelledLeft(c, Value(a.l, v), Value(a.r, v), Value(b, v),
                    Value(l, v), Value(b1, v), Value(r, v), Value(b2, v));
    } else if IsNode(c, b) {
      hide Cancel, Cancelled, Value, Apply;
      var (a1, l, _) := Cancel(c, a, b.l);
      var (a2, r, _) := Cancel(c, a1, b.r);
      SplitValue(c, b, v);
      NodeValue(c, l, r, v);
      CancelFromRight(c, a, b);
      CancelSound(c, a, b.l, v);
      CancelSound(c, a1, b.r, v);
      CancelledSwap(c, Value(a, v), Value(b.l, v), Value(a1, v), Value(l, v));
      CancelledSwap(c, Value(a1, v), Value(b.r, v), Value(a2, v), Value(r, v));
      CancelledLeft(c, Value(b.l, v), Value(b.r, v), Value(a, v),
                    Value(l, v), Value(a1, v), Value(r, v), Value(a2, v));
      CancelledSwap(c, Value(b, v), Value(a, v), Apply(c, Value(l, v), Value(r, v)), Value(a2, v));
    } else {
      hide Cancel, Cancelled, ExprEq;
      CancelLeaf(c, a, b);
      CancelledOne(c, Value(a, v), Value(b, v));
      if ExprEq(a, b) {
        ExprEqSound(a, b, v);
      }
    }
  }

  /** Nothing cancelled, or both sides altogether. */
  lemma CancelledOne(c: Conn, a: Tri, b: Tri)
    ensures var unit := if c.AndC? then Y else N; Cancelled(c, a, b, a, b) && Cancelled(c, a, a, unit, unit)
  {
    var unit := if c.AndC? then Y else N;
    assert Apply(c, a, unit) == a && Apply(c, b, unit) == b;
    assert Apply(c, unit, a) == a;
  }

  lemma CancelledAgree(c: Conn, a: Tri, b: Tri, a': Tri, b': Tri)
    requires Cancelled(c, a, b, a', b')
    ensures a' == b' ==> a == b
  {
  }

  /** Trees that end up with the same value after expr_eliminate_eq had it before. */
  lemma {:induction false} EliminateEqSound(a: Expr, b: Expr, v: Valuation)
    requires Legal(v)
    ensures var (a', b') := EliminateEq(a, b);
            Value(a', v) == Value(b', v) ==> Value(a, v) == Value(b, v)
    decreases Weight(a, b), 1
  {
    hide Cancel, Cancelled, Value, ExprEq, EliminateYn;
    var (a1, b1, _) :=
      if a.Or? then Cancel(OrC, a, b) else if a.And? then Cancel(AndC, a, b) else (a, b, 0);
    if a.Or? || a.And? {
      var c := if a.Or? then OrC else AndC;
      CancelSound(c, a, b, v);
      CancelledAgree(c, Value(a, v), Value(b, v), Value(a1, v), Value(b1, v));
    }
    var sameType := (a1.Or? && b1.Or?) || (a1.And? && b1.And?);
    var (a2, b2, _) :=
      if !sameType && b1.Or? then Cancel(OrC, a1, b1)
      else if !sameType && b1.And? then Cancel(AndC, a1, b1)
      else (a1, b1, 0);
    if !sameType && (b1.Or? || b1.And?) {
      var c := if b1.Or? then OrC else AndC;
      CancelSound(c, a1, b1, v);
      CancelledAgree(c, Value(a1, v), Value(b1, v), Value(a2, v), Value(b2, v));
    }
    EliminateYnValue(a2, v);
    EliminateYnValue(b2, v);
  }

  /** expr_eq never equates expressions that differ under some tristate valuation. */
  lemma {:induction false} ExprEqSound(a: Expr, b: Expr, v: Valuation)
    requires Legal(v)
    requires ExprEq(a, b)
    ensures Value(a, v) == Value(b, v)
    decreases Weight(a, b), 2
  {
    match (a, b)
    case (Not(x), Not(y)) => ExprEqSound(x, y, v);
    case (And(_, _), And(_, _)) => EliminateEqSound(a, b, v);
    case (Or(_, _), Or(_, _)) => EliminateEqSound(a, b, v);
    case _ =>
  }
}
