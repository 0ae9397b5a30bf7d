/** Normalisation of expressions (expr_transform in tools/kconfig/expr.c). */
module KconfigTransform {
  import opened KconfigExpr

  /** The number of connectives. */
  function Binaries(e: Expr): nat {
    match e
    case Not(x) => Binaries(x)
    case And(l, r) => 1 + Binaries(l) + Binaries(r)
    case Or(l, r) => 1 + Binaries(l) + Binaries(r)
    case _ => 0
  }

  /** The number of negations stacked at the root. */
  function Bangs(e: Expr): nat {
    if e.Not? then 1 + Bangs(e.e) else 0
  }

  /** expr_transform re-enters itself on the result of applying De Morgan's laws, which is larger
      than its input; what shrinks is the pair (connectives, stacked negations). */
  function Transform(e: Expr): (r: Expr)
    ensures Binaries(r) <= Binaries(e)
    ensures r.Not? ==> r.e.Sym?
    decreases Binaries(e), Bangs(e)
  {
    match e
    case Sym(_) => e
    case Equal(a, b) =>
      if !TypeOf(a).Boolean? then e
      else if b.No? then Not(Sym(a))
      else if b.Mod? then Sym(No)
      else if b.Yes? then Sym(a)
      else e
    case Unequal(a, b) =>
      if !TypeOf(a).Boolean? then e
      else if b.No? then Sym(a)
      else if b.Mod? then Sym(Yes)
      else if b.Yes? then Not(Sym(a))
      else e
    case And(l, r) => And(Transform(l), Transform(r))
    case Or(l, r) => Or(Transform(l), Transform(r))
    case Not(x) =>
      match Transform(x) {
      case Not(y) => Transform(y)
      case Equal(a, b) => Unequal(a, b)
      case Unequal(a, b) => Equal(a, b)
      case Or(l, r) =>
        assert Binaries(Not(l)) == Binaries(l) && Binaries(Not(r)) == Binaries(r);
        Transform(And(Not(l), Not(r)))
      case And(l, r) =>
        assert Binaries(Not(l)) == Binaries(l) && Binaries(Not(r)) == Binaries(r);
        Transform(Or(Not(l), Not(r)))
      case Sym(s) =>
        if s.Yes? then Sym(No)
        else if s.Mod? then Sym(Mod)
        else if s.No? then Sym(Yes)
        else Not(Sym(s))
      }
  }

  /** Every expression keeps its value, under every state of the configuration. */
  lemma {:induction false} TransformValue(e: Expr, v: Valuation)
    requires Legal(v)
    ensures Value(Transform(e), v) == Value(e, v)
    decreases Binaries(e), Bangs(e)
  {
    match e
    case And(l, r) =>
      TransformValue(l, v);
      TransformValue(r, v);
    case Or(l, r) =>
      TransformValue(l, v);
      TransformValue(r, v);
    case Not(x) =>
      TransformValue(x, v);
      TransformNotValue(x, v);
    case _ =>
  }

  /** What expr_transform re-enters itself on, below a negation. */
  function Pushed(e: Expr): Expr
    requires e.Not? || e.And? || e.Or?
  {
    match e
    case Not(y) => y
    case Or(l, r) => And(Not(l), Not(r))
    case And(l, r) => Or(Not(l), Not(r))
  }

  lemma PushedNot(x: Expr)
    requires Transform(x).Not? || Transform(x).And? || Transform(x).Or?
    ensures Transform(Not(x)) == Transform(Pushed(Transform(x)))
    ensures Binaries(Pushed(Transform(x))) <= Binaries(x)
    ensures Binaries(Pushed(Transform(x))) == Binaries(x) ==> Bangs(Pushed(Transform(x))) == 0
  {
  }

  lemma PushedValue(e: Expr, v: Valuation)
    requires e.Not? || e.And? || e.Or?
    ensures Value(Pushed(e), v) == Neg(Value(e, v))
  {
  }

  lemma NegatedLeaf(x: Expr, v: Valuation)
    requires Legal(v) && Value(Transform(x), v) == Value(x, v)
    requires Transform(x).Sym? || Transform(x).Equal? || Transform(x).Unequal?
    ensures Value(Transform(Not(x)), v) == Neg(Value(x, v))
  {
  }

  /** One negation above an expression that is transformed already. */
  lemma {:induction false} TransformNotValue(x: Expr, v: Valuation)
    requires Legal(v) && Value(Transform(x), v) == Value(x, v)
    ensures Value(Transform(Not(x)), v) == Value(Not(x), v)
    decreases Binaries(x), Bangs(x) + 1, 0
  {
    assert Value(Not(x), v) == Neg(Value(x, v));
    hide Transform, Value;
    var t := Transform(x);
    if t.Sym? || t.Equal? || t.Unequal? {
      NegatedLeaf(x, v);
    } else {
      PushedNot(x);
      PushedValue(t, v);
      TransformValue(Pushed(t), v);
    }
  }

  /** Comparisons that stay: those that do not test a boolean symbol against y, m or n. */
  predicate KeptComparison(a: Symbol, b: Symbol) {
    TypeOf(a).Boolean? ==> b.Named? || b.Quoted?
  }

  /** Negation normal form: `!` stands only above a symbol other than y, m and n. */
  predicate Normal(e: Expr) {
    match e
    case Sym(_) => true
    case Not(x) => x.Sym? && (x.s.Named? || x.s.Quoted?)
    case And(l, r) => Normal(l) && Normal(r)
    case Or(l, r) => Normal(l) && Normal(r)
    case Equal(a, b) => KeptComparison(a, b)
    case Unequal(a, b) => KeptComparison(a, b)
  }

  lemma {:induction false} TransformNormal(e: Expr)
    ensures Normal(Transform(e))
    decreases Binaries(e), Bangs(e)
  {
    match e
    case And(l, r) =>
      TransformNormal(l);
      TransformNormal(r);
    case Or(l, r) =>
      TransformNormal(l);
      TransformNormal(r);
    case Not(x) =>
      TransformNormal(x);
      match Transform(x) {
      case Not(y) => TransformNormal(y);
      case Or(l, r) =>
        assert Binaries(Not(l)) == Binaries(l) && Binaries(Not(r)) == Binaries(r);
        TransformNormal(And(Not(l), Not(r)));
      case And(l, r) =>
        assert Binaries(Not(l)) == Binaries(l) && Binaries(Not(r)) == Binaries(r);
        TransformNormal(Or(Not(l), Not(r)));
      case _ =>
      }
    case _ =>
  }

  lemma {:induction false} NormalIsKept(e: Expr)
    requires Normal(e)
    ensures Transform(e) == e
  {
    match e
    case And(l, r) =>
      NormalIsKept(l);
      NormalIsKept(r);
    case Or(l, r) =>
      NormalIsKept(l);
      NormalIsKept(r);
    case _ =>
  }

  /** The fixed points are exactly the normal forms, so a second pass changes nothing. */
  lemma TransformFixedPoints(e: Expr)
    ensures Transform(e) == e <==> Normal(e)
    ensures Transform(Transform(e)) == Transform(e)
  {
    TransformNormal(e);
    NormalIsKept(Transform(e));
    if Normal(e) {
      NormalIsKept(e);
    }
  }

  /** The negation of a normal form is its mirror image, so negating twice gives it back. */
  function Dual(e: Expr): Expr {
    match e
    case Sym(s) => if s.Yes? then Sym(No) else if s.No? then Sym(Yes) else if s.Mod? then e else Not(e)
    case Not(x) => x
    case And(l, r) => Or(Dual(l), Dual(r))
    case Or(l, r) => And(Dual(l), Dual(r))
    case Equal(a, b) => Unequal(a, b)
    case Unequal(a, b) => Equal(a, b)
  }

  lemma {:induction false} TransformNegation(e: Expr)
    requires Normal(e)
    ensures Transform(Not(e)) == Dual(e)
    ensures Normal(Dual(e)) && Dual(Dual(e)) == e
  {
    NormalIsKept(e);
    match e
    case And(l, r) =>
      TransformNegation(l);
      TransformNegation(r);
    case Or(l, r) =>
      TransformNegation(l);
      TransformNegation(r);
    case _ =>
  }
}
