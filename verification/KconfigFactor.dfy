/** Rewrites that combine two operands of a connective: joining them into one (expr_join_or,
    expr_join_and) and pulling out what they share (expr_extract_eq and its two wrappers in
    tools/kconfig/expr.c). */
module KconfigFactor {
  import opened KconfigExpr
  import opened KconfigEq
  import opened Options

  // ---- joins --------------------------------------------------------------------------------

  predicate Simple(e: Expr) {
    e.Equal? || e.Unequal? || e.Sym? || e.Not?
  }

  /** The symbol a simple left operand is about; a negated comparison still counts. */
  function LeftSubject(e: Expr): Option<Symbol>
    requires Simple(e)
  {
    match e
    case Not(Sym(s)) => Some(s)
    case Not(Equal(a, _)) => Some(a)
    case Not(Unequal(a, _)) => Some(a)
    case Not(_) => None
    case Sym(s) => Some(s)
    case Equal(a, _) => Some(a)
    case Unequal(a, _) => Some(a)
  }

  /** For a right operand only a negated symbol counts. */
  function RightSubject(e: Expr): Option<Symbol>
    requires Simple(e)
  {
    match e
    case Not(Sym(s)) => Some(s)
    case Not(_) => None
    case Sym(s) => Some(s)
    case Equal(a, _) => Some(a)
    case Unequal(a, _) => Some(a)
  }

  /** The bool or tristate symbol both operands are about, if there is one. */
  function Subject(a: Expr, b: Expr): (r: Option<Symbol>)
    ensures r.Some? ==> TypeOf(r.value).Boolean? || TypeOf(r.value).Tristate?
  {
    if !Simple(a) || !Simple(b) then None
    else
      var s := LeftSubject(a);
      if s.None? || s != RightSubject(b) then None
      else if TypeOf(s.value).Boolean? || TypeOf(s.value).Tristate? then s
      else None
  }

  predicate BothCompare(a: Expr, b: Expr, x: Symbol, y: Symbol)
    requires (a.Equal? && b.Equal?) || (a.Unequal? && b.Unequal?)
  {
    (a.b == x && b.b == y) || (a.b == y && b.b == x)
  }

  /** expr_join_or */
  function JoinOr(a: Expr, b: Expr): Option<Expr> {
    if ExprEq(a, b) then Some(a)
    else if Subject(a, b).None? then None
    else
      var s := Subject(a, b).value;
      if TypeOf(s).Tristate? && a.Equal? && b.Equal? then
        if BothCompare(a, b, Yes, Mod) then Some(Unequal(s, No))
        else if BothCompare(a, b, Yes, No) then Some(Unequal(s, Mod))
        else if BothCompare(a, b, Mod, No) then Some(Unequal(s, Yes))
        else None
      else if TypeOf(s).Boolean? && ((a == Not(Sym(s)) && b.Sym?) || (b == Not(Sym(s)) && a.Sym?)) then
        Some(Sym(Yes))
      else None
  }

  predicate SymbolAnd(a: Expr, b: Expr, other: Expr) {
    (a.Sym? && b == other) || (b.Sym? && a == other)
  }

  /** expr_join_and */
  function JoinAnd(a: Expr, b: Expr): Option<Expr> {
    if ExprEq(a, b) then Some(a)
    else if Subject(a, b).None? then None
    else
      var s := Subject(a, b).value;
      if SymbolAnd(a, b, Equal(s, Yes)) then Some(Equal(s, Yes))
      else if SymbolAnd(a, b, Unequal(s, No)) then Some(Sym(s))
      else if SymbolAnd(a, b, Unequal(s, Mod)) then Some(Equal(s, Yes))
      else if !TypeOf(s).Tristate? then None
      else if a.Equal? && b.Unequal? && IsConst(a.b) && IsConst(b.b) then
        Some(if a.b != b.b then Equal(s, a.b) else Sym(No))
      else if a.Unequal? && b.Equal? && IsConst(a.b) && IsConst(b.b) then
        Some(if a.b != b.b then Equal(s, b.b) else Sym(No))
      else if a.Unequal? && b.Unequal? then
        if BothCompare(a, b, Yes, No) then Some(Equal(s, Mod))
        else if BothCompare(a, b, Yes, Mod) then Some(Equal(s, No))
        else if BothCompare(a, b, Mod, No) then Some(Equal(s, Yes))
        else None
      else None
  }

  function Join(c: Conn, a: Expr, b: Expr): (r: Option<Expr>)
    ensures r.Some? ==> 1 + Size(r.value) <= Size(a) + Size(b)
    ensures r.Some? && !IsNode(c, a) ==> !IsNode(c, r.value)
  {
    if c.AndC? then JoinAnd(a, b) else JoinOr(a, b)
  }

  lemma SubjectLetter(s: Symbol, v: Valuation)
    requires Legal(v)
    requires TypeOf(s).Boolean? || TypeOf(s).Tristate?
    ensures v.str(s) == Letter(v.tri(s))
    ensures forall t | t == Yes || t == Mod || t == No :: v.str(s) == v.str(t) <==> v.tri(s) == v.tri(t)
    ensures TypeOf(s).Boolean? ==> v.tri(s) != M
  {
  }

  lemma JoinOrValue(a: Expr, b: Expr, v: Valuation)
    requires Legal(v) && JoinOr(a, b).Some?
    ensures Value(JoinOr(a, b).value, v) == Max(Value(a, v), Value(b, v))
  {
    hide ExprEq;
    if ExprEq(a, b) {
      ExprEqSound(a, b, v);
    } else {
      SubjectLetter(Subject(a, b).value, v);
    }
  }

  lemma JoinAndSymbol(a: Expr, b: Expr, s: Symbol, v: Valuation)
    requires Legal(v) && !ExprEq(a, b) && Subject(a, b) == Some(s) && JoinAnd(a, b).Some? && (a.Sym? || b.Sym?)
    ensures Value(JoinAnd(a, b).value, v) == Min(Value(a, v), Value(b, v))
  {
    hide ExprEq;
    SubjectLetter(s, v);
  }

  lemma JoinAndValue(a: Expr, b: Expr, v: Valuation)
    requires Legal(v) && JoinAnd(a, b).Some?
    ensures Value(JoinAnd(a, b).value, v) == Min(Value(a, v), Value(b, v))
  {
    hide ExprEq;
    if ExprEq(a, b) {
      ExprEqSound(a, b, v);
    } else {
      var s := Subject(a, b).value;
      SubjectLetter(s, v);
      if a.Sym? || b.Sym? {
        JoinAndSymbol(a, b, s, v);
      } else if (a.Equal? && b.Unequal?) || (a.Unequal? && b.Equal?) {
        assert IsConst(a.b) && IsConst(b.b) && a.b != b.b ==> v.str(a.b) != v.str(b.b);
      }
    }
  }

  /** A join has the value of the connective it replaces, under every valuation. */
  lemma JoinValue(c: Conn, a: Expr, b: Expr, v: Valuation)
    requires Legal(v) && Join(c, a, b).Some?
    ensures Value(Join(c, a, b).value, v) == Apply(c, Value(a, v), Value(b, v))
  {
    if c.AndC? {
      JoinAndValue(a, b, v);
    } else {
      JoinOrValue(a, b, v);
    }
  }

  // ---- common operands ----------------------------------------------------------------------

  /** expr_extract_eq: moves each pair of equal operands of `a` and `b` into `common`. */
  function Extract(c: Conn, common: Option<Expr>, a: Expr, b: Expr): (r: (Option<Expr>, Expr, Expr))
    ensures Size(r.1) <= Size(a) && Size(r.2) <= Size(b)
    ensures common.Some? ==> r.0.Some?
    ensures r.0.None? ==> r.1 == a && r.2 == b
    decreases Size(a) + Size(b)
  {
    if IsNode(c, a) then
      var (k1, l, b1) := Extract(c, common, a.l, b);
      var (k2, r, b2) := Extract(c, k1, a.r, b1);
      (k2, Node(c, l, r), b2)
    else if IsNode(c, b) then
      var (k1, a1, l) := Extract(c, common, a, b.l);
      var (k2, a2, r) := Extract(c, k1, a1, b.r);
      (k2, a2, Node(c, l, r))
    else if ExprEq(a, b) then
      (Some(if common.Some? then Node(c, common.value, a) else a), Unit(c), Unit(c))
    else (common, a, b)
  }

  /** expr_extract_eq_and and expr_extract_eq_or */
  function FactorOut(c: Conn, a: Expr, b: Expr): (Option<Expr>, Expr, Expr) {
    var (k, a', b') := Extract(c, None, a, b);
    if k.Some? then (k, EliminateYn(a'), EliminateYn(b')) else (k, a', b')
  }

  function UnitValue(c: Conn): Tri {
    if c.AndC? then Y else N
  }

  function CommonValue(c: Conn, k: Option<Expr>, v: Valuation): Tri {
    if k.Some? then Value(k.value, v) else UnitValue(c)
  }

  /** The value `d` was taken from `a` and from `b` and added to the common part. */
  ghost predicate MovedBy(c: Conn, k: Tri, a: Tri, b: Tri, k': Tri, a': Tri, b': Tri, d: Tri) {
    k' == Apply(c, k, d) && a == Apply(c, a', d) && b == Apply(c, b', d)
  }

  ghost predicate Moved(c: Conn, k: Tri, a: Tri, b: Tri, k': Tri, a': Tri, b': Tri) {
    exists d: Tri :: MovedBy(c, k, a, b, k', a', b', d)
  }

  lemma MovedByBoth(c: Conn, k: Tri, l: Tri, r: Tri, b: Tri, k1: Tri, l': Tri, b1: Tri, k2: Tri, r': Tri, b2: Tri,
    d1: Tri, d2: Tri)
    requires MovedBy(c, k, l, b, k1, l', b1, d1) && MovedBy(c, k1, r, b1, k2, r', b2, d2)
    ensures MovedBy(c, k, Apply(c, l, r), b, k2, Apply(c, l', r'), b2, Apply(c, d1, d2))
  {
    ApplyMix(c, l', r', d1, d2);
    ApplyTwice(c, b2, d1, d2);
    ApplyTwice(c, k, d2, d1);
    hide Apply;
    ApplyCommutes(c, d1, d2);
  }

  lemma ApplyCommutes(c: Conn, a: Tri, b: Tri)
    ensures Apply(c, a, b) == Apply(c, b, a)
  {
  }

  lemma MovedTwice(c: Conn, k: Tri, l: Tri, r: Tri, b: Tri, k1: Tri, l': Tri, b1: Tri, k2: Tri, r': Tri, b2: Tri)
    requires Moved(c, k, l, b, k1, l', b1) && Moved(c, k1, r, b1, k2, r', b2)
    ensures Moved(c, k, Apply(c, l, r), b, k2, Apply(c, l', r'), b2)
  {
    hide MovedBy;
    var d1: Tri :| MovedBy(c, k, l, b, k1, l', b1, d1);
    var d2: Tri :| MovedBy(c, k1, r, b1, k2, r', b2, d2);
    MovedByBoth(c, k, l, r, b, k1, l', b1, k2, r', b2, d1, d2);
  }

  lemma MovedSwap(c: Conn, k: Tri, a: Tri, b: Tri, k': Tri, a': Tri, b': Tri)
    requires Moved(c, k, a, b, k', a', b')
    ensures Moved(c, k, b, a, k', b', a')
  {
    var d: Tri :| MovedBy(c, k, a, b, k', a', b', d);
    assert MovedBy(c, k, b, a, k', b', a', d);
  }

  lemma MovedBase(c: Conn, k: Tri, a: Tri, b: Tri)
    ensures Moved(c, k, a, a, Apply(c, k, a), UnitValue(c), UnitValue(c))
    ensures Moved(c, k, a, b, k, a, b)
  {
    assert MovedBy(c, k, a, a, Apply(c, k, a), UnitValue(c), UnitValue(c), a);
    assert MovedBy(c, k, a, b, k, a, b, UnitValue(c));
  }

  lemma MovedFromUnit(c: Conn, a: Tri, b: Tri, k: Tri, a': Tri, b': Tri)
    requires Moved(c, UnitValue(c), a, b, k, a', b')
    ensures a == Apply(c, k, a') && b == Apply(c, k, b')
  {
    var d: Tri :| MovedBy(c, UnitValue(c), a, b, k, a', b', d);
    ApplyCommutes(c, k, a');
    ApplyCommutes(c, k, b');
  }

  lemma ExtractFromLeft(c: Conn, k: Option<Expr>, a: Expr, b: Expr)
    requires IsNode(c, a)
    ensures var r1 := Extract(c, k, a.l, b);
            var r2 := Extract(c, r1.0, a.r, r1.2);
            Extract(c, k, a, b) == (r2.0, Node(c, r1.1, r2.1), r2.2)
  {
    hide ExprEq;
  }

  lemma ExtractFromRight(c: Conn, k: Option<Expr>, a: Expr, b: Expr)
    requires !IsNode(c, a) && IsNode(c, b)
    ensures var r1 := Extract(c, k, a, b.l);
            var r2 := Extract(c, r1.0, r1.1, b.r);
            Extract(c, k, a, b) == (r2.0, r2.1, Node(c, r1.2, r2.2))
  {
    hide ExprEq;
  }



  lemma ExtractMovesOne(c: Conn, k: Option<Expr>, a: Expr, b: Expr, v: Valuation)
    requires Legal(v) && !IsNode(c, a) && !IsNode(c, b)
    ensures var r := Extract(c, k, a, b);
            Moved(c, CommonValue(c, k, v), Value(a, v), Value(b, v),
                  CommonValue(c, r.0, v), Value(r.1, v), Value(r.2, v))
  {
    hide Moved, ExprEq;
    MovedBase(c, CommonValue(c, k, v), Value(a, v), Value(b, v));
    if ExprEq(a, b) {
      ExprEqSound(a, b, v);
    }
  }

  lemma {:induction false} ExtractMoves(c: Conn, k: Option<Expr>, a: Expr, b: Expr, v: Valuation)
    requires Legal(v)
    ensures var r := Extract(c, k, a, b);
            Moved(c, CommonValue(c, k, v), Value(a, v), Value(b, v),
                  CommonValue(c, r.0, v), Value(r.1, v), Value(r.2, v))
    decreases Size(a) + Size(b)
  {
    hide Moved, ExprEq, Extract, Value, Apply, CommonValue, Size;
    var kv := CommonValue(c, k, v);
    if IsNode(c, a) {
      var r1 := Extract(c, k, a.l, b);
      var r2 := Extract(c, r1.0, a.r, r1.2);
      SplitValue(c, a, v);
      ExtractFromLeft(c, k, a, b);
      NodeValue(c, r1.1, r2.1, v);
      ExtractMoves(c, k, a.l, b, v);
      ExtractMoves(c, r1.0, a.r, r1.2, v);
      MovedTwice(c, kv, Value(a.l, v), Value(a.r, v), Value(b, v), CommonValue(c, r1.0, v), Value(r1.1, v),
                 Value(r1.2, v), CommonValue(c, r2.0, v), Value(r2.1, v), Value(r2.2, v));
    } else if IsNode(c, b) {
      var r1 := Extract(c, k, a, b.l);
      var r2 := Extract(c, r1.0, r1.1, b.r);
      SplitValue(c, b, v);
      ExtractFromRight(c, k, a, b);
      NodeValue(c, r1.2, r2.2, v);
      ExtractMoves(c, k, a, b.l, v);
      ExtractMoves(c, r1.0, r1.1, b.r, v);
      var k1, k2 := CommonValue(c, r1.0, v), CommonValue(c, r2.0, v);
      MovedSwap(c, kv, Value(a, v), Value(b.l, v), k1, Value(r1.1, v), Value(r1.2, v));
      MovedSwap(c, k1, Value(r1.1, v), Value(b.r, v), k2, Value(r2.1, v), Value(r2.2, v));
      MovedTwice(c, kv, Value(b.l, v), Value(b.r, v), Value(a, v), k1, Value(r1.2, v), Value(r1.1, v),
                 k2, Value(r2.2, v), Value(r2.1, v));
      MovedSwap(c, kv, Value(b, v), Value(a, v), k2, Apply(c, Value(r1.2, v), Value(r2.2, v)), Value(r2.1, v));
    } else {
      ExtractMovesOne(c, k, a, b, v);
    }
  }

  /** Factoring is exact: each side is the common part combined with what is left of it. */
  lemma FactorOutValue(c: Conn, a: Expr, b: Expr, v: Valuation)
    requires Legal(v)
    ensures var (k, a', b') := FactorOut(c, a, b);
            && Value(a, v) == Apply(c, CommonValue(c, k, v), Value(a', v))
            && Value(b, v) == Apply(c, CommonValue(c, k, v), Value(b', v))
  {
    var r := Extract(c, None, a, b);
    ExtractMoves(c, None, a, b, v);
    MovedFromUnit(c, Value(a, v), Value(b, v), CommonValue(c, r.0, v), Value(r.1, v), Value(r.2, v));
    EliminateYnValue(r.1, v);
    EliminateYnValue(r.2, v);
  }
}
