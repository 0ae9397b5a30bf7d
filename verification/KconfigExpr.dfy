/** Kconfig expressions and their three-valued meaning (tools/kconfig/expr.h, expr_calc_value in
    tools/kconfig/expr.c, and the facts about symbols that tools/kconfig/symbol.c establishes).
    Expressions are values; the nodes E_LIST, E_RANGE and E_NONE are outside the domain. */
module KconfigExpr {

  datatype Tri = N | M | Y

  function Min(a: Tri, b: Tri): Tri {
    if a.N? || b.N? then N else if a.M? || b.M? then M else Y
  }

  function Max(a: Tri, b: Tri): Tri {
    if a.Y? || b.Y? then Y else if a.M? || b.M? then M else N
  }

  function Neg(a: Tri): Tri {
    match a
    case N => Y
    case M => M
    case Y => N
  }

  /** Kleene's information order: `mod` may turn into anything, `no` and `yes` are final. */
  predicate InfoLe(a: Tri, b: Tri) {
    a.M? || a == b
  }

  datatype SymbolType = Unknown | Boolean | Tristate | Int | Hex | String | Other

  /** A symbol is known by its address.  `symbol_yes`, `symbol_mod` and `symbol_no` are built in;
      a quoted constant is looked up with SYMBOL_CONST and never given a type. */
  datatype Symbol = Yes | Mod | No | Quoted(id: nat) | Named(id: nat, typ: SymbolType)

  /** The built-in symbols are declared without a type, which makes it S_UNKNOWN. */
  function TypeOf(s: Symbol): SymbolType {
    if s.Named? then s.typ else Unknown
  }

  predicate IsConst(s: Symbol) {
    !s.Named?
  }

  datatype Expr =
    | Sym(s: Symbol)
    | Not(e: Expr)
    | And(l: Expr, r: Expr)
    | Or(l: Expr, r: Expr)
    | Equal(a: Symbol, b: Symbol)
    | Unequal(a: Symbol, b: Symbol)

  /** The two connectives: the `type` argument of the rewriting functions. */
  datatype Conn = AndC | OrC

  predicate IsNode(c: Conn, e: Expr) {
    if c.AndC? then e.And? else e.Or?
  }

  function Node(c: Conn, l: Expr, r: Expr): Expr {
    if c.AndC? then And(l, r) else Or(l, r)
  }

  function Apply(c: Conn, a: Tri, b: Tri): Tri {
    if c.AndC? then Min(a, b) else Max(a, b)
  }

  /** The neutral constant of a connective: `y` for &&, `n` for ||. */
  function Unit(c: Conn): Expr {
    if c.AndC? then Sym(Yes) else Sym(No)
  }

  predicate IsYn(e: Expr) {
    e == Sym(Yes) || e == Sym(No)
  }

  /** A state of the configuration: every symbol's tristate value and its string value. */
  datatype Valuation = Valuation(tri: Symbol -> Tri, str: Symbol -> string)

  function Letter(t: Tri): string {
    match t
    case N => "n"
    case M => "m"
    case Y => "y"
  }

  /** What tools/kconfig/symbol.c guarantees of every calculated state. */
  ghost predicate Legal(v: Valuation) {
    && v.tri(Yes) == Y && v.tri(Mod) == M && v.tri(No) == N
    && v.str(Yes) == "y" && v.str(Mod) == "m" && v.str(No) == "n"
    && (forall s: Symbol :: TypeOf(s).Boolean? ==> v.tri(s) != M)
    && (forall s: Symbol :: TypeOf(s).Boolean? || TypeOf(s).Tristate? ==> v.str(s) == Letter(v.tri(s)))
    && (forall s: Symbol, t: Symbol :: IsConst(s) && IsConst(t) && s != t ==> v.str(s) != v.str(t))
  }

  /** Such states exist: everything unset, with distinct texts for the quoted constants. */
  lemma LegalStatesExist() returns (v: Valuation)
    ensures Legal(v)
  {
    v := Valuation(
      (s: Symbol) => if s.Yes? then Y else if s.Mod? then M else N,
      (s: Symbol) => match s
        case Yes => "y"
        case Mod => "m"
        case No => "n"
        case Quoted(i) => seq(i + 2, _ => 'q')
        case Named(_, _) => "n");
    forall i: nat, j: nat | i != j
      ensures v.str(Quoted(i)) != v.str(Quoted(j))
    {
      assert |v.str(Quoted(i))| != |v.str(Quoted(j))|;
    }
    forall i: nat ensures v.str(Quoted(i)) !in {"y", "m", "n"} {
      assert |v.str(Quoted(i))| > 1;
    }
  }

  /** expr_calc_value */
  function Value(e: Expr, v: Valuation): Tri {
    match e
    case Sym(s) => v.tri(s)
    case Not(x) => Neg(Value(x, v))
    case And(l, r) => Min(Value(l, v), Value(r, v))
    case Or(l, r) => Max(Value(l, v), Value(r, v))
    case Equal(a, b) => if v.str(a) == v.str(b) then Y else N
    case Unequal(a, b) => if v.str(a) == v.str(b) then N else Y
  }

  function Size(e: Expr): nat
    ensures Size(e) > 0
  {
    match e
    case Not(x) => 1 + Size(x)
    case And(l, r) => 1 + Size(l) + Size(r)
    case Or(l, r) => 1 + Size(l) + Size(r)
    case _ => 1
  }

  // ---- yes/no elimination -------------------------------------------------------------------

  /** expr_eliminate_yn: drops neutral operands and collapses on absorbing ones. */
  function EliminateYn(e: Expr): Expr {
    match e
    case And(l, r) =>
      var l', r' := EliminateYn(l), EliminateYn(r);
      if l' == Sym(No) then Sym(No)
      else if l' == Sym(Yes) then r'
      else if r' == Sym(No) then Sym(No)
      else if r' == Sym(Yes) then l'
      else And(l', r')
    case Or(l, r) =>
      var l', r' := EliminateYn(l), EliminateYn(r);
      if l' == Sym(No) then r'
      else if l' == Sym(Yes) then Sym(Yes)
      else if r' == Sym(No) then l'
      else if r' == Sym(Yes) then Sym(Yes)
      else Or(l', r')
    case _ => e
  }

  /** Some connective has the constant `y` or `n` as a direct operand. */
  predicate HasYn(e: Expr) {
    match e
    case And(l, r) => IsYn(l) || IsYn(r) || HasYn(l) || HasYn(r)
    case Or(l, r) => IsYn(l) || IsYn(r) || HasYn(l) || HasYn(r)
    case _ => false
  }

  lemma {:induction false} EliminateYnValue(e: Expr, v: Valuation)
    requires Legal(v)
    ensures Value(EliminateYn(e), v) == Value(e, v)
  {
    match e
    case And(l, r) =>
      EliminateYnValue(l, v);
      EliminateYnValue(r, v);
    case Or(l, r) =>
      EliminateYnValue(l, v);
      EliminateYnValue(r, v);
    case _ =>
  }

  /** Elimination removes every constant operand, shrinks the tree exactly when there was one,
      and leaves any other tree alone. */
  lemma {:induction false} EliminateYnShape(e: Expr)
    ensures !HasYn(EliminateYn(e))
    ensures Size(EliminateYn(e)) <= Size(e)
    ensures HasYn(e) <==> Size(EliminateYn(e)) < Size(e)
    ensures !HasYn(e) <==> EliminateYn(e) == e
  {
    match e
    case And(l, r) =>
      EliminateYnShape(l);
      EliminateYnShape(r);
    case Or(l, r) =>
      EliminateYnShape(l);
      EliminateYnShape(r);
    case _ =>
  }
}
