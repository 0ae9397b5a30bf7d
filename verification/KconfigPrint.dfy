/** Printing of expressions with as few parentheses as possible (expr_compare_type and expr_print
    in tools/kconfig/expr.c), and reading them back with the precedences of
    tools/kconfig/zconf.y. */
module KconfigPrint {
  import opened KconfigExpr

  /** enum expr_type, without the types outside the domain that are never compared. */
  datatype ExprType = ENone | EOr | EAnd | ENot | EEqual | EUnequal | EList | ESymbol

  function TypeOfExpr(e: Expr): ExprType {
    match e
    case Sym(_) => ESymbol
    case Not(_) => ENot
    case And(_, _) => EAnd
    case Or(_, _) => EOr
    case Equal(_, _) => EEqual
    case Unequal(_, _) => EUnequal
  }

  /** expr_compare_type: each case falls through to the ones that bind less tightly. */
  function CompareType(t1: ExprType, t2: ExprType): int {
    if t1 == t2 then 0
    else if (t1.EEqual? || t1.EUnequal?) && t2.ENot? then 1
    else if (t1.EEqual? || t1.EUnequal? || t1.ENot?) && t2.EAnd? then 1
    else if (t1.EEqual? || t1.EUnequal? || t1.ENot? || t1.EAnd?) && t2.EOr? then 1
    else if (t1.EEqual? || t1.EUnequal? || t1.ENot? || t1.EAnd? || t1.EOr?) && t2.EList? then 1
    else if (t1.EEqual? || t1.EUnequal? || t1.ENot? || t1.EAnd? || t1.EOr? || t1.EList?) && t2.ENone? then 1
    else -1
  }

  /** What the callback receives, piece by piece. */
  datatype Token = Name(s: Symbol) | Bang | Eq | Neq | Bars | Amps | Open | Close

  /** expr_print(e, fn, data, prev) */
  function Print(e: Expr, prev: ExprType): seq<Token>
    decreases e, 1
  {
    if CompareType(prev, TypeOfExpr(e)) > 0 then [Open] + Body(e) + [Close] else Body(e)
  }

  function Body(e: Expr): seq<Token>
    decreases e, 0
  {
    match e
    case Sym(s) => [Name(s)]
    case Not(x) => [Bang] + Print(x, ENot)
    case Equal(a, b) => [Name(a), Eq, Name(b)]
    case Unequal(a, b) => [Name(a), Neq, Name(b)]
    case Or(l, r) => Print(l, EOr) + [Bars] + Print(r, EOr)
    case And(l, r) => Print(l, EAnd) + [Amps] + Print(r, EAnd)
  }

  // ---- a reader: || and && associate to the left, ! binds tighter, comparisons tightest ------

  datatype Parsed = Fail | Done(e: Expr, rest: seq<Token>)

  function ParseOr(ts: seq<Token>): (p: Parsed)
    ensures p.Done? ==> |p.rest| < |ts|
    decreases |ts|, 2
  {
    match ParseAnd(ts)
    case Fail => Fail
    case Done(x, rest) => OrLoop(x, rest)
  }

  function OrLoop(acc: Expr, ts: seq<Token>): (p: Parsed)
    ensures p.Done? ==> |p.rest| <= |ts|
    decreases |ts|, 2
  {
    if ts == [] || !ts[0].Bars? then Done(acc, ts)
    else
      match ParseAnd(ts[1..])
      case Fail => Fail
      case Done(x, rest) => OrLoop(Or(acc, x), rest)
  }

  function ParseAnd(ts: seq<Token>): (p: Parsed)
    ensures p.Done? ==> |p.rest| < |ts|
    decreases |ts|, 1
  {
    match ParseUnary(ts)
    case Fail => Fail
    case Done(x, rest) => AndLoop(x, rest)
  }

  function AndLoop(acc: Expr, ts: seq<Token>): (p: Parsed)
    ensures p.Done? ==> |p.rest| <= |ts|
    decreases |ts|, 1
  {
    if ts == [] || !ts[0].Amps? then Done(acc, ts)
    else
      match ParseUnary(ts[1..])
      case Fail => Fail
      case Done(x, rest) => AndLoop(And(acc, x), rest)
  }

  function ParseUnary(ts: seq<Token>): (p: Parsed)
    ensures p.Done? ==> |p.rest| < |ts|
    decreases |ts|, 0
  {
    if ts == [] then Fail
    else match ts[0]
      case Bang =>
        (match ParseUnary(ts[1..])
         case Fail => Fail
         case Done(x, rest) => Done(Not(x), rest))
      case Open =>
        (match ParseOr(ts[1..])
         case Fail => Fail
         case Done(x, rest) => if rest != [] && rest[0].Close? then Done(x, rest[1..]) else Fail)
      case Name(s) =>
        if |ts| >= 3 && ts[1].Eq? && ts[2].Name? then Done(Equal(s, ts[2].s), ts[3..])
        else if |ts| >= 3 && ts[1].Neq? && ts[2].Name? then Done(Unequal(s, ts[2].s), ts[3..])
        else Done(Sym(s), ts[1..])
      case _ => Fail
  }

  // ---- reading back what was printed --------------------------------------------------------

  ghost predicate SameValue(a: Expr, b: Expr) {
    forall v: Valuation :: Value(a, v) == Value(b, v)
  }

  /** What can follow a complete operand. */
  predicate Ends(rest: seq<Token>) {
    rest == [] || rest[0].Bars? || rest[0].Amps? || rest[0].Close?
  }

  predicate EndsAnd(rest: seq<Token>) {
    Ends(rest) && (rest != [] ==> !rest[0].Amps?)
  }

  predicate Compound(e: Expr) {
    e.And? || e.Or?
  }

  lemma ReadLeaf(e: Expr, rest: seq<Token>)
    requires Ends(rest) && (e.Sym? || e.Equal? || e.Unequal?)
    ensures ParseUnary(Print(e, ENot) + rest) == Done(e, rest)
  {
    assert Print(e, ENot) == Body(e);
    var ts := Body(e) + rest;
    match e
    case Sym(s) => assert ts[1..] == rest;
    case Equal(a, b) => assert ts[1] == Eq && ts[2] == Name(b) && ts[3..] == rest;
    case Unequal(a, b) => assert ts[1] == Neq && ts[2] == Name(b) && ts[3..] == rest;
  }

  lemma {:induction false} ReadUnary(e: Expr, rest: seq<Token>) returns (x: Expr)
    requires Ends(rest)
    ensures ParseUnary(Print(e, ENot) + rest) == Done(x, rest)
    ensures SameValue(x, e)
    decreases Size(e), if Compound(e) then 4 else 1
  {
    if e.Not? {
      var z := ReadUnary(e.e, rest);
      assert Print(e, ENot) == [Bang] + Print(e.e, ENot);
      Shift(Bang, Print(e.e, ENot), [], rest);
      x := Not(z);
    } else if Compound(e) {
      assert Print(e, ENot) == [Open] + Body(e) + [Close];
      assert Print(e, ENot) + rest == [Open] + Body(e) + ([Close] + rest);
      Shift(Open, Body(e), [], [Close] + rest);
      x := ReadOr(e, [Close] + rest);
      assert ([Close] + rest)[1..] == rest;
    } else {
      ReadLeaf(e, rest);
      x := e;
    }
  }

  /** Reading a printed && list consumes it and stands ready to read more operands. */
  lemma {:induction false} ReadAnd(e: Expr, rest: seq<Token>) returns (x: Expr)
    requires Ends(rest)
    ensures ParseAnd(Print(e, EAnd) + rest) == AndLoop(x, rest)
    ensures SameValue(x, e)
    decreases Size(e), if e.Or? then 5 else 2
  {
    if e.And? {
      var l := ReadAnd(e.l, [Amps] + Print(e.r, EAnd) + rest);
      Shift(Amps, Print(e.l, EAnd), Print(e.r, EAnd), rest);
      x := ReadMoreAnd(l, e.r, rest);
    } else {
      assert Print(e, EAnd) == Print(e, ENot);
      x := ReadUnary(e, rest);
    }
  }

  /** Regrouping a list of operands keeps its value. */
  lemma Regroup(c: Conn, x: Expr, y: Expr, acc: Expr, l: Expr, r: Expr)
    requires SameValue(y, Node(c, acc, l)) && SameValue(x, Node(c, y, r))
    ensures SameValue(x, Node(c, acc, Node(c, l, r)))
  {
    forall v: Valuation ensures Value(x, v) == Value(Node(c, acc, Node(c, l, r)), v) {
      RegroupValue(c, Value(acc, v), Value(l, v), Value(r, v));
      assert Value(x, v) == Apply(c, Value(y, v), Value(r, v));
      assert Value(y, v) == Apply(c, Value(acc, v), Value(l, v));
      assert Value(Node(c, l, r), v) == Apply(c, Value(l, v), Value(r, v));
    }
  }

  lemma Shift(t: Token, p: seq<Token>, q: seq<Token>, rest: seq<Token>)
    ensures (p + [t] + q) + rest == p + ([t] + q + rest)
    ensures [t] + (p + [t] + q) + rest == [t] + p + ([t] + q + rest)
    ensures ([t] + p + rest)[1..] == p + rest
  {
  }

  lemma RegroupValue(c: Conn, a: Tri, b: Tri, d: Tri)
    ensures Apply(c, Apply(c, a, b), d) == Apply(c, a, Apply(c, b, d))
  {
  }

  lemma {:induction false} ReadMoreAnd(acc: Expr, e: Expr, rest: seq<Token>) returns (x: Expr)
    requires Ends(rest)
    ensures AndLoop(acc, [Amps] + Print(e, EAnd) + rest) == AndLoop(x, rest)
    ensures SameValue(x, And(acc, e))
    decreases Size(e), if e.Or? then 5 else 2
  {
    if e.And? {
      assert Print(e, EAnd) == Print(e.l, EAnd) + [Amps] + Print(e.r, EAnd);
      Shift(Amps, Print(e.l, EAnd), Print(e.r, EAnd), rest);
      var l := ReadMoreAnd(acc, e.l, [Amps] + Print(e.r, EAnd) + rest);
      x := ReadMoreAnd(l, e.r, rest);
      Regroup(AndC, x, l, acc, e.l, e.r);
    } else {
      assert Print(e, EAnd) == Print(e, ENot);
      Shift(Amps, Print(e, EAnd), [], rest);
      var y := ReadUnary(e, rest);
      x := And(acc, y);
      SameOperand(acc, y, e);
    }
  }

  lemma SameOperand(acc: Expr, y: Expr, e: Expr)
    requires SameValue(y, e)
    ensures SameValue(And(acc, y), And(acc, e)) && SameValue(Or(acc, y), Or(acc, e))
  {
  }

  lemma {:induction false} ReadOr(e: Expr, rest: seq<Token>) returns (x: Expr)
    requires EndsAnd(rest)
    ensures ParseOr(Body(e) + rest) == OrLoop(x, rest)
    ensures SameValue(x, e)
    decreases Size(e), 3
  {
    if e.Or? {
      var l := ReadOr(e.l, [Bars] + Body(e.r) + rest);
      Shift(Bars, Body(e.l), Body(e.r), rest);
      assert Print(e.l, EOr) == Body(e.l) && Print(e.r, EOr) == Body(e.r);
      x := ReadMoreOr(l, e.r, rest);
    } else {
      assert Body(e) == Print(e, EAnd);
      x := ReadAnd(e, rest);
    }
  }

  lemma {:induction false} ReadMoreOr(acc: Expr, e: Expr, rest: seq<Token>) returns (x: Expr)
    requires EndsAnd(rest)
    ensures OrLoop(acc, [Bars] + Body(e) + rest) == OrLoop(x, rest)
    ensures SameValue(x, Or(acc, e))
    decreases Size(e), 3
  {
    if e.Or? {
      var l := ReadMoreOr(acc, e.l, [Bars] + Body(e.r) + rest);
      Shift(Bars, Body(e.l), Body(e.r), rest);
      assert Print(e.l, EOr) == Body(e.l) && Print(e.r, EOr) == Body(e.r);
      x := ReadMoreOr(l, e.r, rest);
      Regroup(OrC, x, l, acc, e.l, e.r);
    } else {
      assert Body(e) == Print(e, EAnd);
      Shift(Bars, Body(e), [], rest);
      var y := ReadAnd(e, rest);
      x := Or(acc, y);
      SameOperand(acc, y, e);
    }
  }

  /** The tokens of an expression read back, completely, as an expression with the same value
      under every valuation: the omitted parentheses never change the meaning. */
  lemma PrintReadsBack(e: Expr) returns (x: Expr)
    ensures ParseOr(Print(e, ENone)) == Done(x, [])
    ensures SameValue(x, e)
  {
    x := ReadOr(e, []);
    assert Print(e, ENone) == Body(e) == Body(e) + [];
  }

  /** Two expressions with the same tokens mean the same. */
  lemma PrintUnambiguous(a: Expr, b: Expr)
    requires Print(a, ENone) == Print(b, ENone)
    ensures SameValue(a, b)
  {
    var x := PrintReadsBack(a);
    var y := PrintReadsBack(b);
  }

  /** Parentheses are used where they are needed: around an || below && or !, and an && below !. */
  lemma ParenthesesExactly(e: Expr, prev: ExprType)
    requires prev in {TypeOfExpr(Not(e)), TypeOfExpr(And(e, e)), TypeOfExpr(Or(e, e)), ENone}
    ensures Print(e, prev) != Body(e) <==> (prev.ENot? && Compound(e)) || (prev.EAnd? && e.Or?)
  {
    assert |[Open] + Body(e) + [Close]| != |Body(e)|;
  }

  // ---- the text -----------------------------------------------------------------------------

  /** What expr_print_file_helper writes for a piece: of a symbol the name alone. */
  function Text(name: Symbol -> string, t: Token): string {
    match t
    case Name(s) => name(s)
    case Bang => "!"
    case Eq => "="
    case Neq => "!="
    case Bars => " || "
    case Amps => " && "
    case Open => "("
    case Close => ")"
  }

  function Texts(name: Symbol -> string, ts: seq<Token>): seq<string> {
    seq(|ts|, i requires 0 <= i < |ts| => Text(name, ts[i]))
  }

  /** No symbol is called like an operator or a parenthesis. */
  ghost predicate Words(name: Symbol -> string) {
    forall s: Symbol :: name(s) !in {"!", "=", "!=", " || ", " && ", "(", ")"}
  }

  ghost predicate Telling(name: Symbol -> string) {
    forall s: Symbol, t: Symbol | name(s) == name(t) :: s == t
  }

  /** Two expressions give the same text and different tokens. */
  ghost predicate Ambiguous(name: Symbol -> string, a: Expr, b: Expr) {
    Texts(name, Print(a, ENone)) == Texts(name, Print(b, ENone)) && Print(a, ENone) != Print(b, ENone)
  }

  /** The pieces of text tell the tokens exactly when no two symbols have the same name, as a quoted constant and
      a symbol can. */
  lemma TextsTell(name: Symbol -> string)
    requires Words(name)
    ensures Telling(name) <==> forall a: Expr, b: Expr :: !Ambiguous(name, a, b)
  {
    if Telling(name) {
      forall a: Expr, b: Expr ensures !Ambiguous(name, a, b) {
        if Texts(name, Print(a, ENone)) == Texts(name, Print(b, ENone)) {
          SameTokens(name, Print(a, ENone), Print(b, ENone));
        }
      }
    } else {
      var s: Symbol, t: Symbol :| name(s) == name(t) && s != t;
      SameName(name, s, t);
    }
  }

  lemma SameName(name: Symbol -> string, s: Symbol, t: Symbol)
    requires name(s) == name(t) && s != t
    ensures Ambiguous(name, Sym(s), Sym(t))
  {
    hide Print;
    PrintSymbol(s);
    PrintSymbol(t);
    assert Texts(name, [Name(s)]) == [name(s)] && Texts(name, [Name(t)]) == [name(t)];
    assert [Name(s)][0] != [Name(t)][0];
  }

  lemma PrintSymbol(s: Symbol)
    ensures Print(Sym(s), ENone) == [Name(s)]
  {
    assert CompareType(ENone, ESymbol) == -1;
    assert Body(Sym(s)) == [Name(s)];
  }

  lemma SameTokens(name: Symbol -> string, ts: seq<Token>, us: seq<Token>)
    requires Words(name) && Telling(name) && Texts(name, ts) == Texts(name, us)
    ensures ts == us
  {
    assert |Texts(name, ts)| == |Texts(name, us)|;
    forall i | 0 <= i < |ts| ensures ts[i] == us[i] {
      assert Texts(name, ts)[i] == Texts(name, us)[i];
      SameToken(name, ts[i], us[i]);
    }
  }

  lemma SameToken(name: Symbol -> string, t: Token, u: Token)
    requires Words(name) && Telling(name) && Text(name, t) == Text(name, u)
    ensures t == u
  {
    assert |"!"| == 1 && |"="| == 1 && |"("| == 1 && |")"| == 1 && |"!="| == 2;
    assert "!"[0] == '!' && "="[0] == '=' && "("[0] == '(' && ")"[0] == ')' && " || "[1] == '|' && " && "[1] == '&';
  }
}
