/** Elimination of redundant operands (expr_eliminate_dups, expr_eliminate_dups1 and
    expr_eliminate_dups2 in tools/kconfig/expr.c).  Each step returns the new operands and the
    number of rewrites, which the source adds to trans_count. */
module KconfigDups {
  import opened KconfigExpr
  import opened KconfigFactor
  import opened Options
  import opened KconfigOperands
  import opened KconfigTransform

  predicate Shrinks(c: Conn, xs: seq<Expr>, ys: seq<Expr>) {
    |ys| == |xs| && Total(ys) <= Total(xs) && Loose(c, ys)
  }

  // ---- first pass: join pairs of operands ---------------------------------------------------

  /** expr_eliminate_dups1(type, &e, &e) on a tree of that type. */
  function Dups1(c: Conn, e: Expr): (r: (Expr, nat))
    requires IsNode(c, e)
    ensures IsNode(c, r.0) && Size(r.0) <= Size(e)
    decreases Total(Operands(c, e)), Width(c, e) + 1
  {
    OperandsSize(c, e);
    var (xs, n) := Rows1(c, Operands(c, e), 0);
    RefillSize(c, e, xs);
    (Refill(c, e, xs), n)
  }

  function Rows1(c: Conn, xs: seq<Expr>, i: nat): (r: (seq<Expr>, nat))
    requires i <= |xs| && Loose(c, xs)
    ensures Shrinks(c, xs, r.0)
    decreases Total(xs), |xs| - i, |xs| + 1
  {
    if i == |xs| then (xs, 0)
    else
      var (ys, n) := Row1(c, xs, i, 0);
      var (zs, m) := Rows1(c, ys, i + 1);
      (zs, n + m)
  }

  /** The first pointer rests on operand `i` while the second one visits operands `j`, `j+1`, ... */
  function Row1(c: Conn, xs: seq<Expr>, i: nat, j: nat): (r: (seq<Expr>, nat))
    requires i < |xs| && j <= |xs| && Loose(c, xs)
    ensures Shrinks(c, xs, r.0)
    decreases Total(xs), |xs| - i, |xs| - j
  {
    if j == |xs| then (xs, 0)
    else if j == i then Row1(c, xs, i, j + 1)
    else
      var (ys, n) := Pair1(c, xs, i, j);
      var (zs, m) := Row1(c, ys, i, j + 1);
      (zs, n + m)
  }

  function Pair1(c: Conn, xs: seq<Expr>, i: nat, j: nat): (r: (seq<Expr>, nat))
    requires i < |xs| && j < |xs| && i != j && Loose(c, xs)
    ensures Shrinks(c, xs, r.0)
    decreases Total(xs), |xs| - i, |xs| - j, 0
  {
    OperandsSize(Flip(c), xs[i]);
    TotalUpdate(xs, i, xs[i]);
    var (x, n) := if IsNode(Flip(c), xs[i]) then Dups1(Flip(c), xs[i]) else (xs[i], 0);
    TotalUpdate(xs, i, x);
    TotalUpdate(xs, i, Unit(c));
    match Join(c, x, xs[j])
    case Some(t) =>
      TotalUpdate(xs[i := Unit(c)], j, t);
      (xs[i := Unit(c)][j := t], n + 1)
    case None => (xs[i := x], n)
  }

  /** Joining pairs keeps the value under every tristate valuation. */
  lemma {:induction false} Dups1Value(c: Conn, e: Expr, v: Valuation)
    requires IsNode(c, e) && Legal(v)
    ensures Value(Dups1(c, e).0, v) == Value(e, v)
    decreases Total(Operands(c, e)), Width(c, e) + 1
  {
    var xs := Rows1(c, Operands(c, e), 0).0;
    Rows1Value(c, Operands(c, e), 0, v);
    RefillValue(c, e, xs, v);
    OperandsValue(c, e, v);
  }

  lemma {:induction false} Rows1Value(c: Conn, xs: seq<Expr>, i: nat, v: Valuation)
    requires i <= |xs| && Loose(c, xs) && Legal(v)
    ensures All(c, Rows1(c, xs, i).0, v) == All(c, xs, v)
    decreases Total(xs), |xs| - i, |xs| + 1
  {
    if i < |xs| {
      Row1Value(c, xs, i, 0, v);
      Rows1Value(c, Row1(c, xs, i, 0).0, i + 1, v);
    }
  }

  lemma {:induction false} Row1Value(c: Conn, xs: seq<Expr>, i: nat, j: nat, v: Valuation)
    requires i < |xs| && j <= |xs| && Loose(c, xs) && Legal(v)
    ensures All(c, Row1(c, xs, i, j).0, v) == All(c, xs, v)
    decreases Total(xs), |xs| - i, |xs| - j
  {
    if j < |xs| {
      if j == i {
        Row1Value(c, xs, i, j + 1, v);
      } else {
        Pair1Value(c, xs, i, j, v);
        Row1Value(c, Pair1(c, xs, i, j).0, i, j + 1, v);
      }
    }
  }

  lemma {:induction false} Pair1Value(c: Conn, xs: seq<Expr>, i: nat, j: nat, v: Valuation)
    requires i < |xs| && j < |xs| && i != j && Loose(c, xs) && Legal(v)
    ensures All(c, Pair1(c, xs, i, j).0, v) == All(c, xs, v)
    decreases Total(xs), |xs| - i, |xs| - j, 0
  {
    OperandsSize(Flip(c), xs[i]);
    TotalUpdate(xs, i, xs[i]);
    var x := if IsNode(Flip(c), xs[i]) then Dups1(Flip(c), xs[i]).0 else xs[i];
    if IsNode(Flip(c), xs[i]) {
      Dups1Value(Flip(c), xs[i], v);
    }
    assert Value(x, v) == Value(xs[i], v);
    if Join(c, x, xs[j]).Some? {
      JoinValue(c, x, xs[j], v);
      AllReplaceTwo(c, xs, i, j, Unit(c), Join(c, x, xs[j]).value, v);
    } else {
      AllReplace(c, xs, i, x, v);
      AllSplit(c, xs, i, v);
    }
  }

  /** A rewrite leaves a constant operand behind, nothing removes one, and without a rewrite the
      operands stay as they are. */
  ghost predicate Marks(xs: seq<Expr>, ys: seq<Expr>, n: nat) {
    && (n > 0 || AnyYn(xs) ==> AnyYn(ys))
    && (n == 0 ==> ys == xs)
  }

  ghost predicate MarksTree(e: Expr, e': Expr, n: nat) {
    && (n > 0 || HasYn(e) ==> HasYn(e'))
    && (n == 0 ==> e' == e)
  }

  lemma MarksRefill(c: Conn, e: Expr, ys: seq<Expr>, n: nat)
    requires IsNode(c, e) && |ys| == Width(c, e) && Marks(Operands(c, e), ys, n)
    ensures MarksTree(e, Refill(c, e, ys), n)
  {
    RefillSame(c, e);
    if HasYn(e) {
      OperandsYn(c, e);
    }
    if AnyYn(ys) {
      RefillYn(c, e, ys);
    }
  }

  lemma MarksUpdate(xs: seq<Expr>, i: nat, x: Expr, n: nat)
    requires i < |xs| && MarksTree(xs[i], x, n) && (IsYn(xs[i]) ==> n == 0)
    ensures Marks(xs, xs[i := x], n)
  {
    var ys := xs[i := x];
    if n > 0 {
      assert HasYn(ys[i]);
    } else {
      assert ys == xs;
    }
  }

  lemma {:induction false} Dups1Marks(c: Conn, e: Expr)
    requires IsNode(c, e)
    ensures MarksTree(e, Dups1(c, e).0, Dups1(c, e).1)
    decreases Total(Operands(c, e)), Width(c, e) + 1
  {
    var (xs, n) := Rows1(c, Operands(c, e), 0);
    Rows1Marks(c, Operands(c, e), 0);
    MarksRefill(c, e, xs, n);
  }

  lemma {:induction false} Rows1Marks(c: Conn, xs: seq<Expr>, i: nat)
    requires i <= |xs| && Loose(c, xs)
    ensures Marks(xs, Rows1(c, xs, i).0, Rows1(c, xs, i).1)
    decreases Total(xs), |xs| - i, |xs| + 1
  {
    if i < |xs| {
      Row1Marks(c, xs, i, 0);
      Rows1Marks(c, Row1(c, xs, i, 0).0, i + 1);
    }
  }

  lemma {:induction false} Row1Marks(c: Conn, xs: seq<Expr>, i: nat, j: nat)
    requires i < |xs| && j <= |xs| && Loose(c, xs)
    ensures Marks(xs, Row1(c, xs, i, j).0, Row1(c, xs, i, j).1)
    decreases Total(xs), |xs| - i, |xs| - j
  {
    if j < |xs| {
      if j == i {
        Row1Marks(c, xs, i, j + 1);
      } else {
        Pair1Marks(c, xs, i, j);
        Row1Marks(c, Pair1(c, xs, i, j).0, i, j + 1);
      }
    }
  }

  lemma {:induction false} Pair1Marks(c: Conn, xs: seq<Expr>, i: nat, j: nat)
    requires i < |xs| && j < |xs| && i != j && Loose(c, xs)
    ensures Marks(xs, Pair1(c, xs, i, j).0, Pair1(c, xs, i, j).1)
    decreases Total(xs), |xs| - i, |xs| - j, 0
  {
    OperandsSize(Flip(c), xs[i]);
    TotalUpdate(xs, i, xs[i]);
    var (x, n) := if IsNode(Flip(c), xs[i]) then Dups1(Flip(c), xs[i]) else (xs[i], 0);
    if IsNode(Flip(c), xs[i]) {
      Dups1Marks(Flip(c), xs[i]);
    }
    if Join(c, x, xs[j]).Some? {
      assert IsYn(Pair1(c, xs, i, j).0[i]);
    } else {
      MarksUpdate(xs, i, x, n);
    }
  }

  // ---- second pass: contradictions and tautologies ------------------------------------------

  /** expr_eliminate_dups2(type, &e, &e) on a tree of that type. */
  function Dups2(c: Conn, e: Expr): (r: (Expr, nat))
    requires IsNode(c, e)
    ensures IsNode(c, r.0) && Size(r.0) <= Size(e)
    decreases Total(Operands(c, e)), Width(c, e) + 1
  {
    OperandsSize(c, e);
    var (xs, n) := Rows2(c, e, Operands(c, e), 0);
    RefillSize(c, e, xs);
    (Refill(c, e, xs), n)
  }

  function Rows2(c: Conn, e: Expr, xs: seq<Expr>, i: nat): (r: (seq<Expr>, nat))
    requires |xs| == Width(c, e) && i <= |xs| && Loose(c, xs)
    ensures Shrinks(c, xs, r.0)
    decreases Total(xs), |xs| - i, Size(e) + 1
  {
    if i == |xs| then (xs, 0)
    else
      var (ys, n) := Row2(c, e, 0, xs, i);
      var (zs, m) := Rows2(c, e, ys, i + 1);
      (zs, n + m)
  }

  /** The second pointer visits the subtree whose spine is `sub` and whose first operand is `lo`:
      first its parts and then, because the source does not return there, the subtree itself. */
  function Row2(c: Conn, sub: Expr, lo: nat, xs: seq<Expr>, i: nat): (r: (seq<Expr>, nat))
    requires lo + Width(c, sub) <= |xs| && i < |xs| && Loose(c, xs)
    ensures Shrinks(c, xs, r.0)
    decreases Total(xs), |xs| - i, Size(sub)
  {
    if IsNode(c, sub) then
      var (ys, n) := Row2(c, sub.l, lo, xs, i);
      var (zs, m) := Row2(c, sub.r, lo + Width(c, sub.l), ys, i);
      var (ws, k) := Visit2(c, sub, lo, zs, i);
      (ws, n + m + k)
    else if lo == i then (xs, 0)
    else Visit2(c, sub, lo, xs, i)
  }

  /** Operand `i` is refuted by the subtree when its negation consists of parts of the subtree:
      (FOO || BAR) && !FOO && !BAR.  It then becomes the absorbing constant. */
  function Visit2(c: Conn, sub: Expr, lo: nat, xs: seq<Expr>, i: nat): (r: (seq<Expr>, nat))
    requires lo + Width(c, sub) <= |xs| && i < |xs| && Loose(c, xs)
    ensures Shrinks(c, xs, r.0)
    decreases Total(xs), |xs| - i, Size(sub), 0
  {
    if !IsNode(Flip(c), xs[i]) then (xs, 0)
    else
      OperandsSize(Flip(c), xs[i]);
      TotalUpdate(xs, i, xs[i]);
      var (x, n) := Dups2(Flip(c), xs[i]);
      TotalUpdate(xs, i, x);
      TotalUpdate(xs, i, Absorber(c));
      if Refuted(c, sub, lo, xs[i := x], i) then (xs[i := Absorber(c)], n + 1) else (xs[i := x], n)
  }

  predicate Refuted(c: Conn, sub: Expr, lo: nat, xs: seq<Expr>, i: nat)
    requires lo + Width(c, sub) <= |xs| && i < |xs|
  {
    FactorOut(c, Transform(Not(xs[i])), Refill(c, sub, xs[lo..lo + Width(c, sub)])).1 == Unit(c)
  }

  lemma ApplyInfo(c: Conn, a: Tri, a': Tri, b: Tri)
    requires InfoLe(a, a')
    ensures InfoLe(Apply(c, a, b), Apply(c, a', b))
  {
  }

  /** An operand that its own surroundings refute: the whole is settled or `mod`. */
  lemma RefutedCollapses(c: Conn, whole: Tri, x: Tri, part: Tri, rest: Tri, common: Tri)
    requires Apply(c, whole, x) == whole && Apply(c, whole, part) == whole
    requires Neg(x) == common && part == Apply(c, common, rest)
    ensures whole == M || whole == if c.AndC? then N else Y
    ensures whole == M <==> (x == M && whole == x)
  {
  }

  lemma AllOne(c: Conn, x: Expr, v: Valuation)
    ensures All(c, [x], v) == Value(x, v)
  {
    assert [x][1..] == [];
  }

  lemma RefutedValue(c: Conn, sub: Expr, lo: nat, xs: seq<Expr>, i: nat, v: Valuation)
    requires lo + Width(c, sub) <= |xs| && i < |xs| && Legal(v)
    requires Refuted(c, sub, lo, xs, i)
    ensures All(c, xs[i := Absorber(c)], v) == Value(Absorber(c), v)
    ensures All(c, xs, v) != M <==> All(c, xs, v) == Value(Absorber(c), v)
  {
    hide All, FactorOut, Transform, Refill;
    var hi := lo + Width(c, sub);
    var part := Refill(c, sub, xs[lo..hi]);
    var neg := Transform(Not(xs[i]));
    var (k, a, b) := FactorOut(c, neg, part);
    TransformValue(Not(xs[i]), v);
    FactorOutValue(c, neg, part, v);
    RefillValue(c, sub, xs[lo..hi], v);
    AllAbsorbs(c, xs, lo, hi, v);
    AllAbsorbs(c, xs, i, i + 1, v);
    assert xs[i..i + 1] == [xs[i]];
    AllOne(c, xs[i], v);
    AllReplace(c, xs, i, Absorber(c), v);
    RefutedCollapses(c, All(c, xs, v), Value(xs[i], v), Value(part, v), Value(b, v), CommonValue(c, k, v));
  }

  /** The second pass only sharpens values: `mod` may become `yes` or `no`, nothing else changes. */
  lemma {:induction false} Dups2Info(c: Conn, e: Expr, v: Valuation)
    requires IsNode(c, e) && Legal(v)
    ensures InfoLe(Value(e, v), Value(Dups2(c, e).0, v))
    decreases Total(Operands(c, e)), Width(c, e) + 1
  {
    var xs := Rows2(c, e, Operands(c, e), 0).0;
    Rows2Info(c, e, Operands(c, e), 0, v);
    RefillValue(c, e, xs, v);
    OperandsValue(c, e, v);
  }

  lemma {:induction false} Rows2Info(c: Conn, e: Expr, xs: seq<Expr>, i: nat, v: Valuation)
    requires |xs| == Width(c, e) && i <= |xs| && Loose(c, xs) && Legal(v)
    ensures InfoLe(All(c, xs, v), All(c, Rows2(c, e, xs, i).0, v))
    decreases Total(xs), |xs| - i, Size(e) + 1
  {
    if i < |xs| {
      Row2Info(c, e, 0, xs, i, v);
      Rows2Info(c, e, Row2(c, e, 0, xs, i).0, i + 1, v);
    }
  }

  lemma {:induction false} Row2Info(c: Conn, sub: Expr, lo: nat, xs: seq<Expr>, i: nat, v: Valuation)
    requires lo + Width(c, sub) <= |xs| && i < |xs| && Loose(c, xs) && Legal(v)
    ensures InfoLe(All(c, xs, v), All(c, Row2(c, sub, lo, xs, i).0, v))
    decreases Total(xs), |xs| - i, Size(sub)
  {
    if IsNode(c, sub) {
      var ys := Row2(c, sub.l, lo, xs, i).0;
      var zs := Row2(c, sub.r, lo + Width(c, sub.l), ys, i).0;
      Row2Info(c, sub.l, lo, xs, i, v);
      Row2Info(c, sub.r, lo + Width(c, sub.l), ys, i, v);
      Visit2Info(c, sub, lo, zs, i, v);
    } else if lo != i {
      Visit2Info(c, sub, lo, xs, i, v);
    }
  }

  lemma {:induction false} Visit2Info(c: Conn, sub: Expr, lo: nat, xs: seq<Expr>, i: nat, v: Valuation)
    requires lo + Width(c, sub) <= |xs| && i < |xs| && Loose(c, xs) && Legal(v)
    ensures InfoLe(All(c, xs, v), All(c, Visit2(c, sub, lo, xs, i).0, v))
    decreases Total(xs), |xs| - i, Size(sub), 0
  {
    if IsNode(Flip(c), xs[i]) {
      OperandsSize(Flip(c), xs[i]);
      TotalUpdate(xs, i, xs[i]);
      var x := Dups2(Flip(c), xs[i]).0;
      Dups2Info(Flip(c), xs[i], v);
      AllSplit(c, xs, i, v);
      AllReplace(c, xs, i, x, v);
      ApplyInfo(c, Value(xs[i], v), Value(x, v), All(c, Without(xs, i), v));
      if Refuted(c, sub, lo, xs[i := x], i) {
        RefutedValue(c, sub, lo, xs[i := x], i, v);
        assert xs[i := x][i := Absorber(c)] == xs[i := Absorber(c)];
      }
    }
  }

  lemma {:induction false} Dups2Marks(c: Conn, e: Expr)
    requires IsNode(c, e)
    ensures MarksTree(e, Dups2(c, e).0, Dups2(c, e).1)
    decreases Total(Operands(c, e)), Width(c, e) + 1
  {
    var (xs, n) := Rows2(c, e, Operands(c, e), 0);
    Rows2Marks(c, e, Operands(c, e), 0);
    MarksRefill(c, e, xs, n);
  }

  lemma {:induction false} Rows2Marks(c: Conn, e: Expr, xs: seq<Expr>, i: nat)
    requires |xs| == Width(c, e) && i <= |xs| && Loose(c, xs)
    ensures Marks(xs, Rows2(c, e, xs, i).0, Rows2(c, e, xs, i).1)
    decreases Total(xs), |xs| - i, Size(e) + 1
  {
    if i < |xs| {
      Row2Marks(c, e, 0, xs, i);
      Rows2Marks(c, e, Row2(c, e, 0, xs, i).0, i + 1);
    }
  }

  lemma {:induction false} Row2Marks(c: Conn, sub: Expr, lo: nat, xs: seq<Expr>, i: nat)
    requires lo + Width(c, sub) <= |xs| && i < |xs| && Loose(c, xs)
    ensures Marks(xs, Row2(c, sub, lo, xs, i).0, Row2(c, sub, lo, xs, i).1)
    decreases Total(xs), |xs| - i, Size(sub)
  {
    if IsNode(c, sub) {
      var ys := Row2(c, sub.l, lo, xs, i).0;
      var zs := Row2(c, sub.r, lo + Width(c, sub.l), ys, i).0;
      Row2Marks(c, sub.l, lo, xs, i);
      Row2Marks(c, sub.r, lo + Width(c, sub.l), ys, i);
      Visit2Marks(c, sub, lo, zs, i);
    } else if lo != i {
      Visit2Marks(c, sub, lo, xs, i);
    }
  }

  lemma {:induction false} Visit2Marks(c: Conn, sub: Expr, lo: nat, xs: seq<Expr>, i: nat)
    requires lo + Width(c, sub) <= |xs| && i < |xs| && Loose(c, xs)
    ensures Marks(xs, Visit2(c, sub, lo, xs, i).0, Visit2(c, sub, lo, xs, i).1)
    decreases Total(xs), |xs| - i, Size(sub), 0
  {
    if IsNode(Flip(c), xs[i]) {
      OperandsSize(Flip(c), xs[i]);
      TotalUpdate(xs, i, xs[i]);
      var (x, n) := Dups2(Flip(c), xs[i]);
      Dups2Marks(Flip(c), xs[i]);
      if Refuted(c, sub, lo, xs[i := x], i) {
        assert IsYn(Visit2(c, sub, lo, xs, i).0[i]);
      } else {
        MarksUpdate(xs, i, x, n);
      }
    }
  }

  // ---- the fixpoint loop --------------------------------------------------------------------

  /** One turn of the loop in expr_eliminate_dups, before expr_eliminate_yn. */
  function Round(e: Expr): (r: (Expr, nat))
    ensures Size(r.0) <= Size(e)
  {
    if !e.And? && !e.Or? then (e, 0)
    else
      var c := if e.And? then AndC else OrC;
      var (e1, n) := Dups1(c, e);
      var (e2, m) := Dups2(c, e1);
      (e2, n + m)
  }

  /** A counted turn leaves a constant operand; an uncounted one leaves the tree untouched. */
  lemma RoundMarks(e: Expr)
    ensures MarksTree(e, Round(e).0, Round(e).1)
  {
    if e.And? || e.Or? {
      var c := if e.And? then AndC else OrC;
      Dups1Marks(c, e);
      Dups2Marks(c, Dups1(c, e).0);
    }
  }

  lemma RoundInfo(e: Expr, v: Valuation)
    requires Legal(v)
    ensures InfoLe(Value(e, v), Value(Round(e).0, v))
  {
    if e.And? || e.Or? {
      var c := if e.And? then AndC else OrC;
      Dups1Value(c, e, v);
      Dups2Info(c, Dups1(c, e).0, v);
    }
  }

  /** The loop as a function; a counted turn followed by expr_eliminate_yn has fewer nodes. */
  function Eliminated(e: Expr): (r: Expr)
    ensures Size(r) <= Size(e)
    decreases Size(e)
  {
    var (e', n) := Round(e);
    if n == 0 then e'
    else
      RoundMarks(e);
      EliminateYnShape(e');
      Eliminated(EliminateYn(e'))
  }

  /** expr_eliminate_dups */
  method EliminateDups(e: Expr) returns (r: Expr)
    ensures r == Eliminated(e)
    ensures Round(r) == (r, 0)
    ensures Size(r) <= Size(e)
    ensures r != e ==> Size(r) < Size(e) && !HasYn(r)
    ensures forall v | Legal(v) :: InfoLe(Value(e, v), Value(r, v))
  {
    r := e;
    var transCount := 1;
    while transCount != 0
      invariant Eliminated(e) == Eliminated(r)
      invariant transCount == 0 ==> Round(r) == (r, 0) && Eliminated(r) == r
      invariant Size(r) <= Size(e)
      invariant r != e ==> Size(r) < Size(e) && !HasYn(r)
      invariant forall v | Legal(v) :: InfoLe(Value(e, v), Value(r, v))
      decreases Size(r), transCount
    {
      var (e', n) := Round(r);
      RoundMarks(r);
      EliminateYnShape(e');
      forall v | Legal(v)
        ensures InfoLe(Value(r, v), Value(e', v)) && Value(EliminateYn(e'), v) == Value(e', v)
      {
        RoundInfo(r, v);
        EliminateYnValue(e', v);
      }
      transCount := n;
      r := if n == 0 then e' else EliminateYn(e');
    }
  }

  /** Whatever has a settled value keeps it, in particular every expression over symbols and
      constants none of which is at `mod`. */
  lemma {:induction false} EliminatedInfo(e: Expr, v: Valuation)
    requires Legal(v)
    ensures InfoLe(Value(e, v), Value(Eliminated(e), v))
    decreases Size(e)
  {
    var (e', n) := Round(e);
    RoundInfo(e, v);
    if n > 0 {
      RoundMarks(e);
      EliminateYnShape(e');
      EliminateYnValue(e', v);
      EliminatedInfo(EliminateYn(e'), v);
    }
  }

  ghost predicate NoMod(e: Expr, v: Valuation) {
    match e
    case Sym(s) => v.tri(s) != M
    case Not(x) => NoMod(x, v)
    case And(l, r) => NoMod(l, v) && NoMod(r, v)
    case Or(l, r) => NoMod(l, v) && NoMod(r, v)
    case _ => true
  }

  lemma {:induction false} NoModSettled(e: Expr, v: Valuation)
    requires NoMod(e, v)
    ensures Value(e, v) != M
  {
    match e
    case Not(x) => NoModSettled(x, v);
    case And(l, r) =>
      NoModSettled(l, v);
      NoModSettled(r, v);
    case Or(l, r) =>
      NoModSettled(l, v);
      NoModSettled(r, v);
    case _ =>
  }

  lemma EliminatedTwoValued(e: Expr, v: Valuation)
    requires Legal(v) && NoMod(e, v)
    ensures Value(Eliminated(e), v) == Value(e, v)
  {
    NoModSettled(e, v);
    EliminatedInfo(e, v);
  }

  /** A second run changes nothing. */
  lemma {:induction false} EliminatedIdempotent(e: Expr)
    ensures Eliminated(Eliminated(e)) == Eliminated(e)
    decreases Size(e)
  {
    var (e', n) := Round(e);
    RoundMarks(e);
    EliminateYnShape(e');
    if n > 0 {
      EliminatedIdempotent(EliminateYn(e'));
    }
  }
}
