/** The operands of a connective.  The duplicate eliminator walks one tree with two pointers, so
    its reads and writes alias; positions in the operand list name the places it touches, and
    the spine of connectives above the operands never changes. */
module KconfigOperands {
  import opened KconfigExpr

  function Flip(c: Conn): Conn {
    if c.AndC? then OrC else AndC
  }

  /** The absorbing constant of a connective: `n` for &&, `y` for ||. */
  function Absorber(c: Conn): Expr {
    Unit(Flip(c))
  }

  function Operands(c: Conn, e: Expr): (xs: seq<Expr>)
    ensures |xs| > 0
    ensures IsNode(c, e) ==> |xs| > 1
    ensures forall x | x in xs :: !IsNode(c, x)
  {
    if IsNode(c, e) then Operands(c, e.l) + Operands(c, e.r) else [e]
  }

  function Width(c: Conn, e: Expr): nat {
    |Operands(c, e)|
  }

  /** The tree with the spine of `e` and the operands `xs`. */
  function Refill(c: Conn, e: Expr, xs: seq<Expr>): (r: Expr)
    requires |xs| == Width(c, e)
    ensures IsNode(c, e) ==> IsNode(c, r)
  {
    if IsNode(c, e) then
      var w := Width(c, e.l);
      Node(c, Refill(c, e.l, xs[..w]), Refill(c, e.r, xs[w..]))
    else xs[0]
  }

  predicate Loose(c: Conn, xs: seq<Expr>) {
    forall k | 0 <= k < |xs| :: !IsNode(c, xs[k])
  }

  lemma {:induction false} RefillSame(c: Conn, e: Expr)
    ensures Refill(c, e, Operands(c, e)) == e
  {
    if IsNode(c, e) {
      var xs, w := Operands(c, e), Width(c, e.l);
      assert xs[..w] == Operands(c, e.l) && xs[w..] == Operands(c, e.r);
      RefillSame(c, e.l);
      RefillSame(c, e.r);
    }
  }

  // ---- size ---------------------------------------------------------------------------------

  function Total(xs: seq<Expr>): nat {
    if xs == [] then 0 else Size(xs[0]) + Total(xs[1..])
  }

  lemma {:induction false} TotalAppend(xs: seq<Expr>, ys: seq<Expr>)
    ensures Total(xs + ys) == Total(xs) + Total(ys)
  {
    if xs == [] {
      assert xs + ys == ys;
    } else {
      assert (xs + ys)[1..] == xs[1..] + ys;
      TotalAppend(xs[1..], ys);
    }
  }

  lemma {:induction false} TotalUpdate(xs: seq<Expr>, i: nat, x: Expr)
    requires i < |xs|
    ensures Total(xs[i := x]) == Total(xs) - Size(xs[i]) + Size(x)
    ensures Size(xs[i]) <= Total(xs)
  {
    if i > 0 {
      assert xs[i := x][1..] == xs[1..][i - 1 := x];
      TotalUpdate(xs[1..], i - 1, x);
    }
  }

  lemma {:induction false} RefillSize(c: Conn, e: Expr, xs: seq<Expr>)
    requires |xs| == Width(c, e)
    ensures Size(Refill(c, e, xs)) == Total(xs) + |xs| - 1
  {
    if IsNode(c, e) {
      var w := Width(c, e.l);
      RefillSize(c, e.l, xs[..w]);
      RefillSize(c, e.r, xs[w..]);
      assert xs == xs[..w] + xs[w..];
      TotalAppend(xs[..w], xs[w..]);
    }
  }

  lemma OperandsSize(c: Conn, e: Expr)
    ensures Size(e) == Total(Operands(c, e)) + Width(c, e) - 1
  {
    RefillSame(c, e);
    RefillSize(c, e, Operands(c, e));
  }

  // ---- constants ----------------------------------------------------------------------------

  /** Some operand is, or contains, a constant operand that expr_eliminate_yn removes. */
  predicate AnyYn(xs: seq<Expr>) {
    exists k | 0 <= k < |xs| :: IsYn(xs[k]) || HasYn(xs[k])
  }

  lemma {:induction false} RefillYn(c: Conn, e: Expr, xs: seq<Expr>)
    requires |xs| == Width(c, e) && AnyYn(xs)
    ensures HasYn(Refill(c, e, xs)) || (|xs| == 1 && IsYn(Refill(c, e, xs)))
  {
    if IsNode(c, e) {
      var w := Width(c, e.l);
      var k :| 0 <= k < |xs| && (IsYn(xs[k]) || HasYn(xs[k]));
      if k < w {
        assert xs[..w][k] == xs[k];
        RefillYn(c, e.l, xs[..w]);
      } else {
        assert xs[w..][k - w] == xs[k];
        RefillYn(c, e.r, xs[w..]);
      }
    }
  }

  lemma {:induction false} OperandsYn(c: Conn, e: Expr)
    requires HasYn(e)
    ensures AnyYn(Operands(c, e))
  {
    if IsNode(c, e) {
      var ls, rs := Operands(c, e.l), Operands(c, e.r);
      var xs := Operands(c, e);
      assert xs == ls + rs;
      if IsYn(e.l) || HasYn(e.l) {
        if IsYn(e.l) {
          assert AnyYn(ls) by { assert ls[0] == e.l; }
        } else {
          OperandsYn(c, e.l);
        }
        var k :| 0 <= k < |ls| && (IsYn(ls[k]) || HasYn(ls[k]));
        assert xs[k] == ls[k];
      } else {
        if IsYn(e.r) {
          assert AnyYn(rs) by { assert rs[0] == e.r; }
        } else {
          OperandsYn(c, e.r);
        }
        var k :| 0 <= k < |rs| && (IsYn(rs[k]) || HasYn(rs[k]));
        assert xs[|ls| + k] == rs[k];
      }
    } else {
      assert Operands(c, e)[0] == e;
    }
  }

  // ---- value --------------------------------------------------------------------------------

  /** The connective over a list of operands. */
  function All(c: Conn, xs: seq<Expr>, v: Valuation): Tri {
    if xs == [] then (if c.AndC? then Y else N) else Apply(c, Value(xs[0], v), All(c, xs[1..], v))
  }

  lemma {:induction false} AllAppend(c: Conn, xs: seq<Expr>, ys: seq<Expr>, v: Valuation)
    ensures All(c, xs + ys, v) == Apply(c, All(c, xs, v), All(c, ys, v))
  {
    if xs == [] {
      assert xs + ys == ys;
    } else {
      assert (xs + ys)[1..] == xs[1..] + ys;
      AllAppend(c, xs[1..], ys, v);
      ApplyAssoc(c, Value(xs[0], v), All(c, xs[1..], v), All(c, ys, v));
    }
  }

  lemma ApplyAssoc(c: Conn, x: Tri, y: Tri, z: Tri)
    ensures Apply(c, x, Apply(c, y, z)) == Apply(c, Apply(c, x, y), z)
  {
  }

  lemma {:induction false} RefillValue(c: Conn, e: Expr, xs: seq<Expr>, v: Valuation)
    requires |xs| == Width(c, e)
    ensures Value(Refill(c, e, xs), v) == All(c, xs, v)
  {
    if IsNode(c, e) {
      var w := Width(c, e.l);
      RefillValue(c, e.l, xs[..w], v);
      RefillValue(c, e.r, xs[w..], v);
      assert xs == xs[..w] + xs[w..];
      AllAppend(c, xs[..w], xs[w..], v);
    } else {
      assert xs[1..] == [];
    }
  }

  lemma OperandsValue(c: Conn, e: Expr, v: Valuation)
    ensures Value(e, v) == All(c, Operands(c, e), v)
  {
    RefillSame(c, e);
    RefillValue(c, e, Operands(c, e), v);
  }

  function Without(xs: seq<Expr>, i: nat): seq<Expr>
    requires i < |xs|
  {
    xs[..i] + xs[i + 1..]
  }

  lemma ApplyMiddle(c: Conn, x: Tri, y: Tri, z: Tri)
    ensures Apply(c, x, Apply(c, y, z)) == Apply(c, y, Apply(c, x, z))
  {
  }

  /** Any operand can be taken first. */
  lemma AllSplit(c: Conn, xs: seq<Expr>, i: nat, v: Valuation)
    requires i < |xs|
    ensures All(c, xs, v) == Apply(c, Value(xs[i], v), All(c, Without(xs, i), v))
  {
    assert xs == xs[..i] + xs[i..] && xs[i..][1..] == xs[i + 1..];
    AllAppend(c, xs[..i], xs[i..], v);
    AllAppend(c, xs[..i], xs[i + 1..], v);
    ApplyMiddle(c, All(c, xs[..i], v), Value(xs[i], v), All(c, xs[i + 1..], v));
  }

  lemma AllReplace(c: Conn, xs: seq<Expr>, i: nat, x: Expr, v: Valuation)
    requires i < |xs|
    ensures All(c, xs[i := x], v) == Apply(c, Value(x, v), All(c, Without(xs, i), v))
  {
    assert Without(xs[i := x], i) == Without(xs, i);
    AllSplit(c, xs[i := x], i, v);
  }

  lemma WithoutOther(xs: seq<Expr>, i: nat, j: nat, x: Expr, y: Expr)
    requires i < |xs| && j < |xs| && i != j
    ensures var k := if j < i then j else j - 1;
            && k < |Without(xs, i)| && Without(xs, i)[k] == xs[j]
            && Without(xs[i := x][j := y], i) == Without(xs, i)[k := y]
  {
  }

  /** Replacing two operands keeps the value if their combination does. */
  lemma AllReplaceTwo(c: Conn, xs: seq<Expr>, i: nat, j: nat, x: Expr, y: Expr, v: Valuation)
    requires i < |xs| && j < |xs| && i != j
    requires Apply(c, Value(x, v), Value(y, v)) == Apply(c, Value(xs[i], v), Value(xs[j], v))
    ensures All(c, xs[i := x][j := y], v) == All(c, xs, v)
  {
    hide All, Apply, Value;
    var ys := xs[i := x][j := y];
    var k := if j < i then j else j - 1;
    var rest := Without(xs, i);
    WithoutOther(xs, i, j, x, y);
    AllSplit(c, xs, i, v);
    AllSplit(c, ys, i, v);
    AllSplit(c, rest, k, v);
    AllReplace(c, rest, k, y, v);
    ExchangeTwo(c, Value(xs[i], v), Value(xs[j], v), Value(x, v), Value(y, v), All(c, Without(rest, k), v));
  }

  lemma ExchangeTwo(c: Conn, a: Tri, b: Tri, a': Tri, b': Tri, z: Tri)
    requires Apply(c, a', b') == Apply(c, a, b)
    ensures Apply(c, a', Apply(c, b', z)) == Apply(c, a, Apply(c, b, z))
  {
    ApplyAssoc(c, a, b, z);
    ApplyAssoc(c, a', b', z);
  }

  /** Combining the whole with one of its parts adds nothing. */
  lemma AllAbsorbs(c: Conn, xs: seq<Expr>, lo: nat, hi: nat, v: Valuation)
    requires lo <= hi <= |xs|
    ensures Apply(c, All(c, xs, v), All(c, xs[lo..hi], v)) == All(c, xs, v)
  {
    assert xs == xs[..lo] + (xs[lo..hi] + xs[hi..]);
    AllAppend(c, xs[..lo], xs[lo..hi] + xs[hi..], v);
    AllAppend(c, xs[lo..hi], xs[hi..], v);
  }
}
