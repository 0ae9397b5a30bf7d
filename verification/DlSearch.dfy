/** Best-fit search in one trie: the loops of tmalloc_large and tmalloc_small in
    common/malloc.c.  Sizes are 64-bit unsigned words, and a chunk that is too small shows as a
    remainder that wrapped around. */
module DlSearch {
  import opened DlBits
  import opened DlTrie
  import opened Options

  const WORD: nat := 0x1_0000_0000_0000_0000

  /** Unsigned subtraction. */
  function Sub(a: nat, b: nat): nat {
    (a - b) % 0x1_0000_0000_0000_0000
  }

  ghost predicate Words(sizes: set<nat>) {
    forall s | s in sizes :: 0 < s < WORD
  }

  /** `v` is a chunk from `all` that fits `nb` with remainder `rsize`, or nothing was found. */
  ghost predicate Held(all: set<Chunk>, nb: nat, v: Option<Chunk>, rsize: nat) {
    if v.None? then rsize == WORD - nb
    else v.value in all && v.value.size >= nb && rsize == v.value.size - nb
  }

  /** No size in `sizes` fits better than `rsize`, unless it is in `t` or above all of `t`. */
  ghost predicate NoneBetterBut(sizes: set<nat>, nb: nat, rsize: nat, t: Trie) {
    forall s | s in sizes && s >= nb ::
      s - nb >= rsize || s in Sizes(t) || (t.Node? && forall u | u in Sizes(t) :: u < s)
  }

  /** What the search needs to know of a trie: smaller sizes are on the left. */
  ghost predicate Ordered(t: Trie) {
    t.Node? ==>
      && t.ring != []
      && (forall s, u | s in Sizes(t.left) && u in Sizes(t.right) :: s < u)
      && Ordered(t.left) && Ordered(t.right)
  }

  /** At every step towards `nb`, the subtree that is not entered lies on its proper side. */
  ghost predicate Guides(t: Trie, k: nat, nb: nat) {
    t.Node? ==>
      if GoRight(nb, k) then (forall s | s in Sizes(t.left) :: s < nb) && Guides(t.right, Deeper(k), nb)
      else (forall s | s in Sizes(t.right) :: nb < s) && Guides(t.left, Deeper(k), nb)
  }

  lemma {:induction false} OkOrdered(t: Trie, k: nat, p: nat)
    requires Ok(t, k, p)
    ensures Ordered(t)
  {
    if t.Node? {
      OkOrder(t, k, p);
      if k > 0 {
        OkOrdered(t.left, k - 1, 2 * p);
        OkOrdered(t.right, k - 1, 2 * p + 1);
      }
    }
  }

  lemma {:induction false} OkGuides(t: Trie, k: nat, p: nat, nb: nat)
    requires Ok(t, k, p) && Top(nb, k) == p
    ensures Guides(t, k, nb)
  {
    if t.Node? {
      PathSides(t, k, p, nb);
      if k > 0 {
        BitExtendsPrefix(nb, k, p);
        if GoRight(nb, k) {
          OkGuides(t.right, k - 1, 2 * p + 1, nb);
        } else {
          OkGuides(t.left, k - 1, 2 * p, nb);
        }
      }
    }
  }

  /** Everything in `t` fits, or nothing better is to be found anyway. */
  ghost predicate AllFit(t: Trie, nb: nat, rsize: nat) {
    rsize == 0 || forall u | u in Sizes(t) :: u >= nb
  }

  /** Tests whether a chunk fits better than the best remainder so far. */
  method Remainder(s: nat, nb: nat, rsize: nat) returns (better: bool, trem: nat)
    requires 0 < s < WORD && 0 < nb < WORD && rsize <= WORD - nb
    ensures better <==> s >= nb && s - nb < rsize
    ensures better ==> trem == s - nb
  {
    trem := Sub(s, nb);
    better := trem < rsize;
  }

  lemma {:induction false} SubtreeEntries(t: Trie)
    requires t.Node? && t.ring != []
    ensures Chunk(t.ring[0], t.size) in Entries(t)
    ensures Entries(t.left) <= Entries(t) && Entries(t.right) <= Entries(t)
    ensures t.size in Sizes(t) && Sizes(t.left) <= Sizes(t) && Sizes(t.right) <= Sizes(t)
  {
    RingEntriesAre(t.ring, t.size);
  }

  /** The second loop: down the leftmost path, where the smallest size must be. */
  method LeastInSubtree(t0: Trie, nb: nat, v0: Option<Chunk>, rsize0: nat, ghost all: set<Chunk>, ghost sizes: set<nat>)
    returns (v: Option<Chunk>, rsize: nat)
    requires Ordered(t0) && Words(Sizes(t0)) && Entries(t0) <= all && 0 < nb < WORD && rsize0 <= WORD - nb
    requires Held(all, nb, v0, rsize0)
    requires NoneBetterBut(sizes, nb, rsize0, t0) && AllFit(t0, nb, rsize0)
    ensures Held(all, nb, v, rsize)
    ensures forall s | s in sizes && s >= nb :: s - nb >= rsize
    ensures rsize <= rsize0
  {
    v, rsize := v0, rsize0;
    var t := t0;
    while t.Node?
      invariant Ordered(t) && Words(Sizes(t)) && Entries(t) <= all && rsize <= rsize0
      invariant Held(all, nb, v, rsize)
      invariant NoneBetterBut(sizes, nb, rsize, t) && AllFit(t, nb, rsize)
      decreases t
    {
      SubtreeEntries(t);
      var better, trem := Remainder(t.size, nb, rsize);
      if better {
        rsize := trem;
        v := Some(Chunk(t.ring[0], t.size));
      }
      NextIsEnough(sizes, nb, rsize, t);
      t := if t.left.Node? then t.left else t.right;
    }
  }

  lemma NextIsEnough(sizes: set<nat>, nb: nat, rsize: nat, t: Trie)
    requires t.Node? && (t.size >= nb ==> t.size - nb >= rsize)
    requires forall s, u | s in Sizes(t.left) && u in Sizes(t.right) :: s < u
    requires NoneBetterBut(sizes, nb, rsize, t) && AllFit(t, nb, rsize)
    ensures NoneBetterBut(sizes, nb, rsize, if t.left.Node? then t.left else t.right)
  {
    var next := if t.left.Node? then t.left else t.right;
    assert Sizes(t) == {t.size} + Sizes(t.left) + Sizes(t.right);
    assert t.left.Leaf? ==> Sizes(t.left) == {};
    assert t.size in Sizes(t);
    forall s | s in sizes && s >= nb && s - nb < rsize && s !in Sizes(next)
      ensures next.Node? && forall u | u in Sizes(next) :: u < s
    {
    }
  }

  ghost predicate Below(a: Trie, b: Trie) {
    forall s, u | s in Sizes(a) && u in Sizes(b) :: s < u
  }

  ghost predicate AtLeast(t: Trie, nb: nat) {
    forall s | s in Sizes(t) :: s >= nb
  }

  /** A subtree the search may still look at. */
  ghost predicate Part(t: Trie, root: Trie) {
    Ordered(t) && Entries(t) <= Entries(root) && Words(Sizes(t))
  }

  /** The state of the first loop. */
  ghost predicate Descending(root: Trie, nb: nat, rsize: nat, cur: Trie, rst: Trie) {
    && Part(cur, root) && Part(rst, root) && AtLeast(rst, nb) && Below(cur, rst)
    && NoneBetterButTwo(Sizes(root), nb, rsize, cur, rst)
  }

  /** The first loop: towards `nb` in the trie of its own bin, remembering the last right subtree
      that was passed by.  Where the loop ends, the second one continues from `t`. */
  method DescendTo(root: Trie, k0: nat, nb: nat) returns (v: Option<Chunk>, rsize: nat, t: Trie)
    requires root.Node? && Ordered(root) && Guides(root, k0, nb) && Words(Sizes(root)) && 0 < nb < WORD
    ensures Held(Entries(root), nb, v, rsize) && rsize <= WORD - nb
    ensures Part(t, root) && NoneBetterBut(Sizes(root), nb, rsize, t) && AllFit(t, nb, rsize)
  {
    hide Descending, NoneBetterBut, NoneBetterButTwo, Guides, GoRight;
    v, rsize := None, WORD - nb;
    var cur, bits, rst := root, k0, Leaf;
    DescentStarts(root, nb);
    while true
      invariant cur.Node? && Descending(root, nb, rsize, cur, rst) && Guides(cur, bits, nb)
      invariant Held(Entries(root), nb, v, rsize) && rsize <= WORD - nb
      decreases cur
    {
      DescentAt(root, nb, rsize, cur, rst);
      var better, trem := Remainder(cur.size, nb, rsize);
      if better {
        NearerStill(root, nb, rsize, trem, cur, rst);
        v, rsize := Some(Chunk(cur.ring[0], cur.size)), trem;
        if rsize == 0 {
          t := cur;
          DescentAt(root, nb, rsize, cur, rst);
          return;
        }
      }
      DescentStep(root, nb, rsize, cur, rst, bits);
      var next;
      if GoRight(nb, bits) {
        next := cur.right;
      } else {
        next := cur.left;
        if cur.right.Node? {
          rst := cur.right;
        }
      }
      if next.Leaf? {
        t := rst;
        DescentEnds(root, nb, rsize, rst);
        return;
      }
      cur, bits := next, Deeper(bits);
    }
  }

  lemma DescentStarts(root: Trie, nb: nat)
    requires root.Node? && Ordered(root) && Words(Sizes(root)) && 0 < nb < WORD
    ensures Descending(root, nb, WORD - nb, root, Leaf)
  {
  }

  lemma DescentAt(root: Trie, nb: nat, rsize: nat, cur: Trie, rst: Trie)
    requires cur.Node? && Descending(root, nb, rsize, cur, rst)
    ensures cur.ring != [] && 0 < cur.size < WORD && Chunk(cur.ring[0], cur.size) in Entries(root)
    ensures rsize == 0 ==> Part(cur, root) && NoneBetterBut(Sizes(root), nb, rsize, cur)
  {
    hide NoneBetterButTwo, Below;
    SubtreeEntries(cur);
  }

  /** With a smaller remainder less can be better. */
  lemma NearerStill(root: Trie, nb: nat, rsize: nat, trem: nat, cur: Trie, rst: Trie)
    requires Descending(root, nb, rsize, cur, rst) && trem <= rsize
    ensures Descending(root, nb, trem, cur, rst)
  {
    hide Part, Below, AtLeast, Sizes;
  }

  lemma DescentStep(root: Trie, nb: nat, rsize: nat, cur: Trie, rst: Trie, bits: nat)
    requires cur.Node? && Descending(root, nb, rsize, cur, rst) && Guides(cur, bits, nb)
    requires cur.size >= nb ==> cur.size - nb >= rsize
    ensures GoRight(nb, bits) ==> Descending(root, nb, rsize, cur.right, rst) && Guides(cur.right, Deeper(bits), nb)
    ensures !GoRight(nb, bits) ==>
              && Descending(root, nb, rsize, cur.left, if cur.right.Node? then cur.right else rst)
              && Guides(cur.left, Deeper(bits), nb)
  {
    hide NoneBetterButTwo, GoRight, Words;
    SubtreeEntries(cur);
    PartsOf(cur, root);
    if GoRight(nb, bits) {
      PassRight(Sizes(root), nb, rsize, cur, rst);
    } else {
      PassLeft(Sizes(root), nb, rsize, cur, rst);
    }
  }

  lemma PartsOf(t: Trie, root: Trie)
    requires t.Node? && Part(t, root)
    ensures Part(t.left, root) && Part(t.right, root) && Below(t.left, t.right)
  {
    SubtreeEntries(t);
  }

  lemma DescentEnds(root: Trie, nb: nat, rsize: nat, rst: Trie)
    requires Descending(root, nb, rsize, Leaf, rst)
    ensures Part(rst, root) && NoneBetterBut(Sizes(root), nb, rsize, rst) && AllFit(rst, nb, rsize)
  {
    assert Sizes(Leaf) == {};
  }

  /** As above, with the subtree that is still being descended. */
  ghost predicate NoneBetterButTwo(sizes: set<nat>, nb: nat, rsize: nat, cur: Trie, rst: Trie) {
    forall s | s in sizes && s >= nb ::
      s - nb >= rsize || s in Sizes(cur) || s in Sizes(rst) || (rst.Node? && forall u | u in Sizes(rst) :: u < s)
  }

  lemma NoBits(t: Trie, p: nat)
    requires t.Node? && Ok(t, 0, p)
    ensures Sizes(t.left) == {} && Sizes(t.right) == {}
  {
  }

  /** Sizes with a smaller prefix are smaller. */
  lemma PrefixBelow(sizes: set<nat>, k: nat, q: nat, nb: nat)
    requires forall s | s in sizes :: Top(s, k) == q
    ensures q < Top(nb, k) ==> forall s | s in sizes :: s < nb
    ensures Top(nb, k) < q ==> forall s | s in sizes :: nb < s
  {
    hide Top;
    forall s | s in sizes
      ensures q < Top(nb, k) ==> s < nb
      ensures Top(nb, k) < q ==> nb < s
    {
      if q < Top(nb, k) {
        TopOrders(s, nb, k);
      } else if Top(nb, k) < q {
        TopOrders(nb, s, k);
      }
    }
  }

  /** What lies to the left of the path to `nb` is smaller, what lies to the right is larger. */
  lemma PathSides(t: Trie, k: nat, p: nat, nb: nat)
    requires t.Node? && Ok(t, k, p) && Top(nb, k) == p
    ensures GoRight(nb, k) ==> forall s | s in Sizes(t.left) :: s < nb
    ensures !GoRight(nb, k) ==> forall s | s in Sizes(t.right) :: nb < s
  {
    hide Ok, Top, Bit, GoRight, Sizes;
    if k == 0 {
      NoBits(t, p);
    } else {
      OkParts(t, k, p);
      OkPrefix(t.left, k - 1, 2 * p);
      OkPrefix(t.right, k - 1, 2 * p + 1);
      BitExtendsPrefix(nb, k, p);
      PrefixBelow(Sizes(t.left), k - 1, 2 * p, nb);
      PrefixBelow(Sizes(t.right), k - 1, 2 * p + 1, nb);
    }
  }

  lemma PassRight(sizes: set<nat>, nb: nat, rsize: nat, cur: Trie, rst: Trie)
    requires cur.Node? && (cur.size >= nb ==> cur.size - nb >= rsize)
    requires NoneBetterButTwo(sizes, nb, rsize, cur, rst)
    requires forall s | s in Sizes(cur.left) :: s < nb
    ensures NoneBetterButTwo(sizes, nb, rsize, cur.right, rst)
  {
    assert Sizes(cur) == {cur.size} + Sizes(cur.left) + Sizes(cur.right);
  }

  lemma PassLeft(sizes: set<nat>, nb: nat, rsize: nat, cur: Trie, rst: Trie)
    requires cur.Node? && (cur.size >= nb ==> cur.size - nb >= rsize)
    requires NoneBetterButTwo(sizes, nb, rsize, cur, rst)
    requires Below(cur, rst)
    ensures NoneBetterButTwo(sizes, nb, rsize, cur.left, if cur.right.Node? then cur.right else rst)
  {
    assert Sizes(cur) == {cur.size} + Sizes(cur.left) + Sizes(cur.right);
    if cur.right.Leaf? {
      assert Sizes(cur.right) == {};
    } else if rst.Node? {
      assert rst.size in Sizes(rst);
      forall s | s in Sizes(rst) || (forall u | u in Sizes(rst) :: u < s)
        ensures forall u | u in Sizes(cur.right) :: u < s
      {
        assert forall u | u in Sizes(cur.right) :: u in Sizes(cur) && u < rst.size;
      }
    }
  }
}
