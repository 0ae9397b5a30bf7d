/** The bitwise tries that hold free chunks of 256 bytes and more (insert_large_chunk,
    unlink_large_chunk, do_check_tree and the searches of tmalloc_large and tmalloc_small in
    common/malloc.c).  A node carries one size and the ring of all free chunks of that size,
    listed along `fd` from the chunk that is linked into the tree. */
module DlTrie {
  import opened DlBits
  import opened Lists

  datatype Chunk = Chunk(addr: int, size: nat)

  datatype Trie = Leaf | Node(size: nat, ring: seq<int>, left: Trie, right: Trie)

  function RingEntries(ring: seq<int>, size: nat): set<Chunk> {
    if ring == [] then {} else {Chunk(ring[0], size)} + RingEntries(ring[1..], size)
  }

  lemma {:induction false} RingEntriesAre(ring: seq<int>, size: nat)
    ensures forall e :: e in RingEntries(ring, size) <==> e.addr in ring && e.size == size
  {
    if ring != [] {
      RingEntriesAre(ring[1..], size);
      assert ring == [ring[0]] + ring[1..];
    }
  }

  function Entries(t: Trie): set<Chunk> {
    if t.Leaf? then {} else RingEntries(t.ring, t.size) + Entries(t.left) + Entries(t.right)
  }

  function Sizes(t: Trie): set<nat> {
    if t.Leaf? then {} else {t.size} + Sizes(t.left) + Sizes(t.right)
  }

  /** The invariant of a subtree whose sizes leave `k` bits open above which they read `p`: every
      size matches the bits on its path, sizes are unique, and rings hold distinct chunks. */
  predicate Ok(t: Trie, k: nat, p: nat) {
    t.Node? ==>
      && Top(t.size, k) == p
      && t.ring != [] && NoDup(t.ring)
      && t.size !in Sizes(t.left) && t.size !in Sizes(t.right)
      && if k == 0 then t.left.Leaf? && t.right.Leaf? else Ok(t.left, k - 1, 2 * p) && Ok(t.right, k - 1, 2 * p + 1)
  }

  /** The child to descend to: the source shifts the size left by one bit per level. */
  predicate GoRight(s: nat, k: nat) {
    k > 0 && Bit(s, k - 1) == 1
  }

  function Deeper(k: nat): nat {
    if k == 0 then 0 else k - 1
  }

  /** Nodes on the longest path. */
  function Height(t: Trie): nat {
    if t.Leaf? then 0
    else 1 + if Height(t.left) < Height(t.right) then Height(t.right) else Height(t.left)
  }

  // ---- consequences of the invariant --------------------------------------------------------

  lemma {:induction false} OkPrefix(t: Trie, k: nat, p: nat)
    requires Ok(t, k, p)
    ensures forall s | s in Sizes(t) :: Top(s, k) == p
  {
    if t.Node? && k > 0 {
      OkPrefix(t.left, k - 1, 2 * p);
      OkPrefix(t.right, k - 1, 2 * p + 1);
    }
  }

  lemma BitExtendsPrefix(s: nat, k: nat, p: nat)
    requires k > 0 && Top(s, k) == p
    ensures Top(s, k - 1) == if GoRight(s, k) then 2 * p + 1 else 2 * p
  {
  }

  lemma PrefixTellsSide(s: nat, k: nat, p: nat)
    requires k > 0
    ensures Top(s, k - 1) == 2 * p ==> !GoRight(s, k)
    ensures Top(s, k - 1) == 2 * p + 1 ==> GoRight(s, k)
  {
  }

  /** The next bit of a size tells in which subtree it is. */
  lemma OkSides(t: Trie, k: nat, p: nat)
    requires t.Node? && Ok(t, k, p)
    ensures forall s | s in Sizes(t.left) :: !GoRight(s, k)
    ensures forall s | s in Sizes(t.right) :: GoRight(s, k)
  {
    if k > 0 {
      OkPrefix(t.left, k - 1, 2 * p);
      OkPrefix(t.right, k - 1, 2 * p + 1);
      forall s | s in Sizes(t.left) ensures !GoRight(s, k) {
        PrefixTellsSide(s, k, p);
      }
      forall s | s in Sizes(t.right) ensures GoRight(s, k) {
        PrefixTellsSide(s, k, p);
      }
    }
  }

  /** do_check_tree: everything on the left is smaller than everything on the right. */
  lemma OkOrder(t: Trie, k: nat, p: nat)
    requires t.Node? && Ok(t, k, p)
    ensures forall s, u | s in Sizes(t.left) && u in Sizes(t.right) :: s < u
  {
    if k > 0 {
      OkPrefix(t.left, k - 1, 2 * p);
      OkPrefix(t.right, k - 1, 2 * p + 1);
      forall s, u | s in Sizes(t.left) && u in Sizes(t.right) ensures s < u {
        TopOrders(s, u, k - 1);
      }
    }
  }

  /** A descent takes no more steps than there are open bits. */
  lemma {:induction false} OkHeight(t: Trie, k: nat, p: nat)
    requires Ok(t, k, p)
    ensures Height(t) <= k + 1
  {
    if t.Node? && k > 0 {
      OkHeight(t.left, k - 1, 2 * p);
      OkHeight(t.right, k - 1, 2 * p + 1);
    }
  }

  lemma {:induction false} EntrySizes(t: Trie)
    ensures forall e | e in Entries(t) :: e.size in Sizes(t)
  {
    if t.Node? {
      RingEntriesAre(t.ring, t.size);
      EntrySizes(t.left);
      EntrySizes(t.right);
    }
  }

  // ---- insertion ----------------------------------------------------------------------------

  /** insert_large_chunk below a node with `k` open bits. */
  function Insert(t: Trie, k: nat, a: int, s: nat): (r: Trie)
    ensures r.Node?
  {
    if t.Leaf? then Node(s, [a], Leaf, Leaf)
    else if t.size == s then t.(ring := RingInsert(t.ring, a))
    else if GoRight(s, k) then t.(right := Insert(t.right, Deeper(k), a, s))
    else t.(left := Insert(t.left, Deeper(k), a, s))
  }

  /** The new chunk follows the linked one. */
  function RingInsert(ring: seq<int>, a: int): seq<int> {
    if ring == [] then [a] else [ring[0], a] + ring[1..]
  }

  lemma RingInsertNoDup(ring: seq<int>, a: int)
    requires NoDup(ring) && a !in ring
    ensures NoDup(RingInsert(ring, a))
  {
    var r := RingInsert(ring, a);
    if ring != [] {
      assert ring == [ring[0]] + ring[1..];
      assert r[1..] == [a] + ring[1..] && r[1..][1..] == ring[1..];
    }
  }

  lemma RingInsertEntries(ring: seq<int>, a: int, s: nat)
    ensures RingEntries(RingInsert(ring, a), s) == RingEntries(ring, s) + {Chunk(a, s)}
  {
    RingEntriesAre(ring, s);
    RingEntriesAre(RingInsert(ring, a), s);
    if ring != [] {
      assert ring == [ring[0]] + ring[1..];
    }
  }

  lemma {:induction false} InsertSizes(t: Trie, k: nat, a: int, s: nat)
    ensures Sizes(Insert(t, k, a, s)) == Sizes(t) + {s}
  {
    if t.Node? && t.size != s {
      if GoRight(s, k) {
        InsertSizes(t.right, Deeper(k), a, s);
      } else {
        InsertSizes(t.left, Deeper(k), a, s);
      }
    }
  }

  lemma {:induction false} InsertEntries(t: Trie, k: nat, a: int, s: nat)
    ensures Entries(Insert(t, k, a, s)) == Entries(t) + {Chunk(a, s)}
  {
    if t.Leaf? {
      LoneRing([a], a, s);
    } else if t.size == s {
      RingInsertEntries(t.ring, a, s);
    } else if GoRight(s, k) {
      InsertEntries(t.right, Deeper(k), a, s);
    } else {
      InsertEntries(t.left, Deeper(k), a, s);
    }
  }

  lemma NoDupOne(a: int)
    ensures NoDup([a])
  {
  }

  /** Different sizes with the same upper bits have lower bits. */
  lemma OtherSize(s: nat, s': nat, k: nat)
    requires s != s' && Top(s, k) == Top(s', k)
    ensures k > 0
  {
  }

  /** The invariant of a node needs of a child only that it is a subtree of its own without the
      node's size. */
  lemma OkChildren(t: Trie, k: nat, p: nat, l: Trie, r: Trie)
    requires t.Node? && k > 0 && Ok(t, k, p)
    requires Ok(l, k - 1, 2 * p) && Ok(r, k - 1, 2 * p + 1) && t.size !in Sizes(l) && t.size !in Sizes(r)
    ensures Ok(t.(left := l, right := r), k, p)
  {
  }

  lemma OkParts(t: Trie, k: nat, p: nat)
    requires t.Node? && k > 0 && Ok(t, k, p)
    ensures Ok(t.left, k - 1, 2 * p) && Ok(t.right, k - 1, 2 * p + 1)
    ensures t.size !in Sizes(t.left) && t.size !in Sizes(t.right) && Top(t.size, k) == p
  {
  }

  lemma OkRing(t: Trie, k: nat, p: nat, a: int)
    requires t.Node? && Ok(t, k, p) && Chunk(a, t.size) !in Entries(t)
    ensures Ok(t.(ring := RingInsert(t.ring, a)), k, p)
  {
    RingEntriesAre(t.ring, t.size);
    RingInsertNoDup(t.ring, a);
  }

  lemma {:induction false} InsertKeepsOk(t: Trie, k: nat, p: nat, a: int, s: nat)
    requires Ok(t, k, p) && Top(s, k) == p && Chunk(a, s) !in Entries(t)
    ensures Ok(Insert(t, k, a, s), k, p)
    decreases t, 1
  {
    if t.Leaf? {
      NoDupOne(a);
    } else if t.size == s {
      OkRing(t, k, p, a);
    } else {
      InsertBelowOk(t, k, p, a, s);
    }
  }

  lemma {:induction false} InsertBelowOk(t: Trie, k: nat, p: nat, a: int, s: nat)
    requires Ok(t, k, p) && Top(s, k) == p && Chunk(a, s) !in Entries(t) && t.Node? && t.size != s
    ensures Ok(Insert(t, k, a, s), k, p)
    decreases t, 0
  {
    hide Top, Bit, NoDup, Ok;
    assert Top(t.size, k) == p && k > 0 by {
      OkTop(t, k, p);
      OtherSize(t.size, s, k);
    }
    OkParts(t, k, p);
    BitExtendsPrefix(s, k, p);
    if GoRight(s, k) {
      InsertKeepsOk(t.right, k - 1, 2 * p + 1, a, s);
      InsertSizes(t.right, k - 1, a, s);
      OkChildren(t, k, p, t.left, Insert(t.right, k - 1, a, s));
    } else {
      InsertKeepsOk(t.left, k - 1, 2 * p, a, s);
      InsertSizes(t.left, k - 1, a, s);
      OkChildren(t, k, p, Insert(t.left, k - 1, a, s), t.right);
    }
  }

  lemma OkTop(t: Trie, k: nat, p: nat)
    requires t.Node? && Ok(t, k, p)
    ensures Top(t.size, k) == p
  {
  }

  /** Insertion keeps the invariant and adds exactly one chunk. */
  lemma InsertOk(t: Trie, k: nat, p: nat, a: int, s: nat)
    requires Ok(t, k, p) && Top(s, k) == p && Chunk(a, s) !in Entries(t)
    ensures Ok(Insert(t, k, a, s), k, p)
    ensures Entries(Insert(t, k, a, s)) == Entries(t) + {Chunk(a, s)}
  {
    InsertKeepsOk(t, k, p, a, s);
    InsertEntries(t, k, a, s);
  }

  // ---- removal ------------------------------------------------------------------------------

  /** Detaches the leaf reached by going right where possible: the replacement that
      unlink_large_chunk looks for. */
  function PopLeaf(t: Trie): (r: (Trie, Trie))
    requires t.Node?
    ensures r.0.Node?
  {
    if t.right.Node? then
      var (x, r) := PopLeaf(t.right);
      (x, t.(right := r))
    else if t.left.Node? then
      var (x, l) := PopLeaf(t.left);
      (x, t.(left := l))
    else (t, Leaf)
  }

  /** Removes a chunk from its ring.  If it is the one linked into the tree, its `bk` neighbour,
      the last of the list, takes its place. */
  function RingRemove(ring: seq<int>, a: int): seq<int>
    requires |ring| > 1
  {
    if ring[0] == a then [ring[|ring| - 1]] + ring[1..|ring| - 1] else Without(ring, a)
  }

  /** unlink_large_chunk on the node that holds the chunk. */
  function RemoveHere(t: Trie, a: int): Trie
    requires t.Node?
  {
    if |t.ring| > 1 then t.(ring := RingRemove(t.ring, a))
    else if t.right.Node? then
      var (x, r) := PopLeaf(t.right);
      Node(x.size, x.ring, t.left, r)
    else if t.left.Node? then
      var (x, l) := PopLeaf(t.left);
      Node(x.size, x.ring, l, t.right)
    else Leaf
  }

  function Remove(t: Trie, k: nat, a: int, s: nat): Trie {
    if t.Leaf? then t
    else if t.size == s then RemoveHere(t, a)
    else if GoRight(s, k) then t.(right := Remove(t.right, Deeper(k), a, s))
    else t.(left := Remove(t.left, Deeper(k), a, s))
  }

  /** What is left after a leaf was detached. */
  ghost predicate Popped(t: Trie, x: Trie, t': Trie) {
    && x.Node? && x.left.Leaf? && x.right.Leaf?
    && Entries(t') + RingEntries(x.ring, x.size) == Entries(t)
    && Sizes(t') + {x.size} == Sizes(t)
    && x.size !in Sizes(t')
    && x.ring != [] && NoDup(x.ring)
  }

  lemma OkLeaf(k: nat, p: nat)
    ensures Ok(Leaf, k, p)
  {
  }

  lemma OkRingParts(t: Trie, k: nat, p: nat)
    requires t.Node? && Ok(t, k, p)
    ensures t.ring != [] && NoDup(t.ring)
  {
  }

  lemma OkHasBits(t: Trie, k: nat, p: nat)
    requires t.Node? && Ok(t, k, p) && (t.left.Node? || t.right.Node?)
    ensures k > 0 && Sizes(t.left) !! Sizes(t.right)
  {
    OkOrder(t, k, p);
  }

  lemma PoppedBelow(t: Trie, x: Trie, l: Trie, r: Trie)
    requires t.Node? && Sizes(t.left) !! Sizes(t.right) && t.size !in Sizes(t.left) && t.size !in Sizes(t.right)
    requires (Popped(t.left, x, l) && r == t.right) || (l == t.left && Popped(t.right, x, r))
    ensures Popped(t, x, t.(left := l, right := r)) && t.size !in Sizes(l) && t.size !in Sizes(r)
  {
    hide RingEntries, NoDup;
    assert x.size in Sizes(t.left) || x.size in Sizes(t.right);
  }

  lemma {:induction false} PopLeafOk(t: Trie, k: nat, p: nat)
    requires t.Node? && Ok(t, k, p)
    ensures Ok(PopLeaf(t).1, k, p)
    ensures Popped(t, PopLeaf(t).0, PopLeaf(t).1)
  {
    if t.left.Leaf? && t.right.Leaf? {
      OkLeaf(k, p);
    } else {
      hide Ok, Top, NoDup, RingEntries, Popped, Sizes;
      OkHasBits(t, k, p);
      OkParts(t, k, p);
      if t.right.Node? {
        PopLeafOk(t.right, k - 1, 2 * p + 1);
        var (x, r) := PopLeaf(t.right);
        PoppedBelow(t, x, t.left, r);
        OkChildren(t, k, p, t.left, r);
      } else {
        PopLeafOk(t.left, k - 1, 2 * p);
        var (x, l) := PopLeaf(t.left);
        PoppedBelow(t, x, l, t.right);
        OkChildren(t, k, p, l, t.right);
      }
    }
  }

  lemma RingRemoveOk(ring: seq<int>, a: int, s: nat)
    requires |ring| > 1 && NoDup(ring) && a in ring
    ensures RingRemove(ring, a) != [] && NoDup(RingRemove(ring, a))
    ensures RingEntries(RingRemove(ring, a), s) == RingEntries(ring, s) - {Chunk(a, s)}
  {
    RingEntriesAre(ring, s);
    RingEntriesAre(RingRemove(ring, a), s);
    var n := |ring|;
    var r := RingRemove(ring, a);
    if ring[0] == a {
      var mid, last := ring[1..n - 1], ring[n - 1];
      assert ring[1..] == mid + [last] && r[1..] == mid;
      NoDupAppend(mid, [last]);
      assert last in [last];
      assert ring == [a] + (mid + [last]);
      assert forall x :: x in r <==> x in ring && x != a;
    } else {
      WithoutOk(ring, a);
    }
  }

  lemma LoneRing(ring: seq<int>, a: int, s: nat)
    requires |ring| == 1 && a in ring
    ensures RingEntries(ring, s) == {Chunk(a, s)}
  {
    assert ring == [a] && ring[1..] == [];
  }

  lemma OkNode(size: nat, ring: seq<int>, l: Trie, r: Trie, k: nat, p: nat)
    requires k > 0 && Top(size, k) == p && ring != [] && NoDup(ring) && size !in Sizes(l) && size !in Sizes(r)
    requires Ok(l, k - 1, 2 * p) && Ok(r, k - 1, 2 * p + 1)
    ensures Ok(Node(size, ring, l, r), k, p)
  {
  }

  // A leaf from below takes the place of a node.

  lemma ReplacedRightOk(t: Trie, k: nat, p: nat)
    requires t.Node? && Ok(t, k, p) && t.right.Node?
    ensures var (x, c) := PopLeaf(t.right);
            var t' := Node(x.size, x.ring, t.left, c);
            && Ok(t', k, p) && Sizes(t') <= Sizes(t)
            && Entries(t') == Entries(t.right) + Entries(t.left)
  {
    hide Ok, Top, NoDup, RingEntries, PopLeaf;
    var (x, c) := PopLeaf(t.right);
    OkPrefix(t, k, p);
    OkHasBits(t, k, p);
    OkParts(t, k, p);
    PopLeafOk(t.right, k - 1, 2 * p + 1);
    assert x.size in Sizes(t.right) && x.size in Sizes(t);
    OkNode(x.size, x.ring, t.left, c, k, p);
  }

  lemma ReplacedLeftOk(t: Trie, k: nat, p: nat)
    requires t.Node? && Ok(t, k, p) && t.left.Node?
    ensures var (x, c) := PopLeaf(t.left);
            var t' := Node(x.size, x.ring, c, t.right);
            && Ok(t', k, p) && Sizes(t') <= Sizes(t)
            && Entries(t') == Entries(t.left) + Entries(t.right)
  {
    hide Ok, Top, NoDup, RingEntries, PopLeaf;
    var (x, c) := PopLeaf(t.left);
    OkPrefix(t, k, p);
    OkHasBits(t, k, p);
    OkParts(t, k, p);
    PopLeafOk(t.left, k - 1, 2 * p);
    assert x.size in Sizes(t.left) && x.size in Sizes(t);
    OkNode(x.size, x.ring, c, t.right, k, p);
  }

  lemma RingLeftOk(t: Trie, k: nat, p: nat, a: int)
    requires t.Node? && Ok(t, k, p) && a in t.ring && |t.ring| > 1
    ensures Ok(t.(ring := RingRemove(t.ring, a)), k, p)
  {
    RingRemoveOk(t.ring, a, t.size);
  }

  /** The chunk of a node is in neither of its subtrees. */
  lemma NotBelow(t: Trie, k: nat, p: nat, a: int)
    requires t.Node? && Ok(t, k, p)
    ensures Chunk(a, t.size) !in Entries(t.left) && Chunk(a, t.size) !in Entries(t.right)
  {
    EntrySizes(t.left);
    EntrySizes(t.right);
  }

  lemma RemoveHereOk(t: Trie, k: nat, p: nat, a: int)
    requires t.Node? && Ok(t, k, p) && a in t.ring
    ensures Ok(RemoveHere(t, a), k, p)
    ensures Entries(RemoveHere(t, a)) == Entries(t) - {Chunk(a, t.size)}
    ensures Sizes(RemoveHere(t, a)) <= Sizes(t)
  {
    hide Ok, Top, NoDup, RingEntries, PopLeaf;
    NotBelow(t, k, p, a);
    if |t.ring| > 1 {
      OkRingParts(t, k, p);
      RingRemoveOk(t.ring, a, t.size);
      RingLeftOk(t, k, p, a);
    } else {
      LoneRing(t.ring, a, t.size);
      if t.right.Node? {
        ReplacedRightOk(t, k, p);
      } else if t.left.Node? {
        ReplacedLeftOk(t, k, p);
      } else {
        OkLeaf(k, p);
      }
    }
  }

  /** The bit of its size tells on which side a chunk is. */
  lemma SideOfEntry(t: Trie, k: nat, p: nat, e: Chunk)
    requires t.Node? && Ok(t, k, p) && e in Entries(t) && t.size != e.size
    ensures k > 0
    ensures if GoRight(e.size, k) then e in Entries(t.right) && e !in Entries(t.left)
            else e in Entries(t.left) && e !in Entries(t.right)
  {
    EntrySizes(t.left);
    EntrySizes(t.right);
    RingEntriesAre(t.ring, t.size);
    OkSides(t, k, p);
  }

  lemma InRing(t: Trie, k: nat, p: nat, a: int)
    requires t.Node? && Ok(t, k, p) && Chunk(a, t.size) in Entries(t)
    ensures a in t.ring
  {
    NotBelow(t, k, p, a);
    RingEntriesAre(t.ring, t.size);
  }

  lemma NotInRing(t: Trie, e: Chunk)
    requires t.Node? && e.size != t.size
    ensures e !in RingEntries(t.ring, t.size)
  {
    RingEntriesAre(t.ring, t.size);
  }

  lemma {:induction false} RemoveEntries(t: Trie, k: nat, p: nat, a: int, s: nat)
    requires Ok(t, k, p) && Chunk(a, s) in Entries(t)
    ensures Entries(Remove(t, k, a, s)) == Entries(t) - {Chunk(a, s)}
    ensures Sizes(Remove(t, k, a, s)) <= Sizes(t)
  {
    hide Ok, Top, Bit, NoDup, RingEntries, RemoveHere, GoRight;
    if t.size == s {
      InRing(t, k, p, a);
      RemoveHereOk(t, k, p, a);
    } else {
      SideOfEntry(t, k, p, Chunk(a, s));
      NotInRing(t, Chunk(a, s));
      OkParts(t, k, p);
      if GoRight(s, k) {
        RemoveEntries(t.right, k - 1, 2 * p + 1, a, s);
      } else {
        RemoveEntries(t.left, k - 1, 2 * p, a, s);
      }
    }
  }

  lemma {:induction false} RemoveKeepsOk(t: Trie, k: nat, p: nat, a: int, s: nat)
    requires Ok(t, k, p) && Chunk(a, s) in Entries(t)
    ensures Ok(Remove(t, k, a, s), k, p)
  {
    hide Ok, Top, Bit, NoDup, RingEntries, RemoveHere, GoRight;
    if t.size == s {
      InRing(t, k, p, a);
      RemoveHereOk(t, k, p, a);
    } else {
      SideOfEntry(t, k, p, Chunk(a, s));
      OkParts(t, k, p);
      if GoRight(s, k) {
        RemoveEntries(t.right, k - 1, 2 * p + 1, a, s);
        RemoveKeepsOk(t.right, k - 1, 2 * p + 1, a, s);
        OkChildren(t, k, p, t.left, Remove(t.right, k - 1, a, s));
      } else {
        RemoveEntries(t.left, k - 1, 2 * p, a, s);
        RemoveKeepsOk(t.left, k - 1, 2 * p, a, s);
        OkChildren(t, k, p, Remove(t.left, k - 1, a, s), t.right);
      }
    }
  }

  /** Removal keeps the invariant and takes out exactly the given chunk. */
  lemma RemoveOk(t: Trie, k: nat, p: nat, a: int, s: nat)
    requires Ok(t, k, p) && Chunk(a, s) in Entries(t)
    ensures Ok(Remove(t, k, a, s), k, p)
    ensures Entries(Remove(t, k, a, s)) == Entries(t) - {Chunk(a, s)}
  {
    RemoveKeepsOk(t, k, p, a, s);
    RemoveEntries(t, k, p, a, s);
  }
}
