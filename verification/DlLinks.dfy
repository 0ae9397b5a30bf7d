/** The links of a tree bin: the records of its chunks in memory (fd, bk, child and parent) and the
    stores of insert_large_chunk and unlink_large_chunk in common/malloc.c, which refine insertion
    into and removal from a trie. */
module DlLinks {
  import opened DlBits
  import opened DlTrie
  import opened Lists

  /** A free chunk in a tree bin.  Address 0 is null; `left` and `right` are child[0] and child[1]. */
  datatype TreeChunk = TreeChunk(size: nat, fd: int, bk: int, left: int, right: int, parent: int)

  type Mem = map<int, TreeChunk>

  function Next(i: nat, n: nat): (j: nat)
    requires i < n
    ensures j < n
  {
    if i + 1 == n then 0 else i + 1
  }

  function Prev(i: nat, n: nat): (j: nat)
    requires i < n
    ensures j < n
  {
    if i == 0 then n - 1 else i - 1
  }

  /** Places in a ring without its member `k`: the neighbours of the neighbours of `k` close up. */
  lemma SkipOne(ring: seq<int>, k: nat, r: seq<int>, i: nat)
    requires k < |ring| && |ring| > 1 && r == ring[..k] + ring[k + 1..] && i < |r|
    ensures var n, j := |ring|, if i < k then i else i + 1;
            && |r| == n - 1 && r[i] == ring[j] && j != k
            && r[Next(i, n - 1)] == ring[if Next(j, n) == k then Next(k, n) else Next(j, n)]
            && r[Prev(i, n - 1)] == ring[if Prev(j, n) == k then Prev(k, n) else Prev(j, n)]
  {
  }

  lemma Opposite(i: nat, j: nat, n: nat)
    requires i < n && j < n
    ensures Next(i, n) == j <==> Prev(j, n) == i
    ensures Prev(i, n) == j <==> Next(j, n) == i
  {
  }

  lemma SamePlace(ring: seq<int>, i: nat, j: nat)
    requires Distinct(ring) && i < |ring| && j < |ring|
    ensures ring[i] == ring[j] <==> i == j
  {
  }

  /** Member `i` of a ring: its links go to the neighbours, and only the first member, which is in
      the tree, has a parent or children. */
  predicate MemberOk(mem: Mem, ring: seq<int>, size: nat, i: nat)
    requires i < |ring|
  {
    && ring[i] in mem && ring[i] != 0
    && mem[ring[i]].size == size
    && mem[ring[i]].fd == ring[Next(i, |ring|)]
    && mem[ring[i]].bk == ring[Prev(i, |ring|)]
    && (i > 0 ==> mem[ring[i]].parent == 0 && mem[ring[i]].left == 0 && mem[ring[i]].right == 0)
  }

  predicate RingOk(mem: Mem, ring: seq<int>, size: nat) {
    ring != [] && forall i | 0 <= i < |ring| :: MemberOk(mem, ring, size, i)
  }

  /** The records from address `at` on, reached from `parent`, are the trie `t`. */
  predicate Tied(mem: Mem, t: Trie, at: int, parent: int) {
    if t.Leaf? then at == 0
    else
      && RingOk(mem, t.ring, t.size) && at == t.ring[0] && at in mem && mem[at].parent == parent
      && Tied(mem, t.left, mem[at].left, at)
      && Tied(mem, t.right, mem[at].right, at)
  }

  function Members(ring: seq<int>): set<int> {
    set i | 0 <= i < |ring| :: ring[i]
  }

  function Addrs(t: Trie): set<int> {
    if t.Leaf? then {} else Members(t.ring) + Addrs(t.left) + Addrs(t.right)
  }

  /** No chunk is twice in the tree. */
  predicate Apart(t: Trie) {
    t.Node? ==>
      && NoDup(t.ring) && Apart(t.left) && Apart(t.right)
      && Members(t.ring) !! Addrs(t.left) !! Addrs(t.right)
  }

  /** The records tell the size, so that different nodes have different chunks. */
  lemma {:induction false} TiedSizes(mem: Mem, t: Trie, at: int, parent: int)
    requires Tied(mem, t, at, parent)
    ensures forall a | a in Addrs(t) :: a in mem && a != 0 && mem[a].size in Sizes(t)
  {
    if t.Node? {
      TiedSizes(mem, t.left, mem[at].left, at);
      TiedSizes(mem, t.right, mem[at].right, at);
      MemberSizes(mem, t.ring, t.size);
    }
  }

  /** Chunks of sets without a common size are different. */
  lemma SizesApart(mem: Mem, a: set<int>, b: set<int>, u: set<nat>, v: set<nat>)
    requires u !! v
    requires forall x | x in a :: x in mem && mem[x].size in u
    requires forall x | x in b :: x in mem && mem[x].size in v
    ensures a !! b
  {
    forall x | x in a ensures x !in b {
      assert mem[x].size in u;
    }
  }

  lemma MemberSizes(mem: Mem, ring: seq<int>, size: nat)
    requires RingOk(mem, ring, size)
    ensures forall a | a in Members(ring) :: a in mem && a != 0 && mem[a].size == size
  {
    forall i | 0 <= i < |ring| ensures ring[i] in mem && ring[i] != 0 && mem[ring[i]].size == size {
      assert MemberOk(mem, ring, size, i);
    }
  }

  lemma {:induction false} TiedApart(mem: Mem, t: Trie, k: nat, p: nat, at: int, parent: int)
    requires Tied(mem, t, at, parent) && Ok(t, k, p)
    ensures Apart(t)
  {
    if t.Node? {
      hide Top, Members;
      if k > 0 {
        TiedApart(mem, t.left, k - 1, 2 * p, mem[at].left, at);
        TiedApart(mem, t.right, k - 1, 2 * p + 1, mem[at].right, at);
      }
      assert Sizes(t.left) !! Sizes(t.right) by { OkOrder(t, k, p); }
      MemberSizes(mem, t.ring, t.size);
      TiedSizes(mem, t.left, mem[at].left, at);
      TiedSizes(mem, t.right, mem[at].right, at);
      SizesApart(mem, Members(t.ring), Addrs(t.left), {t.size}, Sizes(t.left));
      SizesApart(mem, Members(t.ring), Addrs(t.right), {t.size}, Sizes(t.right));
      SizesApart(mem, Addrs(t.left), Addrs(t.right), Sizes(t.left), Sizes(t.right));
    }
  }

  /** Memories that agree on a set of chunks. */
  ghost predicate Same(mem: Mem, mem': Mem, on: set<int>) {
    forall a | a in on :: a in mem && a in mem' && mem[a] == mem'[a]
  }

  lemma RingFrame(mem: Mem, mem': Mem, ring: seq<int>, size: nat)
    requires RingOk(mem, ring, size) && Same(mem, mem', Members(ring))
    ensures RingOk(mem', ring, size)
  {
    forall i | 0 <= i < |ring| ensures MemberOk(mem', ring, size, i) {
      assert MemberOk(mem, ring, size, i) && ring[i] in Members(ring);
    }
  }

  lemma {:induction false} TiedFrame(mem: Mem, mem': Mem, t: Trie, at: int, parent: int)
    requires Tied(mem, t, at, parent) && Same(mem, mem', Addrs(t))
    ensures Tied(mem', t, at, parent)
  {
    if t.Node? {
      RingFrame(mem, mem', t.ring, t.size);
      assert at in Members(t.ring);
      TiedFrame(mem, mem', t.left, mem[at].left, at);
      TiedFrame(mem, mem', t.right, mem[at].right, at);
    }
  }

  /** Of the chunks of one size exactly one has a parent, and a child's parent is its node. */
  lemma OneParent(mem: Mem, t: Trie, at: int, parent: int)
    requires t.Node? && Tied(mem, t, at, parent) && parent != 0
    ensures forall i | 0 <= i < |t.ring| :: t.ring[i] in mem && (mem[t.ring[i]].parent != 0 <==> i == 0)
    ensures t.left.Node? ==> mem[at].left in mem && mem[mem[at].left].parent == at
    ensures t.right.Node? ==> mem[at].right in mem && mem[mem[at].right].parent == at
  {
    forall i | 0 <= i < |t.ring| ensures t.ring[i] in mem && (mem[t.ring[i]].parent != 0 <==> i == 0) {
      assert MemberOk(mem, t.ring, t.size, i);
    }
    assert t.left.Node? ==> MemberOk(mem, t.left.ring, t.left.size, 0);
    assert t.right.Node? ==> MemberOk(mem, t.right.ring, t.right.size, 0);
  }

  // ---- insertion ----------------------------------------------------------------------------

  /** The stores for a chunk that gets a node of its own below `at`. */
  function HangBelow(mem: Mem, at: int, right: bool, x: int, s: nat): Mem
    requires at in mem
  {
    var mem := mem[at := if right then mem[at].(right := x) else mem[at].(left := x)];
    mem[x := TreeChunk(s, x, x, 0, 0, at)]
  }

  /** The stores for a chunk that joins the ring of `at`. */
  function JoinRing(mem: Mem, at: int, x: int, s: nat): Mem
    requires at in mem && mem[at].fd in mem
  {
    var f := mem[at].fd;
    var mem := mem[at := mem[at].(fd := x)];
    var mem := mem[f := mem[f].(bk := x)];
    mem[x := TreeChunk(s, f, at, 0, 0, 0)]
  }

  lemma RingInsertIndex(ring: seq<int>, x: int)
    requires ring != []
    ensures |RingInsert(ring, x)| == |ring| + 1
    ensures RingInsert(ring, x)[0] == ring[0] && RingInsert(ring, x)[1] == x
    ensures forall i | 0 < i < |ring| :: RingInsert(ring, x)[i + 1] == ring[i]
  {
  }

  /** Neighbours in a ring with a new member behind the first. */
  lemma InsertNeighbours(ring: seq<int>, x: int, i: nat)
    requires ring != [] && i <= |ring|
    ensures var n, r := |ring|, RingInsert(ring, x);
            && |r| == n + 1 && r[0] == ring[0] && r[1] == x && (i > 1 ==> r[i] == ring[i - 1])
            && r[Next(i, n + 1)] == (if i == 0 then x else if i == 1 then ring[Next(0, n)] else ring[Next(i - 1, n)])
            && (i == 1 ==> r[Prev(i, n + 1)] == ring[0])
            && (i == 2 || i + n == 1 ==> r[Prev(i, n + 1)] == x)
            && (i == 0 && n > 1 ==> r[Prev(i, n + 1)] == ring[Prev(0, n)])
            && (i > 2 ==> r[Prev(i, n + 1)] == ring[Prev(i - 1, n)])
  {
    RingInsertIndex(ring, x);
  }

  lemma JoinRingAt(mem: Mem, ring: seq<int>, x: int, s: nat, i: nat)
    requires RingOk(mem, ring, s) && Distinct(ring) && x !in Members(ring) && x != 0 && i <= |ring|
    requires ring[0] in mem && mem[ring[0]].fd in mem && |RingInsert(ring, x)| == |ring| + 1
    ensures MemberOk(JoinRing(mem, ring[0], x, s), RingInsert(ring, x), s, i)
  {
    hide Distinct, RingInsert;
    var n, r := |ring|, RingInsert(ring, x);
    var j := if i <= 1 then 0 else i - 1;
    assert MemberOk(mem, ring, s, 0) && MemberOk(mem, ring, s, Next(0, n)) && MemberOk(mem, ring, s, j);
    assert ring[0] in Members(ring) && ring[Next(0, n)] in Members(ring) && ring[j] in Members(ring);
    InsertNeighbours(ring, x, i);
    SamePlace(ring, j, 0);
    SamePlace(ring, j, Next(0, n));
    SamePlace(ring, 0, Next(0, n));
  }

  lemma JoinRingOk(mem: Mem, ring: seq<int>, x: int, s: nat)
    requires RingOk(mem, ring, s) && Distinct(ring) && x !in Members(ring) && x != 0
    ensures ring[0] in mem && mem[ring[0]].fd in Members(ring) && mem[ring[0]].fd in mem
    ensures RingOk(JoinRing(mem, ring[0], x, s), RingInsert(ring, x), s)
  {
    assert MemberOk(mem, ring, s, 0) && MemberOk(mem, ring, s, Next(0, |ring|));
    RingInsertIndex(ring, x);
    hide MemberOk, JoinRing, RingInsert, Distinct;
    forall i | 0 <= i < |ring| + 1 ensures MemberOk(JoinRing(mem, ring[0], x, s), RingInsert(ring, x), s, i) {
      JoinRingAt(mem, ring, x, s, i);
    }
  }

  function Child(t: Trie, right: bool): Trie
    requires t.Node?
  {
    if right then t.right else t.left
  }

  function ChildAt(c: TreeChunk, right: bool): int {
    if right then c.right else c.left
  }

  function Root(t: Trie): int {
    if t.Node? && t.ring != [] then t.ring[0] else 0
  }

  /** Where the descent for size `s` ends: at the node of that size or above the free place. */
  ghost function Stop(t: Trie, k: nat, s: nat): (int, bool)
    requires t.Node?
  {
    var right := GoRight(s, k);
    if t.size == s || Child(t, right).Leaf? then (Root(t), right)
    else Stop(Child(t, right), Deeper(k), s)
  }

  /** The stores of insert_large_chunk once the descent has ended at `at`. */
  function InsertStores(mem: Mem, at: int, right: bool, x: int, s: nat): Mem
    requires at in mem && mem[at].fd in mem
  {
    if mem[at].size != s then HangBelow(mem, at, right, x, s) else JoinRing(mem, at, x, s)
  }

  /** The stores change records of chunks in `on` only. */
  ghost predicate Within(mem: Mem, mem': Mem, on: set<int>) {
    forall a | a in mem && a !in on :: a in mem' && mem'[a] == mem[a]
  }

  lemma WithinSame(mem: Mem, mem': Mem, on: set<int>, off: set<int>)
    requires Within(mem, mem', on) && on !! off && forall a | a in off :: a in mem
    ensures Same(mem, mem', off)
  {
  }

  lemma LoneRingOk(mem: Mem, x: int, s: nat, parent: int)
    requires x != 0 && x in mem && mem[x] == TreeChunk(s, x, x, 0, 0, parent)
    ensures RingOk(mem, [x], s)
  {
    assert MemberOk(mem, [x], s, 0);
  }

  predicate SameRing(r: TreeChunk, r': TreeChunk) {
    r'.size == r.size && r'.fd == r.fd && r'.bk == r.bk
  }

  /** The ring of a node whose first member changes its children or parent only. */
  lemma RingFrameHead(mem: Mem, mem': Mem, ring: seq<int>, size: nat)
    requires RingOk(mem, ring, size) && ring[0] in mem && ring[0] in mem' && SameRing(mem[ring[0]], mem'[ring[0]])
    requires forall i | 0 < i < |ring| :: ring[i] in mem && ring[i] in mem' && mem'[ring[i]] == mem[ring[i]]
    ensures RingOk(mem', ring, size)
  {
    forall i | 0 <= i < |ring| ensures MemberOk(mem', ring, size, i) {
      assert MemberOk(mem, ring, size, i);
    }
  }

  lemma OthersInRing(ring: seq<int>, i: nat)
    requires Distinct(ring) && 0 < i < |ring|
    ensures ring[i] in Members(ring) && ring[i] != ring[0]
  {
  }

  /** A node above a subtree that has changed. */
  lemma AboveTied(mem: Mem, mem': Mem, on: set<int>, t: Trie, at: int, parent: int, right: bool, c: Trie, ca: int)
    requires t.Node? && Tied(mem, t, at, parent) && Apart(t) && at in mem'
    requires Within(mem, mem', on) && on * Addrs(t) <= Addrs(Child(t, right)) + {at}
    requires mem'[at] == if right then mem[at].(right := ca) else mem[at].(left := ca)
    requires Tied(mem', c, ca, at)
    ensures Tied(mem', if right then t.(right := c) else t.(left := c), at, parent)
  {
    NoDupIsDistinct(t.ring);
    MemberSizes(mem, t.ring, t.size);
    assert at in Members(t.ring);
    forall i | 0 < i < |t.ring| ensures t.ring[i] in mem' && mem'[t.ring[i]] == mem[t.ring[i]] {
      OthersInRing(t.ring, i);
    }
    RingFrameHead(mem, mem', t.ring, t.size);
    var other := Child(t, !right);
    TiedSizes(mem, other, ChildAt(mem[at], !right), at);
    TiedFrame(mem, mem', other, ChildAt(mem[at], !right), at);
  }

  lemma JoinTied(mem: Mem, t: Trie, at: int, parent: int, x: int)
    requires t.Node? && Tied(mem, t, at, parent) && Apart(t) && x !in Addrs(t) && x != 0
    ensures mem[at].fd in mem && mem[at].fd in Addrs(t)
    ensures Tied(JoinRing(mem, at, x, t.size), t.(ring := RingInsert(t.ring, x)), at, parent)
  {
    NoDupIsDistinct(t.ring);
    JoinRingOk(mem, t.ring, x, t.size);
    RingInsertIndex(t.ring, x);
    assert at in Members(t.ring);
    var mem' := JoinRing(mem, at, x, t.size);
    TiedSizes(mem, t.left, mem[at].left, at);
    TiedSizes(mem, t.right, mem[at].right, at);
    TiedFrame(mem, mem', t.left, mem[at].left, at);
    TiedFrame(mem, mem', t.right, mem[at].right, at);
  }

  lemma HangTied(mem: Mem, t: Trie, at: int, parent: int, right: bool, x: int, s: nat)
    requires t.Node? && Tied(mem, t, at, parent) && Apart(t) && x !in Addrs(t) && x != 0 && Child(t, right).Leaf?
    ensures mem[at].fd in mem && at in Addrs(t)
    ensures var c := Node(s, [x], Leaf, Leaf);
            Tied(HangBelow(mem, at, right, x, s), if right then t.(right := c) else t.(left := c), at, parent)
  {
    assert at in Members(t.ring) && MemberOk(mem, t.ring, t.size, 0);
    assert MemberOk(mem, t.ring, t.size, Next(0, |t.ring|));
    var mem' := HangBelow(mem, at, right, x, s);
    LoneRingOk(mem', x, s, at);
    AboveTied(mem, mem', {at, x}, t, at, parent, right, Node(s, [x], Leaf, Leaf), x);
  }

  /** The stores of insert_large_chunk turn the records of a tree into those of the tree with the
      chunk inserted. */
  lemma {:induction false} InsertTied(mem: Mem, t: Trie, k: nat, at: int, parent: int, x: int, s: nat)
    requires t.Node? && Tied(mem, t, at, parent) && Apart(t) && x !in Addrs(t) && x != 0
    ensures Stop(t, k, s).0 in mem && Stop(t, k, s).0 in Addrs(t)
    ensures mem[Stop(t, k, s).0].fd in mem && mem[Stop(t, k, s).0].fd in Addrs(t)
    ensures Tied(InsertStores(mem, Stop(t, k, s).0, Stop(t, k, s).1, x, s), Insert(t, k, x, s), at, parent)
    ensures Within(mem, InsertStores(mem, Stop(t, k, s).0, Stop(t, k, s).1, x, s), Addrs(t) + {x})
  {
    var right := GoRight(s, k);
    var c := Child(t, right);
    assert at in Members(t.ring) && MemberOk(mem, t.ring, t.size, 0);
    assert t.ring[Next(0, |t.ring|)] in Members(t.ring);
    if t.size == s {
      JoinTied(mem, t, at, parent, x);
    } else if c.Leaf? {
      HangTied(mem, t, at, parent, right, x, s);
    } else {
      var ca := ChildAt(mem[at], right);
      InsertTied(mem, c, Deeper(k), ca, at, x, s);
      var (stop, r) := Stop(c, Deeper(k), s);
      var mem' := InsertStores(mem, stop, r, x, s);
      AboveTied(mem, mem', Addrs(c) + {x}, t, at, parent, right, Insert(c, Deeper(k), x, s), ca);
    }
  }

  // ---- removal ------------------------------------------------------------------------------

  /** The stores that take `x` out of its ring. */
  function LeaveRing(mem: Mem, x: int): Mem
    requires x in mem && mem[x].fd in mem && mem[x].bk in mem
  {
    var f, r := mem[x].fd, mem[x].bk;
    var mem := mem[f := mem[f].(bk := r)];
    mem[r := mem[r].(fd := f)]
  }

  lemma RingNeighbours(mem: Mem, ring: seq<int>, size: nat, i: nat)
    requires RingOk(mem, ring, size) && i < |ring|
    ensures ring[i] in mem && mem[ring[i]].fd in mem && mem[ring[i]].bk in mem
    ensures mem[ring[i]].fd == ring[Next(i, |ring|)] && mem[ring[i]].bk == ring[Prev(i, |ring|)]
  {
    var n := |ring|;
    assert MemberOk(mem, ring, size, i) && MemberOk(mem, ring, size, Next(i, n));
    assert MemberOk(mem, ring, size, Prev(i, n));
  }

  /** The first member leaves, and its `bk` neighbour takes its place. */
  lemma HeadLeaves(mem: Mem, ring: seq<int>, size: nat)
    requires RingOk(mem, ring, size) && Distinct(ring) && |ring| > 1
    ensures ring[0] in mem && mem[ring[0]].fd in mem && mem[ring[0]].bk in mem
    ensures RingOk(LeaveRing(mem, ring[0]), RingRemove(ring, ring[0]), size)
  {
    var n := |ring|;
    RingNeighbours(mem, ring, size, 0);
    var mem' := LeaveRing(mem, ring[0]);
    var r := RingRemove(ring, ring[0]);
    forall i | 0 <= i < |r| ensures MemberOk(mem', r, size, i) {
      var j := if i == 0 then n - 1 else i;
      assert r[i] == ring[j] && MemberOk(mem, ring, size, j);
    }
  }

  lemma MemberLeavesAt(mem: Mem, ring: seq<int>, size: nat, k: nat, r: seq<int>, i: nat)
    requires RingOk(mem, ring, size) && Distinct(ring) && 0 < k < |ring| && r == ring[..k] + ring[k + 1..] && i < |r|
    requires ring[k] in mem && mem[ring[k]].fd in mem && mem[ring[k]].bk in mem
    ensures MemberOk(LeaveRing(mem, ring[k]), r, size, i)
  {
    hide Distinct, Next, Prev;
    var n, j := |ring|, if i < k then i else i + 1;
    var f, b := Next(k, n), Prev(k, n);
    assert MemberOk(mem, ring, size, k) && MemberOk(mem, ring, size, f) && MemberOk(mem, ring, size, b);
    assert MemberOk(mem, ring, size, j);
    SkipOne(ring, k, r, i);
    SamePlace(ring, j, f);
    SamePlace(ring, j, b);
    SamePlace(ring, f, b);
    Opposite(j, k, n);
  }

  lemma MemberLeaves(mem: Mem, ring: seq<int>, size: nat, k: nat)
    requires RingOk(mem, ring, size) && NoDup(ring) && 0 < k < |ring|
    ensures ring[k] in mem && mem[ring[k]].fd in mem && mem[ring[k]].bk in mem
    ensures RingOk(LeaveRing(mem, ring[k]), RingRemove(ring, ring[k]), size)
  {
    NoDupIsDistinct(ring);
    RingNeighbours(mem, ring, size, k);
    WithoutAt(ring, k);
    SamePlace(ring, 0, k);
    hide MemberOk, Distinct, LeaveRing;
    var r := RingRemove(ring, ring[k]);
    forall i | 0 <= i < |r| ensures MemberOk(LeaveRing(mem, ring[k]), r, size, i) {
      MemberLeavesAt(mem, ring, size, k, r, i);
    }
  }

  predicate Bare(t: Trie)
    requires t.Node?
  {
    t.left.Leaf? && t.right.Leaf?
  }

  /** The child pointer (RP in the source) that leads to the leaf PopLeaf detaches. */
  ghost function Owner(t: Trie): (int, bool)
    requires t.Node? && !Bare(t)
  {
    var right := t.right.Node?;
    var c := Child(t, right);
    if Bare(c) then (Root(t), right) else Owner(c)
  }

  function ClearChild(mem: Mem, owner: int, right: bool): Mem
    requires owner in mem
  {
    mem[owner := if right then mem[owner].(right := 0) else mem[owner].(left := 0)]
  }

  /** What PopLeaf leaves of the addresses. */
  lemma {:induction false} PopAddrs(t: Trie)
    requires t.Node? && Apart(t)
    ensures var (x, t') := PopLeaf(t); Bare(x) && NoDup(x.ring) && Apart(t') && Members(x.ring) !! Addrs(t')
    ensures var (x, t') := PopLeaf(t); Members(x.ring) + Addrs(t') == Addrs(t)
    ensures !Bare(t) ==> var (x, t') := PopLeaf(t);
              t'.Node? && t'.ring == t.ring && t'.size == t.size && Members(x.ring) !! Members(t.ring)
  {
    if t.right.Node? {
      PopAddrs(t.right);
    } else if t.left.Node? {
      PopAddrs(t.left);
    }
  }

  /** Clearing one child pointer detaches the leaf, whose own records stay as they are. */
  lemma {:induction false} PopTied(mem: Mem, t: Trie, at: int, parent: int)
    requires t.Node? && !Bare(t) && Tied(mem, t, at, parent) && Apart(t)
    ensures Owner(t).0 in mem && Owner(t).0 in Addrs(PopLeaf(t).1)
    ensures Tied(ClearChild(mem, Owner(t).0, Owner(t).1), PopLeaf(t).1, at, parent)
    ensures var x := PopLeaf(t).0;
            RingOk(mem, x.ring, x.size) && Root(x) in mem && mem[Root(x)].left == 0 == mem[Root(x)].right
  {
    var right := t.right.Node?;
    var c := Child(t, right);
    var ca := ChildAt(mem[at], right);
    assert at in Members(t.ring);
    PopAddrs(t);
    PopAddrs(c);
    if Bare(c) {
      assert Tied(mem, c.left, mem[ca].left, ca) && Tied(mem, c.right, mem[ca].right, ca);
      AboveTied(mem, ClearChild(mem, at, right), {at}, t, at, parent, right, Leaf, 0);
    } else {
      PopTied(mem, c, ca, at);
      var mem' := ClearChild(mem, Owner(c).0, Owner(c).1);
      AboveTied(mem, mem', Addrs(c), t, at, parent, right, PopLeaf(c).1, ca);
    }
  }

  lemma Reparented(mem: Mem, t: Trie, at: int, parent: int, parent': int)
    requires t.Node? && Tied(mem, t, at, parent) && Apart(t)
    ensures Tied(mem[at := mem[at].(parent := parent')], t, at, parent')
  {
    var mem' := mem[at := mem[at].(parent := parent')];
    NoDupIsDistinct(t.ring);
    MemberSizes(mem, t.ring, t.size);
    assert at in Members(t.ring);
    forall i | 0 < i < |t.ring| ensures t.ring[i] in mem' && mem'[t.ring[i]] == mem[t.ring[i]] {
      OthersInRing(t.ring, i);
    }
    RingFrameHead(mem, mem', t.ring, t.size);
    TiedSizes(mem, t.left, mem[at].left, at);
    TiedSizes(mem, t.right, mem[at].right, at);
    TiedFrame(mem, mem', t.left, mem[at].left, at);
    TiedFrame(mem, mem', t.right, mem[at].right, at);
  }

  /** The stores that put `r` in the place of `x` below `parent`: it takes over the children. */
  function Adopt(mem: Mem, x: int, r: int, parent: int): Mem
    requires x in mem && r in mem && x != r
    requires mem[x].left != 0 ==> mem[x].left in mem
    requires mem[x].right != 0 ==> mem[x].right in mem
  {
    var c0, c1 := mem[x].left, mem[x].right;
    var mem := mem[r := mem[r].(parent := parent)];
    var mem := if c0 == 0 then mem else var mem := mem[r := mem[r].(left := c0)]; mem[c0 := mem[c0].(parent := r)];
    if c1 == 0 then mem else var mem := mem[r := mem[r].(right := c1)]; mem[c1 := mem[c1].(parent := r)]
  }

  /** Where `r` has taken the place of `x`. */
  lemma AdoptTied(mem: Mem, x: int, r: int, parent: int, t: Trie)
    requires t.Node? && Apart(t) && x in mem && x !in Addrs(t) && Root(t) == r && r in mem
    requires RingOk(mem, t.ring, t.size) && mem[r].left == 0 == mem[r].right
    requires Tied(mem, t.left, mem[x].left, x) && Tied(mem, t.right, mem[x].right, x)
    ensures x != r && (mem[x].left != 0 ==> mem[x].left in mem) && (mem[x].right != 0 ==> mem[x].right in mem)
    ensures Tied(Adopt(mem, x, r, parent), t, r, parent)
    ensures Within(mem, Adopt(mem, x, r, parent), Addrs(t))
  {
    var c0, c1 := mem[x].left, mem[x].right;
    NoDupIsDistinct(t.ring);
    MemberSizes(mem, t.ring, t.size);
    assert r in Members(t.ring);
    TiedSizes(mem, t.left, c0, x);
    TiedSizes(mem, t.right, c1, x);
    assert t.left.Node? ==> c0 in Members(t.left.ring);
    assert t.right.Node? ==> c1 in Members(t.right.ring);
    var mem' := Adopt(mem, x, r, parent);
    if t.left.Node? {
      Reparented(mem, t.left, c0, x, r);
      TiedFrame(mem[c0 := mem[c0].(parent := r)], mem', t.left, c0, r);
    }
    if t.right.Node? {
      Reparented(mem, t.right, c1, x, r);
      TiedFrame(mem[c1 := mem[c1].(parent := r)], mem', t.right, c1, r);
    }
    forall i | 0 < i < |t.ring| ensures t.ring[i] in mem' && mem'[t.ring[i]] == mem[t.ring[i]] {
      OthersInRing(t.ring, i);
    }
    RingFrameHead(mem, mem', t.ring, t.size);
  }

  /** The child pointer to `x` now leads to `r`. */
  function Redirected(c: TreeChunk, x: int, r: int): TreeChunk {
    if c.left == x then c.(left := r) else c.(right := r)
  }

  predicate CanGoAround(mem: Mem, x: int, r: int, top: bool) {
    && x in mem && x != r && (r != 0 ==> r in mem)
    && (mem[x].parent != 0 && !top ==> mem[x].parent in mem && mem[x].parent != x)
    && (mem[x].left != 0 ==> mem[x].left in mem) && (mem[x].right != 0 ==> mem[x].right in mem)
  }

  /** The second half of unlink_large_chunk: if `x` has a parent, `r` takes its place.  At the top of
      the tree the pointer to change is the bin's own. */
  function Around(mem: Mem, x: int, r: int, top: bool): Mem
    requires CanGoAround(mem, x, r, top)
  {
    var xp := mem[x].parent;
    if xp == 0 then mem
    else
      var mem := if top then mem else mem[xp := Redirected(mem[xp], x, r)];
      if r == 0 then mem else Adopt(mem, x, r, xp)
  }

  lemma AroundTied(mem: Mem, x: int, r: int, parent: int, t: Trie, top: bool)
    requires t.Node? && Apart(t) && x in mem && x !in Addrs(t) && Root(t) == r && r in mem
    requires RingOk(mem, t.ring, t.size) && mem[r].left == 0 == mem[r].right
    requires Tied(mem, t.left, mem[x].left, x) && Tied(mem, t.right, mem[x].right, x)
    requires mem[x].parent == parent != 0 && parent != x && parent !in Addrs(t) && (top || parent in mem)
    ensures CanGoAround(mem, x, r, top)
    ensures Tied(Around(mem, x, r, top), t, r, parent)
    ensures Within(mem, Around(mem, x, r, top), Addrs(t) + {parent})
    ensures parent in mem ==> parent in Around(mem, x, r, top)
    ensures parent in mem ==>
              Around(mem, x, r, top)[parent] == if top then mem[parent] else Redirected(mem[parent], x, r)
  {
    var mem2 := if top then mem else mem[parent := Redirected(mem[parent], x, r)];
    MemberSizes(mem, t.ring, t.size);
    TiedSizes(mem, t.left, mem[x].left, x);
    TiedSizes(mem, t.right, mem[x].right, x);
    assert r in Members(t.ring);
    assert t.left.Node? ==> mem[x].left in Members(t.left.ring);
    assert t.right.Node? ==> mem[x].right in Members(t.right.ring);
    RingFrame(mem, mem2, t.ring, t.size);
    TiedFrame(mem, mem2, t.left, mem[x].left, x);
    TiedFrame(mem, mem2, t.right, mem[x].right, x);
    AdoptTied(mem2, x, r, parent, t);
  }

  /** The first half of unlink_large_chunk for a chunk of the node `t`: out of the ring, or the leaf
      that replaces the node detached; with it the replacement. */
  ghost function FirstHalf(mem: Mem, t: Trie, at: int, parent: int, x: int): (Mem, int)
    requires t.Node? && Tied(mem, t, at, parent) && Apart(t) && x in Members(t.ring)
  {
    if |t.ring| > 1 then
      var i :| 0 <= i < |t.ring| && t.ring[i] == x;
      RingNeighbours(mem, t.ring, t.size, i);
      (LeaveRing(mem, x), mem[x].bk)
    else if Bare(t) then (mem, 0)
    else
      PopTied(mem, t, at, parent);
      (ClearChild(mem, Owner(t).0, Owner(t).1), Root(PopLeaf(t).0))
  }

  /** The records after unlink_large_chunk: the tree is `t'`, and only the pointer of the parent has
      changed outside. */
  ghost predicate Unlinked(mem: Mem, mem': Mem, t: Trie, t': Trie, at: int, parent: int, x: int, r: int, top: bool) {
    && Tied(mem', t', if x == at then r else at, parent)
    && Within(mem, mem', Addrs(t) + {parent})
    && (parent in mem ==> parent in mem')
    && (parent in mem ==> mem'[parent] == if x == at && !top then Redirected(mem[parent], x, r) else mem[parent])
  }

  lemma RingRemoveMembers(ring: seq<int>, x: int)
    requires |ring| > 1 && NoDup(ring) && x in Members(ring)
    ensures Members(RingRemove(ring, x)) == Members(ring) - {x} && NoDup(RingRemove(ring, x))
  {
    RingRemoveOk(ring, x, 0);
    RingEntriesAre(ring, 0);
    RingEntriesAre(RingRemove(ring, x), 0);
    forall a ensures a in Members(RingRemove(ring, x)) <==> a in Members(ring) && a != x {
      assert a in Members(ring) <==> Chunk(a, 0) in RingEntries(ring, 0);
      assert a in Members(RingRemove(ring, x)) <==> Chunk(a, 0) in RingEntries(RingRemove(ring, x), 0);
    }
  }

  /** A chunk that is not linked into the tree only leaves its ring. */
  lemma UnlinkMember(mem: Mem, t: Trie, at: int, parent: int, i: nat)
    requires t.Node? && Tied(mem, t, at, parent) && Apart(t) && 0 < i < |t.ring| && parent !in Addrs(t)
    ensures t.ring[i] in mem && mem[t.ring[i]].fd in mem && mem[t.ring[i]].bk in mem
    ensures t.ring[i] != at && mem[t.ring[i]].parent == 0 && mem[t.ring[i]].bk != t.ring[i]
    ensures var x := t.ring[i]; LeaveRing(mem, x)[x].parent == 0
    ensures var x := t.ring[i]; Unlinked(mem, LeaveRing(mem, x), t, RemoveHere(t, x), at, parent, x, 0, false)
  {
    var x, n := t.ring[i], |t.ring|;
    NoDupIsDistinct(t.ring);
    OthersInRing(t.ring, i);
    MemberLeaves(mem, t.ring, t.size, i);
    RingNeighbours(mem, t.ring, t.size, i);
    assert MemberOk(mem, t.ring, t.size, i);
    assert t.ring[Next(i, n)] in Members(t.ring) && t.ring[Prev(i, n)] in Members(t.ring) && at in Members(t.ring);
    WithoutAt(t.ring, i);
    var mem' := LeaveRing(mem, x);
    TiedSizes(mem, t.left, mem[at].left, at);
    TiedSizes(mem, t.right, mem[at].right, at);
    TiedFrame(mem, mem', t.left, mem[at].left, at);
    TiedFrame(mem, mem', t.right, mem[at].right, at);
  }

  /** The linked chunk of a ring is replaced by its `bk` neighbour. */
  lemma UnlinkHead(mem: Mem, t: Trie, at: int, parent: int, top: bool)
    requires t.Node? && Tied(mem, t, at, parent) && Apart(t) && |t.ring| > 1
    requires parent != 0 && parent !in Addrs(t) && (top || parent in mem)
    ensures mem[at].fd in mem && mem[at].bk in mem && mem[at].bk in Members(t.ring) && mem[at].bk != at
    ensures var mem1, r := LeaveRing(mem, at), mem[at].bk;
            && CanGoAround(mem1, at, r, top) && mem1[at].parent == parent
            && Unlinked(mem, Around(mem1, at, r, top), t, RemoveHere(t, at), at, parent, at, r, top)
  {
    var n := |t.ring|;
    NoDupIsDistinct(t.ring);
    HeadLeaves(mem, t.ring, t.size);
    RingNeighbours(mem, t.ring, t.size, 0);
    assert MemberOk(mem, t.ring, t.size, n - 1);
    assert t.ring[1] in Members(t.ring) && t.ring[n - 1] in Members(t.ring) && at in Members(t.ring);
    RingRemoveMembers(t.ring, at);
    var mem1, r := LeaveRing(mem, at), mem[at].bk;
    var t' := t.(ring := RingRemove(t.ring, at));
    TiedSizes(mem, t.left, mem[at].left, at);
    TiedSizes(mem, t.right, mem[at].right, at);
    TiedFrame(mem, mem1, t.left, mem[at].left, at);
    TiedFrame(mem, mem1, t.right, mem[at].right, at);
    AroundTied(mem1, at, r, parent, t', top);
  }

  /** A node without ring and children disappears. */
  lemma UnlinkBare(mem: Mem, t: Trie, at: int, parent: int, top: bool)
    requires t.Node? && Tied(mem, t, at, parent) && Apart(t) && |t.ring| == 1 && Bare(t)
    requires parent != 0 && parent !in Addrs(t) && (top || parent in mem)
    ensures CanGoAround(mem, at, 0, top)
    ensures Unlinked(mem, Around(mem, at, 0, top), t, RemoveHere(t, at), at, parent, at, 0, top)
  {
    assert at in Members(t.ring) && MemberOk(mem, t.ring, t.size, 0);
    assert Tied(mem, t.left, mem[at].left, at) && Tied(mem, t.right, mem[at].right, at);
  }

  /** A node without ring is replaced by a leaf from below. */
  lemma UnlinkInner(mem: Mem, t: Trie, at: int, parent: int, top: bool)
    requires t.Node? && Tied(mem, t, at, parent) && Apart(t) && |t.ring| == 1 && !Bare(t)
    requires parent != 0 && parent !in Addrs(t) && (top || parent in mem)
    ensures Owner(t).0 in mem
    ensures var mem1, r := ClearChild(mem, Owner(t).0, Owner(t).1), Root(PopLeaf(t).0);
            && CanGoAround(mem1, at, r, top) && mem1[at].parent == parent
            && Unlinked(mem, Around(mem1, at, r, top), t, RemoveHere(t, at), at, parent, at, r, top)
  {
    PopTied(mem, t, at, parent);
    PopAddrs(t);
    var mem1, r := ClearChild(mem, Owner(t).0, Owner(t).1), Root(PopLeaf(t).0);
    var (x, rest) := PopLeaf(t);
    var t' := rest.(size := x.size, ring := x.ring);
    assert at in Members(t.ring);
    assert t' == RemoveHere(t, at);
    MemberSizes(mem, x.ring, x.size);
    RingFrame(mem, mem1, x.ring, x.size);
    assert r in Members(x.ring);
    AroundTied(mem1, at, r, parent, t', top);
  }

  /** unlink_large_chunk refines RemoveHere on the node that holds the chunk. */
  lemma UnlinkHere(mem: Mem, t: Trie, at: int, parent: int, x: int, top: bool)
    requires t.Node? && Tied(mem, t, at, parent) && Apart(t) && x in Members(t.ring)
    requires parent != 0 && parent !in Addrs(t) && (top ==> x == at) && (x == at && !top ==> parent in mem)
    ensures var (mem1, r) := FirstHalf(mem, t, at, parent, x);
            && CanGoAround(mem1, x, r, top)
            && Unlinked(mem, Around(mem1, x, r, top), t, RemoveHere(t, x), at, parent, x, r, top)
  {
    if x != at {
      var i :| 0 <= i < |t.ring| && t.ring[i] == x;
      UnlinkMember(mem, t, at, parent, i);
      MemberSizes(mem, t.ring, t.size);
      assert MemberOk(mem, t.ring, t.size, i);
      RingNeighbours(mem, t.ring, t.size, i);
    } else if |t.ring| > 1 {
      UnlinkHead(mem, t, at, parent, top);
    } else if Bare(t) {
      UnlinkBare(mem, t, at, parent, top);
    } else {
      UnlinkInner(mem, t, at, parent, top);
    }
  }

  /** The node of size `s`, on the path to it. */
  ghost function Holder(t: Trie, k: nat, s: nat): Trie {
    if t.Leaf? || t.size == s then t else Holder(Child(t, GoRight(s, k)), Deeper(k), s)
  }

  function ParentOf(mem: Mem, a: int): int {
    if a in mem then mem[a].parent else 0
  }

  lemma InMembers(t: Trie, k: nat, p: nat, x: int)
    requires t.Node? && Ok(t, k, p) && Chunk(x, t.size) in Entries(t)
    ensures x in Members(t.ring)
  {
    hide Ok, Top;
    InRing(t, k, p, x);
  }

  lemma ChildParts(t: Trie, k: nat, p: nat, right: bool)
    requires t.Node? && k > 0 && Ok(t, k, p)
    ensures Ok(Child(t, right), k - 1, if right then 2 * p + 1 else 2 * p)
  {
  }

  lemma ChildTied(mem: Mem, t: Trie, at: int, parent: int, right: bool)
    requires t.Node? && Tied(mem, t, at, parent) && Apart(t)
    ensures at in mem && Tied(mem, Child(t, right), ChildAt(mem[at], right), at) && Apart(Child(t, right))
    ensures Addrs(Child(t, right)) <= Addrs(t) && at in Addrs(t) && at !in Addrs(Child(t, right)) && at != 0
    ensures at == Root(t)
  {
    MemberSizes(mem, t.ring, t.size);
    assert at in Members(t.ring);
  }

  lemma {:induction false} HolderTied(mem: Mem, t: Trie, k: nat, p: nat, at: int, parent: int, x: int, s: nat)
    requires Ok(t, k, p) && Tied(mem, t, at, parent) && Apart(t) && Chunk(x, s) in Entries(t)
    ensures var n := Holder(t, k, s);
            && n.Node? && Tied(mem, n, Root(n), ParentOf(mem, Root(n))) && Apart(n)
            && x in Members(n.ring) && Members(n.ring) <= Addrs(t)
  {
    hide Ok, Top, Bit, GoRight, Tied, Apart, Members, RingEntries;
    if t.size == s {
      InMembers(t, k, p, x);
      RootTied(mem, t, at, parent);
    } else {
      SideOfEntry(t, k, p, Chunk(x, s));
      var right := GoRight(s, k);
      ChildParts(t, k, p, right);
      ChildTied(mem, t, at, parent, right);
      HolderTied(mem, Child(t, right), k - 1, if right then 2 * p + 1 else 2 * p, ChildAt(mem[at], right), at, x, s);
    }
  }

  lemma RootTied(mem: Mem, t: Trie, at: int, parent: int)
    requires t.Node? && Tied(mem, t, at, parent)
    ensures at == Root(t) && parent == ParentOf(mem, at) && Members(t.ring) <= Addrs(t)
  {
  }

  /** The stores of unlink_large_chunk for chunk `x` of the node `n` have turned the tree `t` into `t'`. */
  ghost predicate RemovedBy(mem: Mem, n: Trie, t: Trie, t': Trie, at: int, parent: int, x: int, top: bool) {
    && n.Node? && Tied(mem, n, Root(n), ParentOf(mem, Root(n))) && Apart(n) && x in Members(n.ring)
    && var (mem1, r) := FirstHalf(mem, n, Root(n), ParentOf(mem, Root(n)), x);
       && CanGoAround(mem1, x, r, top)
       && Unlinked(mem, Around(mem1, x, r, top), t, t', at, parent, x, r, top)
  }

  /** What happened in a child happened in the tree. */
  lemma UnlinkedBelow(mem: Mem, mem': Mem, t: Trie, at: int, parent: int, right: bool, c': Trie, x: int, r: int)
    requires t.Node? && Tied(mem, t, at, parent) && Apart(t) && parent !in Addrs(t) && x in Addrs(Child(t, right))
    requires Unlinked(mem, mem', Child(t, right), c', ChildAt(mem[at], right), at, x, r, false)
    ensures Unlinked(mem, mem', t, if right then t.(right := c') else t.(left := c'), at, parent, x, r, false)
  {
    var c := Child(t, right);
    var ca := ChildAt(mem[at], right);
    assert at in Members(t.ring);
    assert t.left.Node? ==> mem[at].left in Members(t.left.ring);
    TiedSizes(mem, c, ca, at);
    AboveTied(mem, mem', Addrs(c) + {at}, t, at, parent, right, c', if x == ca then r else ca);
  }

  lemma RemovedBelow(mem: Mem, n: Trie, t: Trie, at: int, parent: int, right: bool, c': Trie, x: int)
    requires t.Node? && Tied(mem, t, at, parent) && Apart(t) && parent !in Addrs(t) && x in Addrs(Child(t, right))
    requires RemovedBy(mem, n, Child(t, right), c', ChildAt(mem[at], right), at, x, false)
    ensures RemovedBy(mem, n, t, if right then t.(right := c') else t.(left := c'), at, parent, x, false)
  {
    hide Unlinked, Around, CanGoAround, FirstHalf;
    var (mem1, r) := FirstHalf(mem, n, Root(n), ParentOf(mem, Root(n)), x);
    UnlinkedBelow(mem, Around(mem1, x, r, false), t, at, parent, right, c', x, r);
  }

  lemma RemovedHere(mem: Mem, t: Trie, at: int, parent: int, x: int, top: bool)
    requires t.Node? && Tied(mem, t, at, parent) && Apart(t) && x in Members(t.ring)
    requires parent != 0 && parent !in Addrs(t) && (top ==> x == at) && (x == at && !top ==> parent in mem)
    ensures RemovedBy(mem, t, t, RemoveHere(t, x), at, parent, x, top)
  {
    hide Unlinked, Around, CanGoAround, FirstHalf;
    UnlinkHere(mem, t, at, parent, x, top);
  }

  /** An entry of a tree is at an address of the tree, and at the root only if it has its size. */
  lemma EntryAddr(mem: Mem, t: Trie, at: int, parent: int, e: Chunk)
    requires Tied(mem, t, at, parent) && e in Entries(t)
    ensures e.addr in Addrs(t) && e.addr in mem && mem[e.addr].size == e.size
  {
    if t.Node? {
      RingEntriesAre(t.ring, t.size);
      MemberSizes(mem, t.ring, t.size);
      if e in Entries(t.left) {
        EntryAddr(mem, t.left, mem[at].left, at, e);
      } else if e in Entries(t.right) {
        EntryAddr(mem, t.right, mem[at].right, at, e);
      }
    }
  }

  /** The stores of unlink_large_chunk turn the records of a tree into those of the tree without the
      chunk. */
  lemma {:induction false} RemoveTied(mem: Mem, t: Trie, k: nat, p: nat, at: int, parent: int, x: int, s: nat,
    top: bool)
    requires Ok(t, k, p) && Tied(mem, t, at, parent) && Apart(t) && Chunk(x, s) in Entries(t)
    requires parent != 0 && parent !in Addrs(t) && (top ==> x == at) && (x == at && !top ==> parent in mem)
    ensures RemovedBy(mem, Holder(t, k, s), t, Remove(t, k, x, s), at, parent, x, top)
  {
    hide RemovedBy, Ok, Top, Bit, GoRight, Tied, Apart, Members, RingEntries, Addrs, RemoveHere;
    if t.size == s {
      InMembers(t, k, p, x);
      RemovedHere(mem, t, at, parent, x, top);
    } else {
      SideOfEntry(t, k, p, Chunk(x, s));
      var right := GoRight(s, k);
      var c := Child(t, right);
      ChildParts(t, k, p, right);
      ChildTied(mem, t, at, parent, right);
      var ca := ChildAt(mem[at], right);
      EntryAddr(mem, c, ca, at, Chunk(x, s));
      RemoveTied(mem, c, k - 1, if right then 2 * p + 1 else 2 * p, ca, at, x, s, false);
      RemovedBelow(mem, Holder(c, k - 1, s), t, at, parent, right, Remove(c, k - 1, x, s), x);
    }
  }

  lemma NoEntry(mem: Mem, t: Trie, at: int, parent: int, x: int, s: nat)
    requires Tied(mem, t, at, parent) && x !in Addrs(t)
    ensures Chunk(x, s) !in Entries(t)
  {
    if Chunk(x, s) in Entries(t) {
      EntryAddr(mem, t, at, parent, Chunk(x, s));
    }
  }

  lemma HeadSize(mem: Mem, t: Trie, at: int)
    requires t.Node? && at in mem && Tied(mem, t, at, mem[at].parent)
    ensures mem[at].size == t.size && at != 0 && Root(t) == at
    ensures mem[at].left != 0 <==> t.left.Node?
    ensures mem[at].right != 0 <==> t.right.Node?
    ensures t.left.Node? ==> mem[at].left in mem && Tied(mem, t.left, mem[at].left, mem[mem[at].left].parent)
    ensures t.right.Node? ==> mem[at].right in mem && Tied(mem, t.right, mem[at].right, mem[mem[at].right].parent)
  {
    assert MemberOk(mem, t.ring, t.size, 0);
    assert t.left.Node? ==> MemberOk(mem, t.left.ring, t.left.size, 0);
    assert t.right.Node? ==> MemberOk(mem, t.right.ring, t.right.size, 0);
  }

  lemma RingInsertMembers(ring: seq<int>, x: int)
    ensures Members(RingInsert(ring, x)) == Members(ring) + {x}
  {
    var r := RingInsert(ring, x);
    if ring == [] {
      assert r[0] == x;
    } else {
      RingInsertIndex(ring, x);
      assert r[0] == ring[0] && r[1] == x;
      forall i | 0 < i < |ring| ensures ring[i] in Members(r) {
        assert r[i + 1] == ring[i];
      }
    }
  }

  lemma EmptyTree(mem: Mem, t: Trie, at: int, parent: int)
    requires Tied(mem, t, at, parent)
    ensures at == 0 <==> t.Leaf?
  {
    if t.Node? {
      MemberSizes(mem, t.ring, t.size);
      assert at in Members(t.ring);
    }
  }

  lemma FirstTied(mem: Mem, x: int, s: nat, place: int)
    requires x != 0
    ensures Tied(mem[x := TreeChunk(s, x, x, 0, 0, place)], Node(s, [x], Leaf, Leaf), x, place)
  {
    LoneRingOk(mem[x := TreeChunk(s, x, x, 0, 0, place)], x, s, place);
  }

  lemma {:induction false} InsertAddrs(t: Trie, k: nat, x: int, s: nat)
    ensures Addrs(Insert(t, k, x, s)) == Addrs(t) + {x}
  {
    if t.Leaf? {
      RingInsertMembers([], x);
    } else if t.size == s {
      RingInsertMembers(t.ring, x);
    } else if GoRight(s, k) {
      InsertAddrs(t.right, Deeper(k), x, s);
    } else {
      InsertAddrs(t.left, Deeper(k), x, s);
    }
  }

  lemma RemoveHereAddrs(t: Trie, x: int)
    requires t.Node? && Apart(t) && x in Members(t.ring)
    ensures Addrs(RemoveHere(t, x)) <= Addrs(t)
  {
    if |t.ring| > 1 {
      RingRemoveMembers(t.ring, x);
    } else {
      PopAddrs(t);
    }
  }

  lemma {:induction false} RemoveAddrs(t: Trie, k: nat, p: nat, x: int, s: nat)
    requires Ok(t, k, p) && Apart(t) && Chunk(x, s) in Entries(t)
    ensures Addrs(Remove(t, k, x, s)) <= Addrs(t)
  {
    hide Ok, Top, Bit, NoDup, RingEntries, GoRight, RemoveHere, Members;
    if t.size == s {
      InMembers(t, k, p, x);
      RemoveHereAddrs(t, x);
    } else {
      SideOfEntry(t, k, p, Chunk(x, s));
      OkParts(t, k, p);
      if GoRight(s, k) {
        RemoveAddrs(t.right, k - 1, 2 * p + 1, x, s);
      } else {
        RemoveAddrs(t.left, k - 1, 2 * p, x, s);
      }
    }
  }

  /** The test of unlink_large_chunk for a chained chunk. */
  lemma Chained(mem: Mem, t: Trie, at: int, parent: int, x: int)
    requires t.Node? && Tied(mem, t, at, parent) && Apart(t) && x in Members(t.ring)
    ensures x in mem && mem[x].fd in mem && mem[x].bk in mem && (mem[x].bk != x <==> |t.ring| > 1)
    ensures |t.ring| == 1 ==> x == at
  {
    var i :| 0 <= i < |t.ring| && t.ring[i] == x;
    NoDupIsDistinct(t.ring);
    RingNeighbours(mem, t.ring, t.size, i);
  }

  // ---- the bin ------------------------------------------------------------------------------

  /** A tree bin: the pointer `*H` to its root, and the memory of all free chunks. */
  class TreeBin {
    /** The address of the bin's own pointer, which the root has as its parent. */
    const place: int
    var root: int
    var mem: Mem
    ghost var tree: Trie

    ghost predicate Valid(k: nat, p: nat)
      reads this
    {
      Ok(tree, k, p) && Tied(mem, tree, root, place) && place != 0 && place !in Addrs(tree)
    }

    constructor (place: int, mem: Mem)
      requires place != 0
      ensures this.place == place && this.mem == mem && tree == Leaf
      ensures forall k, p :: Valid(k, p)
    {
      this.place, this.mem := place, mem;
      root, tree := 0, Leaf;
    }

    /** A bin that is in use. */
    constructor Over(place: int, root: int, mem: Mem, ghost tree: Trie)
      ensures this.place == place && this.root == root && this.mem == mem && this.tree == tree
    {
      this.place, this.root, this.mem, this.tree := place, root, mem, tree;
    }

    /** The descent of insert_large_chunk; the child to follow is picked by the bits of the size. */
    method FindPlace(k: nat, p: nat, s: nat) returns (at: int, right: bool)
      requires Valid(k, p) && root != 0
      ensures (at, right) == Stop(tree, k, s)
    {
      hide Top, Bit, Ok, RingOk;
      var bits := k;
      at := root;
      ghost var sub := tree;
      right := GoRight(s, bits);
      while mem[at].size != s && (ChildAt(mem[at], right)) != 0
        invariant sub.Node? && at in mem && Tied(mem, sub, at, mem[at].parent) && right == GoRight(s, bits)
        invariant Stop(sub, bits, s) == Stop(tree, k, s)
        decreases sub
      {
        HeadSize(mem, sub, at);
        sub := Child(sub, right);
        at := ChildAt(mem[at], right);
        bits := Deeper(bits);
        right := GoRight(s, bits);
      }
      HeadSize(mem, sub, at);
    }

    /** insert_large_chunk, for a bin with `k` open bits. */
    method Insert(k: nat, p: nat, x: int, s: nat)
      requires Valid(k, p) && Top(s, k) == p && x != 0 && x != place && x !in Addrs(tree)
      modifies this`root, this`mem, this`tree
      ensures tree == DlTrie.Insert(old(tree), k, x, s) && Valid(k, p)
      ensures Within(old(mem), mem, old(Addrs(tree)) + {x})
    {
      hide Top, Bit, Ok, Stop, InsertStores, Tied, Apart;
      assert Chunk(x, s) !in Entries(tree) by { NoEntry(mem, tree, root, place, x, s); }
      InsertOk(tree, k, p, x, s);
      InsertAddrs(tree, k, x, s);
      TiedApart(mem, tree, k, p, root, place);
      if root == 0 {
        EmptyTree(mem, tree, root, place);
        FirstTied(mem, x, s, place);
        root := x;
        mem := mem[x := TreeChunk(s, x, x, 0, 0, place)];
      } else {
        EmptyTree(mem, tree, root, place);
        InsertTied(mem, tree, k, root, place, x, s);
        var at, right := FindPlace(k, p, s);
        mem := InsertStores(mem, at, right, x, s);
      }
      tree := DlTrie.Insert(tree, k, x, s);
    }

    /** The search for the leaf that replaces `x`, and for the pointer to it. */
    method FindLeaf(x: int, ghost n: Trie) returns (owner: int, right: bool, r: int)
      requires n.Node? && !Bare(n) && x in mem && Tied(mem, n, x, mem[x].parent)
      ensures (owner, right) == Owner(n) && r == Root(PopLeaf(n).0) != 0
    {
      hide RingOk;
      ghost var sub := n;
      HeadSize(mem, sub, x);
      owner, right := x, mem[x].right != 0;
      r := if right then mem[x].right else mem[x].left;
      HeadSize(mem, Child(sub, right), r);
      while mem[r].right != 0 || mem[r].left != 0
        invariant sub.Node? && !Bare(sub) && owner == Root(sub) && right == sub.right.Node? && r in mem && r != 0
        invariant Tied(mem, Child(sub, right), r, mem[r].parent) && r == Root(Child(sub, right))
        invariant Owner(sub) == Owner(n) && PopLeaf(sub).0 == PopLeaf(n).0
        decreases sub
      {
        sub := Child(sub, right);
        HeadSize(mem, sub, r);
        owner, right := r, mem[r].right != 0;
        r := if right then mem[r].right else mem[r].left;
        HeadSize(mem, Child(sub, right), r);
      }
      HeadSize(mem, Child(sub, right), r);
    }

    /** unlink_large_chunk, for a bin with `k` open bits. */
    method Unlink(k: nat, p: nat, x: int, s: nat)
      requires Valid(k, p) && Chunk(x, s) in Entries(tree)
      modifies this`root, this`mem, this`tree
      ensures tree == Remove(old(tree), k, x, s) && Valid(k, p)
      ensures Within(old(mem), mem, old(Addrs(tree)))
    {
      hide Top, Bit, Ok, Tied, Apart, Around, LeaveRing, ClearChild, Holder, RingOk;
      ghost var n, before := Holder(tree, k, s), mem;
      TiedApart(mem, tree, k, p, root, place);
      HolderTied(mem, tree, k, p, root, place, x, s);
      RemoveTied(mem, tree, k, p, root, place, x, s, x == root);
      RemoveOk(tree, k, p, x, s);
      RemoveAddrs(tree, k, p, x, s);
      Chained(mem, n, Root(n), ParentOf(mem, Root(n)), x);
      var r := 0;
      if mem[x].bk != x {
        r := mem[x].bk;
        mem := LeaveRing(mem, x);
      } else {
        HeadSize(mem, n, x);
        if mem[x].right != 0 || mem[x].left != 0 {
          var owner, right;
          owner, right, r := FindLeaf(x, n);
          PopTied(mem, n, x, mem[x].parent);
          mem := ClearChild(mem, owner, right);
        }
      }
      assert (mem, r) == FirstHalf(before, n, Root(n), ParentOf(before, Root(n)), x);
      mem := Around(mem, x, r, x == root);
      tree := Remove(tree, k, x, s);
      if x == root {
        root := r;
      }
    }
  }
}
