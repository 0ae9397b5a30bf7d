/** All tree bins over one memory: what insert_large_chunk and unlink_large_chunk in common/malloc.c store for
    one bin leaves the links of every other bin as they are. */
module DlTreeBins {
  import opened DlBins
  import opened DlBits
  import opened DlLinks
  import opened DlTrie

  /** Bin number `i` is in order, and the records from `root` on are its trie. */
  ghost predicate BinTied(mem: Mem, t: Trie, root: int, place: int, i: nat) {
    TreeBinOk(t, i) && Tied(mem, t, root, place) && place != 0 && place !in Addrs(t)
  }

  /** No chunk is in two bins. */
  lemma BinsApart(mem: Mem, t: Trie, i: nat, at: int, p: int, u: Trie, j: nat, at': int, p': int)
    requires BinTied(mem, t, at, p, i) && BinTied(mem, u, at', p', j) && i != j
    ensures Addrs(t) !! Addrs(u)
  {
    hide Ok, Tied, TreeIndex, ChunkSize;
    TiedSizes(mem, t, at, p);
    TiedSizes(mem, u, at', p');
    assert Sizes(t) !! Sizes(u) by {
      forall s | s in Sizes(t) ensures s !in Sizes(u) {
        assert TreeIndex(s) == i;
      }
    }
    SizesApart(mem, Addrs(t), Addrs(u), Sizes(t), Sizes(u));
  }

  /** Stores for one bin and for chunks of no bin keep the links of the others. */
  lemma OtherTied(mem: Mem, mem': Mem, t: Trie, i: nat, at: int, p: int, u: Trie, j: nat, at': int, p': int,
                  on: set<int>)
    requires BinTied(mem, t, at, p, i) && BinTied(mem, u, at', p', j) && i != j
    requires Within(mem, mem', on) && on * Addrs(u) <= Addrs(t)
    ensures BinTied(mem', u, at', p', j)
  {
    hide TreeBinOk, Tied, Within;
    BinsApart(mem, t, i, at, p, u, j, at', p');
    TiedSizes(mem, u, at', p');
    assert on !! Addrs(u) by {
      assert forall x | x in on && x in Addrs(u) :: x in on * Addrs(u);
    }
    WithinSame(mem, mem', on, Addrs(u));
    TiedFrame(mem, mem', u, at', p');
  }

  class TreeBins {
    /** The addresses of the pointers to the roots. */
    const places: seq<int>
    var roots: seq<int>
    var mem: Mem
    ghost var trees: seq<Trie>

    ghost predicate InOrder(i: nat)
      requires i < |roots| == |places| == |trees|
      reads this
    {
      BinTied(mem, trees[i], roots[i], places[i], i)
    }

    ghost predicate Valid()
      reads this
    {
      |places| == |roots| == |trees| == NTREEBINS && forall i | 0 <= i < NTREEBINS :: InOrder(i)
    }

    lemma OthersKept(i: nat, mem': Mem, on: set<int>)
      requires Valid() && i < NTREEBINS && Within(mem, mem', on)
      requires forall j | 0 <= j < NTREEBINS && j != i :: on * Addrs(trees[j]) <= Addrs(trees[i])
      ensures forall j | 0 <= j < NTREEBINS && j != i :: BinTied(mem', trees[j], roots[j], places[j], j)
    {
      hide BinTied, Within, Addrs;
      assert InOrder(i);
      forall j | 0 <= j < NTREEBINS && j != i ensures BinTied(mem', trees[j], roots[j], places[j], j) {
        assert InOrder(j);
        OtherTied(mem, mem', trees[i], i, roots[i], places[i], trees[j], j, roots[j], places[j], on);
      }
    }

    /** The tree bins of a new state, which init_bins leaves zeroed. */
    constructor (places: seq<int>, mem: Mem)
      requires |places| == NTREEBINS && forall i | 0 <= i < NTREEBINS :: places[i] != 0
      ensures Valid() && this.places == places && this.mem == mem && trees == seq(NTREEBINS, _ => Leaf)
    {
      this.places, this.mem := places, mem;
      roots, trees := seq(NTREEBINS, _ => 0), seq(NTREEBINS, _ => Leaf);
    }

    /** insert_large_chunk: the tree of its bin has the chunk, and every other bin its links. */
    method Insert(x: int, s: nat)
      requires Valid() && MIN_LARGE_SIZE <= s && ChunkSize(s) && x != 0 && x !in places
      requires forall i | 0 <= i < NTREEBINS :: x !in Addrs(trees[i])
      modifies this`roots, this`mem, this`trees
      ensures Valid() && TreeIndex(s) < NTREEBINS
      ensures var i := TreeIndex(s);
              && trees == old(trees)[i := DlTrie.Insert(old(trees)[i], OpenBits(i), x, s)]
              && roots == old(roots)[i := roots[i]]
              && Entries(trees[i]) == Entries(old(trees)[i]) + {Chunk(x, s)}
    {
      hide Addrs, Within, Tied, Ok, TreeIndex, Prefix, OpenBits;
      TreeIndexSound(s);
      var i := TreeIndex(s);
      assert InOrder(i);
      NoEntry(mem, trees[i], roots[i], places[i], x, s);
      TreeBinInsert(trees[i], i, x, s);
      var bin := new TreeBin.Over(places[i], roots[i], mem, trees[i]);
      bin.Insert(OpenBits(i), Prefix(i), x, s);
      OthersKept(i, bin.mem, Addrs(trees[i]) + {x});
      mem, roots, trees := bin.mem, roots[i := bin.root], trees[i := bin.tree];
    }

    /** unlink_large_chunk */
    method Unlink(x: int, s: nat)
      requires Valid() && MIN_LARGE_SIZE <= s && ChunkSize(s) && TreeIndex(s) < NTREEBINS
      requires Chunk(x, s) in Entries(trees[TreeIndex(s)])
      modifies this`roots, this`mem, this`trees
      ensures Valid()
      ensures var i := TreeIndex(s);
              && trees == old(trees)[i := Remove(old(trees)[i], OpenBits(i), x, s)]
              && roots == old(roots)[i := roots[i]]
              && Entries(trees[i]) == Entries(old(trees)[i]) - {Chunk(x, s)}
    {
      hide Addrs, Within, Tied, Ok, ChunkSize, TreeIndex, Prefix, OpenBits;
      var i := TreeIndex(s);
      assert InOrder(i);
      TreeBinRemove(trees[i], i, x, s);
      var bin := new TreeBin.Over(places[i], roots[i], mem, trees[i]);
      bin.Unlink(OpenBits(i), Prefix(i), x, s);
      OthersKept(i, bin.mem, Addrs(trees[i]));
      mem, roots, trees := bin.mem, roots[i := bin.root], trees[i := bin.tree];
    }
  }
}
