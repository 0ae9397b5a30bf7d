/** The bins of malloc_state and their maps (insert_chunk, unlink_chunk and the bin searches in
    common/malloc.c).  A small bin lists its chunks along `fd`; a tree bin is a trie; a map is a 32-bit
    word that marks the bins that are not empty. */
module DlBins {
  import opened DlBitmap
  import opened DlBits
  import opened DlTrie
  import opened DlSearch
  import opened Lists
  import opened Options

  const NSMALLBINS := 32
  const MIN_LARGE_SIZE := 0x100

  predicate IsSmall(s: nat) {
    s / 8 < NSMALLBINS
  }

  /** Sizes that occur: multiples of 8 that fit in a word. */
  ghost predicate ChunkSize(s: nat) {
    0 < s && IsSize(s) && s % 8 == 0
  }

  /** What a tree bin must satisfy. */
  ghost predicate TreeBinOk(t: Trie, i: nat) {
    && Ok(t, OpenBits(i), Prefix(i))
    && forall s | s in Sizes(t) :: MIN_LARGE_SIZE <= s && ChunkSize(s) && TreeIndex(s) == i
  }

  lemma TreeBinInsert(t: Trie, i: nat, p: int, s: nat)
    requires TreeBinOk(t, i) && MIN_LARGE_SIZE <= s && ChunkSize(s) && TreeIndex(s) == i && Chunk(p, s) !in Entries(t)
    ensures TreeBinOk(Insert(t, OpenBits(i), p, s), i)
    ensures Entries(Insert(t, OpenBits(i), p, s)) == Entries(t) + {Chunk(p, s)}
  {
    TreeIndexSound(s);
    InsertOk(t, OpenBits(i), Prefix(i), p, s);
    InsertSizes(t, OpenBits(i), p, s);
  }

  lemma TreeBinRemove(t: Trie, i: nat, p: int, s: nat)
    requires TreeBinOk(t, i) && Chunk(p, s) in Entries(t)
    ensures TreeBinOk(Remove(t, OpenBits(i), p, s), i)
    ensures Entries(Remove(t, OpenBits(i), p, s)) == Entries(t) - {Chunk(p, s)}
  {
    RemoveOk(t, OpenBits(i), Prefix(i), p, s);
    RemoveEntries(t, OpenBits(i), Prefix(i), p, s);
  }

  lemma HasEntry(t: Trie, e: Chunk)
    requires e in Entries(t)
    ensures t.Node?
  {
  }

  /** Chunks in a tree bin have sizes of that bin. */
  lemma TreeBinSizes(t: Trie, i: nat)
    requires TreeBinOk(t, i)
    ensures forall e | e in Entries(t) :: !IsSmall(e.size) && TreeIndex(e.size) == i && e.size in Sizes(t)
  {
    EntrySizes(t);
  }

  class Bins {
    var smallbins: seq<seq<int>>
    var treebins: seq<Trie>
    var smallmap: bv32
    var treemap: bv32

    ghost predicate Shaped()
      reads this
    {
      |smallbins| == NSMALLBINS && |treebins| == NTREEBINS
    }

    /** Chunk `e` is in the bin of its size. */
    ghost predicate Holds(e: Chunk)
      requires Shaped()
      reads this
    {
      if IsSmall(e.size) then e.size % 8 == 0 && e.addr in smallbins[e.size / 8]
      else TreeIndex(e.size) < NTREEBINS && e in Entries(treebins[TreeIndex(e.size)])
    }

    /** do_check_smallbin, do_check_treebin: bins hold what belongs there, and the maps mark
        exactly the bins that are not empty. */
    ghost predicate Valid()
      reads this
    {
      && Shaped()
      && (forall i | 0 <= i < NSMALLBINS :: NoDup(smallbins[i]))
      && (forall i | 0 <= i < NTREEBINS :: TreeBinOk(treebins[i], i))
      && (forall i | 0 <= i < NSMALLBINS :: Marked(smallmap, i) <==> smallbins[i] != [])
      && (forall i | 0 <= i < NTREEBINS :: Marked(treemap, i) <==> treebins[i].Node?)
    }

    /** init_bins */
    constructor ()
      ensures Valid()
      ensures forall e :: !Holds(e)
    {
      smallbins := seq(NSMALLBINS, _ => []);
      treebins := seq(NTREEBINS, _ => Leaf);
      smallmap, treemap := 0, 0;
      new;
      NothingMarked();
    }

    /** insert_small_chunk */
    method InsertSmall(p: int, s: nat)
      requires Valid() && ChunkSize(s) && IsSmall(s) && !Holds(Chunk(p, s))
      modifies this
      ensures Valid() && forall e :: Holds(e) <==> old(Holds(e)) || e == Chunk(p, s)
      ensures treebins == old(treebins)
    {
      hide Marked, Mark, TreeBinOk, Entries, TreeIndex;
      var i := s / 8;
      assert ([p] + smallbins[i])[1..] == smallbins[i];
      smallbins := smallbins[i := [p] + smallbins[i]];
      MarkChanges(smallmap, i);
      smallmap := Mark(smallmap, i);
    }

    /** unlink_small_chunk */
    method UnlinkSmall(p: int, s: nat)
      requires Valid() && IsSmall(s) && Holds(Chunk(p, s))
      modifies this
      ensures Valid() && forall e :: Holds(e) <==> old(Holds(e)) && e != Chunk(p, s)
      ensures treebins == old(treebins)
    {
      hide Marked, Clear, TreeBinOk, Entries, NoDup, Without, TreeIndex;
      var i := s / 8;
      WithoutOk(smallbins[i], p);
      var bin := Without(smallbins[i], p);
      smallbins := smallbins[i := bin];
      if bin == [] {
        ClearChanges(smallmap, i);
        smallmap := Clear(smallmap, i);
      }
    }

    /** insert_large_chunk */
    method InsertLarge(p: int, s: nat)
      requires Valid() && ChunkSize(s) && !IsSmall(s) && !Holds(Chunk(p, s))
      modifies this
      ensures Valid() && forall e :: Holds(e) <==> old(Holds(e)) || e == Chunk(p, s)
      ensures smallbins == old(smallbins)
    {
      hide Marked, Mark, TreeBinOk, Entries, Insert, NoDup, TreeIndex, OpenBits, MinSize, Top;
      TreeIndexSound(s);
      var i := TreeIndex(s);
      TreeBinInsert(treebins[i], i, p, s);
      treebins := treebins[i := Insert(treebins[i], OpenBits(i), p, s)];
      MarkChanges(treemap, i);
      treemap := Mark(treemap, i);
    }

    /** unlink_large_chunk */
    method UnlinkLarge(p: int, s: nat)
      requires Valid() && !IsSmall(s) && Holds(Chunk(p, s))
      modifies this
      ensures Valid() && forall e :: Holds(e) <==> old(Holds(e)) && e != Chunk(p, s)
      ensures smallbins == old(smallbins)
    {
      hide Marked, Clear, TreeBinOk, Entries, Remove, NoDup, TreeIndex, OpenBits;
      var i := TreeIndex(s);
      HasEntry(treebins[i], Chunk(p, s));
      TreeBinRemove(treebins[i], i, p, s);
      treebins := treebins[i := Remove(treebins[i], OpenBits(i), p, s)];
      if treebins[i].Leaf? {
        ClearChanges(treemap, i);
        treemap := Clear(treemap, i);
      }
    }

    /** insert_chunk */
    method InsertChunk(p: int, s: nat)
      requires Valid() && ChunkSize(s) && !Holds(Chunk(p, s))
      modifies this
      ensures Valid() && forall e :: Holds(e) <==> old(Holds(e)) || e == Chunk(p, s)
    {
      if IsSmall(s) {
        InsertSmall(p, s);
      } else {
        InsertLarge(p, s);
      }
    }

    /** unlink_chunk */
    method UnlinkChunk(p: int, s: nat)
      requires Valid() && Holds(Chunk(p, s))
      modifies this
      ensures Valid() && forall e :: Holds(e) <==> old(Holds(e)) && e != Chunk(p, s)
    {
      if IsSmall(s) {
        UnlinkSmall(p, s);
      } else {
        UnlinkLarge(p, s);
      }
    }

    /** Entries of a tree bin are held, and held large chunks are entries of their tree bin. */
    lemma HeldInBins()
      requires Valid()
      ensures forall i, e | 0 <= i < NTREEBINS && e in Entries(treebins[i]) ::
                !IsSmall(e.size) && TreeIndex(e.size) == i && Holds(e)
      ensures forall e | Holds(e) && !IsSmall(e.size) ::
                TreeIndex(e.size) < NTREEBINS && e.size in Sizes(treebins[TreeIndex(e.size)])
      ensures forall i, s | 0 <= i < NTREEBINS && s in Sizes(treebins[i]) ::
                0x100 <= s < WORD && IsSize(s) && TreeIndex(s) == i
    {
      forall i | 0 <= i < NTREEBINS
        ensures forall e | e in Entries(treebins[i]) ::
                  !IsSmall(e.size) && TreeIndex(e.size) == i && e.size in Sizes(treebins[i])
      {
        TreeBinSizes(treebins[i], i);
      }
    }

    /** The smallest chunk of one tree bin that is known to fit. */
    method LeastOfTree(i: nat, nb: nat) returns (v: Option<Chunk>)
      requires Valid() && i < NTREEBINS && treebins[i].Node? && 0 < nb < WORD
      requires forall s | s in Sizes(treebins[i]) :: nb <= s
      ensures v.Some? && v.value in Entries(treebins[i])
      ensures forall s | s in Sizes(treebins[i]) :: v.value.size <= s
    {
      var t := treebins[i];
      OkOrdered(t, OpenBits(i), Prefix(i));
      var rsize;
      v, rsize := LeastInSubtree(t, nb, None, WORD - nb, Entries(t), Sizes(t));
      assert t.size in Sizes(t);
    }

    /** The best fit for `nb` in the trie of its own bin, if anything there fits. */
    method BestInOwnBin(nb: nat) returns (v: Option<Chunk>)
      requires Valid() && MIN_LARGE_SIZE <= nb && ChunkSize(nb)
      ensures TreeIndex(nb) < NTREEBINS
      ensures v.Some? ==> v.value in Entries(treebins[TreeIndex(nb)]) && v.value.size >= nb
      ensures forall s | s in Sizes(treebins[TreeIndex(nb)]) && s >= nb :: v.Some? && v.value.size <= s
    {
      var idx := TreeIndex(nb);
      TreeIndexSound(nb);
      var root := treebins[idx];
      v := None;
      if root.Node? {
        OkOrdered(root, OpenBits(idx), Prefix(idx));
        OkGuides(root, OpenBits(idx), Prefix(idx), nb);
        var rsize, t;
        v, rsize, t := DescendTo(root, OpenBits(idx), nb);
        v, rsize := LeastInSubtree(t, nb, v, rsize, Entries(root), Sizes(root));
      }
    }

    /** The lowest non-empty tree bin above `idx`. */
    method NextTreeBin(idx: nat) returns (r: Option<nat>)
      requires Valid() && idx < NTREEBINS
      ensures r.Some? ==> idx < r.value < NTREEBINS && treebins[r.value].Node?
      ensures forall j | idx < j < NTREEBINS && treebins[j].Node? :: r.Some? && r.value <= j
    {
      hide Marked, Above, Lowest;
      var leftbits := Above(treemap, idx);
      AboveMarks(treemap, idx);
      if leftbits != 0 {
        LowestIs(leftbits);
        r := Some(Lowest(leftbits));
      } else {
        NothingMarked();
        r := None;
      }
    }

    /** A remainderless fit: the first chunk of the request's own small bin or of the next one. */
    method ExactSmall(nb: nat) returns (r: Option<Chunk>)
      requires Valid() && IsSmall(nb) && nb % 8 == 0
      ensures r.Some? ==> Holds(r.value) && nb <= r.value.size <= nb + 8
      ensures r.Some? ==> forall e | Holds(e) && nb <= e.size :: r.value.size <= e.size
      ensures r.None? ==> forall e | Holds(e) && IsSmall(e.size) && nb <= e.size :: nb + 8 < e.size
    {
      hide Marked, Word, Shifted, HasPair, PairPick, Index, TreeBinOk, Entries, NoDup, TreeIndex;
      var i := nb / 8;
      var idx := Word(i);
      var smallbits := Shifted(smallmap, idx);
      MarkedPair(smallmap, i);
      if HasPair(smallbits) {
        var k := Index(PairPick(smallbits, idx));
        r := Some(Chunk(smallbins[k][0], 8 * k));
      } else {
        r := None;
      }
    }

    /** The first chunk of the lowest non-empty small bin above the request's own, which is empty. */
    method NextSmall(nb: nat) returns (r: Option<Chunk>)
      requires Valid() && IsSmall(nb) && nb % 8 == 0 && forall e | Holds(e) :: e.size != nb
      ensures r.Some? ==> Holds(r.value) && nb < r.value.size
      ensures r.Some? ==> forall e | Holds(e) && nb <= e.size :: r.value.size <= e.size
      ensures r.None? ==> forall e | Holds(e) && IsSmall(e.size) :: e.size < nb
    {
      hide Marked, Word, Shifted, LeftOfShifted, Lowest, TreeBinOk, Entries, NoDup, TreeIndex;
      var i := nb / 8;
      var idx := Word(i);
      var smallbits := Shifted(smallmap, idx);
      if smallbits != 0 {
        var leftbits := LeftOfShifted(smallbits, idx);
        assert smallbins[i] != [] ==> Holds(Chunk(smallbins[i][0], nb));
        NotMarked(smallmap, i);
        ShiftedLeft(smallmap, idx);
        ShiftedMarks(smallmap, i);
        LowestIs(leftbits);
        var k := Lowest(leftbits);
        r := Some(Chunk(smallbins[k][0], 8 * k));
      } else {
        NothingFrom(smallmap, i);
        r := None;
      }
    }

    /** A fit in bin `i` is the best fit when lower bins from `nb` on hold nothing that fits. */
    lemma BestOfBin(nb: nat, i: nat, v: Chunk)
      requires Valid() && MIN_LARGE_SIZE <= nb && ChunkSize(nb)
      requires TreeIndex(nb) <= i < NTREEBINS && v in Entries(treebins[i]) && v.size >= nb
      requires forall s | s in Sizes(treebins[i]) && s >= nb :: v.size <= s
      requires i == TreeIndex(nb) || forall j | TreeIndex(nb) < j < NTREEBINS && treebins[j].Node? :: i <= j
      requires i > TreeIndex(nb) ==> forall s | s in Sizes(treebins[TreeIndex(nb)]) :: s < nb
      ensures Holds(v) && !IsSmall(v.size)
      ensures forall e | Holds(e) && !IsSmall(e.size) && e.size >= nb :: v.size <= e.size
    {
      HeldInBins();
      forall e | Holds(e) && !IsSmall(e.size) && e.size >= nb ensures v.size <= e.size {
        var j := TreeIndex(e.size);
        assert treebins[j].Node?;
        if j < TreeIndex(nb) {
          TreeIndexOrders(e.size, nb);
        } else if i < j {
          TreeIndexOrders(v.size, e.size);
        }
      }
    }

    lemma NoFit(nb: nat)
      requires Valid() && MIN_LARGE_SIZE <= nb && ChunkSize(nb) && TreeIndex(nb) < NTREEBINS
      requires forall s | s in Sizes(treebins[TreeIndex(nb)]) :: s < nb
      requires forall j | 0 <= j < NTREEBINS && treebins[j].Node? :: j <= TreeIndex(nb)
      ensures forall e | Holds(e) && !IsSmall(e.size) :: e.size < nb
    {
      HeldInBins();
      forall e | Holds(e) && !IsSmall(e.size) ensures e.size < nb {
        var j := TreeIndex(e.size);
        if j < TreeIndex(nb) {
          TreeIndexOrders(e.size, nb);
        } else {
          assert treebins[j].Node?;
        }
      }
    }

    lemma HigherBinFits(nb: nat, i: nat)
      requires Valid() && MIN_LARGE_SIZE <= nb && ChunkSize(nb) && TreeIndex(nb) < i < NTREEBINS
      ensures forall s | s in Sizes(treebins[i]) :: nb <= s
    {
      HeldInBins();
      forall s | s in Sizes(treebins[i]) ensures nb <= s {
        TreeIndexOrders(nb, s);
      }
    }

    /** The search of tmalloc_large: it finds the smallest binned chunk that fits a large request,
        as a scan of all tree chunks would. */
    method BestTreeFit(nb: nat) returns (v: Option<Chunk>)
      requires Valid() && MIN_LARGE_SIZE <= nb && ChunkSize(nb)
      ensures v.Some? ==> Holds(v.value) && !IsSmall(v.value.size) && v.value.size >= nb
      ensures forall e | Holds(e) && !IsSmall(e.size) && e.size >= nb :: v.Some? && v.value.size <= e.size
    {
      v := BestInOwnBin(nb);
      var next := NextTreeBin(TreeIndex(nb));
      if v.Some? {
        BestOfBin(nb, TreeIndex(nb), v.value);
      } else if next.Some? {
        HigherBinFits(nb, next.value);
        v := LeastOfTree(next.value, nb);
        EntrySizes(treebins[next.value]);
        BestOfBin(nb, next.value, v.value);
      } else {
        NoFit(nb);
      }
    }

    lemma NoTrees()
      requires Valid() && treemap == 0
      ensures forall e | Holds(e) :: IsSmall(e.size)
    {
    }

    /** The search of tmalloc_small: the smallest chunk in any tree bin. */
    method SmallestTreeChunk(nb: nat) returns (v: Chunk)
      requires Valid() && treemap != 0 && 0 < nb <= MIN_LARGE_SIZE
      ensures Holds(v) && !IsSmall(v.size)
      ensures forall e | Holds(e) && !IsSmall(e.size) :: v.size <= e.size
    {
      HeldInBins();
      LowestIs(treemap);
      var i := Lowest(treemap);
      var found := LeastOfTree(i, nb);
      v := found.value;
      forall e | Holds(e) && !IsSmall(e.size) ensures v.size <= e.size {
        var j := TreeIndex(e.size);
        assert treebins[j].Node?;
        if i < j {
          TreeIndexOrders(v.size, e.size);
        }
      }
    }
  }
}
