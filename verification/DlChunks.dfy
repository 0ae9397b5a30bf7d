/** What each step on boundary tags means for the set of free and the set of used chunks, and what
    the invariant on tags says about the heap as a whole. */
module DlChunks {
  import opened DlTags
  import opened DlTrie

  /** The free chunks other than top. */
  ghost function FreeChunks(head: Heads, top: int): iset<Chunk> {
    iset e: Chunk | e.addr in head && e.addr != top && !head[e.addr].cinuse && head[e.addr].size == e.size
  }

  ghost function UsedChunks(head: Heads): iset<Chunk> {
    iset e: Chunk | e.addr in head && head[e.addr].cinuse && head[e.addr].size == e.size
  }

  // ---- effects ------------------------------------------------------------------------------

  lemma TakeEffect(head: Heads, foot: Feet, base: int, top: int, a: int)
    requires Tagged(head, foot, base, top) && Free(head, top, a)
    ensures Next(head, a) in head
    ensures FreeChunks(Take(head, a), top) == FreeChunks(head, top) - iset{Chunk(a, head[a].size)}
    ensures UsedChunks(Take(head, a)) == UsedChunks(head) + iset{Chunk(a, head[a].size)}
    ensures top in Take(head, a) && Take(head, a)[top].size == head[top].size
  {
    Neighbours(head, foot, base, top, a);
  }

  lemma ReleaseEffect(head: Heads, foot: Feet, base: int, top: int, a: int)
    requires Tagged(head, foot, base, top) && Used(head, a) && LinkOk(head, foot, a)
    ensures FreeChunks(Release(head, a), top) == FreeChunks(head, top) + iset{Chunk(a, head[a].size)}
    ensures UsedChunks(Release(head, a)) == UsedChunks(head) - iset{Chunk(a, head[a].size)}
    ensures top in Release(head, a) && Release(head, a)[top].size == head[top].size
  {
  }

  lemma SplitEffect(head: Heads, foot: Feet, base: int, top: int, a: int, nb: nat)
    requires Tagged(head, foot, base, top) && CanSplit(head, a, nb)
    ensures FreeChunks(Split(head, a, nb), top) == FreeChunks(head, top)
    ensures UsedChunks(Split(head, a, nb)) ==
            UsedChunks(head) - iset{Chunk(a, head[a].size)} + iset{Chunk(a, nb), Chunk(a + nb, head[a].size - nb)}
    ensures top in Split(head, a, nb) && Split(head, a, nb)[top].size == head[top].size
  {
    SplitParts(head, foot, base, top, a, nb);
  }

  lemma JoinEffect(head: Heads, foot: Feet, base: int, top: int, a: int)
    requires CanJoin(head, foot, base, top, a)
    ensures var ea, eb := Chunk(a, head[a].size), Chunk(Next(head, a), head[Next(head, a)].size);
            && FreeChunks(Join(head, a), top) == FreeChunks(head, top) - iset{ea, eb}
            && UsedChunks(Join(head, a)) == UsedChunks(head) - iset{ea, eb} + iset{Chunk(a, ea.size + eb.size)}
    ensures top in Join(head, a) && Join(head, a)[top].size == head[top].size
  {
    Neighbours(head, foot, base, top, a);
    Neighbours(head, foot, base, top, Next(head, a));
  }

  lemma CutTopEffect(head: Heads, foot: Feet, base: int, top: int, nb: nat)
    requires Tagged(head, foot, base, top) && MIN_CHUNK_SIZE <= nb < head[top].size && nb % 16 == 0
    ensures FreeChunks(CutTop(head, top, nb), top + nb) == FreeChunks(head, top)
    ensures UsedChunks(CutTop(head, top, nb)) == UsedChunks(head) + iset{Chunk(top, nb)}
  {
    CutTopOk(head, foot, base, top, nb);
  }

  lemma MeltEffect(head: Heads, foot: Feet, base: int, top: int, a: int)
    requires Tagged(head, foot, base, top) && Used(head, a) && Next(head, a) == top
    ensures FreeChunks(MeltIntoTop(head, top, a), a) == FreeChunks(head, top)
    ensures UsedChunks(MeltIntoTop(head, top, a)) == UsedChunks(head) - iset{Chunk(a, head[a].size)}
  {
  }

  lemma GrowEffect(head: Heads, foot: Feet, base: int, top: int, a: int, nb: nat)
    requires CanGrow(head, foot, base, top, a, nb)
    ensures FreeChunks(GrowIntoTop(head, top, a, nb), a + nb) == FreeChunks(head, top)
    ensures UsedChunks(GrowIntoTop(head, top, a, nb)) ==
            UsedChunks(head) - iset{Chunk(a, head[a].size)} + iset{Chunk(a, nb)}
  {
    GrowIntoTopOk(head, foot, base, top, a, nb);
  }

  lemma ResizeEffect(head: Heads, foot: Feet, base: int, top: int, size: nat)
    requires Tagged(head, foot, base, top)
    ensures FreeChunks(ResizeTop(head, top, size), top) == FreeChunks(head, top)
    ensures UsedChunks(ResizeTop(head, top, size)) == UsedChunks(head)
  {
  }

  // ---- the heap as a whole ------------------------------------------------------------------

  /** The chunks from `a` on, in the order of traverse_and_check: each starts where the one before
      it ends, and the last one is top. */
  ghost function Traverse(head: Heads, foot: Feet, base: int, top: int, a: int): seq<int>
    requires Tagged(head, foot, base, top) && a in head
    decreases top - a
  {
    if a == top then [top]
    else
      Neighbours(head, foot, base, top, a);
      [a] + Traverse(head, foot, base, top, Next(head, a))
  }

  ghost function TotalSize(head: Heads, s: seq<int>): nat
    requires forall i | 0 <= i < |s| :: s[i] in head
  {
    if s == [] then 0 else head[s[0]].size + TotalSize(head, s[1..])
  }

  /** No byte is lost or counted twice: the sizes add up to the whole segment. */
  lemma {:induction false} TraverseAddsUp(head: Heads, foot: Feet, base: int, top: int, a: int)
    requires Tagged(head, foot, base, top) && a in head
    ensures var s := Traverse(head, foot, base, top, a); forall i | 0 <= i < |s| :: s[i] in head
    ensures TotalSize(head, Traverse(head, foot, base, top, a)) == top + head[top].size - a
    decreases top - a
  {
    if a != top {
      Neighbours(head, foot, base, top, a);
      var rest := Traverse(head, foot, base, top, Next(head, a));
      TraverseAddsUp(head, foot, base, top, Next(head, a));
      assert ([a] + rest)[1..] == rest;
    } else {
      assert [top][1..] == [];
    }
  }

  /** The traversal meets every chunk there is. */
  lemma {:induction false} TraverseMeetsAll(head: Heads, foot: Feet, base: int, top: int, a: int, x: int)
    requires Tagged(head, foot, base, top) && a in head && x in head && a <= x
    ensures x in Traverse(head, foot, base, top, a)
    decreases top - a
  {
    assert PlaceOk(base, top, x);
    if a != top {
      Neighbours(head, foot, base, top, a);
      if a < x {
        assert ApartAt(head, a, x);
        TraverseMeetsAll(head, foot, base, top, Next(head, a), x);
      }
    }
  }

  /** The bytes a caller may use start two words into the chunk and end one word into the next. */
  function PayloadStart(a: int): int {
    a + 16
  }

  function PayloadEnd(a: int, size: nat): int {
    a + size + 8
  }

  /** Payloads of different used chunks are disjoint, aligned, and below the end of the heap. */
  lemma PayloadsApart(head: Heads, foot: Feet, base: int, top: int, a: int, b: int)
    requires Tagged(head, foot, base, top) && Used(head, a) && Used(head, b) && a != b
    ensures PayloadStart(a) % 16 == 0
    ensures PayloadEnd(a, head[a].size) <= PayloadStart(b) || PayloadEnd(b, head[b].size) <= PayloadStart(a)
    ensures PayloadEnd(a, head[a].size) <= top + 16
  {
    Neighbours(head, foot, base, top, a);
    assert ApartAt(head, a, b) && ApartAt(head, b, a);
  }

  /** The head word of a chunk, and its prev_foot word while it has one, are no part of a payload. */
  lemma TagsOutside(head: Heads, foot: Feet, base: int, top: int, u: int, a: int)
    requires Tagged(head, foot, base, top) && Used(head, u) && a in head
    ensures a + 16 <= PayloadStart(u) || PayloadEnd(u, head[u].size) <= a + 8
    ensures a in foot ==> a + 8 <= PayloadStart(u) || PayloadEnd(u, head[u].size) <= a
  {
    Neighbours(head, foot, base, top, u);
    var n := Next(head, u);
    assert ApartAt(head, u, a) && ApartAt(head, a, u) && ApartAt(head, n, a);
    assert BackOk(head, foot, a) && PlaceOk(base, top, a);
    if a != top {
      Neighbours(head, foot, base, top, a);
    }
    if n != top {
      Neighbours(head, foot, base, top, n);
    }
  }

  /** A free chunk, with the links it holds, lies before the head word of a used one or behind its payload. */
  lemma FreeOutside(head: Heads, foot: Feet, base: int, top: int, u: int, a: int)
    requires Tagged(head, foot, base, top) && Used(head, u) && Free(head, top, a)
    ensures a + head[a].size + 16 <= PayloadStart(u) || PayloadEnd(u, head[u].size) <= a + 8
  {
    Neighbours(head, foot, base, top, u);
    Neighbours(head, foot, base, top, a);
    assert ApartAt(head, u, a) && ApartAt(head, a, u);
  }
}
