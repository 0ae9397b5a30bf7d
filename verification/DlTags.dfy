/** Boundary tags (struct malloc_chunk, the head and foot macros and the do_check_* functions in
    common/malloc.c).  `head` maps the start of every chunk, the top chunk included, to its head
    word; `foot` maps a chunk start to its prev_foot word, which exists only while the chunk
    before it is free: otherwise that word belongs to the user of that chunk. */
module DlTags {

  /** A head word: PINUSE_BIT says that the previous chunk is in use, CINUSE_BIT that this one is. */
  datatype Head = Head(size: nat, pinuse: bool, cinuse: bool)

  type Heads = map<int, Head>
  type Feet = map<int, nat>

  const MIN_CHUNK_SIZE: nat := 32

  function Next(head: Heads, a: int): int
    requires a in head
  {
    a + head[a].size
  }

  /** A chunk below top: well sized, followed by a chunk whose tags agree with it; if it is free,
      both neighbours are in use and its foot repeats its size. */
  ghost predicate LinkOk(head: Heads, foot: Feet, a: int) {
    && a in head && head[a].size >= MIN_CHUNK_SIZE && head[a].size % 16 == 0
    && var n := Next(head, a);
    && n in head && head[n].pinuse == head[a].cinuse
    && (!head[a].cinuse ==> head[a].pinuse && head[n].cinuse && n in foot && foot[n] == head[a].size)
  }

  /** A chunk whose PINUSE_BIT is clear finds the free chunk before it through its foot. */
  ghost predicate BackOk(head: Heads, foot: Feet, b: int) {
    && b in head
    && (!head[b].pinuse ==>
      b in foot && b - foot[b] in head && head[b - foot[b]].size == foot[b] && !head[b - foot[b]].cinuse && foot[b] > 0)
    && (head[b].pinuse ==> b !in foot)
  }

  /** Different chunks do not overlap. */
  ghost predicate ApartAt(head: Heads, a: int, b: int) {
    a in head && b in head && a < b ==> a + head[a].size <= b
  }

  ghost predicate Apart(head: Heads) {
    forall a, b {:trigger ApartAt(head, a, b)} :: ApartAt(head, a, b)
  }

  /** Chunk starts lie between base and top and are aligned. */
  ghost predicate PlaceOk(base: int, top: int, a: int) {
    base <= a <= top && a % 16 == 0
  }

  /** The whole invariant: the chunks tile [base, top + size of top) and their tags agree. */
  ghost predicate Tagged(head: Heads, foot: Feet, base: int, top: int) {
    && base in head && head[base].pinuse
    && top in head && head[top].pinuse && !head[top].cinuse && head[top].size > 0
    && (forall a {:trigger LinkOk(head, foot, a)} | a in head && a != top :: LinkOk(head, foot, a))
    && (forall b {:trigger BackOk(head, foot, b)} | b in head :: BackOk(head, foot, b))
    && (forall a {:trigger PlaceOk(base, top, a)} | a in head :: PlaceOk(base, top, a))
    && (forall b | b in foot :: b in head)
    && Apart(head)
  }

  /** A free chunk other than top. */
  predicate Free(head: Heads, top: int, a: int) {
    a in head && a != top && !head[a].cinuse
  }

  predicate Used(head: Heads, a: int) {
    a in head && head[a].cinuse
  }

  // ---- neighbours ---------------------------------------------------------------------------

  /** Only one chunk ends where another starts. */
  lemma OnePredecessor(head: Heads, foot: Feet, base: int, top: int, a: int, b: int)
    requires Tagged(head, foot, base, top) && a in head && b in head && a != top && b != top
    requires Next(head, a) == Next(head, b)
    ensures a == b
  {
    assert LinkOk(head, foot, a) && LinkOk(head, foot, b);
    assert ApartAt(head, a, b) && ApartAt(head, b, a);
  }

  /** What LinkOk and BackOk say about chunk `a` and its neighbour. */
  lemma Neighbours(head: Heads, foot: Feet, base: int, top: int, a: int)
    requires Tagged(head, foot, base, top) && a in head && a != top
    ensures LinkOk(head, foot, a) && BackOk(head, foot, a) && BackOk(head, foot, Next(head, a))
    ensures a < Next(head, a) <= top && base <= a && a % 16 == 0
    ensures Next(head, a) != top ==> LinkOk(head, foot, Next(head, a))
  {
    assert LinkOk(head, foot, a);
    var n := Next(head, a);
    assert BackOk(head, foot, a) && BackOk(head, foot, n);
    assert n != top ==> LinkOk(head, foot, n);
    assert PlaceOk(base, top, a) && PlaceOk(base, top, n);
  }

  lemma PlacesKept(head: Heads, foot: Feet, base: int, top: int, head': Heads)
    requires Tagged(head, foot, base, top)
    requires head'.Keys == head.Keys && forall x | x in head :: head'[x].size == head[x].size
    ensures Apart(head') && forall x | x in head' :: PlaceOk(base, top, x)
  {
    forall x, y ensures ApartAt(head', x, y) {
      assert ApartAt(head, x, y);
    }
  }

  // ---- steps on tags ------------------------------------------------------------------------

  /** set_inuse_and_pinuse on a whole free chunk. */
  ghost function Take(head: Heads, a: int): Heads
    requires a in head && Next(head, a) in head
  {
    var n := Next(head, a);
    head[a := head[a].(cinuse := true)][n := head[n].(pinuse := true)]
  }

  lemma MarksKeepSizes(head: Heads, a: int)
    requires a in head && Next(head, a) in head
    ensures Take(head, a).Keys == head.Keys && forall x | x in head :: Take(head, a)[x].size == head[x].size
    ensures Release(head, a).Keys == head.Keys && forall x | x in head :: Release(head, a)[x].size == head[x].size
  {
  }

  lemma TakeAt(head: Heads, foot: Feet, base: int, top: int, a: int, x: int)
    requires Tagged(head, foot, base, top) && Free(head, top, a) && x in head && Next(head, a) in head
    ensures x != top ==> LinkOk(Take(head, a), foot - {Next(head, a)}, x)
    ensures BackOk(Take(head, a), foot - {Next(head, a)}, x)
  {
    Neighbours(head, foot, base, top, a);
    assert BackOk(head, foot, x);
    if x != top {
      Neighbours(head, foot, base, top, x);
      if Next(head, x) == Next(head, a) {
        OnePredecessor(head, foot, base, top, a, x);
      }
    }
  }

  lemma TakeOk(head: Heads, foot: Feet, base: int, top: int, a: int)
    requires Tagged(head, foot, base, top) && Free(head, top, a)
    ensures Next(head, a) in head
    ensures Tagged(Take(head, a), foot - {Next(head, a)}, base, top)
  {
    Neighbours(head, foot, base, top, a);
    var head', foot' := Take(head, a), foot - {Next(head, a)};
    forall x | x in head'
      ensures x != top ==> LinkOk(head', foot', x)
      ensures BackOk(head', foot', x)
    {
      TakeAt(head, foot, base, top, a, x);
    }
    MarksKeepSizes(head, a);
    PlacesKept(head, foot, base, top, head');
  }

  /** set_free_with_pinuse on a chunk between chunks that are in use. */
  ghost function Release(head: Heads, a: int): Heads
    requires a in head && Next(head, a) in head
  {
    var n := Next(head, a);
    head[a := head[a].(cinuse := false)][n := head[n].(pinuse := false)]
  }

  lemma ReleaseAt(head: Heads, foot: Feet, base: int, top: int, a: int, x: int)
    requires Tagged(head, foot, base, top) && Used(head, a) && head[a].pinuse
    requires LinkOk(head, foot, a) && head[Next(head, a)].cinuse && x in head
    ensures x != top ==> LinkOk(Release(head, a), foot[Next(head, a) := head[a].size], x)
    ensures BackOk(Release(head, a), foot[Next(head, a) := head[a].size], x)
  {
    Neighbours(head, foot, base, top, a);
    assert BackOk(head, foot, x);
    if x != top {
      Neighbours(head, foot, base, top, x);
      if Next(head, x) == Next(head, a) {
        OnePredecessor(head, foot, base, top, a, x);
      }
    }
  }

  lemma ReleaseOk(head: Heads, foot: Feet, base: int, top: int, a: int)
    requires Tagged(head, foot, base, top) && Used(head, a) && head[a].pinuse
    requires LinkOk(head, foot, a) && head[Next(head, a)].cinuse
    ensures Tagged(Release(head, a), foot[Next(head, a) := head[a].size], base, top)
  {
    var head', foot' := Release(head, a), foot[Next(head, a) := head[a].size];
    forall x | x in head'
      ensures x != top ==> LinkOk(head', foot', x)
      ensures BackOk(head', foot', x)
    {
      ReleaseAt(head, foot, base, top, a, x);
    }
    MarksKeepSizes(head, a);
    PlacesKept(head, foot, base, top, head');
  }

  // ---- steps that move chunk boundaries -----------------------------------------------------

  /** set_inuse(p, nb) and set_inuse(p + nb, rest): one used chunk becomes two. */
  ghost function Split(head: Heads, a: int, nb: nat): Heads
    requires a in head && nb <= head[a].size
  {
    head[a := head[a].(size := nb)][a + nb := Head(head[a].size - nb, true, true)]
  }

  ghost predicate CanSplit(head: Heads, a: int, nb: nat) {
    Used(head, a) && nb >= MIN_CHUNK_SIZE && nb % 16 == 0 && nb + MIN_CHUNK_SIZE <= head[a].size
  }

  lemma SplitParts(head: Heads, foot: Feet, base: int, top: int, a: int, nb: nat)
    requires Tagged(head, foot, base, top) && CanSplit(head, a, nb)
    ensures a + nb !in head && a != top
    ensures LinkOk(Split(head, a, nb), foot, a) && BackOk(Split(head, a, nb), foot, a)
    ensures LinkOk(Split(head, a, nb), foot, a + nb) && BackOk(Split(head, a, nb), foot, a + nb)
    ensures PlaceOk(base, top, a + nb)
  {
    Neighbours(head, foot, base, top, a);
    assert ApartAt(head, a, a + nb);
  }

  lemma SplitOthers(head: Heads, foot: Feet, base: int, top: int, a: int, nb: nat, x: int)
    requires Tagged(head, foot, base, top) && CanSplit(head, a, nb) && x in head && x != a && a + nb !in head
    ensures x != top ==> LinkOk(Split(head, a, nb), foot, x)
    ensures BackOk(Split(head, a, nb), foot, x)
  {
    assert BackOk(head, foot, x);
    if x != top {
      Neighbours(head, foot, base, top, x);
    }
  }

  lemma SplitAt(head: Heads, foot: Feet, base: int, top: int, a: int, nb: nat, x: int)
    requires Tagged(head, foot, base, top) && CanSplit(head, a, nb) && x in Split(head, a, nb)
    ensures x != top ==> LinkOk(Split(head, a, nb), foot, x)
    ensures BackOk(Split(head, a, nb), foot, x)
    ensures PlaceOk(base, top, x)
  {
    SplitParts(head, foot, base, top, a, nb);
    if x != a + nb {
      assert PlaceOk(base, top, x);
      if x != a {
        SplitOthers(head, foot, base, top, a, nb, x);
      }
    }
  }

  lemma SplitApart(head: Heads, foot: Feet, base: int, top: int, a: int, nb: nat, x: int, y: int)
    requires Tagged(head, foot, base, top) && CanSplit(head, a, nb)
    ensures ApartAt(Split(head, a, nb), x, y)
  {
    assert ApartAt(head, x, y) && ApartAt(head, a, y) && ApartAt(head, x, a) && ApartAt(head, a, x);
  }

  lemma SplitOk(head: Heads, foot: Feet, base: int, top: int, a: int, nb: nat)
    requires Tagged(head, foot, base, top) && CanSplit(head, a, nb)
    ensures a + nb !in head
    ensures Tagged(Split(head, a, nb), foot, base, top)
  {
    var head' := Split(head, a, nb);
    SplitParts(head, foot, base, top, a, nb);
    forall x | x in head'
      ensures x != top ==> LinkOk(head', foot, x)
      ensures BackOk(head', foot, x) && PlaceOk(base, top, x)
    {
      SplitAt(head, foot, base, top, a, nb, x);
    }
    forall x, y ensures ApartAt(head', x, y) {
      SplitApart(head, foot, base, top, a, nb, x, y);
    }
  }

  /** Two neighbours become one chunk that is in use. */
  ghost function Join(head: Heads, a: int): Heads
    requires a in head && Next(head, a) in head && Next(head, Next(head, a)) in head
  {
    var b := Next(head, a);
    var n := Next(head, b);
    var rest := head - {b};
    rest[a := Head(head[a].size + head[b].size, head[a].pinuse, true)][n := head[n].(pinuse := true)]
  }

  ghost predicate CanJoin(head: Heads, foot: Feet, base: int, top: int, a: int) {
    && Tagged(head, foot, base, top) && a in head && a != top
    && Next(head, a) in head && Next(head, a) != top && Next(head, Next(head, a)) in head
  }

  ghost function JoinFeet(head: Heads, foot: Feet, a: int): Feet
    requires a in head && Next(head, a) in head
  {
    foot - {Next(head, a), Next(head, Next(head, a))}
  }

  lemma JoinBack(head: Heads, foot: Feet, base: int, top: int, a: int, x: int)
    requires CanJoin(head, foot, base, top, a) && x in Join(head, a)
    ensures BackOk(Join(head, a), JoinFeet(head, foot, a), x)
  {
    hide Tagged;
    var b := Next(head, a);
    Neighbours(head, foot, base, top, a);
    Neighbours(head, foot, base, top, b);
    PlaceAt(head, foot, base, top, x);
    if !head[x].pinuse && x != Next(head, b) {
      var y := x - foot[x];
      PlaceAt(head, foot, base, top, y);
      Neighbours(head, foot, base, top, y);
    }
  }

  lemma JoinLink(head: Heads, foot: Feet, base: int, top: int, a: int, x: int)
    requires CanJoin(head, foot, base, top, a) && x in Join(head, a) && x != top
    ensures LinkOk(Join(head, a), JoinFeet(head, foot, a), x)
  {
    hide Tagged;
    var b := Next(head, a);
    Neighbours(head, foot, base, top, a);
    Neighbours(head, foot, base, top, b);
    Neighbours(head, foot, base, top, x);
    if Next(head, x) == b {
      OnePredecessor(head, foot, base, top, a, x);
    }
    if Next(head, x) == Next(head, b) {
      OnePredecessor(head, foot, base, top, b, x);
    }
  }

  lemma PlaceAt(head: Heads, foot: Feet, base: int, top: int, x: int)
    requires Tagged(head, foot, base, top) && x in head
    ensures BackOk(head, foot, x) && PlaceOk(base, top, x) && head[top].pinuse && !head[top].cinuse
  {
  }

  lemma JoinAt(head: Heads, foot: Feet, base: int, top: int, a: int, x: int)
    requires CanJoin(head, foot, base, top, a) && x in Join(head, a)
    ensures x != top ==> LinkOk(Join(head, a), JoinFeet(head, foot, a), x)
    ensures BackOk(Join(head, a), JoinFeet(head, foot, a), x)
    ensures PlaceOk(base, top, x)
  {
    hide Tagged, LinkOk, BackOk;
    JoinBack(head, foot, base, top, a, x);
    PlaceAt(head, foot, base, top, x);
    if x != top {
      JoinLink(head, foot, base, top, a, x);
    }
  }

  lemma JoinApart(head: Heads, foot: Feet, base: int, top: int, a: int, x: int, y: int)
    requires CanJoin(head, foot, base, top, a)
    ensures ApartAt(Join(head, a), x, y)
  {
    var b := Next(head, a);
    Neighbours(head, foot, base, top, a);
    assert ApartAt(head, x, y) && ApartAt(head, b, y);
    assert ApartAt(head, y, b);
  }

  /** The ends of the heap stay where they are. */
  lemma JoinEnds(head: Heads, foot: Feet, base: int, top: int, a: int)
    requires CanJoin(head, foot, base, top, a)
    ensures base in Join(head, a) && Join(head, a)[base].pinuse
    ensures top in Join(head, a) && Join(head, a)[top] == head[top]
    ensures forall y | y in JoinFeet(head, foot, a) :: y in Join(head, a)
  {
    Neighbours(head, foot, base, top, a);
    Neighbours(head, foot, base, top, Next(head, a));
    forall y | y in JoinFeet(head, foot, a) ensures y in Join(head, a) {
      assert y in foot && y in head;
    }
  }

  lemma JoinOk(head: Heads, foot: Feet, base: int, top: int, a: int)
    requires CanJoin(head, foot, base, top, a)
    ensures Tagged(Join(head, a), JoinFeet(head, foot, a), base, top)
  {
    var head', foot' := Join(head, a), JoinFeet(head, foot, a);
    JoinEnds(head, foot, base, top, a);
    forall x | x in head'
      ensures x != top ==> LinkOk(head', foot', x)
      ensures BackOk(head', foot', x) && PlaceOk(base, top, x)
    {
      JoinAt(head, foot, base, top, a, x);
    }
    forall x, y ensures ApartAt(head', x, y) {
      JoinApart(head, foot, base, top, a, x, y);
    }
  }

  // ---- steps at the top chunk ---------------------------------------------------------------

  /** The front of top becomes a used chunk. */
  ghost function CutTop(head: Heads, top: int, nb: nat): Heads
    requires top in head && nb <= head[top].size
  {
    head[top := Head(nb, true, true)][top + nb := Head(head[top].size - nb, true, false)]
  }

  lemma CutTopAt(head: Heads, foot: Feet, base: int, top: int, nb: nat, x: int)
    requires Tagged(head, foot, base, top) && MIN_CHUNK_SIZE <= nb < head[top].size && nb % 16 == 0
    requires x in CutTop(head, top, nb)
    ensures top + nb !in head
    ensures x != top + nb ==> LinkOk(CutTop(head, top, nb), foot, x)
    ensures BackOk(CutTop(head, top, nb), foot, x) && PlaceOk(base, top + nb, x)
  {
    assert ApartAt(head, top, top + nb);
    assert PlaceOk(base, top, top) && BackOk(head, foot, top);
    if x != top + nb && x != top {
      Neighbours(head, foot, base, top, x);
    }
  }

  lemma CutTopApart(head: Heads, foot: Feet, base: int, top: int, nb: nat, x: int, y: int)
    requires Tagged(head, foot, base, top) && nb < head[top].size
    ensures ApartAt(CutTop(head, top, nb), x, y)
  {
    assert ApartAt(head, x, y) && ApartAt(head, x, top);
    assert x in head ==> PlaceOk(base, top, x);
    assert y in head ==> PlaceOk(base, top, y);
  }

  lemma CutTopOk(head: Heads, foot: Feet, base: int, top: int, nb: nat)
    requires Tagged(head, foot, base, top)
    requires MIN_CHUNK_SIZE <= nb < head[top].size && nb % 16 == 0
    ensures top + nb !in head
    ensures Tagged(CutTop(head, top, nb), foot, base, top + nb)
  {
    var head', r := CutTop(head, top, nb), top + nb;
    CutTopAt(head, foot, base, top, nb, r);
    forall x | x in head'
      ensures x != r ==> LinkOk(head', foot, x)
      ensures BackOk(head', foot, x) && PlaceOk(base, r, x)
    {
      CutTopAt(head, foot, base, top, nb, x);
    }
    forall x, y ensures ApartAt(head', x, y) {
      CutTopApart(head, foot, base, top, nb, x, y);
    }
  }

  /** The used chunk below top, with a used chunk before it, is merged into top. */
  ghost function MeltIntoTop(head: Heads, top: int, a: int): Heads
    requires a in head && top in head
  {
    (head - {top})[a := Head(head[a].size + head[top].size, true, false)]
  }

  lemma MeltIntoTopAt(head: Heads, foot: Feet, base: int, top: int, a: int, x: int)
    requires Tagged(head, foot, base, top) && a in head && a != top && Next(head, a) == top && head[a].pinuse
    requires x in MeltIntoTop(head, top, a)
    ensures x != a ==> LinkOk(MeltIntoTop(head, top, a), foot, x)
    ensures BackOk(MeltIntoTop(head, top, a), foot, x) && PlaceOk(base, a, x)
  {
    Neighbours(head, foot, base, top, a);
    if x != a {
      Neighbours(head, foot, base, top, x);
      assert ApartAt(head, a, x);
      if Next(head, x) == top {
        OnePredecessor(head, foot, base, top, a, x);
      }
    }
  }

  lemma MeltIntoTopOk(head: Heads, foot: Feet, base: int, top: int, a: int)
    requires Tagged(head, foot, base, top) && a in head && a != top && Next(head, a) == top && head[a].pinuse
    ensures Tagged(MeltIntoTop(head, top, a), foot, base, a)
  {
    var head' := MeltIntoTop(head, top, a);
    Neighbours(head, foot, base, top, a);
    forall x | x in head'
      ensures x != a ==> LinkOk(head', foot, x)
      ensures BackOk(head', foot, x) && PlaceOk(base, a, x)
    {
      MeltIntoTopAt(head, foot, base, top, a, x);
    }
    forall x, y ensures ApartAt(head', x, y) {
      MeltIntoTopApart(head, foot, base, top, a, x, y);
    }
  }

  lemma MeltIntoTopApart(head: Heads, foot: Feet, base: int, top: int, a: int, x: int, y: int)
    requires Tagged(head, foot, base, top) && a in head && a != top && Next(head, a) == top && head[a].pinuse
    ensures ApartAt(MeltIntoTop(head, top, a), x, y)
  {
    assert ApartAt(head, x, y);
    if y in head && y != top {
      Neighbours(head, foot, base, top, y);
    }
  }

  /** The used chunk below top grows into it. */
  ghost function GrowIntoTop(head: Heads, top: int, a: int, nb: nat): Heads
    requires a in head && top in head && nb <= head[a].size + head[top].size
  {
    (head - {top})[a := head[a].(size := nb)][a + nb := Head(head[a].size + head[top].size - nb, true, false)]
  }

  lemma GrownIs(head: Heads, top: int, a: int, nb: nat)
    requires a in head && top in head && nb <= head[a].size + head[top].size
    ensures var rest := head[a].size + head[top].size - nb;
            GrowIntoTop(head, top, a, nb) ==
            (head - {top})[a := head[a].(size := nb)][a + nb := Head(rest, true, false)]
  {
  }

  ghost predicate CanGrow(head: Heads, foot: Feet, base: int, top: int, a: int, nb: nat) {
    && Tagged(head, foot, base, top) && Used(head, a) && Next(head, a) == top
    && head[a].size < nb < head[a].size + head[top].size && nb % 16 == 0
  }

  lemma GrowIntoTopAt(head: Heads, foot: Feet, base: int, top: int, a: int, nb: nat, x: int)
    requires CanGrow(head, foot, base, top, a, nb) && x in GrowIntoTop(head, top, a, nb)
    ensures a + nb !in head
    ensures x != a + nb ==> LinkOk(GrowIntoTop(head, top, a, nb), foot, x)
    ensures BackOk(GrowIntoTop(head, top, a, nb), foot, x) && PlaceOk(base, a + nb, x)
  {
    Neighbours(head, foot, base, top, a);
    assert a + nb in head ==> PlaceOk(base, top, a + nb);
    if x != a + nb {
      Neighbours(head, foot, base, top, x);
      if Next(head, x) == top {
        OnePredecessor(head, foot, base, top, a, x);
      }
    }
  }

  lemma GrowIntoTopApart(head: Heads, foot: Feet, base: int, top: int, a: int, nb: nat, x: int, y: int)
    requires CanGrow(head, foot, base, top, a, nb)
    ensures ApartAt(GrowIntoTop(head, top, a, nb), x, y)
  {
    assert ApartAt(head, x, y) && ApartAt(head, a, y) && ApartAt(head, x, a);
    if x in head && x != top {
      Neighbours(head, foot, base, top, x);
    }
    if y in head && y != top {
      Neighbours(head, foot, base, top, y);
    }
  }

  lemma GrowIntoTopOk(head: Heads, foot: Feet, base: int, top: int, a: int, nb: nat)
    requires CanGrow(head, foot, base, top, a, nb)
    ensures a + nb !in head
    ensures Tagged(GrowIntoTop(head, top, a, nb), foot, base, a + nb)
  {
    var head', r := GrowIntoTop(head, top, a, nb), a + nb;
    GrowIntoTopAt(head, foot, base, top, a, nb, a);
    GrowIntoTopEnds(head, foot, base, top, a, nb);
    forall x | x in head'
      ensures x != r ==> LinkOk(head', foot, x)
      ensures BackOk(head', foot, x) && PlaceOk(base, r, x)
    {
      GrowIntoTopAt(head, foot, base, top, a, nb, x);
    }
    forall x, y ensures ApartAt(head', x, y) {
      GrowIntoTopApart(head, foot, base, top, a, nb, x, y);
    }
  }

  lemma GrowIntoTopEnds(head: Heads, foot: Feet, base: int, top: int, a: int, nb: nat)
    requires CanGrow(head, foot, base, top, a, nb)
    ensures base in GrowIntoTop(head, top, a, nb) && GrowIntoTop(head, top, a, nb)[base].pinuse
    ensures forall y | y in foot :: y in GrowIntoTop(head, top, a, nb)
  {
    Neighbours(head, foot, base, top, a);
    assert PlaceOk(base, top, a);
  }

  /** Memory was added behind top or given back from its end. */
  ghost function ResizeTop(head: Heads, top: int, size: nat): Heads
    requires top in head
  {
    head[top := head[top].(size := size)]
  }

  lemma ResizeTopAt(head: Heads, foot: Feet, base: int, top: int, size: nat, x: int)
    requires Tagged(head, foot, base, top) && size > 0 && x in head
    ensures x != top ==> LinkOk(ResizeTop(head, top, size), foot, x)
    ensures BackOk(ResizeTop(head, top, size), foot, x)
  {
    assert BackOk(head, foot, x) && PlaceOk(base, top, x);
    if x != top {
      Neighbours(head, foot, base, top, x);
    }
  }

  lemma ResizeTopOk(head: Heads, foot: Feet, base: int, top: int, size: nat)
    requires Tagged(head, foot, base, top) && size > 0
    ensures Tagged(ResizeTop(head, top, size), foot, base, top)
  {
    var head' := ResizeTop(head, top, size);
    forall x | x in head'
      ensures x != top ==> LinkOk(head', foot, x)
      ensures BackOk(head', foot, x) && PlaceOk(base, top, x)
    {
      ResizeTopAt(head, foot, base, top, size, x);
    }
    forall x, y ensures ApartAt(head', x, y) {
      assert ApartAt(head, x, y);
      assert y in head ==> PlaceOk(base, top, y);
    }
  }
}
