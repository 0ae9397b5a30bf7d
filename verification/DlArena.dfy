/** The allocator (dlmalloc, dlfree, dlrealloc, memalign and the functions below them in
    common/malloc.c, over kheap_sbrk in common/heap.c), in the configuration of
    include/kern/malloc-params.h: one segment that grows by sbrk, no mmap, no footers. */
module DlArena {
  import opened DlBits
  import opened DlBins
  import opened DlChunks
  import opened DlSearch
  import opened DlTags
  import opened DlTrie
  import opened Options

  const TOP_FOOT_SIZE: nat := 80
  const HALF_MAX: nat := 0x8000_0000_0000_0000

  /** The bins hold the free chunks, except the designated victim. */
  ghost predicate BinsMatch(bins: Bins, free: iset<Chunk>, dv: int)
    requires bins.Valid()
    reads bins
  {
    forall e :: bins.Holds(e) <==> e in free && e.addr != dv
  }

  /** Chunk sizes that requests are padded to. */
  predicate PaddedSize(nb: nat) {
    MIN_CHUNK_SIZE <= nb && nb % 16 == 0
  }

  /** Addition of machine words. */
  function Add(a: nat, b: nat): (r: nat)
    ensures r < 0x1_0000_0000_0000_0000
  {
    (a + b) % 0x1_0000_0000_0000_0000
  }

  lemma PagesAligned(k: nat)
    ensures (4096 * k) % 16 == 0
  {
  }

  function PageStart(t: nat): (r: nat)
    ensures r % 16 == 0 && r <= t < r + 4096
  {
    PagesAligned(t / 4096);
    t - t % 4096
  }

  /** granularity_align and page_align: up to the next multiple of 4096, in machine words. */
  function AlignUp(s: nat): (r: nat)
    requires s < 0x1_0000_0000_0000_0000
    ensures r % 16 == 0 && r < 0x1_0000_0000_0000_0000
    ensures s <= 0x1_0000_0000_0000_0000 - 4096 ==> s <= r < s + 4096
    ensures s > 0x1_0000_0000_0000_0000 - 4096 ==> r == 0
  {
    PageStart(Add(s, 4095))
  }

  lemma AddIs(a: nat, b: nat)
    requires a < 0x1_0000_0000_0000_0000 && b < 0x1_0000_0000_0000_0000
    ensures Add(a, b) == if a + b < 0x1_0000_0000_0000_0000 then a + b else a + b - 0x1_0000_0000_0000_0000
  {
  }

  lemma PageOrder(s: nat, t: nat)
    requires s <= t
    ensures PageStart(s) <= PageStart(t)
  {
    assert s - s % 4096 == 4096 * (s / 4096) && t - t % 4096 == 4096 * (t / 4096);
    assert s / 4096 <= t / 4096;
  }

  lemma PagesGrow(s: nat, t: nat)
    requires s <= t <= 0x1_0000_0000_0000_0000 - 4096
    ensures AlignUp(s) <= AlignUp(t)
  {
    AddIs(s, 4095);
    AddIs(t, 4095);
    hide Add, PageStart;
    PageOrder(s + 4095, t + 4095);
  }

  lemma MultipleOfEight(s: nat)
    requires s % 16 == 0
    ensures s % 8 == 0
  {
    assert s == 8 * (2 * (s / 16));
  }

  lemma Multiples(a: nat, b: nat, c: nat)
    requires a % 16 == 0 && b % 16 == 0 && c % 16 == 0
    ensures (a + (b - c)) % 16 == 0
  {
  }

  /** The whole pages in `d` bytes, keeping at least one byte and at most a page. */
  function SparePages(d: nat): (r: nat)
    requires d > 0
    ensures r % 16 == 0 && r < d <= r + 4096
  {
    PagesAligned((d + 4095) / 4096 - 1);
    ((d + 4095) / 4096 - 1) * 4096
  }

  /** request2size: the chunk size for a request of `bytes` bytes. */
  function Pad(bytes: nat): (nb: nat)
    ensures PaddedSize(nb) && bytes + 8 <= nb && (nb < bytes + 24 || nb == 32)
  {
    if bytes < 23 then MIN_CHUNK_SIZE else (bytes + 23) / 16 * 16
  }

  const MAX_REQUEST: nat := 0x1_0000_0000_0000_0000 - 128
  const MAX_SIZE_T: nat := 0x1_0000_0000_0000_0000 - 1

  /** The request of internal_memalign: room for the block behind any leader. */
  function Roomy(bytes: nat, alignment: nat): (req: nat)
    requires bytes < MAX_REQUEST - alignment
    ensures req == Pad(bytes) + alignment + 24 && req <= MAX_SIZE_T
  {
    Pad(bytes) + alignment + MIN_CHUNK_SIZE - 8
  }

  /** The chunk size dlmalloc looks for: a request it refuses asks for more than there can be. */
  function Wanted(bytes: nat): (nb: nat)
    requires bytes <= MAX_SIZE_T
    ensures if bytes < MAX_REQUEST then nb == Pad(bytes) < MAX_SIZE_T else nb == MAX_SIZE_T
  {
    if bytes >= MAX_REQUEST then MAX_SIZE_T else Pad(bytes)
  }

  /** A request looks in the small bins exactly up to 232 bytes. */
  lemma WantedIs(bytes: nat)
    requires bytes <= MAX_SIZE_T
    ensures bytes < MAX_REQUEST ==> Wanted(bytes) == Pad(bytes) && PaddedSize(Wanted(bytes)) && IsSize(Wanted(bytes))
    ensures bytes >= MAX_REQUEST ==> Wanted(bytes) == MAX_SIZE_T
    ensures bytes < MAX_REQUEST ==> (bytes <= 232 <==> IsSmall(Wanted(bytes)))
  {
  }

  /** What `while (a < k) a <<= 1` reaches from 2^j: the least power of two from there on that is at
      least `k`; the result is its exponent. */
  function RaiseTo(j: nat, k: nat): (r: nat)
    ensures j <= r && k <= Pow2(r) && (r == j || Pow2(r - 1) < k)
    decreases k - Pow2(j)
  {
    if Pow2(j) >= k then j else RaiseTo(j + 1, k)
  }

  /** Powers of two from 32 on are multiples of 16, and those that fit in a word are not above
      MAX_REQUEST. */
  lemma PowersOfTwo(j: nat)
    requires 5 <= j
    ensures Pow2(j) >= 32 && Pow2(j) % 16 == 0
    ensures Pow2(j) <= MAX_SIZE_T ==> Pow2(j) <= MAX_REQUEST
  {
    assert Pow2(j) == 2 * Pow2(j - 1) && Pow2(j - 1) == 2 * Pow2(j - 2);
    assert Pow2(j - 2) == 2 * Pow2(j - 3) && Pow2(j - 3) == 2 * Pow2(j - 4) && Pow2(j - 4) == 2 * Pow2(j - 5);
    if j >= 7 {
      assert Pow2(j - 5) == 2 * Pow2(j - 6) && Pow2(j - 6) == 2 * Pow2(j - 7);
    } else {
      assert Pow2(1) == 2 && Pow2(0) == 1;
    }
  }

  lemma MultipleOf(k: nat, a: nat)
    requires 0 < a
    ensures (k * a) % a == 0
  {
    var d := k - k * a / a;
    assert d * a == k * a % a;
    assert d >= 1 ==> d * a >= a;
    assert d <= -1 ==> d * a + a <= 0;
  }

  predicate AlignedTo(x: int, a: nat)
    requires 0 < a
  {
    x % a == 0
  }

  lemma Sixteens(r: int, a: nat)
    requires 0 < a && a % 16 == 0 && r >= 0 && (AlignedTo(r, a) || (r >= a && AlignedTo(r - a, a)))
    ensures r % 16 == 0 && AlignedTo(r, a)
  {
    var k := if r % a == 0 then r / a else (r - a) / a + 1;
    assert r == k * a;
    assert k * a == 16 * (k * (a / 16));
    MultipleOf(k, a);
  }

  lemma StepsOfSixteen(p: int, r: int, a: int)
    requires p % 16 == 0 && r % 16 == 0 && a % 16 == 0 && p + 16 < r
    ensures p + 32 <= r && (r - 16) % 16 == 0 && (r - 16 + a) % 16 == 0
  {
  }

  /** `(x + a - 1) & -a` for a power of two `a`. */
  function RoundUp(x: nat, a: nat): (r: nat)
    requires 0 < a
    ensures AlignedTo(r, a) && x <= r < x + a
  {
    MultipleOf((x + a - 1) / a, a);
    (x + a - 1) / a * a
  }

  ghost predicate Fits(free: iset<Chunk>, e: Chunk, nb: nat) {
    e in free && nb <= e.size
  }

  /** `e` is a smallest of the free chunks that can hold `nb` bytes. */
  ghost predicate BestFit(free: iset<Chunk>, e: Chunk, nb: nat) {
    Fits(free, e, nb) && forall x | Fits(free, x, nb) :: e.size <= x.size
  }

  lemma SubIs(a: nat, b: nat)
    requires a <= MAX_SIZE_T && b <= MAX_SIZE_T
    ensures Sub(a, b) == if a < b then a - b + 0x1_0000_0000_0000_0000 else a - b
  {
  }

  lemma LargerIsLarge(nb: nat)
    requires !IsSmall(nb)
    ensures forall s: nat | nb <= s :: !IsSmall(s)
  {
  }

  /** Where a small request takes its chunk from: a binned chunk without a remainder, else the
      designated victim, else the smallest chunk that fits. */
  ghost predicate SmallChoice(free: iset<Chunk>, dv: int, dvsize: nat, e: Chunk, nb: nat) {
    && Fits(free, e, nb)
    && (e.addr == dv <==> nb <= dvsize && forall x | Fits(free, x, nb) && x.addr != dv :: nb + 8 < x.size)
    && (e.addr != dv ==> forall x | Fits(free, x, nb) && x.addr != dv :: e.size <= x.size)
  }

  /** Where a large request takes its chunk from: the smallest chunk that fits, and the designated
      victim unless a binned chunk fits strictly better. */
  ghost predicate LargeChoice(free: iset<Chunk>, dv: int, dvsize: nat, e: Chunk, nb: nat) {
    && BestFit(free, e, nb)
    && (e.addr == dv <==> nb <= dvsize && forall x | Fits(free, x, nb) :: dvsize <= x.size)
  }

  /** Chunk `e` gives `got` bytes for a request of `nb`: all but a rest that can be a chunk itself,
      which stays free. */
  ghost predicate Cut(free: iset<Chunk>, free': iset<Chunk>, e: Chunk, nb: nat, got: nat) {
    && got == (if nb + MIN_CHUNK_SIZE <= e.size then nb else e.size)
    && free' == free - iset{e} + (if got < e.size then iset{Chunk(e.addr + nb, e.size - nb)} else iset{})
  }

  class Arena {
    const kstart: int
    const kend: int
    var kcur: int

    const bins: Bins
    var head: Heads
    var foot: Feet
    var base: int
    var top: int
    var topsize: nat
    var dv: int
    var dvsize: nat
    var trimCheck: nat
    var contiguous: bool

    ghost function FreeSet(): iset<Chunk>
      reads this
    {
      FreeChunks(head, top)
    }

    ghost function UsedSet(): iset<Chunk>
      reads this
    {
      UsedChunks(head)
    }

    /** The kernel heap behind the arena; nothing else moves its break once malloc has started. */
    ghost predicate BreakOk()
      reads this
    {
      && 16 <= kstart <= kcur < kend < HALF_MAX && kcur % 16 == 0
      && (top != 0 ==> top + topsize + TOP_FOOT_SIZE == kcur)
    }

    ghost predicate TagsOk()
      reads this
    {
      if top == 0 then
        head == map[] && foot == map[] && topsize == 0
      else
        && 16 <= kstart <= base && Tagged(head, foot, base, top)
        && head[top].size == topsize && topsize % 16 == 0
    }

    ghost predicate DvOk()
      reads this
    {
      if dv == 0 then dvsize == 0 else dvsize > 0 && Chunk(dv, dvsize) in FreeSet()
    }

    /** do_check_malloc_state, but for the designated victim. */
    ghost predicate Loose()
      reads this, bins
    {
      BreakOk() && TagsOk() && bins.Valid() && BinsMatch(bins, FreeSet(), dv)
    }

    ghost predicate Core()
      reads this, bins
    {
      Loose() && DvOk()
    }

    constructor (start: int, cur: int, end: int)
      requires 16 <= start <= cur < end < HALF_MAX && cur % 16 == 0
      ensures Core() && top == 0 && contiguous && kcur == cur && kstart == start && kend == end
      ensures UsedSet() == iset{} && FreeSet() == iset{}
      ensures fresh(bins)
    {
      kstart, kend, kcur := start, end, cur;
      bins := new Bins();
      head, foot, base, top, topsize := map[], map[], 0, 0, 0;
      dv, dvsize, trimCheck, contiguous := 0, 0, 0, true;
    }

    // ---- facts about chunks -----------------------------------------------------------------

    /** Sizes and places of chunks in use. */
    lemma UsedFacts(e: Chunk)
      requires TagsOk() && BreakOk() && e in UsedSet()
      ensures top != 0 && 16 <= kstart <= e.addr && e.addr % 16 == 0 && e.addr != top && e.addr + e.size <= top
      ensures 32 <= e.size < HALF_MAX && e.size % 16 == 0
      ensures e.addr + e.size in head && head[e.addr + e.size].pinuse
      ensures !head[e.addr].pinuse ==> e.addr in foot && Chunk(e.addr - foot[e.addr], foot[e.addr]) in FreeSet()
    {
      Neighbours(head, foot, base, top, e.addr);
      assert PlaceOk(base, top, e.addr);
      if !head[e.addr].pinuse {
        assert PlaceOk(base, top, e.addr - foot[e.addr]);
      }
    }

    /** A free chunk lies between used chunks. */
    lemma FreeFacts(e: Chunk)
      requires TagsOk() && BreakOk() && e in FreeSet()
      ensures top != 0 && e.addr >= 16 && e.addr % 16 == 0 && e.addr != top && e.addr + e.size < top
      ensures 32 <= e.size < HALF_MAX && e.size % 16 == 0 && ChunkSize(e.size)
      ensures head[e.addr].pinuse && Used(head, e.addr + e.size) && e.addr + e.size != top
    {
      Neighbours(head, foot, base, top, e.addr);
      MultipleOfEight(e.size);
    }

    lemma UsedIs(e: Chunk)
      requires e in UsedSet()
      ensures Used(head, e.addr) && head[e.addr].size == e.size
    {
    }

    lemma TopFacts()
      requires TagsOk() && top != 0
      ensures top in head && head[top] == Head(topsize, true, false) && topsize > 0
    {
    }

    /** A chunk is known by its address. */
    lemma OneAtEach()
      ensures forall e, x | e in FreeSet() && x in FreeSet() && e.addr == x.addr :: e == x
      ensures forall e | e in FreeSet() :: e.addr in head
    {
    }

    lemma NoneAtZero()
      requires TagsOk() && BreakOk()
      ensures 0 !in head
      ensures forall e | e in FreeSet() :: e.addr != 0
    {
      assert top != 0 && 0 in head ==> PlaceOk(base, top, 0);
    }

    /** Conservation: walked from the base, the chunks, in use, free or top, make up all the memory
        obtained from the kernel heap but the bytes kept back behind top. */
    lemma NoByteLost()
      requires Core() && top != 0
      ensures var s := Traverse(head, foot, base, top, base);
              && (forall i | 0 <= i < |s| :: s[i] in head) && (forall a | a in head :: a in s)
              && TotalSize(head, s) + TOP_FOOT_SIZE == kcur - base
    {
      hide BinsMatch;
      var s := Traverse(head, foot, base, top, base);
      TraverseAddsUp(head, foot, base, top, base);
      forall a | a in head ensures a in s {
        assert PlaceOk(base, top, a);
        TraverseMeetsAll(head, foot, base, top, base, a);
      }
    }

    // ---- steps on the tags ------------------------------------------------------------------

    /** set_inuse_and_pinuse(p, s) */
    method UseWhole(p: int, s: nat)
      requires BreakOk() && TagsOk() && Chunk(p, s) in FreeSet()
      modifies this`head, this`foot
      ensures BreakOk() && TagsOk() && p != top && p !in old(foot)
      ensures FreeSet() == old(FreeSet()) - iset{Chunk(p, s)}
      ensures UsedSet() == old(UsedSet()) + iset{Chunk(p, s)}
      ensures p in head && head[p].pinuse && Used(head, p + s) && head.Keys == old(head.Keys)
    {
      FreeFacts(Chunk(p, s));
      TakeOk(head, foot, base, top, p);
      TakeEffect(head, foot, base, top, p);
      assert BackOk(head, foot, p);
      var n := p + s;
      foot := foot - {n};
      head := head[p := head[p].(cinuse := true)][n := head[n].(pinuse := true)];
    }

    /** set_inuse(p, nb), set_inuse(p + nb, s - nb) */
    method SplitUsed(p: int, s: nat, nb: nat)
      requires BreakOk() && TagsOk() && Chunk(p, s) in UsedSet() && PaddedSize(nb) && nb + MIN_CHUNK_SIZE <= s
      modifies this`head
      ensures BreakOk() && TagsOk() && p + nb !in old(head)
      ensures FreeSet() == old(FreeSet())
      ensures UsedSet() == old(UsedSet()) - iset{Chunk(p, s)} + iset{Chunk(p, nb), Chunk(p + nb, s - nb)}
      ensures p in head && head[p].pinuse == old(head[p].pinuse) && p + nb in head && head[p + nb].pinuse
      ensures Used(head, p + s) == old(Used(head, p + s)) && (p + s == top <==> p + s == old(top))
    {
      UsedFacts(Chunk(p, s));
      SplitParts(head, foot, base, top, p, nb);
      SplitOk(head, foot, base, top, p, nb);
      SplitEffect(head, foot, base, top, p, nb);
      head := head[p := head[p].(size := nb)][p + nb := Head(s - nb, true, true)];
    }

    /** set_free_with_pinuse(p, s, p + s), between chunks in use */
    method FreeWhole(p: int, s: nat)
      requires BreakOk() && TagsOk() && Chunk(p, s) in UsedSet() && head[p].pinuse && Used(head, p + s)
      modifies this`head, this`foot
      ensures BreakOk() && TagsOk()
      ensures FreeSet() == old(FreeSet()) + iset{Chunk(p, s)}
      ensures UsedSet() == old(UsedSet()) - iset{Chunk(p, s)}
    {
      UsedFacts(Chunk(p, s));
      Neighbours(head, foot, base, top, p);
      ReleaseOk(head, foot, base, top, p);
      ReleaseEffect(head, foot, base, top, p);
      var n := p + s;
      foot := foot[n := s];
      head := head[p := head[p].(cinuse := false)][n := head[n].(pinuse := false)];
    }

    lemma CanJoinHere(p: int, s: nat, t: nat)
      requires BreakOk() && TagsOk()
      requires Chunk(p, s) in UsedSet() + FreeSet() && Chunk(p + s, t) in UsedSet() + FreeSet()
      ensures top != 0 && p in head && head[p].size == s && p + s in head && head[p + s].size == t
      ensures CanJoin(head, foot, base, top, p) && p + s + t in head && 0 < s && 0 < t
    {
      Neighbours(head, foot, base, top, p);
      Neighbours(head, foot, base, top, p + s);
    }

    /** Merges chunk `p` of size `s` with the chunk of size `t` behind it; the result is in use. */
    method JoinNext(p: int, s: nat, t: nat)
      requires BreakOk() && TagsOk()
      requires Chunk(p, s) in UsedSet() + FreeSet() && Chunk(p + s, t) in UsedSet() + FreeSet()
      modifies this`head, this`foot
      ensures BreakOk() && TagsOk()
      ensures FreeSet() == old(FreeSet()) - iset{Chunk(p, s), Chunk(p + s, t)}
      ensures UsedSet() == old(UsedSet()) - iset{Chunk(p, s), Chunk(p + s, t)} + iset{Chunk(p, s + t)}
      ensures p in head && head[p].pinuse == old(head[p].pinuse)
      ensures Used(head, p + s + t) == old(Used(head, p + s + t))
      ensures Free(head, top, p + s + t) == old(Free(head, top, p + s + t))
      ensures p + s + t in head && head[p + s + t].size == old(head[p + s + t].size)
    {
      hide Tagged, FreeChunks, UsedChunks;
      CanJoinHere(p, s, t);
      JoinOk(head, foot, base, top, p);
      JoinEffect(head, foot, base, top, p);
      JoinEnds(head, foot, base, top, p);
      var n := p + s + t;
      ghost var joined := Join(head, p);
      foot := foot - {p + s, n};
      head := (head - {p + s})[p := Head(s + t, head[p].pinuse, true)][n := head[n].(pinuse := true)];
      assert head == joined;
    }

    /** Cuts `nb` bytes off the front of top. */
    method UseTop(nb: nat) returns (p: int)
      requires BreakOk() && TagsOk() && PaddedSize(nb) && nb < topsize
      modifies this`head, this`top, this`topsize
      ensures BreakOk() && TagsOk() && p == old(top) && p != 0 && top != 0
      ensures FreeSet() == old(FreeSet())
      ensures UsedSet() == old(UsedSet()) + iset{Chunk(p, nb)}
      ensures topsize == old(topsize) - nb
    {
      CutTopOk(head, foot, base, top, nb);
      CutTopEffect(head, foot, base, top, nb);
      assert PlaceOk(base, top, top);
      p := top;
      var rsize := topsize - nb;
      head := head[top := Head(nb, true, true)][top + nb := Head(rsize, true, false)];
      top, topsize := p + nb, rsize;
    }

    /** Merges the used chunk below top into top. */
    method MeltTop(p: int, s: nat)
      requires BreakOk() && TagsOk() && Chunk(p, s) in UsedSet() && p + s == top && head[p].pinuse
      modifies this`head, this`top, this`topsize
      ensures BreakOk() && TagsOk() && top == p && topsize == old(topsize) + s
      ensures FreeSet() == old(FreeSet())
      ensures UsedSet() == old(UsedSet()) - iset{Chunk(p, s)}
    {
      UsedFacts(Chunk(p, s));
      MeltIntoTopOk(head, foot, base, top, p);
      MeltEffect(head, foot, base, top, p);
      var tsize := s + topsize;
      head := (head - {top})[p := Head(tsize, true, false)];
      top, topsize := p, tsize;
    }

    /** Lets the used chunk below top grow to `nb` bytes. */
    method GrowTop(p: int, s: nat, nb: nat)
      requires BreakOk() && TagsOk() && Chunk(p, s) in UsedSet() && p + s == top
      requires s < nb < s + topsize && nb % 16 == 0
      modifies this`head, this`top, this`topsize
      ensures BreakOk() && TagsOk()
      ensures FreeSet() == old(FreeSet())
      ensures UsedSet() == old(UsedSet()) - iset{Chunk(p, s)} + iset{Chunk(p, nb)}
    {
      hide Tagged, FreeChunks, UsedChunks, LinkOk, BackOk, GrowIntoTop;
      UsedIs(Chunk(p, s));
      UsedFacts(Chunk(p, s));
      TopFacts();
      GrowIntoTopOk(head, foot, base, top, p, nb);
      GrowEffect(head, foot, base, top, p, nb);
      GrownIs(head, top, p, nb);
      var newtopsize := s + topsize - nb;
      head := (head - {top})[p := head[p].(size := nb)][p + nb := Head(newtopsize, true, false)];
      top, topsize := p + nb, newtopsize;
    }

    // ---- allocation from free chunks --------------------------------------------------------

    /** Takes `nb` bytes from the front of a free chunk; a rest too small to be a chunk goes along,
        any other rest stays free as chunk `p + nb`. */
    method Carve(p: int, s: nat, nb: nat) returns (got: nat)
      requires BreakOk() && TagsOk() && Chunk(p, s) in FreeSet() && PaddedSize(nb) && nb <= s
      modifies this`head, this`foot
      ensures BreakOk() && TagsOk() && nb <= got < nb + MIN_CHUNK_SIZE && (got == nb || got == s)
      ensures got < s <==> MIN_CHUNK_SIZE <= s - nb
      ensures Cut(old(FreeSet()), FreeSet(), Chunk(p, s), nb, got)
      ensures UsedSet() == old(UsedSet()) + iset{Chunk(p, got)}
      ensures got < s ==> p + nb !in old(head)
    {
      FreeFacts(Chunk(p, s));
      UseWhole(p, s);
      got := s;
      if s - nb >= MIN_CHUNK_SIZE {
        SplitUsed(p, s, nb);
        FreeWhole(p + nb, s - nb);
        got := nb;
      }
    }

    /** Takes chunk `e` out of its bin and carves `nb` bytes from it; the rest is in no bin yet. */
    method TakeBinned(e: Chunk, nb: nat) returns (got: nat)
      requires Core() && bins.Holds(e) && PaddedSize(nb) && nb <= e.size
      modifies this`head, this`foot, bins
      ensures BreakOk() && TagsOk() && DvOk() && bins.Valid() && Cut(old(FreeSet()), FreeSet(), e, nb, got)
      ensures got < e.size ==> ChunkSize(e.size - nb) && Chunk(e.addr + nb, e.size - nb) in FreeSet()
      ensures got < e.size ==> e.addr + nb >= 16
      ensures forall x :: bins.Holds(x) <==> x in old(FreeSet()) - iset{e} && x.addr != dv
      ensures UsedSet() == old(UsedSet()) + iset{Chunk(e.addr, got)}
      ensures got < e.size ==> e.addr + nb !in old(head)
    {
      hide Tagged, bins.Holds, bins.Valid;
      FreeFacts(e);
      bins.UnlinkChunk(e.addr, e.size);
      got := Carve(e.addr, e.size, nb);
      if got < e.size {
        FreeFacts(Chunk(e.addr + nb, e.size - nb));
      }
    }

    /** The end of tmalloc_large: the rest goes to a bin. */
    method TakeAndBin(e: Chunk, nb: nat) returns (got: nat)
      requires Core() && bins.Holds(e) && PaddedSize(nb) && nb <= e.size
      modifies this`head, this`foot, bins
      ensures Core() && Cut(old(FreeSet()), FreeSet(), e, nb, got)
      ensures UsedSet() == old(UsedSet()) + iset{Chunk(e.addr, got)}
    {
      hide Tagged, bins.Holds, bins.Valid;
      got := TakeBinned(e, nb);
      if got < e.size {
        bins.InsertChunk(e.addr + nb, e.size - nb);
      }
    }

    /** The end of tmalloc_small: the rest becomes the designated victim (replace_dv). */
    method TakeAndReplaceDv(e: Chunk, nb: nat) returns (got: nat)
      requires Core() && bins.Holds(e) && PaddedSize(nb) && nb <= e.size && IsSmall(nb) && dvsize < nb
      modifies this`head, this`foot, this`dv, this`dvsize, bins
      ensures Core() && Cut(old(FreeSet()), FreeSet(), e, nb, got)
      ensures UsedSet() == old(UsedSet()) + iset{Chunk(e.addr, got)}
      ensures got < e.size ==> dv == e.addr + nb && dvsize == e.size - nb
      ensures got == e.size ==> dv == old(dv) && dvsize == old(dvsize)
    {
      hide Tagged, bins.Holds, bins.Valid, FreeChunks, UsedChunks;
      NoneAtZero();
      OneAtEach();
      got := TakeBinned(e, nb);
      if got < e.size {
        if dvsize != 0 {
          FreeFacts(Chunk(dv, dvsize));
          bins.InsertSmall(dv, dvsize);
        }
        dv, dvsize := e.addr + nb, e.size - nb;
      }
    }

    /** Allocates from the designated victim. */
    method TakeDv(nb: nat) returns (p: int, got: nat)
      requires Core() && PaddedSize(nb) && nb <= dvsize
      modifies this`head, this`foot, this`dv, this`dvsize
      ensures Core() && p == old(dv) && p != 0 && Cut(old(FreeSet()), FreeSet(), Chunk(p, old(dvsize)), nb, got)
      ensures UsedSet() == old(UsedSet()) + iset{Chunk(p, got)}
      ensures got < old(dvsize) ==> dv == p + nb && dvsize == old(dvsize) - nb
      ensures got >= old(dvsize) ==> dv == 0
    {
      hide Tagged, bins.Holds, bins.Valid, FreeChunks, UsedChunks;
      p := dv;
      NoneAtZero();
      OneAtEach();
      FreeFacts(Chunk(p, dvsize));
      got := Carve(p, dvsize, nb);
      if got < dvsize {
        dv, dvsize := p + nb, dvsize - nb;
        FreeFacts(Chunk(dv, dvsize));
      } else {
        dv, dvsize := 0, 0;
      }
    }

    /** Takes the whole of chunk `e`, which is in a bin. */
    method TakeAll(e: Chunk)
      requires Core() && bins.Holds(e)
      modifies this`head, this`foot, bins
      ensures Core() && FreeSet() == old(FreeSet()) - iset{e} && UsedSet() == old(UsedSet()) + iset{e}
    {
      hide Tagged, bins.Holds, bins.Valid;
      FreeFacts(e);
      bins.UnlinkChunk(e.addr, e.size);
      UseWhole(e.addr, e.size);
    }

    /** A free chunk is the designated victim or in a bin. */
    lemma FreeKinds()
      requires Core()
      ensures forall e | e in FreeSet() :: e.size % 16 == 0 && e.size < HALF_MAX && e.addr != 0
      ensures forall e :: e in FreeSet() <==> bins.Holds(e) || (dv != 0 && e == Chunk(dv, dvsize))
      ensures dv == 0 <==> dvsize == 0
    {
      hide Tagged, bins.Holds, bins.Valid;
      forall e | e in FreeSet() ensures e.size % 16 == 0 && e.size < HALF_MAX && e.addr != 0 {
        FreeFacts(e);
      }
    }

    /** A request that has no remainderless fit and more than the designated victim: the first chunk
        of the next small bin, or the smallest in the tree bins. */
    method ChooseSmall(nb: nat) returns (v: Option<Chunk>)
      requires Core() && PaddedSize(nb) && IsSmall(nb) && forall e | bins.Holds(e) :: e.size != nb
      ensures v.Some? ==> bins.Holds(v.value) && nb <= v.value.size
      ensures v.Some? ==> forall e | bins.Holds(e) && nb <= e.size :: v.value.size <= e.size
      ensures v.None? ==> forall e | bins.Holds(e) :: e.size < nb
    {
      hide Core, bins.Holds, bins.Valid;
      assert bins.Valid() by { CoreBins(); }
      MultipleOfEight(nb);
      v := bins.NextSmall(nb);
      if v.None? {
        if bins.treemap != 0 {
          var t := bins.SmallestTreeChunk(nb);
          v := Some(t);
        } else {
          bins.NoTrees();
        }
      }
    }

    /** A remainderless fit in the small bins, if there is one. */
    method ChooseExact(nb: nat) returns (v: Option<Chunk>)
      requires Core() && PaddedSize(nb) && IsSmall(nb)
      ensures v.Some? ==> bins.Holds(v.value) && nb <= v.value.size <= nb + 8
      ensures v.Some? ==> forall e | bins.Holds(e) && nb <= e.size :: v.value.size <= e.size
      ensures v.None? ==> forall e | bins.Holds(e) && nb <= e.size :: nb + 8 < e.size
    {
      hide Core, bins.Holds, bins.Valid;
      assert bins.Valid() by { CoreBins(); }
      MultipleOfEight(nb);
      v := bins.ExactSmall(nb);
      SmallWithRoom(nb);
    }

    lemma SmallWithRoom(nb: nat)
      requires nb % 16 == 0 && IsSmall(nb)
      ensures forall s: nat | !IsSmall(s) :: nb + 8 < s
    {
    }

    lemma CoreBins()
      requires Core()
      ensures bins.Valid()
    {
    }

    /** The small-request half of dlmalloc, up to the use of top. */
    method AllocSmall(nb: nat) returns (p: int, got: nat, ghost src: Chunk)
      requires Core() && PaddedSize(nb) && IsSmall(nb)
      modifies this`head, this`foot, this`dv, this`dvsize, bins
      ensures Core()
      ensures p == 0 ==> unchanged(this) && unchanged(bins) && forall e :: !Fits(FreeSet(), e, nb)
      ensures p != 0 ==> p == src.addr && SmallChoice(old(FreeSet()), old(dv), old(dvsize), src, nb)
      ensures p != 0 ==> Cut(old(FreeSet()), FreeSet(), src, nb, got)
      ensures p != 0 ==> UsedSet() == old(UsedSet()) + iset{Chunk(p, got)}
    {
      hide TagsOk, FreeChunks, UsedChunks, DvOk, bins.Holds, bins.Valid, IsSmall;
      FreeKinds();
      p, got, src := 0, 0, Chunk(0, 0);
      var v := ChooseExact(nb);
      if v.Some? {
        src := v.value;
        TakeAll(v.value);
        p, got := v.value.addr, v.value.size;
      } else if nb > dvsize {
        v := ChooseSmall(nb);
        if v.Some? {
          src := v.value;
          got := TakeAndReplaceDv(v.value, nb);
          p := v.value.addr;
        }
      } else {
        src := Chunk(dv, dvsize);
        p, got := TakeDv(nb);
      }
    }

    /** The best fit of the tree bins is taken when it fits strictly better than the designated victim. */
    lemma LargeFromTree(v: Chunk, nb: nat)
      requires Core() && bins.Holds(v) && nb <= v.size && v.size - nb < Sub(dvsize, nb) && nb <= MAX_SIZE_T
      requires !IsSmall(nb)
      requires forall e | bins.Holds(e) && !IsSmall(e.size) && e.size >= nb :: v.size <= e.size
      ensures LargeChoice(FreeSet(), dv, dvsize, v, nb)
    {
      hide TagsOk, FreeChunks, bins.Holds, bins.Valid;
      FreeKinds();
      LargerIsLarge(nb);
      SubIs(dvsize, nb);
    }

    lemma LargeFromDv(v: Option<Chunk>, nb: nat)
      requires Core() && nb <= dvsize && nb > 0 && nb <= MAX_SIZE_T && !IsSmall(nb) && dvsize <= MAX_SIZE_T
      requires v.Some? ==> nb <= v.value.size && !(v.value.size - nb < Sub(dvsize, nb))
      requires forall e | bins.Holds(e) && !IsSmall(e.size) && e.size >= nb :: v.Some? && v.value.size <= e.size
      ensures LargeChoice(FreeSet(), dv, dvsize, Chunk(dv, dvsize), nb)
    {
      hide TagsOk, FreeChunks, bins.Holds, bins.Valid;
      FreeKinds();
      LargerIsLarge(nb);
      SubIs(dvsize, nb);
    }

    lemma NothingLarge(v: Option<Chunk>, nb: nat)
      requires Core() && dvsize < nb <= MAX_SIZE_T && !IsSmall(nb)
      requires v.Some? ==> bins.Holds(v.value) && nb <= v.value.size && !(v.value.size - nb < Sub(dvsize, nb))
      requires forall e | bins.Holds(e) && !IsSmall(e.size) && e.size >= nb :: v.Some? && v.value.size <= e.size
      ensures forall e :: !Fits(FreeSet(), e, nb)
    {
      hide TagsOk, FreeChunks, bins.Holds, bins.Valid;
      FreeKinds();
      LargerIsLarge(nb);
      SubIs(dvsize, nb);
    }

    /** tmalloc_large, and the use of the designated victim when it fits better. */
    method AllocLarge(nb: nat) returns (p: int, got: nat, ghost src: Chunk)
      requires Core() && PaddedSize(nb) && ChunkSize(nb) && !IsSmall(nb)
      modifies this`head, this`foot, this`dv, this`dvsize, bins
      ensures Core()
      ensures p == 0 ==> unchanged(this) && unchanged(bins) && forall e :: !Fits(FreeSet(), e, nb)
      ensures p != 0 ==> p == src.addr && LargeChoice(old(FreeSet()), old(dv), old(dvsize), src, nb)
      ensures p != 0 ==> Cut(old(FreeSet()), FreeSet(), src, nb, got)
      ensures p != 0 ==> UsedSet() == old(UsedSet()) + iset{Chunk(p, got)}
    {
      hide TagsOk, FreeChunks, UsedChunks, BinsMatch, DvOk, bins.Holds, bins.Valid, LargeChoice, Fits, Sub;
      FreeKinds();
      p, got, src := 0, 0, Chunk(0, 0);
      var v: Option<Chunk> := None;
      if bins.treemap != 0 {
        v := bins.BestTreeFit(nb);
        if v.Some? && v.value.size - nb < Sub(dvsize, nb) {
          LargeFromTree(v.value, nb);
          src := v.value;
          got := TakeAndBin(v.value, nb);
          p := v.value.addr;
        }
      } else {
        bins.NoTrees();
      }
      if p == 0 && nb <= dvsize {
        LargeFromDv(v, nb);
        src := Chunk(dv, dvsize);
        p, got := TakeDv(nb);
      } else if p == 0 {
        NothingLarge(v, nb);
      }
    }

    // ---- memory from the system -------------------------------------------------------------

    /** kheap_sbrk can move the break up by `inc`. */
    ghost predicate Room(inc: nat)
      reads this
    {
      inc < HALF_MAX && kcur + inc < kend
    }

    /** kheap_sbrk */
    method Sbrk(inc: int) returns (prev: Option<int>)
      modifies this`kcur
      ensures prev.Some? <==> kstart <= old(kcur) + inc < kend
      ensures prev.Some? ==> prev.value == old(kcur) && kcur == old(kcur) + inc
      ensures prev.None? ==> kcur == old(kcur)
    {
      if kcur + inc < kstart || kcur + inc >= kend {
        return None;
      }
      prev := Some(kcur);
      kcur := kcur + inc;
    }

    lemma FirstTopOk(a: int, size: nat)
      requires a % 16 == 0 && size > 0
      ensures Tagged(map[a := Head(size, true, false)], map[], a, a)
    {
      var h: Heads := map[a := Head(size, true, false)];
      assert forall x | x in h :: BackOk(h, map[], x) && PlaceOk(a, a, x);
      assert forall x, y :: ApartAt(h, x, y);
    }

    /** init_top on the top chunk there is. */
    method InitTop(size: nat)
      requires TagsOk() && top != 0 && size > 0 && size % 16 == 0
      modifies this`head, this`topsize, this`trimCheck
      ensures TagsOk() && topsize == size && FreeSet() == old(FreeSet()) && UsedSet() == old(UsedSet())
    {
      hide Tagged;
      TopFacts();
      ResizeTopOk(head, foot, base, top, size);
      ResizeEffect(head, foot, base, top, size);
      topsize := size;
      head := head[top := head[top].(size := topsize)];
      trimCheck := 0x20_0000;
    }

    /** init_top on a new segment. */
    method FirstTop(tbase: int, size: nat)
      requires TagsOk() && top == 0 && tbase % 16 == 0 && 16 <= kstart <= tbase && size > 0 && size % 16 == 0
      modifies this`head, this`base, this`top, this`topsize, this`trimCheck
      ensures TagsOk() && top == tbase && topsize == size && FreeSet() == old(FreeSet()) && UsedSet() == old(UsedSet())
    {
      hide Tagged;
      base, top, topsize := tbase, tbase, size;
      head := map[top := Head(topsize, true, false)];
      FirstTopOk(top, topsize);
      trimCheck := 0x20_0000;
    }

    /** Asks for `tsize` more bytes; with them the first top chunk is made or top is extended. */
    method Extend(tsize: nat) returns (ok: bool)
      requires Core() && tsize < HALF_MAX && tsize % 16 == 0 && tsize > TOP_FOOT_SIZE
      modifies this`kcur, this`head, this`base, this`top, this`topsize, this`trimCheck
      ensures Core() && (ok <==> old(Room(tsize))) && FreeSet() == old(FreeSet()) && UsedSet() == old(UsedSet())
      ensures !ok ==> unchanged(this)
      ensures ok && old(top) == 0 ==> top == old(kcur) && topsize == tsize - TOP_FOOT_SIZE
      ensures ok && old(top) != 0 ==> top == old(top) && topsize == old(topsize) + tsize
    {
      hide bins.Holds, bins.Valid, Tagged, FreeChunks, UsedChunks;
      var br := Sbrk(tsize);
      ok := br.Some?;
      if ok {
        if top == 0 {
          FirstTop(br.value, tsize - TOP_FOOT_SIZE);
        } else {
          InitTop(topsize + tsize);
        }
      }
    }

    /** The bytes sys_alloc asks for in the end: only what top lacks, while the break is taken to be
        contiguous. */
    ghost function Lacking(nb: nat): nat
      requires nb <= MAX_SIZE_T && topsize <= nb
      reads this
    {
      if contiguous && top != 0 then AlignUp(Add(nb - topsize, 96)) else AlignUp(Add(nb, 96))
    }

    /** sys_alloc fails: the request wraps around, or the kernel heap has no room for it. */
    ghost predicate SystemRefuses(nb: nat)
      requires nb <= MAX_SIZE_T && topsize <= nb
      reads this
    {
      AlignUp(Add(nb, 96)) <= nb || !Room(Lacking(nb))
    }

    /** When the request does not wrap around, both amounts give top more than `nb` bytes. */
    lemma AmountsSuffice(nb: nat, have: nat)
      requires nb <= MAX_SIZE_T && have <= nb && AlignUp(Add(nb, 96)) > nb
      ensures nb + 96 <= AlignUp(Add(nb, 96)) && nb - have + 96 <= AlignUp(Add(nb - have, 96)) <= AlignUp(Add(nb, 96))
    {
      hide AlignUp, Add;
      AddIs(nb, 96);
      AddIs(nb - have, 96);
      if nb + 96 <= 0x1_0000_0000_0000_0000 - 4096 {
        PagesGrow(nb - have + 96, nb + 96);
      }
    }

    method DisableContiguous()
      requires Core()
      modifies this`contiguous
      ensures Core() && !contiguous && FreeSet() == old(FreeSet()) && UsedSet() == old(UsedSet())
    {
      contiguous := false;
    }

    /** The bytes of the contiguous attempt: up to a page boundary at first, then what top lacks. */
    method ContiguousAmount(nb: nat, asize: nat) returns (ssize: nat)
      requires BreakOk() && contiguous && topsize <= nb <= MAX_SIZE_T && asize == AlignUp(Add(nb, 96)) > nb
      ensures ssize % 16 == 0 && ssize > TOP_FOOT_SIZE && nb + 96 <= asize
      ensures top == 0 ==> asize <= ssize && Lacking(nb) == asize
      ensures top != 0 ==> ssize == Lacking(nb) && nb - topsize + 96 <= ssize
      ensures SystemRefuses(nb) == !Room(Lacking(nb))
    {
      hide AlignUp, Add;
      AmountsSuffice(nb, topsize);
      Multiples(asize, AlignUp(kcur), kcur);
      ssize := if top == 0 then asize + (AlignUp(kcur) - kcur) else AlignUp(Add(nb - topsize, 96));
    }

    /** The contiguous attempt of sys_alloc. */
    method ExtendContiguous(nb: nat, asize: nat) returns (ok: bool)
      requires Core() && contiguous && topsize <= nb <= MAX_SIZE_T && asize == AlignUp(Add(nb, 96)) > nb
      modifies this`kcur, this`head, this`base, this`top, this`topsize, this`trimCheck, this`contiguous
      ensures Core() && FreeSet() == old(FreeSet()) && UsedSet() == old(UsedSet())
      ensures ok ==> nb < topsize && top == (if old(top) == 0 then old(kcur) else old(top)) && !old(SystemRefuses(nb))
      ensures !ok ==> unchanged(this`kcur, this`head, this`base, this`top, this`topsize, this`trimCheck)
      ensures !ok && top != 0 ==> old(SystemRefuses(nb))
      ensures contiguous == ok
    {
      hide TagsOk, DvOk, bins.Holds, bins.Valid, BinsMatch, FreeChunks, UsedChunks, Lacking, SystemRefuses;
      var ssize := ContiguousAmount(nb, asize);
      ok := false;
      if (top != 0 || nb < ssize) && ssize < HALF_MAX {
        ok := Extend(ssize);
      }
      if !ok {
        DisableContiguous();
      }
    }

    /** The first half of sys_alloc: gets memory until top is large enough. */
    method GrowHeap(nb: nat) returns (ok: bool)
      requires Core() && topsize <= nb <= MAX_SIZE_T
      modifies this`kcur, this`head, this`base, this`top, this`topsize, this`trimCheck, this`contiguous
      ensures Core() && FreeSet() == old(FreeSet()) && UsedSet() == old(UsedSet())
      ensures ok <==> !old(SystemRefuses(nb))
      ensures !ok ==> unchanged(this`kcur, this`head, this`base, this`top, this`topsize, this`trimCheck)
      ensures ok ==> nb < topsize && top == (if old(top) == 0 then old(kcur) else old(top))
      ensures !ok && AlignUp(Add(nb, 96)) > nb ==> !contiguous
      ensures AlignUp(Add(nb, 96)) <= nb || (ok && old(top) != 0) ==> contiguous == old(contiguous)
    {
      hide TagsOk, DvOk, bins.Holds, bins.Valid, BinsMatch, FreeChunks, UsedChunks, AlignUp, Add;
      var asize := AlignUp(Add(nb, 96));
      if asize <= nb {
        return false;
      }
      AmountsSuffice(nb, topsize);
      ok := false;
      if contiguous {
        ok := ExtendContiguous(nb, asize);
      }
      if !ok && asize < HALF_MAX {
        ok := Extend(asize);
      }
    }

    /** sys_alloc */
    method SysAlloc(nb: nat) returns (p: int)
      requires Core() && nb <= MAX_SIZE_T && (nb == MAX_SIZE_T || PaddedSize(nb)) && topsize <= nb
      modifies this`kcur, this`head, this`base, this`top, this`topsize, this`trimCheck, this`contiguous
      ensures Core() && (p == 0 <==> old(SystemRefuses(nb)))
      ensures p == 0 ==> unchanged(this`kcur, this`head, this`base, this`top, this`topsize, this`trimCheck)
      ensures p != 0 ==> p == (if old(top) == 0 then old(kcur) else old(top))
      ensures FreeSet() == old(FreeSet())
      ensures UsedSet() == old(UsedSet()) + (if p == 0 then iset{} else iset{Chunk(p, nb)})
    {
      hide Tagged, bins.Holds, bins.Valid, BinsMatch, FreeChunks, UsedChunks;
      p := 0;
      var ok := GrowHeap(nb);
      if ok && nb < topsize {
        p := UseTop(nb);
      }
    }

    // ---- dlmalloc ---------------------------------------------------------------------------

    /** The end of dlmalloc: splits top. */
    method AllocTop(nb: nat) returns (p: int)
      requires Core() && PaddedSize(nb) && nb < topsize
      modifies this`head, this`top, this`topsize
      ensures Core() && p == old(top) && p != 0 && UsedSet() == old(UsedSet()) + iset{Chunk(p, nb)}
      ensures FreeSet() == old(FreeSet())
    {
      hide Tagged, bins.Holds, bins.Valid, BinsMatch, FreeChunks, UsedChunks;
      p := UseTop(nb);
    }

    /** Nothing free fits, top is too small and the system has no more: dlmalloc fails. */
    ghost predicate Refuses(bytes: nat)
      requires bytes <= MAX_SIZE_T
      reads this
    {
      && (forall e :: !Fits(FreeSet(), e, Wanted(bytes)))
      && topsize <= Wanted(bytes) && SystemRefuses(Wanted(bytes))
    }

    /** dlmalloc up to the use of top: a free chunk, if one fits. */
    method AllocFree(bytes: nat) returns (p: int, got: nat, ghost src: Chunk)
      requires Core() && bytes <= MAX_SIZE_T
      modifies this`head, this`foot, this`dv, this`dvsize, bins
      ensures Core()
      ensures p == 0 ==> unchanged(this) && unchanged(bins) && forall e :: !Fits(FreeSet(), e, Wanted(bytes))
      ensures p != 0 ==> Wanted(bytes) == Pad(bytes) && p == src.addr
      ensures p != 0 && bytes <= 232 ==> SmallChoice(old(FreeSet()), old(dv), old(dvsize), src, Pad(bytes))
      ensures p != 0 && bytes > 232 ==> LargeChoice(old(FreeSet()), old(dv), old(dvsize), src, Pad(bytes))
      ensures p != 0 ==> UsedSet() == old(UsedSet()) + iset{Chunk(p, got)}
      ensures p != 0 ==> Cut(old(FreeSet()), FreeSet(), src, Pad(bytes), got)
    {
      hide TagsOk, DvOk, bins.Holds, bins.Valid, BinsMatch, FreeChunks, UsedChunks, Pad, Wanted, Fits;
      hide SmallChoice, LargeChoice, Cut, BestFit;
      WantedIs(bytes);
      var nb := Wanted(bytes);
      p, got, src := 0, 0, Chunk(0, 0);
      if bytes <= 232 {
        p, got, src := AllocSmall(nb);
      } else if bytes < MAX_REQUEST {
        MultipleOfEight(nb);
        p, got, src := AllocLarge(nb);
      } else {
        AllTooSmall(nb);
      }
    }

    /** The rest of dlmalloc: top, or more memory. */
    method AllocFresh(nb: nat) returns (p: int)
      requires Core() && nb <= MAX_SIZE_T && (nb == MAX_SIZE_T || PaddedSize(nb))
      modifies this
      ensures Core() && FreeSet() == old(FreeSet()) && (p == 0 <==> old(topsize) <= nb && old(SystemRefuses(nb)))
      ensures UsedSet() == old(UsedSet()) + (if p == 0 then iset{} else iset{Chunk(p, nb)})
      ensures p != 0 ==> p == (if old(top) == 0 then old(kcur) else old(top))
      ensures p == 0 ==> unchanged(this`kcur, this`head, this`foot, this`base, this`top, this`topsize)
      ensures p == 0 ==> unchanged(this`trimCheck, this`dv, this`dvsize)
    {
      hide TagsOk, DvOk, bins.Holds, bins.Valid, BinsMatch, FreeChunks, UsedChunks, SystemRefuses;
      if nb < topsize {
        AllTooLarge(nb);
        p := AllocTop(nb);
      } else {
        p := SysAlloc(nb);
      }
    }

    /** dlmalloc, down to chunks. */
    method MallocChunk(bytes: nat) returns (p: int, got: nat, ghost src: Option<Chunk>)
      requires Core() && bytes <= MAX_SIZE_T
      modifies this, bins
      ensures Core()
      ensures p == 0 ==> UsedSet() == old(UsedSet()) && FreeSet() == old(FreeSet())
      ensures p != 0 ==> UsedSet() == old(UsedSet()) + iset{Chunk(p, got)}
      ensures p != 0 ==> Pad(bytes) <= got < Pad(bytes) + MIN_CHUNK_SIZE
      ensures p != 0 ==> p >= 16 && !Used(old(head), p)
      ensures src.Some? ==> p == src.value.addr != 0
      ensures src.Some? && bytes <= 232 ==> SmallChoice(old(FreeSet()), old(dv), old(dvsize), src.value, Pad(bytes))
      ensures src.Some? && bytes > 232 ==> LargeChoice(old(FreeSet()), old(dv), old(dvsize), src.value, Pad(bytes))
      ensures src.Some? ==> Cut(old(FreeSet()), FreeSet(), src.value, Pad(bytes), got)
      ensures src.None? ==> FreeSet() == old(FreeSet()) && (p != 0 ==> got == Pad(bytes))
      ensures src.None? <==> forall e :: !Fits(old(FreeSet()), e, Wanted(bytes))
      ensures p != 0 && src.None? ==> p == (if old(top) == 0 then old(kcur) else old(top))
      ensures p == 0 <==> old(Refuses(bytes))
    {
      hide TagsOk, DvOk, bins.Holds, bins.Valid, BinsMatch, FreeChunks, UsedChunks, SystemRefuses, Pad, Wanted;
      FreeIsUnused();
      ghost var e;
      p, got, e := AllocFree(bytes);
      src := if p == 0 then None else Some(e);
      if p == 0 {
        p := AllocFresh(Wanted(bytes));
        got := Wanted(bytes);
      }
      if p != 0 {
        UsedFacts(Chunk(p, got));
      }
    }

    /** Top is never as large as a request that is refused. */
    lemma AllTooLarge(nb: nat)
      requires Core() && nb < topsize
      ensures nb < MAX_SIZE_T
    {
      assert top != 0 ==> PlaceOk(base, top, top);
    }

    lemma FreeIsUnused()
      requires Core()
      ensures forall e | e in FreeSet() :: !Used(head, e.addr)
      ensures !Used(head, top) && !Used(head, if top == 0 then kcur else top)
    {
    }

    lemma AllTooSmall(nb: nat)
      requires Core() && nb == MAX_SIZE_T
      ensures dvsize < nb && topsize < nb && forall e :: !Fits(FreeSet(), e, nb)
    {
      if dv != 0 {
        FreeFacts(Chunk(dv, dvsize));
      }
      assert top != 0 ==> PlaceOk(base, top, top);
      forall e | e in FreeSet() ensures e.size < nb {
        FreeFacts(e);
      }
    }

    // ---- dlfree -----------------------------------------------------------------------------

    /** The free chunk, if there is one, that ends where chunk `p` starts. */
    ghost function Before(p: int): iset<Chunk>
      requires p in head
      reads this
    {
      if head[p].pinuse || p !in foot then iset{} else iset{Chunk(p - foot[p], foot[p])}
    }

    /** The free chunk, if there is one, that starts at `n`. */
    ghost function Behind(n: int): iset<Chunk>
      reads this
    {
      if Free(head, top, n) then iset{Chunk(n, head[n].size)} else iset{}
    }

    /** Chunk `p` together with the free chunks beside it. */
    ghost function Merged(p: int, ps: nat): Chunk
      requires p in head
      reads this
    {
      var q := if Before(p) == iset{} then p else p - foot[p];
      var end := if Behind(p + ps) == iset{} then p + ps else p + ps + head[p + ps].size;
      Chunk(q, end - q)
    }

    /** Consolidates backward: `q` starts where the free chunk before `p` did. */
    method AbsorbPrev(p: int, ps: nat) returns (q: int, qs: nat)
      requires Loose() && Chunk(p, ps) in UsedSet()
      modifies this`head, this`foot, bins
      ensures Loose() && q + qs == p + ps && q <= p && Chunk(q, qs) in UsedSet() && head[q].pinuse
      ensures q < p <==> old(Before(p)) != iset{}
      ensures q < p ==> old(Before(p)) == iset{Chunk(q, p - q)} <= old(FreeSet())
      ensures FreeSet() == old(FreeSet()) - old(Before(p))
      ensures UsedSet() == old(UsedSet()) - iset{Chunk(p, ps)} + iset{Chunk(q, qs)}
      ensures Used(head, p + ps) == old(Used(head, p + ps)) && Behind(p + ps) == old(Behind(p + ps))
      ensures p + ps != top ==> p + ps in head
    {
      hide Tagged, bins.Holds, bins.Valid;
      UsedFacts(Chunk(p, ps));
      q, qs := p, ps;
      if !head[p].pinuse {
        var prevsize := foot[p];
        q, qs := p - prevsize, ps + prevsize;
        FreeFacts(Chunk(q, prevsize));
        if q != dv {
          bins.UnlinkChunk(q, prevsize);
        }
        JoinNext(q, prevsize, ps);
      }
    }

    /** Consolidates forward with the free chunk at `p + ps`. */
    method AbsorbNext(p: int, ps: nat) returns (qs: nat)
      requires Loose() && Chunk(p, ps) in UsedSet() && Free(head, top, p + ps)
      modifies this`head, this`foot, bins
      ensures Loose() && Chunk(p, qs) in UsedSet() && head[p].pinuse == old(head[p].pinuse) && Used(head, p + qs)
      ensures ps <= qs && old(Behind(p + ps)) == iset{Chunk(p + ps, qs - ps)}
      ensures FreeSet() == old(FreeSet()) - old(Behind(p + ps))
      ensures UsedSet() == old(UsedSet()) - iset{Chunk(p, ps)} + iset{Chunk(p, qs)}
    {
      hide Tagged, bins.Holds, bins.Valid;
      var n := p + ps;
      var nsize := head[n].size;
      FreeFacts(Chunk(n, nsize));
      UsedFacts(Chunk(p, ps));
      if n != dv {
        bins.UnlinkChunk(n, nsize);
      }
      JoinNext(p, ps, nsize);
      qs := ps + nsize;
    }

    /** Sets chunk `q` free, between chunks in use, as the designated victim or into a bin. */
    method Settle(q: int, qs: nat, toDv: bool)
      requires Loose() && Chunk(q, qs) in UsedSet() && head[q].pinuse && Used(head, q + qs)
      requires if toDv then forall e | e in FreeSet() :: e.addr != dv else q != dv && DvOk()
      modifies this`head, this`foot, this`dv, this`dvsize, bins
      ensures Core() && UsedSet() == old(UsedSet()) - iset{Chunk(q, qs)}
      ensures FreeSet() == old(FreeSet()) + iset{Chunk(q, qs)}
      ensures if toDv then dv == q && dvsize == qs else dv == old(dv) && dvsize == old(dvsize)
    {
      hide Tagged, bins.Holds, bins.Valid;
      UsedFacts(Chunk(q, qs));
      FreeWhole(q, qs);
      if toDv {
        dv, dvsize := q, qs;
      } else {
        FreeFacts(Chunk(q, qs));
        bins.InsertChunk(q, qs);
      }
    }

    /** Merges chunk `q` into top; top may have been reached by the designated victim. */
    method SettleTop(q: int, qs: nat)
      requires Loose() && Chunk(q, qs) in UsedSet() && head[q].pinuse && q + qs == top && (q == dv || DvOk())
      modifies this`head, this`top, this`topsize, this`dv, this`dvsize
      ensures Core() && UsedSet() == old(UsedSet()) - iset{Chunk(q, qs)} && FreeSet() == old(FreeSet())
      ensures top == q != 0 && topsize == old(topsize) + qs
      ensures if q == old(dv) then dv == 0 else dv == old(dv) && dvsize == old(dvsize)
    {
      hide Tagged, bins.Holds, bins.Valid;
      NoneAtZero();
      UsedFacts(Chunk(q, qs));
      MeltTop(q, qs);
      if q == dv {
        dv, dvsize := 0, 0;
      }
    }

    /** The second half of dispose_chunk: what is behind chunk `q` decides where it goes. */
    method SettleMerged(q: int, qs: nat) returns (size: nat)
      requires Loose() && Chunk(q, qs) in UsedSet() && head[q].pinuse
      requires if q == dv then forall e | e in FreeSet() :: e.addr != dv else DvOk()
      modifies this`head, this`foot, this`top, this`topsize, this`dv, this`dvsize, bins
      ensures Core() && UsedSet() == old(UsedSet()) - iset{Chunk(q, qs)} && top != 0 && qs <= size
      ensures q + qs == old(top) ==> size == qs && top == q && topsize == old(topsize) + qs
      ensures q + qs == old(top) ==> FreeSet() == old(FreeSet())
      ensures q + qs != old(top) ==> top == old(top) && topsize == old(topsize)
      ensures q + qs != old(top) ==> old(Behind(q + qs)) == if qs < size then iset{Chunk(q + qs, size - qs)} else iset{}
      ensures q + qs != old(top) ==> FreeSet() == old(FreeSet() - Behind(q + qs)) + iset{Chunk(q, size)}
      ensures if q == old(dv) || (qs < size && q + qs == old(dv))
              then dv == (if q + qs == old(top) then 0 else q) && (dv != 0 ==> dvsize == size)
              else dv == old(dv) && dvsize == old(dvsize)
    {
      hide Tagged, bins.Holds, bins.Valid;
      UsedFacts(Chunk(q, qs));
      size := qs;
      var n := q + qs;
      if n == top {
        SettleTop(q, qs);
      } else if head[n].cinuse {
        Settle(q, qs, q == dv);
      } else {
        FreeFacts(Chunk(n, head[n].size));
        size := AbsorbNext(q, qs);
        Settle(q, size, q == dv || n == dv);
      }
    }

    /** dispose_chunk, and dlfree up to the trimming of top: the chunk merges with the free chunks
        beside it, and into top when it reaches top.  The result is the merged chunk. */
    method Dispose(p: int, ps: nat) returns (q: int, qs: nat)
      requires Core() && Chunk(p, ps) in UsedSet()
      modifies this`head, this`foot, this`top, this`topsize, this`dv, this`dvsize, bins
      ensures Core() && UsedSet() == old(UsedSet()) - iset{Chunk(p, ps)} && top != 0
      ensures q <= p && old(Before(p)) == if q < p then iset{Chunk(q, p - q)} else iset{}
      ensures p + ps == old(top) ==> q + qs == old(top) && top == q && topsize == old(topsize) + qs
      ensures p + ps == old(top) ==> FreeSet() == old(FreeSet() - Before(p))
      ensures p + ps != old(top) ==> top == old(top) && topsize == old(topsize)
      ensures p + ps <= q + qs
      ensures p + ps != old(top) ==>
                old(Behind(p + ps)) == if p + ps < q + qs then iset{Chunk(p + ps, q + qs - p - ps)} else iset{}
      ensures p + ps != old(top) ==> FreeSet() == old(FreeSet() - Before(p) - Behind(p + ps)) + iset{Chunk(q, qs)}
      ensures if (q < p && q == old(dv)) || (p + ps < q + qs && p + ps == old(dv))
              then dv == (if p + ps == old(top) then 0 else q) && (dv != 0 ==> dvsize == qs)
              else dv == old(dv) && dvsize == old(dvsize)
    {
      hide Tagged, bins.Holds, bins.Valid;
      UsedFacts(Chunk(p, ps));
      q, qs := AbsorbPrev(p, ps);
      qs := SettleMerged(q, qs);
    }

    /** Moves the break down by `extra` bytes, which top loses. */
    method Shrink(extra: nat) returns (released: nat)
      requires Core() && top != 0 && extra < topsize && extra % 16 == 0
      modifies this`kcur, this`head, this`topsize, this`trimCheck
      ensures Core() && UsedSet() == old(UsedSet()) && FreeSet() == old(FreeSet()) && released == extra
      ensures kcur == old(kcur) - extra && topsize == old(topsize) - extra
    {
      hide bins.Holds, bins.Valid, Tagged;
      TopFacts();
      TopPlace();
      released := 0;
      var br := Sbrk(0 - extra);
      if br.Some? {
        released := extra;
      }
      if released != 0 {
        InitTop(topsize - released);
      }
    }

    /** sys_trim: gives whole pages back from the end of top, keeping more than `pad` bytes. */
    method SysTrim(pad: nat) returns (released: nat)
      requires Core() && pad <= MAX_SIZE_T
      modifies this`kcur, this`head, this`topsize, this`trimCheck
      ensures Core() && UsedSet() == old(UsedSet()) && FreeSet() == old(FreeSet()) && kcur == old(kcur) - released
      ensures topsize == old(topsize) - released
      ensures released > 0 ==> pad + TOP_FOOT_SIZE < topsize <= pad + TOP_FOOT_SIZE + 4096
      ensures released == 0 && top != 0 && pad < MAX_REQUEST ==> topsize <= pad + TOP_FOOT_SIZE + 4096
    {
      hide TagsOk, DvOk, bins.Holds, bins.Valid, BinsMatch, FreeChunks, UsedChunks, SparePages;
      released := 0;
      if pad < MAX_REQUEST && top != 0 {
        if topsize > pad + TOP_FOOT_SIZE {
          released := Shrink(SparePages(topsize - pad - TOP_FOOT_SIZE));
        }
        if released == 0 && topsize > trimCheck {
          DisableTrim();
        }
      }
    }

    method DisableTrim()
      requires Core()
      modifies this`trimCheck
      ensures Core() && UsedSet() == old(UsedSet()) && FreeSet() == old(FreeSet())
    {
      trimCheck := MAX_SIZE_T;
    }

    lemma TopPlace()
      requires TagsOk() && top != 0
      ensures kstart <= top
    {
      assert PlaceOk(base, top, top);
    }

    /** dlfree, down to chunks.  When the chunk reaches top and top becomes larger than the trimming
        threshold, top is trimmed to at most a page and the reserve. */
    method FreeChunk(p: int, ps: nat)
      requires Core() && Chunk(p, ps) in UsedSet()
      modifies this, bins
      ensures Core() && UsedSet() == old(UsedSet()) - iset{Chunk(p, ps)}
      ensures p + ps == old(top) ==> FreeSet() == old(FreeSet() - Before(p))
      ensures p + ps != old(top) ==> FreeSet() == old(FreeSet() - Before(p) - Behind(p + ps) + iset{Merged(p, ps)})
      ensures p + ps != old(top) ==> top == old(top) && topsize == old(topsize) && kcur == old(kcur)
      ensures p + ps == old(top) ==> top <= p && (top < p <==> old(Before(p)) != iset{})
      ensures p + ps == old(top) && old(kcur) - TOP_FOOT_SIZE - top <= old(trimCheck) ==> kcur == old(kcur)
      ensures p + ps == old(top) && old(kcur) - TOP_FOOT_SIZE - top > old(trimCheck) ==> topsize <= TOP_FOOT_SIZE + 4096
    {
      hide TagsOk, DvOk, BinsMatch, FreeChunks, UsedChunks;
      UsedFacts(Chunk(p, ps));
      var n := p + ps;
      var t := top;
      var q, qs := Dispose(p, ps);
      if n == t && topsize > trimCheck {
        var released := SysTrim(0);
      }
    }

    // ---- realloc and memalign ---------------------------------------------------------------

    /** Gives the bytes of chunk `p` behind the first `nb` back. */
    method ShrinkChunk(p: int, s: nat, nb: nat)
      requires Core() && Chunk(p, s) in UsedSet() && PaddedSize(nb) && nb + MIN_CHUNK_SIZE <= s
      modifies this`head, this`foot, this`top, this`topsize, this`dv, this`dvsize, bins
      ensures Core() && UsedSet() == old(UsedSet()) - iset{Chunk(p, s)} + iset{Chunk(p, nb)}
    {
      hide Tagged, bins.Holds, bins.Valid;
      SplitUsed(p, s, nb);
      var q, qs := Dispose(p + nb, s - nb);
    }

    /** The chunk behind `p` lets it grow to `nb` bytes in place. */
    ghost predicate CanGrowInPlace(p: int, s: nat, nb: nat)
      reads this
    {
      || nb <= s
      || (p + s == top && nb < s + topsize)
      || (Free(head, top, p + s) && nb <= s + head[p + s].size)
    }

    /** Extends chunk `p` into the free chunk behind it: the rest stays the designated victim, or is
        disposed of. */
    method ExtendIntoNext(p: int, s: nat, nb: nat) returns (got: nat)
      requires Core() && Chunk(p, s) in UsedSet() && PaddedSize(nb) && s < nb
      requires Free(head, top, p + s) && nb <= s + head[p + s].size
      modifies this`head, this`foot, this`top, this`topsize, this`dv, this`dvsize, bins
      ensures Core() && nb <= got < nb + MIN_CHUNK_SIZE
      ensures UsedSet() == old(UsedSet()) - iset{Chunk(p, s)} + iset{Chunk(p, got)}
    {
      hide Tagged, bins.Holds, bins.Valid;
      NoneAtZero();
      var inDv := p + s == dv;
      got := AbsorbNext(p, s);
      if got - nb < MIN_CHUNK_SIZE {
        if inDv {
          dv, dvsize := 0, 0;
        }
      } else if inDv {
        SplitUsed(p, got, nb);
        Settle(p + nb, got - nb, true);
        got := nb;
      } else {
        ShrinkChunk(p, got, nb);
        got := nb;
      }
    }

    /** try_realloc_chunk */
    method TryRealloc(p: int, s: nat, nb: nat) returns (ok: bool, got: nat)
      requires Core() && Chunk(p, s) in UsedSet() && PaddedSize(nb)
      modifies this`head, this`foot, this`top, this`topsize, this`dv, this`dvsize, bins
      ensures Core() && (ok <==> old(CanGrowInPlace(p, s, nb)))
      ensures ok ==> nb <= got < nb + MIN_CHUNK_SIZE
      ensures ok ==> UsedSet() == old(UsedSet()) - iset{Chunk(p, s)} + iset{Chunk(p, got)}
      ensures !ok ==> unchanged(this) && unchanged(bins)
    {
      hide Tagged, bins.Holds, bins.Valid;
      UsedFacts(Chunk(p, s));
      ok, got := false, s;
      var next := p + s;
      if nb <= s {
        ok := true;
        if s - nb >= MIN_CHUNK_SIZE {
          ShrinkChunk(p, s, nb);
          got := nb;
        }
      } else if next == top {
        if s + topsize > nb {
          GrowTop(p, s, nb);
          ok, got := true, nb;
        }
      } else if !head[next].cinuse {
        if s + head[next].size >= nb {
          got := ExtendIntoNext(p, s, nb);
          ok := true;
        }
      }
    }

    /** The aligned place inside chunk `p` at which the block of internal_memalign starts. */
    method AlignedSpot(p: int, alignment: nat) returns (pos: int)
      requires p >= 16 && p % 16 == 0 && alignment >= 32 && alignment % 16 == 0 && !AlignedTo(p + 16, alignment)
      ensures AlignedTo(pos + 16, alignment) && pos % 16 == 0 && p + MIN_CHUNK_SIZE <= pos <= p + alignment + 16
    {
      hide AlignedTo, RoundUp;
      var r := RoundUp(p + 16, alignment);
      Sixteens(r, alignment);
      Sixteens(r + alignment, alignment);
      StepsOfSixteen(p, r, alignment);
      pos := if r - 16 - p >= MIN_CHUNK_SIZE then r - 16 else r - 16 + alignment;
    }

    /** Gives the first `lead` bytes of chunk `p` back. */
    method DropFront(p: int, s: nat, lead: nat)
      requires Core() && Chunk(p, s) in UsedSet() && PaddedSize(lead) && lead + MIN_CHUNK_SIZE <= s
      modifies this`head, this`foot, this`top, this`topsize, this`dv, this`dvsize, bins
      ensures Core() && UsedSet() == old(UsedSet()) - iset{Chunk(p, s)} + iset{Chunk(p + lead, s - lead)}
      ensures !Used(old(head), p + lead)
    {
      hide Tagged, bins.Holds, bins.Valid;
      SplitUsed(p, s, lead);
      var q, qs := Dispose(p, lead);
    }

    /** Gives back what internal_memalign does not need of chunk `p`, in front and behind. */
    method TrimAligned(p: int, s: nat, alignment: nat, nb: nat) returns (q: int, qs: nat)
      requires Core() && Chunk(p, s) in UsedSet() && 32 <= alignment && alignment % 16 == 0
      requires PaddedSize(nb) && nb + alignment + MIN_CHUNK_SIZE <= s
      modifies this`head, this`foot, this`top, this`topsize, this`dv, this`dvsize, bins
      ensures Core() && UsedSet() == old(UsedSet()) - iset{Chunk(p, s)} + iset{Chunk(q, qs)}
      ensures nb <= qs <= nb + MIN_CHUNK_SIZE && AlignedTo(q + 16, alignment) && p <= q
      ensures p < q ==> !Used(old(head), q)
    {
      hide Tagged, bins.Holds, bins.Valid, AlignedTo;
      UsedFacts(Chunk(p, s));
      q, qs := p, s;
      if !AlignedTo(p + 16, alignment) {
        q := AlignedSpot(p, alignment);
        qs := s - (q - p);
        Multiples(q, 0, p);
        DropFront(p, s, q - p);
      }
      if qs > nb + MIN_CHUNK_SIZE {
        ShrinkChunk(q, qs, nb);
        qs := nb;
      }
    }

    /** internal_memalign, down to chunks, for an alignment that is a power of two from 32 on. */
    method MemalignChunk(alignment: nat, bytes: nat) returns (p: int, got: nat)
      requires Core() && bytes <= MAX_SIZE_T && 32 <= alignment <= MAX_REQUEST && alignment % 16 == 0
      modifies this, bins
      ensures Core()
      ensures p == 0 ==> UsedSet() == old(UsedSet()) && FreeSet() == old(FreeSet())
      ensures p != 0 ==> UsedSet() == old(UsedSet()) + iset{Chunk(p, got)} && !Used(old(head), p) && p >= 16
      ensures p != 0 ==> Pad(bytes) <= got <= Pad(bytes) + MIN_CHUNK_SIZE && AlignedTo(p + 16, alignment)
      ensures p == 0 <==> bytes >= MAX_REQUEST - alignment || old(Refuses(Roomy(bytes, alignment)))
    {
      hide Loose, DvOk, Pad, SmallChoice, SystemRefuses, Wanted, BestFit, Fits, AlignedTo;
      p, got := 0, 0;
      if bytes < MAX_REQUEST - alignment {
        var nb := Pad(bytes);
        ghost var src;
        p, got, src := MallocChunk(Roomy(bytes, alignment));
        if p != 0 {
          ghost var before := UsedSet();
          assert old(UsedSet()) <= before;
          ghost var whole := Chunk(p, got);
          p, got := TrimAligned(p, got, alignment, nb);
          assert Used(old(head), p) ==> Chunk(p, old(head)[p].size) in before;
          assert old(UsedSet()) == before - iset{whole};
        }
      }
    }
  }
}
