/** What callers of the allocator see (dlmalloc, dlfree, dlcalloc, dlrealloc, dlposix_memalign in
    common/malloc.c): the blocks they hold never overlap, whatever calls are made. */
module DlHeap {
  import opened DlAlign
  import opened DlArena
  import opened DlBits
  import opened DlChunks
  import opened DlTags
  import opened DlTrie
  import opened Options

  ghost predicate Covered(used: iset<Chunk>, a: int) {
    exists s: nat :: Chunk(a, s) in used
  }

  /** Chunk `e`, if in use, is held and large enough for its block. */
  ghost predicate ChunkHeld(live: map<int, nat>, used: iset<Chunk>, e: Chunk) {
    e in used ==> e.addr + 16 in live && live[e.addr + 16] + 8 <= e.size
  }

  /** Block `m`, if held, lies in a chunk in use. */
  ghost predicate BlockBacked(live: map<int, nat>, used: iset<Chunk>, m: int) {
    m in live ==> Covered(used, m - 16)
  }

  ghost predicate Backed(live: map<int, nat>, used: iset<Chunk>) {
    && (forall e {:trigger ChunkHeld(live, used, e)} :: ChunkHeld(live, used, e))
    && (forall m {:trigger BlockBacked(live, used, m)} :: BlockBacked(live, used, m))
  }

  lemma BackedAfterNew(live: map<int, nat>, used: iset<Chunk>, p: int, got: nat, bytes: nat)
    requires Backed(live, used) && !Covered(used, p) && bytes + 8 <= got
    ensures p + 16 !in live && Backed(live[p + 16 := bytes], used + iset{Chunk(p, got)})
  {
    var used', live' := used + iset{Chunk(p, got)}, live[p + 16 := bytes];
    assert BlockBacked(live, used, p + 16);
    forall e ensures ChunkHeld(live', used', e) {
      assert ChunkHeld(live, used, e);
    }
    forall m ensures BlockBacked(live', used', m) {
      assert BlockBacked(live, used, m);
      assert Chunk(p, got) in used';
    }
  }

  lemma BackedAfterLoss(live: map<int, nat>, used: iset<Chunk>, p: int, s: nat)
    requires Backed(live, used) && Chunk(p, s) in used && (forall t: nat | Chunk(p, t) in used :: t == s)
    ensures p + 16 in live && live[p + 16] + 8 <= s && Backed(live - {p + 16}, used - iset{Chunk(p, s)})
    ensures !Covered(used - iset{Chunk(p, s)}, p)
  {
    var used', live' := used - iset{Chunk(p, s)}, live - {p + 16};
    assert ChunkHeld(live, used, Chunk(p, s));
    forall e ensures ChunkHeld(live', used', e) {
      assert ChunkHeld(live, used, e);
    }
    forall m ensures BlockBacked(live', used', m) {
      assert BlockBacked(live, used, m);
      if m in live' {
        var t: nat :| Chunk(m - 16, t) in used;
        assert Chunk(m - 16, t) in used';
      }
    }
  }

  /** The `n` bytes from `m` on in `f` are those from `k` on in `g`. */
  ghost predicate SameBytes(f: int -> int, m: int, g: int -> int, k: int, n: int) {
    forall x {:trigger f(x)} | m <= x < m + n :: f(x) == g(x - m + k)
  }

  /** Byte `x` of the store after memcpy. */
  function ByteCopied(m: int -> int, dst: int, src: int, n: nat, x: int): int {
    if dst <= x < dst + n then m(x - dst + src) else m(x)
  }

  function Copied(m: int -> int, dst: int, src: int, n: nat): int -> int {
    x => ByteCopied(m, dst, src, n, x)
  }

  /** `f` is `g` outside the `n` bytes from `at` on. */
  ghost predicate SameOutside(f: int -> int, g: int -> int, at: int, n: int) {
    forall x {:trigger f(x)} | x < at || at + n <= x :: f(x) == g(x)
  }

  lemma CopiedAt(m: int -> int, dst: int, src: int, n: nat, x: int)
    ensures Copied(m, dst, src, n)(x) == ByteCopied(m, dst, src, n, x)
  {
    hide ByteCopied;
  }

  lemma CopiedBytes(m: int -> int, dst: int, src: int, n: nat)
    ensures SameBytes(Copied(m, dst, src, n), dst, m, src, n)
  {
    hide Copied;
    var f := Copied(m, dst, src, n);
    forall x | dst <= x < dst + n ensures f(x) == m(x - dst + src) {
      CopiedAt(m, dst, src, n, x);
    }
  }

  lemma CopiedOutside(m: int -> int, dst: int, src: int, n: nat)
    ensures SameOutside(Copied(m, dst, src, n), m, dst, n)
  {
    hide Copied;
    var f := Copied(m, dst, src, n);
    forall x | x < dst || dst + n <= x ensures f(x) == m(x) {
      CopiedAt(m, dst, src, n, x);
    }
  }

  lemma FewerBytes(f: int -> int, m: int, g: int -> int, k: int, n: int, n': int)
    requires SameBytes(f, m, g, k, n) && n' <= n
    ensures SameBytes(f, m, g, k, n')
  {
  }

  lemma AllBytes(f: int -> int, m: int, n: nat)
    ensures SameBytes(f, m, f, m, n)
  {
  }

  /** Bytes outside the range are the same. */
  lemma KeptBytes(f: int -> int, g: int -> int, at: int, n: nat, m: int, k: nat)
    requires SameOutside(f, g, at, n) && (m + k <= at || at + n <= m)
    ensures SameBytes(f, m, g, m, k)
  {
  }

  /** The bytes dlcalloc asks for: the product, or too much when it does not fit in a word. */
  function ArrayBytes(n: nat, size: nat): (r: nat)
    requires n <= MAX_SIZE_T && size <= MAX_SIZE_T
    ensures r == if n * size <= MAX_SIZE_T then n * size else MAX_SIZE_T
  {
    if n == 0 then
      0
    else
      var req := n * size % 0x1_0000_0000_0000_0000;
      WrapShows(n, size);
      if (n >= 0x1_0000 || size >= 0x1_0000) && req / n != size then MAX_SIZE_T else req
  }

  lemma WrapShows(n: nat, size: nat)
    requires 0 < n
    ensures n * size <= MAX_SIZE_T ==> n * size % 0x1_0000_0000_0000_0000 == n * size && n * size / n == size
    ensures n * size > MAX_SIZE_T ==> n * size % 0x1_0000_0000_0000_0000 / n != size
    ensures n < 0x1_0000 && size < 0x1_0000 ==> n * size <= MAX_SIZE_T
  {
    SmallProduct(n, size);
    ExactQuotient(n, size);
    var r := Wrapped(n * size);
    if r < n * size {
      QuotientBelow(r, n, size);
    }
  }

  function Wrapped(p: nat): (r: nat)
    ensures if p <= MAX_SIZE_T then r == p else r < p
  {
    p % 0x1_0000_0000_0000_0000
  }

  lemma Times(a: nat, b: nat, c: nat)
    requires a <= b
    ensures a * c <= b * c
  {
  }

  lemma SmallProduct(n: nat, size: nat)
    ensures n < 0x1_0000 && size < 0x1_0000 ==> n * size <= 0x1_0000_0000
  {
    if n < 0x1_0000 && size < 0x1_0000 {
      Times(n, 0x1_0000, size);
    }
  }

  lemma QuotientBelow(r: nat, n: nat, size: nat)
    requires 0 < n && r < n * size
    ensures r / n < size
  {
    var q := r / n;
    assert n * q <= r;
    assert q >= size ==> n * q >= n * size;
  }

  lemma ExactQuotient(n: nat, size: nat)
    requires 0 < n
    ensures n * size / n == size
  {
    MultipleOf(size, n);
    var q := n * size / n;
    assert n * q == n * size;
    assert q > size ==> n * q >= n * size + n;
    assert q < size ==> n * q + n <= n * size;
  }

  /** `d & (d - 1) == 0` for a non-zero `d`. */
  ghost predicate IsPow2(d: nat) {
    exists k: nat :: d == Pow2(k)
  }

  /** The exponent of a power of two, by the search that also decides whether there is one. */
  function Log2(d: nat): (k: nat)
    requires d > 0
    ensures d <= Pow2(k) && (IsPow2(d) <==> d == Pow2(k))
  {
    var k := RaiseTo(0, d);
    assert IsPow2(d) ==> d == Pow2(k) by {
      if IsPow2(d) {
        var i: nat :| d == Pow2(i);
        Pow2Grows(k, i);
        if k > 0 {
          Pow2Grows(i, k - 1);
        }
      }
    }
    k
  }

  ghost predicate GoodAlignment(alignment: nat) {
    alignment % 8 == 0 && alignment >= 8 && IsPow2(alignment / 8)
  }

  /** The alignment dlposix_memalign passes on, as the exponent of a power of two. */
  function PosixExponent(alignment: nat): (r: Option<nat>)
    requires alignment != 16
    ensures r.Some? <==> GoodAlignment(alignment)
    ensures r.Some? ==> 5 <= r.value && Pow2(r.value) == if alignment < 32 then 32 else alignment
    ensures r.Some? && alignment < 32 ==> alignment == 8
  {
    if alignment % 8 != 0 || alignment / 8 == 0 then
      None
    else
      var k := Log2(alignment / 8);
      EightTimes(k);
      if alignment / 8 != Pow2(k) then None else Some(if alignment < 32 then 5 else k + 3)
  }

  lemma EightTimes(k: nat)
    ensures 8 * Pow2(k) == Pow2(k + 3) && Pow2(5) == 32
    ensures if k < 2 then Pow2(k) == k + 1 else Pow2(k) >= 4
  {
    assert Pow2(k + 3) == 2 * Pow2(k + 2) && Pow2(k + 2) == 2 * Pow2(k + 1);
    assert k >= 1 ==> Pow2(k) == 2 * Pow2(k - 1);
    assert k >= 2 ==> Pow2(k - 1) == 2 * Pow2(k - 2);
    assert Pow2(0) == 1 && Pow2(1) == 2 && Pow2(2) == 4 && Pow2(3) == 8 && Pow2(4) == 16;
  }

  lemma AlignedToEight(x: int)
    requires AlignedTo(x, 32)
    ensures AlignedTo(x, 8)
  {
    var k := x / 32;
    assert x == 8 * (4 * k);
  }

  datatype Status = Done | InvalidArgument | OutOfMemory

  class Heap {
    const arena: Arena

    /** The blocks callers hold: address and requested bytes. */
    ghost var live: map<int, nat>

    /** The bytes of memory, apart from the tags and links the allocator keeps in free chunks. */
    var store: int -> int

    ghost predicate Valid()
      reads this, arena, arena.bins
    {
      arena.Core() && Backed(live, arena.UsedSet())
    }

    constructor (start: int, cur: int, end: int, contents: int -> int)
      requires 16 <= start <= cur < end < HALF_MAX && cur % 16 == 0
      ensures Valid() && live == map[] && store == contents && fresh(arena) && fresh(arena.bins)
      ensures arena.kstart == start && arena.kend == end
    {
      arena := new Arena(start, cur, end);
      live, store := map[], contents;
    }

    // ---- blocks do not overlap --------------------------------------------------------------

    /** malloc_usable_size */
    ghost function Usable(m: int): int
      requires m - 16 in arena.head
      reads this, arena
    {
      arena.head[m - 16].size - 8
    }

    /** The chunk of a held block. */
    lemma BlockChunk(m: int)
      requires Valid() && m in live
      ensures Used(arena.head, m - 16) && Chunk(m - 16, arena.head[m - 16].size) in arena.UsedSet()
      ensures m >= 32 && live[m] <= Usable(m)
    {
      hide BinsMatch, Tagged;
      assert BlockBacked(live, arena.UsedSet(), m);
      var e := Chunk(m - 16, arena.head[m - 16].size);
      assert ChunkHeld(live, arena.UsedSet(), e);
      arena.UsedFacts(e);
    }

    /** Held blocks are aligned, lie in the kernel heap and do not overlap. */
    lemma BlocksApart(m: int, n: int)
      requires Valid() && m in live && n in live
      ensures m - 16 in arena.head && n - 16 in arena.head && live[m] <= Usable(m) && live[n] <= Usable(n)
      ensures m % 16 == 0 && arena.kstart < m && m + Usable(m) <= arena.kcur
      ensures m != n ==> m + Usable(m) <= n || n + Usable(n) <= m
    {
      hide BinsMatch, Backed;
      BlockChunk(m);
      BlockChunk(n);
      var a, b := m - 16, n - 16;
      arena.UsedFacts(Chunk(a, arena.head[a].size));
      arena.TopPlace();
      if m != n {
        PayloadsApart(arena.head, arena.foot, arena.base, arena.top, a, b);
      }
    }

    /** No tag of any chunk lies inside a held block. */
    lemma TagsApart(m: int, a: int)
      requires Valid() && m in live && a in arena.head
      ensures a + 16 <= m || m + live[m] <= a + 8
      ensures a in arena.foot ==> a + 8 <= m || m + live[m] <= a
    {
      hide BinsMatch, Tagged, Backed;
      BlockChunk(m);
      TagsOutside(arena.head, arena.foot, arena.base, arena.top, m - 16, a);
    }

    /** No part of a free chunk lies inside a held block: neither its tags nor the links of its bin. */
    lemma FreeApart(m: int, a: int)
      requires Valid() && m in live && DlTags.Free(arena.head, arena.top, a)
      ensures m + live[m] <= a + 8 || a + arena.head[a].size + 16 <= m
    {
      hide BinsMatch, Tagged, Backed;
      BlockChunk(m);
      FreeOutside(arena.head, arena.foot, arena.base, arena.top, m - 16, a);
    }

    // ---- the calls --------------------------------------------------------------------------

    /** dlmalloc */
    method Malloc(bytes: nat) returns (mem: int)
      requires Valid() && bytes <= MAX_SIZE_T
      modifies this`live, arena, arena.bins
      ensures Valid() && old(arena.UsedSet()) <= arena.UsedSet()
      ensures mem == 0 ==> live == old(live)
      ensures mem != 0 ==> mem !in old(live) && live == old(live)[mem := bytes]
      ensures mem == 0 <==> old(arena.Refuses(bytes))
    {
      hide arena.Loose, arena.DvOk, Pad, Wanted, Fits, Backed;
      ghost var src;
      var p, got;
      NotUsed();
      p, got, src := arena.MallocChunk(bytes);
      mem := 0;
      if p != 0 {
        mem := p + 16;
        BackedAfterNew(live, old(arena.UsedSet()), p, got, bytes);
        live := live[mem := bytes];
      }
    }

    lemma NotUsed()
      ensures forall a :: Covered(arena.UsedSet(), a) <==> Used(arena.head, a)
    {
      forall a ensures Covered(arena.UsedSet(), a) <==> Used(arena.head, a) {
        if Used(arena.head, a) {
          assert Chunk(a, arena.head[a].size) in arena.UsedSet();
        }
      }
    }

    /** dlfree */
    method Free(mem: int)
      requires Valid() && (mem == 0 || mem in live)
      modifies this`live, arena, arena.bins
      ensures Valid() && live == old(live) - {mem}
    {
      hide arena.Loose, arena.DvOk, Backed;
      NothingAtZero();
      if mem != 0 {
        BlockChunk(mem);
        var p := mem - 16;
        var s := arena.head[p].size;
        BackedAfterLoss(live, arena.UsedSet(), p, s);
        arena.FreeChunk(p, s);
      }
      live := live - {mem};
      assert mem == 0 ==> live == old(live);
    }

    lemma NothingAtZero()
      requires Valid()
      ensures 0 !in live
    {
      hide arena.Core, Backed;
      if 0 in live {
        BlockChunk(0);
      }
    }

    /** memcpy between places that do not overlap. */
    method Copy(dst: int, src: int, n: nat)
      requires dst + n <= src || src + n <= dst
      modifies this`store
      ensures SameBytes(store, dst, old(store), src, n) && SameOutside(store, old(store), dst, n)
    {
      hide Copied, SameBytes, SameOutside;
      CopiedBytes(store, dst, src, n);
      CopiedOutside(store, dst, src, n);
      store := Copied(store, dst, src, n);
    }

    /** The second half of dlrealloc: moves the block to a new place. */
    method Move(mem: int, bytes: nat) returns (r: int)
      requires Valid() && bytes <= MAX_SIZE_T && mem in live
      modifies this, arena, arena.bins
      ensures Valid()
      ensures r == 0 ==> live == old(live) && store == old(store)
      ensures r != 0 ==> r !in old(live) && live == (old(live) - {mem})[r := bytes]
      ensures r != 0 ==> SameBytes(store, r, old(store), mem, if old(live[mem]) < bytes then old(live[mem]) else bytes)
      ensures forall m | m in old(live) && m != mem :: SameBytes(store, m, old(store), m, old(live)[m])
      ensures r == 0 <==> old(arena.Refuses(bytes))
    {
      hide arena.Core, Backed, Fits, Wanted, SameBytes, SameOutside;
      r := Malloc(bytes);
      forall m | m in old(live) ensures SameBytes(store, m, old(store), m, old(live)[m]) {
        AllBytes(store, m, old(live)[m]);
      }
      if r != 0 {
        BlocksApart(r, mem);
        forall m | m in old(live) ensures r + bytes <= m || m + old(live)[m] <= r {
          BlocksApart(r, m);
        }
        var oc := arena.head[mem - 16].size - 8;
        var n := if oc < bytes then oc else bytes;
        Copy(r, mem, n);
        FewerBytes(store, r, old(store), mem, n, if old(live[mem]) < bytes then old(live[mem]) else bytes);
        forall m | m in old(live) ensures SameBytes(store, m, old(store), m, old(live)[m]) {
          KeptBytes(store, old(store), r, n, m, old(live)[m]);
        }
        Free(mem);
      }
    }

    /** The chunk of block `mem` can be made large enough for `bytes` bytes where it is. */
    ghost predicate GrowsInPlace(mem: int, bytes: nat)
      reads this, arena
    {
      mem - 16 in arena.head && arena.CanGrowInPlace(mem - 16, arena.head[mem - 16].size, Pad(bytes))
    }

    /** dlrealloc: the block keeps its first bytes, wherever it ends up, and no other block changes. */
    method Realloc(mem: int, bytes: nat) returns (r: int)
      requires Valid() && bytes <= MAX_SIZE_T && (mem == 0 || mem in live)
      modifies this, arena, arena.bins
      ensures Valid()
      ensures r == 0 ==> live == old(live) && store == old(store)
      ensures r != 0 ==> (r == mem || r !in old(live)) && live == (old(live) - {mem})[r := bytes]
      ensures r != 0 && mem != 0 ==>
                SameBytes(store, r, old(store), mem, if old(live[mem]) < bytes then old(live[mem]) else bytes)
      ensures forall m | m in old(live) && m != mem :: SameBytes(store, m, old(store), m, old(live)[m])
      ensures mem == 0 ==> (r == 0 <==> old(arena.Refuses(bytes)))
      ensures mem != 0 ==>
                (r == 0 <==> bytes >= MAX_REQUEST || (!old(GrowsInPlace(mem, bytes)) && old(arena.Refuses(bytes))))
      ensures mem != 0 && old(GrowsInPlace(mem, bytes)) && bytes < MAX_REQUEST ==> r == mem
    {
      hide arena.Loose, arena.DvOk, Pad, Wanted, Fits, Backed;
      r := 0;
      NothingAtZero();
      if mem != 0 {
        BlockChunk(mem);
      }
      if mem == 0 {
        r := Malloc(bytes);
        assert old(live) - {mem} == old(live);
      } else if bytes < MAX_REQUEST {
        var p := mem - 16;
        var s := arena.head[p].size;
        BackedAfterLoss(live, arena.UsedSet(), p, s);
        var ok, got := arena.TryRealloc(p, s, Pad(bytes));
        if ok {
          r := mem;
          BackedAfterNew(live - {mem}, old(arena.UsedSet()) - iset{Chunk(p, s)}, p, got, bytes);
          live := (live - {mem})[mem := bytes];
        } else {
          r := Move(mem, bytes);
        }
      }
    }

    /** dlcalloc: the whole array, all zero, or nothing. */
    method Calloc(n: nat, size: nat) returns (mem: int)
      requires Valid() && n <= MAX_SIZE_T && size <= MAX_SIZE_T
      modifies this, arena, arena.bins
      ensures Valid()
      ensures mem == 0 ==> live == old(live) && store == old(store)
      ensures mem != 0 ==> mem !in old(live) && live == old(live)[mem := n * size]
      ensures mem != 0 ==> forall x | mem <= x < mem + n * size :: store(x) == 0
      ensures forall m | m in old(live) :: SameBytes(store, m, old(store), m, old(live)[m])
      ensures mem == 0 <==> old(arena.Refuses(ArrayBytes(n, size)))
    {
      hide arena.Core, Backed, Fits, ArrayBytes;
      var req := ArrayBytes(n, size);
      HugeFails();
      mem := Malloc(req);
      if mem != 0 {
        forall m | m in old(live) ensures mem + req <= m || m + old(live)[m] <= mem {
          BlocksApart(mem, m);
        }
        var before := store;
        store := x => if mem <= x < mem + req then 0 else before(x);
      }
    }

    /** Nothing can satisfy a request of MAX_SIZE_T bytes. */
    lemma HugeFails()
      requires Valid()
      ensures arena.Refuses(MAX_SIZE_T)
    {
      hide Backed;
      arena.AllTooSmall(MAX_SIZE_T);
    }

    /** No block of `bytes` bytes with that alignment can be had; 16 is what every block has. */
    ghost predicate FailsAligned(alignment: nat, bytes: nat)
      requires bytes <= MAX_SIZE_T
      reads this, arena
    {
      if alignment == 16 then arena.Refuses(bytes)
      else bytes >= MAX_REQUEST - alignment || arena.Refuses(Roomy(bytes, alignment))
    }

    /** internal_memalign, once the alignment is a power of two from 32 on. */
    method InternalMemalign(a: nat, bytes: nat, ghost j: nat) returns (mem: int)
      requires Valid() && bytes <= MAX_SIZE_T && 5 <= j && a == Pow2(j) <= MAX_SIZE_T
      modifies this`live, arena, arena.bins
      ensures Valid()
      ensures mem == 0 ==> live == old(live)
      ensures mem != 0 ==> mem !in old(live) && live == old(live)[mem := bytes] && AlignedTo(mem, a)
      ensures a >= 32 && (mem == 0 <==> old(FailsAligned(a, bytes)))
    {
      hide arena.Core, Backed, Pad, AlignedTo, Pow2;
      PowersOfTwo(j);
      NotUsed();
      var p, got := arena.MemalignChunk(a, bytes);
      mem := 0;
      if p != 0 {
        mem := p + 16;
        BackedAfterNew(live, old(arena.UsedSet()), p, got, bytes);
        live := live[mem := bytes];
      }
    }

    /** dlmemalign: the alignment is raised to a power of two, for the alignments with which the call
        returns (DlAlign.LoopEnds). */
    method Memalign(alignment: nat, bytes: nat) returns (mem: int)
      requires Valid() && bytes <= MAX_SIZE_T && alignment <= HALF_WORD
      modifies this`live, arena, arena.bins
      ensures Valid()
      ensures mem == 0 ==> live == old(live)
      ensures mem != 0 ==> mem !in old(live) && live == old(live)[mem := bytes]
      ensures mem != 0 && alignment > 16 ==> AlignedTo(mem, Pow2(RaiseTo(5, alignment)))
      ensures mem == 0 <==> old(FailsAligned(if alignment <= 16 then 16 else Pow2(RaiseTo(5, alignment)), bytes))
    {
      hide arena.Core, Backed, Fits, Wanted, AlignedTo, Pow2, RaiseTo;
      if alignment <= 16 {
        mem := Malloc(bytes);
      } else {
        var a, j := RaiseAlignment(alignment);
        mem := InternalMemalign(a, bytes, j);
      }
    }

    /** dlposix_memalign: the alignment must be a power of two and a multiple of the word size. */
    method PosixMemalign(alignment: nat, bytes: nat) returns (rc: Status, mem: int)
      requires Valid() && bytes <= MAX_SIZE_T && alignment <= MAX_SIZE_T
      modifies this`live, arena, arena.bins
      ensures Valid()
      ensures rc.InvalidArgument? <==> alignment != 16 && !GoodAlignment(alignment)
      ensures !rc.Done? ==> live == old(live)
      ensures rc.Done? ==> mem !in old(live) && live == old(live)[mem := bytes]
      ensures rc.Done? ==> alignment > 0 && AlignedTo(mem, alignment)
      ensures rc.OutOfMemory? <==>
                && !rc.InvalidArgument?
                && old(FailsAligned(if 16 < alignment < 32 || alignment < 16 then 32 else alignment, bytes))
    {
      hide arena.Core, Backed, Fits, Wanted, GoodAlignment, PosixExponent, Pow2;
      mem := 0;
      if alignment == 16 {
        mem := Malloc(bytes);
        if mem != 0 {
          BlocksApart(mem, mem);
        }
      } else {
        var j := PosixExponent(alignment);
        if j.None? {
          return InvalidArgument, 0;
        }
        PowersOfTwo(j.value);
        if bytes <= MAX_REQUEST - alignment {
          mem := InternalMemalign(Pow2(j.value), bytes, j.value);
          if mem != 0 && alignment < 32 {
            AlignedToEight(mem);
          }
        }
      }
      rc := if mem == 0 then OutOfMemory else Done;
    }

    /** dlmalloc_trim */
    method Trim(pad: nat) returns (released: bool)
      requires Valid() && pad <= MAX_SIZE_T
      modifies arena
      ensures Valid() && (released <==> arena.kcur < old(arena.kcur))
    {
      hide Backed;
      var n := arena.SysTrim(pad);
      released := n != 0;
    }
  }

  // ---- whole runs ---------------------------------------------------------------------------

  datatype Call =
    | MallocCall(bytes: nat)
    | FreeCall(mem: int)
    | ReallocCall(mem: int, bytes: nat)
    | CallocCall(n: nat, size: nat)
    | MemalignCall(alignment: nat, bytes: nat)
    | AlignedCall(alignment: nat, bytes: nat)
    | TrimCall(pad: nat)

  /** The arguments fit in machine words, and the call returns. */
  predicate IsCall(c: Call) {
    match c
    case MallocCall(b) => b <= MAX_SIZE_T
    case FreeCall(_) => true
    case ReallocCall(_, b) => b <= MAX_SIZE_T
    case CallocCall(n, s) => n <= MAX_SIZE_T && s <= MAX_SIZE_T
    case MemalignCall(a, b) => a <= HALF_WORD && b <= MAX_SIZE_T
    case AlignedCall(a, b) => a <= MAX_SIZE_T && b <= MAX_SIZE_T
    case TrimCall(p) => p <= MAX_SIZE_T
  }

  /** Blocks are aligned, lie between `lo` and `hi`, and do not overlap. */
  ghost predicate Separate(held: map<int, nat>, lo: int, hi: int) {
    && (forall m | m in held :: m % 16 == 0 && lo < m && m + held[m] <= hi)
    && (forall m, n | m in held && n in held && m != n :: m + held[m] <= n || n + held[n] <= m)
  }

  /** One call by a caller that frees and reallocates only blocks it holds; `held` is its record. */
  method Step(h: Heap, held: map<int, nat>, c: Call) returns (held': map<int, nat>)
    requires h.Valid() && held == h.live && IsCall(c)
    modifies h, h.arena, h.arena.bins
    ensures h.Valid() && held' == h.live
  {
    hide Backed, Fits, Wanted, AlignedTo, GoodAlignment;
    held' := held;
    match c {
      case MallocCall(b) =>
        var r := h.Malloc(b);
        if r != 0 {
          held' := held[r := b];
        }
      case FreeCall(m) =>
        if m in held {
          h.Free(m);
          held' := held - {m};
        }
      case ReallocCall(m, b) =>
        if m == 0 || m in held {
          var r := h.Realloc(m, b);
          if r != 0 {
            held' := (held - {m})[r := b];
          }
        }
      case CallocCall(n, s) =>
        var r := h.Calloc(n, s);
        if r != 0 {
          held' := held[r := n * s];
        }
      case MemalignCall(a, b) =>
        var r := h.Memalign(a, b);
        if r != 0 {
          held' := held[r := b];
        }
      case AlignedCall(a, b) =>
        var rc, r := h.PosixMemalign(a, b);
        if rc.Done? {
          held' := held[r := b];
        }
      case TrimCall(p) =>
        var released := h.Trim(p);
    }
  }

  /** After every run of calls, from the start of the system on, the blocks held do not overlap. */
  method Run(start: int, cur: int, end: int, contents: int -> int, calls: seq<Call>) returns (held: map<int, nat>)
    requires 16 <= start <= cur < end < HALF_MAX && cur % 16 == 0
    requires forall i | 0 <= i < |calls| :: IsCall(calls[i])
    ensures Separate(held, start, end)
  {
    var h := new Heap(start, cur, end, contents);
    held := map[];
    for i := 0 to |calls|
      invariant h.Valid() && held == h.live && fresh(h) && fresh(h.arena) && fresh(h.arena.bins)
      invariant h.arena.kstart == start && h.arena.kend == end
    {
      hide Backed, h.arena.Core;
      held := Step(h, held, calls[i]);
    }
    forall m, n | m in held && n in held
      ensures m % 16 == 0 && start < m && m + held[m] <= end && (m != n ==> m + held[m] <= n || n + held[n] <= m)
    {
      h.BlocksApart(m, n);
    }
  }
}
