/** Files (find_free_data_block, bmap, inode_read and inode_write in fs/inode.c) over the buffer cache. */
module FsInode {
  import opened FsCache
  import opened FsFiles
  import opened Options

  class FileSystem {
    const cache: Cache
    const mapBlk: nat
    const first: nat
    const nblocks: nat
    var inodes: map<int, Inode>

    ghost predicate LayoutOk()
      reads cache
    {
      LayoutFits(mapBlk, first, nblocks, |cache.image|)
    }

    /** The state of the file system while the buffer of block `h` is taken. */
    ghost predicate Sound(h: Option<nat>)
      reads this, cache
    {
      && cache.Only(h) && LayoutOk() && Unshared(inodes) && |cache.Content(mapBlk)| == 512
      && forall f | f in inodes :: InodeOk(inodes[f], cache.Content(mapBlk), first, nblocks)
    }

    ghost predicate Valid()
      reads this, cache
    {
      Sound(None)
    }

    ghost function Now(): View
      reads this, cache
    {
      View(inodes, cache.buf, cache.image)
    }

    ghost predicate Has(f: int, o: nat)
      reads this
    {
      HasIn(inodes, f, o)
    }

    ghost function ByteAt(f: int, o: nat): nat
      reads this, cache
    {
      ByteIn(Now(), f, o)
    }

    /** The free blocks, in the order in which they are taken. */
    ghost function Free(): seq<nat>
      reads cache
    {
      if OnDisk(cache.image, mapBlk) && |cache.Content(mapBlk)| == 512 && nblocks <= 512
      then FreeFrom(cache.Content(mapBlk), first, 0, nblocks)
      else []
    }

    /** The blocks of files lie on the disk, apart from the map. */
    lemma BlockOf(f: int, o: nat, h: Option<nat>)
      requires Sound(h) && Has(f, o)
      ensures var b := inodes[f].addr[o / 512];
              && first <= b < first + nblocks && b != mapBlk && OnDisk(cache.image, b) && !Unowned(b)
              && |cache.Content(b)| == 512 && ByteAt(f, o) == cache.Content(b)[o % 512]
              && b !in Free()
    {
      hide Ordered, ContentOf, Unique, Used;
      var b := inodes[f].addr[o / 512];
      assert InodeOk(inodes[f], cache.Content(mapBlk), first, nblocks);
      assert AddrOk(b, cache.Content(mapBlk), first, nblocks);
      cache.ContentSize(b);
    }

    /** A file system over a disk with files. */
    constructor (cache: Cache, mapBlk: nat, first: nat, nblocks: nat, files: map<int, Inode>)
      requires cache.Quiet() && LayoutFits(mapBlk, first, nblocks, |cache.image|)
      requires |cache.Content(mapBlk)| == 512 && Unshared(files)
      requires forall f | f in files :: InodeOk(files[f], cache.Content(mapBlk), first, nblocks)
      ensures Valid() && inodes == files && this.cache == cache
      ensures this.mapBlk == mapBlk && this.first == first && this.nblocks == nblocks
    {
      this.cache, this.mapBlk, this.first, this.nblocks, this.inodes := cache, mapBlk, first, nblocks, files;
    }

    /** No data block is free, or no buffer can be had: the kernel stops. */
    ghost predicate Full()
      requires OnDisk(cache.image, mapBlk) && |cache.Content(mapBlk)| == 512 && nblocks <= 512
      reads cache
    {
      (forall i | 0 <= i < nblocks :: Used(cache.Content(mapBlk), i)) || cache.Exhausted()
    }

    // ---- blocks -----------------------------------------------------------------------------

    /** One round of find_free_data_block: takes bit `i` of the map if it is free. */
    method TakeBit(i: nat, ghost h: Option<nat>) returns (r: Option<bool>)
      requires cache.Only(h) && h != Some(mapBlk) && LayoutOk() && i < nblocks
      modifies cache
      ensures cache.Only(h) && HeldKept(old(cache.buf), cache.buf)
      ensures |cache.image| == |old(cache.image)| && |old(cache.Content(mapBlk))| == 512
      ensures forall c | OnDisk(cache.image, c) && c != mapBlk :: cache.Content(c) == old(cache.Content(c))
      ensures r == Some(true) ==> !Used(old(cache.Content(mapBlk)), i)
      ensures r == Some(true) ==> cache.Content(mapBlk) == MarkUsed(old(cache.Content(mapBlk)), i)
      ensures r != Some(true) ==> cache.Content(mapBlk) == old(cache.Content(mapBlk))
      ensures r == Some(false) ==> Used(old(cache.Content(mapBlk)), i)
      ensures DirtyBlocks(cache.buf) == DirtyBlocks(old(cache.buf)) + if r == Some(true) then {mapBlk} else {}
      ensures r.None? <==> !Room(old(cache.Taken(h)), |cache.buf|, mapBlk)
    {
      hide ContentOf, Used, MarkUsed, DirtyBlocks, Room, AllTaken, HasBuffer, BusyOnly, cache.Valid, cache.Taken;
      cache.ContentSize(mapBlk);
      cache.RoomIs(mapBlk, h);
      var g := cache.Read(mapBlk);
      if !g.Granted? {
        return None;
      }
      var d := cache.buf[g.k].data;
      r := Some(false);
      if !Used(d, i) {
        cache.Rewrite(g.k, MarkUsed(d, i));
        r := Some(true);
      }
      cache.PutBack(g.k, old(cache.buf), h);
    }

    /** What clearing block `b` in its buffer makes of its content: zeros when the buffer is dirty, and
        otherwise nothing, as the old bytes come back with the next read. */
    ghost function Cleared(b: nat): Block
      requires OnDisk(cache.image, b)
      reads cache
    {
      if b in DirtyBlocks(cache.buf) then seq(512, _ => 0) else cache.Content(b)
    }

    /** The end of find_free_data_block: block `b` is cleared, in its buffer. */
    method Clear(b: nat, ghost h: Option<nat>) returns (ok: bool)
      requires cache.Only(h) && h != Some(b) && OnDisk(cache.image, b)
      modifies cache
      ensures cache.Only(h) && HeldKept(old(cache.buf), cache.buf) && |cache.image| == |old(cache.image)|
      ensures forall c | OnDisk(cache.image, c) && (c != b || !ok) :: cache.Content(c) == old(cache.Content(c))
      ensures ok ==> cache.Content(b) == old(Cleared(b))
      ensures DirtyBlocks(cache.buf) == DirtyBlocks(old(cache.buf))
      ensures !ok <==> !Room(old(cache.Taken(h)), |cache.buf|, b)
    {
      hide Ordered, ContentOf, Unique, DirtyBlocks, Room;
      cache.RoomIs(b, h);
      var g := cache.Read(b);
      ok := g.Granted?;
      if ok {
        cache.Change(g.k, seq(512, _ => 0));
        cache.PutBack(g.k, old(cache.buf), h);
      }
    }

    /** No file has block `b`. */
    ghost predicate Unowned(b: nat)
      reads this
    {
      forall f, j | f in inodes && 0 <= j < |inodes[f].addr| :: inodes[f].addr[j] != b
    }

    /** Marking more of the map keeps the files as they are. */
    lemma MoreUsed(d: Block, d': Block, i: nat)
      requires |d| == 512 && i < nblocks <= 512 && d' == MarkUsed(d, i) && !Used(d, i) && first > 0
      requires forall f | f in inodes :: InodeOk(inodes[f], d, first, nblocks)
      ensures forall f | f in inodes :: InodeOk(inodes[f], d', first, nblocks)
      ensures Used(d', i) && Unowned(first + i)
    {
      hide Used, MarkUsed;
      UsedAfter(d, i, i);
      forall f | f in inodes
        ensures InodeOk(inodes[f], d', first, nblocks)
        ensures forall j | 0 <= j < |inodes[f].addr| :: inodes[f].addr[j] != first + i
      {
        assert InodeOk(inodes[f], d, first, nblocks);
        forall j | 0 <= j < DIRECT
          ensures AddrOk(inodes[f].addr[j], d', first, nblocks) && inodes[f].addr[j] != first + i
        {
          var a := inodes[f].addr[j];
          assert AddrOk(a, d, first, nblocks);
          if a != 0 {
            UsedAfter(d, i, a - first);
          }
        }
      }
    }

    /** The loop of find_free_data_block: the first free block, marked as used. */
    method TakeFirst(ghost h: Option<nat>) returns (r: Option<nat>)
      requires Sound(h) && h != Some(mapBlk)
      modifies cache
      ensures Sound(h) && HeldKept(old(cache.buf), cache.buf) && |cache.image| == |old(cache.image)|
      ensures r.None? <==> old(Free()) == [] || !Room(old(cache.Taken(h)), |cache.buf|, mapBlk)
      ensures r.Some? ==> r.value == old(Free())[0] && Free() == old(Free())[1..]
      ensures r.Some? ==> first <= r.value < first + nblocks && Used(cache.Content(mapBlk), r.value - first)
      ensures r.Some? ==> Unowned(r.value)
      ensures forall c | OnDisk(cache.image, c) && c != mapBlk :: cache.Content(c) == old(cache.Content(c))
      ensures r.None? ==> cache.Content(mapBlk) == old(cache.Content(mapBlk))
      ensures DirtyBlocks(cache.buf) == DirtyBlocks(old(cache.buf)) + if r.Some? then {mapBlk} else {}
    {
      hide ContentOf, Used, MarkUsed, InodeOk, DirtyBlocks, Room, cache.Only, Unshared, FreeFrom;
      var i := 0;
      while i < nblocks
        invariant 0 <= i <= nblocks && Sound(h) && |cache.image| == |old(cache.image)|
        invariant HeldKept(old(cache.buf), cache.buf) && DirtyBlocks(cache.buf) == DirtyBlocks(old(cache.buf))
        invariant forall c | OnDisk(cache.image, c) :: cache.Content(c) == old(cache.Content(c))
        invariant forall j | 0 <= j < i :: Used(cache.Content(mapBlk), j)
      {
        ghost var d := cache.Content(mapBlk);
        var bit := TakeBit(i, h);
        if bit.None? {
          return None;
        }
        if bit.value {
          MoreUsed(d, cache.Content(mapBlk), i);
          FreeAfter(d, first, 0, i, nblocks);
          return Some(first + i);
        }
        i := i + 1;
      }
      NoneFree(cache.Content(mapBlk));
      return None;
    }

    lemma NoneFree(d: Block)
      requires |d| == 512 && nblocks <= 512
      ensures FreeFrom(d, first, 0, nblocks) == [] <==> forall i | 0 <= i < nblocks :: Used(d, i)
    {
      hide Used;
      var s := FreeFrom(d, first, 0, nblocks);
      if s != [] {
        assert s[0] in s;
      } else {
        forall i | 0 <= i < nblocks ensures Used(d, i) {
          assert first + i !in s;
        }
      }
    }

    /** find_free_data_block, while the buffer of block `h` of some file may be taken: the first free block,
        marked as used, and nothing exactly when no block is free or when the map and the block need more
        buffers than there are.  The new block has the bytes it had, unless its buffer is dirty. */
    method FindFree(ghost h: Option<nat>) returns (r: Option<nat>)
      requires Sound(h) && h != Some(mapBlk) && (h.Some? ==> !Unowned(h.value))
      modifies cache
      ensures Sound(h) && HeldKept(old(cache.buf), cache.buf) && |cache.image| == |old(cache.image)|
      ensures r.None? <==> Lacking(old(Free()), old(cache.Taken(h)), mapBlk, |cache.buf|)
      ensures r.Some? ==> r.value == old(Free())[0] && Free() == old(Free())[1..]
      ensures r.Some? ==> first <= r.value < first + nblocks && Used(cache.Content(mapBlk), r.value - first)
      ensures r.Some? ==> Unowned(r.value)
      ensures forall c | OnDisk(cache.image, c) && c != mapBlk && r != Some(c) ::
                cache.Content(c) == old(cache.Content(c))
      ensures r.Some? ==> cache.Content(r.value) == old(Cleared(r.value))
      ensures r.Some? ==> DirtyBlocks(cache.buf) == DirtyBlocks(old(cache.buf)) + {mapBlk}
      ensures r.None? && h.None? ==> Full()
    {
      hide ContentOf, Used, InodeOk, DirtyBlocks, Unshared, FreeFrom, HeldKept, cache.Only, Full, Room, Lacking;
      ghost var taken, n := cache.Taken(h), |cache.buf|;
      TakenFits(h);
      LackingRoom(Free(), taken, n, mapBlk);
      r := TakeFirst(h);
      HeldTwice(old(cache.buf), cache.buf, cache.buf);
      if r.None? {
        FullWhen(h, mapBlk);
      } else {
        assert taken + {mapBlk} == cache.Taken(h);
        FullWhen(h, r.value);
        ghost var marked := cache.buf;
        var ok := Clear(r.value, h);
        HeldTwice(old(cache.buf), marked, cache.buf);
        FullWhen(h, r.value);
        r := if ok then r else None;
      }
    }

    /** The kernel stops: no block is free, or block `b` cannot be had. */
    lemma FullWhen(h: Option<nat>, b: nat)
      requires Sound(h)
      ensures h.None? && (Free() == [] || !Room(cache.Taken(h), |cache.buf|, b)) ==> Full()
    {
      hide Ordered, Used, InodeOk, FreeFrom, DirtyBlocks;
      if h.None? {
        cache.RoomIs(mapBlk, None);
        NoneFree(cache.Content(mapBlk));
        assert cache.Taken(h) == DirtyBlocks(cache.buf);
      }
    }

    lemma TakenFits(h: Option<nat>)
      requires Sound(h) && h != Some(mapBlk)
      ensures |cache.Taken(h)| <= |cache.buf| && (h.None? ==> cache.Taken(h) == DirtyBlocks(cache.buf))
    {
      hide Ordered;
      cache.RoomIs(mapBlk, h);
    }

    /** Two blocks can be had one after the other exactly when there are buffers for both. */
    static lemma RoomTwice(taken: set<nat>, n: nat, m: nat, b: nat)
      requires |taken| <= n
      ensures (Room(taken, n, m) && Room(taken + {m}, n, b)) <==> |taken + {m, b}| <= n
    {
      assert taken + {m, b} == taken + {m} + {b};
      assert m in taken ==> taken + {m} == taken;
      assert b in taken + {m} ==> taken + {m} + {b} == taken + {m};
    }

    static lemma LackingRoom(free: seq<nat>, taken: set<nat>, n: nat, m: nat)
      requires |taken| <= n
      ensures Lacking(free, taken, m, n) <==>
              free == [] || !Room(taken, n, m) || !Room(taken + {m}, n, free[0])
    {
      hide Room;
      if free != [] {
        RoomTwice(taken, n, m, free[0]);
      }
    }

    /** release_data_block, for a number that the map has a bit for: it clears the bit at the number of the
        block itself, which is that of block `first + b`.  So block `b` stays used, and the files stay sound
        exactly when none of them has the other block. */
    method ReleaseBlock(b: nat) returns (r: Outcome)
      requires Valid() && b < 512
      modifies cache
      ensures |cache.image| == |old(cache.image)| && |cache.buf| == |old(cache.buf)|
      ensures forall c | OnDisk(cache.image, c) && c != mapBlk :: cache.Content(c) == old(cache.Content(c))
      ensures r.Halted? || (r.Done? && cache.Quiet())
      ensures r.Done? <==> Room(DirtyBlocks(old(cache.buf)), |cache.buf|, mapBlk) && Used(old(cache.Content(mapBlk)), b)
      ensures r.Done? ==> |cache.Content(mapBlk)| == 512 && !Used(cache.Content(mapBlk), b)
      ensures r.Done? ==> forall i | 0 <= i < 512 && i != b ::
                Used(cache.Content(mapBlk), i) == Used(old(cache.Content(mapBlk)), i)
      ensures r.Done? && b < nblocks ==> (Valid() <==> Unowned(first + b))
    {
      hide ContentOf, Used, MarkFree, DirtyBlocks, Room, AllTaken, HasBuffer, BusyOnly, cache.Valid, InodeOk,
        HeldKept, Unowned;
      cache.ContentSize(mapBlk);
      cache.RoomIs(mapBlk, None);
      var g := cache.Read(mapBlk);
      if !g.Granted? {
        return Halted;
      }
      var d := cache.buf[g.k].data;
      if !Used(d, b) {
        return Halted;
      }
      cache.Rewrite(g.k, MarkFree(d, b));
      cache.PutBack(g.k, old(cache.buf), None);
      forall i | 0 <= i < 512 ensures Used(MarkFree(d, b), i) <==> Used(d, i) && i != b {
        FreeAfterMark(d, b, i);
      }
      if b < nblocks {
        OneFreed(d, MarkFree(d, b), b);
      }
      r := Done;
    }

    /** Freeing one block breaks exactly the file that has it. */
    lemma OneFreed(d: Block, d': Block, b: nat)
      requires |d| == 512 && |d'| == 512 && b < nblocks <= 512 && first > 0
      requires forall i | 0 <= i < 512 :: Used(d', i) <==> Used(d, i) && i != b
      requires forall f | f in inodes :: InodeOk(inodes[f], d, first, nblocks)
      ensures (forall f | f in inodes :: InodeOk(inodes[f], d', first, nblocks)) <==> Unowned(first + b)
    {
      hide Used;
      forall f | f in inodes
        ensures InodeOk(inodes[f], d', first, nblocks) <==>
                forall j | 0 <= j < |inodes[f].addr| :: inodes[f].addr[j] != first + b
      {
        assert InodeOk(inodes[f], d, first, nblocks);
        forall j | 0 <= j < DIRECT
          ensures AddrOk(inodes[f].addr[j], d', first, nblocks) <==> inodes[f].addr[j] != first + b
        {
          assert AddrOk(inodes[f].addr[j], d, first, nblocks);
        }
      }
    }

    /** A block of nobody becomes the block of place `j`. */
    lemma NewBlock(f: int, j: nat, b: nat)
      requires Valid() && f in inodes && j < DIRECT && |inodes[f].addr| == ADDRS
      requires first <= b < first + nblocks && Used(cache.Content(mapBlk), b - first) && Unowned(b)
      ensures var ino := inodes[f].(addr := inodes[f].addr[j := b]);
              InodeOk(ino, cache.Content(mapBlk), first, nblocks) && Unshared(inodes[f := ino])
    {
      hide Used, cache.Only, ContentOf;
      assert InodeOk(inodes[f], cache.Content(mapBlk), first, nblocks);
      var ino := inodes[f].(addr := inodes[f].addr[j := b]);
      assert forall i | 0 <= i < ADDRS :: i != j ==> ino.addr[i] == inodes[f].addr[i];
    }

    /** bmap for a direct block: the block of place `j` of the file, the first free one if it has none. */
    method BmapDirect(f: int, j: nat) returns (p: Place)
      requires Valid() && f in inodes && j < DIRECT
      modifies this`inodes, cache
      ensures Valid() && |cache.image| == |old(cache.image)| && |cache.buf| == |old(cache.buf)|
      ensures !p.Stray? && |old(inodes)[f].addr| == ADDRS
      ensures p.Stop? <==>
              old(inodes)[f].addr[j] == 0 && Lacking(old(Free()), DirtyBlocks(old(cache.buf)), mapBlk, |cache.buf|)
      ensures p.Stop? ==> inodes == old(inodes) && Full()
      ensures p.Mapped? ==>
                first <= p.b < first + nblocks && p.b !in Free() && inodes == With(old(inodes), f, j, p.b)
      ensures p.Mapped? && old(inodes)[f].addr[j] != 0 ==>
                p.b == old(inodes)[f].addr[j] && unchanged(cache) && unchanged(this)
      ensures p.Mapped? && old(inodes)[f].addr[j] == 0 ==>
                && old(Free()) != [] && p.b == old(Free())[0] && Free() == old(Free())[1..]
                && DirtyBlocks(cache.buf) == DirtyBlocks(old(cache.buf)) + {mapBlk}
      ensures forall c | OnDisk(cache.image, c) && c != mapBlk && !(old(inodes)[f].addr[j] == 0 && p == Mapped(c)) ::
                cache.Content(c) == old(cache.Content(c))
    {
      hide ContentOf, Used, Unshared, FreeFrom, DirtyBlocks, cache.Only;
      var ino := inodes[f];
      assert InodeOk(ino, cache.Content(mapBlk), first, nblocks);
      assert AddrOk(ino.addr[j], cache.Content(mapBlk), first, nblocks);
      if ino.addr[j] != 0 {
        assert ino.addr == ino.addr[j := ino.addr[j]] && inodes == inodes[f := ino];
        return Mapped(ino.addr[j]);
      }
      TakenFits(None);
      var b := FindFree(None);
      if b.None? {
        return Stop;
      }
      NewBlock(f, j, b.value);
      inodes := inodes[f := ino.(addr := ino.addr[j := b.value])];
      p := Mapped(b.value);
    }

    /** The old bytes of block `b` are there, and word `r` of them is not zero. */
    ghost predicate Stale(b: nat, r: nat)
      reads cache
    {
      && b !in DirtyBlocks(cache.buf) && OnDisk(cache.image, b) && 8 * r + 8 <= |cache.Content(b)|
      && !Blank(cache.Content(b), r)
    }

    lemma StaleIs(b: nat, r: nat)
      requires Valid() && OnDisk(cache.image, b) && r < DIRECT
      ensures |Cleared(b)| == 512 && (Stale(b, r) <==> !Blank(Cleared(b), r))
    {
      hide Ordered, ContentOf;
      cache.ContentSize(b);
    }

    /** The free blocks are different data blocks. */
    lemma FreeApart()
      requires Valid()
      ensures 0 !in Free()
      ensures forall b | b in Free() :: first <= b < first + nblocks && b != mapBlk && OnDisk(cache.image, b)
      ensures forall x, y | 0 <= x < y < |Free()| :: Free()[x] != Free()[y]
    {
      hide cache.Only, InodeOk, Used, ContentOf;
      forall x, y | 0 <= x < y < |Free()| ensures Free()[x] != Free()[y] {
        FreeAscends(cache.Content(mapBlk), first, 0, nblocks, x, y);
      }
    }

    /** The only buffer of block `b` is taken. */
    lemma NowTaken(was: seq<Buf>, k: nat, b: nat)
      requires cache.Valid() && k < |was| == |cache.buf| && cache.buf == was[k := cache.buf[k]]
      requires cache.buf[k].busy && cache.buf[k].blk == Some(b) && forall i | 0 <= i < |was| :: !was[i].busy
      ensures cache.Only(Some(b))
    {
      hide Ordered;
      assert HasBuffer(cache.buf, b);
    }

    /** It is given back. */
    lemma GivenBack(was: seq<Buf>, k: nat, b: nat)
      requires cache.Valid() && Unique(was) && k < |was| == |cache.buf| && cache.buf == was[k := cache.buf[k]]
      requires was[k].blk == Some(b) && !cache.buf[k].busy
      requires forall i | 0 <= i < |was| :: was[i].busy <==> was[i].blk == Some(b)
      ensures cache.Quiet()
    {
      hide cache.Valid;
    }

    /** A new index block, stored under place `r` instead of its own. */
    method TakeIndex(f: int, r: nat) returns (index: Option<nat>)
      requires Valid() && f in inodes && r < DIRECT
      modifies this`inodes, cache
      ensures Valid() && |cache.image| == |old(cache.image)| && |cache.buf| == |old(cache.buf)|
      ensures |old(inodes)[f].addr| == ADDRS
      ensures index.None? <==> Lacking(old(Free()), DirtyBlocks(old(cache.buf)), mapBlk, |cache.buf|)
      ensures index.None? ==> inodes == old(inodes)
      ensures index.Some? ==>
                && index.value == old(Free())[0] && Free() == old(Free())[1..]
                && first <= index.value < first + nblocks
                && inodes == With(old(inodes), f, r, index.value) && !Unowned(index.value)
                && DirtyBlocks(cache.buf) == DirtyBlocks(old(cache.buf)) + {mapBlk}
                && Room(DirtyBlocks(cache.buf), |cache.buf|, index.value)
                && cache.Content(index.value) == old(Cleared(index.value))
      ensures forall c | OnDisk(cache.image, c) && c != mapBlk && index != Some(c) ::
                cache.Content(c) == old(cache.Content(c))
    {
      hide ContentOf, Used, Unshared, FreeFrom, DirtyBlocks, cache.Only, Room;
      var ino := inodes[f];
      assert InodeOk(ino, cache.Content(mapBlk), first, nblocks);
      TakenFits(None);
      index := FindFree(None);
      if index.Some? {
        RoomTwice(DirtyBlocks(old(cache.buf)), |cache.buf|, mapBlk, index.value);
        NewBlock(f, r, index.value);
        inodes := inodes[f := ino.(addr := ino.addr[r := index.value])];
        assert inodes[f].addr[r] == index.value;
      }
    }

    /** The index block is read; it stays taken if its word `r` is zero. */
    method ReadIndex(index: nat, r: nat) returns (k: nat, blank: bool)
      requires Valid() && OnDisk(cache.image, index) && index != mapBlk && r < DIRECT
      requires Room(DirtyBlocks(cache.buf), |cache.buf|, index)
      modifies cache
      ensures |cache.image| == |old(cache.image)| && |cache.buf| == |old(cache.buf)|
      ensures |old(cache.Content(index))| == 512 && (blank <==> Blank(old(cache.Content(index)), r))
      ensures Sound(if blank then Some(index) else None)
      ensures blank ==> k < |cache.buf| && cache.buf[k].blk == Some(index)
      ensures DirtyBlocks(cache.buf) == DirtyBlocks(old(cache.buf))
      ensures forall c | OnDisk(cache.image, c) :: cache.Content(c) == old(cache.Content(c))
    {
      hide ContentOf, Unshared, DirtyBlocks, InodeOk, Blank, cache.Valid, Room;
      cache.ContentSize(index);
      cache.RoomIs(index, None);
      ghost var was := cache.buf;
      var g := cache.Read(index);
      k := g.k;
      blank := Blank(cache.buf[k].data, r);
      if blank {
        NowTaken(was, k, index);
      } else {
        cache.PutBack(k, was, None);
      }
    }

    /** A new block, whose number goes to word `r` of the index block in buffer `k`, but not to the disk. */
    method FillIndex(k: nat, r: nat, ghost index: nat) returns (b: Option<nat>)
      requires Sound(Some(index)) && k < |cache.buf| && cache.buf[k].blk == Some(index)
      requires index != mapBlk && !Unowned(index) && r < DIRECT
      modifies cache
      ensures |cache.image| == |old(cache.image)| && |cache.buf| == |old(cache.buf)|
      ensures b.None? <==> Lacking(old(Free()), DirtyBlocks(old(cache.buf)) + {index}, mapBlk, |cache.buf|)
      ensures b.Some? ==>
                && Valid() && b.value == old(Free())[0] && Free() == old(Free())[1..]
                && first <= b.value < first + nblocks && Unowned(b.value)
                && DirtyBlocks(cache.buf) == DirtyBlocks(old(cache.buf)) + {mapBlk}
                && cache.Content(b.value) == old(Cleared(b.value))
      ensures forall c | OnDisk(cache.image, c) && c != mapBlk && c != index && b != Some(c) ::
                cache.Content(c) == old(cache.Content(c))
    {
      hide ContentOf, Used, InodeOk, Unshared, FreeFrom, DirtyBlocks, Bytes;
      b := FindFree(Some(index));
      if b.Some? {
        ghost var was := cache.buf;
        cache.Change(k, Spliced(cache.buf[k].data, 8 * r, Bytes(b.value, 8)));
        cache.Release(k);
        GivenBack(was, k, index);
      }
    }

    /** bmap for a block behind the direct ones, up to the end of the largest file.  A new index block is
        stored under the wrong place, that of a direct block, and its words are changed in its buffer only.
        So the next call finds no index block either, and the block found this time is lost to the file. */
    method BmapIndirect(f: int, j: nat) returns (p: Place)
      requires Valid() && f in inodes && DIRECT <= j < 21
      modifies this`inodes, cache
      ensures |cache.image| == |old(cache.image)| && |cache.buf| == |old(cache.buf)|
      ensures |old(inodes)[f].addr| == ADDRS && (Valid() || p.Stop?)
      ensures var free, dirty := old(Free()), DirtyBlocks(old(cache.buf));
              p.Stop? <==>
              || Lacking(free, dirty, mapBlk, |cache.buf|)
              || (!old(Stale(free[0], j - DIRECT)) && Lacking(free[1..], dirty + {free[0]}, mapBlk, |cache.buf|))
      ensures p.Stray? <==>
              && !Lacking(old(Free()), DirtyBlocks(old(cache.buf)), mapBlk, |cache.buf|)
              && old(Stale(Free()[0], j - DIRECT))
      ensures !p.Stop? ==> old(Free()) != [] && inodes == With(old(inodes), f, j - DIRECT, old(Free())[0])
      ensures p.Stop? ==>
                || inodes == old(inodes)
                || (old(Free()) != [] && inodes == With(old(inodes), f, j - DIRECT, old(Free())[0]))
      ensures p.Mapped? ==>
                && |old(Free())| >= 2 && p.b == old(Free())[1] && Free() == old(Free())[2..] && Unowned(p.b)
                && first <= p.b < first + nblocks
                && DirtyBlocks(cache.buf) == DirtyBlocks(old(cache.buf)) + {mapBlk}
                && cache.Content(p.b) == old(Cleared(p.b))
      ensures forall c | OnDisk(cache.image, c) && c != mapBlk && (c !in old(Free()) || (!p.Stop? && c in Free())) ::
                cache.Content(c) == old(cache.Content(c))
    {
      hide ContentOf, Used, Unshared, FreeFrom, DirtyBlocks, InodeOk, Blank, cache.Only, Lacking, Room, Unowned;
      var r := j - DIRECT;
      ghost var free, dirty, n := Free(), DirtyBlocks(cache.buf), |cache.buf|;
      FreeApart();
      LackingIs(free, dirty, n);
      if free != [] {
        StaleIs(free[0], r);
      }
      var index := TakeIndex(f, r);
      if index.None? {
        return Stop;
      }
      var k, blank := ReadIndex(index.value, r);
      if !blank {
        return Stray;
      }
      var b := FillIndex(k, r, index.value);
      p := if b.Some? then Mapped(b.value) else Stop;
    }

    /** The map counts once, however often it is written. */
    lemma LackingIs(free: seq<nat>, dirty: set<nat>, n: nat)
      ensures free == [] ==> Lacking(free, dirty, mapBlk, n)
      ensures free != [] ==>
                (Lacking(free[1..], dirty + {mapBlk} + {free[0]}, mapBlk, n) <==>
                 Lacking(free[1..], dirty + {free[0]}, mapBlk, n))
      ensures |free| == 1 ==> Lacking(free[1..], dirty + {free[0]}, mapBlk, n)
    {
      if |free| > 1 {
        assert dirty + {mapBlk} + {free[0]} + {mapBlk, free[1]} == dirty + {free[0]} + {mapBlk, free[1]};
      }
    }

    ghost function Supply(): Stock
      reads cache
    {
      Stock(Free(), DirtyBlocks(cache.buf))
    }

    ghost predicate TermsOk(t: Terms)
      reads cache
    {
      && t.map0 == mapBlk && t.n == |cache.buf|
      && (forall b, r | b in Free() && 0 <= r < DIRECT :: Stale(b, r) <==> (b, r) in t.stale)
      && (t.zero ==> FreeZero())
    }

    /** The free blocks hold zeros. */
    ghost predicate FreeZero()
      reads cache
    {
      forall b | b in Free() :: OnDisk(cache.image, b) && Zeros(cache.Content(b))
    }

    /** bmap changes no byte of any file, except that behind the direct blocks it replaces a direct block. */
    method Bmap(f: int, j: nat, ghost t: Terms) returns (p: Place)
      requires Valid() && f in inodes && j < 21 && TermsOk(t)
      modifies this`inodes, cache
      ensures |cache.image| == |old(cache.image)| && |cache.buf| == |old(cache.buf)|
      ensures j < DIRECT || !p.Stop? ==> Valid()
      ensures p.Mapped? ==> TermsOk(t)
      ensures |old(inodes)[f].addr| == ADDRS
      ensures var a := if j < DIRECT then old(inodes)[f].addr[j] else 0;
              && Mapping(a, j, old(Supply()), t) == (if p.Mapped? then Done else if p.Stop? then Halted else Astray)
              && (p.Mapped? ==> p.b == Found(a, j, old(Supply()), t) && Supply() == Left(a, j, old(Supply()), t))
      ensures p.Stop? && j < DIRECT ==> Full()
      ensures p.Mapped? && j < DIRECT ==> inodes == With(old(inodes), f, j, p.b)
      ensures !p.Stop? && j >= DIRECT ==>
                && (p.Mapped? ==> Unowned(p.b)) && old(Free()) != []
                && inodes == With(old(inodes), f, j - DIRECT, old(Free())[0])
      ensures p.Stop? ==>
                || inodes == old(inodes)
                || (j >= DIRECT && old(Free()) != [] && inodes == With(old(inodes), f, j - DIRECT, old(Free())[0]))
      ensures p.Mapped? ==> first <= p.b < first + nblocks && p.b != mapBlk && p.b !in Free()
      ensures forall c | OnDisk(cache.image, c) && c != mapBlk && (c !in old(Free()) || (p.Mapped? && c in Free())) ::
                cache.Content(c) == old(cache.Content(c))
      ensures p.Mapped? ==> forall c | c in Free() :: c in old(Free())
      ensures p.Mapped? && j >= DIRECT && t.zero ==> Zeros(cache.Content(p.b))
    {
      hide ContentOf, Used, Unshared, FreeFrom, DirtyBlocks, InodeOk, Blank, cache.Only, Lacking, Room, Unowned;
      FreeApart();
      ghost var free := Free();
      if j < DIRECT {
        p := BmapDirect(f, j);
        assert p.Mapped? ==> Free() == if old(inodes)[f].addr[j] != 0 then free else free[1..];
      } else {
        LackingIs(free, DirtyBlocks(cache.buf), |cache.buf|);
        assert free != [] ==> (Stale(free[0], j - DIRECT) <==> (free[0], j - DIRECT) in t.stale);
        p := BmapIndirect(f, j);
        assert p.Mapped? ==> Free() == free[2..];
      }
      if p.Mapped? {
        forall c | c in Free() ensures c in free && c != p.b && cache.Content(c) == old(cache.Content(c)) {
        }
        forall b, r | b in Free() && 0 <= r < DIRECT ensures Stale(b, r) <==> (b, r) in t.stale {
          assert old(Stale(b, r)) <==> (b, r) in t.stale;
        }
        if t.zero {
          forall b | b in Free() ensures Zeros(cache.Content(b)) {
            assert b in free && Zeros(old(cache.Content(b)));
          }
          assert j >= DIRECT ==> free[1] in free;
        }
      }
    }

    // ---- inode_read and inode_write -----------------------------------------------------------

    /** bmap changes no byte of any file, except those of a direct block that an index block replaces. */
    method BlockFor(f: int, j: nat, ghost t: Terms) returns (p: Place)
      requires Valid() && f in inodes && j < 21 && TermsOk(t)
      modifies this`inodes, cache
      ensures |cache.image| == |old(cache.image)| && |cache.buf| == |old(cache.buf)|
      ensures (j < DIRECT || !p.Stop? ==> Valid()) && (p.Mapped? ==> TermsOk(t))
      ensures inodes.Keys == old(inodes).Keys
      ensures forall g | g in inodes :: inodes[g].size == old(inodes)[g].size
      ensures forall g | g in inodes && g != f :: inodes[g] == old(inodes)[g]
      ensures |inodes[f].addr| == ADDRS && OnlyPlace(old(inodes)[f].addr, inodes[f].addr, j)
      ensures var a := if j < DIRECT then old(inodes)[f].addr[j] else 0;
              && Mapping(a, j, old(Supply()), t) == (if p.Mapped? then Done else if p.Stop? then Halted else Astray)
              && (p.Mapped? ==> p.b == Found(a, j, old(Supply()), t) && Supply() == Left(a, j, old(Supply()), t))
      ensures p.Mapped? ==> p.b != 0 && first <= p.b < first + nblocks && p.b !in Free() && t.n == |cache.buf|
      ensures p.Mapped? ==> OnDisk(cache.image, p.b)
      ensures p.Mapped? ==> if j < DIRECT then inodes[f].addr[j] == p.b else Unowned(p.b)
      ensures !p.Stop? && j >= DIRECT ==> old(Free()) != [] && inodes[f].addr[j - DIRECT] == old(Free())[0]
      ensures j < DIRECT && old(inodes)[f].addr[j] != 0 ==> inodes == old(inodes) && p == Mapped(old(inodes)[f].addr[j])
      ensures p.Stop? && j < DIRECT ==> Full() && inodes == old(inodes)
      ensures KeptMapping(old(Now()), Now(), f, j)
      ensures p.Mapped? ==> forall c | c in Free() :: c in old(Free())
      ensures p.Mapped? && j >= DIRECT && t.zero ==> Zeros(cache.Content(p.b))
    {
      hide ContentOf, Used, Unshared, FreeFrom, DirtyBlocks, AddrOk, Lacking, Room, Stale, cache.Only;
      forall g, o: nat | Has(g, o)
        ensures var c := inodes[g].addr[o / 512];
                && c != mapBlk && OnDisk(cache.image, c) && c !in Free() && |cache.Content(c)| == 512
      {
        BlockOf(g, o, None);
      }
      assert InodeOk(inodes[f], cache.Content(mapBlk), first, nblocks);
      assert j < DIRECT ==> With(inodes, f, j, inodes[f].addr[j]) == inodes by {
        assert j < DIRECT ==> inodes[f].addr == inodes[f].addr[j := inodes[f].addr[j]];
      }
      p := Bmap(f, j, t);
    }

    /** Bytes go to a block of data that is not free. */
    method Store(b: nat, at: nat, bytes: seq<nat>, ghost t: Terms) returns (ok: bool)
      requires Valid() && TermsOk(t) && first <= b < first + nblocks && b !in Free() && at + |bytes| <= 512
      modifies cache
      ensures Valid() && |cache.image| == |old(cache.image)| && |cache.buf| == |old(cache.buf)|
      ensures ok <==> Room(DirtyBlocks(old(cache.buf)), |cache.buf|, b)
      ensures !ok ==> cache.Exhausted()
      ensures ok ==> Supply() == Stock(old(Free()), DirtyBlocks(old(cache.buf)) + {b}) && TermsOk(t)
      ensures OnDisk(cache.image, b) && |old(cache.Content(b))| == 512
      ensures ok ==> cache.Content(b) == Spliced(old(cache.Content(b)), at, bytes)
      ensures forall c | OnDisk(cache.image, c) && (c != b || !ok) :: cache.Content(c) == old(cache.Content(c))
    {
      hide ContentOf, Used, Unshared, FreeFrom, DirtyBlocks, InodeOk, Blank, cache.Only, Room, Spliced;
      FreeApart();
      ok := cache.Patch(b, at, bytes);
      if ok {
        forall c, r | c in Free() && 0 <= r < DIRECT ensures Stale(c, r) <==> (c, r) in t.stale {
          assert old(Stale(c, r)) <==> (c, r) in t.stale;
        }
        forall c | c in Free() && t.zero ensures Zeros(cache.Content(c)) {
          assert c in old(Free()) && Zeros(old(cache.Content(c)));
        }
      }
    }

    static lemma SameBlock(off: nat, o: nat)
      ensures off <= o < off + 512 - off % 512 ==> o / 512 == off / 512 && o % 512 == off % 512 + (o - off)
      ensures o / 512 == off / 512 ==> o % 512 == off % 512 + (o - off)
    {
    }

    /** The new bytes go to the block of the file they belong to. */
    method PatchFile(f: int, off: nat, b: nat, bytes: seq<nat>, ghost t: Terms) returns (ok: bool)
      requires Valid() && TermsOk(t) && off + |bytes| <= DIRECT_BYTES && 0 < |bytes| <= 512 - off % 512
      requires Has(f, off) && inodes[f].addr[off / 512] == b
      modifies cache
      ensures Valid() && |cache.image| == |old(cache.image)| && |cache.buf| == |old(cache.buf)|
      ensures ok <==> Room(DirtyBlocks(old(cache.buf)), |cache.buf|, b)
      ensures !ok ==> cache.Exhausted()
      ensures ok ==> Supply() == Stock(old(Free()), DirtyBlocks(old(cache.buf)) + {b}) && TermsOk(t)
      ensures ok ==> forall o: nat | off <= o < off + |bytes| ::
                HasIn(inodes, f, o) && ByteIn(Now(), f, o) == bytes[o - off]
      ensures ok ==> KeptOutside(old(Now()), Now(), f, off, off + |bytes|)
    {
      hide ContentOf, Used, AddrOk, FreeFrom, DirtyBlocks, Room, Stale, cache.Only, TermsOk;
      forall g, o: nat | Has(g, o)
        ensures var c := inodes[g].addr[o / 512];
                && first <= c < first + nblocks && c !in Free() && OnDisk(cache.image, c) && |cache.Content(c)| == 512
      {
        BlockOf(g, o, None);
      }
      ok := Store(b, off % 512, bytes, t);
      if ok {
        forall o: nat | off <= o < off + |bytes| ensures Has(f, o) && ByteIn(Now(), f, o) == bytes[o - off] {
          SameBlock(off, o);
        }
        forall g, o: nat | HasIn(inodes, g, o) && !(g == f && off <= o < off + |bytes|)
          ensures ByteIn(Now(), g, o) == ByteIn(old(Now()), g, o)
        {
          assert old(Has(g, o));
          if inodes[g].addr[o / 512] == b {
            SameBlock(off, o);
          }
        }
      }
    }

    /** The new bytes go to a block that no file has. */
    method PatchNowhere(b: nat, at: nat, bytes: seq<nat>, ghost t: Terms) returns (ok: bool)
      requires Valid() && TermsOk(t) && first <= b < first + nblocks && b !in Free() && Unowned(b)
      requires at + |bytes| <= 512
      modifies cache
      ensures Valid() && |cache.image| == |old(cache.image)| && |cache.buf| == |old(cache.buf)|
      ensures ok <==> Room(DirtyBlocks(old(cache.buf)), |cache.buf|, b)
      ensures ok ==> Supply() == Stock(old(Free()), DirtyBlocks(old(cache.buf)) + {b}) && TermsOk(t)
      ensures ok ==> KeptWhole(old(Now()), Now())
    {
      hide ContentOf, Used, AddrOk, FreeFrom, DirtyBlocks, Room, Stale, cache.Only, TermsOk;
      forall g, o: nat | Has(g, o)
        ensures var c := inodes[g].addr[o / 512];
                && first <= c < first + nblocks && OnDisk(cache.image, c) && |cache.Content(c)| == 512
      {
        BlockOf(g, o, None);
      }
      ok := Store(b, at, bytes, t);
      if ok {
        forall g, o: nat | HasIn(inodes, g, o) ensures ByteIn(Now(), g, o) == ByteIn(old(Now()), g, o) {
          assert old(Has(g, o));
        }
      }
    }

    /** One round of the loop of inode_write: bytes within one block. */
    method WriteChunk(f: int, off: nat, bytes: seq<nat>, ghost t: Terms) returns (r: Outcome)
      requires Valid() && f in inodes && TermsOk(t) && t.writing
      requires off + |bytes| <= MAXFILE_SIZE && 0 < |bytes| <= 512 - off % 512
      modifies this`inodes, cache
      ensures |cache.image| == |old(cache.image)| && |cache.buf| == |old(cache.buf)|
      ensures !r.Refused? && (off < DIRECT_BYTES || !r.Halted? ==> Valid()) && (r.Done? ==> TermsOk(t))
      ensures inodes.Keys == old(inodes).Keys
      ensures forall g | g in inodes :: inodes[g].size == old(inodes)[g].size
      ensures |inodes[f].addr| == ADDRS && OnlyPlace(old(inodes)[f].addr, inodes[f].addr, off / 512)
      ensures var a := if off < DIRECT_BYTES then old(inodes)[f].addr[off / 512] else 0;
              r == Round(a, off / 512, old(Supply()), t) &&
              (r.Done? ==> Supply() == AfterRound(a, off / 512, old(Supply()), t))
      ensures r.Done? ==> DirtyBlocks(old(Now()).buf) <= DirtyBlocks(Now().buf)
      ensures r.Done? ==> forall c | c in Free() :: c in old(Free())
      ensures r.Done? && off >= DIRECT_BYTES ==>
                old(Free()) != [] && inodes[f].addr[off / 512 - DIRECT] == old(Free())[0]
      ensures r.Done? ==> Stored(Now(), f, off, bytes) && Kept(old(Now()), Now(), f, off, off + |bytes|, true)
      ensures r.Halted? && off < DIRECT_BYTES ==> Full()
    {
      hide Valid, TermsOk, ByteIn, Mapping, Room, Free, Lost, DirtyBlocks, Kept, Stored, KeptOutside, KeptMapping,
        KeptWhole, OnlyPlace;
      ghost var v, end := Now(), off + |bytes|;
      var p := BlockFor(f, off / 512, t);
      if !p.Mapped? {
        return if p.Stop? then Halted else Astray;
      }
      ghost var v' := Now();
      var ok;
      if off < DIRECT_BYTES {
        ok := PatchFile(f, off, p.b, bytes, t);
      } else {
        ok := PatchNowhere(p.b, off % 512, bytes, t);
        if ok {
          WholeOutside(v', Now(), f, off, end);
        }
      }
      r := if ok then Done else Halted;
      if ok {
        KeptRound(v, v', Now(), f, off, end, true);
        StoredRound(Now(), f, off, bytes);
      }
    }

    /** As much of `remains` as goes into the block of `pos`. */
    static method InBlock(pos: nat, remains: nat) returns (n: nat)
      ensures n == if remains > 512 - pos % 512 then 512 - pos % 512 else remains
      ensures n <= remains && n <= 512 - pos % 512 && (remains > 0 ==> n > 0)
    {
      n := remains;
      if remains > 512 - pos % 512 {
        n := 512 - pos % 512;
      }
    }

    /** One round of a loop over the bytes of a file is one step of its fate. */
    static lemma FateStep(addr: seq<nat>, addr': seq<nat>, s: Stock, t: Terms, pos: nat, n: nat, end: nat)
      requires Ahead(addr, addr', pos, end) && pos < end && pos + n <= end
      requires n == if end - pos > 512 - pos % 512 then 512 - pos % 512 else end - pos
      ensures var a := if pos < DIRECT_BYTES then addr'[pos / 512] else 0;
              Fate(addr, s, t, pos, end) ==
              if Round(a, pos / 512, s, t) != Done then Round(a, pos / 512, s, t)
              else Fate(addr, AfterRound(a, pos / 512, s, t), t, pos + n, end)
      ensures var a := if pos < DIRECT_BYTES then addr'[pos / 512] else 0;
              Round(a, pos / 512, s, t) == Done ==>
                Rest(addr, s, t, pos, end) == Rest(addr, AfterRound(a, pos / 512, s, t), t, pos + n, end)
      ensures pos + n < end ==> (pos + n) / 512 == pos / 512 + 1
    {
      hide Round, AfterRound;
      assert pos + n < end ==> pos + n == 512 * (pos / 512 + 1);
    }

    static lemma FateEnds(addr: seq<nat>, s: Stock, t: Terms, end: nat)
      requires |addr| == ADDRS
      ensures Fate(addr, s, t, end, end) == Done && Rest(addr, s, t, end, end) == s
    {
    }

    lemma AddrsOf(f: int)
      requires Valid() && f in inodes
      ensures |inodes[f].addr| == ADDRS
    {
      hide cache.Only, Used, ContentOf;
      assert InodeOk(inodes[f], cache.Content(mapBlk), first, nblocks);
    }

    /** The loop of inode_write. */
    method WriteAll(f: int, off: nat, src: seq<nat>, ghost t: Terms) returns (r: Outcome)
      requires Valid() && f in inodes && off + |src| <= MAXFILE_SIZE && TermsOk(t) && t.writing
      modifies this`inodes, cache
      ensures !r.Refused? && (off + |src| <= DIRECT_BYTES || !r.Halted? ==> Valid())
      ensures |cache.buf| == |old(cache.buf)|
      ensures inodes.Keys == old(inodes).Keys && |old(inodes)[f].addr| == |inodes[f].addr| == ADDRS
      ensures forall g | g in inodes :: inodes[g].size == old(inodes)[g].size
      ensures r == Fate(old(inodes)[f].addr, old(Supply()), t, off, off + |src|)
      ensures r.Done? ==> Supply() == Rest(old(inodes)[f].addr, old(Supply()), t, off, off + |src|)
      ensures r.Done? ==> LostTaken(inodes[f].addr, old(Free()), off, off + |src|)
      ensures r.Done? ==> Stored(Now(), f, off, src) && Kept(old(Now()), Now(), f, off, off + |src|, true)
      ensures r.Halted? && off + |src| <= DIRECT_BYTES ==> Full()
      ensures r.Done? ==> TermsOk(t)
    {
      hide Valid, TermsOk, Fate, Rest, Round, AfterRound, Free, DirtyBlocks, Lost, Full, Supply, Kept, Stored,
        LostTaken, Ahead, OnlyPlace;
      AddrsOf(f);
      ghost var end, start, addr, free := off + |src|, Now(), inodes[f].addr, Free();
      KeptAll(start, f, off, end, free, true);
      var done := 0;
      while done < |src|
        invariant |cache.buf| == |old(cache.buf)|
        invariant 0 <= done <= |src| && Valid() && TermsOk(t) && f in inodes && inodes.Keys == old(inodes).Keys
        invariant forall g | g in inodes :: inodes[g].size == old(inodes)[g].size
        invariant |inodes[f].addr| == ADDRS
        invariant Fate(addr, old(Supply()), t, off, end) == Fate(addr, Supply(), t, off + done, end)
        invariant Rest(addr, old(Supply()), t, off, end) == Rest(addr, Supply(), t, off + done, end)
        invariant Ahead(addr, inodes[f].addr, off + done, end)
        invariant forall c | c in Free() :: c in free
        invariant LostTaken(inodes[f].addr, free, off, off + done)
        invariant Stored(Now(), f, off, src[..done]) && Kept(start, Now(), f, off, off + done, true)
      {
        var n := InBlock(off + done, |src| - done);
        ghost var pos, before, supply, left := off + done, Now(), Supply(), Free();
        FateStep(addr, inodes[f].addr, supply, t, pos, n, end);
        r := WriteChunk(f, off + done, src[done..done + n], t);
        if !r.Done? {
          return;
        }
        AheadStep(addr, before.inodes[f].addr, inodes[f].addr, pos, pos + n, end);
        LostTakenStep(before.inodes[f].addr, inodes[f].addr, free, left, off, pos, pos + n);
        KeptStep(start, before, Now(), f, off, pos, pos + n, true);
        StoredStep(before, Now(), f, off, src[..done], src[done..done + n]);
        assert src[..done] + src[done..done + n] == src[..done + n];
        done := done + n;
      }
      FateEnds(addr, Supply(), t, end);
      assert src[..done] == src;
      r := Done;
    }

    static lemma KeptAll(v: View, f: int, off: nat, end: nat, free: seq<nat>, writing: bool)
      requires f in v.inodes && |v.inodes[f].addr| == ADDRS
      ensures Kept(v, v, f, off, off, writing) && Stored(v, f, off, [])
      ensures LostTaken(v.inodes[f].addr, free, off, off) && Ahead(v.inodes[f].addr, v.inodes[f].addr, off, end)
    {
    }

    /** The words of free blocks that are not zero, and the rest of what decides over a call. */
    ghost function TermsNow(writing: bool): (t: Terms)
      reads cache
      ensures TermsOk(t) && t.writing == writing
    {
      Terms(mapBlk, |cache.buf|, set b, r | b in Free() && 0 <= r < DIRECT && Stale(b, r) :: (b, r), writing,
            FreeZero())
    }

    /** What becomes of a call over bytes `off` to `end` of file `f`. */
    ghost function FateOf(f: int, off: nat, end: nat, writing: bool): Outcome
      reads this, cache
    {
      if f in inodes && |inodes[f].addr| == ADDRS
      then Fate(inodes[f].addr, Supply(), TermsNow(writing), off, end)
      else Done
    }

    /** A write within the direct blocks goes through exactly when enough blocks are free and the blocks it needs,
        with those that are dirty, are no more than the buffers; otherwise the kernel stops. */
    lemma WriteGoes(f: int, off: nat, end: nat)
      requires Valid() && f in inodes && end <= DIRECT_BYTES
      ensures |inodes[f].addr| == ADDRS
      ensures var w := Wanted(inodes[f].addr, Free(), mapBlk, off, end);
              FateOf(f, off, end, true) ==
              if w.Some? && |DirtyBlocks(cache.buf) + w.value| <= |cache.buf| then Done else Halted
    {
      hide Fate, FateOf, Wanted, DirtyBlocks, Free, Sound, TermsOk;
      FateIs(f, off, end, true);
      TakenFits(None);
      WriteFate(inodes[f].addr, Supply(), TermsNow(true), off, end);
    }

    /** A read within the direct blocks goes through exactly when each of its blocks can be had. */
    lemma ReadGoes(f: int, off: nat, end: nat)
      requires Valid() && f in inodes && end <= DIRECT_BYTES && end <= inodes[f].size
      ensures |inodes[f].addr| == ADDRS
      ensures FateOf(f, off, end, false) ==
              if forall o | off <= o < end :: Room(DirtyBlocks(cache.buf), |cache.buf|, inodes[f].addr[o / 512])
              then Done else Halted
    {
      hide Fate, FateOf, DirtyBlocks, Free, Valid, TermsOk, Room;
      FateIs(f, off, end, false);
      AllHeld();
      forall o: nat | off <= o < end ensures inodes[f].addr[o / 512] != 0 {
        assert HasIn(inodes, f, o);
      }
      ReadFate(inodes[f].addr, Supply(), TermsNow(false), off, end);
    }

    /** Every byte of a file up to the end of the direct blocks has a block. */
    lemma AllHeld()
      requires Valid()
      ensures forall g | g in inodes :: inodes[g].size <= MAXFILE_SIZE
      ensures forall g, o: nat | g in inodes && o < inodes[g].size && o < DIRECT_BYTES :: Has(g, o)
      ensures forall g, o: nat | g in inodes && o < inodes[g].size && o < DIRECT_BYTES :: HasIn(inodes, g, o)
    {
      hide cache.Only, Used, AddrOk, ContentOf;
      forall g, o: nat | g in inodes && o < inodes[g].size && o < DIRECT_BYTES ensures Has(g, o) {
        assert InodeOk(inodes[g], cache.Content(mapBlk), first, nblocks);
        assert 512 * (o / 512) <= o;
      }
    }

    /** The file gets larger, over bytes that have blocks already where they can have them. */
    method Grow(f: int, size: nat)
      requires Valid() && f in inodes && inodes[f].size < size <= MAXFILE_SIZE
      requires forall o: nat | inodes[f].size <= o < size && o < DIRECT_BYTES :: Has(f, o)
      modifies this`inodes
      ensures Valid() && inodes == old(inodes)[f := old(inodes)[f].(size := size)]
      ensures forall g, o: nat :: Has(g, o) == old(Has(g, o)) && ByteAt(g, o) == old(ByteAt(g, o))
    {
      hide cache.Only, Used, AddrOk, ContentOf;
      forall j | 0 <= j < DIRECT && 512 * j < size ensures j < |inodes[f].addr| && inodes[f].addr[j] != 0 {
        assert InodeOk(inodes[f], cache.Content(mapBlk), first, nblocks);
        if 512 * j >= inodes[f].size {
          assert Has(f, 512 * j) && 512 * j / 512 == j;
        }
      }
      assert InodeOk(inodes[f], cache.Content(mapBlk), first, nblocks);
      inodes := inodes[f := inodes[f].(size := size)];
    }

    /** inode_write.  Within the direct blocks exactly the bytes from `off` on become `src`, the file grows to
        hold them, and no other byte of any file changes.  A write that goes on behind them leaves no byte
        there in the file, and replaces the direct blocks of its lost places by blocks that were free. */
    method Write(f: int, off: nat, src: seq<nat>) returns (r: Outcome)
      requires Valid() && f in inodes
      modifies this`inodes, cache
      ensures off + |src| <= DIRECT_BYTES || !r.Halted? ==> Valid()
      ensures |cache.buf| == |old(cache.buf)|
      ensures inodes.Keys == old(inodes).Keys && |inodes[f].addr| == ADDRS
      ensures r.Refused? <==> off > old(inodes)[f].size || off + |src| > MAXFILE_SIZE
      ensures r.Refused? ==> inodes == old(inodes) && unchanged(cache)
      ensures !r.Refused? ==> r == old(FateOf(f, off, off + |src|, true))
      ensures r.Done? ==> Supply() == old(RestOf(f, off, off + |src|, true))
      ensures forall g | g in inodes && g != f :: inodes[g].size == old(inodes)[g].size
      ensures r.Done? ==>
                inodes[f].size == if off + |src| > old(inodes)[f].size then off + |src| else old(inodes)[f].size
      ensures r.Done? ==> Stored(Now(), f, off, src) && Kept(old(Now()), Now(), f, off, off + |src|, true)
      ensures r.Done? ==> LostTaken(inodes[f].addr, old(Free()), off, off + |src|)
      ensures r.Done? ==>
                ((forall o: nat | off <= o < off + |src| :: Has(f, o) && ByteAt(f, o) == src[o - off]) <==>
                 |src| == 0 || off + |src| <= DIRECT_BYTES)
      ensures r.Done? && off + |src| <= DIRECT_BYTES ==>
                forall g, o: nat | g in inodes && o < old(inodes)[g].size && !(g == f && off <= o < off + |src|) ::
                  ByteAt(g, o) == old(ByteAt(g, o))
      ensures r.Halted? && off + |src| <= DIRECT_BYTES ==> Full()
      ensures r.Done? && old(FreeZero()) ==> FreeZero()
    {
      hide Valid, TermsOk, Fate, FateOf, Rest, RestOf, Free, DirtyBlocks, Lost, Full, Supply, TermsNow, ByteIn, HasIn,
        Kept, Stored;
      AddrsOf(f);
      if off > inodes[f].size || off + |src| > MAXFILE_SIZE {
        return Refused;
      }
      AllHeld();
      FreeApart();
      FateIs(f, off, off + |src|, true);
      assert FreeZero() == TermsNow(true).zero by { ZeroNow(true); }
      ghost var v, free := Now(), Free();
      r := WriteAll(f, off, src, TermsNow(true));
      if !r.Done? {
        return;
      }
      ghost var v' := Now();
      assert old(FreeZero()) ==> FreeZero() by { ZeroTerms(old(TermsNow(true))); }
      if |src| > 0 && off + |src| > inodes[f].size {
        forall o: nat | inodes[f].size <= o < off + |src| && o < DIRECT_BYTES ensures Has(f, o) {
          StoredOrLost(f, off, src, free, o);
        }
        Grow(f, off + |src|);
        SizeOnly(v, v', Now(), f, off + |src|, off, src);
      }
      Exactly(f, off, src);
      if off + |src| <= DIRECT_BYTES {
        KeptExactly(v, Now(), f, off, off + |src|, true);
      }
    }

    lemma ZeroTerms(t: Terms)
      requires TermsOk(t)
      ensures t.zero ==> FreeZero()
    {
    }

    lemma ZeroNow(writing: bool)
      ensures TermsNow(writing).zero == FreeZero()
    {
    }

    /** What such a call leaves. */
    ghost function RestOf(f: int, off: nat, end: nat, writing: bool): Stock
      reads this, cache
    {
      if f in inodes && |inodes[f].addr| == ADDRS
      then Rest(inodes[f].addr, Supply(), TermsNow(writing), off, end)
      else Supply()
    }

    /** Where free blocks hold zeros no call goes astray. */
    lemma NoStale(writing: bool)
      requires FreeZero()
      ensures forall b, r | b in Free() && 0 <= r < DIRECT :: (b, r) !in TermsNow(writing).stale
    {
      forall b, r | b in Free() && 0 <= r < DIRECT ensures !Stale(b, r) {
        assert Zeros(cache.Content(b));
      }
    }

    lemma FateIs(f: int, off: nat, end: nat, writing: bool)
      requires Valid() && f in inodes
      ensures |inodes[f].addr| == ADDRS
      ensures RestOf(f, off, end, writing) == Rest(inodes[f].addr, Supply(), TermsNow(writing), off, end)
      ensures FateOf(f, off, end, writing) == Fate(inodes[f].addr, Supply(), TermsNow(writing), off, end)
    {
      hide Fate;
      AddrsOf(f);
    }

    lemma Exactly(f: int, off: nat, src: seq<nat>)
      requires Stored(Now(), f, off, src)
      ensures (forall o: nat | off <= o < off + |src| :: Has(f, o) && ByteAt(f, o) == src[o - off]) <==>
              |src| == 0 || off + |src| <= DIRECT_BYTES
    {
      hide ByteIn, Lost, Stored;
      StoredExactly(Now(), f, off, src);
      if |src| > 0 && off + |src| > DIRECT_BYTES {
        assert !Has(f, off + |src| - 1);
      }
    }

    /** A byte that was gone over has a block, be it its own or one that was free. */
    lemma StoredOrLost(f: int, off: nat, src: seq<nat>, free: seq<nat>, o: nat)
      requires f in inodes && |inodes[f].addr| == ADDRS && Stored(Now(), f, off, src) && 0 !in free
      requires LostTaken(inodes[f].addr, free, off, off + |src|)
      requires off <= o < off + |src| && o < DIRECT_BYTES
      ensures Has(f, o)
    {
      hide ByteIn, Lost;
    }

    /** A block of data is read. */
    method Load(b: nat, ghost t: Terms) returns (d: Option<Block>)
      requires Valid() && TermsOk(t) && first <= b < first + nblocks
      modifies cache
      ensures Valid() && |cache.image| == |old(cache.image)| && |cache.buf| == |old(cache.buf)|
      ensures d.Some? <==> Room(DirtyBlocks(old(cache.buf)), |cache.buf|, b)
      ensures d.None? ==> cache.Exhausted()
      ensures Supply() == old(Supply()) && TermsOk(t) && OnDisk(cache.image, b)
      ensures d.Some? ==> |d.value| == 512 && d.value == old(cache.Content(b))
      ensures forall c | OnDisk(cache.image, c) :: cache.Content(c) == old(cache.Content(c))
      ensures KeptWhole(old(Now()), Now())
    {
      hide ContentOf, Used, Unshared, FreeFrom, DirtyBlocks, InodeOk, Blank, cache.Only, Room, Zeros;
      FreeApart();
      forall g, o: nat | Has(g, o)
        ensures OnDisk(cache.image, inodes[g].addr[o / 512]) && |cache.Content(inodes[g].addr[o / 512])| == 512
      {
        BlockOf(g, o, None);
      }
      d := cache.Fetch(b);
      forall g, o: nat | HasIn(inodes, g, o) ensures ByteIn(Now(), g, o) == ByteIn(old(Now()), g, o) {
        assert old(Has(g, o));
      }
      forall c, r | c in Free() && 0 <= r < DIRECT ensures Stale(c, r) <==> (c, r) in t.stale {
        assert old(Stale(c, r)) <==> (c, r) in t.stale;
      }
      forall c | c in Free() && t.zero ensures Zeros(cache.Content(c)) {
        assert c in old(Free()) && Zeros(old(cache.Content(c)));
      }
    }

    /** Bytes are read from the block of the file they belong to. */
    method LoadFile(f: int, off: nat, n: nat, ghost t: Terms) returns (bytes: Option<seq<nat>>)
      requires Valid() && TermsOk(t) && Has(f, off) && 0 < n <= 512 - off % 512
      modifies cache
      ensures Valid() && |cache.image| == |old(cache.image)| && |cache.buf| == |old(cache.buf)|
      ensures bytes.Some? <==> Room(DirtyBlocks(old(cache.buf)), |cache.buf|, inodes[f].addr[off / 512])
      ensures bytes.None? ==> cache.Exhausted()
      ensures Supply() == old(Supply()) && TermsOk(t)
      ensures bytes.Some? ==> |bytes.value| == n && Fetched(old(Now()), f, off, bytes.value, t.zero)
      ensures KeptWhole(old(Now()), Now())
    {
      hide ContentOf, Used, Unshared, FreeFrom, DirtyBlocks, AddrOk, cache.Only, Room, Zeros, TermsOk;
      ghost var b := inodes[f].addr[off / 512];
      BlockOf(f, off, None);
      forall o: nat | off <= o < off + n ensures ByteAt(f, o) == cache.Content(b)[off % 512 + (o - off)] {
        SameBlock(off, o);
        BlockOf(f, o, None);
      }
      var d := Load(inodes[f].addr[off / 512], t);
      bytes := None;
      if d.Some? {
        bytes := Some(d.value[off % 512..off % 512 + n]);
        forall i | 0 <= i < n ensures off + i < DIRECT_BYTES && bytes.value[i] == ByteIn(old(Now()), f, off + i) {
          SameBlock(off, off + i);
          assert old(ByteAt(f, off + i)) == d.value[off % 512 + i];
        }
      }
    }

    /** One round of the loop of inode_read. */
    method ReadChunk(f: int, off: nat, n: nat, ghost t: Terms) returns (r: Outcome, bytes: seq<nat>)
      requires Valid() && f in inodes && TermsOk(t) && !t.writing && (off < DIRECT_BYTES ==> Has(f, off))
      requires off + n <= MAXFILE_SIZE && 0 < n <= 512 - off % 512
      modifies this`inodes, cache
      ensures |cache.image| == |old(cache.image)| && |cache.buf| == |old(cache.buf)|
      ensures !r.Refused? && (off < DIRECT_BYTES || !r.Halted? ==> Valid()) && (r.Done? ==> TermsOk(t))
      ensures inodes.Keys == old(inodes).Keys
      ensures forall g | g in inodes :: inodes[g].size == old(inodes)[g].size
      ensures |inodes[f].addr| == ADDRS && OnlyPlace(old(inodes)[f].addr, inodes[f].addr, off / 512)
      ensures var a := if off < DIRECT_BYTES then old(inodes)[f].addr[off / 512] else 0;
              r == Round(a, off / 512, old(Supply()), t) &&
              (r.Done? ==> Supply() == AfterRound(a, off / 512, old(Supply()), t))
      ensures off < DIRECT_BYTES ==> inodes == old(inodes)
      ensures r.Done? ==> forall c | c in Free() :: c in old(Free())
      ensures r.Done? && off >= DIRECT_BYTES ==>
                old(Free()) != [] && inodes[f].addr[off / 512 - DIRECT] == old(Free())[0]
      ensures r.Done? ==> |bytes| == n && Kept(old(Now()), Now(), f, off, off + n, false)
      ensures r.Done? ==> Fetched(old(Now()), f, off, bytes, t.zero)
      ensures r.Halted? && off < DIRECT_BYTES ==> cache.Exhausted()
    {
      hide Valid, TermsOk, ByteIn, Mapping, Room, Free, Lost, DirtyBlocks, Kept, KeptOutside, KeptMapping, KeptWhole,
        OnlyPlace, Fetched, Full, Zeros;
      ghost var v, end := Now(), off + n;
      bytes := [];
      var p := BlockFor(f, off / 512, t);
      if !p.Mapped? {
        r := if p.Stop? then Halted else Astray;
        return;
      }
      ghost var v' := Now();
      var d;
      if off < DIRECT_BYTES {
        d := LoadFile(f, off, n, t);
        assert d.Some? ==> Fetched(v, f, off, d.value, t.zero) by { SameBytes(v, v', f, off, n, d, t.zero); }
      } else {
        d := LoadBehind(p.b, off, n, t, f);
      }
      r := if d.Some? then Done else Halted;
      if d.Some? {
        bytes := d.value;
        WholeOutside(v', Now(), f, off, off);
        KeptRound(v, v', Now(), f, off, end, false);
      }
    }

    /** Bytes are read from a block that no file has. */
    method LoadBehind(b: nat, off: nat, n: nat, ghost t: Terms, ghost f: int) returns (bytes: Option<seq<nat>>)
      requires Valid() && TermsOk(t) && first <= b < first + nblocks && 0 < n <= 512 - off % 512
      requires off >= DIRECT_BYTES && (t.zero ==> OnDisk(cache.image, b) && Zeros(cache.Content(b)))
      modifies cache
      ensures Valid() && |cache.image| == |old(cache.image)| && |cache.buf| == |old(cache.buf)|
      ensures bytes.Some? <==> Room(DirtyBlocks(old(cache.buf)), |cache.buf|, b)
      ensures Supply() == old(Supply()) && TermsOk(t)
      ensures bytes.Some? ==> |bytes.value| == n && forall v: View :: Fetched(v, f, off, bytes.value, t.zero)
      ensures KeptWhole(old(Now()), Now())
    {
      hide Valid, TermsOk, Room, DirtyBlocks, KeptWhole, ByteIn;
      var d := Load(b, t);
      bytes := None;
      if d.Some? {
        bytes := Some(d.value[off % 512..off % 512 + n]);
      }
    }

    /** bmap leaves the bytes of a direct block as they are. */
    static lemma SameBytes(v: View, v': View, f: int, off: nat, n: nat, bytes: Option<seq<nat>>, zero: bool)
      requires KeptMapping(v, v', f, off / 512) && off < DIRECT_BYTES && 0 < n <= 512 - off % 512
      requires HasIn(v.inodes, f, off)
      requires bytes.Some? ==> |bytes.value| == n && Fetched(v', f, off, bytes.value, zero)
      ensures bytes.Some? ==> Fetched(v, f, off, bytes.value, zero)
    {
      hide ByteIn;
      if bytes.Some? {
        forall o: nat | off <= o < off + n ensures ByteIn(v, f, o) == ByteIn(v', f, o) {
          SameBlock(off, o);
          assert HasIn(v.inodes, f, o);
        }
      }
    }

    /** The loop of inode_read. */
    method ReadAll(f: int, off: nat, total: nat, ghost t: Terms) returns (r: Outcome, dst: seq<nat>)
      requires Valid() && f in inodes && off + total <= MAXFILE_SIZE && TermsOk(t) && !t.writing
      requires forall o: nat | off <= o < off + total && o < DIRECT_BYTES :: HasIn(inodes, f, o)
      modifies this`inodes, cache
      ensures !r.Refused? && (off + total <= DIRECT_BYTES || !r.Halted? ==> Valid())
      ensures |cache.buf| == |old(cache.buf)|
      ensures inodes.Keys == old(inodes).Keys && |old(inodes)[f].addr| == |inodes[f].addr| == ADDRS
      ensures forall g | g in inodes :: inodes[g].size == old(inodes)[g].size
      ensures r == Fate(old(inodes)[f].addr, old(Supply()), t, off, off + total)
      ensures r.Done? ==> Supply() == Rest(old(inodes)[f].addr, old(Supply()), t, off, off + total)
      ensures total == 0 || off + total <= DIRECT_BYTES ==> inodes == old(inodes)
      ensures r.Done? ==> LostTaken(inodes[f].addr, old(Free()), off, off + total)
      ensures r.Done? ==> Kept(old(Now()), Now(), f, off, off + total, false)
      ensures r.Done? ==> |dst| == total && Fetched(old(Now()), f, off, dst, t.zero)
      ensures r.Halted? && off + total <= DIRECT_BYTES ==> cache.Exhausted()
    {
      hide Valid, TermsOk, Fate, Rest, Round, AfterRound, Free, DirtyBlocks, Lost, Supply, Kept, LostTaken, Ahead,
        OnlyPlace, Fetched, HasIn;
      AddrsOf(f);
      ghost var end, start, addr, free := off + total, Now(), inodes[f].addr, Free();
      KeptAll(start, f, off, end, free, false);
      dst := [];
      assert Fetched(start, f, off, dst, t.zero) by { NothingFetched(start, f, off, t.zero); }
      while |dst| < total
        invariant |cache.buf| == |old(cache.buf)|
        invariant |dst| <= total && Valid() && TermsOk(t) && f in inodes && inodes.Keys == old(inodes).Keys
        invariant forall g | g in inodes :: inodes[g].size == old(inodes)[g].size
        invariant |inodes[f].addr| == ADDRS && (|dst| == 0 || off + |dst| <= DIRECT_BYTES ==> inodes == old(inodes))
        invariant Fate(addr, old(Supply()), t, off, end) == Fate(addr, Supply(), t, off + |dst|, end)
        invariant Rest(addr, old(Supply()), t, off, end) == Rest(addr, Supply(), t, off + |dst|, end)
        invariant Ahead(addr, inodes[f].addr, off + |dst|, end)
        invariant forall c | c in Free() :: c in free
        invariant LostTaken(inodes[f].addr, free, off, off + |dst|)
        invariant Kept(start, Now(), f, off, off + |dst|, false) && Fetched(start, f, off, dst, t.zero)
        decreases total - |dst|
      {
        var n := InBlock(off + |dst|, total - |dst|);
        ghost var pos, before, left := off + |dst|, Now(), Free();
        FateStep(addr, inodes[f].addr, Supply(), t, pos, n, end);
        var bytes;
        r, bytes := ReadChunk(f, off + |dst|, n, t);
        if !r.Done? {
          return;
        }
        AheadStep(addr, before.inodes[f].addr, inodes[f].addr, pos, pos + n, end);
        LostTakenStep(before.inodes[f].addr, inodes[f].addr, free, left, off, pos, pos + n);
        KeptStep(start, before, Now(), f, off, pos, pos + n, false);
        FetchedStep(start, before, f, off, dst, bytes, t.zero);
        dst := dst + bytes;
      }
      FateEnds(addr, Supply(), t, end);
      r := Done;
    }

    static lemma NothingFetched(v: View, f: int, off: nat, zero: bool)
      ensures Fetched(v, f, off, [], zero)
    {
    }

    /** inode_read: the bytes from `off` on, up to the end of the file.  It changes nothing exactly when it stays
        within the direct blocks; behind them it replaces blocks of the file as a write does. */
    method Read(f: int, off: nat, counts: nat) returns (r: Outcome, dst: seq<nat>)
      requires Valid() && f in inodes
      modifies this`inodes, cache
      ensures |cache.buf| == |old(cache.buf)|
      ensures inodes.Keys == old(inodes).Keys && |inodes[f].addr| == ADDRS
      ensures r.Refused? <==> off > old(inodes)[f].size
      ensures r.Refused? ==> inodes == old(inodes) && unchanged(cache)
      ensures !r.Refused? ==>
                var total := if off + counts > old(inodes)[f].size then old(inodes)[f].size - off else counts;
                && (off + total <= DIRECT_BYTES || !r.Halted? ==> Valid())
                && r == old(FateOf(f, off, off + total, false))
                && (off + total <= DIRECT_BYTES ==> inodes == old(inodes))
                && (r.Halted? && off + total <= DIRECT_BYTES ==> cache.Exhausted())
                && (r.Done? ==> |dst| == total)
      ensures r.Done? ==> Supply() == old(RestOf(f, off, off + |dst|, false))
      ensures r.Done? ==> Fetched(old(Now()), f, off, dst, old(FreeZero()))
      ensures r.Done? ==> LostTaken(inodes[f].addr, old(Free()), off, off + |dst|)
      ensures r.Done? ==> Kept(old(Now()), Now(), f, off, off + |dst|, false)
      ensures r.Done? ==> (inodes == old(inodes) <==> |dst| == 0 || off + |dst| <= DIRECT_BYTES)
      ensures r.Done? && off + |dst| <= DIRECT_BYTES ==>
                forall g, o: nat | g in inodes && o < inodes[g].size :: ByteAt(g, o) == old(ByteAt(g, o))
    {
      hide Valid, TermsOk, Fate, FateOf, Rest, RestOf, Free, DirtyBlocks, Lost, Supply, TermsNow, ByteIn, HasIn, Kept,
        LostTaken, Fetched, FreeZero, Unowned;
      AddrsOf(f);
      dst := [];
      if off > inodes[f].size {
        return Refused, [];
      }
      AllHeld();
      ghost var v, free := Now(), Free();
      var total := if off + counts > inodes[f].size then inodes[f].size - off else counts;
      FateIs(f, off, off + total, false);
      ZeroNow(false);
      FreeUnowned(f);
      r, dst := ReadAll(f, off, total, TermsNow(false));
      if r.Done? {
        if off + |dst| <= DIRECT_BYTES {
          KeptExactly(v, Now(), f, off, off + |dst|, false);
        } else if |dst| > 0 {
          PlaceLost(v.inodes[f].addr, inodes[f].addr, free, off, off + |dst|);
        }
      }
    }

    /** No place of a file has a free block. */
    lemma FreeUnowned(f: int)
      requires Valid() && f in inodes
      ensures |inodes[f].addr| == ADDRS && forall i | 0 <= i < DIRECT :: inodes[f].addr[i] !in Free()
    {
      hide cache.Only, Used, ContentOf, Unshared;
      FreeApart();
      assert InodeOk(inodes[f], cache.Content(mapBlk), first, nblocks);
      forall i | 0 <= i < DIRECT ensures inodes[f].addr[i] !in Free() {
        assert AddrOk(inodes[f].addr[i], cache.Content(mapBlk), first, nblocks);
      }
    }

    /** Whoever goes on behind the direct blocks loses one of them. */
    static lemma PlaceLost(addr: seq<nat>, addr': seq<nat>, free: seq<nat>, off: nat, end: nat)
      requires |addr| == ADDRS && LostTaken(addr', free, off, end) && forall i | 0 <= i < DIRECT :: addr[i] !in free
      requires off < end && DIRECT_BYTES < end <= MAXFILE_SIZE
      ensures addr' != addr
    {
      var i := if off < DIRECT_BYTES then 0 else off / 512 - DIRECT;
      assert Lost(off, end, i);
    }

    /** What was written within the direct blocks is what is read back, and the read is not stopped.  What was
        written behind them reads as zeros where the free blocks hold zeros. */
    method WriteThenRead(f: int, off: nat, src: seq<nat>) returns (w: Outcome, r: Outcome, dst: seq<nat>)
      requires Valid() && f in inodes
      modifies this`inodes, cache
      ensures w.Done? && off + |src| <= DIRECT_BYTES ==> Valid() && r.Done? && dst == src
      ensures w.Done? && r.Done? ==> |dst| == |src|
      ensures w.Done? && r.Done? && off >= DIRECT_BYTES && old(FreeZero()) ==> forall i | 0 <= i < |src| :: dst[i] == 0
    {
      hide Valid, Fate, FateOf, Rest, RestOf, Free, FreeZero, ByteIn, HasIn, Kept, LostTaken, Full, TermsOk, TermsNow,
        Supply, Lost;
      w := Write(f, off, src);
      r, dst := Halted, [];
      if w.Done? {
        ghost var v, zero := Now(), FreeZero();
        if off + |src| <= DIRECT_BYTES {
          ReadsBack(f, off, src);
        }
        r, dst := Read(f, off, |src|);
        if r.Done? {
          FetchedStored(v, f, off, src, dst, zero);
        }
      }
    }

    /** Bytes that were stored can be read, as their blocks have buffers. */
    lemma ReadsBack(f: int, off: nat, src: seq<nat>)
      requires Valid() && f in inodes && Stored(Now(), f, off, src) && off + |src| <= DIRECT_BYTES
      ensures FateOf(f, off, off + |src|, false) == Done
    {
      hide ByteIn, Fate, FateOf, TermsOk, TermsNow, Valid, DirtyBlocks, Free, Lost;
      FateIs(f, off, off + |src|, false);
      AddrsOf(f);
      NoneLost(off, off + |src|);
      ReadFate(inodes[f].addr, Supply(), TermsNow(false), off, off + |src|);
    }
  }
}
