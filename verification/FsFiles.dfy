/** What files are made of (fs/inode.c, include/kern/fs.h): the block map, inodes, the bytes of files, and what
    becomes of a call that goes over bytes of a file, as values.  The block map is one block; of its bits the
    code reaches the first 512. */
module FsFiles {
  import opened FsCache
  import FsLayout
  import opened KernReady
  import opened Options

  const DIRECT: nat := 12
  const ADDRS: nat := 16
  const DIRECT_BYTES: nat := 6144
  const MAXFILE_SIZE: nat := 10432

  datatype Inode = Inode(size: nat, addr: seq<nat>)

  /** A call is through or refused, the kernel stops for lack of a block or a buffer, or the call goes on with
      a block number that it took from old bytes. */
  datatype Outcome = Done | Refused | Halted | Astray

  /** What bmap comes to. */
  datatype Place = Mapped(b: nat) | Stop | Stray

  // ---- the block map ------------------------------------------------------------------------

  /** Bit `i` of the map: bit `i % 8` of the 64-bit word number `i / 8`, thus of its first byte. */
  predicate Used(d: Block, i: nat)
    requires |d| == 512 && i < 512
  {
    Set(d[8 * (i / 8)], i % 8)
  }

  function MarkUsed(d: Block, i: nat): (r: Block)
    requires |d| == 512 && i < 512
    ensures |r| == 512
  {
    d[8 * (i / 8) := Mark(d[8 * (i / 8)], i % 8)]
  }

  /** The code marks the bit it means and no other. */
  lemma UsedAfter(d: Block, i: nat, j: nat)
    requires |d| == 512 && i < 512 && j < 512
    ensures Used(MarkUsed(d, i), j) <==> Used(d, j) || j == i
  {
    MarkOne(d[8 * (i / 8)], i % 8, j % 8);
    assert i / 8 == j / 8 && i % 8 == j % 8 <==> i == j;
  }

  function MarkFree(d: Block, i: nat): (r: Block)
    requires |d| == 512 && i < 512
    ensures |r| == 512
  {
    d[8 * (i / 8) := Unmark(d[8 * (i / 8)], i % 8)]
  }

  lemma FreeAfterMark(d: Block, i: nat, j: nat)
    requires |d| == 512 && i < 512 && j < 512
    ensures Used(MarkFree(d, i), j) <==> Used(d, j) && j != i
  {
    MarkOne(d[8 * (i / 8)], i % 8, j % 8);
    assert i / 8 == j / 8 && i % 8 == j % 8 <==> i == j;
  }

  /** The free blocks from position `i` on, in the order in which they are taken. */
  ghost function FreeFrom(d: Block, first: nat, i: nat, n: nat): (s: seq<nat>)
    requires |d| == 512 && i <= n <= 512
    ensures forall b :: b in s <==> first + i <= b < first + n && !Used(d, b - first)
    decreases n - i
  {
    if i == n then []
    else if Used(d, i) then FreeFrom(d, first, i + 1, n)
    else [first + i] + FreeFrom(d, first, i + 1, n)
  }

  lemma {:induction false} FreeSame(d: Block, d': Block, first: nat, i: nat, n: nat)
    requires |d| == 512 && |d'| == 512 && i <= n <= 512
    requires forall j | i <= j < n :: Used(d', j) == Used(d, j)
    ensures FreeFrom(d', first, i, n) == FreeFrom(d, first, i, n)
    decreases n - i
  {
    hide Used;
    if i < n {
      FreeSame(d, d', first, i + 1, n);
    }
  }

  /** The first free position is the first of the list, and marking it leaves the others. */
  lemma {:induction false} FreeAfter(d: Block, first: nat, i: nat, p: nat, n: nat)
    requires |d| == 512 && i <= p < n <= 512 && !Used(d, p) && forall j | i <= j < p :: Used(d, j)
    ensures var s := FreeFrom(d, first, i, n);
            s != [] && s[0] == first + p && FreeFrom(MarkUsed(d, p), first, i, n) == s[1..]
    decreases p - i
  {
    hide Used, MarkUsed;
    UsedAfter(d, p, i);
    if i < p {
      FreeAfter(d, first, i + 1, p, n);
    } else {
      forall j | p < j < n ensures Used(MarkUsed(d, p), j) == Used(d, j) {
        UsedAfter(d, p, j);
      }
      FreeSame(d, MarkUsed(d, p), first, p + 1, n);
    }
  }

  lemma {:induction false} FreeAscends(d: Block, first: nat, i: nat, n: nat, x: nat, y: nat)
    requires |d| == 512 && i <= n <= 512 && x < y < |FreeFrom(d, first, i, n)|
    ensures FreeFrom(d, first, i, n)[x] < FreeFrom(d, first, i, n)[y]
    decreases n - i
  {
    hide Used;
    if Used(d, i) {
      FreeAscends(d, first, i + 1, n, x, y);
    } else {
      var rest := FreeFrom(d, first, i + 1, n);
      assert rest[y - 1] in rest;
      if x > 0 {
        FreeAscends(d, first, i + 1, n, x - 1, y - 1);
      }
    }
  }

  // ---- files --------------------------------------------------------------------------------

  /** Block numbers of a file: none, or a data block that the map marks as used. */
  ghost predicate AddrOk(a: nat, map0: Block, first: nat, nblocks: nat)
    requires |map0| == 512 && nblocks <= 512
  {
    a == 0 || (first <= a < first + nblocks && Used(map0, a - first))
  }

  /** The places for index blocks are never set. */
  ghost predicate InodeOk(ino: Inode, map0: Block, first: nat, nblocks: nat)
    requires |map0| == 512 && nblocks <= 512
  {
    && |ino.addr| == ADDRS && ino.size <= MAXFILE_SIZE
    && (forall j | 0 <= j < DIRECT :: AddrOk(ino.addr[j], map0, first, nblocks))
    && (forall j | 0 <= j < DIRECT && 512 * j < ino.size :: ino.addr[j] != 0)
    && (forall j | DIRECT <= j < ADDRS :: ino.addr[j] == 0)
  }

  /** No block belongs to two files, or to two places of one. */
  ghost predicate Unshared(inodes: map<int, Inode>) {
    forall f, g, i, j | f in inodes && g in inodes && 0 <= i < |inodes[f].addr| && 0 <= j < |inodes[g].addr|
      && inodes[f].addr[i] == inodes[g].addr[j] != 0 :: f == g && i == j
  }

  /** The inodes after place `j` of file `f` has become `b`. */
  ghost function With(inodes: map<int, Inode>, f: int, j: nat, b: nat): map<int, Inode>
    requires f in inodes && j < |inodes[f].addr|
  {
    inodes[f := inodes[f].(addr := inodes[f].addr[j := b])]
  }

  /** Word `r` of an index block is zero. */
  predicate Blank(d: Block, r: nat)
    requires 8 * r + 8 <= |d|
  {
    forall i | 8 * r <= i < 8 * r + 8 :: d[i] == 0
  }

  predicate Zeros(d: Block) {
    |d| == 512 && forall i | 0 <= i < |d| :: d[i] == 0
  }

  /** A number as `n` bytes, the lowest first. */
  function Bytes(x: nat, n: nat): (s: seq<nat>)
    ensures |s| == n
  {
    if n == 0 then [] else [x % 256] + Bytes(x / 256, n - 1)
  }

  /** The map block and the data blocks lie in this order in an image of `bytes` bytes. */
  predicate LayoutFits(mapBlk: nat, first: nat, nblocks: nat, bytes: nat) {
    0 < mapBlk < first && nblocks <= 512 && 512 * (first + nblocks) <= bytes
  }

  /** Images made by mkfs fit: with a file or a data block, and up to 512 data blocks. */
  lemma MkfsLayoutFits(size: nat, files: nat, perBlock: nat)
    requires perBlock > 0 && FsLayout.Remains(size / 512, files, perBlock) >= 1
    requires files > 0 || FsLayout.InitSuperBlock(size, files, perBlock).nblocks > 0
    requires FsLayout.InitSuperBlock(size, files, perBlock).nblocks <= 512
    ensures var l := FsLayout.InitSuperBlock(size, files, perBlock);
            var map0 := FsLayout.Start(l, FsLayout.BlockMap);
            map0 >= 0 && l.firstData >= 0 && l.nblocks >= 0 && LayoutFits(map0, l.firstData, l.nblocks, size)
  {
    hide FsLayout.Remains, FsLayout.Quotient, FsLayout.BlocksFor;
    FsLayout.AtMostOneUnused(size, files, perBlock);
    if files > 0 {
      FsLayout.CoveredBy(0, files, perBlock);
    }
  }

  /** No block is free, or there are not buffers enough for the map and the first free block. */
  ghost predicate Lacking(free: seq<nat>, taken: set<nat>, map0: nat, n: nat) {
    free == [] || |taken + {map0, free[0]}| > n
  }

  /** The direct block of place `i` is replaced by an index block when bytes `off` to `end` are gone over. */
  predicate Lost(off: nat, end: nat, i: nat) {
    off < end && off < 512 * (i + DIRECT + 1) && 512 * (i + DIRECT) < end
  }

  // ---- the bytes of files -------------------------------------------------------------------

  /** What the bytes of the files depend on. */
  datatype View = View(inodes: map<int, Inode>, buf: seq<Buf>, image: seq<nat>)

  /** File `f` has a block for its byte `o`; for a byte behind the direct blocks that would be one of an index
      block, and there is none. */
  ghost predicate HasIn(inodes: map<int, Inode>, f: int, o: nat) {
    f in inodes && o < DIRECT_BYTES && |inodes[f].addr| == ADDRS && inodes[f].addr[o / 512] != 0
  }

  /** Byte `o` of file `f`. */
  ghost function ByteIn(v: View, f: int, o: nat): nat {
    if HasIn(v.inodes, f, o) && OnDisk(v.image, v.inodes[f].addr[o / 512])
      && |ContentOf(v.buf, v.image, v.inodes[f].addr[o / 512])| == 512
    then ContentOf(v.buf, v.image, v.inodes[f].addr[o / 512])[o % 512]
    else 0
  }

  /** Byte `o` is one of those from `off` to `end` that are written, or in one of the lost places. */
  ghost predicate Hit(off: nat, end: nat, writing: bool, o: nat) {
    (writing && off <= o < end) || Lost(off, end, o / 512)
  }

  /** Every byte of every file is where and what it was, except those of file `f` that are hit. */
  ghost predicate Kept(v: View, v': View, f: int, off: nat, end: nat, writing: bool) {
    forall g, o: nat | HasIn(v.inodes, g, o) && !(g == f && Hit(off, end, writing, o)) ::
      && HasIn(v'.inodes, g, o) && ByteIn(v', g, o) == ByteIn(v, g, o)
      && v'.inodes[g].addr[o / 512] == v.inodes[g].addr[o / 512]
  }

  /** Every byte is where and what it was, except those of file `f` in the direct block that an index block
      replaces when block number `j` is mapped. */
  ghost predicate KeptMapping(v: View, v': View, f: int, j: nat) {
    forall g, o: nat | HasIn(v.inodes, g, o) && !(g == f && o / 512 + DIRECT == j) ::
      && HasIn(v'.inodes, g, o) && ByteIn(v', g, o) == ByteIn(v, g, o)
      && v'.inodes[g].addr[o / 512] == v.inodes[g].addr[o / 512]
  }

  /** The same, except for bytes `off` to `end` of file `f`. */
  ghost predicate KeptOutside(v: View, v': View, f: int, off: nat, end: nat) {
    v'.inodes == v.inodes &&
    forall g, o: nat | HasIn(v.inodes, g, o) && !(g == f && off <= o < end) :: ByteIn(v', g, o) == ByteIn(v, g, o)
  }

  /** The same, without exception. */
  ghost predicate KeptWhole(v: View, v': View) {
    v'.inodes == v.inodes && forall g, o: nat | HasIn(v.inodes, g, o) :: ByteIn(v', g, o) == ByteIn(v, g, o)
  }

  lemma WholeOutside(v: View, v': View, f: int, off: nat, end: nat)
    requires KeptWhole(v, v')
    ensures KeptOutside(v, v', f, off, end)
  {
    hide ByteIn, HasIn;
  }

  /** One round: bmap, and then bytes `off` to `end` of one block are read or written. */
  lemma KeptRound(v: View, v': View, v'': View, f: int, off: nat, end: nat, writing: bool)
    requires off < end <= off + 512 - off % 512
    requires KeptMapping(v, v', f, off / 512) && KeptOutside(v', v'', f, off, if writing then end else off)
    ensures Kept(v, v'', f, off, end, writing)
  {
    hide ByteIn, Lost;
    forall g, o: nat | HasIn(v.inodes, g, o) && !(g == f && Hit(off, end, writing, o))
      ensures HasIn(v''.inodes, g, o) && ByteIn(v'', g, o) == ByteIn(v, g, o)
      ensures v''.inodes[g].addr[o / 512] == v.inodes[g].addr[o / 512]
    {
      LostStep(off, off, end, o / 512);
    }
  }

  /** Bytes `src` are in file `f` from `off` on, in dirty buffers, except in its lost places. */
  ghost predicate Stored(v: View, f: int, off: nat, src: seq<nat>) {
    forall o: nat | off <= o < off + |src| && o < DIRECT_BYTES && !Lost(off, off + |src|, o / 512) ::
      && HasIn(v.inodes, f, o) && ByteIn(v, f, o) == src[o - off]
      && v.inodes[f].addr[o / 512] in DirtyBlocks(v.buf)
  }

  lemma StoredRound(v: View, f: int, off: nat, bytes: seq<nat>)
    requires 0 < |bytes| <= 512 - off % 512
    requires off < DIRECT_BYTES ==>
               && (forall o: nat | off <= o < off + |bytes| ::
                     HasIn(v.inodes, f, o) && ByteIn(v, f, o) == bytes[o - off])
               && HasIn(v.inodes, f, off) && v.inodes[f].addr[off / 512] in DirtyBlocks(v.buf)
    ensures Stored(v, f, off, bytes)
  {
    hide ByteIn, DirtyBlocks, Lost;
    assert forall o: nat | off <= o < off + |bytes| :: o / 512 == off / 512;
  }

  /** A round goes over one block, and adds to the lost places at most one. */
  lemma LostStep(off: nat, pos: nat, end: nat, i: nat)
    requires off <= pos < end <= pos + 512 - pos % 512
    ensures Lost(off, end, i) <==> Lost(off, pos, i) || Lost(pos, end, i)
    ensures Lost(pos, end, i) <==> i + DIRECT == pos / 512
    ensures Lost(off, pos, i) ==> i + DIRECT <= pos / 512
  {
  }

  /** The lost places have blocks that were free. */
  ghost predicate LostTaken(addr: seq<nat>, free: seq<nat>, off: nat, end: nat) {
    |addr| == ADDRS && forall i | 0 <= i < DIRECT && Lost(off, end, i) :: addr[i] in free
  }

  /** Of the places at most that of block number `j` is different. */
  ghost predicate OnlyPlace(addr: seq<nat>, addr': seq<nat>, j: nat) {
    |addr| == |addr'| == ADDRS && forall i | 0 <= i < ADDRS && j !in {i, i + DIRECT} :: addr'[i] == addr[i]
  }

  /** The direct places from byte `pos` on are as they were. */
  ghost predicate Ahead(addr: seq<nat>, addr': seq<nat>, pos: nat, end: nat) {
    |addr| == |addr'| == ADDRS && (pos < end ==> forall i | pos / 512 <= i < DIRECT :: addr'[i] == addr[i])
  }

  lemma LostTakenStep(addr: seq<nat>, addr': seq<nat>, free: seq<nat>, free': seq<nat>, off: nat, pos: nat, end: nat)
    requires off <= pos < end <= pos + 512 - pos % 512
    requires LostTaken(addr, free, off, pos) && OnlyPlace(addr, addr', pos / 512) && forall c | c in free' :: c in free
    requires DIRECT <= pos / 512 < DIRECT + ADDRS ==> free' != [] && addr'[pos / 512 - DIRECT] == free'[0]
    ensures LostTaken(addr', free, off, end)
  {
    hide Lost;
    forall i | 0 <= i < DIRECT && Lost(off, end, i) ensures addr'[i] in free {
      LostStep(off, pos, end, i);
    }
  }

  lemma AheadStep(addr: seq<nat>, addr': seq<nat>, addr'': seq<nat>, pos: nat, next: nat, end: nat)
    requires Ahead(addr, addr', pos, end) && OnlyPlace(addr', addr'', pos / 512) && pos < next <= end
    requires next < end ==> next / 512 == pos / 512 + 1
    ensures Ahead(addr, addr'', next, end)
  {
  }

  lemma NoneLost(off: nat, end: nat)
    ensures end <= DIRECT_BYTES ==> forall i: nat :: !Lost(off, end, i)
  {
  }

  lemma KeptStep(v: View, v': View, v'': View, f: int, off: nat, pos: nat, end: nat, writing: bool)
    requires off <= pos < end <= pos + 512 - pos % 512
    requires Kept(v, v', f, off, pos, writing) && Kept(v', v'', f, pos, end, writing)
    ensures Kept(v, v'', f, off, end, writing)
  {
    hide ByteIn, Lost;
    forall g, o: nat | HasIn(v.inodes, g, o) && !(g == f && Hit(off, end, writing, o))
      ensures HasIn(v''.inodes, g, o) && ByteIn(v'', g, o) == ByteIn(v, g, o)
      ensures v''.inodes[g].addr[o / 512] == v.inodes[g].addr[o / 512]
    {
      LostStep(off, pos, end, o / 512);
    }
  }

  lemma StoredStep(v: View, v': View, f: int, off: nat, src: seq<nat>, bytes: seq<nat>)
    requires 0 < |bytes| <= 512 - (off + |src|) % 512 && DirtyBlocks(v.buf) <= DirtyBlocks(v'.buf)
    requires Stored(v, f, off, src) && Kept(v, v', f, off + |src|, off + |src| + |bytes|, true)
    requires Stored(v', f, off + |src|, bytes)
    ensures Stored(v', f, off, src + bytes)
  {
    hide ByteIn, Lost, DirtyBlocks;
    var pos, all := off + |src|, src + bytes;
    forall o: nat | off <= o < off + |all| && o < DIRECT_BYTES && !Lost(off, off + |all|, o / 512)
      ensures HasIn(v'.inodes, f, o) && ByteIn(v', f, o) == all[o - off]
      ensures v'.inodes[f].addr[o / 512] in DirtyBlocks(v'.buf)
    {
      LostStep(off, pos, off + |all|, o / 512);
      assert pos + |bytes| == off + |all|;
    }
  }

  /** `dst` holds the bytes of file `f` from `off` on; those behind the direct blocks are zeros if the free
      blocks held zeros. */
  ghost predicate Fetched(v: View, f: int, off: nat, dst: seq<nat>, zero: bool) {
    forall i | 0 <= i < |dst| ::
      (off + i < DIRECT_BYTES ==> dst[i] == ByteIn(v, f, off + i)) && (off + i >= DIRECT_BYTES && zero ==> dst[i] == 0)
  }

  lemma FetchedStep(v: View, v': View, f: int, off: nat, dst: seq<nat>, bytes: seq<nat>, zero: bool)
    requires Fetched(v, f, off, dst, zero) && Fetched(v', f, off + |dst|, bytes, zero)
    requires off + |dst| < DIRECT_BYTES ==> Kept(v, v', f, off, off + |dst|, false)
    requires forall o: nat | off + |dst| <= o < off + |dst| + |bytes| && o < DIRECT_BYTES :: HasIn(v.inodes, f, o)
    ensures Fetched(v, f, off, dst + bytes, zero)
  {
    hide ByteIn, HasIn;
    NoneLost(off, off + |dst|);
    var pos, all := off + |dst|, dst + bytes;
    forall i | 0 <= i < |all|
      ensures off + i < DIRECT_BYTES ==> all[i] == ByteIn(v, f, off + i)
      ensures off + i >= DIRECT_BYTES && zero ==> all[i] == 0
    {
      if i >= |dst| {
        var k := i - |dst|;
        assert all[i] == bytes[k] && pos + k == off + i;
        if off + i < DIRECT_BYTES {
          assert HasIn(v.inodes, f, off + i);
        }
      }
    }
  }

  /** Bytes that were stored and fetched again. */
  lemma FetchedStored(v: View, f: int, off: nat, src: seq<nat>, dst: seq<nat>, zero: bool)
    requires Stored(v, f, off, src) && Fetched(v, f, off, dst, zero) && |dst| == |src|
    ensures off + |src| <= DIRECT_BYTES ==> dst == src
    ensures off >= DIRECT_BYTES && zero ==> forall i | 0 <= i < |dst| :: dst[i] == 0
  {
    hide ByteIn;
    NoneLost(off, off + |src|);
    if off + |src| <= DIRECT_BYTES {
      forall i | 0 <= i < |dst| ensures dst[i] == src[i] {
        assert dst[i] == ByteIn(v, f, off + i);
      }
    }
  }

  /** The bytes do not depend on the sizes of files. */
  lemma SizeOnly(v: View, v': View, v'': View, f: int, size: nat, off: nat, src: seq<nat>)
    requires f in v'.inodes && v'' == v'.(inodes := v'.inodes[f := v'.inodes[f].(size := size)])
    requires Stored(v', f, off, src) && Kept(v, v', f, off, off + |src|, true)
    ensures Stored(v'', f, off, src) && Kept(v, v'', f, off, off + |src|, true)
  {
    hide Lost, DirtyBlocks, ContentOf;
    assert forall g, o: nat {:trigger HasIn(v''.inodes, g, o)} :: HasIn(v''.inodes, g, o) == HasIn(v'.inodes, g, o);
    assert forall g, o: nat {:trigger ByteIn(v'', g, o)} :: ByteIn(v'', g, o) == ByteIn(v', g, o);
  }

  /** All bytes are in the file exactly when none of them lies behind the direct blocks. */
  lemma StoredExactly(v: View, f: int, off: nat, src: seq<nat>)
    requires Stored(v, f, off, src)
    ensures (forall o: nat | off <= o < off + |src| :: HasIn(v.inodes, f, o) && ByteIn(v, f, o) == src[o - off]) <==>
            |src| == 0 || off + |src| <= DIRECT_BYTES
  {
    hide ByteIn;
    NoneLost(off, off + |src|);
    if |src| > 0 && off + |src| > DIRECT_BYTES {
      assert !HasIn(v.inodes, f, off + |src| - 1);
    }
  }

  lemma NoByte(v: View, f: int, o: nat)
    requires o >= DIRECT_BYTES
    ensures ByteIn(v, f, o) == 0
  {
  }

  /** What has no block counts as zero, so that nothing else is to be kept. */
  lemma KeptExactly(v: View, v': View, f: int, off: nat, end: nat, writing: bool)
    requires Kept(v, v', f, off, end, writing) && end <= DIRECT_BYTES
    requires forall g, o: nat | g in v.inodes && o < v.inodes[g].size && o < DIRECT_BYTES :: HasIn(v.inodes, g, o)
    ensures forall g, o: nat | g in v.inodes && o < v.inodes[g].size && !(g == f && writing && off <= o < end) ::
              ByteIn(v', g, o) == ByteIn(v, g, o)
  {
    hide ContentOf;
    NoneLost(off, end);
    forall g, o: nat | g in v.inodes && o < v.inodes[g].size && !(g == f && writing && off <= o < end)
      ensures ByteIn(v', g, o) == ByteIn(v, g, o)
    {
      if o < DIRECT_BYTES {
        assert HasIn(v.inodes, g, o) && (g == f ==> !Hit(off, end, writing, o));
      } else {
        NoByte(v, g, o);
        NoByte(v', g, o);
      }
    }
  }

  // ---- what becomes of a call ---------------------------------------------------------------

  /** What a call can draw on: the free blocks, and the blocks whose buffers are dirty already. */
  datatype Stock = Stock(free: seq<nat>, dirty: set<nat>)

  /** The map block, the number of buffers, the words of free blocks that are not zero, whether the call
      writes, and whether all free blocks are known to hold zeros. */
  datatype Terms = Terms(map0: nat, n: nat, stale: set<(nat, nat)>, writing: bool, zero: bool)

  /** What bmap comes to for place `j`, whose block is `a`. */
  ghost function Mapping(a: nat, j: nat, s: Stock, t: Terms): Outcome {
    if j < DIRECT && a != 0 then Done
    else if Lacking(s.free, s.dirty, t.map0, t.n) then Halted
    else if j < DIRECT then Done
    else if (s.free[0], j - DIRECT) in t.stale then Astray
    else if Lacking(s.free[1..], s.dirty + {s.free[0]}, t.map0, t.n) then Halted
    else Done
  }

  /** The block that it finds. */
  ghost function Found(a: nat, j: nat, s: Stock, t: Terms): nat
    requires Mapping(a, j, s, t) == Done
  {
    if j < DIRECT && a != 0 then a else if j < DIRECT then s.free[0] else s.free[1]
  }

  /** What it leaves. */
  ghost function Left(a: nat, j: nat, s: Stock, t: Terms): Stock
    requires Mapping(a, j, s, t) == Done
  {
    if j < DIRECT && a != 0 then s
    else Stock(if j < DIRECT then s.free[1..] else s.free[2..], s.dirty + {t.map0})
  }

  /** One round of a loop: bmap, then the block is read or written. */
  ghost function Round(a: nat, j: nat, s: Stock, t: Terms): Outcome {
    if Mapping(a, j, s, t) != Done then Mapping(a, j, s, t)
    else if Room(Left(a, j, s, t).dirty, t.n, Found(a, j, s, t)) then Done
    else Halted
  }

  ghost function AfterRound(a: nat, j: nat, s: Stock, t: Terms): Stock
    requires Round(a, j, s, t) == Done
  {
    var rest := Left(a, j, s, t);
    rest.(dirty := rest.dirty + if t.writing then {Found(a, j, s, t)} else {})
  }

  /** What a call comes to that goes over the bytes from `pos` to `end` of a file with blocks `addr`. */
  ghost function Fate(addr: seq<nat>, s: Stock, t: Terms, pos: nat, end: nat): Outcome
    requires |addr| == ADDRS
    decreases end - pos
  {
    if pos >= end then Done
    else
      var j := pos / 512;
      var a := if j < DIRECT then addr[j] else 0;
      if Round(a, j, s, t) != Done then Round(a, j, s, t)
      else Fate(addr, AfterRound(a, j, s, t), t, 512 * (j + 1), end)
  }

  /** What it leaves. */
  ghost function Rest(addr: seq<nat>, s: Stock, t: Terms, pos: nat, end: nat): Stock
    requires |addr| == ADDRS
    decreases end - pos
  {
    if pos >= end then s
    else
      var j := pos / 512;
      var a := if j < DIRECT then addr[j] else 0;
      if Round(a, j, s, t) != Done then s else Rest(addr, AfterRound(a, j, s, t), t, 512 * (j + 1), end)
  }

  /** A read within blocks that the file has goes through exactly when each of them can be had. */
  lemma {:induction false} ReadFate(addr: seq<nat>, s: Stock, t: Terms, pos: nat, end: nat)
    requires |addr| == ADDRS && !t.writing && end <= DIRECT_BYTES
    requires forall o | pos <= o < end :: addr[o / 512] != 0
    ensures Fate(addr, s, t, pos, end) ==
            if forall o | pos <= o < end :: Room(s.dirty, t.n, addr[o / 512]) then Done else Halted
    decreases end - pos
  {
    hide Room;
    if pos < end {
      var j := pos / 512;
      var next := 512 * (j + 1);
      assert forall o | pos <= o < end && o < next :: o / 512 == j;
      assert addr[pos / 512] != 0;
      assert Round(addr[j], j, s, t) == Done ==> AfterRound(addr[j], j, s, t) == s;
      ReadFate(addr, s, t, next, end);
    }
  }

  /** The blocks that a write needs in buffers of their own: those of the file, and for each new one the map as
      well; nothing if too few are free. */
  ghost function Wanted(addr: seq<nat>, free: seq<nat>, map0: nat, pos: nat, end: nat): Option<set<nat>>
    requires |addr| == ADDRS && end <= DIRECT_BYTES
    decreases end - pos
  {
    if pos >= end then Some({})
    else
      var j := pos / 512;
      if addr[j] == 0 && free == [] then None
      else
        var rest := Wanted(addr, if addr[j] != 0 then free else free[1..], map0, 512 * (j + 1), end);
        if rest.None? then None
        else Some(rest.value + if addr[j] != 0 then {addr[j]} else {map0, free[0]})
  }

  /** The blocks that the round at place `j` needs. */
  ghost function Own(a: nat, free: seq<nat>, map0: nat): set<nat>
    requires a != 0 || free != []
  {
    if a != 0 then {a} else {map0, free[0]}
  }

  /** The free blocks behind it. */
  ghost function Behind(a: nat, free: seq<nat>): seq<nat>
    requires a != 0 || free != []
  {
    if a != 0 then free else free[1..]
  }

  lemma WantedStep(addr: seq<nat>, free: seq<nat>, map0: nat, pos: nat, end: nat)
    requires |addr| == ADDRS && pos < end <= DIRECT_BYTES
    ensures var a := addr[pos / 512];
            Wanted(addr, free, map0, pos, end) ==
            if a == 0 && free == [] then None
            else
              var rest := Wanted(addr, Behind(a, free), map0, 512 * (pos / 512 + 1), end);
              if rest.None? then None else Some(rest.value + Own(a, free, map0))
  {
  }

  lemma FateUnfolds(addr: seq<nat>, s: Stock, t: Terms, pos: nat, end: nat)
    requires |addr| == ADDRS && pos < end <= DIRECT_BYTES
    ensures var j := pos / 512;
            Fate(addr, s, t, pos, end) ==
            if Round(addr[j], j, s, t) != Done then Round(addr[j], j, s, t)
            else Fate(addr, AfterRound(addr[j], j, s, t), t, 512 * (j + 1), end)
  {
    hide Round, AfterRound;
  }

  /** A write within the direct blocks goes through exactly when the blocks it wants and those that are dirty
      already have buffers enough. */
  lemma {:induction false} WriteFate(addr: seq<nat>, s: Stock, t: Terms, pos: nat, end: nat)
    requires |addr| == ADDRS && t.writing && end <= DIRECT_BYTES && |s.dirty| <= t.n
    ensures var w := Wanted(addr, s.free, t.map0, pos, end);
            Fate(addr, s, t, pos, end) == if w.Some? && |s.dirty + w.value| <= t.n then Done else Halted
    decreases end - pos
  {
    if pos >= end {
      assert s.dirty + {} == s.dirty;
    } else {
      hide Round, AfterRound, Fate, Wanted, Own, Behind;
      var a, next := addr[pos / 512], 512 * (pos / 512 + 1);
      FateUnfolds(addr, s, t, pos, end);
      WantedStep(addr, s.free, t.map0, pos, end);
      RoundFits(a, pos / 512, s, t);
      if a != 0 || s.free != [] {
        var own, free := Own(a, s.free, t.map0), Behind(a, s.free);
        var rest := Wanted(addr, free, t.map0, next, end);
        if |s.dirty + own| <= t.n {
          WriteFate(addr, Stock(free, s.dirty + own), t, next, end);
        }
        if rest.Some? {
          Joined(s.dirty, own, rest.value);
        }
      }
    }
  }

  lemma Joined(d: set<nat>, own: set<nat>, rest: set<nat>)
    ensures (d + own) + rest == d + (rest + own) && |d + own| <= |d + (rest + own)|
  {
    assert (d + own) + rest == d + (rest + own);
    Larger(d + own, d + (rest + own));
  }

  lemma RoundFits(a: nat, j: nat, s: Stock, t: Terms)
    requires t.writing && j < DIRECT && |s.dirty| <= t.n
    ensures a == 0 && s.free == [] ==> Round(a, j, s, t) == Halted
    ensures a != 0 || s.free != [] ==>
              var own := Own(a, s.free, t.map0);
              && Round(a, j, s, t) == (if |s.dirty + own| <= t.n then Done else Halted)
              && (Round(a, j, s, t) == Done ==> AfterRound(a, j, s, t) == Stock(Behind(a, s.free), s.dirty + own))
  {
    if a != 0 {
      assert a in s.dirty ==> s.dirty + {a} == s.dirty;
    } else if s.free != [] {
      var m, b := t.map0, s.free[0];
      assert s.dirty + {m} + {b} == s.dirty + {m, b};
      assert b in s.dirty + {m} ==> s.dirty + {m} + {b} == s.dirty + {m};
    }
  }

  lemma Larger(a: set<nat>, b: set<nat>)
    requires a <= b
    ensures |a| <= |b|
  {
    assert b == a + (b - a);
  }
}
