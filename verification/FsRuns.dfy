/** Runs of the storage code from a new cache that show what its promises do not cover. */
module FsRuns {
  import opened FsCache
  import opened FsFiles
  import opened FsInode
  import opened KernReady
  import opened Options

  // ---- old bytes ----------------------------------------------------------------------------

  /** Over every disk and with a new cache of two buffers or more: find_free_data_block takes the first free
      block, and the block it has cleared holds the bytes that were on the disk. */
  method NewBlockKeepsBytes(n: nat, image: seq<nat>, mapBlk: nat, first: nat, nblocks: nat)
    returns (fs: FileSystem, r: Option<nat>)
    requires n >= 2 && LayoutFits(mapBlk, first, nblocks, |image|) && |BlockAt(image, mapBlk)| == 512
    ensures fs.Valid() && |fs.cache.image| == |image|
    ensures var free := FreeFrom(BlockAt(image, mapBlk), first, 0, nblocks);
            r == if free == [] then None else Some(free[0])
    ensures r.Some? ==> OnDisk(image, r.value) && fs.cache.Content(r.value) == BlockAt(image, r.value)
  {
    hide Ordered, ContentOf, FreeFrom, Used;
    var c := new Cache(n, image);
    fs := new FileSystem(c, mapBlk, first, nblocks, map[]);
    r := fs.FindFree(None);
  }

  /** For example, a disk of three blocks whose only data block holds sevens. */
  method SevensStay() returns (fs: FileSystem, r: Option<nat>)
    ensures r == Some(2) && |fs.cache.image| == 1536 && fs.cache.Content(2) == seq(512, _ => 7)
  {
    var image := seq(1536, i => if i < 1024 then 0 else 7);
    fs, r := NewBlockKeepsBytes(2, image, 1, 2, 1);
  }

  // ---- bytes behind the direct blocks -------------------------------------------------------

  /** One round behind the direct blocks goes through. */
  lemma OneRound(addr: seq<nat>, s: Stock, t: Terms)
    requires |addr| == ADDRS && |s.free| >= 2 && |s.dirty| + 3 <= t.n && (s.free[0], 0) !in t.stale
    ensures Fate(addr, s, t, DIRECT_BYTES, DIRECT_BYTES + 1) == Done
    ensures var rest := Rest(addr, s, t, DIRECT_BYTES, DIRECT_BYTES + 1);
            rest.free == s.free[2..] && |rest.dirty| <= |s.dirty| + 2
  {
    var d, m, i, b := s.dirty, t.map0, s.free[0], s.free[1];
    AtMost(d, {m, i}, 2);
    AtMost(d, {m}, 1);
    AtMost(d + {i}, {m, b}, 2);
    AtMost(d, {i}, 1);
    AtMost(d + {m}, {b}, 1);
  }

  lemma AtMost(a: set<nat>, b: set<nat>, k: nat)
    requires |b| <= k
    ensures |a + b| <= |a| + k
  {
    assert a + b == a + (b - a);
    assert b == (b - a) + (b * a);
  }

  /** Whatever byte is written right behind the direct blocks, the next read finds a zero there. */
  method TailLost(fs: FileSystem, f: int, v: nat) returns (w: Outcome, r: Outcome, dst: seq<nat>)
    requires fs.Valid() && f in fs.inodes && fs.inodes[f].size == DIRECT_BYTES && fs.FreeZero()
    requires |fs.Free()| >= 4 && |DirtyBlocks(fs.cache.buf)| + 5 <= |fs.cache.buf|
    modifies fs`inodes, fs.cache
    ensures w.Done? && r.Done? && dst == [0]
  {
    hide fs.Valid, fs.FreeZero, fs.Free, Fate, Rest, DirtyBlocks, ByteIn, HasIn, LostTaken, Kept, Lost;
    RoundBehind(fs, f, true);
    w := fs.Write(f, DIRECT_BYTES, [v]);
    RoundBehind(fs, f, false);
    r, dst := fs.Read(f, DIRECT_BYTES, 1);
  }

  lemma RoundBehind(fs: FileSystem, f: int, writing: bool)
    requires fs.Valid() && f in fs.inodes && fs.FreeZero()
    requires |fs.Free()| >= 2 && |DirtyBlocks(fs.cache.buf)| + 3 <= |fs.cache.buf|
    ensures fs.FateOf(f, DIRECT_BYTES, DIRECT_BYTES + 1, writing) == Done
    ensures var rest := fs.RestOf(f, DIRECT_BYTES, DIRECT_BYTES + 1, writing);
            rest.free == fs.Free()[2..] && |rest.dirty| <= |DirtyBlocks(fs.cache.buf)| + 2
  {
    hide fs.Valid, fs.FreeZero, fs.Free, Fate, Rest, DirtyBlocks, fs.Stale;
    fs.FateIs(f, DIRECT_BYTES, DIRECT_BYTES + 1, writing);
    fs.NoStale(writing);
    assert fs.Free()[0] in fs.Free();
    OneRound(fs.inodes[f].addr, fs.Supply(), fs.TermsNow(writing));
  }

  /** A disk of 18 blocks: the map, and 16 data blocks of which the first twelve are used. */
  function Disk(): seq<nat> {
    seq(9216, i => if i == 512 then 255 else if i == 520 then 15 else 0)
  }

  lemma DiskMap(d: Block)
    requires d == BlockAt(Disk(), 1)
    ensures |d| == 512 && forall i | 0 <= i < 16 :: Used(d, i) <==> i < 12
    ensures var free := FreeFrom(d, 2, 0, 16); |free| >= 4 && forall b | b in free :: 14 <= b < 18
  {
    assert d[0] == 255 && d[8] == 15;
    assert Ones(4) == 15 && Ones(8) == 2 * (2 * (2 * (2 * Ones(4) + 1) + 1) + 1) + 1;
    forall i | 0 <= i < 16 ensures Used(d, i) <==> i < 12 {
      OnesSet(if i < 8 then 8 else 4, i % 8);
    }
    var free := FreeFrom(d, 2, 0, 16);
    FourOf(free);
  }

  /** The number whose lowest `n` bits are set. */
  function Ones(n: nat): nat {
    if n == 0 then 0 else 2 * Ones(n - 1) + 1
  }

  lemma {:induction false} OnesSet(n: nat, i: nat)
    ensures Set(Ones(n), i) <==> i < n
  {
    if n > 0 {
      assert Ones(n) / 2 == Ones(n - 1);
    }
    if i > 0 {
      OnesSet(if n == 0 then 0 else n - 1, i - 1);
    }
  }

  lemma FourOf(s: seq<nat>)
    requires 14 in s && 15 in s && 16 in s && 17 in s
    ensures |s| >= 4
  {
  }

  /** A file on the first twelve data blocks. */
  function TwelveBlocks(): Inode {
    Inode(DIRECT_BYTES, [2, 3, 4, 5, 6, 7, 8, 9, 10, 11, 12, 13, 0, 0, 0, 0])
  }

  /** Such a disk with a new cache and the one file. */
  method NewSystem() returns (fs: FileSystem)
    ensures fresh(fs) && fs.Valid() && fs.inodes == map[0 := TwelveBlocks()] && fs.FreeZero() && |fs.Free()| >= 4
    ensures fresh(fs.cache) && |fs.cache.buf| == 18 && DirtyBlocks(fs.cache.buf) == {}
    ensures fs.mapBlk == 1 && fs.first == 2 && fs.nblocks == 16 && OnDisk(fs.cache.image, 1)
    ensures forall i | 0 <= i < 16 :: Used(fs.cache.Content(1), i) <==> i < 12
  {
    hide Ordered, ContentOf, FreeFrom, Used, Disk;
    var c := new Cache(18, Disk());
    DiskSize();
    var d := BlockAt(Disk(), 1);
    DiskMap(d);
    FileOk(d);
    fs := new FileSystem(c, 1, 2, 16, map[0 := TwelveBlocks()]);
    NothingDirty(c);
    forall b | b in fs.Free() ensures OnDisk(c.image, b) && Zeros(c.Content(b)) {
      DataZero(b);
    }
  }

  /** A byte is written behind the direct blocks of the file and lost. */
  method ByteLost(v: nat) returns (fs: FileSystem, w: Outcome, r: Outcome, dst: seq<nat>)
    ensures w.Done? && r.Done? && dst == [0]
  {
    fs := NewSystem();
    w, r, dst := TailLost(fs, 0, v);
  }

  /** The first block of the file is released, and its third block is free instead. */
  method WrongBlockFreed() returns (fs: FileSystem, r: Outcome)
    ensures r.Done? && !fs.Valid() && fs.inodes == map[0 := TwelveBlocks()]
    ensures fs.first == 2 && OnDisk(fs.cache.image, 1) && |fs.cache.Content(1)| == 512
    ensures Used(fs.cache.Content(1), 0) && !Used(fs.cache.Content(1), 2)
  {
    hide Ordered, ContentOf, FreeFrom, Used, fs.Valid, DirtyBlocks;
    fs := NewSystem();
    assert fs.inodes[0].addr[2] == 4;
    r := fs.ReleaseBlock(2);
  }

  lemma NothingDirty(c: Cache)
    requires forall i | 0 <= i < |c.buf| :: !c.buf[i].dirty
    ensures DirtyBlocks(c.buf) == {}
  {
  }

  lemma DiskSize()
    ensures |Disk()| == 9216
  {
  }

  lemma DataZero(b: nat)
    requires 14 <= b < 18
    ensures OnDisk(Disk(), b) && Zeros(BlockAt(Disk(), b))
  {
    var d := BlockAt(Disk(), b);
    forall i | 0 <= i < 512 ensures d[i] == 0 {
      assert d[i] == Disk()[512 * b + i];
    }
  }

  lemma FileOk(d: Block)
    requires |d| == 512 && forall i | 0 <= i < 16 :: Used(d, i) <==> i < 12
    ensures InodeOk(TwelveBlocks(), d, 2, 16) && Unshared(map[0 := TwelveBlocks()])
  {
    hide Used;
    var addr := TwelveBlocks().addr;
    forall j | 0 <= j < DIRECT ensures AddrOk(addr[j], d, 2, 16) && addr[j] == j + 2 {
    }
  }
}
