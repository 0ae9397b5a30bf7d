/** The layout of a file system image (init_super_block in tools/fs/mkfs.c) and the block addresses the
    kernel computes from the super block (fs/inode.c).  An inode block holds `perBlock` inodes, a bitmap
    block 4096 bits. */
module FsLayout {

  /** The fields of the super block that place the regions, and the number of inode blocks. */
  datatype Layout = Layout(max: nat, ninodes: nat, inodeMapBlocks: nat, blockMapBlocks: int, inodeBlocks: nat,
    firstData: int, nblocks: int)

  /** Integer division as C does it: towards zero. */
  function Quotient(a: int, b: nat): int
    requires b > 0
  {
    if a >= 0 then a / b else -(-a / b)
  }

  function BlocksFor(n: nat, perBlock: nat): nat
    requires perBlock > 0
  {
    (n + (perBlock - 1)) / perBlock
  }

  /** What is left for the block map and the data. */
  function Remains(max: nat, files: nat, perBlock: nat): int
    requires perBlock > 0
  {
    max - 2 - BlocksFor(files, 4096) - BlocksFor(files, perBlock)
  }

  /** init_super_block */
  function InitSuperBlock(size: nat, files: nat, perBlock: nat): Layout
    requires perBlock > 0
  {
    var max := size / 512;
    var inodeMap := BlocksFor(files, 4096);
    var inodes := BlocksFor(files, perBlock);
    var data := Quotient(Remains(max, files, perBlock) * 4096 - 4095, 4097);
    var blockMap := Quotient(data + 4095, 4096);
    Layout(max, files, inodeMap, blockMap, inodes, 2 + inodeMap + inodes + blockMap, data)
  }

  // ---- the regions --------------------------------------------------------------------------

  /** The blocks a data bitmap needs and the data blocks use up what remains but for one block at
      most, and none at all just when the remainder says so. */
  lemma TightSplit(r: nat)
    requires r >= 1
    ensures var d := Quotient(r * 4096 - 4095, 4097);
            var b := Quotient(d + 4095, 4096);
            && d >= 0 && b >= 0 && d <= 4096 * b && 4096 * (b - 1) < d
            && (d + b == r || d + b == r - 1)
            && (d + b == r <==> r % 4097 == 2)
  {
    var q, m := r / 4097, r % 4097;
    assert r == 4097 * q + m;
    assert r * 4096 - 4095 == 4097 * (4096 * q + m) - m - 4095;
    DataBlocks(q, m);
  }

  lemma DataBlocks(q: nat, m: nat)
    requires m < 4097 && (q > 0 || m > 0)
    ensures var d := (4097 * (4096 * q + m) - m - 4095) / 4097;
            && d == 4096 * q + (if m == 0 then -1 else if m <= 2 then m - 1 else m - 2)
            && (d + 4095) / 4096 == q + (if m <= 1 then 0 else 1)
  {
    var k := if m == 0 then -1 else if m <= 2 then m - 1 else m - 2;
    QuotientIs(4097 * (4096 * q + m) - m - 4095, 4096 * q + k);
    var d := 4096 * q + k;
    RoundUpIs(d + 4095, q + (if m <= 1 then 0 else 1));
  }

  lemma QuotientIs(a: int, q: int)
    requires 4097 * q <= a < 4097 * q + 4097
    ensures a / 4097 == q
  {
  }

  lemma RoundUpIs(a: int, q: int)
    requires 4096 * q <= a < 4096 * q + 4096
    ensures a / 4096 == q
  {
  }

  datatype Region = Reserved | SuperBlock | InodeMap | BlockMap | InodeTable | Data

  function Start(l: Layout, r: Region): int {
    match r
    case Reserved => 0
    case SuperBlock => 1
    case InodeMap => 2
    case BlockMap => 2 + l.inodeMapBlocks
    case InodeTable => 2 + l.inodeMapBlocks + l.blockMapBlocks
    case Data => l.firstData
  }

  function Length(l: Layout, r: Region): int {
    match r
    case Reserved => 1
    case SuperBlock => 1
    case InodeMap => l.inodeMapBlocks
    case BlockMap => l.blockMapBlocks
    case InodeTable => l.inodeBlocks
    case Data => l.nblocks
  }

  predicate Within(l: Layout, r: Region, blk: int) {
    Start(l, r) <= blk < Start(l, r) + Length(l, r)
  }

  /** One region starts where the one before it ends. */
  ghost predicate Consecutive(l: Layout) {
    && 0 <= l.blockMapBlocks && 0 <= l.nblocks <= 4096 * l.blockMapBlocks
    && l.firstData == 2 + l.inodeMapBlocks + l.blockMapBlocks + l.inodeBlocks
  }

  /** For every size and number of files that leave a block, the regions fit in the image and at most
      one block is unused. */
  lemma AtMostOneUnused(size: nat, files: nat, perBlock: nat)
    requires perBlock > 0 && Remains(size / 512, files, perBlock) >= 1
    ensures var l := InitSuperBlock(size, files, perBlock);
            && Consecutive(l)
            && l.firstData + l.nblocks <= l.max <= l.firstData + l.nblocks + 1
            && (l.firstData + l.nblocks == l.max <==> Remains(l.max, files, perBlock) % 4097 == 2)
  {
    hide Quotient, BlocksFor;
    TightSplit(Remains(size / 512, files, perBlock));
  }

  /** No block is in two regions, and every block in front of the unused one is in a region. */
  lemma RegionsTile(size: nat, files: nat, perBlock: nat, blk: nat)
    requires perBlock > 0 && Remains(size / 512, files, perBlock) >= 1
    ensures var l := InitSuperBlock(size, files, perBlock);
            && (forall r, s | Within(l, r, blk) && Within(l, s, blk) :: r == s)
            && (blk < l.firstData + l.nblocks <==> exists r :: Within(l, r, blk))
  {
    hide InitSuperBlock, Remains;
    var l := InitSuperBlock(size, files, perBlock);
    AtMostOneUnused(size, files, perBlock);
    if blk < l.firstData + l.nblocks {
      var r := if blk < 1 then Reserved else if blk < 2 then SuperBlock else if blk < Start(l, BlockMap) then InodeMap
               else if blk < Start(l, InodeTable) then BlockMap else if blk < l.firstData then InodeTable else Data;
      assert Within(l, r, blk);
    }
  }

  /** The kernel finds the map bits, inodes and data blocks in the regions made for them
      (get_free_inode, find_free_data_block, read_disk_inode). */
  lemma AddressesLand(size: nat, files: nat, perBlock: nat, ino: nat, blk: nat)
    requires perBlock > 0 && Remains(size / 512, files, perBlock) >= 1
    ensures var l := InitSuperBlock(size, files, perBlock);
            && (ino < l.ninodes ==>
              Within(l, InodeMap, 2 + ino / 4096) && Within(l, InodeTable, Start(l, InodeTable) + ino / perBlock))
            && (blk < l.nblocks ==>
              Within(l, BlockMap, 2 + l.inodeMapBlocks + blk / 4096) && Within(l, Data, l.firstData + blk))
  {
    hide Quotient, Remains, BlocksFor;
    AtMostOneUnused(size, files, perBlock);
    if ino < files {
      CoveredBy(ino, files, 4096);
      CoveredBy(ino, files, perBlock);
    }
  }

  lemma CoveredBy(i: nat, n: nat, perBlock: nat)
    requires perBlock > 0 && i < n
    ensures i / perBlock < BlocksFor(n, perBlock)
  {
    var q, b := i / perBlock, BlocksFor(n, perBlock);
    assert q * perBlock <= i && (b + 1) * perBlock > n + (perBlock - 1);
    assert q >= b ==> q * perBlock >= b * perBlock;
  }
}
