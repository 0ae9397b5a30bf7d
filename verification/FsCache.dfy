/** The buffer cache (dev/blkio.c) over the memory disk (dev/memide.c), with buffers taken by one thread
    at a time.  No buffer is ever marked valid, so a read goes to the driver each time: the driver
    writes a dirty buffer to the disk and reads any other from it. */
module FsCache {
  import opened Lists
  import opened Options

  type Block = seq<nat>

  datatype Buf = Buf(blk: Option<nat>, busy: bool, dirty: bool, data: Block)

  // ---- the disk -----------------------------------------------------------------------------

  predicate OnDisk(image: seq<nat>, b: nat) {
    512 * b + 512 <= |image|
  }

  function BlockAt(image: seq<nat>, b: nat): Block
    requires OnDisk(image, b)
  {
    image[512 * b..512 * b + 512]
  }

  function WithBlock(image: seq<nat>, b: nat, d: Block): seq<nat>
    requires OnDisk(image, b) && |d| == 512
  {
    image[..512 * b] + d + image[512 * b + 512..]
  }

  lemma BlockAfter(image: seq<nat>, b: nat, d: Block, c: nat)
    requires OnDisk(image, b) && |d| == 512
    ensures |WithBlock(image, b, d)| == |image|
    ensures OnDisk(image, c) ==> BlockAt(WithBlock(image, b, d), c) == if c == b then d else BlockAt(image, c)
  {
    var r := WithBlock(image, b, d);
    if OnDisk(image, c) {
      forall i | 0 <= i < 512 ensures BlockAt(r, c)[i] == if c == b then d[i] else image[512 * c + i] {
        assert BlockAt(r, c)[i] == r[512 * c + i];
      }
    }
  }

  /** memide_read_sector: in pieces of at most 512 bytes */
  method ReadSector(image: seq<nat>, offset: nat, size: nat) returns (dest: seq<nat>)
    requires offset + size <= |image|
    ensures dest == image[offset..offset + size]
  {
    dest := [];
    var remains, addr := size, offset;
    while remains > 0
      invariant addr + remains == offset + size && offset <= addr
      invariant dest == image[offset..addr]
    {
      var n := if 512 < remains then 512 else remains;
      dest := dest + image[addr..addr + n];
      addr, remains := addr + n, remains - n;
    }
  }

  /** memide_write_sector */
  method WriteSector(image: seq<nat>, offset: nat, src: seq<nat>) returns (r: seq<nat>)
    requires offset + |src| <= |image|
    ensures r == image[..offset] + src + image[offset + |src|..]
  {
    r := image;
    var remains, addr, done := |src|, offset, 0;
    while remains > 0
      invariant 0 <= done && 0 <= remains && done + remains == |src| && addr == offset + done && |r| == |image|
      invariant r == image[..offset] + src[..done] + image[addr..]
    {
      var n := if 512 < remains then 512 else remains;
      r := r[..addr] + src[done..done + n] + r[addr + n..];
      assert src[..done + n] == src[..done] + src[done..done + n];
      addr, done, remains := addr + n, done + n, remains - n;
    }
    assert src[..done] == src;
  }

  // ---- the buffers --------------------------------------------------------------------------

  /** At most one buffer per block. */
  ghost predicate Unique(buf: seq<Buf>) {
    forall i, j | 0 <= i < |buf| && 0 <= j < |buf| && buf[i].blk.Some? && buf[i].blk == buf[j].blk :: i == j
  }

  /** A dirty buffer stays dirty, and with its block. */
  ghost predicate DirtyKept(buf: seq<Buf>, buf': seq<Buf>) {
    |buf'| == |buf| && forall i | 0 <= i < |buf| && buf[i].dirty :: buf'[i].dirty && buf'[i].blk == buf[i].blk
  }

  /** Nothing happens to a buffer that is taken. */
  ghost predicate HeldKept(buf: seq<Buf>, buf': seq<Buf>) {
    |buf'| == |buf| && forall i | 0 <= i < |buf| && buf[i].busy :: buf'[i] == buf[i]
  }

  /** Exactly the buffer of block `h` is busy. */
  ghost predicate BusyOnly(buf: seq<Buf>, h: Option<nat>) {
    && (h.Some? ==> HasBuffer(buf, h.value))
    && forall i | 0 <= i < |buf| :: buf[i].busy <==> h.Some? && buf[i].blk == h
  }

  lemma HeldTwice(buf: seq<Buf>, buf': seq<Buf>, buf'': seq<Buf>)
    requires HeldKept(buf, buf') && (buf'' == buf' || HeldKept(buf', buf''))
    ensures HeldKept(buf, buf'') && |buf''| == |buf|
  {
  }

  ghost predicate HasBuffer(buf: seq<Buf>, b: nat) {
    exists i :: 0 <= i < |buf| && buf[i].blk == Some(b)
  }

  ghost predicate AllTaken(buf: seq<Buf>) {
    forall i | 0 <= i < |buf| :: buf[i].busy || buf[i].dirty
  }

  /** The blocks that have a dirty buffer. */
  ghost function DirtyBlocks(buf: seq<Buf>): set<nat> {
    set i | 0 <= i < |buf| && buf[i].dirty && buf[i].blk.Some? :: buf[i].blk.value
  }

  /** Only buffers of blocks are dirty. */
  ghost predicate DirtyOwned(buf: seq<Buf>) {
    forall i | 0 <= i < |buf| && buf[i].dirty :: buf[i].blk.Some?
  }

  /** Block `b` can be had with `n` buffers of which those of the blocks in `dirty` are dirty. */
  predicate Room(dirty: set<nat>, n: nat, b: nat) {
    b in dirty || |dirty| < n
  }

  /** There are no more such blocks than buffers, and as many only if every buffer is dirty. */
  lemma {:induction false} DirtyCount(buf: seq<Buf>)
    ensures |DirtyBlocks(buf)| <= |buf|
    ensures |DirtyBlocks(buf)| == |buf| ==> forall i | 0 <= i < |buf| :: buf[i].dirty && buf[i].blk.Some?
    ensures Unique(buf) && DirtyOwned(buf) && (forall i | 0 <= i < |buf| :: buf[i].dirty) ==>
              |DirtyBlocks(buf)| == |buf|
  {
    if buf != [] {
      var n := |buf| - 1;
      var rest, x := buf[..n], buf[n];
      DirtyCount(rest);
      if x.dirty && x.blk.Some? {
        assert Unique(buf) ==> x.blk.value !in DirtyBlocks(rest);
        assert DirtyBlocks(buf) == DirtyBlocks(rest) + {x.blk.value};
      } else {
        assert DirtyBlocks(buf) == DirtyBlocks(rest);
      }
    }
  }

  /** Buffers that are as dirty as before. */
  lemma SameDirty(buf: seq<Buf>, k: nat, x: Buf)
    requires k < |buf| && x.dirty == buf[k].dirty && (x.dirty ==> x.blk == buf[k].blk)
    ensures DirtyBlocks(buf[k := x]) == DirtyBlocks(buf) && (DirtyOwned(buf) ==> DirtyOwned(buf[k := x]))
  {
    var buf' := buf[k := x];
    forall b ensures b in DirtyBlocks(buf') <==> b in DirtyBlocks(buf) {
      if b in DirtyBlocks(buf) {
        var i :| 0 <= i < |buf| && buf[i].dirty && buf[i].blk == Some(b);
        assert buf'[i].dirty && buf'[i].blk == Some(b);
      }
      if b in DirtyBlocks(buf') {
        var i :| 0 <= i < |buf| && buf'[i].dirty && buf'[i].blk == Some(b);
        assert buf[i].dirty && buf[i].blk == Some(b);
      }
    }
  }

  /** Buffer `k` of block `b` becomes dirty. */
  lemma MoreDirty(buf: seq<Buf>, k: nat, b: nat)
    requires k < |buf| && buf[k].blk == Some(b)
    ensures var buf' := buf[k := buf[k].(dirty := true)];
            DirtyBlocks(buf') == DirtyBlocks(buf) + {b} && (DirtyOwned(buf) ==> DirtyOwned(buf'))
  {
    var buf' := buf[k := buf[k].(dirty := true)];
    forall c ensures c in DirtyBlocks(buf') <==> c in DirtyBlocks(buf) + {b} {
      if c in DirtyBlocks(buf) {
        var i :| 0 <= i < |buf| && buf[i].dirty && buf[i].blk == Some(c);
        assert buf'[i].dirty && buf'[i].blk == Some(c);
      }
      if c == b {
        assert buf'[k].dirty && buf'[k].blk == Some(c);
      }
    }
  }

  /** What buffer_cache_blk_get comes to: a buffer, a wait for a busy one, or the panic. */
  datatype Grant = Granted(k: nat) | Waits(k: nat) | Starved

  /** The data of the dirty buffer of block `b`, or else the block on the disk. */
  ghost function ContentOf(buf: seq<Buf>, image: seq<nat>, b: nat): Block
    requires OnDisk(image, b)
  {
    if exists i :: 0 <= i < |buf| && buf[i].blk == Some(b) && buf[i].dirty then
      var i :| 0 <= i < |buf| && buf[i].blk == Some(b) && buf[i].dirty;
      buf[i].data
    else
      BlockAt(image, b)
  }

  lemma ContentIs(buf: seq<Buf>, image: seq<nat>, b: nat, i: nat)
    requires OnDisk(image, b) && Unique(buf) && i < |buf| && buf[i].blk == Some(b)
    ensures ContentOf(buf, image, b) == if buf[i].dirty then buf[i].data else BlockAt(image, b)
  {
  }

  lemma ContentOnDisk(buf: seq<Buf>, image: seq<nat>, b: nat)
    requires OnDisk(image, b) && forall i | 0 <= i < |buf| :: buf[i].blk != Some(b)
    ensures ContentOf(buf, image, b) == BlockAt(image, b)
  {
  }

  /** A change of buffer `k` and of the disk that touches no block but `b` and a clean one. */
  lemma ContentElsewhere(buf: seq<Buf>, image: seq<nat>, k: nat, x: Buf, image': seq<nat>, b: nat, c: nat)
    requires k < |buf| && Unique(buf) && Unique(buf[k := x]) && OnDisk(image, c) && OnDisk(image', c)
    requires x.blk == Some(b) && c != b && BlockAt(image', c) == BlockAt(image, c)
    requires buf[k].blk == Some(b) || !buf[k].dirty
    ensures ContentOf(buf[k := x], image', c) == ContentOf(buf, image, c)
  {
    var buf' := buf[k := x];
    if i :| 0 <= i < |buf| && buf[i].blk == Some(c) {
      ContentIs(buf, image, c, i);
      if i == k {
        ContentOnDisk(buf', image', c);
      } else {
        assert buf'[i] == buf[i];
        ContentIs(buf', image', c, i);
      }
    } else {
      ContentOnDisk(buf, image, c);
      ContentOnDisk(buf', image', c);
    }
  }

  // ---- the order of release -----------------------------------------------------------------

  function StampOf(stamp: seq<nat>, x: int): int {
    if 0 <= x < |stamp| then stamp[x] else -1
  }

  /** Each buffer in the list was released later than all behind it. */
  ghost predicate Latest(order: seq<int>, stamp: seq<nat>) {
    order == [] ||
    ((forall x | x in order[1..] :: StampOf(stamp, x) < StampOf(stamp, order[0])) && Latest(order[1..], stamp))
  }

  lemma {:induction false} LatestAt(order: seq<int>, stamp: seq<nat>, i: nat, j: nat)
    requires Latest(order, stamp) && i < j < |order|
    ensures StampOf(stamp, order[j]) < StampOf(stamp, order[i])
  {
    if i == 0 {
      assert order[j] == order[1..][j - 1];
    } else {
      LatestAt(order[1..], stamp, i - 1, j - 1);
    }
  }

  /** The order does not depend on the stamps of others. */
  lemma {:induction false} LatestKept(order: seq<int>, stamp: seq<nat>, stamp': seq<nat>)
    requires Latest(order, stamp) && forall x | x in order :: StampOf(stamp', x) == StampOf(stamp, x)
    ensures Latest(order, stamp')
  {
    if order != [] {
      assert order[0] in order && forall x | x in order[1..] :: x in order;
      LatestKept(order[1..], stamp, stamp');
    }
  }

  lemma {:induction false} LatestWithout(order: seq<int>, stamp: seq<nat>, k: int)
    requires Latest(order, stamp) && NoDup(order)
    ensures Latest(Without(order, k), stamp)
  {
    if order != [] && order[0] != k {
      LatestWithout(order[1..], stamp, k);
      WithoutOk(order[1..], k);
      assert ([order[0]] + Without(order[1..], k))[1..] == Without(order[1..], k);
    }
  }

  /** The list holds every buffer once, the last released first. */
  ghost predicate Ordered(order: seq<int>, stamp: seq<nat>, n: nat, clock: nat) {
    && NoDup(order) && (forall x :: x in order <==> 0 <= x < n)
    && |stamp| == n && (forall i | 0 <= i < |stamp| :: stamp[i] < clock) && Latest(order, stamp)
  }

  lemma OrderedAfterRelease(order: seq<int>, stamp: seq<nat>, n: nat, clock: nat, k: int)
    requires Ordered(order, stamp, n, clock) && 0 <= k < n
    ensures |stamp| == n && Ordered([k] + Without(order, k), stamp[k := clock], n, clock + 1)
  {
    var rest := Without(order, k);
    WithoutOk(order, k);
    LatestWithout(order, stamp, k);
    LatestKept(rest, stamp, stamp[k := clock]);
    assert ([k] + rest)[1..] == rest;
  }

  lemma StampsBelow(order: seq<int>, stamp: seq<nat>, n: nat, clock: nat, k: nat)
    requires Ordered(order, stamp, n, clock) && k < n
    ensures |stamp| == n
    ensures var stamp' := stamp[k := clock]; forall i | 0 <= i < n && i != k :: StampOf(stamp', i) < StampOf(stamp', k)
  {
    var stamp' := stamp[k := clock];
    forall i | 0 <= i < n && i != k ensures StampOf(stamp', i) < StampOf(stamp', k) {
      assert stamp'[i] == stamp[i];
    }
  }

  lemma OrderedAfterNew(order: seq<int>, stamp: seq<nat>, n: nat, clock: nat)
    requires Ordered(order, stamp, n, clock)
    ensures Ordered([n] + order, stamp + [clock], n + 1, clock + 1)
  {
    LatestKept(order, stamp, stamp + [clock]);
    assert ([n] + order)[1..] == order;
  }

  class Cache {
    var buf: seq<Buf>

    /** The list of buffers, the last released first. */
    var order: seq<int>
    var image: seq<nat>

    /** When each buffer was last released. */
    ghost var stamp: seq<nat>
    ghost var clock: nat

    ghost predicate BuffersOk()
      reads this
    {
      && Unique(buf) && DirtyOwned(buf)
      && (forall i | 0 <= i < |buf| :: |buf[i].data| == 512 && (buf[i].blk.Some? ==> OnDisk(image, buf[i].blk.value)))
    }

    ghost predicate Valid()
      reads this
    {
      BuffersOk() && Ordered(order, stamp, |buf|, clock)
    }

    /** The current content of block `b`. */
    ghost function Content(b: nat): Block
      requires OnDisk(image, b)
      reads this
    {
      ContentOf(buf, image, b)
    }

    /** buffer_cache_init: each buffer is put in front. */
    constructor (n: nat, image: seq<nat>)
      ensures Valid() && this.image == image && |buf| == n
      ensures forall i | 0 <= i < n :: !buf[i].busy && !buf[i].dirty && buf[i].blk == None
      ensures forall b | OnDisk(image, b) :: Content(b) == BlockAt(image, b)
    {
      this.image := image;
      buf, order, stamp, clock := [], [], [], 0;
      new;
      while |buf| < n
        invariant Valid() && |buf| <= n && this.image == image && clock == |buf|
        invariant forall i | 0 <= i < |buf| :: !buf[i].busy && !buf[i].dirty && buf[i].blk == None
      {
        hide Ordered;
        OrderedAfterNew(order, stamp, |buf|, clock);
        order := [|buf|] + order;
        buf := buf + [Buf(None, false, false, seq(512, _ => 0))];
        stamp, clock := stamp + [clock], clock + 1;
      }
    }

    /** The first loop of buffer_cache_blk_get: the buffer of block `b`. */
    method Search(b: nat) returns (k: Option<nat>)
      requires Valid()
      ensures k.Some? ==> k.value < |buf| && buf[k.value].blk == Some(b)
      ensures k.None? ==> forall i | 0 <= i < |buf| :: buf[i].blk != Some(b)
    {
      var i := 0;
      while i < |order|
        invariant 0 <= i <= |order|
        invariant forall j | 0 <= j < i :: order[j] in order && buf[order[j]].blk != Some(b)
      {
        assert order[i] in order;
        if buf[order[i]].blk == Some(b) {
          return Some(order[i]);
        }
        i := i + 1;
      }
      forall x | 0 <= x < |buf| ensures buf[x].blk != Some(b) {
        assert x in order;
      }
      return None;
    }

    /** The second loop: from the end of the list, the first buffer that is idle and clean: of all such
        buffers the one released longest ago. */
    method Victim() returns (k: Option<nat>)
      requires Valid()
      ensures k.Some? ==> k.value < |buf| && !buf[k.value].busy && !buf[k.value].dirty
      ensures forall i | 0 <= i < |buf| && !buf[i].busy && !buf[i].dirty ::
                k.Some? && StampOf(stamp, k.value) <= StampOf(stamp, i)
    {
      var i := |order|;
      while i > 0
        invariant 0 <= i <= |order|
        invariant forall j | i <= j < |order| :: order[j] in order && (buf[order[j]].busy || buf[order[j]].dirty)
      {
        i := i - 1;
        assert order[i] in order;
        if !buf[order[i]].busy && !buf[order[i]].dirty {
          forall x | 0 <= x < |buf| && !buf[x].busy && !buf[x].dirty
            ensures StampOf(stamp, order[i]) <= StampOf(stamp, x)
          {
            assert x in order;
            var j :| 0 <= j < |order| && order[j] == x;
            if j < i {
              LatestAt(order, stamp, j, i);
            }
          }
          return Some(order[i]);
        }
      }
      forall x | 0 <= x < |buf| ensures buf[x].busy || buf[x].dirty {
        assert x in order;
      }
      return None;
    }

    /** buffer_cache_blk_get up to a wait: the block's buffer, or a clean idle one made its own.  A
        dirty buffer is never given to another block. */
    method Get(b: nat) returns (r: Grant)
      requires Valid() && OnDisk(image, b)
      modifies this`buf
      ensures Valid() && DirtyKept(old(buf), buf) && DirtyBlocks(buf) == DirtyBlocks(old(buf))
      ensures forall c | OnDisk(image, c) :: Content(c) == old(Content(c))
      ensures !r.Granted? ==> buf == old(buf)
      ensures r.Waits? ==> r.k < |buf| && buf[r.k].busy && buf[r.k].blk == Some(b)
      ensures r.Starved? <==> !HasBuffer(old(buf), b) && AllTaken(old(buf))
      ensures r.Granted? ==> r.k < |buf| && buf == old(buf)[r.k := buf[r.k]] && !old(buf)[r.k].busy
      ensures r.Granted? ==> buf[r.k].blk == Some(b) && buf[r.k].busy
      ensures r.Granted? && old(buf)[r.k].blk == Some(b) ==> buf[r.k] == old(buf)[r.k].(busy := true)
      ensures r.Granted? && old(buf)[r.k].blk != Some(b) ==>
                && !HasBuffer(old(buf), b) && !old(buf)[r.k].dirty && !buf[r.k].dirty
                && forall i | 0 <= i < |buf| && !old(buf)[i].busy && !old(buf)[i].dirty ::
                     StampOf(stamp, r.k) <= StampOf(stamp, i)
    {
      hide Ordered, ContentOf, DirtyBlocks;
      var k := Search(b);
      if k.None? {
        k := Victim();
        if k.None? {
          return Starved;
        }
        Reuse(buf, image, k.value, b);
        SameDirty(buf, k.value, Buf(Some(b), true, false, buf[k.value].data));
        buf := buf[k.value := Buf(Some(b), true, false, buf[k.value].data)];
        r := Granted(k.value);
      } else if buf[k.value].busy {
        r := Waits(k.value);
      } else {
        Keep(buf, image, k.value, buf[k.value].(busy := true));
        SameDirty(buf, k.value, buf[k.value].(busy := true));
        buf := buf[k.value := buf[k.value].(busy := true)];
        r := Granted(k.value);
      }
    }

    /** Contents do not depend on which buffers are busy. */
    static lemma Keep(buf: seq<Buf>, image: seq<nat>, k: nat, x: Buf)
      requires k < |buf| && Unique(buf) && x.blk == buf[k].blk && x.dirty == buf[k].dirty && x.data == buf[k].data
      ensures Unique(buf[k := x])
      ensures forall c | OnDisk(image, c) :: ContentOf(buf[k := x], image, c) == ContentOf(buf, image, c)
    {
      var buf' := buf[k := x];
      forall c: nat | OnDisk(image, c) ensures ContentOf(buf', image, c) == ContentOf(buf, image, c) {
        if i :| 0 <= i < |buf| && buf[i].blk == Some(c) {
          ContentIs(buf, image, c, i);
          ContentIs(buf', image, c, i);
        } else {
          ContentOnDisk(buf, image, c);
          ContentOnDisk(buf', image, c);
        }
      }
    }

    /** A clean buffer is given to a block that has none. */
    static lemma Reuse(buf: seq<Buf>, image: seq<nat>, k: nat, b: nat)
      requires k < |buf| && Unique(buf) && !buf[k].dirty && OnDisk(image, b)
      requires forall i | 0 <= i < |buf| :: buf[i].blk != Some(b)
      ensures var buf' := buf[k := Buf(Some(b), true, false, buf[k].data)];
              Unique(buf') && forall c | OnDisk(image, c) :: ContentOf(buf', image, c) == ContentOf(buf, image, c)
    {
      var x := Buf(Some(b), true, false, buf[k].data);
      var buf' := buf[k := x];
      assert Unique(buf');
      forall c | OnDisk(image, c) ensures ContentOf(buf', image, c) == ContentOf(buf, image, c) {
        if c == b {
          ContentOnDisk(buf, image, b);
          ContentIs(buf', image, b, k);
        } else {
          ContentElsewhere(buf, image, k, x, image, b, c);
        }
      }
    }

    /** Buffer `k` of block `b` gets data `d` and is on the disk as well. */
    static lemma Synced(buf: seq<Buf>, image: seq<nat>, k: nat, x: Buf, image': seq<nat>, b: nat)
      requires k < |buf| && Unique(buf) && buf[k].blk == Some(b) && x.blk == Some(b) && OnDisk(image, b)
      requires |image'| == |image|
      requires BlockAt(image', b) == x.data
      requires forall c | OnDisk(image, c) && c != b :: BlockAt(image', c) == BlockAt(image, c)
      ensures Unique(buf[k := x]) && ContentOf(buf[k := x], image', b) == x.data
      ensures forall c | OnDisk(image, c) && c != b :: ContentOf(buf[k := x], image', c) == ContentOf(buf, image, c)
    {
      var buf' := buf[k := x];
      assert Unique(buf');
      ContentIs(buf', image', b, k);
      forall c | OnDisk(image, c) && c != b ensures ContentOf(buf', image', c) == ContentOf(buf, image, c) {
        ContentElsewhere(buf, image, k, x, image', b, c);
      }
    }

    /** memide_rw: a dirty buffer is written, any other is read; then buffer and disk agree. */
    method ReadWrite(k: nat)
      requires Valid() && k < |buf| && buf[k].busy && buf[k].blk.Some?
      modifies this`buf, this`image
      ensures Valid() && |image| == |old(image)| && buf == old(buf)[k := buf[k]]
      ensures buf[k] == old(buf)[k].(data := buf[k].data) && DirtyBlocks(buf) == DirtyBlocks(old(buf))
      ensures forall c | OnDisk(image, c) :: Content(c) == old(Content(c))
      ensures OnDisk(image, buf[k].blk.value) && buf[k].data == Content(buf[k].blk.value)
    {
      hide Ordered, ContentOf, DirtyBlocks;
      var b := buf[k].blk.value;
      ContentIs(buf, image, b, k);
      if buf[k].dirty {
        forall c ensures OnDisk(image, c) ==>
            OnDisk(WithBlock(image, b, buf[k].data), c) &&
            BlockAt(WithBlock(image, b, buf[k].data), c) == if c == b then buf[k].data else BlockAt(image, c)
        {
          BlockAfter(image, b, buf[k].data, c);
        }
        Synced(buf, image, k, buf[k], WithBlock(image, b, buf[k].data), b);
        assert buf == buf[k := buf[k]];
        image := WriteSector(image, 512 * b, buf[k].data);
      } else {
        var d := ReadSector(image, 512 * b, 512);
        Synced(buf, image, k, buf[k].(data := d), image, b);
        SameDirty(buf, k, buf[k].(data := d));
        buf := buf[k := buf[k].(data := d)];
      }
    }

    /** buffer_cache_blk_read: a busy buffer with the current content of the block. */
    method Read(b: nat) returns (r: Grant)
      requires Valid() && OnDisk(image, b)
      modifies this`buf, this`image
      ensures Valid() && |image| == |old(image)| && DirtyKept(old(buf), buf)
      ensures DirtyBlocks(buf) == DirtyBlocks(old(buf))
      ensures forall c | OnDisk(image, c) :: Content(c) == old(Content(c))
      ensures !r.Granted? ==> buf == old(buf)
      ensures r.Waits? ==> r.k < |buf| && buf[r.k].busy && buf[r.k].blk == Some(b)
      ensures r.Starved? <==> !HasBuffer(old(buf), b) && AllTaken(old(buf))
      ensures r.Granted? ==> r.k < |buf| && buf == old(buf)[r.k := buf[r.k]] && !old(buf)[r.k].busy
      ensures r.Granted? ==> buf[r.k].blk == Some(b) && buf[r.k].busy && buf[r.k].data == old(Content(b))
      ensures r.Granted? ==> (buf[r.k].dirty <==> b in DirtyBlocks(buf))
    {
      hide Ordered, ContentOf, Unique, DirtyBlocks;
      r := Get(b);
      if r.Granted? {
        ReadWrite(r.k);
        DirtyHere(r.k, b);
      }
    }

    /** A block is dirty as its buffer is. */
    lemma DirtyHere(k: nat, b: nat)
      requires Valid() && k < |buf| && buf[k].blk == Some(b)
      ensures buf[k].dirty <==> b in DirtyBlocks(buf)
    {
      hide Ordered;
    }

    /** A caller changes the data of a buffer it has. */
    method Change(k: nat, d: Block)
      requires Valid() && k < |buf| && buf[k].busy && buf[k].blk.Some? && |d| == 512
      modifies this`buf
      ensures Valid() && buf == old(buf)[k := old(buf)[k].(data := d)] && OnDisk(image, buf[k].blk.value)
      ensures DirtyBlocks(buf) == DirtyBlocks(old(buf))
      ensures forall c | OnDisk(image, c) && c != buf[k].blk.value :: Content(c) == old(Content(c))
      ensures Content(buf[k].blk.value) == if buf[k].dirty then d else old(Content(buf[k].blk.value))
    {
      hide Ordered, ContentOf, DirtyBlocks;
      var x := buf[k].(data := d);
      assert Unique(buf[k := x]);
      SameDirty(buf, k, x);
      ContentIs(buf, image, x.blk.value, k);
      ContentIs(buf[k := x], image, x.blk.value, k);
      forall c | OnDisk(image, c) && c != x.blk.value
        ensures ContentOf(buf[k := x], image, c) == ContentOf(buf, image, c)
      {
        ContentElsewhere(buf, image, k, x, image, x.blk.value, c);
      }
      buf := buf[k := x];
    }

    /** buffer_cache_blk_write: the data of the buffer is now the content of its block. */
    method Write(k: nat)
      requires Valid() && k < |buf| && buf[k].busy && buf[k].blk.Some?
      modifies this`buf, this`image
      ensures Valid() && |image| == |old(image)| && buf == old(buf)[k := old(buf)[k].(dirty := true)]
      ensures DirtyBlocks(buf) == DirtyBlocks(old(buf)) + {buf[k].blk.value}
      ensures OnDisk(image, buf[k].blk.value) && Content(buf[k].blk.value) == buf[k].data
      ensures forall c | OnDisk(image, c) && c != buf[k].blk.value :: Content(c) == old(Content(c))
    {
      hide Ordered, ContentOf, DirtyBlocks;
      var x := buf[k].(dirty := true);
      MoreDirty(buf, k, x.blk.value);
      assert Unique(buf[k := x]);
      forall c | OnDisk(image, c) && c != x.blk.value
        ensures ContentOf(buf[k := x], image, c) == ContentOf(buf, image, c)
      {
        ContentElsewhere(buf, image, k, x, image, x.blk.value, c);
      }
      ContentIs(buf[k := x], image, x.blk.value, k);
      buf := buf[k := x];
      ReadWrite(k);
    }

    /** A caller changes a buffer it has and writes it. */
    method Rewrite(k: nat, d: Block)
      requires Valid() && k < |buf| && buf[k].busy && buf[k].blk.Some? && |d| == 512
      modifies this`buf, this`image
      ensures Valid() && |image| == |old(image)| && buf == old(buf)[k := old(buf)[k].(data := d, dirty := true)]
      ensures DirtyBlocks(buf) == DirtyBlocks(old(buf)) + {buf[k].blk.value}
      ensures OnDisk(image, buf[k].blk.value) && Content(buf[k].blk.value) == d
      ensures forall c | OnDisk(image, c) && c != buf[k].blk.value :: Content(c) == old(Content(c))
    {
      hide Valid, ContentOf, DirtyBlocks;
      Change(k, d);
      Write(k);
    }

    /** A buffer that was not taken has been used and is given back. */
    method PutBack(k: nat, ghost was: seq<Buf>, ghost h: Option<nat>)
      requires Valid() && k < |was| == |buf| && buf == was[k := buf[k]] && buf[k].busy
      requires !was[k].busy && buf[k].blk != h && BusyOnly(was, h)
      modifies this
      ensures Only(h) && HeldKept(was, buf) && image == old(image) && |buf| == |old(buf)|
      ensures DirtyBlocks(buf) == DirtyBlocks(old(buf))
      ensures forall c | OnDisk(image, c) :: Content(c) == old(Content(c))
    {
      hide Valid, ContentOf, DirtyBlocks;
      Release(k);
      if h.Some? {
        assert HasBuffer(buf, h.value) by {
          var i :| 0 <= i < |was| && was[i].blk == h;
          assert i != k && buf[i] == was[i];
        }
      }
    }

    /** buffer_cache_blk_release: the buffer is idle and comes first in the list. */
    method Release(k: nat)
      requires Valid() && k < |buf| && buf[k].busy
      modifies this
      ensures Valid() && image == old(image) && buf == old(buf)[k := old(buf)[k].(busy := false)]
      ensures order == [k] + Without(old(order), k) && DirtyBlocks(buf) == DirtyBlocks(old(buf))
      ensures forall i | 0 <= i < |buf| && i != k :: StampOf(stamp, i) < StampOf(stamp, k)
      ensures forall c | OnDisk(image, c) :: Content(c) == old(Content(c))
    {
      hide Ordered, ContentOf, DirtyBlocks;
      SameDirty(buf, k, buf[k].(busy := false));
      OrderedAfterRelease(order, stamp, |buf|, clock, k);
      StampsBelow(order, stamp, |buf|, clock, k);
      order := [k] + Without(order, k);
      stamp, clock := stamp[k := clock], clock + 1;
      Keep(buf, image, k, buf[k].(busy := false));
      buf := buf[k := buf[k].(busy := false)];
    }

    // ---- after a wait -----------------------------------------------------------------------

    /** buffer_cache_blk_get after a wait for buffer `k` that a wakeup ended: the first loop goes on behind
        `k` in the list, and if the second finds nothing, all starts over. */
    method Resume(b: nat, k: nat) returns (r: Grant)
      requires Valid() && OnDisk(image, b) && k < |buf|
      modifies this`buf
      ensures |buf| == |old(buf)|
      ensures !r.Granted? ==> buf == old(buf)
      ensures r.Granted? ==> r.k < |buf| && buf == old(buf)[r.k := buf[r.k]] && !old(buf)[r.k].busy
      ensures r.Granted? ==> buf[r.k].blk == Some(b) && buf[r.k].busy
      ensures r.Granted? && old(buf)[r.k].blk != Some(b) ==> !old(buf)[r.k].dirty
      ensures FirstAndOnly(k, b, old(buf)) && !AllTaken(old(buf)) ==>
                r.Granted? && !old(buf)[r.k].dirty && LongestIdle(old(buf), r.k)
      ensures FirstAndOnly(k, b, old(buf)) && AllTaken(old(buf)) && !old(buf)[k].busy ==> r == Granted(k)
    {
      hide Latest, ContentOf, Unique;
      assert k in order;
      var at :| 0 <= at < |order| && order[at] == k;
      var j := at + 1;
      while j < |order|
        invariant at < j <= |order|
        invariant forall i | at < i < j :: order[i] in order && buf[order[i]].blk != Some(b)
        invariant buf == old(buf)
      {
        assert order[j] in order;
        if buf[order[j]].blk == Some(b) {
          NoDupAt(order, at, j);
          if buf[order[j]].busy {
            return Waits(order[j]);
          }
          buf := buf[order[j] := buf[order[j]].(busy := true)];
          return Granted(order[j]);
        }
        j := j + 1;
      }
      var v := Victim();
      if v.None? {
        r := Get(b);
      } else {
        buf := buf[v.value := Buf(Some(b), true, false, buf[v.value].data)];
        r := Granted(v.value);
      }
    }

    /** Buffer `k` is first in the list and the only one of block `b`. */
    ghost predicate FirstAndOnly(k: nat, b: nat, buf: seq<Buf>)
      reads this`order
    {
      && order != [] && order[0] == k && k < |buf| && buf[k].blk == Some(b)
      && forall i | 0 <= i < |buf| && buf[i].blk == Some(b) :: i == k
    }

    /** No idle and clean buffer was released before `k`. */
    ghost predicate LongestIdle(buf: seq<Buf>, k: nat)
      reads this`stamp
    {
      forall i | 0 <= i < |buf| && !buf[i].busy && !buf[i].dirty :: StampOf(stamp, k) <= StampOf(stamp, i)
    }

    /** The holder of block `b` gives its buffer back and a waiter goes on.  The waiter gets the buffer of
        the block, and the block keeps one buffer, exactly when no other buffer is idle and clean;
        otherwise the block has two buffers from then on. */
    method ReleaseThenResume(b: nat, k: nat) returns (r: Grant)
      requires Valid() && OnDisk(image, b) && k < |buf| && buf[k].busy && buf[k].blk == Some(b)
      modifies this
      ensures |buf| == |old(buf)| && r.Granted? && r.k < |buf| && buf[r.k].blk == Some(b)
      ensures Unique(buf) <==> r.k == k
      ensures r.k == k <==> forall i | 0 <= i < |buf| && i != k :: old(buf)[i].busy || old(buf)[i].dirty
    {
      hide Ordered, ContentOf;
      OnlyBuffer(k, b);
      Release(k);
      ghost var idle := buf;
      assert idle[k] == old(buf)[k].(busy := false) && forall i | 0 <= i < |idle| && i != k :: idle[i] == old(buf)[i];
      assert FirstAndOnly(k, b, idle);
      r := Resume(b, k);
      if i :| 0 <= i < |buf| && i != k && !old(buf)[i].busy && !old(buf)[i].dirty {
        assert StampOf(stamp, r.k) <= StampOf(stamp, i) < StampOf(stamp, k);
        assert buf[k].blk == Some(b) == buf[r.k].blk;
      } else {
        assert r.k == k;
        assert forall i | 0 <= i < |buf| :: buf[i].blk == old(buf)[i].blk;
      }
    }

    lemma OnlyBuffer(k: nat, b: nat)
      requires Valid() && k < |buf| && buf[k].blk == Some(b)
      ensures forall i | 0 <= i < |buf| && buf[i].blk == Some(b) :: i == k
    {
    }

    // ---- whole accesses ---------------------------------------------------------------------

    /** The buffer of block `h` is taken, and no other. */
    ghost predicate Only(h: Option<nat>)
      reads this
    {
      Valid() && BusyOnly(buf, h)
    }

    /** No buffer is taken. */
    ghost predicate Quiet()
      reads this
    {
      Only(None)
    }

    /** The blocks whose buffers cannot be given to others while that of `h` is taken. */
    ghost function Taken(h: Option<nat>): set<nat>
      reads this
    {
      DirtyBlocks(buf) + if h.Some? then {h.value} else {}
    }

    /** Every buffer is dirty: none can be given to another block, ever. */
    ghost predicate Exhausted()
      reads this
    {
      forall i | 0 <= i < |buf| :: buf[i].dirty
    }

    /** Whether a block can be had is told by these blocks alone. */
    lemma RoomIs(b: nat, h: Option<nat>)
      requires Only(h) && h != Some(b)
      ensures Room(Taken(h), |buf|, b) <==> HasBuffer(buf, b) || !AllTaken(buf)
      ensures |Taken(h)| <= |buf| && (h.None? ==> (Exhausted() <==> |DirtyBlocks(buf)| == |buf|))
      ensures forall i | 0 <= i < |buf| && buf[i].blk == Some(b) :: !buf[i].busy
    {
      hide Ordered, DirtyBlocks, Room;
      if h.None? {
        RoomOf(buf, b);
        assert Taken(h) == DirtyBlocks(buf);
      } else {
        var k :| 0 <= k < |buf| && buf[k].blk == h;
        var marked := buf[k := buf[k].(dirty := true)];
        MoreDirty(buf, k, h.value);
        RoomOf(marked, b);
        assert buf[k].busy && forall i | 0 <= i < |buf| && i != k :: !buf[i].busy && marked[i] == buf[i];
        assert HasBuffer(marked, b) <==> HasBuffer(buf, b) by {
          assert forall i | 0 <= i < |buf| :: marked[i].blk == buf[i].blk;
        }
      }
    }

    /** The same for buffers none of which is busy. */
    static lemma RoomOf(buf: seq<Buf>, b: nat)
      requires Unique(buf) && DirtyOwned(buf)
      ensures Room(DirtyBlocks(buf), |buf|, b) <==> HasBuffer(buf, b) || exists i :: 0 <= i < |buf| && !buf[i].dirty
      ensures |DirtyBlocks(buf)| <= |buf|
      ensures |DirtyBlocks(buf)| == |buf| <==> forall i | 0 <= i < |buf| :: buf[i].dirty
    {
      DirtyCount(buf);
    }

    /** Reads block `b` and gives the buffer back; nothing only when no buffer can be had. */
    method Fetch(b: nat) returns (d: Option<Block>)
      requires Quiet() && OnDisk(image, b)
      modifies this
      ensures Quiet() && |image| == |old(image)|
      ensures forall c | OnDisk(image, c) :: Content(c) == old(Content(c))
      ensures d.Some? ==> d.value == old(Content(b)) && |d.value| == 512
      ensures d.None? <==> !Room(DirtyBlocks(old(buf)), |buf|, b)
      ensures d.None? <==> old(Exhausted()) && !HasBuffer(old(buf), b)
      ensures DirtyKept(old(buf), buf) && DirtyBlocks(buf) == DirtyBlocks(old(buf)) && (d.None? ==> buf == old(buf))
    {
      hide Ordered, ContentOf, Unique, DirtyBlocks, Room;
      RoomIs(b, None);
      d := None;
      var r := Read(b);
      if r.Granted? {
        d := Some(buf[r.k].data);
        Release(r.k);
      }
    }

    /** Reads block `b`, replaces bytes from `at` on, writes it and gives the buffer back. */
    method Patch(b: nat, at: nat, bytes: seq<nat>) returns (ok: bool)
      requires Quiet() && OnDisk(image, b) && at + |bytes| <= 512
      modifies this
      ensures Quiet() && |image| == |old(image)| && |old(Content(b))| == 512
      ensures !ok ==> forall c | OnDisk(image, c) :: Content(c) == old(Content(c))
      ensures !ok <==> !Room(DirtyBlocks(old(buf)), |buf|, b)
      ensures !ok <==> old(Exhausted()) && !HasBuffer(old(buf), b)
      ensures DirtyKept(old(buf), buf) && (!ok ==> buf == old(buf))
      ensures ok ==> DirtyBlocks(buf) == DirtyBlocks(old(buf)) + {b}
      ensures ok ==> Content(b) == Spliced(old(Content(b)), at, bytes)
      ensures ok ==> forall c | OnDisk(image, c) && c != b :: Content(c) == old(Content(c))
    {
      hide Ordered, ContentOf, Unique, DirtyBlocks, Room;
      ContentSize(b);
      RoomIs(b, None);
      ok := false;
      var r := Read(b);
      if r.Granted? {
        var d := buf[r.k].data;
        Rewrite(r.k, Spliced(d, at, bytes));
        Release(r.k);
        ok := true;
      }
    }

    lemma ContentSize(b: nat)
      requires Valid() && OnDisk(image, b)
      ensures |Content(b)| == 512
    {
    }
  }

  // ---- a block with two buffers -------------------------------------------------------------

  /** In every new cache of two buffers or more: a thread takes a block, a second one waits for it, and
      when the first gives it back the block has two buffers. */
  method TwoBuffers(n: nat, image: seq<nat>, b: nat) returns (c: Cache, w: Grant, r: Grant)
    requires n >= 2 && OnDisk(image, b)
    ensures w.Waits? && |c.buf| == n && !Unique(c.buf) && r.Granted? && r.k < n && c.buf[r.k].blk == Some(b)
  {
    hide Ordered, ContentOf, DirtyBlocks;
    c := new Cache(n, image);
    assert !c.buf[0].busy && !c.buf[0].dirty;
    var g := c.Get(b);
    var other := if g.k == 0 then 1 else 0;
    assert !c.buf[other].busy && !c.buf[other].dirty;
    assert HasBuffer(c.buf, b);
    w := c.Get(b);
    r := c.ReleaseThenResume(b, g.k);
  }

  // ---- whole runs ---------------------------------------------------------------------------

  datatype Access = Reading(b: nat) | Writing(b: nat, at: nat, bytes: seq<nat>)

  predicate AccessOk(image: seq<nat>, x: Access) {
    OnDisk(image, x.b) && (x.Writing? ==> x.at + |x.bytes| <= 512)
  }

  /** As many blocks with dirty buffers as there are buffers take every buffer. */
  lemma WrittenExhaust(buf: seq<Buf>, written: set<nat>)
    requires written <= DirtyBlocks(buf)
    ensures |written| <= |buf|
    ensures |written| == |buf| ==>
              forall i | 0 <= i < |buf| :: buf[i].dirty && buf[i].blk.Some? && buf[i].blk.value in written
  {
    DirtyCount(buf);
    assert DirtyBlocks(buf) == written + (DirtyBlocks(buf) - written);
  }

  /** Over every run of accesses dirty buffers only grow in number, and each keeps its block.  Once as
      many blocks are written as there are buffers, no other block can be had. */
  method Run(cache: Cache, xs: seq<Access>) returns (written: set<nat>)
    requires cache.Quiet() && forall i | 0 <= i < |xs| :: AccessOk(cache.image, xs[i])
    modifies cache
    ensures cache.Quiet() && DirtyKept(old(cache.buf), cache.buf)
    ensures DirtyBlocks(cache.buf) == DirtyBlocks(old(cache.buf)) + written
    ensures |written| <= |cache.buf|
    ensures |written| == |cache.buf| ==> cache.Exhausted() && forall b | b !in written :: !HasBuffer(cache.buf, b)
  {
    hide Ordered, ContentOf, Unique, DirtyBlocks, cache.Valid;
    written := {};
    for i := 0 to |xs|
      invariant cache.Quiet() && |cache.image| == |old(cache.image)| && DirtyKept(old(cache.buf), cache.buf)
      invariant DirtyBlocks(cache.buf) == DirtyBlocks(old(cache.buf)) + written
    {
      assert AccessOk(old(cache.image), xs[i]);
      match xs[i] {
        case Reading(b) =>
          var d := cache.Fetch(b);
        case Writing(b, at, bytes) =>
          var ok := cache.Patch(b, at, bytes);
          if ok {
            written := written + {b};
          }
      }
    }
    WrittenExhaust(cache.buf, written);
  }

  function Spliced(s: seq<nat>, at: nat, bytes: seq<nat>): seq<nat>
    requires at + |bytes| <= |s|
  {
    s[..at] + bytes + s[at + |bytes|..]
  }
}
