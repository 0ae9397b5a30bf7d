/** Kernel page tables (map_kernel_page in hal/aarch64/kmap.c and hal/x64/kmap.c, with the entry
    formats of include/hal-aarch64/pgtbl.h and include/hal-x64/pgtbl.h).  Both have three levels of
    512 entries over 2 MiB pages; tables come from kheap_sbrk (common/heap.c). */
module KernPages {
  import opened DlBits
  import opened KernReady
  import opened Options

  datatype Arch = Aarch64 | X64

  // ---- addresses ----------------------------------------------------------------------------

  /** The number of the 2 MiB page of an address, among the 2^27 that three indices can tell apart. */
  function PageOf(v: nat): (p: nat)
    ensures p < 0x800_0000
  {
    v / 0x20_0000 % 0x800_0000
  }

  function Index0(v: nat): (i: nat)
    ensures i < 512
  {
    v / 0x80_0000_0000 % 512
  }

  function Index1(v: nat): (i: nat)
    ensures i < 512
  {
    v / 0x4000_0000 % 512
  }

  function Index2(v: nat): (i: nat)
    ensures i < 512
  {
    v / 0x20_0000 % 512
  }

  /** The three indices partition the bits of the page number. */
  lemma IndicesOfPage(v: nat)
    ensures PageOf(v) == 512 * (512 * Index0(v) + Index1(v)) + Index2(v)
  {
    var p := v / 0x20_0000;
    assert v / 0x4000_0000 == p / 512 && v / 0x80_0000_0000 == p / 0x4_0000;
    PageDigits(p);
  }

  lemma PageDigits(p: nat)
    ensures p % 0x800_0000 == 512 * (512 * (p / 0x4_0000 % 512) + p / 512 % 512) + p % 512
  {
    var q := p / 512;
    var r := q / 512;
    DivideTwice(p);
    Remainder(r / 512, 512 * (512 * (r % 512) + q % 512) + p % 512);
    assert p == 512 * q + p % 512 && q == 512 * r + q % 512 && r == 512 * (r / 512) + r % 512;
  }

  lemma DivideTwice(p: nat)
    ensures p / 512 / 512 == p / 0x4_0000
  {
  }

  lemma Remainder(s: nat, x: nat)
    requires x < 0x800_0000
    ensures (0x800_0000 * s + x) % 0x800_0000 == x
  {
  }

  /** Two addresses are on the same page just when all three indices agree. */
  lemma SamePage(v: nat, w: nat)
    ensures PageOf(v) == PageOf(w) <==> Index0(v) == Index0(w) && Index1(v) == Index1(w) && Index2(v) == Index2(w)
  {
    IndicesOfPage(v);
    IndicesOfPage(w);
  }

  // ---- entries ------------------------------------------------------------------------------

  /** AARCH64_PGTBL_BLK_ATTR_MASK: bits 2 to 11 and 51 to 62. */
  function Masked(attr: nat): nat {
    4 * (attr / 4 % 1024) + 0x8_0000_0000_0000 * (attr / 0x8_0000_0000_0000 % 4096)
  }

  /** `page_attr & (PAGE_SIZE - 1) | PAGE_PRESENT | PAGE_2MB` */
  function LowBits(attr: nat): nat {
    Mark(Mark(attr % 4096, 0), 7)
  }

  /** An entry for the table at `addr`, whose low bits are free: or-ing is adding. */
  function TableEntry(arch: Arch, addr: nat): nat {
    if arch.Aarch64? then addr + 0x43 else addr + 1
  }

  function BlockEntry(arch: Arch, paddr: nat, attr: nat): nat {
    if arch.Aarch64? then paddr + Masked(attr) + 1 else paddr + LowBits(attr)
  }

  /** AARCH64_PGTBL_PRESENT, pdp_present and the like */
  predicate Present(arch: Arch, e: nat) {
    if arch.Aarch64? then e % 4 != 0 else e % 2 != 0
  }

  /** get_level0_ent_addr, get_level1_ent_addr, get_ent_addr */
  function EntAddr(arch: Arch, e: nat): int {
    if arch.Aarch64? then e / 0x8000_0000_0000_0000 * 0x8000_0000_0000_0000 + (e % 0x8_0000_0000_0000 - e % 4096)
    else e - e % 4096
  }

  /** The 2 MiB frame and the attributes the hardware finds in a block entry. */
  function Frame(arch: Arch, e: nat): int {
    if arch.Aarch64? then e % 0x8_0000_0000_0000 - e % 0x20_0000 else e - e % 0x20_0000
  }

  function Attributes(arch: Arch, e: nat): nat {
    if arch.Aarch64? then Masked(e) else e % 4096
  }

  function AttributesOf(arch: Arch, attr: nat): nat {
    if arch.Aarch64? then Masked(attr) else LowBits(attr)
  }

  lemma TableRoundTrip(arch: Arch, addr: nat)
    requires addr % 4096 == 0 && addr < 0x8_0000_0000_0000
    ensures Present(arch, TableEntry(arch, addr)) && EntAddr(arch, TableEntry(arch, addr)) == addr
  {
    var k := addr / 4096;
    assert addr == 4096 * k;
  }

  lemma BlockRoundTrip(arch: Arch, paddr: nat, attr: nat)
    requires paddr % 0x20_0000 == 0 && paddr < 0x8_0000_0000_0000
    ensures var e := BlockEntry(arch, paddr, attr);
            Present(arch, e) && Frame(arch, e) == paddr && Attributes(arch, e) == AttributesOf(arch, attr)
  {
    var k := paddr / 0x20_0000;
    assert paddr == 0x20_0000 * k;
    if arch.Aarch64? {
      ArmBlock(k, attr / 4 % 1024, attr / 0x8_0000_0000_0000 % 4096);
    } else {
      LowBitsFit(attr);
      X64Block(k, LowBits(attr));
    }
  }

  lemma ArmBlock(k: nat, lo: nat, hi: nat)
    requires k < 0x4000_0000 && lo < 1024 && hi < 4096
    ensures var e := 0x20_0000 * k + (4 * lo + 0x8_0000_0000_0000 * hi) + 1;
            && e % 4 == 1 && e % 0x8_0000_0000_0000 == 0x20_0000 * k + 4 * lo + 1 && e % 0x20_0000 == 4 * lo + 1
            && e / 4 % 1024 == lo && e / 0x8_0000_0000_0000 % 4096 == hi
  {
    HighPart(0x20_0000 * k + 4 * lo + 1, hi);
    LowPart(k + 0x4000_0000 * hi, lo);
  }

  lemma HighPart(low: nat, hi: nat)
    requires low < 0x8_0000_0000_0000 && hi < 4096
    ensures (low + 0x8_0000_0000_0000 * hi) % 0x8_0000_0000_0000 == low
    ensures (low + 0x8_0000_0000_0000 * hi) / 0x8_0000_0000_0000 % 4096 == hi
  {
  }

  lemma LowPart(k: nat, lo: nat)
    requires lo < 1024
    ensures var e := 0x20_0000 * k + 4 * lo + 1; e % 4 == 1 && e % 0x20_0000 == 4 * lo + 1 && e / 4 % 1024 == lo
  {
    Quarter(0x8_0000 * k + lo);
    KeepsLow(512 * k, lo);
    assert 0x20_0000 * k + 4 * lo + 1 == 4 * (0x8_0000 * k + lo) + 1;
  }

  lemma Quarter(q: nat)
    ensures (4 * q + 1) / 4 == q && (4 * q + 1) % 4 == 1
  {
  }

  lemma KeepsLow(m: nat, lo: nat)
    requires lo < 1024
    ensures (1024 * m + lo) % 1024 == lo
  {
  }

  lemma X64Block(k: nat, low: nat)
    requires low < 4096 && low % 2 == 1
    ensures var e := 0x20_0000 * k + low; e % 2 == 1 && e % 0x20_0000 == low && e % 4096 == low
  {
    PageRemainder(512 * k, low);
    assert 0x20_0000 * k == 2 * (0x10_0000 * k);
  }

  lemma PageRemainder(m: nat, low: nat)
    requires low < 4096
    ensures (4096 * m + low) % 4096 == low
  {
  }

  lemma LowBitsFit(attr: nat)
    ensures LowBits(attr) < 4096 && LowBits(attr) % 2 == 1
  {
    var x := attr % 4096;
    MarkFits(x, 0, 12);
    MarkFits(Mark(x, 0), 7, 12);
    MarkOne(Mark(x, 0), 7, 0);
    MarkOne(x, 0, 0);
    assert Set(LowBits(attr), 0);
  }

  lemma {:induction false} MarkFits(x: nat, i: nat, n: nat)
    requires i < n && x < Pow2(n)
    ensures Mark(x, i) < Pow2(n)
    decreases n
  {
    if i > 0 {
      MarkFits(x / 2, i - 1, n - 1);
    }
  }

  // ---- tables and walks ---------------------------------------------------------------------

  type Tables = map<int, seq<nat>>

  /** The table that entry `i` of table `a` leads to. */
  function Below(arch: Arch, ts: Tables, a: int, i: nat): Option<int> {
    if a in ts && i < |ts[a]| && Present(arch, ts[a][i]) then Some(EntAddr(arch, ts[a][i])) else None
  }

  /** The table of the last level for address `v`. */
  function Leaf(arch: Arch, ts: Tables, root: int, v: nat): Option<int> {
    var t1 := Below(arch, ts, root, Index0(v));
    if t1.None? then None else Below(arch, ts, t1.value, Index1(v))
  }

  /** What the hardware finds for address `v`: a block entry, or nothing. */
  function Walk(arch: Arch, ts: Tables, root: int, v: nat): Option<nat> {
    var t2 := Leaf(arch, ts, root, v);
    if t2.Some? && t2.value in ts && Index2(v) < |ts[t2.value]| && Present(arch, ts[t2.value][Index2(v)])
    then Some(ts[t2.value][Index2(v)])
    else None
  }

  /** Table `a` has a level, and its entries lead to tables of the next level, each reached from here
      only. */
  ghost predicate TableOk(arch: Arch, ts: Tables, level: map<int, nat>, parent: map<int, (int, nat)>, a: int) {
    a in ts ==>
      && |ts[a]| == 512 && a in level && level[a] <= 2
      && (level[a] < 2 ==> forall i: nat | i < 512 :: LinkOk(arch, ts, level, parent, a, i))
  }

  ghost predicate LinkOk(arch: Arch, ts: Tables, level: map<int, nat>, parent: map<int, (int, nat)>, a: int, i: nat) {
    var b := Below(arch, ts, a, i);
    b.Some? ==> b.value in ts && a in level && b.value in level && level[b.value] == level[a] + 1
                && b.value in parent && parent[b.value] == (a, i)
  }

  ghost predicate Tree(arch: Arch, ts: Tables, root: int, level: map<int, nat>, parent: map<int, (int, nat)>) {
    && root in ts && root in level && level[root] == 0
    && (forall a {:trigger TableOk(arch, ts, level, parent, a)} :: TableOk(arch, ts, level, parent, a))
  }

  /** Addresses that reach the same leaf table agree in their first two indices. */
  lemma LeafTells(arch: Arch, ts: Tables, root: int, level: map<int, nat>, parent: map<int, (int, nat)>, v: nat, w: nat)
    requires Tree(arch, ts, root, level, parent)
    ensures var t := Leaf(arch, ts, root, v);
            t.Some? ==>
              && t.value in ts && t.value in level && level[t.value] == 2
              && (Leaf(arch, ts, root, w) == t <==> Index0(v) == Index0(w) && Index1(v) == Index1(w))
  {
    assert TableOk(arch, ts, level, parent, root);
    assert LinkOk(arch, ts, level, parent, root, Index0(v)) && LinkOk(arch, ts, level, parent, root, Index0(w));
    var t1, u1 := Below(arch, ts, root, Index0(v)), Below(arch, ts, root, Index0(w));
    if t1.Some? {
      assert TableOk(arch, ts, level, parent, t1.value);
      assert LinkOk(arch, ts, level, parent, t1.value, Index1(v));
    }
    if u1.Some? {
      assert TableOk(arch, ts, level, parent, u1.value);
      assert LinkOk(arch, ts, level, parent, u1.value, Index1(w));
    }
  }

  // ---- the two kinds of store ---------------------------------------------------------------

  function ZeroTable(): seq<nat> {
    seq(512, _ => 0)
  }

  function WithTable(arch: Arch, ts: Tables, a: int, i: nat, child: nat): Tables
    requires a in ts && i < |ts[a]|
  {
    ts[child := ZeroTable()][a := ts[a][i := TableEntry(arch, child)]]
  }

  /** A cleared table is linked where nothing was. */
  lemma TableLinked(arch: Arch, ts: Tables, root: int, level: map<int, nat>, parent: map<int, (int, nat)>,
    a: int, i: nat, child: nat)
    requires Tree(arch, ts, root, level, parent) && a in ts && a in level && level[a] < 2 && i < 512
    requires |ts[a]| == 512 && Below(arch, ts, a, i) == None && child !in ts && child % 4096 == 0
    requires child < 0x8_0000_0000_0000
    ensures var ts' := WithTable(arch, ts, a, i, child);
            && Tree(arch, ts', root, level[child := level[a] + 1], parent[child := (a, i)])
            && Below(arch, ts', a, i) == Some(child)
  {
    hide Present, EntAddr, TableEntry;
    TableRoundTrip(arch, child);
    ZeroIsAbsent(arch);
    var ts', level', parent' := WithTable(arch, ts, a, i, child), level[child := level[a] + 1], parent[child := (a, i)];
    forall b ensures TableOk(arch, ts', level', parent', b) {
      assert TableOk(arch, ts, level, parent, b);
      if b in ts' && b in level' && level'[b] < 2 {
        forall j: nat | j < 512 ensures LinkOk(arch, ts', level', parent', b, j) {
          if b in ts {
            assert LinkOk(arch, ts, level, parent, b, j);
          }
        }
      }
    }
  }

  lemma ZeroIsAbsent(arch: Arch)
    ensures !Present(arch, 0)
  {
  }

  /** No walk changes by that. */
  lemma WalksKept(arch: Arch, ts: Tables, root: int, level: map<int, nat>, parent: map<int, (int, nat)>, a: int,
    i: nat, child: nat, v: nat)
    requires Tree(arch, ts, root, level, parent) && a in ts && a in level && level[a] < 2 && i < 512
    requires |ts[a]| == 512 && Below(arch, ts, a, i) == None && child !in ts && child % 4096 == 0
    requires child < 0x8_0000_0000_0000
    ensures Walk(arch, WithTable(arch, ts, a, i, child), root, v) == Walk(arch, ts, root, v)
  {
    hide Present, EntAddr, TableEntry, Index0, Index1, Index2;
    TableRoundTrip(arch, child);
    ZeroIsAbsent(arch);
    assert TableOk(arch, ts, level, parent, root);
    assert LinkOk(arch, ts, level, parent, root, Index0(v));
    var t1 := Below(arch, ts, root, Index0(v));
    if t1.Some? {
      assert TableOk(arch, ts, level, parent, t1.value);
      assert LinkOk(arch, ts, level, parent, t1.value, Index1(v));
      var t2 := Below(arch, ts, t1.value, Index1(v));
      if t2.Some? {
        assert TableOk(arch, ts, level, parent, t2.value);
      }
    }
  }

  function WithBlock(ts: Tables, a: int, i: nat, e: nat): Tables
    requires a in ts && i < |ts[a]|
  {
    var t: seq<nat> := ts[a][i := e];
    ts[a := t]
  }

  /** A block entry is stored in a table of the last level: only walks that end there change. */
  lemma BlockStored(arch: Arch, ts: Tables, root: int, level: map<int, nat>, parent: map<int, (int, nat)>,
    a: int, i: nat, e: nat, v: nat)
    requires Tree(arch, ts, root, level, parent) && a in ts && a in level && level[a] == 2 && i < 512 && |ts[a]| == 512
    requires Present(arch, e)
    ensures Tree(arch, WithBlock(ts, a, i, e), root, level, parent)
    ensures Walk(arch, WithBlock(ts, a, i, e), root, v) ==
            if Leaf(arch, ts, root, v) == Some(a) && Index2(v) == i then Some(e) else Walk(arch, ts, root, v)
  {
    hide Present, EntAddr, TableEntry, Index0, Index1, Index2;
    var ts' := WithBlock(ts, a, i, e);
    forall b ensures TableOk(arch, ts', level, parent, b) {
      assert TableOk(arch, ts, level, parent, b);
      if b in ts' && b in level && level[b] < 2 {
        forall j: nat | j < 512 ensures LinkOk(arch, ts', level, parent, b, j) {
          assert LinkOk(arch, ts, level, parent, b, j);
        }
      }
    }
    assert TableOk(arch, ts, level, parent, root);
    assert LinkOk(arch, ts, level, parent, root, Index0(v));
    var t1 := Below(arch, ts, root, Index0(v));
    if t1.Some? {
      assert TableOk(arch, ts, level, parent, t1.value);
      assert LinkOk(arch, ts, level, parent, t1.value, Index1(v));
    }
  }

  // ---- map_kernel_page ----------------------------------------------------------------------

  datatype Mapping = Mapping(frame: int, attributes: nat)

  class PageTables {
    const arch: Arch
    const root: int
    const base: nat
    const end: int

    /** The break of the kernel heap, a virtual address: physical addresses are `base` lower. */
    var cur: int
    var tables: Tables
    ghost var level: map<int, nat>
    ghost var parent: map<int, (int, nat)>

    /** The tables form a tree, and none lies in the memory the heap has not handed out yet. */
    ghost predicate Valid()
      reads this
    {
      && Tree(arch, tables, root, level, parent)
      && cur % 4096 == 0 && base % 4096 == 0 && base <= cur && end - base <= 0x8_0000_0000_0000
      && (forall a | a in tables :: a < cur - base || end - base <= a)
    }

    /** A cleared root table outside the heap. */
    constructor (arch: Arch, root: int, base: nat, cur: int, end: int)
      requires cur % 4096 == 0 && base % 4096 == 0 && base <= cur && end - base <= 0x8_0000_0000_0000
      requires root < cur - base || end - base <= root
      ensures Valid() && forall v :: Translate(v) == None
    {
      this.arch, this.root, this.base, this.cur, this.end := arch, root, base, cur, end;
      tables, level, parent := map[root := ZeroTable()], map[root := 0], map[];
      new;
      ZeroIsAbsent(arch);
      hide Present;
      assert TableOk(arch, tables, level, parent, root);
    }

    /** What an access to address `v` gets. */
    ghost function Translate(v: nat): Option<Mapping>
      reads this
    {
      var e := Walk(arch, tables, root, v);
      if e.None? then None else Some(Mapping(Frame(arch, e.value), Attributes(arch, e.value)))
    }

    /** The table below entry `i` of table `a`, made if there is none; nothing when memory runs out. */
    method TableBelow(a: int, i: nat) returns (r: Option<int>)
      requires Valid() && a in tables && a in level && level[a] < 2 && i < 512
      modifies this
      ensures Valid() && a in tables && a in level && level[a] == old(level)[a]
      ensures r.Some? ==> Below(arch, tables, a, i) == r && r.value in tables && r.value in level
      ensures r.Some? ==> level[r.value] == level[a] + 1
      ensures r.None? ==> cur == old(cur) && end <= cur + 4096
      ensures forall v :: Walk(arch, tables, root, v) == old(Walk(arch, tables, root, v))
      ensures forall b, j: nat | old(Below(arch, tables, b, j)).Some? ::
                Below(arch, tables, b, j) == old(Below(arch, tables, b, j))
    {
      hide Present, EntAddr, TableEntry, Index0, Index1, Index2, Walk;
      assert TableOk(arch, tables, level, parent, a);
      assert LinkOk(arch, tables, level, parent, a, i);
      if !Present(arch, tables[a][i]) {
        if cur + 4096 >= end {
          return None;
        }
        var child := cur - base;
        cur := cur + 4096;
        TableLinked(arch, tables, root, level, parent, a, i, child);
        forall v ensures Walk(arch, WithTable(arch, tables, a, i, child), root, v) == Walk(arch, tables, root, v) {
          WalksKept(arch, tables, root, level, parent, a, i, child, v);
        }
        tables := WithTable(arch, tables, a, i, child);
        level, parent := level[child := level[a] + 1], parent[child := (a, i)];
        r := Some(child);
      } else {
        r := Some(EntAddr(arch, tables[a][i]));
      }
    }

    /** The leaf table of address `v`, with the tables on the way made as needed. */
    method LeafTable(v: nat) returns (r: Option<int>)
      requires Valid()
      modifies this
      ensures Valid()
      ensures r.Some? ==> Leaf(arch, tables, root, v) == r && r.value in tables && r.value in level
      ensures r.Some? ==> level[r.value] == 2
      ensures r.None? ==> end <= cur + 4096
      ensures forall w :: Walk(arch, tables, root, w) == old(Walk(arch, tables, root, w))
    {
      hide Present, EntAddr, Index0, Index1, Index2, Walk, Tree;
      assert root in tables && root in level && level[root] == 0 by { RootFacts(); }
      r := TableBelow(root, Index0(v));
      if r.Some? {
        var t1 := r.value;
        r := TableBelow(t1, Index1(v));
      }
    }

    lemma RootFacts()
      requires Valid()
      ensures root in tables && root in level && level[root] == 0
    {
    }

    /** map_kernel_page on an address that is not mapped: afterwards exactly the addresses of its page
        lead to the frame of `paddr`, and all others where they led before. */
    method MapKernelPage(paddr: nat, v: nat, attr: nat) returns (ok: bool)
      requires Valid() && paddr < 0x8_0000_0000_0000 && Translate(v) == None
      modifies this
      ensures Valid() && (!ok ==> end <= cur + 4096)
      ensures !ok ==> forall w :: Translate(w) == old(Translate(w))
      ensures ok ==> forall w | PageOf(w) == PageOf(v) ::
                Translate(w) == Some(Mapping(paddr - paddr % 0x20_0000, AttributesOf(arch, attr)))
      ensures ok ==> forall w | PageOf(w) != PageOf(v) :: Translate(w) == old(Translate(w))
    {
      hide Present, EntAddr, Index0, Index1, Index2, Walk, Leaf, PageOf, Frame, Attributes, AttributesOf, BlockEntry;
      var t2 := LeafTable(v);
      ok := t2.Some?;
      if ok {
        var e := BlockEntry(arch, paddr - paddr % 0x20_0000, attr);
        Aligned(paddr);
        BlockRoundTrip(arch, paddr - paddr % 0x20_0000, attr);
        assert TableOk(arch, tables, level, parent, t2.value);
        var ts := WithBlock(tables, t2.value, Index2(v), e);
        forall w: nat
          ensures Tree(arch, ts, root, level, parent)
          ensures Walk(arch, ts, root, w) ==
                  if PageOf(w) == PageOf(v) then Some(e) else old(Walk(arch, tables, root, w))
        {
          BlockStored(arch, tables, root, level, parent, t2.value, Index2(v), e, w);
          LeafTells(arch, tables, root, level, parent, v, w);
          SamePage(v, w);
        }
        tables := ts;
      }
    }

    lemma Aligned(paddr: nat)
      ensures (paddr - paddr % 0x20_0000) % 0x20_0000 == 0
    {
    }
  }
}
