/** The links of a small bin: a ring of chunks along `fd` and `bk` through the bin's header, and the
    stores of insert_small_chunk, unlink_small_chunk and unlink_first_small_chunk in
    common/malloc.c.  An unmarked bin is empty whatever its header says. */
module DlSmallLinks {
  import opened DlLinks
  import opened Lists

  datatype Links = Links(fd: int, bk: int)

  type Chunks = map<int, Links>

  predicate LinkOk(mem: Chunks, ring: seq<int>, i: nat)
    requires i < |ring|
  {
    ring[i] in mem && mem[ring[i]] == Links(ring[Next(i, |ring|)], ring[Prev(i, |ring|)])
  }

  /** `ring` is linked in a circle, forwards along `fd` and backwards along `bk`. */
  predicate Circle(mem: Chunks, ring: seq<int>) {
    forall i | 0 <= i < |ring| :: LinkOk(mem, ring, i)
  }

  /** The stores of insert_small_chunk: `p` comes between the header and `f`. */
  function LinkFirst(mem: Chunks, b: int, f: int, p: int): Chunks
    requires b in mem && f in mem
  {
    var mem := mem[b := mem[b].(fd := p)];
    var mem := mem[f := mem[f].(bk := p)];
    mem[p := Links(f, b)]
  }

  /** The stores of unlink_small_chunk. */
  function Bypass(mem: Chunks, p: int): Chunks
    requires p in mem && mem[p].fd in mem && mem[p].bk in mem
  {
    var f, b := mem[p].fd, mem[p].bk;
    var mem := mem[f := mem[f].(bk := b)];
    mem[b := mem[b].(fd := f)]
  }

  lemma DistinctFirst(b: int, s: seq<int>, p: int)
    requires Distinct([b] + s) && p !in [b] + s
    ensures Distinct([b, p] + s)
  {
    var ring, r := [b] + s, [b, p] + s;
    forall i, j | 0 <= i < j < |r| ensures r[i] != r[j] {
      assert i != 1 ==> r[i] == ring[if i == 0 then 0 else i - 1];
      assert j != 1 ==> r[j] == ring[j - 1];
    }
  }

  lemma DistinctTail(b: int, s: seq<int>)
    requires Distinct([b] + s)
    ensures Distinct(s) && b !in s && NoDup(s)
  {
    var r := [b] + s;
    assert forall i | 0 <= i < |s| :: s[i] == r[i + 1] != r[0];
    DistinctNoDup(s);
  }

  lemma LinkFirstOk(mem: Chunks, b: int, s: seq<int>, p: int)
    requires Circle(mem, [b] + s) && Distinct([b] + s) && p !in [b] + s
    ensures b in mem && mem[b].fd in mem
    ensures Circle(LinkFirst(mem, b, mem[b].fd, p), [b, p] + s) && Distinct([b, p] + s)
  {
    var ring, r := [b] + s, [b, p] + s;
    assert LinkOk(mem, ring, 0) && LinkOk(mem, ring, Next(0, |ring|));
    var mem' := LinkFirst(mem, b, mem[b].fd, p);
    forall i | 0 <= i < |r| ensures LinkOk(mem', r, i) {
      if i > 1 {
        assert r[i] == ring[i - 1] && LinkOk(mem, ring, i - 1);
      }
    }
    DistinctFirst(b, s, p);
  }

  lemma BypassAt(mem: Chunks, ring: seq<int>, k: nat, r: seq<int>, i: nat)
    requires Circle(mem, ring) && Distinct(ring) && k < |ring| && |ring| > 1 && r == ring[..k] + ring[k + 1..]
    requires i < |r|
    ensures ring[k] in mem && mem[ring[k]].fd in mem && mem[ring[k]].bk in mem
    ensures LinkOk(Bypass(mem, ring[k]), r, i)
  {
    hide Distinct, Next, Prev;
    var n, j := |ring|, if i < k then i else i + 1;
    var f, b := Next(k, n), Prev(k, n);
    assert LinkOk(mem, ring, k) && LinkOk(mem, ring, f) && LinkOk(mem, ring, b) && LinkOk(mem, ring, j);
    SkipOne(ring, k, r, i);
    SamePlace(ring, j, f);
    SamePlace(ring, j, b);
    SamePlace(ring, f, b);
    Opposite(j, k, n);
  }

  lemma DistinctSkip(ring: seq<int>, k: nat, r: seq<int>)
    requires Distinct(ring) && k < |ring| && r == ring[..k] + ring[k + 1..]
    ensures Distinct(r)
  {
    forall i, j | 0 <= i < j < |r| ensures r[i] != r[j] {
      assert r[i] == ring[if i < k then i else i + 1] && r[j] == ring[if j < k then j else j + 1];
    }
  }

  lemma BypassKeeps(mem: Chunks, ring: seq<int>, k: nat)
    requires Circle(mem, ring) && k < |ring|
    ensures ring[k] in mem && mem[ring[k]].fd in mem && mem[ring[k]].bk in mem
    ensures forall a | a in mem && a !in ring :: a in Bypass(mem, ring[k]) && Bypass(mem, ring[k])[a] == mem[a]
    ensures mem.Keys <= Bypass(mem, ring[k]).Keys
  {
    assert LinkOk(mem, ring, k) && LinkOk(mem, ring, Next(k, |ring|)) && LinkOk(mem, ring, Prev(k, |ring|));
  }

  lemma BypassOk(mem: Chunks, ring: seq<int>, k: nat)
    requires Circle(mem, ring) && Distinct(ring) && k < |ring| && |ring| > 1
    ensures ring[k] in mem && mem[ring[k]].fd in mem && mem[ring[k]].bk in mem
    ensures Circle(Bypass(mem, ring[k]), ring[..k] + ring[k + 1..]) && Distinct(ring[..k] + ring[k + 1..])
    ensures forall a | a in mem && a !in ring :: a in Bypass(mem, ring[k]) && Bypass(mem, ring[k])[a] == mem[a]
    ensures mem.Keys <= Bypass(mem, ring[k]).Keys
  {
    BypassKeeps(mem, ring, k);
    var r := ring[..k] + ring[k + 1..];
    assert LinkOk(mem, ring, k) && LinkOk(mem, ring, Next(k, |ring|)) && LinkOk(mem, ring, Prev(k, |ring|));
    hide LinkOk, Distinct, Bypass;
    DistinctSkip(ring, k, r);
    forall i | 0 <= i < |r| ensures LinkOk(Bypass(mem, ring[k]), r, i) {
      BypassAt(mem, ring, k, r, i);
    }
  }

  /** Only one chunk in the bin: both its neighbours are the header. */
  lemma LastOne(mem: Chunks, ring: seq<int>, k: nat)
    requires Circle(mem, ring) && Distinct(ring) && 0 < k < |ring|
    ensures ring[k] in mem && (mem[ring[k]].fd == mem[ring[k]].bk <==> |ring| == 2)
  {
    assert LinkOk(mem, ring, k);
  }

  lemma CutBehind(b: int, s: seq<int>, i: nat)
    requires i < |s|
    ensures ([b] + s)[..i + 1] + ([b] + s)[i + 2..] == [b] + (s[..i] + s[i + 1..]) && |[b] + s| == |s| + 1
  {
    assert ([b] + s)[..i + 1] == [b] + s[..i];
    assert ([b] + s)[i + 2..] == s[i + 1..];
  }

  /** What unlinking chunk `i` of a bin leaves. */
  lemma UnlinkAt(mem: Chunks, b: int, s: seq<int>, i: nat)
    requires Circle(mem, [b] + s) && Distinct([b] + s) && i < |s|
    ensures s[i] in mem && mem[s[i]].fd in mem && mem[s[i]].bk in mem
    ensures mem[s[i]].fd == mem[s[i]].bk <==> Without(s, s[i]) == []
    ensures Circle(Bypass(mem, s[i]), [b] + Without(s, s[i])) && Distinct([b] + Without(s, s[i]))
    ensures mem.Keys <= Bypass(mem, s[i]).Keys
    ensures forall a | a in mem && a != b && a !in s :: Bypass(mem, s[i])[a] == mem[a]
  {
    hide Circle, Distinct, Bypass, Without, NoDup;
    var ring, k := [b] + s, i + 1;
    assert ring[k] == s[i];
    LastOne(mem, ring, k);
    BypassOk(mem, ring, k);
    DistinctTail(b, s);
    WithoutAt(s, i);
    CutBehind(b, s, i);
  }

  /** The chunk behind the header comes first, and its `bk` is the header. */
  lemma FirstIs(mem: Chunks, b: int, s: seq<int>)
    requires Circle(mem, [b] + s) && Distinct([b] + s) && s != []
    ensures b in mem && mem[b].fd == s[0] && s[0] in mem && mem[s[0]].bk == b
  {
    var ring := [b] + s;
    assert LinkOk(mem, ring, 0) && LinkOk(mem, ring, 1);
  }

  class SmallBin {
    /** The address of the bin's header. */
    const place: int
    var mem: Chunks
    var marked: bool
    ghost var chunks: seq<int>

    ghost predicate Valid()
      reads this
    {
      && Distinct([place] + chunks) && place in mem
      && (marked <==> chunks != [])
      && (marked ==> Circle(mem, [place] + chunks))
    }

    constructor (place: int, mem: Chunks)
      requires place in mem
      ensures Valid() && this.place == place && this.mem == mem && chunks == []
    {
      this.place, this.mem, marked, chunks := place, mem, false, [];
    }

    /** insert_small_chunk */
    method Insert(p: int)
      requires Valid() && p != place && p !in chunks
      modifies this
      ensures Valid() && chunks == [p] + old(chunks)
      ensures forall a | a in old(mem) && a != p && a != place && a !in old(chunks) :: a in mem && mem[a] == old(mem[a])
    {
      ghost var was := [place] + chunks;
      var f := place;
      if marked {
        assert LinkOk(mem, was, 0) && was[Next(0, |was|)] in chunks;
        LinkFirstOk(mem, place, chunks, p);
        f := mem[place].fd;
      }
      marked := true;
      mem := LinkFirst(mem, place, f, p);
      assert [place] + ([p] + chunks) == [place, p] + chunks;
      chunks := [p] + chunks;
      assert was == [place] ==> Circle(mem, [place, p]);
    }

    /** unlink_small_chunk */
    method Unlink(p: int)
      requires Valid() && p in chunks
      modifies this
      ensures Valid() && chunks == Without(old(chunks), p)
      ensures forall a | a in old(mem) && a != place && a !in old(chunks) :: a in mem && mem[a] == old(mem[a])
    {
      hide Circle, Distinct, Bypass, Without, NoDup;
      ghost var i :| 0 <= i < |chunks| && chunks[i] == p;
      UnlinkAt(mem, place, chunks, i);
      if mem[p].fd == mem[p].bk {
        marked := false;
      } else {
        mem := Bypass(mem, p);
      }
      chunks := Without(chunks, p);
    }

    /** unlink_first_small_chunk */
    method UnlinkFirst() returns (p: int)
      requires Valid() && marked
      modifies this
      ensures Valid() && old(chunks) == [p] + chunks
      ensures forall a | a in old(mem) && a != place && a !in old(chunks) :: a in mem && mem[a] == old(mem[a])
    {
      hide Circle, Distinct, Bypass;
      FirstIs(mem, place, chunks);
      UnlinkAt(mem, place, chunks, 0);
      p := mem[place].fd;
      if mem[p].fd == place {
        marked := false;
      } else {
        mem := Bypass(mem, p);
      }
      chunks := chunks[1..];
    }
  }
}
