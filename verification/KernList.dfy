/** Circular doubly linked lists (common/list.c), the base of every kernel queue: each operation on
    the links refines an operation on the sequence of nodes between the two ends of the head. */
module KernList {

  class Link {
    var prev: Link
    var next: Link

    /** init_list_node, init_list_head */
    constructor ()
      ensures prev == next == this
    {
      prev, next := this, this;
    }
  }

  /** The `i`th and the next link of a walk point at each other. */
  ghost predicate PairAt(r: seq<Link>, i: int)
    reads r
  {
    0 <= i < |r| - 1 ==> r[i].next == r[i + 1] && r[i + 1].prev == r[i]
  }

  /** Links of a walk differ, but for its two ends. */
  ghost predicate DifferAt(r: seq<Link>, i: int, j: int) {
    0 <= i < j < |r| && !(i == 0 && j == |r| - 1) ==> r[i] != r[j]
  }

  /** A walk along `next`, or backwards along `prev`, that returns to where it started. */
  ghost predicate Walk(r: seq<Link>)
    reads r
  {
    && (forall i {:trigger PairAt(r, i)} :: PairAt(r, i))
    && (forall i, j {:trigger DifferAt(r, i, j)} :: DifferAt(r, i, j))
  }

  /** The list of `head` holds exactly the nodes `s`, in this order. */
  ghost predicate Ring(head: Link, s: seq<Link>)
    reads head, s
  {
    Walk([head] + s + [head])
  }

  lemma RingOf(head: Link, s: seq<Link>, r: seq<Link>)
    requires r == [head] + s + [head] && Walk(r)
    ensures Ring(head, s)
  {
  }

  lemma EmptyRing(head: Link)
    requires head.prev == head == head.next
    ensures Ring(head, [])
  {
    var r := [head] + [] + [head];
    assert forall i :: PairAt(r, i);
    assert forall i, j :: DifferAt(r, i, j);
  }

  /** Links `a` and `b`, next to each other at place `k` of walk `r`, are joined to `node` instead.  A
      lone link can be joined to itself. */
  method Squeeze(a: Link, b: Link, node: Link, ghost r: seq<Link>, ghost k: nat)
    requires a == b == node || (Walk(r) && k < |r| - 1 && a == r[k] && b == r[k + 1] && node !in r)
    modifies node, a, b
    ensures if a == node then node.prev == node == node.next
            else k < |r| - 1 && Walk(r[..k + 1] + [node] + r[k + 1..])
  {
    node.next := b;
    node.prev := a;
    a.next := node;
    b.prev := node;
    if a != node {
      ghost var t := r[..k + 1] + [node] + r[k + 1..];
      forall i ensures PairAt(t, i) {
        assert old(PairAt(r, i) && PairAt(r, i - 1));
        assert DifferAt(r, i, k) && DifferAt(r, k, i) && DifferAt(r, k, i - 1);
        assert DifferAt(r, i + 1, k + 1) && DifferAt(r, k + 1, i + 1) && DifferAt(r, k + 1, i);
      }
      forall i, j ensures DifferAt(t, i, j) {
        assert DifferAt(r, i, j) && DifferAt(r, i, j - 1) && DifferAt(r, i - 1, j - 1);
      }
    }
  }

  /** list_insert_at: `node` comes before `pos`, the `k`th node or, behind the last, the head. */
  method InsertAt(pos: Link, node: Link, ghost head: Link, ghost s: seq<Link>, ghost k: nat)
    requires Ring(head, s) && node != head && node !in s
    requires k <= |s| && pos == if k == |s| then head else s[k]
    modifies pos, node, pos.prev
    ensures Ring(head, s[..k] + [node] + s[k..])
  {
    ghost var r := [head] + s + [head];
    assert PairAt(r, k);
    Squeeze(pos.prev, pos, node, r, k);
    RingOf(head, s[..k] + [node] + s[k..], r[..k + 1] + [node] + r[k + 1..]);
  }

  /** list_add: `node` becomes the last.  The head of an empty list may be added to it. */
  method Add(head: Link, node: Link, ghost s: seq<Link>)
    requires Ring(head, s) && node !in s && (node == head ==> s == [])
    modifies head, node, head.prev
    ensures Ring(head, if node == head then [] else s + [node])
  {
    ghost var r := [head] + s + [head];
    assert PairAt(r, |s|);
    Squeeze(head.prev, head, node, r, |s|);
    if node == head {
      EmptyRing(head);
    } else {
      RingOf(head, s + [node], r[..|s| + 1] + [node] + r[|s| + 1..]);
    }
  }

  /** list_add_top: `node` becomes the first. */
  method AddTop(head: Link, node: Link, ghost s: seq<Link>)
    requires Ring(head, s) && node != head && node !in s
    modifies head, node, head.next
    ensures Ring(head, [node] + s)
  {
    ghost var r := [head] + s + [head];
    assert PairAt(r, 0);
    Squeeze(head, head.next, node, r, 0);
    RingOf(head, [node] + s, r[..1] + [node] + r[1..]);
  }

  /** A walk without its link at place `k + 1`. */
  lemma SkipAt(r: seq<Link>, k: nat, t: seq<Link>)
    requires k < |r| - 2 && t == r[..k + 1] + r[k + 2..]
    ensures |t| == |r| - 1 && forall i {:trigger t[i]} | 0 <= i < |t| :: t[i] == r[if i <= k then i else i + 1]
  {
  }

  /** list_del: `node` leaves the list, linked to itself.  The head of an empty list may be taken out. */
  method Delete(node: Link, ghost head: Link, ghost s: seq<Link>, ghost k: nat)
    requires Ring(head, s) && if s == [] then node == head else k < |s| && node == s[k]
    modifies node, node.prev, node.next
    ensures Ring(head, if s == [] then [] else s[..k] + s[k + 1..]) && node.prev == node.next == node
  {
    ghost var r := [head] + s + [head];
    assert PairAt(r, 0) && PairAt(r, k) && PairAt(r, k + 1);
    node.next.prev := node.prev;
    node.prev.next := node.next;
    node.prev, node.next := node, node;
    if s == [] {
      EmptyRing(head);
    } else {
      ghost var t := r[..k + 1] + r[k + 2..];
      SkipAt(r, k, t);
      forall i ensures PairAt(t, i) {
        if 0 <= i < k {
          assert old(PairAt(r, i));
          assert DifferAt(r, i, k) && DifferAt(r, i, k + 1) && DifferAt(r, i + 1, k + 1) && DifferAt(r, i + 1, k + 2);
        } else if i == k {
          assert DifferAt(r, k, k + 1) && DifferAt(r, k + 1, k + 2);
        } else if k < i < |t| - 1 {
          assert old(PairAt(r, i + 1));
          assert DifferAt(r, k, i + 1) && DifferAt(r, k + 1, i + 1) && DifferAt(r, k + 1, i + 2);
          assert DifferAt(r, k + 2, i + 2);
        }
      }
      forall i, j ensures DifferAt(t, i, j) {
        assert DifferAt(r, if i <= k then i else i + 1, if j <= k then j else j + 1);
      }
      RingOf(head, s[..k] + s[k + 1..], t);
    }
  }

  /** list_is_empty */
  method IsEmpty(head: Link, ghost s: seq<Link>) returns (r: bool)
    requires Ring(head, s)
    ensures r <==> s == []
  {
    ghost var w := [head] + s + [head];
    assert PairAt(w, 0) && PairAt(w, |s|) && DifferAt(w, 0, 1);
    r := head.prev == head && head.next == head;
  }

  /** list_get_top: the first node leaves; of an empty list it is the head. */
  method GetTop(head: Link, ghost s: seq<Link>) returns (top: Link)
    requires Ring(head, s)
    modifies head, head.next, head.next.next
    ensures top == if s == [] then head else s[0]
    ensures Ring(head, if s == [] then [] else s[1..]) && top.prev == top.next == top
  {
    ghost var w := [head] + s + [head];
    assert PairAt(w, 0) && PairAt(w, 1);
    top := head.next;
    Delete(top, head, s, 0);
    assert s != [] ==> s[..0] + s[1..] == s[1..];
  }

  function Rotated<T>(s: seq<T>): seq<T> {
    if s == [] then [] else s[1..] + [s[0]]
  }

  lemma FirstIsOther(head: Link, s: seq<Link>)
    requires Ring(head, s) && s != []
    ensures s[0] != head && s[0] !in s[1..]
  {
    var w := [head] + s + [head];
    assert DifferAt(w, 0, 1);
    forall j | 1 <= j < |s| ensures s[j] != s[0] {
      assert DifferAt(w, 1, j + 1);
    }
  }

  /** list_rotate: the first becomes the last. */
  method Rotate(head: Link, ghost s: seq<Link>)
    requires Ring(head, s)
    modifies head, head.next, head.next.next, head.prev
    ensures Ring(head, Rotated(s))
  {
    ghost var v := [head] + s + [head];
    assert PairAt(v, 0) && PairAt(v, |s| - 1) && PairAt(v, |s|);
    if s != [] {
      FirstIsOther(head, s);
    }
    var top := GetTop(head, s);
    ghost var rest := if s == [] then [] else s[1..];
    ghost var w := [head] + rest + [head];
    assert PairAt(w, |rest|);
    Add(head, top, rest);
  }
}
