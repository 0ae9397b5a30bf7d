/** The ready queue as it is in memory (kern/ready_queue.c): sixteen list heads, the links inside the
    threads, and the bitmap.  Its operations are list operations, and they change the queues of
    threads as those of KernReady do. */
module KernRings {
  import opened KernList
  import opened KernReady
  import opened Lists
  import opened Options

  ghost predicate Linked(link: map<Tid, Link>, q: seq<Tid>) {
    forall i | 0 <= i < |q| :: q[i] in link
  }

  /** The links of the threads in a queue. */
  ghost function Links(link: map<Tid, Link>, q: seq<Tid>): (s: seq<Link>)
    requires Linked(link, q)
    ensures |s| == |q| && forall i | 0 <= i < |q| :: s[i] == link[q[i]]
  {
    if q == [] then [] else [link[q[0]]] + Links(link, q[1..])
  }

  lemma LinksWithout(link: map<Tid, Link>, q: seq<Tid>, k: nat)
    requires Linked(link, q) && NoDup(q) && k < |q|
    ensures Linked(link, Without(q, q[k]))
    ensures Links(link, Without(q, q[k])) == Links(link, q)[..k] + Links(link, q)[k + 1..]
  {
    hide NoDup, Without;
    WithoutAt(q, k);
    var rest := q[..k] + q[k + 1..];
    forall i | 0 <= i < |rest| ensures rest[i] == q[if i < k then i else i + 1] {
    }
    LinksCut(link, q, k, rest);
  }

  lemma LinksCut(link: map<Tid, Link>, q: seq<Tid>, k: nat, rest: seq<Tid>)
    requires Linked(link, q) && k < |q| && |rest| == |q| - 1
    requires forall i | 0 <= i < |rest| :: rest[i] == q[if i < k then i else i + 1]
    ensures Linked(link, rest) && Links(link, rest) == Links(link, q)[..k] + Links(link, q)[k + 1..]
  {
    hide Links;
    var s, t := Links(link, q)[..k] + Links(link, q)[k + 1..], Links(link, rest);
    assert |s| == |t|;
    forall i | 0 <= i < |s| ensures s[i] == t[i] {
    }
  }

  /** The links of a ring are distinct, and so are the threads they are in. */
  lemma RingNoDup(head: Link, link: map<Tid, Link>, q: seq<Tid>)
    requires Linked(link, q) && Ring(head, Links(link, q))
    ensures NoDup(q)
  {
    var w := [head] + Links(link, q) + [head];
    forall i, j | 0 <= i < j < |q| ensures q[i] != q[j] {
      assert DifferAt(w, i + 1, j + 1);
      assert w[i + 1] == link[q[i]] && w[j + 1] == link[q[j]];
    }
    DistinctNoDup(q);
  }

  lemma MarkAll(bitmap: nat, prio: nat)
    ensures forall i: nat :: Set(Mark(bitmap, prio), i) <==> Set(bitmap, i) || i == prio
    ensures forall i: nat :: Set(Unmark(bitmap, prio), i) <==> Set(bitmap, i) && i != prio
  {
    forall i: nat
      ensures Set(Mark(bitmap, prio), i) <==> Set(bitmap, i) || i == prio
      ensures Set(Unmark(bitmap, prio), i) <==> Set(bitmap, i) && i != prio
    {
      MarkOne(bitmap, prio, i);
    }
  }

  /** No thread is in two queues. */
  ghost predicate Exclusive(queues: seq<seq<Tid>>) {
    forall p, q, t | 0 <= p < |queues| && 0 <= q < |queues| && t in queues[p] && t in queues[q] :: p == q
  }

  class LinkedQueues {
    const head: seq<Link>
    const link: map<Tid, Link>
    var bitmap: nat
    ghost var queues: seq<seq<Tid>>

    /** No two of the heads and links are the same. */
    ghost predicate Separate() {
      && |head| == PRIORITY_MAX
      && (forall p, q | 0 <= p < q < |head| :: head[p] != head[q])
      && (forall t, u | t in link && u in link && t != u :: link[t] != link[u])
      && (forall p, t | 0 <= p < |head| && t in link :: head[p] != link[t])
    }

    /** Queue `p` is the ring of head `p`. */
    ghost predicate QueueOk(p: nat)
      requires |queues| == |head| && p < |queues| && Linked(link, queues[p])
      reads this`queues, head, link.Values
    {
      Ring(head[p], Links(link, queues[p]))
    }

    ghost predicate Valid()
      reads this, head, link.Values
    {
      && Separate() && Marked(queues, bitmap)
      && (forall p | 0 <= p < |queues| :: Linked(link, queues[p]) && QueueOk(p))
      && Exclusive(queues)
    }

    /** Every queue but `prio` is the ring of its head. */
    ghost predicate RingsBut(prio: nat)
      reads this`queues, head, link.Values
    {
      |queues| == |head| && forall p | 0 <= p < |queues| && p != prio :: Linked(link, queues[p]) && QueueOk(p)
    }

    /** rdq_init_ready_queue */
    constructor (link: map<Tid, Link>)
      requires forall t, u | t in link && u in link && t != u :: link[t] != link[u]
      ensures Valid() && queues == seq(PRIORITY_MAX, _ => []) && this.link == link && fresh(head)
    {
      var hs: seq<Link> := [];
      while |hs| < PRIORITY_MAX
        invariant |hs| <= PRIORITY_MAX && fresh(hs)
        invariant forall p | 0 <= p < |hs| :: hs[p].prev == hs[p] == hs[p].next
        invariant forall p, q | 0 <= p < q < |hs| :: hs[p] != hs[q]
      {
        var h := new Link();
        hs := hs + [h];
      }
      head, this.link, bitmap := hs, link, 0;
      queues := seq(PRIORITY_MAX, _ => []);
      new;
      forall i: nat ensures !Set(0, i) {
        ReadyQueue.NothingSet(i);
      }
      forall p | 0 <= p < |queues| ensures Linked(this.link, queues[p]) && QueueOk(p) {
        EmptyRing(head[p]);
      }
    }

    /** The links of queue `p`: those next to its head, and none of any other queue. */
    lemma RingLinks(p: nat)
      requires Valid() && p < |queues|
      ensures NoDup(queues[p])
      ensures head[p].prev == head[p].next == head[p] <==> queues[p] == []
      ensures queues[p] != [] ==> head[p].next == link[queues[p][0]] && head[p].prev == link[queues[p][|queues[p]| - 1]]
    {
      assert QueueOk(p);
      RingNoDup(head[p], link, queues[p]);
      var s := Links(link, queues[p]);
      var w := [head[p]] + s + [head[p]];
      assert PairAt(w, 0) && PairAt(w, |s|) && DifferAt(w, 0, 1);
      assert w[|s|] == if s == [] then head[p] else s[|s| - 1];
    }

    /** What a list operation on queue `prio` may change besides its head: links of threads that are in
        no other queue. */
    ghost predicate Local(prio: nat, t: Tid)
      requires |queues| == PRIORITY_MAX
      reads this
    {
      t in link && forall p | 0 <= p < |queues| && p != prio :: t !in queues[p]
    }

    /** Such changes do not reach queue `p`. */
    lemma Unreached(prio: nat, p: nat, on: set<Link>)
      requires Valid() && prio < |queues| && p < |queues| && p != prio
      requires forall x | x in on :: x == head[prio] || exists t :: Local(prio, t) && x == link[t]
      ensures head[p] !in on && forall x | x in Links(link, queues[p]) :: x !in on
    {
      var s := Links(link, queues[p]);
      forall i | 0 <= i < |s| ensures s[i] !in on {
        var u := queues[p][i];
        assert s[i] == link[u] && u in queues[p];
      }
    }

    lemma NotInLinks(t: Tid, p: nat)
      requires Valid() && p < |queues| && t in link && t !in queues[p]
      ensures link[t] !in Links(link, queues[p])
    {
      var s := Links(link, queues[p]);
      forall i | 0 <= i < |s| ensures s[i] != link[t] {
        var u := queues[p][i];
        assert u in queues[p] && u in link && u != t && s[i] == link[u];
      }
    }

    /** The whole ring of queue `prio`. */
    ghost function RingSet(prio: nat): set<Link>
      requires |head| == |queues| == PRIORITY_MAX && prio < |queues| && Linked(link, queues[prio])
      reads this
    {
      {head[prio]} + set x | x in Links(link, queues[prio])
    }

    lemma RingUnreached(prio: nat, on: set<Link>)
      requires Valid() && prio < |queues| && on <= RingSet(prio)
      ensures on <= {head[prio]} + link.Values
      ensures forall p, x | 0 <= p < |queues| && p != prio && x in Links(link, queues[p]) :: x !in on
      ensures forall p | 0 <= p < |queues| && p != prio :: head[p] !in on
    {
      var s := Links(link, queues[prio]);
      forall x | x in on && x != head[prio] ensures x in link.Values && exists t :: Local(prio, t) && x == link[t] {
        var i :| 0 <= i < |s| && s[i] == x;
        assert queues[prio][i] in queues[prio] && Local(prio, queues[prio][i]) && x == link[queues[prio][i]];
      }
      forall p | 0 <= p < |queues| && p != prio
        ensures head[p] !in on && forall x | x in Links(link, queues[p]) :: x !in on
      {
        Unreached(prio, p, on);
      }
    }

    /** The neighbours of a link in its ring. */
    lemma Neighbours(prio: nat, k: nat)
      requires Valid() && prio < |queues| && k < |queues[prio]|
      ensures var node := link[queues[prio][k]]; {node, node.prev, node.next} <= RingSet(prio)
    {
      assert QueueOk(prio);
      var s := Links(link, queues[prio]);
      var w := [head[prio]] + s + [head[prio]];
      assert PairAt(w, k) && PairAt(w, k + 1);
      assert forall i | 0 <= i < |w| :: w[i] in RingSet(prio);
      assert w[k + 1] == link[queues[prio][k]];
    }

    /** The list operations, on the ring of queue `prio`: the other rings stay as they are. */
    method AddLink(t: Tid, prio: nat)
      requires Valid() && prio < PRIORITY_MAX && t in link && forall p | 0 <= p < |queues| :: t !in queues[p]
      modifies head, link.Values
      ensures RingsBut(prio) && Linked(link, queues[prio] + [t]) && Ring(head[prio], Links(link, queues[prio] + [t]))
    {
      hide Ring;
      RingLinks(prio);
      assert QueueOk(prio);
      ghost var s, q := Links(link, queues[prio]), queues[prio];
      ghost var on := {head[prio], link[t], head[prio].prev};
      assert link[t] in link.Values && Local(prio, t);
      if q != [] {
        assert q[|q| - 1] in q && Local(prio, q[|q| - 1]) && link[q[|q| - 1]] in link.Values;
      }
      forall p | 0 <= p < |queues| && p != prio
        ensures head[p] !in on && forall x | x in Links(link, queues[p]) :: x !in on
      {
        Unreached(prio, p, on);
      }
      assert link[t] !in s by { NotInLinks(t, prio); }
      KernList.Add(head[prio], link[t], s);
      forall p | 0 <= p < |queues| && p != prio ensures QueueOk(p) {
        assert old(QueueOk(p));
      }
      assert Links(link, q + [t]) == s + [link[t]];
    }

    method DeleteLink(t: Tid, prio: nat)
      requires Valid() && prio < PRIORITY_MAX && t in queues[prio]
      modifies head, link.Values
      ensures RingsBut(prio) && Linked(link, Without(queues[prio], t))
      ensures Ring(head[prio], Links(link, Without(queues[prio], t)))
    {
      hide Ring, Links, Without, NoDup;
      RingLinks(prio);
      ghost var k :| 0 <= k < |queues[prio]| && queues[prio][k] == t;
      LinksWithout(link, queues[prio], k);
      Unhook(t, prio, k);
    }

    method Unhook(t: Tid, prio: nat, ghost k: nat)
      requires Valid() && prio < PRIORITY_MAX && k < |queues[prio]| && queues[prio][k] == t
      modifies head, link.Values
      ensures RingsBut(prio)
      ensures var s := Links(link, queues[prio]); Ring(head[prio], s[..k] + s[k + 1..])
    {
      hide Ring, Without, NoDup;
      assert QueueOk(prio);
      ghost var s := Links(link, queues[prio]);
      ghost var on := {link[t], link[t].prev, link[t].next};
      Neighbours(prio, k);
      RingUnreached(prio, on);
      Delete(link[t], head[prio], s, k);
      forall p | 0 <= p < |queues| && p != prio ensures QueueOk(p) {
        assert old(QueueOk(p));
      }
    }

    method RotateLinks(prio: nat)
      requires Valid() && prio < PRIORITY_MAX
      modifies head, link.Values
      ensures RingsBut(prio) && Linked(link, Rotated(queues[prio]))
      ensures Ring(head[prio], Links(link, Rotated(queues[prio])))
    {
      hide Ring;
      assert QueueOk(prio);
      ghost var s, q := Links(link, queues[prio]), queues[prio];
      ghost var on := {head[prio], head[prio].next, head[prio].next.next, head[prio].prev};
      if q == [] {
        RingLinks(prio);
      } else {
        Neighbours(prio, 0);
        Neighbours(prio, |q| - 1);
        RingLinks(prio);
      }
      RingUnreached(prio, on);
      KernList.Rotate(head[prio], s);
      forall p | 0 <= p < |queues| && p != prio ensures QueueOk(p) {
        assert old(QueueOk(p));
      }
      assert Links(link, Rotated(q)) == Rotated(s);
    }

    /** Queue `prio` has become `q`, and its ring too. */
    ghost method Put(prio: nat, q: seq<Tid>)
      requires Separate() && |queues| == PRIORITY_MAX && prio < PRIORITY_MAX && RingsBut(prio) && Exclusive(queues)
      requires Linked(link, q) && Ring(head[prio], Links(link, q))
      requires forall t, p | t in q && 0 <= p < |queues| && t in queues[p] :: p == prio
      modifies this`queues
      ensures queues == old(queues)[prio := q] && Exclusive(queues)
      ensures forall p | 0 <= p < |queues| :: Linked(link, queues[p]) && QueueOk(p)
    {
      hide Ring;
      ghost var was := queues;
      queues := queues[prio := q];
      forall p | 0 <= p < |queues| ensures Linked(link, queues[p]) && QueueOk(p) {
        if p != prio {
          assert queues[p] == was[p] && old(QueueOk(p));
        }
      }
    }

    /** rdq_add_thread */
    method Add(t: Tid, prio: nat)
      requires Valid() && prio < PRIORITY_MAX && t in link && forall p | 0 <= p < |queues| :: t !in queues[p]
      modifies this`bitmap, this`queues, head, link.Values
      ensures Valid() && queues == old(queues)[prio := old(queues)[prio] + [t]]
    {
      hide QueueOk, Ring;
      AddLink(t, prio);
      MarkAll(bitmap, prio);
      bitmap := Mark(bitmap, prio);
      Put(prio, queues[prio] + [t]);
    }

    /** rdq_remove_thread */
    method Remove(t: Tid, prio: nat)
      requires Valid() && prio < PRIORITY_MAX && t in queues[prio]
      modifies this`bitmap, this`queues, head, link.Values
      ensures Valid() && queues == old(queues)[prio := Without(old(queues)[prio], t)]
    {
      hide QueueOk, Ring;
      RingLinks(prio);
      WithoutOk(queues[prio], t);
      DeleteLink(t, prio);
      MarkAll(bitmap, prio);
      var empty := IsEmpty(head[prio], Links(link, Without(queues[prio], t)));
      if empty {
        bitmap := Unmark(bitmap, prio);
      }
      Put(prio, Without(queues[prio], t));
    }

    /** rdq_rotate_queue */
    method Rotate()
      requires Valid()
      modifies this`queues, head, link.Values
      ensures Valid() && queues == old(queues)[RR_PRIORITY := Rotated(old(queues)[RR_PRIORITY])]
    {
      hide QueueOk, Ring;
      RotateLinks(RR_PRIORITY);
      assert forall t | t in Rotated(queues[RR_PRIORITY]) :: t in queues[RR_PRIORITY];
      Put(RR_PRIORITY, Rotated(queues[RR_PRIORITY]));
    }

    /** rdq_find_runnable_thread: the link of the thread it finds. */
    method FindRunnable() returns (r: Option<Link>)
      requires Valid()
      ensures r.Some? ==> exists t :: t in link && link[t] == r.value && IsFirst(queues, t)
      ensures r.None? ==> forall p | 0 <= p < |queues| :: queues[p] == []
    {
      hide Walk;
      var idx := FindMsrBit(bitmap);
      if idx.None? {
        forall i: nat ensures !Set(0, i) {
          ReadyQueue.NothingSet(i);
        }
        return None;
      }
      RingLinks(idx.value);
      assert FirstAt(queues, queues[idx.value][0], idx.value);
      r := Some(head[idx.value].next);
    }
  }
}
