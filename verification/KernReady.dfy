/** The ready queue (kern/ready_queue.c) with its priority bitmap (find_msr_bit in
    common/bitops.c).  The queues are sequences, as the lists of KernList refine them. */
module KernReady {
  import opened KernList
  import opened Lists
  import opened Options

  type Tid = int

  const PRIORITY_MAX: nat := 16
  const RR_PRIORITY: nat := 0

  // ---- bits of a machine integer ------------------------------------------------------------

  /** `x & (1 << i)` is not zero. */
  predicate Set(x: nat, i: nat)
    decreases i
  {
    if i == 0 then x % 2 == 1 else Set(x / 2, i - 1)
  }

  /** `x | (1 << i)` */
  function Mark(x: nat, i: nat): nat
    decreases i
  {
    if i == 0 then x - x % 2 + 1 else 2 * Mark(x / 2, i - 1) + x % 2
  }

  /** `x & ~(1 << i)` */
  function Unmark(x: nat, i: nat): nat
    decreases i
  {
    if i == 0 then x - x % 2 else 2 * Unmark(x / 2, i - 1) + x % 2
  }

  lemma {:induction false} MarkOne(x: nat, i: nat, j: nat)
    ensures Set(Mark(x, i), j) <==> Set(x, j) || j == i
    ensures Set(Unmark(x, i), j) <==> Set(x, j) && j != i
    decreases i
  {
    if i > 0 {
      var m, u := Mark(x / 2, i - 1), Unmark(x / 2, i - 1);
      assert (2 * m + x % 2) / 2 == m && (2 * u + x % 2) / 2 == u;
      if j > 0 {
        MarkOne(x / 2, i - 1, j - 1);
      }
    }
  }

  /** Integers with the same bits are the same. */
  lemma {:induction false} NoBitIsZero(x: nat)
    requires forall i: nat :: !Set(x, i)
    ensures x == 0
  {
    if x > 0 {
      assert !Set(x, 0);
      forall i: nat ensures !Set(x / 2, i) {
        assert !Set(x, i + 1);
      }
      NoBitIsZero(x / 2);
    }
  }

  /** The bitmap has marks below `n` only: it fits in `n` bits. */
  ghost predicate Within(x: nat, n: nat) {
    forall i: nat | n <= i :: !Set(x, i)
  }

  /** find_msr_bit: the highest bit that is set in a 32-bit integer. */
  method FindMsrBit(x: nat) returns (r: Option<nat>)
    requires Within(x, 32)
    ensures r.None? <==> x == 0
    ensures r.Some? ==> Set(x, r.value) && Within(x, r.value + 1)
  {
    if x == 0 {
      return None;
    }
    r := None;
    var i := 31;
    while i >= 0
      invariant -1 <= i < 32 && Within(x, i + 1) && r.None?
    {
      if Set(x, i) {
        return Some(i);
      }
      i := i - 1;
    }
    NoBitIsZero(x);
  }

  // ---- the queues ---------------------------------------------------------------------------

  /** The bitmap marks exactly the queues that are not empty. */
  ghost predicate Marked(heads: seq<seq<Tid>>, bitmap: nat) {
    |heads| == PRIORITY_MAX && forall i: nat :: Set(bitmap, i) <==> i < |heads| && heads[i] != []
  }

  /** Queue `p` is the highest that is not empty, and `t` its first thread. */
  ghost predicate FirstAt(heads: seq<seq<Tid>>, t: Tid, p: nat) {
    p < |heads| && heads[p] != [] && heads[p][0] == t && forall q | p < q < |heads| :: heads[q] == []
  }

  ghost predicate IsFirst(heads: seq<seq<Tid>>, t: Tid) {
    exists p :: FirstAt(heads, t, p)
  }

  class ReadyQueue {
    var heads: seq<seq<Tid>>
    var bitmap: nat

    ghost predicate Valid()
      reads this
    {
      Marked(heads, bitmap)
    }

    /** rdq_init_ready_queue */
    constructor ()
      ensures Valid() && heads == seq(PRIORITY_MAX, _ => [])
    {
      heads, bitmap := seq(PRIORITY_MAX, _ => []), 0;
      new;
      forall i: nat ensures !Set(0, i) {
        NothingSet(i);
      }
    }

    static lemma {:induction false} NothingSet(i: nat)
      ensures !Set(0, i)
    {
      if i > 0 {
        NothingSet(i - 1);
      }
    }

    /** rdq_add_thread */
    method Add(t: Tid, prio: nat)
      requires Valid() && prio < PRIORITY_MAX
      modifies this
      ensures Valid() && heads == old(heads)[prio := old(heads)[prio] + [t]]
    {
      heads := heads[prio := heads[prio] + [t]];
      forall i: nat ensures Set(Mark(bitmap, prio), i) <==> Set(bitmap, i) || i == prio {
        MarkOne(bitmap, prio, i);
      }
      bitmap := Mark(bitmap, prio);
    }

    /** rdq_remove_thread */
    method Remove(t: Tid, prio: nat)
      requires Valid() && prio < PRIORITY_MAX && t in heads[prio]
      modifies this
      ensures Valid() && heads == old(heads)[prio := Without(old(heads)[prio], t)]
    {
      heads := heads[prio := Without(heads[prio], t)];
      if heads[prio] == [] {
        forall i: nat ensures Set(Unmark(bitmap, prio), i) <==> Set(bitmap, i) && i != prio {
          MarkOne(bitmap, prio, i);
        }
        bitmap := Unmark(bitmap, prio);
      }
    }

    /** rdq_rotate_queue */
    method Rotate()
      requires Valid()
      modifies this
      ensures Valid() && heads == old(heads)[RR_PRIORITY := Rotated(old(heads)[RR_PRIORITY])]
    {
      heads := heads[RR_PRIORITY := Rotated(heads[RR_PRIORITY])];
    }

    /** rdq_find_runnable_thread */
    method FindRunnable() returns (r: Option<Tid>)
      requires Valid()
      ensures r.Some? ==> IsFirst(heads, r.value)
      ensures r.None? ==> forall p | 0 <= p < |heads| :: heads[p] == []
    {
      var idx := FindMsrBit(bitmap);
      if idx.None? {
        forall i: nat ensures !Set(0, i) {
          NothingSet(i);
        }
        return None;
      }
      r := Some(heads[idx.value][0]);
      assert FirstAt(heads, r.value, idx.value);
    }
  }

  // ---- round robin --------------------------------------------------------------------------

  /** What happens to the round-robin queue: the time slice of its first thread ends, a thread joins
      at the tail, or a thread leaves, to wait or to exit. */
  datatype Event = Turn | Join(t: Tid) | Leave(t: Tid)

  function After(q: seq<Tid>, e: Event): seq<Tid> {
    match e
    case Turn => Rotated(q)
    case Join(t) => q + [t]
    case Leave(t) => Without(q, t)
  }

  function AfterAll(q: seq<Tid>, es: seq<Event>): seq<Tid>
    decreases |es|
  {
    if es == [] then q else AfterAll(After(q, es[0]), es[1..])
  }

  function Turns(es: seq<Event>): nat {
    if es == [] then 0 else (if es[0].Turn? then 1 else 0) + Turns(es[1..])
  }

  /** A thread that leaves from behind does not matter, one that leaves from before lets others up. */
  lemma {:induction false} WithoutMoves(q: seq<Tid>, i: nat, a: Tid)
    requires i < |q| && q[i] != a
    ensures var r := Without(q, a); (i < |r| && r[i] == q[i]) || (0 < i <= |r| && r[i - 1] == q[i])
  {
    if q[0] != a && i > 0 {
      WithoutMoves(q[1..], i - 1, a);
    }
  }

  /** Whatever joins and leaves meanwhile, the thread at place `i` is first before or right after
      turn number `i`: some prefix of the events, with at most `i` turns, brings it to the front. */
  lemma {:induction false} RoundRobin(q: seq<Tid>, i: nat, es: seq<Event>) returns (k: nat)
    requires i < |q| && Leave(q[i]) !in es && i <= Turns(es)
    ensures k <= |es| && Turns(es[..k]) <= i
    ensures AfterAll(q, es[..k]) != [] && AfterAll(q, es[..k])[0] == q[i]
    decreases |es|
  {
    if i == 0 {
      return 0;
    }
    var q' := After(q, es[0]);
    var i' := i;
    match es[0] {
      case Turn => i' := i - 1;
      case Join(_) =>
      case Leave(a) =>
        assert es[0] in es;
        WithoutMoves(q, i, a);
        i' := if i < |q'| && q'[i] == q[i] then i else i - 1;
    }
    k := RoundRobin(q', i', es[1..]);
    k := k + 1;
    assert es[..k][1..] == es[1..][..k - 1] && es[..k][0] == es[0];
  }
}
