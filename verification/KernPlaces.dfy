/** Where threads are: the queues of the kernel hold every thread in exactly one place. */
module KernPlaces {
  import opened KernList
  import opened KernReady
  import opened Lists

  /** The wait queues: of a mutex, of an event, and of the reaper. */
  datatype Queue = OfMutex(m: int) | OfEvent(n: int) | OfReaper

  datatype Place = Ready(prio: nat) | Waiting(q: Queue) | Reaping

  type Places = map<Tid, Place>
  type Heads = seq<seq<Tid>>
  type Queues = map<Queue, seq<Tid>>

  /** Queue `s` lists exactly the threads at `place`, each once. */
  ghost predicate Listed(s: seq<Tid>, at: Places, place: Place) {
    NoDup(s) && forall t :: t in s <==> t in at && at[t] == place
  }

  ghost predicate HeadOk(heads: Heads, at: Places, p: int) {
    0 <= p < |heads| ==> Listed(heads[p], at, Ready(p))
  }

  ghost predicate QueueOk(waitq: Queues, at: Places, q: Queue) {
    q in waitq ==> Listed(waitq[q], at, Waiting(q))
  }

  /** A thread is ready with a priority, or waits in a queue that exists, or is to be reaped. */
  ghost predicate PlaceOk(waitq: Queues, at: Places, t: Tid) {
    t in at ==> (at[t].Ready? ==> at[t].prio < PRIORITY_MAX) && (at[t].Waiting? ==> at[t].q in waitq)
  }

  /** Every thread is in the one queue of its place, and nowhere else. */
  ghost predicate Placed(heads: Heads, waitq: Queues, reapq: seq<Tid>, at: Places) {
    && |heads| == PRIORITY_MAX
    && (forall p {:trigger HeadOk(heads, at, p)} :: HeadOk(heads, at, p))
    && (forall q {:trigger QueueOk(waitq, at, q)} :: QueueOk(waitq, at, q))
    && (forall t {:trigger PlaceOk(waitq, at, t)} :: PlaceOk(waitq, at, t))
    && Listed(reapq, at, Reaping)
  }

  // ---- one queue ----------------------------------------------------------------------------

  lemma ListedAfterLeave(s: seq<Tid>, at: Places, place: Place, t: Tid)
    requires Listed(s, at, place)
    ensures t in s ==> Listed(Without(s, t), at - {t}, place)
    ensures t !in s ==> Listed(s, at - {t}, place)
  {
    WithoutOk(s, t);
  }

  lemma ListedAfterJoin(s: seq<Tid>, at: Places, place: Place, t: Tid, place': Place)
    requires Listed(s, at, place) && t !in at
    ensures place == place' ==> Listed(s + [t], at[t := place'], place)
    ensures place != place' ==> Listed(s, at[t := place'], place)
  {
    NoDupAppend(s, [t]);
  }

  // ---- moves --------------------------------------------------------------------------------

  /** A thread is taken out of its queue. */
  lemma LeaveReady(heads: Heads, waitq: Queues, reapq: seq<Tid>, at: Places, t: Tid)
    requires Placed(heads, waitq, reapq, at) && t in at && at[t].Ready?
    ensures at[t].prio < |heads| && t in heads[at[t].prio]
    ensures Placed(heads[at[t].prio := Without(heads[at[t].prio], t)], waitq, reapq, at - {t})
  {
    hide NoDup;
    var p := at[t].prio;
    assert PlaceOk(waitq, at, t) && HeadOk(heads, at, p);
    var heads', at' := heads[p := Without(heads[p], t)], at - {t};
    forall i ensures HeadOk(heads', at', i) {
      assert HeadOk(heads, at, i);
      if 0 <= i < |heads| {
        ListedAfterLeave(heads[i], at, Ready(i), t);
      }
    }
    LeaveOthers(heads, waitq, reapq, at, t);
  }

  /** The queues a ready thread is not in. */
  lemma LeaveOthers(heads: Heads, waitq: Queues, reapq: seq<Tid>, at: Places, t: Tid)
    requires Placed(heads, waitq, reapq, at) && t in at && at[t].Ready?
    ensures forall q {:trigger QueueOk(waitq, at - {t}, q)} :: QueueOk(waitq, at - {t}, q)
    ensures forall x {:trigger PlaceOk(waitq, at - {t}, x)} :: PlaceOk(waitq, at - {t}, x)
    ensures Listed(reapq, at - {t}, Reaping)
  {
    hide NoDup;
    ListedAfterLeave(reapq, at, Reaping, t);
    forall q ensures QueueOk(waitq, at - {t}, q) {
      assert QueueOk(waitq, at, q);
      if q in waitq {
        ListedAfterLeave(waitq[q], at, Waiting(q), t);
      }
    }
    forall x ensures PlaceOk(waitq, at - {t}, x) {
      assert PlaceOk(waitq, at, x);
    }
  }

  lemma JoinReady(heads: Heads, waitq: Queues, reapq: seq<Tid>, at: Places, t: Tid, p: nat)
    requires Placed(heads, waitq, reapq, at) && t !in at && p < PRIORITY_MAX
    ensures Placed(heads[p := heads[p] + [t]], waitq, reapq, at[t := Ready(p)])
  {
    hide NoDup;
    var heads', at' := heads[p := heads[p] + [t]], at[t := Ready(p)];
    ListedAfterJoin(reapq, at, Reaping, t, Ready(p));
    forall i ensures HeadOk(heads', at', i) {
      assert HeadOk(heads, at, i);
      if 0 <= i < |heads| {
        ListedAfterJoin(heads[i], at, Ready(i), t, Ready(p));
      }
    }
    forall q ensures QueueOk(waitq, at', q) {
      assert QueueOk(waitq, at, q);
      if q in waitq {
        ListedAfterJoin(waitq[q], at, Waiting(q), t, Ready(p));
      }
    }
    forall x ensures PlaceOk(waitq, at', x) {
      assert PlaceOk(waitq, at, x);
    }
  }

  lemma JoinQueue(heads: Heads, waitq: Queues, reapq: seq<Tid>, at: Places, t: Tid, w: Queue)
    requires Placed(heads, waitq, reapq, at) && t !in at && w in waitq
    ensures Placed(heads, waitq[w := waitq[w] + [t]], reapq, at[t := Waiting(w)])
  {
    hide NoDup;
    var waitq', at' := waitq[w := waitq[w] + [t]], at[t := Waiting(w)];
    ListedAfterJoin(reapq, at, Reaping, t, Waiting(w));
    forall i ensures HeadOk(heads, at', i) {
      assert HeadOk(heads, at, i);
      if 0 <= i < |heads| {
        ListedAfterJoin(heads[i], at, Ready(i), t, Waiting(w));
      }
    }
    forall q ensures QueueOk(waitq', at', q) {
      assert QueueOk(waitq, at, q);
      if q in waitq {
        ListedAfterJoin(waitq[q], at, Waiting(q), t, Waiting(w));
      }
    }
    forall x ensures PlaceOk(waitq', at', x) {
      assert PlaceOk(waitq, at, x);
    }
  }

  /** The first waiter of `w` is taken out. */
  lemma LeaveQueue(heads: Heads, waitq: Queues, reapq: seq<Tid>, at: Places, w: Queue)
    requires Placed(heads, waitq, reapq, at) && w in waitq && waitq[w] != []
    ensures waitq[w][0] in at && at[waitq[w][0]] == Waiting(w)
    ensures Placed(heads, waitq[w := waitq[w][1..]], reapq, at - {waitq[w][0]})
  {
    hide NoDup;
    var t := waitq[w][0];
    assert QueueOk(waitq, at, w);
    assert Without(waitq[w], t) == waitq[w][1..];
    var waitq', at' := waitq[w := waitq[w][1..]], at - {t};
    ListedAfterLeave(reapq, at, Reaping, t);
    forall i ensures HeadOk(heads, at', i) {
      assert HeadOk(heads, at, i);
      if 0 <= i < |heads| {
        ListedAfterLeave(heads[i], at, Ready(i), t);
      }
    }
    forall q ensures QueueOk(waitq', at', q) {
      assert QueueOk(waitq, at, q);
      if q in waitq {
        ListedAfterLeave(waitq[q], at, Waiting(q), t);
      }
    }
    forall x ensures PlaceOk(waitq', at', x) {
      assert PlaceOk(waitq, at, x);
    }
  }

  lemma JoinReaper(heads: Heads, waitq: Queues, reapq: seq<Tid>, at: Places, t: Tid)
    requires Placed(heads, waitq, reapq, at) && t !in at
    ensures Placed(heads, waitq, reapq + [t], at[t := Reaping])
  {
    hide NoDup;
    var at' := at[t := Reaping];
    ListedAfterJoin(reapq, at, Reaping, t, Reaping);
    forall i ensures HeadOk(heads, at', i) {
      assert HeadOk(heads, at, i);
      if 0 <= i < |heads| {
        ListedAfterJoin(heads[i], at, Ready(i), t, Reaping);
      }
    }
    forall q ensures QueueOk(waitq, at', q) {
      assert QueueOk(waitq, at, q);
      if q in waitq {
        ListedAfterJoin(waitq[q], at, Waiting(q), t, Reaping);
      }
    }
    forall x ensures PlaceOk(waitq, at', x) {
      assert PlaceOk(waitq, at, x);
    }
  }

  /** The first thread to be reaped is taken out. */
  lemma LeaveReaper(heads: Heads, waitq: Queues, reapq: seq<Tid>, at: Places)
    requires Placed(heads, waitq, reapq, at) && reapq != []
    ensures reapq[0] in at && at[reapq[0]] == Reaping
    ensures Placed(heads, waitq, reapq[1..], at - {reapq[0]})
  {
    hide NoDup;
    var t := reapq[0];
    var at' := at - {t};
    ListedAfterLeave(reapq, at, Reaping, t);
    forall i ensures HeadOk(heads, at', i) {
      assert HeadOk(heads, at, i);
      if 0 <= i < |heads| {
        ListedAfterLeave(heads[i], at, Ready(i), t);
      }
    }
    forall q ensures QueueOk(waitq, at', q) {
      assert QueueOk(waitq, at, q);
      if q in waitq {
        ListedAfterLeave(waitq[q], at, Waiting(q), t);
      }
    }
    forall x ensures PlaceOk(waitq, at', x) {
      assert PlaceOk(waitq, at, x);
    }
  }

  lemma Turned(heads: Heads, waitq: Queues, reapq: seq<Tid>, at: Places)
    requires Placed(heads, waitq, reapq, at)
    ensures Placed(heads[RR_PRIORITY := Rotated(heads[RR_PRIORITY])], waitq, reapq, at)
  {
    var q := heads[RR_PRIORITY];
    var heads' := heads[RR_PRIORITY := Rotated(q)];
    assert HeadOk(heads, at, RR_PRIORITY);
    if q != [] {
      assert q == [q[0]] + q[1..];
      NoDupAppend([q[0]], q[1..]);
      NoDupAppend(q[1..], [q[0]]);
    }
    forall i ensures HeadOk(heads', at, i) {
      assert HeadOk(heads, at, i);
    }
  }

  /** The thread the scheduler picks is ready. */
  lemma FirstIsReady(heads: Heads, waitq: Queues, reapq: seq<Tid>, at: Places, t: Tid)
    requires Placed(heads, waitq, reapq, at) && IsFirst(heads, t)
    ensures t in at && at[t].Ready?
  {
    var p :| 0 <= p < |heads| && heads[p] != [] && heads[p][0] == t && forall q | p < q < |heads| :: heads[q] == [];
    assert HeadOk(heads, at, p);
  }
}
