/** Threads, wait queues, mutexes, the scheduler and the reaper (kern/thread.c, kern/wqueue.c,
    kern/mutex.c, kern/sched.c, kern/reaper.c) on one CPU.  A method is what the current thread
    does with interrupts off up to the next switch; where a call goes on after a switch, its
    thread's `pc` says how. */
module KernThreads {
  import opened KernList
  import opened KernPlaces
  import opened KernReady
  import opened Options

  const REAPER_PRIO: nat := 7

  datatype Status = Running | Sleeping | Exiting | Dead

  datatype Reason = Wakeup | Destroy

  /** Where a thread goes on when it is switched to. */
  datatype Pc =
    | User                                          // in code of its own, interrupts on
    | Woken(n: int)                                 // in wque_wait_on_queue
    | InHold(m: int)                                // in mutex_hold, after its wait
    | InRelease(m: int, waits: Option<int>)         // in mutex_release, after its wakeup switched away
    | Rehold(n: int, m: int)                        // in wque_wait_on_event_with_mutex, after its wait
    | Reaper                                        // in the loop of the reaper thread
    | Gone                                          // in thr_exit_thread, after its last switch

  function StatusOf(place: Place): Status {
    match place
    case Ready(_) => Running
    case Waiting(_) => Sleeping
    case Reaping => Dead
  }

  /** What a thread at `place` is in the middle of. */
  ghost predicate PcFits(t: Tid, place: Place, pc: Pc, reaper: Tid) {
    && (pc.Reaper? <==> t == reaper)
    && match place
       case Ready(_) => !pc.Gone?
       case Waiting(OfMutex(m)) => pc == InHold(m)
       case Waiting(OfEvent(n)) =>
         pc == Woken(n) || (pc.Rehold? && pc.n == n) || (pc.InRelease? && pc.waits == Some(n))
       case Waiting(OfReaper) => t == reaper
       case Reaping => pc.Gone?
  }

  /** From `before` to `after`, some threads waiting in `w` have become ready and nobody else moved. */
  ghost predicate Moving(before: Places, after: Places, prio: map<Tid, nat>, w: Queue) {
    && after.Keys == before.Keys
    && forall t | t in after ::
         after[t] == before[t] || (before[t] == Waiting(w) && t in prio && after[t] == Ready(prio[t]))
  }

  /** All of them have. */
  ghost predicate Woke(before: Places, after: Places, prio: map<Tid, nat>, w: Queue) {
    Moving(before, after, prio, w) && forall t | t in after :: after[t] != Waiting(w)
  }

  lemma WokeKeeps(before: Places, after: Places, prio: map<Tid, nat>, w: Queue, t: Tid)
    requires Woke(before, after, prio, w)
    ensures after.Keys == before.Keys && (t in before && before[t].Ready? ==> after[t] == before[t])
  {
  }

  /** The mutex of an unfinished call exists. */
  ghost predicate PcKnown(pc: Pc, mutexes: set<int>) {
    pc.InHold? || pc.InRelease? || pc.Rehold? ==> pc.m in mutexes
  }

  /** The tables kept per thread. */
  datatype Tables = Tables(status: map<Tid, Status>, prio: map<Tid, nat>, pc: map<Tid, Pc>, mutexes: set<int>)

  /** Thread `t`, if alive, has the status of its place, a priority and a fitting `pc`, and is no
      thread that was destroyed. */
  ghost predicate ThreadOk(x: Tables, at: Places, destroyed: set<Tid>, idle: Tid, reaper: Tid, t: Tid) {
    && (t in at <==> t in x.status) && (t in at <==> t in x.pc)
    && (t in at ==>
      && t in x.prio && t != idle && t !in destroyed
      && x.prio[t] < PRIORITY_MAX && x.status[t] == StatusOf(at[t])
      && (at[t].Ready? ==> at[t].prio == x.prio[t])
      && PcFits(t, at[t], x.pc[t], reaper) && PcKnown(x.pc[t], x.mutexes))
  }

  ghost predicate AllThreadsOk(x: Tables, at: Places, destroyed: set<Tid>, idle: Tid, reaper: Tid) {
    forall t {:trigger ThreadOk(x, at, destroyed, idle, reaper, t)} :: ThreadOk(x, at, destroyed, idle, reaper, t)
  }

  /** A thread is entered, or moves, with all its tables. */
  lemma ThreadSet(x: Tables, at: Places, destroyed: set<Tid>, idle: Tid, reaper: Tid, t: Tid, place: Place,
    p: nat, k: Pc)
    requires AllThreadsOk(x, at, destroyed, idle, reaper) && t != idle && t !in destroyed
    requires p < PRIORITY_MAX && (place.Ready? ==> place.prio == p) && PcFits(t, place, k, reaper)
    requires PcKnown(k, x.mutexes)
    ensures AllThreadsOk(Tables(x.status[t := StatusOf(place)], x.prio[t := p], x.pc[t := k], x.mutexes),
                         at[t := place], destroyed, idle, reaper)
  {
    hide PcFits, PcKnown, StatusOf;
    var x' := Tables(x.status[t := StatusOf(place)], x.prio[t := p], x.pc[t := k], x.mutexes);
    var at' := at[t := place];
    forall u ensures ThreadOk(x', at', destroyed, idle, reaper, u) {
      assert ThreadOk(x, at, destroyed, idle, reaper, u);
    }
  }

  /** A thread is destroyed. */
  lemma ThreadUnset(x: Tables, at: Places, destroyed: set<Tid>, idle: Tid, reaper: Tid, t: Tid)
    requires AllThreadsOk(x, at, destroyed, idle, reaper)
    ensures AllThreadsOk(Tables(x.status - {t}, x.prio - {t}, x.pc - {t}, x.mutexes),
                         at - {t}, destroyed + {t}, idle, reaper)
  {
    hide PcFits, PcKnown, StatusOf;
    var x' := Tables(x.status - {t}, x.prio - {t}, x.pc - {t}, x.mutexes);
    forall u ensures ThreadOk(x', at - {t}, destroyed + {t}, idle, reaper, u) {
      assert ThreadOk(x, at, destroyed, idle, reaper, u);
    }
  }

  /** The fields of the mutexes, and the reasons of all wait queues. */
  datatype Locks =
    Locks(count: map<int, int>, owner: map<int, Option<Tid>>, holder: map<int, Option<Tid>>, reason: map<Queue, Reason>)

  /** A mutex is free or held by one thread; while it is free, nobody waits for it. */
  ghost predicate MutexOk(y: Locks, waitq: Queues, m: int) {
    m in y.count ==>
      && m in y.owner && m in y.holder && OfMutex(m) in waitq && OfMutex(m) in y.reason
      && y.count[m] == (if y.holder[m].Some? then 1 else 0)
      && (y.count[m] == 0 ==> waitq[OfMutex(m)] == [])
  }

  ghost predicate AllMutexesOk(y: Locks, waitq: Queues) {
    forall m {:trigger MutexOk(y, waitq, m)} :: MutexOk(y, waitq, m)
  }

  /** Queue `q` changes, which is not the queue of a free mutex, and any reason may. */
  lemma MutexesAfterQueue(y: Locks, waitq: Queues, q: Queue, s: seq<Tid>, reason: map<Queue, Reason>)
    requires AllMutexesOk(y, waitq) && y.reason.Keys <= reason.Keys
    requires q.OfMutex? && q.m in y.count ==> y.count[q.m] != 0
    ensures AllMutexesOk(y.(reason := reason), waitq[q := s])
  {
    var y', waitq' := y.(reason := reason), waitq[q := s];
    forall m ensures MutexOk(y', waitq', m) {
      assert MutexOk(y, waitq, m);
    }
  }

  lemma MutexTaken(y: Locks, waitq: Queues, m: int, t: Tid)
    requires AllMutexesOk(y, waitq) && m in y.count && y.count[m] == 0
    ensures m in y.holder && y.holder[m] == None
    ensures AllMutexesOk(Locks(y.count[m := 1], y.owner[m := Some(t)], y.holder[m := Some(t)], y.reason), waitq)
  {
    assert MutexOk(y, waitq, m);
    var y' := Locks(y.count[m := 1], y.owner[m := Some(t)], y.holder[m := Some(t)], y.reason);
    forall i ensures MutexOk(y', waitq, i) {
      assert MutexOk(y, waitq, i);
    }
  }

  lemma MutexFreed(y: Locks, waitq: Queues, m: int, reason: map<Queue, Reason>)
    requires AllMutexesOk(y, waitq) && m in y.count && y.reason.Keys <= reason.Keys
    ensures AllMutexesOk(Locks(y.count[m := 0], y.owner, y.holder[m := None], reason), waitq[OfMutex(m) := []])
  {
    var y', waitq' := Locks(y.count[m := 0], y.owner, y.holder[m := None], reason), waitq[OfMutex(m) := []];
    forall i ensures MutexOk(y', waitq', i) {
      assert MutexOk(y, waitq, i);
    }
  }

  lemma OwnerCleared(y: Locks, waitq: Queues, m: int)
    requires AllMutexesOk(y, waitq)
    ensures AllMutexesOk(y.(owner := y.owner[m := None]), waitq)
  {
    var y' := y.(owner := y.owner[m := None]);
    forall i ensures MutexOk(y', waitq, i) {
      assert MutexOk(y, waitq, i);
    }
  }

  /** The owner of mutex `m` is nobody, its holder, or, while it is free, a thread that has not come to
      the end of its mutex_release. */
  ghost predicate OwnerOk(owner: map<int, Option<Tid>>, holder: map<int, Option<Tid>>, pc: map<Tid, Pc>, m: int) {
    m in owner && owner[m].Some? ==>
      var t := owner[m].value;
      m in holder && (holder[m] == Some(t) || (holder[m] == None && t in pc && pc[t].InRelease? && pc[t].m == m))
  }

  ghost predicate AllOwnersOk(owner: map<int, Option<Tid>>, holder: map<int, Option<Tid>>, pc: map<Tid, Pc>) {
    forall m {:trigger OwnerOk(owner, holder, pc, m)} :: OwnerOk(owner, holder, pc, m)
  }

  /** Thread `t` is owner of no mutex by an unfinished mutex_release. */
  ghost predicate Settled(owner: map<int, Option<Tid>>, pc: map<Tid, Pc>, t: Tid) {
    t in pc && pc[t].InRelease? && pc[t].m in owner ==> owner[pc[t].m] != Some(t)
  }

  lemma OwnersAfterPc(owner: map<int, Option<Tid>>, holder: map<int, Option<Tid>>, pc: map<Tid, Pc>, t: Tid, k: Pc)
    requires AllOwnersOk(owner, holder, pc) && Settled(owner, pc, t)
    ensures AllOwnersOk(owner, holder, pc[t := k]) && AllOwnersOk(owner, holder, pc - {t})
  {
    var set', cut := pc[t := k], pc - {t};
    forall m ensures OwnerOk(owner, holder, set', m) && OwnerOk(owner, holder, cut, m) {
      assert OwnerOk(owner, holder, pc, m);
    }
  }

  lemma OwnersAfterHold(owner: map<int, Option<Tid>>, holder: map<int, Option<Tid>>, pc: map<Tid, Pc>, m: int, t: Tid)
    requires AllOwnersOk(owner, holder, pc)
    ensures AllOwnersOk(owner[m := Some(t)], holder[m := Some(t)], pc)
  {
    var owner', holder' := owner[m := Some(t)], holder[m := Some(t)];
    forall i ensures OwnerOk(owner', holder', pc, i) {
      assert OwnerOk(owner, holder, pc, i);
    }
  }

  lemma OwnersAfterRelease(owner: map<int, Option<Tid>>, holder: map<int, Option<Tid>>, pc: map<Tid, Pc>,
    m: int, t: Tid, k: Pc)
    requires AllOwnersOk(owner, holder, pc) && m in holder && holder[m] == Some(t) && Settled(owner, pc, t)
    ensures k.InRelease? && k.m == m ==> AllOwnersOk(owner, holder[m := None], pc[t := k])
    ensures AllOwnersOk(owner[m := None], holder[m := None], pc[t := k])
    ensures AllOwnersOk(owner[m := None], holder[m := None], pc)
  {
    var owner', holder', pc' := owner[m := None], holder[m := None], pc[t := k];
    forall i
      ensures k.InRelease? && k.m == m ==> OwnerOk(owner, holder', pc', i)
      ensures OwnerOk(owner', holder', pc', i) && OwnerOk(owner', holder', pc, i)
    {
      assert OwnerOk(owner, holder, pc, i);
    }
  }

  lemma OwnersAfterClear(owner: map<int, Option<Tid>>, holder: map<int, Option<Tid>>, pc: map<Tid, Pc>, m: int)
    requires AllOwnersOk(owner, holder, pc)
    ensures AllOwnersOk(owner[m := None], holder, pc)
  {
    var owner' := owner[m := None];
    forall i ensures OwnerOk(owner', holder, pc, i) {
      assert OwnerOk(owner, holder, pc, i);
    }
  }

  /** Where a thread goes on after the end of mutex_release. */
  function AfterRelease(pc: Pc): Pc
    requires pc.InRelease?
  {
    match pc.waits
    case None => User
    case Some(n) => Rehold(n, pc.m)
  }

  class Kernel {
    const idle: Tid
    const reaper: Tid
    const rdq: ReadyQueue
    var current: Tid
    var status: map<Tid, Status>
    var prio: map<Tid, nat>
    var pc: map<Tid, Pc>
    var waitq: Queues
    var reason: map<Queue, Reason>
    var reapq: seq<Tid>
    var count: map<int, int>
    var owner: map<int, Option<Tid>>

    /** The thread between its successful mutex_hold and its mutex_release, as callers know it. */
    var holder: map<int, Option<Tid>>

    ghost var at: Places
    ghost var destroyed: set<Tid>

    // ---- the invariant ----------------------------------------------------------------------

    ghost predicate QueuesOk()
      reads this`waitq, this`reapq, this`at, rdq
    {
      rdq.Valid() && Placed(rdq.heads, waitq, reapq, at)
    }

    ghost predicate ThreadsOk()
      reads this`status, this`prio, this`pc, this`at, this`destroyed, this`count
    {
      AllThreadsOk(Tables(status, prio, pc, count.Keys), at, destroyed, idle, reaper)
    }

    lemma ThreadFacts(t: Tid)
      requires ThreadsOk() && t in at
      ensures t in status && t in prio && t in pc && t != idle && t !in destroyed
      ensures prio[t] < PRIORITY_MAX && status[t] == StatusOf(at[t]) && (at[t].Ready? ==> at[t].prio == prio[t])
      ensures PcFits(t, at[t], pc[t], reaper) && PcKnown(pc[t], count.Keys)
    {
      assert ThreadOk(Tables(status, prio, pc, count.Keys), at, destroyed, idle, reaper, t);
    }

    /** The reaper is alive, and does not sleep while there is something to reap. */
    ghost predicate ReaperOk()
      reads this`at, this`waitq, this`reapq
    {
      && reaper in at && !at[reaper].Reaping? && reaper != idle && OfReaper in waitq
      && (at[reaper].Waiting? ==> reapq == [])
    }

    ghost predicate MutexesOk()
      reads this`count, this`owner, this`holder, this`waitq, this`reason
    {
      AllMutexesOk(Locks(count, owner, holder, reason), waitq)
    }

    lemma MutexFacts(m: int)
      requires MutexesOk() && m in count
      ensures m in owner && m in holder && OfMutex(m) in waitq && OfMutex(m) in reason
      ensures count[m] == (if holder[m].Some? then 1 else 0) && (count[m] == 0 ==> waitq[OfMutex(m)] == [])
    {
      assert MutexOk(Locks(count, owner, holder, reason), waitq, m);
    }

    ghost predicate OwnersOk()
      reads this`owner, this`holder, this`pc
    {
      AllOwnersOk(owner, holder, pc)
    }

    /** What holds whenever a thread runs code of its own or is about to go on with a call. */
    ghost predicate Inv()
      reads this, rdq
    {
      && QueuesOk() && ThreadsOk() && MutexesOk() && OwnersOk() && ReaperOk()
      && (current == idle || (current in at && at[current].Ready?))
    }

    /** The state after reaper_init_thread: the idle thread runs, the reaper is ready, and the
        mutexes and events, all initialised, have empty queues. */
    constructor (idle: Tid, reaper: Tid, queues: Queues, reasons: map<Queue, Reason>,
                 counts: map<int, int>, nobody: map<int, Option<Tid>>)
      requires idle != reaper && OfReaper in queues && queues.Keys == reasons.Keys && counts.Keys == nobody.Keys
      requires forall q | q in queues :: queues[q] == []
      requires forall m | m in counts :: OfMutex(m) in queues && counts[m] == 0 && nobody[m] == None
      ensures Inv() && current == idle && this.idle == idle && this.reaper == reaper && fresh(rdq)
      ensures at == map[reaper := Ready(REAPER_PRIO)] && destroyed == {} && waitq == queues && reason == reasons
      ensures count == counts && owner == nobody && holder == nobody
    {
      this.idle, this.reaper, current := idle, reaper, idle;
      waitq, reason, reapq, count, owner, holder := queues, reasons, [], counts, nobody, nobody;
      status, prio, pc := map[reaper := Running], map[reaper := REAPER_PRIO], map[reaper := Reaper];
      at, destroyed := map[], {};
      rdq := new ReadyQueue();
      new;
      hide rdq.Valid, Placed, AllThreadsOk, AllMutexesOk, AllOwnersOk;
      StartTables(idle, reaper, counts.Keys);
      StartLocks(queues, reasons, counts, nobody, pc);
      EmptyPlaced(rdq.heads, waitq);
      JoinReady(rdq.heads, waitq, reapq, at, reaper, REAPER_PRIO);
      rdq.Add(reaper, REAPER_PRIO);
      at := map[reaper := Ready(REAPER_PRIO)];
    }

    static lemma StartTables(idle: Tid, reaper: Tid, mutexes: set<int>)
      requires idle != reaper
      ensures AllThreadsOk(Tables(map[reaper := Running], map[reaper := REAPER_PRIO], map[reaper := Reaper], mutexes),
                           map[reaper := Ready(REAPER_PRIO)], {}, idle, reaper)
    {
    }

    static lemma StartLocks(queues: Queues, reasons: map<Queue, Reason>, counts: map<int, int>,
      nobody: map<int, Option<Tid>>, pc: map<Tid, Pc>)
      requires queues.Keys == reasons.Keys && counts.Keys == nobody.Keys && forall q | q in queues :: queues[q] == []
      requires forall m | m in counts :: OfMutex(m) in queues && counts[m] == 0 && nobody[m] == None
      ensures AllMutexesOk(Locks(counts, nobody, nobody, reasons), queues) && AllOwnersOk(nobody, nobody, pc)
    {
    }

    static lemma EmptyPlaced(heads: Heads, waitq: Queues)
      requires |heads| == PRIORITY_MAX && (forall p | 0 <= p < |heads| :: heads[p] == [])
      requires forall q | q in waitq :: waitq[q] == []
      ensures Placed(heads, waitq, [], map[])
    {
    }

    /** The threads ever created: alive or destroyed. */
    ghost function Known(): set<Tid>
      reads this`at, this`destroyed
    {
      at.Keys + destroyed
    }

    // ---- scheduling -------------------------------------------------------------------------

    /** `current` is the first of the highest priority, or idle if nobody is ready. */
    ghost predicate Dispatched()
      reads this, rdq
    {
      IsFirst(rdq.heads, current) || (current == idle && forall p | 0 <= p < |rdq.heads| :: rdq.heads[p] == [])
    }

    /** sched_schedule, with select_next_thread */
    method Schedule()
      requires QueuesOk()
      modifies this`current
      ensures QueuesOk() && Dispatched() && (current == idle || (current in at && at[current].Ready?))
    {
      hide rdq.Valid, Placed, ThreadsOk, MutexesOk;
      var next := rdq.FindRunnable();
      if next.Some? {
        FirstIsReady(rdq.heads, waitq, reapq, at, next.value);
        current := next.value;
      } else {
        current := idle;
      }
    }

    // ---- parts of the calls -----------------------------------------------------------------

    /** rdq_remove_thread: the current thread is in no queue. */
    method Dequeue()
      requires QueuesOk() && ThreadsOk() && current in at && at[current].Ready?
      modifies rdq, this`at
      ensures QueuesOk() && at == old(at) - {current}
    {
      hide rdq.Valid, Placed, AllThreadsOk, PcFits, PcKnown, StatusOf;
      ThreadFacts(current);
      LeaveReady(rdq.heads, waitq, reapq, at, current);
      rdq.Remove(current, prio[current]);
      at := at - {current};
    }

    /** The tables of the current thread, which goes to `place` and will go on at `k`. */
    method Retable(ghost places: Places, place: Place, k: Pc)
      requires AllThreadsOk(Tables(status, prio, pc, count.Keys), places, destroyed, idle, reaper)
      requires current in places && !place.Ready? && PcFits(current, place, k, reaper) && PcKnown(k, count.Keys)
      modifies this`status, this`pc
      ensures AllThreadsOk(Tables(status, prio, pc, count.Keys), places[current := place], destroyed, idle, reaper)
      ensures pc == old(pc)[current := k] && status == old(status)[current := StatusOf(place)]
    {
      hide PcFits, PcKnown, StatusOf;
      assert ThreadOk(Tables(status, prio, pc, count.Keys), places, destroyed, idle, reaper, current);
      ThreadSet(Tables(status, prio, pc, count.Keys), places, destroyed, idle, reaper, current, place,
        prio[current], k);
      assert prio == prio[current := prio[current]];
      status := status[current := StatusOf(place)];
      pc := pc[current := k];
    }

    /** rdq_remove_thread, wque_add_thread and the status of a thread that waits: the current thread
        moves from the ready queue to wait queue `w`; it will go on at `k`. */
    method Sleep(w: Queue, k: Pc)
      requires QueuesOk() && ThreadsOk() && w in waitq && current in at && at[current].Ready?
      requires PcFits(current, Waiting(w), k, reaper) && PcKnown(k, count.Keys)
      modifies rdq, this`status, this`pc, this`waitq, this`at
      ensures QueuesOk() && ThreadsOk()
      ensures at == old(at)[current := Waiting(w)] && waitq == old(waitq)[w := old(waitq)[w] + [current]]
      ensures pc == old(pc)[current := k]
    {
      hide rdq.Valid, Placed, PcFits, PcKnown, AllThreadsOk;
      ghost var places := at;
      Dequeue();
      Retable(places, Waiting(w), k);
      JoinQueue(rdq.heads, waitq, reapq, at, current, w);
      waitq := waitq[w := waitq[w] + [current]];
      at := at[current := Waiting(w)];
      assert at == old(at)[current := Waiting(w)];
    }

    /** The loop of wque_wakeup: the threads waiting in `w` become ready, in their order. */
    method Drain(w: Queue)
      requires QueuesOk() && ThreadsOk() && w in waitq
      modifies rdq, this`status, this`waitq, this`at
      ensures QueuesOk() && ThreadsOk()
      ensures waitq == old(waitq)[w := []] && Woke(old(at), at, prio, w)
    {
      hide rdq.Valid, Placed, PcFits, ThreadsOk, MutexesOk;
      while waitq[w] != []
        invariant QueuesOk() && ThreadsOk() && w in waitq && waitq == old(waitq)[w := waitq[w]]
        invariant Moving(old(at), at, prio, w)
        decreases |waitq[w]|
      {
        WakeFirst(w);
      }
      NobodyLeft(w);
    }

    /** One round of that loop. */
    method WakeFirst(w: Queue)
      requires QueuesOk() && ThreadsOk() && w in waitq && waitq[w] != []
      modifies rdq, this`status, this`waitq, this`at
      ensures QueuesOk() && ThreadsOk() && waitq == old(waitq)[w := old(waitq)[w][1..]]
      ensures var t := old(waitq)[w][0];
              t in old(at) && old(at)[t] == Waiting(w) && t in prio && at == old(at)[t := Ready(prio[t])]
    {
      hide rdq.Valid, Placed, AllThreadsOk, MutexesOk;
      var t := waitq[w][0];
      LeaveQueue(rdq.heads, waitq, reapq, at, w);
      ThreadFacts(t);
      ThreadSet(Tables(status, prio, pc, count.Keys), at, destroyed, idle, reaper, t, Ready(prio[t]), prio[t], pc[t]);
      waitq := waitq[w := waitq[w][1..]];
      at := at - {t};
      status := status[t := Running];
      JoinReady(rdq.heads, waitq, reapq, at, t, prio[t]);
      rdq.Add(t, prio[t]);
      at := at[t := Ready(prio[t])];
      assert at == old(at)[t := Ready(prio[t])] && prio == prio[t := prio[t]] && pc == pc[t := pc[t]];
    }

    lemma NobodyLeft(w: Queue)
      requires QueuesOk() && w in waitq && waitq[w] == []
      ensures forall t | t in at :: at[t] != Waiting(w)
    {
      assert QueueOk(waitq, at, w);
    }

    /** The current thread goes on at `k`. */
    method GoOn(k: Pc)
      requires Inv() && current in at && current != idle && !k.Gone? && (k.Reaper? <==> current == reaper)
      requires PcKnown(k, count.Keys)
      requires Settled(owner, pc, current)
      modifies this`pc
      ensures Inv() && pc == old(pc)[current := k]
    {
      hide QueuesOk, PcKnown, ThreadsOk, MutexesOk, AllOwnersOk, Settled;
      ThreadFacts(current);
      OwnersAfterPc(owner, holder, pc, current, k);
      SetPc(k);
    }

    /** The caller runs code of its own: it is no call that goes on, and not the reaper. */
    ghost predicate InUser()
      reads this
    {
      current in at && current in pc && pc[current].User?
    }

    /** A caller that is not the reaper goes to sleep; a mutex it waits for is held. */
    method Block(w: Queue, k: Pc)
      requires Inv() && current in at && current != reaper && w in waitq
      requires PcFits(current, Waiting(w), k, reaper) && PcKnown(k, count.Keys)
      requires w.OfMutex? && w.m in count ==> count[w.m] != 0
      modifies rdq, this`status, this`pc, this`waitq, this`at
      ensures QueuesOk() && ThreadsOk() && MutexesOk() && ReaperOk()
      ensures at == old(at)[current := Waiting(w)] && waitq == old(waitq)[w := old(waitq)[w] + [current]]
      ensures pc == old(pc)[current := k]
    {
      hide QueuesOk, PcFits, StatusOf, ThreadsOk, AllMutexesOk;
      ThreadFacts(current);
      MutexesAfterQueue(Locks(count, owner, holder, reason), waitq, w, waitq[w] + [current], reason);
      Sleep(w, k);
    }

    // ---- waiting and waking -----------------------------------------------------------------

    /** wque_wait_on_queue, up to the switch */
    method WaitOnQueue(n: int)
      requires Inv() && InUser() && OfEvent(n) in waitq
      modifies this`current, this`status, this`pc, this`waitq, this`at, rdq
      ensures Inv() && Dispatched()
      ensures at == old(at)[old(current) := Waiting(OfEvent(n))] && count == old(count) && holder == old(holder)
      ensures Known() == old(Known()) && destroyed == old(destroyed)
      ensures prio == old(prio) && reason == old(reason)
      ensures pc == old(pc)[old(current) := Woken(n)]
      ensures waitq == old(waitq)[OfEvent(n) := old(waitq)[OfEvent(n)] + [old(current)]]
    {
      hide QueuesOk, Dispatched, StatusOf, ThreadsOk, MutexesOk, AllOwnersOk;
      ThreadFacts(current);
      OwnersAfterPc(owner, holder, pc, current, Woken(n));
      Block(OfEvent(n), Woken(n));
      Schedule();
    }

    /** wque_wakeup on an event, by a thread or an interrupt */
    method WakeupEvent(n: int, r: Reason)
      requires Inv() && (current == idle || InUser()) && OfEvent(n) in waitq && OfEvent(n) in reason
      modifies this`current, this`status, this`waitq, this`at, this`reason, rdq
      ensures Inv() && Woke(old(at), at, prio, OfEvent(n)) && waitq == old(waitq)[OfEvent(n) := []]
      ensures old(waitq)[OfEvent(n)] != [] ==> Dispatched() && reason == old(reason)[OfEvent(n) := r]
      ensures old(waitq)[OfEvent(n)] == [] ==> unchanged(this)
      ensures Known() == old(Known()) && destroyed == old(destroyed)
    {
      hide QueuesOk, Dispatched, StatusOf, ThreadsOk, AllMutexesOk;
      if waitq[OfEvent(n)] == [] {
        NobodyLeft(OfEvent(n));
        return;
      }
      MutexesAfterQueue(Locks(count, owner, holder, reason), waitq, OfEvent(n), [], reason[OfEvent(n) := r]);
      Drain(OfEvent(n));
      reason := reason[OfEvent(n) := r];
      Schedule();
    }

    function HolderOf(m: int): Option<Tid>
      reads this`holder
    {
      if m in holder then holder[m] else None
    }

    // ---- mutexes ----------------------------------------------------------------------------

    /** mutex_hold past its loop */
    method Acquire(m: int)
      requires Inv() && current in at && current != reaper && current != idle && m in count && count[m] == 0
      requires current in pc && !pc[current].InRelease?
      modifies this`count, this`owner, this`holder, this`pc
      ensures Inv() && old(HolderOf(m)) == None && holder == old(holder)[m := Some(current)]
      ensures count == old(count)[m := 1] && InUser() && owner == old(owner)[m := Some(current)]
      ensures pc == old(pc)[current := User]
    {
      hide QueuesOk, PcFits, AllThreadsOk, AllMutexesOk, AllOwnersOk;
      MutexTaken(Locks(count, owner, holder, reason), waitq, m, current);
      OwnersAfterHold(owner, holder, pc, m, current);
      count := count[m := count[m] + 1];
      owner := owner[m := Some(current)];
      holder := holder[m := Some(current)];
      assert count.Keys == old(count).Keys;
      GoOn(User);
    }

    /** One round of the loop of mutex_hold: the mutex, or a place in its queue. */
    method Hold(m: int)
      requires Inv() && current in at && current != reaper && current != idle && m in count
      requires current in pc && !pc[current].InRelease?
      modifies this`current, this`status, this`pc, this`waitq, this`at, this`count, this`owner, this`holder, rdq
      ensures Inv() && prio == old(prio) && reason == old(reason)
      ensures old(count)[m] == 0 ==> current == old(current) && InUser() && at == old(at) && waitq == old(waitq)
      ensures OfMutex(m) in old(waitq)
      ensures old(count)[m] != 0 ==> waitq == old(waitq)[OfMutex(m) := old(waitq)[OfMutex(m)] + [old(current)]]
      ensures count == old(count)[m := 1]
      ensures old(count)[m] == 0 ==> old(HolderOf(m)) == None && holder == old(holder)[m := Some(current)]
      ensures old(count)[m] != 0 ==> at == old(at)[old(current) := Waiting(OfMutex(m))] && holder == old(holder)
      ensures old(count)[m] != 0 ==> Dispatched()
      ensures Known() == old(Known()) && destroyed == old(destroyed)
      ensures pc == old(pc)[old(current) := if old(count)[m] == 0 then User else InHold(m)]
    {
      hide QueuesOk, Dispatched, StatusOf, ThreadsOk, MutexesOk, AllOwnersOk;
      ThreadFacts(current);
      MutexFacts(m);
      OwnersAfterPc(owner, holder, pc, current, InHold(m));
      if count[m] > 0 {
        Block(OfMutex(m), InHold(m));
        Schedule();
      } else {
        Acquire(m);
      }
    }

    /** mutex_try_hold: 0, or EAGAIN when somebody has it */
    method TryHold(m: int) returns (ok: bool)
      requires Inv() && InUser() && m in count
      modifies this`count, this`owner, this`holder, this`pc
      ensures Inv() && InUser() && (ok <==> old(HolderOf(m)) == None)
      ensures holder == if ok then old(holder)[m := Some(current)] else old(holder)
    {
      hide QueuesOk, Dispatched, StatusOf, ThreadsOk, MutexesOk, AllOwnersOk;
      ThreadFacts(current);
      MutexFacts(m);
      ok := !(count[m] > 0);
      if ok {
        Acquire(m);
      }
    }

    /** The first half of mutex_release, whoever holds the mutex. */
    method CountDown(m: int) returns (woke: bool)
      requires QueuesOk() && ThreadsOk() && ReaperOk() && m in count && OfMutex(m) in waitq && OfMutex(m) in reason
      modifies rdq, this`count, this`waitq, this`at, this`status, this`reason
      ensures QueuesOk() && ThreadsOk() && ReaperOk()
      ensures count == old(count)[m := old(count)[m] - 1] && waitq == old(waitq)[OfMutex(m) := []]
      ensures Woke(old(at), at, prio, OfMutex(m)) && (woke <==> old(waitq)[OfMutex(m)] != [])
      ensures reason == if woke then old(reason)[OfMutex(m) := Wakeup] else old(reason)
    {
      hide rdq.Valid, Placed, AllThreadsOk;
      count := count[m := count[m] - 1];
      assert count.Keys == old(count).Keys;
      woke := waitq[OfMutex(m)] != [];
      if woke {
        Drain(OfMutex(m));
        reason := reason[OfMutex(m) := Wakeup];
      } else {
        NobodyLeft(OfMutex(m));
        assert waitq == waitq[OfMutex(m) := []];
      }
    }

    /** mutex_release up to its wakeup: the mutex is free and its waiters are ready. */
    method Unlock(m: int) returns (woke: bool)
      requires QueuesOk() && ThreadsOk() && MutexesOk() && ReaperOk() && m in count && m in holder && holder[m].Some?
      modifies rdq, this`count, this`holder, this`waitq, this`at, this`status, this`reason
      ensures QueuesOk() && ThreadsOk() && MutexesOk() && ReaperOk()
      ensures count == old(count)[m := 0] && holder == old(holder)[m := None]
      ensures OfMutex(m) in old(waitq) && waitq == old(waitq)[OfMutex(m) := []]
      ensures Woke(old(at), at, prio, OfMutex(m)) && (woke <==> old(waitq)[OfMutex(m)] != [])
      ensures reason == if woke then old(reason)[OfMutex(m) := Wakeup] else old(reason)
    {
      hide rdq.Valid, Placed, AllThreadsOk, AllMutexesOk;
      MutexFacts(m);
      MutexFreed(Locks(count, owner, holder, reason), waitq, m, reason);
      MutexFreed(Locks(count, owner, holder, reason), waitq, m, reason[OfMutex(m) := Wakeup]);
      woke := CountDown(m);
      holder := holder[m := None];
    }

    /** The last statement of mutex_release: whoever may hold the mutex by now, `owner` is cleared. */
    method ClearOwner(m: int)
      requires QueuesOk() && ThreadsOk() && MutexesOk() && ReaperOk() && m in count
      modifies this`owner
      ensures QueuesOk() && ThreadsOk() && MutexesOk() && ReaperOk() && owner == old(owner)[m := None]
    {
      hide AllMutexesOk;
      OwnerCleared(Locks(count, owner, holder, reason), waitq, m);
      owner := owner[m := None];
    }

    /** mutex_release */
    method Release(m: int)
      requires Inv() && InUser() && m in count && HolderOf(m) == Some(current)
      modifies this`current, this`status, this`pc, this`waitq, this`at, this`reason, rdq
      modifies this`count, this`owner, this`holder
      ensures Inv() && holder == old(holder)[m := None] && Woke(old(at), at, prio, OfMutex(m))
      ensures OfMutex(m) in waitq && waitq[OfMutex(m)] == []
      ensures Known() == old(Known()) && destroyed == old(destroyed)
      ensures OfMutex(m) in old(waitq)
      ensures pc == if old(waitq)[OfMutex(m)] == [] then old(pc) else old(pc)[old(current) := InRelease(m, None)]
      ensures old(waitq)[OfMutex(m)] == [] ==> current == old(current) && owner == old(owner)[m := None]
      ensures old(waitq)[OfMutex(m)] != [] ==> Dispatched() && owner == old(owner)
      ensures old(waitq)[OfMutex(m)] != [] ==> reason == old(reason)[OfMutex(m) := Wakeup]
      ensures prio == old(prio) && count == old(count)[m := 0] && waitq == old(waitq)[OfMutex(m) := []]
    {
      hide QueuesOk, Dispatched, StatusOf, ThreadsOk, MutexesOk, AllOwnersOk, Woke, Moving;
      ThreadFacts(current);
      MutexFacts(m);
      OwnersAfterRelease(owner, holder, pc, m, current, InRelease(m, None));
      var woke := Unlock(m);
      WokeKeeps(old(at), at, prio, OfMutex(m), current);
      if woke {
        SetPc(InRelease(m, None));
        Schedule();
      } else {
        ClearOwner(m);
      }
    }

    /** mutex_release by a thread that does not hold the mutex, as buffer_cache_blk_get makes it after a wait:
        of the invariant exactly the part on mutexes is lost, because the counter no longer tells whether the
        mutex is held. */
    method StrayRelease(m: int)
      requires Inv() && InUser() && m in count && HolderOf(m) != Some(current)
      modifies this`current, this`status, this`pc, this`waitq, this`at, this`reason, rdq
      modifies this`count, this`owner
      ensures QueuesOk() && ThreadsOk() && OwnersOk() && ReaperOk() && !MutexesOk()
      ensures current == idle || (current in at && at[current].Ready?)
      ensures count == old(count)[m := old(count)[m] - 1] && holder == old(holder)
      ensures count[m] == if HolderOf(m).Some? then 0 else -1
      ensures OfMutex(m) in old(waitq) && waitq == old(waitq)[OfMutex(m) := []]
      ensures Woke(old(at), at, prio, OfMutex(m)) && Known() == old(Known()) && destroyed == old(destroyed)
      ensures old(waitq)[OfMutex(m)] == [] ==>
                current == old(current) && pc == old(pc) && owner == old(owner)[m := None]
      ensures old(waitq)[OfMutex(m)] != [] ==>
                Dispatched() && pc == old(pc)[old(current) := InRelease(m, None)] && owner == old(owner)
    {
      hide QueuesOk, Dispatched, StatusOf, ThreadsOk, MutexesOk, AllOwnersOk, Woke, Moving;
      ThreadFacts(current);
      MutexFacts(m);
      OwnersAfterClear(owner, holder, pc, m);
      OwnersAfterPc(owner, holder, pc, current, InRelease(m, None));
      var woke := CountDown(m);
      WokeKeeps(old(at), at, prio, OfMutex(m), current);
      if woke {
        SetPc(InRelease(m, None));
        Schedule();
      } else {
        owner := owner[m := None];
      }
      NotCounted(m);
    }

    /** A counter that does not tell whether the mutex is held. */
    lemma NotCounted(m: int)
      ensures m in count && m in holder && count[m] != (if holder[m].Some? then 1 else 0) ==> !MutexesOk()
    {
      if m in count && m in holder && count[m] != (if holder[m].Some? then 1 else 0) {
        assert !MutexOk(Locks(count, owner, holder, reason), waitq, m);
      }
    }

    lemma NobodyWaits(q: Queue)
      requires QueuesOk() && q in waitq && forall t | t in at :: at[t] != Waiting(q)
      ensures waitq[q] == []
    {
      assert QueueOk(waitq, at, q);
      assert forall t :: t !in waitq[q];
      assert forall i | 0 <= i < |waitq[q]| :: waitq[q][i] in waitq[q];
    }

    /** The counter decides over mutex_try_hold, whoever may hold the mutex. */
    method Take(m: int) returns (ok: bool)
      requires m in count
      modifies this`count, this`owner, this`holder
      ensures ok <==> old(count)[m] <= 0
      ensures ok ==> count == old(count)[m := old(count)[m] + 1] && owner == old(owner)[m := Some(current)]
      ensures holder == if ok then old(holder)[m := Some(current)] else old(holder)
    {
      ok := !(count[m] > 0);
      if ok {
        count := count[m := count[m] + 1];
        owner := owner[m := Some(current)];
        holder := holder[m := Some(current)];
      }
    }

    /** The caller is in the queue of the event before the mutex is free, so that no wakeup under the
        mutex can miss it. */
    method QueueAndUnlock(n: int, m: int) returns (woke: bool)
      requires Inv() && InUser() && m in count && HolderOf(m) == Some(current) && OfEvent(n) in waitq
      modifies rdq, this`count, this`holder, this`waitq, this`at, this`status, this`reason, this`pc
      ensures QueuesOk() && ThreadsOk() && MutexesOk() && ReaperOk() && m in count && holder == old(holder)[m := None]
      ensures OfEvent(n) in waitq && current in waitq[OfEvent(n)] && current in at && at[current] == Waiting(OfEvent(n))
      ensures OfMutex(m) in waitq && waitq[OfMutex(m)] == [] && current != reaper && at.Keys == old(at).Keys
      ensures OfMutex(m) in old(waitq) && (woke <==> old(waitq)[OfMutex(m)] != [])
      ensures pc == old(pc)[current := Rehold(n, m)]
    {
      hide QueuesOk, Dispatched, StatusOf, ThreadsOk, MutexesOk;
      ThreadFacts(current);
      MutexFacts(m);
      Block(OfEvent(n), Rehold(n, m));
      woke := Unlock(m);
    }

    /** wque_wait_on_event_with_mutex, up to the first switch */
    method WaitWithMutex(n: int, m: int)
      requires Inv() && InUser() && m in count && HolderOf(m) == Some(current) && OfEvent(n) in waitq
      modifies this`current, this`status, this`pc, this`waitq, this`at, this`reason, rdq
      modifies this`count, this`owner, this`holder
      ensures Inv() && Dispatched() && holder == old(holder)[m := None]
      ensures OfEvent(n) in waitq && old(current) in waitq[OfEvent(n)]
      ensures old(current) in at && at[old(current)] == Waiting(OfEvent(n))
      ensures OfMutex(m) in waitq && waitq[OfMutex(m)] == []
      ensures Known() == old(Known()) && destroyed == old(destroyed)
      ensures OfMutex(m) in old(waitq)
      ensures old(waitq)[OfMutex(m)] == [] ==> pc == old(pc)[old(current) := Rehold(n, m)]
      ensures old(waitq)[OfMutex(m)] == [] ==> owner == old(owner)[m := None]
      ensures old(waitq)[OfMutex(m)] != [] ==> pc == old(pc)[old(current) := InRelease(m, Some(n))]
    {
      hide QueuesOk, Dispatched, StatusOf, ThreadsOk, MutexesOk, AllOwnersOk;
      MutexFacts(m);
      OwnersAfterRelease(owner, holder, pc, m, current, InRelease(m, Some(n)));
      OwnersAfterRelease(owner, holder, pc, m, current, Rehold(n, m));
      var woke := QueueAndUnlock(n, m);
      if woke {
        SetPc(InRelease(m, Some(n)));
        assert pc == old(pc)[current := InRelease(m, Some(n))];
      } else {
        ClearOwner(m);
      }
      Schedule();
    }

    /** The sleeping current thread will go on at `k` instead. */
    method SetPc(k: Pc)
      requires ThreadsOk() && current in at && PcFits(current, at[current], k, reaper) && PcKnown(k, count.Keys)
      modifies this`pc
      ensures ThreadsOk() && pc == old(pc)[current := k]
    {
      hide PcFits, PcKnown, AllThreadsOk, MutexesOk;
      ThreadFacts(current);
      ThreadSet(Tables(status, prio, pc, count.Keys), at, destroyed, idle, reaper, current, at[current],
        prio[current], k);
      pc := pc[current := k];
      assert status == status[current := status[current]] && prio == prio[current := prio[current]];
      assert at == at[current := at[current]];
    }

    // ---- creation and termination -----------------------------------------------------------

    /** The tables and the ready queue get a new thread. */
    method Enter(t: Tid, q: nat)
      requires QueuesOk() && ThreadsOk() && reaper in at && t !in at && t !in destroyed && t != idle && q < PRIORITY_MAX
      modifies this`prio, this`status, this`pc, this`at, rdq
      ensures QueuesOk() && ThreadsOk() && at == old(at)[t := Ready(q)] && pc == old(pc)[t := User]
    {
      hide rdq.Valid, Placed, AllThreadsOk, PcFits, PcKnown, StatusOf, Settled;
      StartFits(t, q);
      JoinReady(rdq.heads, waitq, reapq, at, t, q);
      ThreadSet(Tables(status, prio, pc, count.Keys), at, destroyed, idle, reaper, t, Ready(q), q, User);
      rdq.Add(t, q);
      prio, status, pc := prio[t := q], status[t := Running], pc[t := User];
      at := at[t := Ready(q)];
    }

    /** thr_create_thread: a priority out of range makes a round-robin thread. */
    method Create(t: Tid, p: int)
      requires Inv() && (current == idle || InUser()) && t !in at && t !in destroyed && t != idle
      modifies this`prio, this`status, this`pc, this`at, rdq
      ensures Inv() && current == old(current)
      ensures at == old(at)[t := Ready(if RR_PRIORITY < p < PRIORITY_MAX then p else RR_PRIORITY)]
      ensures destroyed == old(destroyed)
      ensures pc == old(pc)[t := User] && holder == old(holder) && count == old(count) && waitq == old(waitq)
    {
      hide QueuesOk, ThreadsOk, MutexesOk, AllOwnersOk, Settled;
      StartFits(t, 0);
      OwnersAfterPc(owner, holder, pc, t, User);
      Enter(t, if RR_PRIORITY < p < PRIORITY_MAX then p else RR_PRIORITY);
    }

    /** A new thread starts in code of its own. */
    lemma StartFits(t: Tid, q: nat)
      requires ThreadsOk() && t !in at && reaper in at
      ensures Settled(owner, pc, t) && PcKnown(User, count.Keys)
      ensures PcFits(t, Ready(q), User, reaper) && StatusOf(Ready(q)) == Running
    {
      assert ThreadOk(Tables(status, prio, pc, count.Keys), at, destroyed, idle, reaper, t);
    }

    lemma GoneFits(t: Tid)
      requires t != reaper
      ensures PcFits(t, Reaping, Gone, reaper) && PcKnown(Gone, count.Keys) && StatusOf(Reaping) == Dead
    {
    }

    /** The current thread moves from the ready queue to the queue of the reaper. */
    method Bury()
      requires QueuesOk() && ThreadsOk() && current in at && at[current].Ready? && current != reaper
      modifies rdq, this`status, this`pc, this`reapq, this`at
      ensures QueuesOk() && ThreadsOk()
      ensures at == old(at)[current := Reaping] && reapq == old(reapq) + [current] && pc == old(pc)[current := Gone]
    {
      hide rdq.Valid, Placed, AllThreadsOk, PcFits, PcKnown, StatusOf;
      ThreadFacts(current);
      GoneFits(current);
      ThreadSet(Tables(status, prio, pc, count.Keys), at, destroyed, idle, reaper, current, Reaping,
        prio[current], Gone);
      Dequeue();
      status := status[current := Exiting];
      if status[current] == Exiting {
        status := status[current := Dead];
        JoinReaper(rdq.heads, waitq, reapq, at, current);
        reapq := reapq + [current];
      }
      pc := pc[current := Gone];
      at := at[current := Reaping];
      assert at == old(at)[current := Reaping] && status == old(status)[current := Dead];
      assert prio == prio[current := prio[current]];
    }

    /** thr_exit_thread, with reaper_add_exit_thread */
    method Exit()
      requires Inv() && InUser()
      modifies this`current, this`status, this`pc, this`reapq, this`at, this`waitq, this`reason, rdq
      ensures Inv() && Dispatched() && destroyed == old(destroyed)
      ensures reapq == old(reapq) + [old(current)] && old(current) in at && at[old(current)] == Reaping
      ensures at[reaper].Ready? && holder == old(holder)
      ensures Known() == old(Known()) && destroyed == old(destroyed)
    {
      hide QueuesOk, Dispatched, StatusOf, ThreadsOk, MutexesOk, AllOwnersOk;
      ThreadFacts(current);
      OwnersAfterPc(owner, holder, pc, current, Gone);
      Bury();
      WakeReaper();
      Schedule();
    }

    method WakeReaper()
      requires QueuesOk() && ThreadsOk() && MutexesOk() && OfReaper in waitq && reaper in at && !at[reaper].Reaping?
      modifies rdq, this`status, this`waitq, this`at, this`reason
      ensures QueuesOk() && ThreadsOk() && MutexesOk() && OfReaper in waitq
      ensures Woke(old(at), at, prio, OfReaper) && at[reaper].Ready?
    {
      hide QueuesOk, Dispatched, StatusOf, ThreadsOk, AllMutexesOk;
      ThreadFacts(reaper);
      if waitq[OfReaper] != [] {
        MutexesAfterQueue(Locks(count, owner, holder, reason), waitq, OfReaper, [], reason[OfReaper := Wakeup]);
        Drain(OfReaper);
        reason := reason[OfReaper := Wakeup];
      } else {
        NobodyLeft(OfReaper);
      }
    }

    /** The inner loop of the reaper: it destroys every thread in its queue, each once. */
    method DestroyAll()
      requires QueuesOk() && ThreadsOk() && OwnersOk() && reaper in at && at[reaper].Ready?
      modifies this`status, this`prio, this`pc, this`reapq, this`at, this`destroyed
      ensures QueuesOk() && ThreadsOk() && OwnersOk() && reapq == [] && reaper in at && at[reaper].Ready?
      ensures destroyed == old(destroyed) + (set t | t in old(reapq)) && old(destroyed) !! (set t | t in old(reapq))
      ensures Known() == old(Known())
    {
      hide QueuesOk, ThreadsOk, AllOwnersOk;
      NoneDestroyedYet();
      while reapq != []
        invariant QueuesOk() && ThreadsOk() && OwnersOk() && reaper in at && at[reaper].Ready?
        invariant destroyed + (set t | t in reapq) == old(destroyed) + (set t | t in old(reapq))
        invariant Known() == old(Known())
        decreases |reapq|
      {
        DestroyFirst();
      }
    }

    /** A round of the reaper: it destroys what there is and then sleeps. */
    method Reap()
      requires Inv() && current == reaper
      modifies this`current, this`status, this`prio, this`pc, this`reapq, this`at, this`destroyed, this`waitq, rdq
      ensures Inv() && Dispatched() && reapq == [] && at[reaper] == Waiting(OfReaper)
      ensures destroyed == old(destroyed) + (set t | t in old(reapq)) && old(destroyed) !! (set t | t in old(reapq))
      ensures holder == old(holder) && Known() == old(Known())
    {
      hide QueuesOk, Dispatched, StatusOf, ThreadsOk, AllMutexesOk, AllOwnersOk;
      DestroyAll();
      ThreadFacts(reaper);
      OwnersAfterPc(owner, holder, pc, reaper, Reaper);
      MutexesAfterQueue(Locks(count, owner, holder, reason), waitq, OfReaper, waitq[OfReaper] + [current], reason);
      Sleep(OfReaper, Reaper);
      Schedule();
    }

    /** thr_destroy_thread on the first thread of the reaper's queue, which is dead. */
    method DestroyFirst()
      requires QueuesOk() && ThreadsOk() && OwnersOk() && reapq != []
      modifies this`status, this`prio, this`pc, this`reapq, this`at, this`destroyed
      ensures QueuesOk() && ThreadsOk() && OwnersOk() && reapq == old(reapq)[1..]
      ensures at == old(at) - {old(reapq)[0]} && old(reapq)[0] !in old(destroyed)
      ensures old(reapq)[0] in old(at) && old(at)[old(reapq)[0]] == Reaping
      ensures destroyed == old(destroyed) + {old(reapq)[0]}
    {
      hide rdq.Valid, Placed, PcKnown, AllThreadsOk, AllOwnersOk;
      LeaveReaper(rdq.heads, waitq, reapq, at);
      var t := reapq[0];
      ThreadFacts(t);
      OwnersAfterPc(owner, holder, pc, t, User);
      ThreadUnset(Tables(status, prio, pc, count.Keys), at, destroyed, idle, reaper, t);
      reapq := reapq[1..];
      if status[t] == Dead {
        at, destroyed := at - {t}, destroyed + {t};
        status, prio, pc := status - {t}, prio - {t}, pc - {t};
      }
    }

    lemma NoneDestroyedYet()
      requires QueuesOk() && ThreadsOk()
      ensures destroyed !! (set t | t in reapq)
    {
      hide rdq.Valid;
      forall t | t in reapq ensures t !in destroyed {
        ThreadFacts(t);
      }
    }

    // ---- interrupts -------------------------------------------------------------------------

    /** timer_update_thread_time when the slice of a round-robin thread has run out */
    method SliceEnd()
      requires Inv() && InUser() && current in prio && prio[current] == RR_PRIORITY
      modifies this`current, rdq
      ensures Inv() && Dispatched()
      ensures rdq.heads[RR_PRIORITY] == Rotated(old(rdq.heads)[RR_PRIORITY])
    {
      hide rdq.Valid, ThreadsOk, MutexesOk;
      Turned(rdq.heads, waitq, reapq, at);
      rdq.Rotate();
      Schedule();
    }

    /** sched_delay_disptach, at the end of an interrupt */
    method Preempt()
      requires Inv() && (current == idle || InUser())
      modifies this`current
      ensures Inv() && Dispatched()
    {
      hide rdq.Valid, Placed, ThreadsOk, MutexesOk;
      Schedule();
    }

    // ---- calls that go on after a switch ----------------------------------------------------

    /** What a round of mutex_hold by `t` has done, from the counts, holders and places before. */
    ghost predicate Tried(t: Tid, m: int, counts: map<int, int>, holders: map<int, Option<Tid>>, before: Places)
      requires m in counts
      reads this
    {
      if counts[m] == 0 then
        current == t && holder == holders[m := Some(t)] && InUser() && at == before
      else
        holder == holders && at == before[t := Waiting(OfMutex(m))] && t in pc && pc[t] == InHold(m)
    }

    /** The mutexes are held as before, or a free one is now held by `t`. */
    ghost predicate AtMostTaken(before: map<int, Option<Tid>>, t: Tid)
      reads this`holder
    {
      holder == before || exists m :: (m in before ==> before[m] == None) && holder == before[m := Some(t)]
    }

    /** The end of mutex_release. */
    method EndRelease(m: int, waits: Option<int>)
      requires Inv() && current in at && current != reaper && current != idle && m in count
      requires current in pc && pc[current] == InRelease(m, waits)
      modifies this`owner, this`pc, this`current
      ensures Inv()
      ensures owner == old(owner)[m := None]
      ensures waits.None? ==> pc == old(pc)[current := User] && current == old(current)
      ensures waits.Some? ==> pc == old(pc)[old(current) := Rehold(waits.value, m)] && Dispatched()
    {
      hide QueuesOk, Dispatched, ThreadsOk, MutexesOk, AllOwnersOk;
      OwnersAfterClear(owner, holder, pc, m);
      ClearOwner(m);
      if waits.None? {
        GoOn(User);
      } else {
        GoOn(Rehold(waits.value, m));
        Schedule();
      }
    }

    /** The current thread, in the middle of a call, has been switched to. */
    method Continue()
      requires Inv() && current in at && current in pc && !pc[current].User?
      modifies this, rdq
      ensures Inv() && Known() == old(Known()) && old(destroyed) <= destroyed
      ensures AtMostTaken(old(holder), old(current))
      ensures old(pc)[old(current)].Woken? ==> current == old(current) && InUser() && at == old(at)
      ensures old(pc)[old(current)].Rehold? ==> var m := old(pc)[old(current)].m;
                m in old(count) && Tried(old(current), m, old(count), old(holder), old(at))
      ensures old(pc)[old(current)].InHold? ==> var m := old(pc)[old(current)].m;
                m in old(count) && OfMutex(m) in old(reason) &&
                if old(reason)[OfMutex(m)] == Wakeup then Tried(old(current), m, old(count), old(holder), old(at))
                else current == old(current) && InUser() && holder == old(holder)
      ensures old(pc)[old(current)].InHold? ==> prio == old(prio) && waitq.Keys == old(waitq).Keys
      ensures old(pc)[old(current)].InHold? ==> old(current) in pc && pc == old(pc)[old(current) := pc[old(current)]]
      ensures old(pc)[old(current)].InRelease? ==> holder == old(holder)
      ensures old(pc)[old(current)].InRelease? ==> owner == old(owner)[old(pc)[old(current)].m := None]
      ensures old(pc)[old(current)].InRelease? ==> pc == old(pc)[old(current) := AfterRelease(old(pc)[old(current)])]
      ensures old(pc)[old(current)].Reaper? ==> reapq == [] && holder == old(holder)
    {
      hide QueuesOk, Dispatched, StatusOf, ThreadsOk, MutexesOk, AllOwnersOk;
      ThreadFacts(current);
      match pc[current] {
        case Woken(_) =>
          GoOn(User);
        case InHold(m) =>
          MutexFacts(m);
          if reason[OfMutex(m)] != Wakeup {
            GoOn(User);
          } else {
            Hold(m);
          }
        case InRelease(m, waits) =>
          EndRelease(m, waits);
        case Rehold(_, m) =>
          Hold(m);
        case Reaper =>
          Reap();
      }
    }

    /** The scheduler's choice is the ready thread of the highest priority, if that is one thread. */
    lemma HighestRuns(t: Tid)
      requires QueuesOk() && Dispatched() && t in at && at[t].Ready? && t != idle
      requires forall u | u in at && at[u].Ready? && u != t :: at[u].prio < at[t].prio
      ensures current == t
    {
      hide rdq.Valid;
      assert PlaceOk(waitq, at, t) && HeadOk(rdq.heads, at, at[t].prio);
      if p: nat :| FirstAt(rdq.heads, current, p) {
        assert HeadOk(rdq.heads, at, p);
        assert current in rdq.heads[p];
      }
    }

    // ---- what the invariant means -----------------------------------------------------------

    /** Every thread created is in exactly one place, the one its status names: in the ready queue of
        its priority, in one wait queue, in the queue of the reaper, or destroyed. */
    lemma ExactlyOnePlace(t: Tid)
      requires Inv() && t in Known()
      ensures t in destroyed <==> t !in status
      ensures forall p | 0 <= p < |rdq.heads| ::
                t in rdq.heads[p] <==> t in status && status[t] == Running && t in prio && p == prio[t]
      ensures forall q, r | q in waitq && r in waitq && t in waitq[q] && t in waitq[r] :: q == r
      ensures t in status && status[t] == Sleeping <==> exists q :: q in waitq && t in waitq[q]
      ensures t in reapq <==> t in status && status[t] == Dead
      ensures t in status ==> !status[t].Exiting?
    {
      hide rdq.Valid;
      assert ThreadOk(Tables(status, prio, pc, count.Keys), at, destroyed, idle, reaper, t);
      assert PlaceOk(waitq, at, t);
      forall p | 0 <= p < |rdq.heads| ensures t in rdq.heads[p] <==> t in at && at[t] == Ready(p) {
        assert HeadOk(rdq.heads, at, p);
      }
      forall q | q in waitq ensures t in waitq[q] <==> t in at && at[t] == Waiting(q) {
        assert QueueOk(waitq, at, q);
      }
      if t in at && at[t].Waiting? {
        assert t in waitq[at[t].q];
      }
    }
  }

  // ---- whole runs ---------------------------------------------------------------------------

  /** What the running thread may ask for next, or an interrupt bring. */
  datatype Op =
    | WaitOp(n: int)
    | WakeOp(n: int, r: Reason)
    | HoldOp(m: int)
    | TryOp(m: int)
    | ReleaseOp(m: int)
    | WaitMutexOp(n: int, m: int)
    | ExitOp
    | CreateOp(p: int)
    | SliceOp
    | PreemptOp

  /** Threads so far have numbers below `next`. */
  ghost predicate Numbered(k: Kernel, next: Tid)
    reads k
  {
    k.idle < next && forall t | t in k.Known() :: t < next
  }

  /** The current thread goes on with its call, or does `op` if that makes sense for it: threads
      release, and wait with, only mutexes they hold. */
  method Step(k: Kernel, op: Op, next: Tid) returns (next': Tid)
    requires k.Inv() && Numbered(k, next)
    modifies k, k.rdq
    ensures k.Inv() && Numbered(k, next') && next <= next' <= next + 1 && old(k.destroyed) <= k.destroyed
    ensures k.Known() == old(k.Known()) + (if next < next' then {next} else {})
  {
    next' := next;
    if k.current != k.idle {
      k.ThreadFacts(k.current);
    }
    if k.current != k.idle && !k.pc[k.current].User? {
      k.Continue();
    } else if op.CreateOp? {
      assert next !in k.Known();
      k.Create(next, op.p);
      next' := next + 1;
    } else if op.PreemptOp? {
      k.Preempt();
    } else if op.WakeOp? {
      if OfEvent(op.n) in k.waitq && OfEvent(op.n) in k.reason {
        k.WakeupEvent(op.n, op.r);
      }
    } else if k.current != k.idle {
      UserStep(k, op);
    }
  }

  method UserStep(k: Kernel, op: Op)
    requires k.Inv() && k.InUser()
    modifies k, k.rdq
    ensures k.Inv() && k.Known() == old(k.Known()) && k.destroyed == old(k.destroyed)
  {
    hide k.QueuesOk, k.Dispatched, k.ThreadsOk, k.MutexesOk, k.OwnersOk;
    k.ThreadFacts(k.current);
    match op {
      case WaitOp(n) =>
        if OfEvent(n) in k.waitq {
          k.WaitOnQueue(n);
        }
      case HoldOp(m) =>
        if m in k.count {
          k.Hold(m);
        }
      case TryOp(m) =>
        if m in k.count {
          var ok := k.TryHold(m);
        }
      case ReleaseOp(m) =>
        if m in k.count && k.HolderOf(m) == Some(k.current) {
          k.Release(m);
        }
      case WaitMutexOp(n, m) =>
        if m in k.count && k.HolderOf(m) == Some(k.current) && OfEvent(n) in k.waitq {
          k.WaitWithMutex(n, m);
        }
      case ExitOp =>
        k.Exit();
      case SliceOp =>
        if k.prio[k.current] == RR_PRIORITY {
          k.SliceEnd();
        }
      case _ =>
    }
  }

  /** Whatever the threads do and whenever interrupts come, no thread is lost: the reaper and those
      created, which have the numbers from `first` on, are each in exactly one place
      (Kernel.ExactlyOnePlace), and the mutexes and the reaper are as they should be. */
  method Run(idle: Tid, reaper: Tid, queues: Queues, reasons: map<Queue, Reason>,
             counts: map<int, int>, nobody: map<int, Option<Tid>>, ops: seq<Op>)
    returns (k: Kernel, first: Tid, next: Tid)
    requires idle != reaper && OfReaper in queues && queues.Keys == reasons.Keys && counts.Keys == nobody.Keys
    requires forall q | q in queues :: queues[q] == []
    requires forall m | m in counts :: OfMutex(m) in queues && counts[m] == 0 && nobody[m] == None
    ensures k.Inv() && fresh(k) && reaper < first <= next <= first + |ops|
    ensures forall t :: t in k.Known() <==> t == reaper || first <= t < next
  {
    k := new Kernel(idle, reaper, queues, reasons, counts, nobody);
    first := if idle < reaper then reaper + 1 else idle + 1;
    next := first;
    for i := 0 to |ops|
      invariant k.Inv() && Numbered(k, next) && fresh(k) && fresh(k.rdq) && first <= next <= first + i
      invariant forall t :: t in k.Known() <==> t == reaper || first <= t < next
    {
      hide k.QueuesOk, k.ThreadsOk, k.MutexesOk, k.OwnersOk;
      next := Step(k, ops[i], next);
    }
  }

  /** The start, with mutex 0 and event 0. */
  method Started() returns (k: Kernel)
    ensures k.Inv() && fresh(k) && fresh(k.rdq) && k.idle == 0 && k.reaper == 1 && k.current == 0
    ensures k.at == map[1 := Ready(7)] && k.destroyed == {} && OfEvent(0) in k.waitq
    ensures k.count == map[0 := 0] && k.holder == map[0 := None]
  {
    var queues: Queues := map[OfReaper := [], OfMutex(0) := [], OfEvent(0) := []];
    var reasons := map[OfReaper := Wakeup, OfMutex(0) := Wakeup, OfEvent(0) := Wakeup];
    k := new Kernel(0, 1, queues, reasons, map[0 := 0], map[0 := None]);
  }

  /** Thread 2 holds mutex 0. */
  method OneThread() returns (k: Kernel)
    ensures k.Inv() && k.InUser() && fresh(k) && fresh(k.rdq) && k.idle == 0 && k.reaper == 1 && k.current == 2
    ensures k.at == map[1 := Ready(7), 2 := Ready(8)] && k.destroyed == {} && 2 in k.pc && k.pc[2] == User
    ensures k.count == map[0 := 1] && k.holder == map[0 := Some(2)] && OfEvent(0) in k.waitq
  {
    k := Started();
    hide k.QueuesOk, k.ThreadsOk, k.MutexesOk, k.OwnersOk, k.Dispatched;
    k.Create(2, 8);
    k.Preempt();
    k.HighestRuns(2);
    k.Hold(0);
  }

  /** Thread 3, of higher priority, runs. */
  method TwoThreads() returns (k: Kernel)
    ensures k.Inv() && k.InUser() && fresh(k) && fresh(k.rdq) && k.idle == 0 && k.reaper == 1 && k.current == 3
    ensures k.at == map[1 := Ready(7), 2 := Ready(8), 3 := Ready(9)] && OfEvent(0) in k.waitq
    ensures 2 in k.pc && k.pc[2] == User && 3 in k.pc && k.pc[3] == User && 3 in k.prio && k.prio[3] == 9
    ensures k.count == map[0 := 1] && k.holder == map[0 := Some(2)]
  {
    k := OneThread();
    hide k.QueuesOk, k.ThreadsOk, k.MutexesOk, k.OwnersOk, k.Dispatched;
    k.Create(3, 9);
    k.ThreadFacts(3);
    k.Preempt();
    k.HighestRuns(3);
  }

  /** It waits for the mutex. */
  method OneWaits() returns (k: Kernel)
    ensures k.Inv() && k.InUser() && fresh(k) && fresh(k.rdq) && k.idle == 0 && k.reaper == 1 && k.current == 2
    ensures k.at == map[1 := Ready(7), 2 := Ready(8), 3 := Waiting(OfMutex(0))] && OfEvent(0) in k.waitq
    ensures 2 in k.pc && 3 in k.pc && k.pc[3] == InHold(0) && 3 in k.prio && k.prio[3] == 9
    ensures k.count == map[0 := 1] && k.holder == map[0 := Some(2)] && OfMutex(0) in k.waitq
    ensures k.waitq[OfMutex(0)] != []
  {
    k := TwoThreads();
    hide k.QueuesOk, k.ThreadsOk, k.MutexesOk, k.OwnersOk, k.Dispatched;
    k.Hold(0);
    k.HighestRuns(2);
  }

  /** Thread 2 releases it, and thread 3 runs again. */
  method Contended() returns (k: Kernel)
    ensures k.Inv() && fresh(k) && fresh(k.rdq) && k.idle == 0 && k.reaper == 1 && k.current == 3
    ensures k.at == map[1 := Ready(7), 2 := Ready(8), 3 := Ready(9)] && OfEvent(0) in k.waitq
    ensures 2 in k.pc && k.pc[2] == InRelease(0, None) && 3 in k.pc && k.pc[3] == InHold(0)
    ensures k.count == map[0 := 0] && k.holder == map[0 := None] && OfMutex(0) in k.reason
    ensures k.reason[OfMutex(0)] == Wakeup
  {
    k := OneWaits();
    hide k.QueuesOk, k.ThreadsOk, k.MutexesOk, k.OwnersOk, k.Dispatched;
    k.Release(0);
    assert k.at == map[1 := Ready(7), 2 := Ready(8), 3 := Ready(9)];
    k.HighestRuns(3);
  }

  /** A run that ends with a mutex that is held and has no owner: its holder took it before the thread
      that released it came to the end of mutex_release. */
  method OwnerLost() returns (k: Kernel)
    ensures k.Inv() && k.HolderOf(0) == Some(3) && 0 in k.owner && k.owner[0] == None
  {
    k := Contended();
    hide k.QueuesOk, k.ThreadsOk, k.MutexesOk, k.OwnersOk, k.Dispatched;
    k.Continue();
    k.WaitOnQueue(0);
    k.HighestRuns(2);
    k.Continue();
  }

  /** A run after which two threads are between their hold and their release: thread 3 releases the mutex that
      thread 2 holds, and takes it. */
  method TwoHolders() returns (k: Kernel, first: Option<Tid>, ok: bool)
    ensures ok && first == Some(2) && k.HolderOf(0) == Some(3)
  {
    k := TwoThreads();
    hide k.QueuesOk, k.ThreadsOk, k.MutexesOk, k.OwnersOk, k.Dispatched;
    k.MutexFacts(0);
    k.NobodyWaits(OfMutex(0));
    k.StrayRelease(0);
    first := k.HolderOf(0);
    ok := k.Take(0);
  }
}
