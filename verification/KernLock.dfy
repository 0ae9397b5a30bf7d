/** The counter of a mutex by itself (mutex_try_hold, mutex_hold past its loop, and mutex_release in
    kern/mutex.c), also under releases by threads that do not hold it, such as buffer_cache_blk_get in
    dev/blkio.c makes after a wait. */
module KernLock {
  import opened KernReady

  datatype LockOp = TakeBy(t: Tid) | ReleaseBy(t: Tid)

  /** The counter, the threads that have taken the mutex and not released it since, and the number of releases
      by threads that had not. */
  datatype Lock = Lock(count: int, holders: multiset<Tid>, strays: nat)

  const FREE := Lock(0, multiset{}, 0)

  /** A thread takes the mutex if the counter lets it; a release always counts. */
  function LockStep(l: Lock, op: LockOp): Lock {
    match op
    case TakeBy(t) =>
      if l.count > 0 then l else Lock(l.count + 1, l.holders + multiset{t}, l.strays)
    case ReleaseBy(t) =>
      if t in l.holders then Lock(l.count - 1, l.holders - multiset{t}, l.strays)
      else Lock(l.count - 1, l.holders, l.strays + 1)
  }

  function LockRun(l: Lock, ops: seq<LockOp>): Lock
    decreases ops
  {
    if ops == [] then l else LockRun(LockStep(l, ops[0]), ops[1..])
  }

  /** What every step keeps: the counter is the number of holders less the stray releases, and no more than one
      holder comes on top of these. */
  ghost predicate Counted(l: Lock) {
    l.count == |l.holders| - l.strays && l.count <= 1
  }

  lemma {:induction false} RunCounted(l: Lock, ops: seq<LockOp>)
    requires Counted(l)
    ensures Counted(LockRun(l, ops))
    decreases ops
  {
    if ops != [] {
      RunCounted(LockStep(l, ops[0]), ops[1..]);
    }
  }

  lemma {:induction false} RunAppend(l: Lock, a: seq<LockOp>, b: seq<LockOp>)
    ensures LockRun(l, a + b) == LockRun(LockRun(l, a), b)
    decreases a
  {
    if a == [] {
      assert a + b == b;
    } else {
      assert (a + b)[1..] == a[1..] + b;
      RunAppend(LockStep(l, a[0]), a[1..], b);
    }
  }

  /** `s` releases by a thread that never takes the mutex, then `h` holds by others. */
  function Abuse(s: nat, h: nat): seq<LockOp> {
    seq(s, _ => ReleaseBy(-1)) + seq(h, i => TakeBy(i))
  }

  lemma {:induction false} AbuseReleases(s: nat)
    ensures LockRun(FREE, seq(s, _ => ReleaseBy(-1))) == Lock(0 - s, multiset{}, s)
  {
    var ops := seq(s, _ => ReleaseBy(-1));
    if s > 0 {
      var less := seq(s - 1, _ => ReleaseBy(-1));
      assert ops == less + [ReleaseBy(-1)];
      AbuseReleases(s - 1);
      RunAppend(FREE, less, [ReleaseBy(-1)]);
      OneStep(LockRun(FREE, less), ReleaseBy(-1));
    }
  }

  lemma OneStep(l: Lock, op: LockOp)
    ensures LockRun(l, [op]) == LockStep(l, op)
  {
    assert LockRun(LockStep(l, op), []) == LockStep(l, op);
  }

  lemma {:induction false} AbuseTakes(s: nat, h: nat)
    requires h <= s + 1
    ensures var l := LockRun(FREE, Abuse(s, h)); l.count == h - s && |l.holders| == h && l.strays == s
  {
    if h == 0 {
      AbuseReleases(s);
      assert Abuse(s, 0) == seq(s, _ => ReleaseBy(-1));
    } else {
      AbuseTakes(s, h - 1);
      assert Abuse(s, h) == Abuse(s, h - 1) + [TakeBy(h - 1)];
      RunAppend(FREE, Abuse(s, h - 1), [TakeBy(h - 1)]);
      OneStep(LockRun(FREE, Abuse(s, h - 1)), TakeBy(h - 1));
    }
  }

  /** The mutex excludes exactly as long as nobody releases it without holding it: with `s` such releases up to
      `s + 1` threads hold it at a time, no more, and that many can. */
  lemma HoldersBound(ops: seq<LockOp>)
    ensures var l := LockRun(FREE, ops); |l.holders| <= l.strays + 1 && l.count == |l.holders| - l.strays
  {
    RunCounted(FREE, ops);
  }

  lemma HoldersReach(s: nat)
    ensures var l := LockRun(FREE, Abuse(s, s + 1)); l.strays == s && |l.holders| == s + 1
  {
    AbuseTakes(s, s + 1);
  }
}
