/** The callouts (kern/timer.c).  Every accepted callout gets a serial number, so that one added again
    after it fired counts as a new one; `log` records which fired when. */
module KernTimer {

  datatype Callout = Callout(id: int, expire: nat, serial: nat)
  datatype Firing = Firing(c: Callout, time: nat)

  datatype Timer = Timer(uptime: nat, pending: seq<Callout>, log: seq<Firing>, next: nat)

  // ---- the list as a value ------------------------------------------------------------------

  /** Earlier ones first, the last added first among equals. */
  predicate Before(c: Callout, d: Callout) {
    c.expire < d.expire || (c.expire == d.expire && c.serial > d.serial)
  }

  ghost predicate Sorted(s: seq<Callout>) {
    forall i, j | 0 <= i < j < |s| :: Before(s[i], s[j])
  }

  /** callout_add: before the first that does not expire earlier. */
  function Place(s: seq<Callout>, c: Callout): (r: seq<Callout>) {
    if s == [] then [c] else if s[0].expire >= c.expire then [c] + s else [s[0]] + Place(s[1..], c)
  }

  /** handle_callouts takes out what has expired and keeps the rest, both in order. */
  function Expired(s: seq<Callout>, now: nat): (r: seq<Callout>) {
    if s == [] then [] else if s[0].expire <= now then [s[0]] + Expired(s[1..], now) else Expired(s[1..], now)
  }

  function Rest(s: seq<Callout>, now: nat): (r: seq<Callout>) {
    if s == [] then [] else if s[0].expire <= now then Rest(s[1..], now) else [s[0]] + Rest(s[1..], now)
  }

  function Fire(s: seq<Callout>, now: nat): (r: seq<Firing>)
    ensures |r| == |s| && forall i | 0 <= i < |s| :: r[i] == Firing(s[i], now)
  {
    if s == [] then [] else [Firing(s[0], now)] + Fire(s[1..], now)
  }

  lemma {:induction false} PlaceHolds(s: seq<Callout>, c: Callout)
    ensures forall d :: d in Place(s, c) <==> d in s || d == c
    ensures |Place(s, c)| == |s| + 1
  {
    if s != [] {
      assert s == [s[0]] + s[1..];
      PlaceHolds(s[1..], c);
    }
  }

  lemma {:induction false} PlaceSorted(s: seq<Callout>, c: Callout)
    requires Sorted(s) && forall d | d in s :: d.serial < c.serial
    ensures Sorted(Place(s, c))
  {
    if s == [] {
    } else if s[0].expire >= c.expire {
      forall i | 0 <= i < |s| ensures Before(c, s[i]) {
        assert s[i] in s && (i > 0 ==> Before(s[0], s[i]));
      }
    } else {
      assert forall d | d in s[1..] :: d in s;
      PlaceSorted(s[1..], c);
      var r := Place(s[1..], c);
      PlaceHolds(s[1..], c);
      forall i | 0 <= i < |r| ensures Before(s[0], r[i]) {
        assert r[i] in r;
        if r[i] != c {
          assert r[i] in s[1..];
        }
      }
    }
  }

  lemma {:induction false} SplitHolds(s: seq<Callout>, now: nat)
    ensures forall c :: c in Expired(s, now) <==> c in s && c.expire <= now
    ensures forall c :: c in Rest(s, now) <==> c in s && c.expire > now
  {
    if s != [] {
      assert s == [s[0]] + s[1..];
      SplitHolds(s[1..], now);
    }
  }

  lemma {:induction false} NoneExpired(s: seq<Callout>, now: nat)
    requires forall c | c in s :: c.expire > now
    ensures Expired(s, now) == []
  {
    if s != [] {
      assert s[0] in s;
      NoneExpired(s[1..], now);
    }
  }

  /** In a sorted list, what has expired is a prefix: no order changes. */
  lemma {:induction false} SplitSorted(s: seq<Callout>, now: nat)
    requires Sorted(s)
    ensures s == Expired(s, now) + Rest(s, now)
  {
    if s != [] {
      SplitSorted(s[1..], now);
      if s[0].expire > now {
        assert forall c | c in s[1..] :: Before(s[0], c);
        NoneExpired(s[1..], now);
      }
    }
  }

  // ---- the two operations on values ---------------------------------------------------------

  /** An accepted callout_add. */
  function Added(q: Timer, id: int, rel: nat): Timer {
    var c := Callout(id, q.uptime + rel, q.next);
    q.(pending := Place(q.pending, c), next := q.next + 1)
  }

  /** timer_update_uptime */
  function Ticked(q: Timer): Timer {
    var now := q.uptime + 1;
    q.(uptime := now, pending := Rest(q.pending, now), log := q.log + Fire(Expired(q.pending, now), now))
  }

  /** What has fired is in order: earlier expiry first and, in one tick, the last added first among
      equals; nothing fires before its time, or later than on the tick after it was due. */
  ghost predicate LogOk(q: Timer) {
    && (forall i | 0 <= i < |q.log| :: FiringOk(q, q.log[i]))
    && (forall i, j | 0 <= i < j < |q.log| :: InOrder(q.log[i], q.log[j]))
  }

  ghost predicate FiringOk(q: Timer, f: Firing) {
    f.c.expire <= f.time <= f.c.expire + 1 && f.time <= q.uptime && f.c.serial < q.next && f.c !in q.pending
  }

  predicate InOrder(f: Firing, g: Firing) {
    && f.time <= g.time && f.c.expire <= g.c.expire && f.c != g.c
    && (f.time == g.time ==> Before(f.c, g.c))
  }

  /** The invariant: the list is sorted, nothing in it is overdue, and serial numbers are unique. */
  ghost predicate Ok(q: Timer) {
    && Sorted(q.pending) && LogOk(q)
    && (forall c | c in q.pending :: q.uptime <= c.expire && c.serial < q.next)
  }

  lemma AddedOk(q: Timer, id: int, rel: nat)
    requires Ok(q)
    ensures Ok(Added(q, id, rel))
  {
    var c := Callout(id, q.uptime + rel, q.next);
    PlaceSorted(q.pending, c);
    PlaceHolds(q.pending, c);
    var q' := Added(q, id, rel);
    forall i | 0 <= i < |q'.log| ensures FiringOk(q', q'.log[i]) {
      assert FiringOk(q, q.log[i]);
    }
  }

  lemma PartsSorted(e: seq<Callout>, r: seq<Callout>)
    requires Sorted(e + r)
    ensures Sorted(e) && Sorted(r)
  {
    assert forall i | 0 <= i < |e| :: (e + r)[i] == e[i];
    assert forall i | 0 <= i < |r| :: (e + r)[|e| + i] == r[i];
  }

  /** Sorted callouts, none overdue, that expire now, logged behind what was logged before. */
  lemma LogGrows(q: Timer, e: seq<Callout>, r: seq<Callout>)
    requires Ok(q) && Sorted(e)
    requires forall c | c in e :: c in q.pending && c.expire <= q.uptime + 1
    requires forall c | c in r :: c in q.pending && c.expire > q.uptime + 1
    ensures LogOk(Timer(q.uptime + 1, r, q.log + Fire(e, q.uptime + 1), q.next))
  {
    var n, now := |q.log|, q.uptime + 1;
    var q' := Timer(now, r, q.log + Fire(e, now), q.next);
    forall i | 0 <= i < |q'.log| ensures FiringOk(q', q'.log[i]) {
      if i < n {
        assert FiringOk(q, q.log[i]);
      } else {
        assert q'.log[i] == Firing(e[i - n], now) && e[i - n] in e;
      }
    }
    forall i, j | 0 <= i < j < |q'.log| ensures InOrder(q'.log[i], q'.log[j]) {
      if j < n {
        assert InOrder(q.log[i], q.log[j]);
      } else {
        assert q'.log[j] == Firing(e[j - n], now) && e[j - n] in e;
        if i < n {
          assert FiringOk(q, q.log[i]);
        } else {
          assert q'.log[i] == Firing(e[i - n], now) && Before(e[i - n], e[j - n]);
        }
      }
    }
  }

  lemma TickedOk(q: Timer)
    requires Ok(q)
    ensures Ok(Ticked(q))
  {
    hide Expired, Rest, Fire;
    var now := q.uptime + 1;
    var e, r := Expired(q.pending, now), Rest(q.pending, now);
    SplitSorted(q.pending, now);
    SplitHolds(q.pending, now);
    PartsSorted(e, r);
    LogGrows(q, e, r);
  }

  // ---- runs ---------------------------------------------------------------------------------

  datatype Event = Add(id: int, rel: nat) | Tick

  function After(q: Timer, es: seq<Event>): Timer
    decreases |es|
  {
    if es == [] then q
    else After(if es[0].Tick? then Ticked(q) else Added(q, es[0].id, es[0].rel), es[1..])
  }

  lemma {:induction false} AfterOk(q: Timer, es: seq<Event>)
    requires Ok(q)
    ensures Ok(After(q, es)) && q.uptime <= After(q, es).uptime
    ensures q.log <= After(q, es).log
    decreases |es|
  {
    if es != [] {
      AddedOk(q, 0, 0);
      TickedOk(q);
      if es[0].Add? {
        AddedOk(q, es[0].id, es[0].rel);
      }
      AfterOk(if es[0].Tick? then Ticked(q) else Added(q, es[0].id, es[0].rel), es[1..]);
    }
  }

  /** When callout `c`, pending at uptime `now`, is due: at its expiry, or on the next tick if it was
      added with no delay. */
  function Due(c: Callout, now: nat): nat {
    if c.expire <= now then now + 1 else c.expire
  }

  /** Whatever is added meanwhile, a pending callout stays pending until uptime reaches its due time;
      it has fired on that very tick, and, as firings differ, only once. */
  lemma {:induction false} FiresWhenDue(q: Timer, c: Callout, es: seq<Event>)
    requires Ok(q) && c in q.pending
    ensures After(q, es).uptime < Due(c, q.uptime) ==> c in After(q, es).pending
    ensures After(q, es).uptime >= Due(c, q.uptime) ==>
              Firing(c, Due(c, q.uptime)) in After(q, es).log && c !in After(q, es).pending
    decreases |es|
  {
    hide Ok, Place, Expired, Rest, Fire;
    if es != [] {
      var q' := if es[0].Tick? then Ticked(q) else Added(q, es[0].id, es[0].rel);
      if es[0].Add? {
        AddedOk(q, es[0].id, es[0].rel);
        PlaceHolds(q.pending, Callout(es[0].id, q.uptime + es[0].rel, q.next));
        FiresWhenDue(q', c, es[1..]);
      } else {
        TickedOk(q);
        SplitHolds(q.pending, q.uptime + 1);
        if c.expire > q.uptime + 1 {
          FiresWhenDue(q', c, es[1..]);
        } else {
          FiredNow(q, c);
          StaysFired(q', c, es[1..]);
          AfterOk(q', es[1..]);
        }
      }
    }
  }

  lemma FiredNow(q: Timer, c: Callout)
    requires Ok(q) && c in q.pending && c.expire <= q.uptime + 1
    ensures Firing(c, q.uptime + 1) in Ticked(q).log && c.serial < q.next
  {
    SplitHolds(q.pending, q.uptime + 1);
    var e := Expired(q.pending, q.uptime + 1);
    var i :| 0 <= i < |e| && e[i] == c;
    assert Ticked(q).log[|q.log| + i] == Firing(c, q.uptime + 1);
  }

  /** A callout that is not pending, and whose serial number is taken, never is again. */
  lemma {:induction false} StaysFired(q: Timer, c: Callout, es: seq<Event>)
    requires c !in q.pending && c.serial < q.next
    ensures c !in After(q, es).pending
    decreases |es|
  {
    if es != [] {
      if es[0].Add? {
        PlaceHolds(q.pending, Callout(es[0].id, q.uptime + es[0].rel, q.next));
      } else {
        SplitHolds(q.pending, q.uptime + 1);
      }
      StaysFired(if es[0].Tick? then Ticked(q) else Added(q, es[0].id, es[0].rel), c, es[1..]);
    }
  }

  // ---- the code -----------------------------------------------------------------------------

  class Callouts {
    var uptime: nat
    var pending: seq<Callout>
    var log: seq<Firing>
    var next: nat

    ghost function State(): Timer
      reads this
    {
      Timer(uptime, pending, log, next)
    }

    constructor ()
      ensures Ok(State()) && State() == Timer(0, [], [], 0)
    {
      uptime, pending, log, next := 0, [], [], 0;
    }

    /** callout_add: refused without a handler, or while the entry is in the list. */
    method Add(id: int, rel: nat, hasHandler: bool) returns (ok: bool)
      requires Ok(State())
      modifies this
      ensures Ok(State()) && (ok <==> hasHandler && forall c | c in old(pending) :: c.id != id)
      ensures State() == if ok then Added(old(State()), id, rel) else old(State())
    {
      if !hasHandler || exists i | 0 <= i < |pending| :: pending[i].id == id {
        return false;
      }
      AddedOk(State(), id, rel);
      pending := Insert(pending, Callout(id, uptime + rel, next));
      next := next + 1;
      ok := true;
    }

    /** The search of callout_add for the place of `c`. */
    static method Insert(s: seq<Callout>, c: Callout) returns (r: seq<Callout>)
      ensures r == Place(s, c)
    {
      var i := 0;
      while i < |s| && s[i].expire < c.expire
        invariant 0 <= i <= |s|
        invariant Place(s, c) == s[..i] + Place(s[i..], c)
      {
        assert s[i..][1..] == s[i + 1..] && s[..i + 1] == s[..i] + [s[i]];
        i := i + 1;
      }
      r := s[..i] + [c] + s[i..];
    }

    /** timer_update_uptime with handle_callouts: expired entries move to a list of their own, and
        are then called from its front. */
    method Tick()
      requires Ok(State())
      modifies this
      ensures Ok(State()) && State() == Ticked(old(State()))
    {
      hide Ok, Expired, Rest, Fire;
      TickedOk(State());
      uptime := uptime + 1;
      var toBeCalled;
      toBeCalled, pending := Split(pending, uptime);
      var fired := CallAll(toBeCalled, uptime);
      log := log + fired;
    }

    /** The first loop of handle_callouts. */
    static method Split(s: seq<Callout>, now: nat) returns (e: seq<Callout>, r: seq<Callout>)
      ensures e == Expired(s, now) && r == Rest(s, now)
    {
      e, r := [], [];
      var i := 0;
      while i < |s|
        invariant 0 <= i <= |s|
        invariant Rest(s, now) == r + Rest(s[i..], now)
        invariant Expired(s, now) == e + Expired(s[i..], now)
      {
        assert s[i..][1..] == s[i + 1..];
        if s[i].expire <= now {
          e := e + [s[i]];
        } else {
          r := r + [s[i]];
        }
        i := i + 1;
      }
    }

    /** The second loop: the entries are called from the front. */
    static method CallAll(e: seq<Callout>, now: nat) returns (fired: seq<Firing>)
      ensures fired == Fire(e, now)
    {
      fired := [];
      var rest := e;
      while rest != []
        invariant fired + Fire(rest, now) == Fire(e, now)
        decreases |rest|
      {
        fired := fired + [Firing(rest[0], now)];
        rest := rest[1..];
      }
    }
  }
}
