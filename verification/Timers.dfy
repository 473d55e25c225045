/** Timers and the clock tick.

    Timer 0 is the scheduler's, which rearms itself every time it goes off; timer i + 1 is the alarm of
    process i.  The ghost field `queue` is the pending list, as a sequence of timers and the
    times they are due.
 */
module Timers {
  const NULL: int := -1
  const OK: int := 0
  const ERR: int := -1
  const EINVAL: int := -22
  const TIMER_NEVER: int := 0x7fff_ffff
  const REBALANCE_TIMEOUT: int := 36
  const HZ: int := 60
  const CLOCK: int := -2
  const SCHED: nat := 0

  datatype Handler = RebalanceQueues | DeliverAlarm

  datatype Timer = Timer(procNr: int, timeOut: int, next: int, handler: Handler, inUse: bool)

  datatype Pending = Pending(t: nat, due: int)

  // ---------- The queue ----------

  ghost predicate Sorted(q: seq<Pending>) {
    forall i, j :: 0 <= i < j < |q| ==> q[i].due <= q[j].due
  }

  ghost predicate Distinct(q: seq<Pending>) {
    forall i, j :: 0 <= i < j < |q| ==> q[i].t != q[j].t
  }

  ghost predicate Waits(q: seq<Pending>, t: nat) {
    exists i :: 0 <= i < |q| && q[i].t == t
  }

  /** Where a timer due at x belongs: before all that are due at x or later. */
  function Slot(q: seq<Pending>, x: int): (k: nat)
    ensures k <= |q| && (forall i :: 0 <= i < k ==> q[i].due < x) && (k < |q| ==> q[k].due >= x)
  {
    if q == [] || q[0].due >= x then 0 else 1 + Slot(q[1..], x)
  }

  function Inserted(q: seq<Pending>, p: Pending): (r: seq<Pending>)
  {
    q[..Slot(q, p.due)] + [p] + q[Slot(q, p.due)..]
  }

  function Removed(q: seq<Pending>, i: nat): seq<Pending>
    requires i < |q|
  {
    q[..i] + q[i + 1..]
  }

  /** How many timers at the front are due. */
  function DueCount(q: seq<Pending>, now: int): (n: nat)
    ensures n <= |q| && (forall i :: 0 <= i < n ==> q[i].due <= now) && (n < |q| ==> q[n].due > now)
  {
    if q == [] || q[0].due > now then 0 else 1 + DueCount(q[1..], now)
  }

  lemma {:induction false} InsertedAt(q: seq<Pending>, p: Pending, i: nat)
    requires i <= |q|
    ensures |Inserted(q, p)| == |q| + 1
    ensures var k := Slot(q, p.due); Inserted(q, p)[i] == if i < k then q[i] else if i == k then p else q[i - 1]
  {
  }

  lemma {:induction false} InsertedSorted(q: seq<Pending>, p: Pending)
    requires Sorted(q) && Distinct(q) && !Waits(q, p.t)
    ensures Sorted(Inserted(q, p)) && Distinct(Inserted(q, p))
  {
    var k := Slot(q, p.due);
    var r := Inserted(q, p);
    forall i, j | 0 <= i < j < |r|
      ensures r[i].due <= r[j].due && r[i].t != r[j].t
    {
      if i == k {
        assert r[j] == q[j - 1] && q[k].due <= q[j - 1].due;
      } else if j == k {
        assert r[i] == q[i];
      }
    }
  }

  lemma {:induction false} InsertedWaits(q: seq<Pending>, p: Pending, t: nat)
    ensures Waits(Inserted(q, p), t) <==> t == p.t || Waits(q, t)
  {
    var k, r := Slot(q, p.due), Inserted(q, p);
    assert r[k] == p;
    if i :| 0 <= i < |q| && q[i].t == t {
      assert r[if i < k then i else i + 1] == q[i];
    }
  }

  lemma {:induction false} RemovedSorted(q: seq<Pending>, i: nat)
    requires Sorted(q) && Distinct(q) && i < |q|
    ensures Sorted(Removed(q, i)) && Distinct(Removed(q, i))
    ensures forall t :: Waits(Removed(q, i), t) <==> Waits(q, t) && t != q[i].t
  {
    var r := Removed(q, i);
    forall j | 0 <= j < |r|
      ensures r[j] == q[if j < i then j else j + 1]
    {
    }
    forall t: nat | Waits(q, t) && t != q[i].t
      ensures Waits(r, t)
    {
      var j :| 0 <= j < |q| && q[j].t == t;
      assert r[if j < i then j else j - 1] == q[j];
    }
  }

  /** Taking the first timer off commutes with inserting one that is due later. */
  lemma {:induction false} InsertedTail(q: seq<Pending>, p: Pending)
    requires q != [] && q[0].due < p.due
    ensures Inserted(q, p)[0] == q[0] && Inserted(q, p)[1..] == Inserted(q[1..], p)
  {
  }

  // ---------- The links ----------

  ghost predicate LinkedAt(ts: seq<Timer>, q: seq<Pending>, i: nat)
    requires i < |q|
  {
    && q[i].t < |ts| && ts[q[i].t].timeOut == q[i].due
    && ts[q[i].t].next == if i + 1 < |q| then q[i + 1].t else NULL
  }

  ghost predicate Linked(ts: seq<Timer>, q: seq<Pending>, head: int) {
    && Distinct(q) && head == (if q == [] then NULL else q[0].t)
    && forall i :: 0 <= i < |q| ==> LinkedAt(ts, q, i)
  }

  lemma {:induction false} FirstLink(ts: seq<Timer>, q: seq<Pending>, head: int, i: nat)
    requires Linked(ts, q, head) && i < |q|
    ensures q[i].t < |ts| && ts[q[i].t].timeOut == q[i].due
    ensures ts[q[i].t].next == if i + 1 < |q| then q[i + 1].t else NULL
  {
    assert LinkedAt(ts, q, i);
  }

  lemma {:induction false} HeadOf(ts: seq<Timer>, q: seq<Pending>, head: int)
    requires Linked(ts, q, head)
    ensures head == (if q == [] then NULL else q[0].t) && Distinct(q)
    ensures q != [] ==> q[0].t < |ts| && ts[q[0].t].timeOut == q[0].due
  {
    if q != [] {
      FirstLink(ts, q, head, 0);
    }
  }

  lemma {:induction false} SlotIs(q: seq<Pending>, x: int, i: nat)
    requires i <= |q| && (forall j :: 0 <= j < i ==> q[j].due < x) && (i < |q| ==> q[i].due >= x)
    ensures Slot(q, x) == i
  {
  }

  lemma {:induction false} InsertedNext(q: seq<Pending>, p: Pending)
    ensures NextDue(Inserted(q, p)) == if Slot(q, p.due) == 0 then p.due else NextDue(q)
  {
  }

  lemma {:induction false} LinkedInsertSorted(ts: seq<Timer>, q: seq<Pending>, head: int, p: Pending)
    requires Linked(ts, q, head) && Sorted(q) && !Waits(q, p.t)
    ensures Sorted(Inserted(q, p))
  {
    InsertedSorted(q, p);
  }

  /** The stores of insert_timer, between the k-th timer and its predecessor. */
  function LinkIn(ts: seq<Timer>, q: seq<Pending>, t: nat, k: nat): seq<Timer>
    requires k <= |q| && t < |ts| && (k > 0 ==> q[k - 1].t < |ts|)
  {
    var us := if k > 0 then ts[q[k - 1].t := ts[q[k - 1].t].(next := t)] else ts;
    us[t := us[t].(next := if k < |q| then q[k].t else NULL)]
  }

  lemma {:induction false} LinkedIn(ts: seq<Timer>, q: seq<Pending>, head: int, p: Pending)
    requires Linked(ts, q, head) && Sorted(q) && p.t < |ts| && ts[p.t].timeOut == p.due && !Waits(q, p.t)
    ensures var k := Slot(q, p.due);
      && (k > 0 ==> q[k - 1].t < |ts|)
      && Linked(LinkIn(ts, q, p.t, k), Inserted(q, p), if k == 0 then p.t else head)
  {
    hide Slot, Inserted, Sorted;
    var k, r := Slot(q, p.due), Inserted(q, p);
    InsertedAt(q, p, 0);
    if k > 0 {
      FirstLink(ts, q, head, k - 1);
    }
    var us := LinkIn(ts, q, p.t, k);
    InsertedSorted(q, p);
    forall i | 0 <= i < |r|
      ensures LinkedAt(us, r, i)
    {
      InsertedAt(q, p, i);
      if i + 1 < |r| {
        InsertedAt(q, p, i + 1);
      }
      if i != k {
        assert LinkedAt(ts, q, if i < k then i else i - 1);
      }
    }
  }

  /** The stores of remove_timer and dequeue_alarm. */
  function LinkOut(ts: seq<Timer>, q: seq<Pending>, i: nat): seq<Timer>
    requires i < |q| && q[i].t < |ts| && (i > 0 ==> q[i - 1].t < |ts|)
  {
    if i > 0 then ts[q[i - 1].t := ts[q[i - 1].t].(next := ts[q[i].t].next)] else ts
  }

  lemma {:induction false} LinkedOut(ts: seq<Timer>, q: seq<Pending>, head: int, i: nat)
    requires Linked(ts, q, head) && Sorted(q) && i < |q|
    ensures q[i].t < |ts| && (i > 0 ==> q[i - 1].t < |ts|)
    ensures Linked(LinkOut(ts, q, i), Removed(q, i), if i == 0 then ts[q[0].t].next else head)
  {
    FirstLink(ts, q, head, i);
    if i > 0 {
      FirstLink(ts, q, head, i - 1);
    }
    var us, r := LinkOut(ts, q, i), Removed(q, i);
    RemovedSorted(q, i);
    forall j | 0 <= j < |r|
      ensures LinkedAt(us, r, j)
    {
      assert LinkedAt(ts, q, if j < i then j else j + 1);
    }
  }

  /** Fields other than next and time_out, and all fields of timers that do not wait, are free. */
  lemma {:induction false} LinkedFrame(ts: seq<Timer>, us: seq<Timer>, q: seq<Pending>, head: int)
    requires Linked(ts, q, head) && |us| == |ts|
    requires forall t :: 0 <= t < |ts| && Waits(q, t) ==> us[t].next == ts[t].next && us[t].timeOut == ts[t].timeOut
    ensures Linked(us, q, head)
  {
    forall i | 0 <= i < |q|
      ensures LinkedAt(us, q, i)
    {
      assert LinkedAt(ts, q, i);
      assert Waits(q, q[i].t);
    }
  }

  ghost predicate FlagsOk(ts: seq<Timer>, q: seq<Pending>) {
    forall t :: 0 <= t < |ts| ==> (ts[t].inUse <==> Waits(q, t))
  }

  /** A waiting timer has the handler and the process that its kind is always given. */
  ghost predicate HandlersOk(ts: seq<Timer>, q: seq<Pending>) {
    forall t :: 0 <= t < |ts| && Waits(q, t) ==> ts[t].handler == HandlerOf(t) && ts[t].procNr == ProcOf(t)
  }

  /** The process that a timer is armed for. */
  function ProcOf(t: nat): int {
    if t == SCHED then CLOCK else t - 1
  }

  function HandlerOf(t: nat): Handler {
    if t == SCHED then RebalanceQueues else DeliverAlarm
  }

  function NextDue(q: seq<Pending>): int {
    if q == [] then TIMER_NEVER else q[0].due
  }

  class Clock {
    var timers: seq<Timer>
    var pendingTimers: int
    var nextTimeout: int
    var uptime: int
    ghost var queue: seq<Pending>
    /** Every firing so far: which timer, and when it was due. */
    ghost var fired: seq<Pending>

    ghost predicate Valid()
      reads this
    {
      && |timers| > SCHED && Linked(timers, queue, pendingTimers) && Sorted(queue) && FlagsOk(timers, queue)
      && HandlersOk(timers, queue) && nextTimeout == NextDue(queue)
    }

    /** The state between ticks: the scheduler's timer is pending and nothing is overdue. */
    ghost predicate Armed()
      reads this
    {
      Valid() && Waits(queue, SCHED) && nextTimeout > uptime
    }

    /** insert_timer, for a timer marked in use but not yet in the list. */
    method InsertTimer(t: nat)
      requires t < |timers| && Linked(timers, queue, pendingTimers) && Sorted(queue) && !Waits(queue, t) && nextTimeout == NextDue(queue)
      modifies `timers, `pendingTimers, `nextTimeout, `queue
      ensures queue == Inserted(old(queue), Pending(t, old(timers[t]).timeOut)) && Sorted(queue)
      ensures Linked(timers, queue, pendingTimers) && nextTimeout == NextDue(queue)
      ensures SameButNext(timers, old(timers))
    {
      hide Linked, Inserted, Sorted;
      var prev, curr, new_ := NULL, pendingTimers, timers[t].timeOut;
      ghost var i, p := 0, Pending(t, new_);
      HeadOf(timers, queue, pendingTimers);
      while curr != NULL && timers[curr].timeOut < new_
        invariant 0 <= i <= |queue| && timers == old(timers) && queue == old(queue)
        invariant pendingTimers == old(pendingTimers) && nextTimeout == old(nextTimeout)
        invariant curr == (if i < |queue| then queue[i].t else NULL) && prev == (if i > 0 then queue[i - 1].t else NULL)
        invariant i < |queue| ==> curr < |timers| && timers[curr].timeOut == queue[i].due
        invariant forall j :: 0 <= j < i ==> queue[j].due < new_
        decreases |queue| - i
      {
        FirstLink(timers, queue, pendingTimers, i);
        prev, curr, i := curr, timers[curr].next, i + 1;
        if i < |queue| {
          FirstLink(timers, queue, pendingTimers, i);
        }
      }
      SlotIs(queue, new_, i);
      LinkedIn(timers, queue, pendingTimers, p);
      InsertedNext(queue, p);
      LinkedInsertSorted(timers, queue, pendingTimers, p);
      if prev != NULL {
        timers := timers[prev := timers[prev].(next := t)];
        timers := timers[t := timers[t].(next := curr)];
      } else {
        timers := timers[t := timers[t].(next := pendingTimers)];
        pendingTimers := t;
        nextTimeout := timers[pendingTimers].timeOut;
      }
      queue := Inserted(queue, p);
    }

    /** init_sched, on a machine with n processes that has been up since `uptime`. */
    constructor (n: nat, uptime: int)
      ensures Armed() && fired == [] && |timers| == n + 1 && this.uptime == uptime
      ensures queue == [Pending(SCHED, uptime + REBALANCE_TIMEOUT)]
    {
      this.uptime := uptime;
      timers := seq(n + 1, _ => Timer(0, 0, NULL, DeliverAlarm, false));
      pendingTimers, nextTimeout, queue, fired := NULL, TIMER_NEVER, [], [];
      new;
      var _ := NewTimer(CLOCK, SCHED, REBALANCE_TIMEOUT, RebalanceQueues);
      assert queue[0].t == SCHED;
    }

    method NewTimer(procNr: int, t: nat, timeout: int, handler: Handler) returns (r: int)
      requires Valid() && t < |timers| && handler == HandlerOf(t) && procNr == ProcOf(t)
      modifies `timers, `pendingTimers, `nextTimeout, `queue
      ensures Valid() && |timers| == |old(timers)| && r == (if timeout > 0 && !Waits(old(queue), t) then OK else ERR)
      ensures r == OK ==> queue == Inserted(old(queue), Pending(t, uptime + timeout))
      ensures r == OK ==> SameButNext(timers, old(timers)[t := Timer(procNr, uptime + timeout, NULL, handler, true)])
      ensures r == ERR ==> timers == old(timers) && queue == old(queue)
    {
      hide Linked, Sorted, Inserted, Waits, NextDue;
      if timeout <= 0 {
        return ERR;
      }
      if !timers[t].inUse {
        ghost var ts := timers;
        timers := timers[t := Timer(procNr, uptime + timeout, NULL, handler, true)];
        LinkedFrame(ts, timers, queue, pendingTimers);
        InsertTimer(t);
        forall u: nat
          ensures Waits(queue, u) <==> u == t || Waits(old(queue), u)
        {
          InsertedWaits(old(queue), Pending(t, uptime + timeout), u);
        }
        return OK;
      }
      return ERR;
    }

    /** dequeue_alarm; the list is not empty, so it does not panic. */
    method DequeueAlarm() returns (t: nat)
      requires Valid() && queue != []
      modifies `timers, `pendingTimers, `nextTimeout, `queue
      ensures Valid() && |timers| == |old(timers)| && t == old(queue[0]).t < |timers|
      ensures queue == old(queue)[1..] && !Waits(queue, t)
      ensures SameButNext(timers, old(timers)[t := old(timers[t]).(inUse := false)])
      ensures timers[t].handler == HandlerOf(t) && timers[t].procNr == ProcOf(t) && timers[t].timeOut == old(queue[0]).due
    {
      hide Linked, Sorted, Waits, Removed, LinkOut;
      ghost var ts := timers;
      LinkedOut(timers, queue, pendingTimers, 0);
      FirstLink(timers, queue, pendingTimers, 0);
      FirstOut(timers, queue, pendingTimers);
      t := pendingTimers;
      pendingTimers := timers[t].next;
      if pendingTimers != NULL {
        nextTimeout := timers[pendingTimers].timeOut;
      } else {
        nextTimeout := TIMER_NEVER;
      }
      timers := timers[t := timers[t].(inUse := false, next := NULL)];
      queue := queue[1..];
      LinkedFrame(ts, timers, queue, pendingTimers);
    }

    /** remove_timer.  If no other timer stays behind, next_timeout stays as it was. */
    method RemoveTimer(t: nat)
      requires Valid() && Waits(queue, t)
      modifies `timers, `pendingTimers, `nextTimeout, `queue
      ensures |timers| == |old(timers)| && queue == Without(old(queue), t) && !Waits(queue, t)
      ensures t < |timers| && SameButNext(timers, old(timers)[t := old(timers[t]).(inUse := false)])
      ensures Valid() <==> |old(queue)| >= 2 || old(nextTimeout) == TIMER_NEVER
      ensures |old(queue)| == 1 ==> nextTimeout == old(nextTimeout) && queue == []
    {
      hide Linked, Sorted, LinkOut, Removed, Without, NextDue;
      ghost var ts := timers;
      var prev, curr := NULL, pendingTimers;
      ghost var i := 0;
      HeadOf(timers, queue, pendingTimers);
      while curr != NULL && curr != t
        invariant 0 <= i < |queue| && timers == old(timers) && queue == old(queue)
        invariant pendingTimers == old(pendingTimers) && nextTimeout == old(nextTimeout)
        invariant curr == queue[i].t && prev == (if i > 0 then queue[i - 1].t else NULL)
        invariant forall j :: 0 <= j < i ==> queue[j].t != t
        decreases |queue| - i
      {
        FirstLink(timers, queue, pendingTimers, i);
        prev, curr, i := curr, timers[curr].next, i + 1;
      }
      hide Waits;
      LinkedOut(timers, queue, pendingTimers, i);
      LinkedRemoveSorted(timers, queue, pendingTimers, i);
      WithoutRemoved(queue, i);
      FirstLink(timers, queue, pendingTimers, i);
      if prev != NULL {
        timers := timers[prev := timers[prev].(next := timers[curr].next)];
        assert timers == LinkOut(ts, queue, i) by { LinkOutPrev(ts, queue, i); }
      } else {
        FirstOut(timers, queue, pendingTimers);
        pendingTimers := timers[pendingTimers].next;
        if pendingTimers != NULL {
          nextTimeout := timers[pendingTimers].timeOut;
        }
        assert timers == LinkOut(ts, queue, i) by { LinkOutPrev(ts, queue, i); }
      }
      ghost var us := timers;
      timers := timers[t := timers[t].(inUse := false)];
      queue := Removed(queue, i);
      LinkedFrame(us, timers, queue, pendingTimers);
      if |old(queue)| >= 2 {
        RemovedNext(old(queue), i);
      } else {
        OnlyOne(old(queue));
      }
    }

    /** rebalance_queues, as far as timers are concerned. */
    method RebalanceHandler()
      requires Valid() && !Waits(queue, SCHED)
      modifies `timers, `pendingTimers, `nextTimeout, `queue
      ensures Valid() && |timers| == |old(timers)| && queue == Inserted(old(queue), Pending(SCHED, uptime + REBALANCE_TIMEOUT))
      ensures SameTimes(timers, old(timers))
    {
      var _ := NewTimer(CLOCK, SCHED, REBALANCE_TIMEOUT, RebalanceQueues);
    }

    /** do_ticks: exactly the timers that are due go off, each once and in the order of the list. */
    method DoTicks()
      requires Valid() && Waits(queue, SCHED)
      modifies `timers, `pendingTimers, `nextTimeout, `queue, `fired
      ensures Armed() && |timers| == |old(timers)| && SameTimes(timers, old(timers))
      ensures var d := DueCount(old(queue), uptime);
        fired == old(fired) + old(queue)[..d] && queue == Left(old(queue), d, uptime)
    {
      hide Linked, Sorted, Inserted, Waits, Left, DueCount, FlagsOk, HandlersOk;
      ghost var q, d, n := queue, DueCount(queue, uptime), 0;
      LeftStart(q, uptime);
      ListOk();
      while nextTimeout <= uptime
        invariant 0 <= n <= d <= |q| && fired == old(fired) + q[..n] && queue == Left(q, n, uptime)
        invariant Valid() && |timers| == |old(timers)| && SameTimes(timers, old(timers))
        decreases d - n
      {
        LeftNotEmpty(q, n, uptime);
        LeftStep(q, n, uptime);
        var t := DequeueAlarm();
        fired := fired + [q[n]];
        assert q[..n + 1] == q[..n] + [q[n]];
        if timers[t].handler == RebalanceQueues {
          RebalanceHandler();
        }
        n := n + 1;
      }
      LeftNotEmpty(q, n, uptime);
      LeftWaits(q, n, uptime);
    }

    lemma ListOk()
      requires Valid()
      ensures Distinct(queue) && Sorted(queue)
    {
    }

    /** The timer part of clock_handler: every timer goes off at the very tick it is due. */
    method ClockHandler()
      requires Armed()
      modifies `uptime, `timers, `pendingTimers, `nextTimeout, `queue, `fired
      ensures Armed() && uptime == old(uptime) + 1 && |timers| == |old(timers)| && SameTimes(timers, old(timers))
      ensures var d := DueCount(old(queue), uptime);
        && fired == old(fired) + old(queue)[..d] && queue == Left(old(queue), d, uptime)
        && forall i :: 0 <= i < d ==> old(queue)[i].due == uptime
    {
      hide Linked, Left, FlagsOk, HandlersOk;
      ghost var q := queue;
      assert forall i :: 0 <= i < |q| ==> q[0].due <= q[i].due;
      uptime := uptime + 1;
      DoTicks();
    }

    /** do_alarm, for the process in slot who. */
    method DoAlarm(who: nat, seconds: int) returns (r: int)
      requires Armed() && who + 1 < |timers|
      modifies `timers, `pendingTimers, `nextTimeout, `queue
      ensures Armed() && |timers| == |old(timers)|
      ensures r == if seconds < 0 then EINVAL else old(timers[who + 1]).timeOut
      // What the next call for this process will return, and for any other.
      ensures forall u :: 0 <= u < |timers| ==>
        timers[u].timeOut == if u == who + 1 && seconds > 0 then uptime + seconds * HZ else old(timers[u]).timeOut
      ensures queue ==
        if seconds < 0 then old(queue)
        else if seconds == 0 then Without(old(queue), who + 1)
        else Inserted(Without(old(queue), who + 1), Pending(who + 1, uptime + seconds * HZ))
    {
      hide Linked, Sorted, Inserted, Waits, Without;
      if seconds < 0 {
        return EINVAL;
      }
      var alarm := who + 1;
      r := timers[alarm].timeOut;
      WithoutSame(queue, alarm);
      WithoutWaits(queue, alarm, SCHED);
      if timers[alarm].inUse {
        TwoWait(queue, SCHED, alarm);
        RemoveTimer(alarm);
        WithoutLater(old(queue), alarm, uptime);
      }
      ghost var q := queue;
      if seconds > 0 {
        var _ := NewTimer(who, alarm, seconds * HZ, DeliverAlarm);
        InsertedWaits(q, Pending(alarm, uptime + seconds * HZ), SCHED);
        InsertedNext(q, Pending(alarm, uptime + seconds * HZ));
      }
    }
  }

  /** The times of all timers but the scheduler's are the same. */
  ghost predicate SameTimes(ts: seq<Timer>, us: seq<Timer>) {
    |ts| == |us| && forall u :: 0 <= u < |ts| && u != SCHED ==> ts[u].timeOut == us[u].timeOut
  }

  // ---------- What a tick leaves ----------

  /** The list once the first n timers of q have gone off at time now: the scheduler's timer, if it was
      one of them, is back. */
  ghost function Left(q: seq<Pending>, n: nat, now: int): seq<Pending>
    requires n <= |q|
  {
    if Waits(q[..n], SCHED) then Inserted(q[n..], Pending(SCHED, now + REBALANCE_TIMEOUT)) else q[n..]
  }

  lemma {:induction false} LeftStart(q: seq<Pending>, now: int)
    ensures Left(q, 0, now) == q && DueCount(q, now) <= |q|
  {
  }

  /** While timers are due the list begins with the next one of q; when none is, with a later one. */
  lemma {:induction false} LeftNotEmpty(q: seq<Pending>, n: nat, now: int)
    requires Waits(q, SCHED) && n <= DueCount(q, now)
    ensures Left(q, n, now) != [] && (n < DueCount(q, now) <==> NextDue(Left(q, n, now)) <= now)
    ensures n < DueCount(q, now) ==> n < |q| && Left(q, n, now)[0] == q[n]
  {
    var p := Pending(SCHED, now + REBALANCE_TIMEOUT);
    if Waits(q[..n], SCHED) {
      InsertedNext(q[n..], p);
      if n < DueCount(q, now) {
        InsertedTail(q[n..], p);
      }
    } else {
      WaitsSplit(q, n, SCHED);
      WaitsNonEmpty(q[n..], SCHED);
    }
  }

  lemma {:induction false} LeftStep(q: seq<Pending>, n: nat, now: int)
    requires Distinct(q) && Waits(q, SCHED) && n < DueCount(q, now)
    ensures n < |q| && Left(q, n, now) != []
    ensures q[n].t != SCHED ==> Left(q, n, now)[1..] == Left(q, n + 1, now)
    ensures q[n].t == SCHED ==>
      Inserted(Left(q, n, now)[1..], Pending(SCHED, now + REBALANCE_TIMEOUT)) == Left(q, n + 1, now)
  {
    hide Inserted;
    var p := Pending(SCHED, now + REBALANCE_TIMEOUT);
    assert q[n..][1..] == q[n + 1..];
    WaitsMore(q, n, SCHED);
    if Waits(q[..n], SCHED) {
      InsertedTail(q[n..], p);
      InsertedAt(q[n..], p, 0);
      var i :| 0 <= i < n && q[..n][i].t == SCHED;
      assert q[i].t != q[n].t;
    }
  }

  lemma {:induction false} WaitsMore(q: seq<Pending>, n: nat, t: nat)
    requires n < |q|
    ensures Waits(q[..n + 1], t) <==> Waits(q[..n], t) || q[n].t == t
  {
    assert q[..n + 1][n] == q[n];
    if Waits(q[..n], t) {
      var i :| 0 <= i < n && q[..n][i].t == t;
      assert q[..n + 1][i].t == t;
    }
    if Waits(q[..n + 1], t) && q[n].t != t {
      var i :| 0 <= i < n + 1 && q[..n + 1][i].t == t;
      assert q[..n][i].t == t;
    }
  }

  lemma {:induction false} WaitsSplit(q: seq<Pending>, n: nat, t: nat)
    requires Waits(q, t) && n <= |q|
    ensures Waits(q[..n], t) || Waits(q[n..], t)
  {
    var i :| 0 <= i < |q| && q[i].t == t;
    if i < n {
      assert q[..n][i].t == t;
    } else {
      assert q[n..][i - n].t == t;
    }
  }

  lemma {:induction false} LeftWaits(q: seq<Pending>, n: nat, now: int)
    requires Waits(q, SCHED) && n <= |q|
    ensures Waits(Left(q, n, now), SCHED)
  {
    if Waits(q[..n], SCHED) {
      InsertedWaits(q[n..], Pending(SCHED, now + REBALANCE_TIMEOUT), SCHED);
    } else {
      WaitsSplit(q, n, SCHED);
    }
  }

  // ---------- Removing ----------

  /** The list without timer t. */
  function Without(q: seq<Pending>, t: nat): seq<Pending> {
    if q == [] then [] else if q[0].t == t then Without(q[1..], t) else [q[0]] + Without(q[1..], t)
  }

  lemma {:induction false} WithoutSame(q: seq<Pending>, t: nat)
    ensures !Waits(q, t) ==> Without(q, t) == q
    decreases |q|
  {
    if q != [] && !Waits(q, t) {
      assert q[0].t != t;
      assert forall i :: 0 <= i < |q[1..]| ==> q[1..][i] == q[i + 1];
      WithoutSame(q[1..], t);
    }
  }

  lemma {:induction false} WithoutRemoved(q: seq<Pending>, i: nat)
    requires i < |q| && Distinct(q)
    ensures Without(q, q[i].t) == Removed(q, i)
    decreases i
  {
    if i == 0 {
      assert forall j :: 0 <= j < |q[1..]| ==> q[1..][j] == q[j + 1];
      WithoutSame(q[1..], q[0].t);
    } else {
      WithoutRemoved(q[1..], i - 1);
      assert Removed(q, i) == [q[0]] + Removed(q[1..], i - 1);
    }
  }

  lemma {:induction false} WithoutWaits(q: seq<Pending>, t: nat, u: nat)
    ensures Waits(Without(q, t), u) <==> Waits(q, u) && u != t
    decreases |q|
  {
    if q != [] {
      WithoutWaits(q[1..], t, u);
      var r := Without(q, t);
      assert q == [q[0]] + q[1..];
      WaitsCons(q[0], q[1..], u);
      WaitsCons(q[0], Without(q[1..], t), u);
    }
  }

  lemma {:induction false} WaitsCons(p: Pending, q: seq<Pending>, u: nat)
    ensures Waits([p] + q, u) <==> p.t == u || Waits(q, u)
  {
    var r := [p] + q;
    assert r[0] == p;
    if i :| 0 <= i < |q| && q[i].t == u {
      assert r[i + 1] == q[i];
    }
  }

  /** Removing a timer does not bring the next one closer. */
  lemma {:induction false} WithoutLater(q: seq<Pending>, t: nat, now: int)
    requires Sorted(q) && NextDue(q) > now && Waits(Without(q, t), SCHED)
    ensures NextDue(Without(q, t)) > now
    decreases |q|
  {
    if q != [] && q[0].t == t {
      WaitsNonEmpty(Without(q, t), SCHED);
      if |q| > 1 {
        assert q[1..][0] == q[1];
        WithoutLater(q[1..], t, now);
      }
    }
  }

  lemma {:induction false} WaitsNonEmpty(q: seq<Pending>, t: nat)
    requires Waits(q, t)
    ensures q != []
  {
  }

  lemma {:induction false} TwoWait(q: seq<Pending>, t: nat, u: nat)
    requires Waits(q, t) && Waits(q, u) && t != u
    ensures |q| >= 2
  {
  }

  lemma {:induction false} LinkedRemoveSorted(ts: seq<Timer>, q: seq<Pending>, head: int, i: nat)
    requires Linked(ts, q, head) && Sorted(q) && i < |q|
    ensures Sorted(Removed(q, i)) && Distinct(q)
    ensures forall t :: Waits(Removed(q, i), t) <==> Waits(q, t) && t != q[i].t
  {
    RemovedSorted(q, i);
  }

  lemma {:induction false} OnlyOne(q: seq<Pending>)
    requires |q| == 1
    ensures Removed(q, 0) == [] && NextDue(Removed(q, 0)) == TIMER_NEVER
  {
  }

  lemma {:induction false} RemovedNext(q: seq<Pending>, i: nat)
    requires i < |q| && |q| >= 2
    ensures NextDue(Removed(q, i)) == if i == 0 then q[1].due else NextDue(q)
  {
  }

  lemma {:induction false} LinkOutPrev(ts: seq<Timer>, q: seq<Pending>, i: nat)
    requires i < |q| && q[i].t < |ts| && (i > 0 ==> q[i - 1].t < |ts|)
    ensures LinkOut(ts, q, i) == if i > 0 then ts[q[i - 1].t := ts[q[i - 1].t].(next := ts[q[i].t].next)] else ts
  {
  }

  /** What taking off the first timer leaves. */
  lemma {:induction false} FirstOut(ts: seq<Timer>, q: seq<Pending>, head: int)
    requires Linked(ts, q, head) && Sorted(q) && q != []
    ensures q[0].t < |ts| && head == q[0].t && Waits(q, q[0].t)
    ensures Linked(ts, q[1..], ts[head].next) && Sorted(q[1..])
    ensures forall t :: Waits(q[1..], t) <==> Waits(q, t) && t != q[0].t
    ensures if ts[head].next == NULL then q[1..] == [] else
      q[1..] != [] && 0 <= ts[head].next < |ts| && ts[ts[head].next].timeOut == q[1].due && q[1] == q[1..][0]
  {
    LinkedOut(ts, q, head, 0);
    RemovedSorted(q, 0);
    assert Removed(q, 0) == q[1..];
    FirstLink(ts, q, head, 0);
    if |q| > 1 {
      FirstLink(ts, q, head, 1);
    }
  }

  ghost predicate SameButNext(ts: seq<Timer>, us: seq<Timer>) {
    |ts| == |us| && forall t :: 0 <= t < |ts| ==> ts[t] == us[t].(next := ts[t].next)
  }
}
