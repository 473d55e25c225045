/** Blocking sends and receives.

    A process that sends to one that is not waiting for a message joins that process's sender queue
    and blocks.  The ghost field `queues` holds the queues as sequences, the head first.
 */
module Ipc {
  const NULL: int := -1
  const OK: int := 0
  const ESRCH: int := -3
  const EDEADLK: int := -35

  type Message = seq<int>

  /** A slot of the process table; message is the content of the buffer the process named last. */
  datatype Proc = Proc(inUse: bool, sending: bool, receiving: bool, senderQ: int, nextSender: int, message: Message)

  // ---------- The queues ----------

  ghost predicate LinkedAt(t: seq<Proc>, q: seq<nat>, i: nat)
    requires i < |q|
  {
    q[i] < |t| && t[q[i]].sending && t[q[i]].nextSender == if i + 1 < |q| then q[i + 1] else NULL
  }

  /** The links from head on spell out q, all of whose members are blocked in a send. */
  ghost predicate Linked(t: seq<Proc>, q: seq<nat>, head: int) {
    head == (if q == [] then NULL else q[0]) && forall i :: 0 <= i < |q| ==> LinkedAt(t, q, i)
  }

  /** No process is in two queues, or twice in one. */
  ghost predicate Apart(qs: seq<seq<nat>>) {
    forall d, e, i, j :: 0 <= d < |qs| && 0 <= e < |qs| && 0 <= i < |qs[d]| && 0 <= j < |qs[e]| && qs[d][i] == qs[e][j] ==>
      d == e && i == j
  }

  /** No two processes wait for each other, and none for itself. */
  ghost predicate NotMutual(qs: seq<seq<nat>>) {
    forall d, e :: 0 <= d < |qs| && 0 <= e < |qs| ==> !(d in qs[e] && e in qs[d])
  }

  /** Queues form only at slots in use. */
  ghost predicate SlotOk(t: seq<Proc>, q: seq<nat>, d: nat)
    requires d < |t|
  {
    Linked(t, q, t[d].senderQ) && (!t[d].inUse ==> q == [])
  }

  ghost predicate AllOk(t: seq<Proc>, qs: seq<seq<nat>>) {
    |t| == |qs| && forall d :: 0 <= d < |t| ==> SlotOk(t, qs[d], d)
  }

  lemma {:induction false} LinkAt(t: seq<Proc>, q: seq<nat>, head: int, i: nat)
    requires Linked(t, q, head) && i < |q|
    ensures q[i] < |t| && t[q[i]].sending && t[q[i]].nextSender == if i + 1 < |q| then q[i + 1] else NULL
  {
    assert LinkedAt(t, q, i);
  }

  lemma {:induction false} LinkedFrame(t: seq<Proc>, u: seq<Proc>, q: seq<nat>, head: int)
    requires Linked(t, q, head) && |u| == |t|
    requires forall k :: 0 <= k < |t| && k in q ==> u[k].nextSender == t[k].nextSender && u[k].sending == t[k].sending
    ensures Linked(u, q, head)
  {
    forall i | 0 <= i < |q|
      ensures LinkedAt(u, q, i)
    {
      assert LinkedAt(t, q, i);
      assert q[i] in q;
    }
  }

  /** A process that is not blocked in a send is in no queue. */
  lemma {:induction false} RunningIsFree(t: seq<Proc>, qs: seq<seq<nat>>, cur: nat)
    requires AllOk(t, qs) && cur < |t| && !t[cur].sending
    ensures forall d :: 0 <= d < |qs| ==> cur !in qs[d]
  {
    forall d | 0 <= d < |qs|
      ensures cur !in qs[d]
    {
      assert SlotOk(t, qs[d], d);
      MembersSend(t, qs[d], t[d].senderQ);
    }
  }

  lemma {:induction false} MembersSend(t: seq<Proc>, q: seq<nat>, head: int)
    requires Linked(t, q, head)
    ensures forall k :: k in q ==> k < |t| && t[k].sending
  {
    forall k | k in q
      ensures k < |t| && t[k].sending
    {
      var i :| 0 <= i < |q| && q[i] == k;
      assert LinkedAt(t, q, i);
    }
  }

  // ---------- Sending ----------

  function Joined(qs: seq<seq<nat>>, cur: nat, dest: nat): seq<seq<nat>>
    requires dest < |qs|
  {
    qs[dest := [cur] + qs[dest]]
  }

  function JoinTable(t: seq<Proc>, cur: nat, dest: nat): seq<Proc>
    requires cur < |t| && dest < |t|
  {
    var u := t[cur := t[cur].(sending := true, nextSender := t[dest].senderQ)];
    u[dest := u[dest].(senderQ := cur)]
  }

  lemma {:induction false} JoinSlot(t: seq<Proc>, qs: seq<seq<nat>>, cur: nat, dest: nat, d: nat)
    requires AllOk(t, qs) && cur < |t| && dest < |t| && cur != dest && !t[cur].sending && d < |t|
    requires t[dest].inUse && !t[dest].receiving
    ensures SlotOk(JoinTable(t, cur, dest), Joined(qs, cur, dest)[d], d)
  {
    var u := JoinTable(t, cur, dest);
    RunningIsFree(t, qs, cur);
    assert SlotOk(t, qs[d], d);
    LinkedFrame(t, u, qs[d], t[d].senderQ);
    if d == dest {
      var q := [cur] + qs[dest];
      forall i | 0 <= i < |q|
        ensures LinkedAt(u, q, i)
      {
        if i > 0 {
          assert LinkedAt(u, qs[dest], i - 1);
        }
      }
    }
  }

  lemma {:induction false} JoinAll(t: seq<Proc>, qs: seq<seq<nat>>, cur: nat, dest: nat)
    requires AllOk(t, qs) && cur < |t| && dest < |t| && cur != dest && !t[cur].sending
    requires t[dest].inUse && !t[dest].receiving
    ensures AllOk(JoinTable(t, cur, dest), Joined(qs, cur, dest)) && |qs| == |t|
  {
    hide SlotOk;
    var u, ps := JoinTable(t, cur, dest), Joined(qs, cur, dest);
    forall d | 0 <= d < |u|
      ensures SlotOk(u, ps[d], d)
    {
      JoinSlot(t, qs, cur, dest, d);
    }
  }

  lemma {:induction false} JoinApart(qs: seq<seq<nat>>, cur: nat, dest: nat)
    requires Apart(qs) && dest < |qs| && forall d :: 0 <= d < |qs| ==> cur !in qs[d]
    ensures Apart(Joined(qs, cur, dest))
  {
    var ps := Joined(qs, cur, dest);
    forall d, e, i, j | 0 <= d < |ps| && 0 <= e < |ps| && 0 <= i < |ps[d]| && 0 <= j < |ps[e]| && ps[d][i] == ps[e][j]
      ensures d == e && i == j
    {
      JoinedAt(qs, cur, dest, d, i);
      JoinedAt(qs, cur, dest, e, j);
    }
  }

  lemma {:induction false} JoinedAt(qs: seq<seq<nat>>, cur: nat, dest: nat, d: nat, i: nat)
    requires dest < |qs| && d < |qs| && i < |Joined(qs, cur, dest)[d]|
    ensures var x := Joined(qs, cur, dest)[d][i];
      if d == dest then if i == 0 then x == cur else x == qs[d][i - 1] && x in qs[d]
      else x == qs[d][i] && x in qs[d]
  {
  }

  lemma {:induction false} JoinNotMutual(qs: seq<seq<nat>>, cur: nat, dest: nat)
    requires NotMutual(qs) && dest < |qs| && cur < |qs| && cur != dest && dest !in qs[cur]
    requires forall d :: 0 <= d < |qs| ==> cur !in qs[d]
    ensures NotMutual(Joined(qs, cur, dest))
  {
    var ps := Joined(qs, cur, dest);
    forall d, e | 0 <= d < |ps| && 0 <= e < |ps|
      ensures !(d in ps[e] && e in ps[d])
    {
      assert d in ps[e] <==> d in qs[e] || (e == dest && d == cur);
      assert e in ps[d] <==> e in qs[d] || (d == dest && e == cur);
    }
  }

  // ---------- Messages ----------

  /** Process k waits to send to somebody. */
  ghost predicate Queued(qs: seq<seq<nat>>, k: int) {
    exists d :: 0 <= d < |qs| && k in qs[d]
  }

  /** The destination takes the message at once. */
  ghost predicate Takes(t: seq<Proc>, qs: seq<seq<nat>>, cur: nat, dest: int) {
    0 <= dest < |t| && t[dest].inUse && t[dest].receiving && cur < |qs| && dest !in qs[cur]
  }

  /** The send overwrites a message that has not been received: the destination sends one itself, in a WINIX_SENDREC to a third
      process, and gets this one into the same buffer. */
  ghost predicate Overwrites(t: seq<Proc>, qs: seq<seq<nat>>, cur: nat, dest: int, m: Message) {
    Takes(t, qs, cur, dest) && Queued(qs, dest) && t[dest].message != m
  }

  lemma {:induction false} QueuedSend(t: seq<Proc>, qs: seq<seq<nat>>, k: int)
    requires AllOk(t, qs) && Queued(qs, k)
    ensures 0 <= k < |t| && t[k].sending
  {
    var d :| 0 <= d < |qs| && k in qs[d];
    assert SlotOk(t, qs[d], d);
    MembersSend(t, qs[d], t[d].senderQ);
  }

  /** The table after a send, as far as messages are concerned. */
  ghost predicate SentTo(t: seq<Proc>, u: seq<Proc>, qs: seq<seq<nat>>, cur: nat, dest: int, m: Message) {
    && |u| == |t|
    && forall k :: 0 <= k < |t| && k != cur ==>
         u[k].message == if k == dest && Takes(t, qs, cur, dest) then m else t[k].message
  }

  lemma {:induction false} SurviveIff(t: seq<Proc>, u: seq<Proc>, qs: seq<seq<nat>>, cur: nat, dest: int, m: Message)
    requires AllOk(t, qs) && cur < |t| && !t[cur].sending && SentTo(t, u, qs, cur, dest, m) && dest != cur
    ensures (forall k :: Queued(qs, k) ==> 0 <= k < |u| && u[k].message == t[k].message) <==> !Overwrites(t, qs, cur, dest, m)
  {
    hide AllOk, Queued;
    forall k | Queued(qs, k)
      ensures 0 <= k < |t| && k != cur
    {
      QueuedSend(t, qs, k);
    }
  }

  /** Only the links of a process differ. */
  ghost predicate Relinked(p: Proc, q: Proc) {
    p == q.(senderQ := p.senderQ, nextSender := p.nextSender)
  }

  /** What every waiting process holds for its receiver is what it sent. */
  ghost predicate Intact(t: seq<Proc>, qs: seq<seq<nat>>, sent: seq<Message>) {
    |sent| == |t| && forall k :: Queued(qs, k) ==> 0 <= k < |t| && t[k].message == sent[k]
  }

  /** A send keeps this exactly unless it overwrites a message. */
  lemma {:induction false} IntactIff(t: seq<Proc>, u: seq<Proc>, qs: seq<seq<nat>>, ps: seq<seq<nat>>, sent: seq<Message>,
                                     cur: nat, dest: int, m: Message)
    requires AllOk(t, qs) && cur < |t| && !t[cur].sending && SentTo(t, u, qs, cur, dest, m) && dest != cur && u[cur].message == m
    requires Intact(t, qs, sent) && forall k :: Queued(ps, k) <==> Queued(qs, k) || (k == cur && Queued(ps, k))
    ensures Intact(u, ps, sent[cur := m]) <==> !Overwrites(t, qs, cur, dest, m)
  {
    hide AllOk, Queued;
    SurviveIff(t, u, qs, cur, dest, m);
    forall k | Queued(qs, k)
      ensures 0 <= k < |t| && k != cur && Queued(ps, k)
    {
      QueuedSend(t, qs, k);
    }
  }

  lemma {:induction false} JoinQueued(qs: seq<seq<nat>>, cur: nat, dest: nat, k: int)
    requires dest < |qs|
    ensures Queued(Joined(qs, cur, dest), k) <==> Queued(qs, k) || k == cur
  {
    var ps := Joined(qs, cur, dest);
    if Queued(qs, k) {
      var d :| 0 <= d < |qs| && k in qs[d];
      assert k in ps[d];
    }
    assert cur in ps[dest];
  }

  /** Receives and clears keep it: queues get shorter, and messages stay. */
  lemma {:induction false} IntactLeft(t: seq<Proc>, u: seq<Proc>, qs: seq<seq<nat>>, ps: seq<seq<nat>>, sent: seq<Message>)
    requires Intact(t, qs, sent) && |u| == |t| && |ps| == |qs|
    requires forall k :: 0 <= k < |t| ==> u[k].message == t[k].message
    requires forall d, k :: 0 <= d < |ps| && k in ps[d] ==> k in qs[d]
    ensures Intact(u, ps, sent)
  {
  }

  // ---------- Leaving ----------

  function Removed(q: seq<nat>, i: nat): (r: seq<nat>)
    requires i < |q|
    ensures |r| == |q| - 1 && forall j :: 0 <= j < |r| ==> r[j] == q[if j < i then j else j + 1]
  {
    q[..i] + q[i + 1..]
  }

  /** The store that unlinks the i-th process of slot d's queue q: through the slot's own link, or
      through that of the process before. */
  function LeaveTable(t: seq<Proc>, q: seq<nat>, d: nat, i: nat): seq<Proc>
    requires d < |t| && i < |q| && q[i] < |t| && (i > 0 ==> q[i - 1] < |t|)
  {
    var next := t[q[i]].nextSender;
    if i == 0 then t[d := t[d].(senderQ := next)] else t[q[i - 1] := t[q[i - 1]].(nextSender := next)]
  }

  lemma {:induction false} OtherQueue(qs: seq<seq<nat>>, d: nat, i: nat, e: nat)
    requires Apart(qs) && d < |qs| && i < |qs[d]| && e < |qs| && d != e
    ensures qs[d][i] !in qs[e]
  {
  }

  lemma {:induction false} LeaveSlot(t: seq<Proc>, qs: seq<seq<nat>>, d: nat, i: nat, e: nat)
    requires AllOk(t, qs) && Apart(qs) && d < |t| && i < |qs[d]| && e < |t|
    requires qs[d][i] < |t| && (i > 0 ==> qs[d][i - 1] < |t|)
    ensures SlotOk(LeaveTable(t, qs[d], d, i), qs[d := Removed(qs[d], i)][e], e)
  {
    var u, q := LeaveTable(t, qs[d], d, i), qs[d];
    assert SlotOk(t, qs[e], e) && SlotOk(t, q, d);
    LinkAt(t, q, t[d].senderQ, i);
    if e != d {
      if i > 0 {
        OtherQueue(qs, d, i - 1, e);
      }
      LinkedFrame(t, u, qs[e], t[e].senderQ);
    } else {
      var r := Removed(q, i);
      if i > 0 {
        LinkAt(t, q, t[d].senderQ, i - 1);
      }
      forall j | 0 <= j < |r|
        ensures LinkedAt(u, r, j)
      {
        var j' := if j < i then j else j + 1;
        assert LinkedAt(t, q, j');
        assert i > 0 && j' != i - 1 ==> qs[d][j'] != qs[d][i - 1];
      }
    }
  }

  lemma {:induction false} LeaveApart(qs: seq<seq<nat>>, d: nat, i: nat)
    requires Apart(qs) && NotMutual(qs) && d < |qs| && i < |qs[d]|
    ensures var ps := qs[d := Removed(qs[d], i)];
      Apart(ps) && NotMutual(ps) && forall e :: 0 <= e < |ps| ==> qs[d][i] !in ps[e]
  {
    var ps := qs[d := Removed(qs[d], i)];
    forall e, f, j, k | 0 <= e < |ps| && 0 <= f < |ps| && 0 <= j < |ps[e]| && 0 <= k < |ps[f]| && ps[e][j] == ps[f][k]
      ensures e == f && j == k
    {
      LeftAt(qs, d, i, e, j);
      LeftAt(qs, d, i, f, k);
    }
    forall e, j | 0 <= e < |ps| && 0 <= j < |ps[e]|
      ensures ps[e][j] in qs[e] && ps[e][j] != qs[d][i]
    {
      LeftAt(qs, d, i, e, j);
    }
  }

  lemma {:induction false} LeftAt(qs: seq<seq<nat>>, d: nat, i: nat, e: nat, j: nat)
    requires d < |qs| && i < |qs[d]| && e < |qs| && j < |qs[d := Removed(qs[d], i)][e]|
    ensures var j' := if e == d && j >= i then j + 1 else j;
      j' < |qs[e]| && (e == d ==> j' != i) && qs[d := Removed(qs[d], i)][e][j] == qs[e][j']
  {
  }

  class Kernel {
    var table: seq<Proc>
    /** Processes with a notification for the slot. */
    var notify: seq<seq<nat>>
    ghost var queues: seq<seq<nat>>
    /** What each process sent last. */
    ghost var sent: seq<Message>

    ghost predicate Valid()
      reads this
    {
      && AllOk(table, queues) && Apart(queues) && NotMutual(queues) && |notify| == |sent| == |table|
      && forall d, i :: 0 <= d < |notify| && 0 <= i < |notify[d]| ==> notify[d][i] < |table|
    }

    /** The process runs, so it is not blocked in a send.  In a WINIX_SENDREC it is already marked as receiving. */
    ghost predicate Runs(cur: nat)
      reads this
    {
      cur < |table| && table[cur].inUse && !table[cur].sending
    }

    constructor (n: nat)
      ensures Valid() && Intact(table, queues, sent) && |table| == n && forall d :: 0 <= d < n ==> queues[d] == [] && notify[d] == []
    {
      table := seq(n, _ => Proc(false, false, false, NULL, NULL, []));
      notify := seq(n, _ => []);
      queues := seq(n, _ => []);
      sent := seq(n, _ => []);
    }

    /** The scan with which do_send looks for the destination among its own senders. */
    method WaitsForMe(cur: nat, dest: nat) returns (r: bool)
      requires Valid() && cur < |table|
      ensures r <==> dest in queues[cur]
    {
      hide Apart, NotMutual;
      assert SlotOk(table, queues[cur], cur);
      var xp := table[cur].senderQ;
      ghost var i := 0;
      while xp != NULL
        invariant 0 <= i <= |queues[cur]| && xp == (if i < |queues[cur]| then queues[cur][i] else NULL)
        invariant forall j :: 0 <= j < i ==> queues[cur][j] != dest
        decreases |queues[cur]| - i
      {
        LinkAt(table, queues[cur], table[cur].senderQ, i);
        if xp == dest {
          return true;
        }
        xp, i := table[xp].nextSender, i + 1;
      }
      return false;
    }

    /** The part of do_send that blocks the sender. */
    method Block(cur: nat, dest: nat)
      requires Valid() && cur < |table| && dest < |table| && cur != dest && !table[cur].sending && dest !in queues[cur]
      requires table[dest].inUse && !table[dest].receiving
      modifies `table, `queues
      ensures Valid() && queues == Joined(old(queues), cur, dest) && table == JoinTable(old(table), cur, dest)
    {
      hide Apart, NotMutual, Linked, AllOk;
      RunningIsFree(table, queues, cur);
      JoinAll(table, queues, cur, dest);
      JoinApart(queues, cur, dest);
      JoinNotMutual(queues, cur, dest);
      table := table[cur := table[cur].(sending := true)];
      table := table[cur := table[cur].(nextSender := table[dest].senderQ)];
      table := table[dest := table[dest].(senderQ := cur)];
      assert table == JoinTable(old(table), cur, dest);
      queues := Joined(queues, cur, dest);
    }

    /** do_send of m by cur. */
    method DoSend(cur: nat, dest: int, m: Message) returns (r: int)
      requires Valid() && Runs(cur) && dest != cur
      modifies `table, `queues, `sent
      ensures Valid() && |table| == |old(table)| && table[cur].message == m && sent == old(sent)[cur := m]
      ensures r == ESRCH <==> !(0 <= dest < |table| && old(table[dest]).inUse)
      ensures r == EDEADLK <==> r != ESRCH && dest in old(queues[cur])
      ensures r != OK ==> r in {ESRCH, EDEADLK} && queues == old(queues) && table == old(table)[cur := old(table[cur]).(message := m)] && Runs(cur)
      ensures r == OK && old(table[dest]).receiving ==> queues == old(queues) && Runs(cur)
      ensures r == OK && old(table[dest]).receiving ==>
        table == old(table)[cur := old(table[cur]).(message := m)][dest := old(table[dest]).(receiving := false, message := m)]
      ensures r == OK && !old(table[dest]).receiving ==> queues == Joined(old(queues), cur, dest) && table[cur].sending
      ensures r == OK && !old(table[dest]).receiving ==>
        && table[cur] == old(table[cur]).(message := m, sending := true, nextSender := old(table[dest]).senderQ)
        && table[dest] == old(table[dest]).(senderQ := cur)
        && forall k :: 0 <= k < |table| && k != cur && k != dest ==> table[k] == old(table[k])
      // The messages of processes that wait to send survive, unless the destination is one of them and waits for a reply too.
      ensures (forall k :: Queued(old(queues), k) ==> 0 <= k < |table| && table[k].message == old(table)[k].message) <==>
              !Overwrites(old(table), old(queues), cur, dest, m)
      ensures old(Intact(table, queues, sent)) ==>
        (Intact(table, queues, sent) <==> !Overwrites(old(table), old(queues), cur, dest, m))
    {
      hide Apart, NotMutual, Linked, Queued, Intact;
      r := Deliver(cur, dest, m);
      SurviveIff(old(table), table, old(queues), cur, dest, m);
      if old(Intact(table, queues, sent)) {
        IntactIff(old(table), table, old(queues), queues, old(sent), cur, dest, m);
      }
    }

    /** do_send, state by state. */
    method Deliver(cur: nat, dest: int, m: Message) returns (r: int)
      requires Valid() && Runs(cur) && dest != cur
      modifies `table, `queues, `sent
      ensures Valid() && |table| == |old(table)| && table[cur].message == m && sent == old(sent)[cur := m]
      ensures forall k :: Queued(queues, k) <==> Queued(old(queues), k) || (k == cur && Queued(queues, k))
      ensures r == ESRCH <==> !(0 <= dest < |table| && old(table[dest]).inUse)
      ensures r == EDEADLK <==> r != ESRCH && dest in old(queues[cur])
      ensures r != OK ==> r in {ESRCH, EDEADLK} && queues == old(queues) && table == old(table)[cur := old(table[cur]).(message := m)]
      ensures r == OK && old(table[dest]).receiving ==> queues == old(queues)
      ensures r == OK && old(table[dest]).receiving ==>
        table == old(table)[cur := old(table[cur]).(message := m)][dest := old(table[dest]).(receiving := false, message := m)]
      ensures r == OK && !old(table[dest]).receiving ==> queues == Joined(old(queues), cur, dest)
      ensures r == OK && !old(table[dest]).receiving ==>
        table == JoinTable(old(table)[cur := old(table[cur]).(message := m)], cur, dest)
    {
      hide Apart, NotMutual, Linked, Queued;
      Rewritten(table, queues, cur, table[cur].(message := m));
      table := table[cur := table[cur].(message := m)];
      sent := sent[cur := m];
      RunningIsFree(table, queues, cur);
      if 0 <= dest < |table| && table[dest].inUse {
        if table[dest].sending {
          var waits := WaitsForMe(cur, dest);
          if waits {
            return EDEADLK;
          }
        } else {
          RunningIsFree(table, queues, dest);
        }
        if table[dest].receiving {
          Rewritten(table, queues, dest, table[dest].(message := m, receiving := false));
          ghost var t := table;
          table := table[dest := table[dest].(message := m)];
          table := table[dest := table[dest].(receiving := false)];
          assert table == t[dest := t[dest].(message := m, receiving := false)];
        } else {
          Block(cur, dest);
          forall k
            ensures Queued(queues, k) <==> Queued(old(queues), k) || k == cur
          {
            JoinQueued(old(queues), cur, dest, k);
          }
        }
        return OK;
      }
      return ESRCH;
    }

    /** WINIX_SENDREC: the sender is marked as receiving before the send, and stays so unless the send fails. */
    method SendRec(cur: nat, dest: int, m: Message) returns (r: int)
      requires Valid() && Runs(cur) && dest != cur
      modifies `table, `queues, `sent
      ensures Valid() && |table| == |old(table)| && sent == old(sent)[cur := m]
      ensures table[cur].message == m && table[cur].receiving == (r == OK) && table[cur].inUse
      ensures r == ESRCH <==> !(0 <= dest < |table| && old(table[dest]).inUse)
      ensures r == EDEADLK <==> r != ESRCH && dest in old(queues[cur])
      ensures r != OK ==> r in {ESRCH, EDEADLK} && queues == old(queues) && Runs(cur)
      ensures r == OK && old(table[dest]).receiving ==>
        queues == old(queues) && Runs(cur) && table[dest] == old(table[dest]).(receiving := false, message := m)
      ensures r == OK && !old(table[dest]).receiving ==> queues == Joined(old(queues), cur, dest) && table[cur].sending
      ensures forall k :: 0 <= k < |table| && k != cur && k != dest ==> table[k] == old(table[k])
      ensures table[cur] == old(table[cur]).(message := m, receiving := r == OK, sending := table[cur].sending, nextSender := table[cur].nextSender)
      ensures if r == OK && !old(table[dest]).receiving then table[cur].sending && table[cur].nextSender == old(table[dest]).senderQ
              else !table[cur].sending && table[cur].nextSender == old(table[cur]).nextSender
      ensures r == OK && !old(table[dest]).receiving ==> table[dest] == old(table[dest]).(senderQ := cur)
      ensures r != OK && 0 <= dest < |table| ==> table[dest] == old(table[dest])
      ensures (forall k :: Queued(old(queues), k) ==> 0 <= k < |table| && table[k].message == old(table)[k].message) <==>
              !Overwrites(old(table), old(queues), cur, dest, m)
      ensures old(Intact(table, queues, sent)) ==>
        (Intact(table, queues, sent) <==> !Overwrites(old(table), old(queues), cur, dest, m))
    {
      hide Apart, NotMutual, Linked, AllOk, Queued;
      Rewritten(table, queues, cur, table[cur].(receiving := true));
      ghost var t := table;
      table := table[cur := table[cur].(receiving := true)];
      r := Deliver(cur, dest, m);
      if r < 0 {
        Rewritten(table, queues, cur, table[cur].(receiving := false));
        table := table[cur := table[cur].(receiving := false)];
      }
      SurviveIff(t, table, old(queues), cur, dest, m);
      if old(Intact(table, queues, sent)) {
        assert Intact(t, old(queues), old(sent));
        IntactIff(t, table, old(queues), queues, old(sent), cur, dest, m);
      }
    }

    /** do_receive by cur: a notification, else the message of the sender that came last, else cur
        blocks until there is one. */
    method DoReceive(cur: nat) returns (m: Message, blocked: bool)
      requires Valid() && Runs(cur)
      modifies `table, `notify, `queues
      ensures Valid() && |table| == |old(table)| && |queues| == |old(queues)|
      ensures blocked <==> old(notify[cur]) == [] && old(queues[cur]) == []
      ensures old(notify[cur]) != [] ==> m == old(table[notify[cur][0]]).message && notify == old(notify)[cur := old(notify[cur])[1..]]
      ensures old(notify[cur]) != [] ==> table == old(table) && queues == old(queues)
      ensures old(notify[cur]) == [] ==> notify == old(notify)
      ensures blocked ==> queues == old(queues) && table == old(table)[cur := old(table[cur]).(receiving := true)]
      ensures old(notify[cur]) == [] && old(queues[cur]) != [] ==>
        var p := old(queues[cur][0]);
        && p < |table| && p != cur && m == old(table[p]).message && queues == old(queues)[cur := old(queues[cur])[1..]] && Runs(cur)
        && table == old(table)[cur := old(table[cur]).(senderQ := old(table[p]).nextSender)][p := old(table[p]).(sending := false)]
      // What is received from a sender is what it sent.
      ensures old(Intact(table, queues, sent)) ==> Intact(table, queues, sent)
      ensures old(Intact(table, queues, sent)) && old(notify[cur]) == [] && old(queues[cur]) != [] ==>
        old(queues[cur][0]) < |sent| && m == sent[old(queues[cur][0])]
    {
      hide Apart, NotMutual, Linked, AllOk;
      SlotHead(table, queues, cur);
      if notify[cur] != [] {
        var p := notify[cur][0];
        notify := notify[cur := notify[cur][1..]];
        return table[p].message, false;
      }
      var p := table[cur].senderQ;
      if p != NULL {
        LeaveAll(table, queues, cur, 0);
        LeaveApart(queues, cur, 0);
        assert Removed(queues[cur], 0) == queues[cur][1..];
        assert Queued(queues, p);
        table := table[cur := table[cur].(senderQ := table[p].nextSender)];
        queues := queues[cur := Removed(queues[cur], 0)];
        m := table[p].message;
        Released(table, queues, p);
        table := table[p := table[p].(sending := false)];
        if old(Intact(table, queues, sent)) {
          IntactLeft(old(table), table, old(queues), queues, sent);
        }
        return m, false;
      }
      Rewritten(table, queues, cur, table[cur].(receiving := true));
      table := table[cur := table[cur].(receiving := true)];
      return [], true;
    }

    /** The body of clear_sending_mesg's loop over the process table. */
    method ClearQueue(rp: nat, who: nat)
      requires Valid() && rp < |table| && who < |table|
      modifies `table, `queues
      ensures Valid() && |table| == |old(table)| && queues == old(queues)[rp := Without(old(queues[rp]), who)]
      ensures forall k :: 0 <= k < |table| ==> Relinked(table[k], old(table[k]))
    {
      hide Apart, NotMutual, Linked, AllOk, Without;
      SlotHead(table, queues, rp);
      ghost var q := queues[rp];
      var prev, xp := NULL, table[rp].senderQ;
      ghost var i := 0;
      while xp != NULL && xp != who
        invariant 0 <= i <= |q| && xp == (if i < |q| then q[i] else NULL) && prev == (if i > 0 then q[i - 1] else NULL)
        invariant table == old(table) && queues == old(queues)
        invariant i < |q| ==> xp < |table|
        invariant forall j :: 0 <= j < i ==> q[j] != who
        decreases |q| - i
      {
        SlotLink(table, queues, rp, i);
        prev, xp, i := xp, table[xp].nextSender, i + 1;
        if i < |q| {
          SlotLink(table, queues, rp, i);
        }
      }
      if xp != NULL {
        LeaveAll(table, queues, rp, i);
        LeaveApart(queues, rp, i);
        WithoutRemoved(queues, rp, i);
        if prev == NULL {
          table := table[rp := table[rp].(senderQ := table[xp].nextSender)];
        } else {
          table := table[prev := table[prev].(nextSender := table[xp].nextSender)];
        }
        queues := queues[rp := Removed(q, i)];
      } else {
        WithoutSame(q, who);
      }
    }

    /** clear_sending_mesg: who leaves every queue it is in, and no other process does. */
    method ClearSendingMesg(who: nat)
      requires Valid() && who < |table|
      modifies `table, `queues
      ensures Valid() && |table| == |old(table)| && |queues| == |old(queues)|
      ensures forall d :: 0 <= d < |queues| ==> queues[d] == Without(old(queues[d]), who) && who !in queues[d]
      ensures forall k :: 0 <= k < |table| ==> Relinked(table[k], old(table[k]))
      ensures old(Intact(table, queues, sent)) ==> Intact(table, queues, sent)
    {
      hide Apart, NotMutual, Linked, Without;
      ghost var qs := queues;
      for rp := 0 to |table|
        invariant Valid() && |table| == |old(table)| && |queues| == |qs|
        invariant forall k :: 0 <= k < |table| ==> Relinked(table[k], old(table[k]))
        invariant forall d :: 0 <= d < |qs| ==> queues[d] == if d < rp then Without(qs[d], who) else qs[d]
      {
        if table[rp].inUse {
          ClearQueue(rp, who);
        } else {
          assert SlotOk(table, queues[rp], rp);
          WithoutSame(qs[rp], who);
        }
      }
      forall d | 0 <= d < |qs|
        ensures who !in Without(qs[d], who) && forall k :: k in Without(qs[d], who) ==> k in qs[d]
      {
        WithoutNot(qs[d], who);
      }
      if old(Intact(table, queues, sent)) {
        IntactLeft(old(table), table, qs, queues, sent);
      }
    }
  }

  lemma {:induction false} SlotHead(t: seq<Proc>, qs: seq<seq<nat>>, d: nat)
    requires AllOk(t, qs) && d < |t|
    ensures |qs| == |t| && t[d].senderQ == (if qs[d] == [] then NULL else qs[d][0])
    ensures qs[d] != [] ==> qs[d][0] < |t| && t[qs[d][0]].sending && t[qs[d][0]].nextSender == if |qs[d]| > 1 then qs[d][1] else NULL
  {
    assert SlotOk(t, qs[d], d);
    if qs[d] != [] {
      LinkAt(t, qs[d], t[d].senderQ, 0);
    }
  }

  lemma {:induction false} SlotLink(t: seq<Proc>, qs: seq<seq<nat>>, d: nat, i: nat)
    requires AllOk(t, qs) && d < |t| && |qs| == |t| && i < |qs[d]|
    ensures qs[d][i] < |t| && t[qs[d][i]].nextSender == if i + 1 < |qs[d]| then qs[d][i + 1] else NULL
  {
    assert SlotOk(t, qs[d], d);
    LinkAt(t, qs[d], t[d].senderQ, i);
  }

  lemma {:induction false} LeaveAll(t: seq<Proc>, qs: seq<seq<nat>>, d: nat, i: nat)
    requires AllOk(t, qs) && Apart(qs) && d < |t| && |qs| == |t| && i < |qs[d]|
    ensures qs[d][i] < |t| && (i > 0 ==> qs[d][i - 1] < |t|)
    ensures AllOk(LeaveTable(t, qs[d], d, i), qs[d := Removed(qs[d], i)])
  {
    hide Apart;
    SlotLink(t, qs, d, i);
    if i > 0 {
      SlotLink(t, qs, d, i - 1);
    }
    var u, ps := LeaveTable(t, qs[d], d, i), qs[d := Removed(qs[d], i)];
    forall e | 0 <= e < |u|
      ensures SlotOk(u, ps[e], e)
    {
      LeaveSlot(t, qs, d, i, e);
    }
  }

  /** A process that is in no queue may stop sending. */
  lemma {:induction false} Released(t: seq<Proc>, qs: seq<seq<nat>>, p: nat)
    requires AllOk(t, qs) && p < |t| && forall d :: 0 <= d < |qs| ==> p !in qs[d]
    ensures AllOk(t[p := t[p].(sending := false)], qs)
  {
    var u := t[p := t[p].(sending := false)];
    forall d | 0 <= d < |u|
      ensures SlotOk(u, qs[d], d)
    {
      assert SlotOk(t, qs[d], d);
      LinkedFrame(t, u, qs[d], t[d].senderQ);
    }
  }

  /** The queue without a process. */
  function Without(q: seq<nat>, who: nat): seq<nat> {
    if q == [] then [] else if q[0] == who then Without(q[1..], who) else [q[0]] + Without(q[1..], who)
  }

  lemma {:induction false} WithoutSame(q: seq<nat>, who: nat)
    requires forall j :: 0 <= j < |q| ==> q[j] != who
    ensures Without(q, who) == q
    decreases |q|
  {
    if q != [] {
      WithoutSame(q[1..], who);
    }
  }

  lemma {:induction false} WithoutNot(q: seq<nat>, who: nat)
    ensures who !in Without(q, who) && forall k :: k in Without(q, who) ==> k in q
    decreases |q|
  {
    if q != [] {
      WithoutNot(q[1..], who);
    }
  }

  lemma {:induction false} WithoutAt(q: seq<nat>, i: nat)
    requires i < |q| && forall j :: 0 <= j < |q| && j != i ==> q[j] != q[i]
    ensures Without(q, q[i]) == Removed(q, i)
    decreases i
  {
    if i == 0 {
      WithoutSame(q[1..], q[0]);
    } else {
      WithoutAt(q[1..], i - 1);
      assert Removed(q, i) == [q[0]] + Removed(q[1..], i - 1);
    }
  }

  lemma {:induction false} WithoutRemoved(qs: seq<seq<nat>>, d: nat, i: nat)
    requires Apart(qs) && d < |qs| && i < |qs[d]|
    ensures Without(qs[d], qs[d][i]) == Removed(qs[d], i)
  {
    WithoutAt(qs[d], i);
  }

  /** A process's message, and whether it receives, are no part of the queues. */
  lemma {:induction false} Rewritten(t: seq<Proc>, qs: seq<seq<nat>>, k: nat, p: Proc)
    requires AllOk(t, qs) && k < |t| && p == t[k].(message := p.message, receiving := p.receiving)
    ensures AllOk(t[k := p], qs)
  {
    var u := t[k := p];
    forall d | 0 <= d < |u|
      ensures SlotOk(u, qs[d], d)
    {
      assert SlotOk(t, qs[d], d);
      LinkedFrame(t, u, qs[d], t[d].senderQ);
    }
  }

  /** Process 0 sends a to process 1 and waits for its reply; before 1 receives, 2 sends c to 0.  What 1 then receives, from the
      head of its queue, is c. */
  method OverwrittenMessage(a: Message, c: Message) returns (got: Message)
    ensures got == c
  {
    var k := new Kernel(3);
    k.table := seq(3, _ => Proc(true, false, false, NULL, NULL, []));
    StartOk(k.table, k.queues);
    var r := k.SendRec(0, 1, a);
    assert k.queues[1] == [0] && k.queues[2] == [] && k.table[0].receiving;
    r := k.DoSend(2, 0, c);
    assert k.queues[1] == [0] && k.table[0].message == c;
    var blocked;
    got, blocked := k.DoReceive(1);
  }

  lemma {:induction false} StartOk(t: seq<Proc>, qs: seq<seq<nat>>)
    requires |t| == |qs| && forall d :: 0 <= d < |t| ==> qs[d] == [] && t[d].senderQ == NULL
    ensures AllOk(t, qs)
  {
    forall d | 0 <= d < |t|
      ensures SlotOk(t, qs[d], d)
    {
    }
  }

  // ---------- Deadlock ----------

  /** Process a is blocked sending to b. */
  ghost predicate Waits(qs: seq<seq<nat>>, a: nat, b: nat) {
    b < |qs| && a in qs[b]
  }

  /** Each process of ps waits for the next. */
  ghost predicate Path(qs: seq<seq<nat>>, ps: seq<nat>) {
    ps != [] && forall i :: 0 <= i < |ps| - 1 ==> Step(qs, ps, i)
  }

  ghost predicate Step(qs: seq<seq<nat>>, ps: seq<nat>, i: nat)
    requires i < |ps| - 1
  {
    Waits(qs, ps[i], ps[i + 1])
  }

  /** Step i of ps goes from a to b. */
  ghost predicate Uses(ps: seq<nat>, i: int, a: nat, b: nat) {
    0 <= i < |ps| - 1 && ps[i] == a && ps[i + 1] == b
  }

  ghost predicate Cycle(qs: seq<seq<nat>>) {
    exists ps :: Path(qs, ps) && |ps| >= 2 && ps[0] == ps[|ps| - 1]
  }

  /** From a one gets to b by following who waits for whom. */
  ghost predicate Reaches(qs: seq<seq<nat>>, a: nat, b: nat) {
    exists ps :: Path(qs, ps) && ps[0] == a && ps[|ps| - 1] == b
  }

  lemma {:induction false} JoinedWaits(qs: seq<seq<nat>>, cur: nat, dest: nat, a: nat, b: nat)
    requires dest < |qs|
    ensures Waits(Joined(qs, cur, dest), a, b) <==> Waits(qs, a, b) || (a == cur && b == dest)
  {
  }

  /** A path without the new edge was there before. */
  lemma {:induction false} OldPath(qs: seq<seq<nat>>, cur: nat, dest: nat, ps: seq<nat>)
    requires dest < |qs| && Path(Joined(qs, cur, dest), ps)
    requires forall i :: !Uses(ps, i, cur, dest)
    ensures Path(qs, ps)
  {
    forall i | 0 <= i < |ps| - 1
      ensures Step(qs, ps, i)
    {
      assert Step(Joined(qs, cur, dest), ps, i) && !Uses(ps, i, cur, dest);
      JoinedWaits(qs, cur, dest, ps[i], ps[i + 1]);
    }
  }

  lemma {:induction false} SubPath(qs: seq<seq<nat>>, ps: seq<nat>, i: nat, j: nat)
    requires Path(qs, ps) && i < j <= |ps|
    ensures Path(qs, ps[i..j])
  {
    var rs := ps[i..j];
    forall k | 0 <= k < |rs| - 1
      ensures Step(qs, rs, k)
    {
      assert Step(qs, ps, i + k);
      assert rs[k] == ps[i + k] && rs[k + 1] == ps[i + k + 1];
    }
  }

  lemma {:induction false} JoinPaths(qs: seq<seq<nat>>, ps: seq<nat>, rs: seq<nat>)
    requires Path(qs, ps) && Path(qs, rs) && ps[|ps| - 1] == rs[0]
    ensures var us := ps + rs[1..]; Path(qs, us) && us[0] == ps[0] && us[|us| - 1] == rs[|rs| - 1]
  {
    var us := ps + rs[1..];
    forall i | 0 <= i < |us| - 1
      ensures Step(qs, us, i)
    {
      if i + 1 < |ps| {
        assert Step(qs, ps, i);
        assert us[i] == ps[i] && us[i + 1] == ps[i + 1];
      } else {
        var k := i + 1 - |ps|;
        assert Step(qs, rs, k);
        assert us[i] == rs[k] && us[i + 1] == rs[k + 1];
      }
    }
  }

  /** The first, and the last, step that uses the new edge. */
  lemma {:induction false} FirstUse(ps: seq<nat>, cur: nat, dest: nat, n: int) returns (i: nat)
    requires Uses(ps, n, cur, dest)
    ensures i <= n && Uses(ps, i, cur, dest) && forall k :: k < i ==> !Uses(ps, k, cur, dest)
    decreases n
  {
    if k :| k < n && Uses(ps, k, cur, dest) {
      i := FirstUse(ps, cur, dest, k);
    } else {
      i := n;
    }
  }

  lemma {:induction false} LastUse(ps: seq<nat>, cur: nat, dest: nat, n: int) returns (i: nat)
    requires Uses(ps, n, cur, dest)
    ensures n <= i && Uses(ps, i, cur, dest) && forall k :: k > i ==> !Uses(ps, k, cur, dest)
    decreases |ps| - n
  {
    if k :| k > n && Uses(ps, k, cur, dest) {
      i := LastUse(ps, cur, dest, k);
    } else {
      i := n;
    }
  }

  /** A send that blocks closes a cycle of waiting processes exactly when its destination already waits,
      directly or through others, for the sender. */
  lemma {:induction false} SendClosesCycleIff(qs: seq<seq<nat>>, cur: nat, dest: nat)
    requires dest < |qs| && !Cycle(qs)
    ensures Cycle(Joined(qs, cur, dest)) <==> Reaches(qs, dest, cur)
  {
    var js := Joined(qs, cur, dest);
    if Reaches(qs, dest, cur) {
      var ps :| Path(qs, ps) && ps[0] == dest && ps[|ps| - 1] == cur;
      ClosedCycle(qs, cur, dest, ps);
    }
    if Cycle(js) {
      var ps :| Path(js, ps) && |ps| >= 2 && ps[0] == ps[|ps| - 1];
      CycleGivesPath(qs, cur, dest, ps);
    }
  }

  lemma {:induction false} ClosedCycle(qs: seq<seq<nat>>, cur: nat, dest: nat, ps: seq<nat>)
    requires dest < |qs| && Path(qs, ps) && ps[0] == dest && ps[|ps| - 1] == cur
    ensures Cycle(Joined(qs, cur, dest))
  {
    var js, rs := Joined(qs, cur, dest), [cur] + ps;
    forall i | 0 <= i < |rs| - 1
      ensures Step(js, rs, i)
    {
      JoinedWaits(qs, cur, dest, rs[i], rs[i + 1]);
      if i > 0 {
        assert Step(qs, ps, i - 1);
        assert rs[i] == ps[i - 1] && rs[i + 1] == ps[i];
      }
    }
    assert Path(js, rs);
  }

  lemma {:induction false} CycleGivesPath(qs: seq<seq<nat>>, cur: nat, dest: nat, ps: seq<nat>)
    requires dest < |qs| && !Cycle(qs)
    requires Path(Joined(qs, cur, dest), ps) && |ps| >= 2 && ps[0] == ps[|ps| - 1]
    ensures Reaches(qs, dest, cur)
  {
    var js := Joined(qs, cur, dest);
    if n :| Uses(ps, n, cur, dest) {
      var i := LastUse(ps, cur, dest, n);
      var j := FirstUse(ps, cur, dest, n);
      var us, vs := ps[i + 1..|ps|], ps[0..j + 1];
      SubPath(js, ps, i + 1, |ps|);
      SubPath(js, ps, 0, j + 1);
      forall k
        ensures !Uses(us, k, cur, dest) && !Uses(vs, k, cur, dest)
      {
        assert !Uses(ps, i + 1 + k, cur, dest) || k < 0;
        assert !Uses(ps, k, cur, dest) || k >= j;
      }
      OldPath(qs, cur, dest, us);
      OldPath(qs, cur, dest, vs);
      JoinPaths(qs, us, vs);
    } else {
      OldPath(qs, cur, dest, ps);
    }
  }

  /** So the check in do_send, which looks one step ahead, does not exclude deadlock: three processes may
      send to each other in a ring and all block. */
  lemma {:induction false} RingOfThree()
    ensures var q0: seq<seq<nat>> := [[], [], []]; var q1 := Joined(q0, 0, 1); var q2 := Joined(q1, 1, 2); var q3 := Joined(q2, 2, 0);
      1 !in q0[0] && 2 !in q1[1] && 0 !in q2[2] && Apart(q3) && NotMutual(q3) && Cycle(q3)
  {
    var q0: seq<seq<nat>> := [[], [], []];
    var q1 := Joined(q0, 0, 1);
    var q2 := Joined(q1, 1, 2);
    var q3 := Joined(q2, 2, 0);
    assert q3[0] == [2] && q3[1] == [0] && q3[2] == [1];
    var ps: seq<nat> := [0, 1, 2, 0];
    assert Waits(q3, 0, 1) && Waits(q3, 1, 2) && Waits(q3, 2, 0);
    assert Step(q3, ps, 0) && Step(q3, ps, 1) && Step(q3, ps, 2);
    assert Path(q3, ps);
  }
}
