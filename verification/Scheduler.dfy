/** Thread queues: kernel/include/api/v4/schedule.h and kernel/include/api/v4/tcb.h.

    Each thread control block is threaded into up to three rings: the ready ring of its priority, the
    wakeup ring, and the send ring of one receiver.  A bit of the queue state says for each kind
    whether it is in one.
 */
module Scheduler {
  import opened Rings

  const MAX_PRIO: nat := 255

  /** The fields of a thread control block that the queues use; the three bits are `queue_state`. */
  datatype Tcb = Tcb(priority: int, sensitive_prio: int, ready: bool, wakeup: bool, send: bool,
                     absolute_timeout: nat, send_head: nat)

  ghost predicate TcbsOk(tcbs: map<nat, Tcb>, links: map<nat, Link>) {
    links.Keys == tcbs.Keys && 0 !in tcbs && forall t :: t in tcbs ==> tcbs[t].priority <= MAX_PRIO
  }

  /** Each priority's ring holds the ready threads of that priority; above `max_prio` there are none. */
  ghost predicate ReadyOk(tcbs: map<nat, Tcb>, links: map<nat, Link>, heads: seq<nat>, max_prio: int,
                          rings: seq<seq<nat>>) {
    && TcbsOk(tcbs, links) && |heads| == |rings| == MAX_PRIO + 1
    && (forall p :: 0 <= p <= MAX_PRIO ==> IsRing(links, heads[p], rings[p]))
    && (forall p, t :: 0 <= p <= MAX_PRIO && t in rings[p] ==> t in tcbs && tcbs[t].priority == p)
    && (forall t :: t in tcbs ==> (tcbs[t].ready <==> 0 <= tcbs[t].priority && t in rings[tcbs[t].priority]))
    && (forall p :: 0 <= p <= MAX_PRIO && p > max_prio ==> rings[p] == [])
  }

  ghost predicate WakeupOk(tcbs: map<nat, Tcb>, links: map<nat, Link>, head: nat, ring: seq<nat>) {
    && TcbsOk(tcbs, links) && IsRing(links, head, ring)
    && (forall t :: t in ring ==> t in tcbs)
    && (forall t :: t in tcbs ==> (tcbs[t].wakeup <==> t in ring))
  }

  /** `receiver` says whose send ring a thread is in. */
  ghost predicate SendOk(tcbs: map<nat, Tcb>, links: map<nat, Link>, rings: map<nat, seq<nat>>,
                         receiver: map<nat, nat>) {
    && TcbsOk(tcbs, links) && rings.Keys == tcbs.Keys
    && (forall r :: r in tcbs ==> IsRing(links, tcbs[r].send_head, rings[r]))
    && ReceiversOk(rings, receiver)
    && (forall t :: t in receiver ==> t in tcbs)
    && (forall t :: t in tcbs ==> (tcbs[t].send <==> t in receiver))
  }

  ghost predicate ReceiversOk(rings: map<nat, seq<nat>>, receiver: map<nat, nat>) {
    && (forall r, t :: r in rings && t in rings[r] ==> t in receiver && receiver[t] == r)
    && (forall t :: t in receiver ==> receiver[t] in rings && t in rings[receiver[t]])
  }

  class ThreadQueues {
    var tcbs: map<nat, Tcb>
    /** `ready_list`, `wait_list` and `send_list` of every thread control block. */
    var ready_list: map<nat, Link>
    var wait_list: map<nat, Link>
    var send_list: map<nat, Link>
    const prio_queue: array<nat>
    var max_prio: int
    var wakeup_list: nat
    ghost var ready: seq<seq<nat>>
    ghost var wakeup: seq<nat>
    ghost var send: map<nat, seq<nat>>
    ghost var receiver: map<nat, nat>

    ghost predicate Valid()
      reads this, prio_queue
    {
      && prio_queue.Length == MAX_PRIO + 1
      && ReadyOk(tcbs, ready_list, prio_queue[..], max_prio, ready)
      && WakeupOk(tcbs, wait_list, wakeup_list, wakeup)
      && SendOk(tcbs, send_list, send, receiver)
    }

    /** Empty queues.  The loop of `init` stops one short of the highest priority, so that slot must be
        null beforehand. */
    constructor (threads: map<nat, Tcb>, links: map<nat, Link>, queue: array<nat>)
      requires TcbsOk(threads, links) && queue.Length == MAX_PRIO + 1 && queue[MAX_PRIO] == 0
      requires forall t :: t in threads ==>
        !threads[t].ready && !threads[t].wakeup && !threads[t].send && threads[t].send_head == 0
      modifies queue
      ensures Valid() && prio_queue == queue && tcbs == threads && max_prio == -1
      ensures wakeup == [] && receiver == map[] && forall p :: 0 <= p <= MAX_PRIO ==> ready[p] == []
    {
      tcbs, ready_list, wait_list, send_list := threads, links, links, links;
      prio_queue := queue;
      max_prio := -1;
      wakeup_list := 0;
      ready := seq(MAX_PRIO + 1, _ => []);
      wakeup := [];
      send := map t | t in threads :: [];
      receiver := map[];
      new;
      for i := 0 to MAX_PRIO
        invariant forall p :: 0 <= p < i ==> queue[p] == 0
        invariant queue[MAX_PRIO] == 0
        modifies queue
      {
        queue[i] := 0;
      }
    }

    /** `prio_queue_t::enqueue`. */
    method EnqueueReady(tcb: nat, head: bool)
      requires Valid() && tcb in tcbs && (tcbs[tcb].ready || tcbs[tcb].priority >= 0)
      modifies this`tcbs, this`ready_list, this`max_prio, this`ready, prio_queue
      ensures Valid()
      ensures old(tcbs[tcb].ready) ==> ready == old(ready)
      ensures !old(tcbs[tcb].ready) ==>
        var p := old(tcbs[tcb].priority);
        ready == old(ready)[p := if head then [tcb] + old(ready)[p] else old(ready)[p] + [tcb]]
      ensures tcbs == old(tcbs)[tcb := old(tcbs)[tcb].(ready := true)]
      // the mark goes up to the priority of a thread that joins, and never down
      ensures var p := old(tcbs[tcb].priority);
        max_prio == if !old(tcbs[tcb].ready) && old(max_prio) < p then p else old(max_prio)
    {
      hide ReadyOk, WakeupOk, SendOk;
      if tcbs[tcb].ready {
        return;
      }
      ghost var tcbs0, links0, heads0, max0 := tcbs, ready_list, prio_queue[..], max_prio;
      var p := tcbs[tcb].priority;
      NotYetReady(tcbs, ready_list, heads0, max_prio, ready, tcb);
      var h;
      if head {
        ready_list, h := EnqueueListHead(ready_list, prio_queue[p], tcb, ready[p]);
      } else {
        ready_list, h := EnqueueListTail(ready_list, prio_queue[p], tcb, ready[p]);
      }
      prio_queue[p] := h;
      tcbs := tcbs[tcb := tcbs[tcb].(ready := true)];
      max_prio := if p > max_prio then p else max_prio;
      ghost var ring := if head then [tcb] + ready[p] else ready[p] + [tcb];
      ReadyAdded(tcbs0, links0, heads0, max0, ready, tcb, ready_list, h, ring);
      assert prio_queue[..] == heads0[p := h];
      ready := ready[p := ring];
      OthersSame(tcbs0, tcbs, wait_list, wakeup_list, wakeup, send_list, send, receiver, tcb);
    }

    /** `prio_queue_t::dequeue`. */
    method DequeueReady(tcb: nat)
      requires Valid() && tcb in tcbs
      modifies this`tcbs, this`ready_list, this`ready, prio_queue
      ensures Valid()
      ensures !old(tcbs[tcb].ready) ==> ready == old(ready)
      ensures old(tcbs[tcb].ready) ==>
        var p := old(tcbs[tcb].priority); var ring := old(ready)[p];
        exists i :: 0 <= i < |ring| && ring[i] == tcb && ready == old(ready)[p := Without(ring, i)]
      ensures tcbs == old(tcbs)[tcb := old(tcbs)[tcb].(ready := false)]
    {
      hide ReadyOk, WakeupOk, SendOk;
      if !tcbs[tcb].ready {
        return;
      }
      ghost var tcbs0, links0, heads0 := tcbs, ready_list, prio_queue[..];
      var p := tcbs[tcb].priority;
      ghost var i := ReadyPosition(tcbs, ready_list, heads0, max_prio, ready, tcb);
      var h;
      ready_list, h := DequeueList(ready_list, prio_queue[p], tcb, ready[p], i);
      prio_queue[p] := h;
      tcbs := tcbs[tcb := tcbs[tcb].(ready := false)];
      ReadyRemoved(tcbs0, links0, heads0, max_prio, ready, tcb, i, ready_list, h);
      assert prio_queue[..] == heads0[p := h];
      ready := ready[p := Without(ready[p], i)];
      OthersSame(tcbs0, tcbs, wait_list, wakeup_list, wakeup, send_list, send, receiver, tcb);
    }

    /** `set_priority`, of a thread that is not ready. */
    method SetPriority(tcb: nat, prio: int)
      requires Valid() && tcb in tcbs && !tcbs[tcb].ready && prio <= MAX_PRIO
      modifies this`tcbs
      ensures Valid()
      ensures var s := old(tcbs)[tcb].sensitive_prio;
        tcbs == old(tcbs)[tcb := old(tcbs)[tcb].(priority := prio, sensitive_prio := if s < prio then prio else s)]
    {
      hide ReadyOk, WakeupOk, SendOk;
      ghost var tcbs0 := tcbs;
      tcbs := tcbs[tcb := tcbs[tcb].(priority := prio)];
      if tcbs[tcb].sensitive_prio < prio {
        tcbs := tcbs[tcb := tcbs[tcb].(sensitive_prio := prio)];
      }
      Repriorized(tcbs0, tcbs, ready_list, prio_queue[..], max_prio, ready, tcb);
      OthersSame(tcbs0, tcbs, wait_list, wakeup_list, wakeup, send_list, send, receiver, tcb);
    }

    /** `set_timeout`, of a thread that is not in the wakeup queue. */
    method SetTimeout(tcb: nat, absolute_time: nat)
      requires Valid() && tcb in tcbs && !tcbs[tcb].wakeup
      modifies this`tcbs, this`wait_list, this`wakeup_list, this`wakeup
      ensures Valid() && wakeup == old(wakeup) + [tcb]
      ensures tcbs == old(tcbs)[tcb := old(tcbs)[tcb].(wakeup := true, absolute_timeout := absolute_time)]
    {
      hide ReadyOk, SendOk, WakeupOk, IsRing;
      ghost var tcbs0, links0, head0 := tcbs, wait_list, wakeup_list;
      NotYetWaiting(tcbs, wait_list, wakeup_list, wakeup, tcb);
      tcbs := tcbs[tcb := tcbs[tcb].(absolute_timeout := absolute_time)];
      wait_list, wakeup_list := EnqueueListTail(wait_list, wakeup_list, tcb, wakeup);
      tcbs := tcbs[tcb := tcbs[tcb].(wakeup := true)];
      WakeupAdded(tcbs0, links0, head0, wakeup, tcb, wait_list, wakeup_list, tcbs);
      wakeup := wakeup + [tcb];
      ReadySame(tcbs0, tcbs, ready_list, prio_queue[..], max_prio, ready, tcb);
      SendSame(tcbs0, tcbs, send_list, send, receiver, tcb);
    }

    /** `cancel_timeout`. */
    method CancelTimeout(tcb: nat)
      requires Valid() && tcb in tcbs
      modifies this`tcbs, this`wait_list, this`wakeup_list, this`wakeup
      ensures Valid()
      ensures !old(tcbs[tcb].wakeup) ==> wakeup == old(wakeup)
      ensures old(tcbs[tcb].wakeup) ==>
        exists i :: 0 <= i < |old(wakeup)| && old(wakeup)[i] == tcb && wakeup == Without(old(wakeup), i)
      ensures tcbs == old(tcbs)[tcb := old(tcbs)[tcb].(wakeup := false)]
    {
      hide ReadyOk, SendOk, WakeupOk, IsRing, Without;
      if !tcbs[tcb].wakeup {
        return;
      }
      ghost var tcbs0, links0, head0 := tcbs, wait_list, wakeup_list;
      ghost var i := WakeupPosition(tcbs, wait_list, wakeup_list, wakeup, tcb);
      wait_list, wakeup_list := DequeueList(wait_list, wakeup_list, tcb, wakeup, i);
      tcbs := tcbs[tcb := tcbs[tcb].(wakeup := false)];
      WakeupRemoved(tcbs0, links0, head0, wakeup, tcb, i, wait_list, wakeup_list, tcbs);
      wakeup := Without(wakeup, i);
      ReadySame(tcbs0, tcbs, ready_list, prio_queue[..], max_prio, ready, tcb);
      SendSame(tcbs0, tcbs, send_list, send, receiver, tcb);
    }

    /** `enqueue_send`: into the send queue of the thread `to`. */
    method EnqueueSend(tcb: nat, to: nat)
      requires Valid() && tcb in tcbs && to in tcbs && !tcbs[tcb].send
      modifies this`tcbs, this`send_list, this`send, this`receiver
      ensures Valid() && to in old(send) && send == old(send)[to := old(send)[to] + [tcb]]
      ensures receiver == old(receiver)[tcb := to]
      ensures tcbs.Keys == old(tcbs).Keys
      ensures forall t :: t in tcbs ==> tcbs[t] == old(tcbs)[t].(send := tcbs[t].send, send_head := tcbs[t].send_head)
    {
      hide ReadyOk, WakeupOk, SendOk, IsRing, OthersKept;
      ghost var tcbs0, links0 := tcbs, send_list;
      NotYetSending(tcbs, send_list, send, receiver, tcb, to);
      var h;
      send_list, h := EnqueueListTail(send_list, tcbs[to].send_head, tcb, send[to]);
      tcbs := tcbs[to := tcbs[to].(send_head := h)];
      tcbs := tcbs[tcb := tcbs[tcb].(send := true)];
      SendAdded(tcbs0, links0, send, receiver, tcb, to, send_list, h, tcbs);
      send := send[to := send[to] + [tcb]];
      receiver := receiver[tcb := to];
      SendBitsOnly(tcbs0, tcbs, ready_list, prio_queue[..], max_prio, ready, wait_list, wakeup_list, wakeup);
    }

    /** `dequeue_send`: out of the send queue of the thread it is in. */
    method DequeueSend(tcb: nat, from: nat)
      requires Valid() && tcb in tcbs && tcbs[tcb].send && tcb in receiver && receiver[tcb] == from && from in tcbs
      modifies this`tcbs, this`send_list, this`send, this`receiver
      ensures Valid() && receiver == old(receiver) - {tcb} && from in old(send)
      ensures exists i ::
        && 0 <= i < |old(send)[from]| && old(send)[from][i] == tcb
        && send == old(send)[from := Without(old(send)[from], i)]
      ensures tcbs.Keys == old(tcbs).Keys
      ensures forall t :: t in tcbs ==> tcbs[t] == old(tcbs)[t].(send := tcbs[t].send, send_head := tcbs[t].send_head)
    {
      hide ReadyOk, WakeupOk, SendOk;
      ghost var tcbs0, links0 := tcbs, send_list;
      ghost var i := SendPosition(tcbs, send_list, send, receiver, tcb, from);
      var h;
      send_list, h := DequeueList(send_list, tcbs[from].send_head, tcb, send[from], i);
      tcbs := tcbs[from := tcbs[from].(send_head := h)];
      tcbs := tcbs[tcb := tcbs[tcb].(send := false)];
      SendRemoved(tcbs0, links0, send, receiver, tcb, from, i, send_list, h, tcbs);
      send := send[from := Without(send[from], i)];
      receiver := receiver - {tcb};
      SendBitsOnly(tcbs0, tcbs, ready_list, prio_queue[..], max_prio, ready, wait_list, wakeup_list, wakeup);
    }
  }

  /* ---------- the ready rings ---------- */

  lemma {:induction false} NotYetReady(tcbs: map<nat, Tcb>, links: map<nat, Link>, heads: seq<nat>, max_prio: int,
                                       rings: seq<seq<nat>>, t: nat)
    requires ReadyOk(tcbs, links, heads, max_prio, rings) && t in tcbs && !tcbs[t].ready && tcbs[t].priority >= 0
    ensures var p := tcbs[t].priority;
            p <= MAX_PRIO && |heads| == |rings| == MAX_PRIO + 1 && IsRing(links, heads[p], rings[p]) && t !in rings[p]
              && t != 0 && t in links
  {
  }

  /** A ring is not disturbed by what happens to threads outside it. */
  lemma {:induction false} RingKept(links: map<nat, Link>, links': map<nat, Link>, head: nat, ring: seq<nat>,
                                    other: seq<nat>)
    requires IsRing(links, head, ring) && OthersKept(links, links', other) && forall t :: t in ring ==> t !in other
    ensures IsRing(links', head, ring)
  {
    forall i | 0 <= i < |ring| ensures LinkedAt(links', ring, i) {
      assert LinkedAt(links, ring, i) && ring[i] in ring;
    }
  }

  /** The rings of two priorities share no thread. */
  lemma {:induction false} PrioritiesApart(tcbs: map<nat, Tcb>, links: map<nat, Link>, heads: seq<nat>, max_prio: int,
                                           rings: seq<seq<nat>>, p: nat, q: nat)
    requires ReadyOk(tcbs, links, heads, max_prio, rings) && p <= MAX_PRIO && q <= MAX_PRIO && p != q
    ensures forall t :: t in rings[p] ==> t !in rings[q]
  {
    forall t | t in rings[p] ensures t !in rings[q] {
      assert tcbs[t].priority == p;
    }
  }

  lemma {:induction false} ReadyAdded(tcbs: map<nat, Tcb>, links: map<nat, Link>, heads: seq<nat>, max_prio: int,
                                      rings: seq<seq<nat>>, t: nat, links': map<nat, Link>, h: nat, ring: seq<nat>)
    requires ReadyOk(tcbs, links, heads, max_prio, rings) && t in tcbs && !tcbs[t].ready
    requires 0 <= tcbs[t].priority < |rings|
    requires var p := tcbs[t].priority; (ring == [t] + rings[p] || ring == rings[p] + [t]) && IsRing(links', h, ring)
    requires OthersKept(links, links', ring)
    ensures var p := tcbs[t].priority;
            |heads| == |rings|
            && ReadyOk(tcbs[t := tcbs[t].(ready := true)], links', heads[p := h], if p > max_prio then p
                       else max_prio, rings[p := ring])
  {
    hide IsRing;
    var p := tcbs[t].priority;
    forall q | 0 <= q <= MAX_PRIO && q != p ensures IsRing(links', heads[q], rings[q]) {
      PrioritiesApart(tcbs, links, heads, max_prio, rings, q, p);
      RingKept(links, links', heads[q], rings[q], ring);
    }
  }

  ghost function ReadyPosition(tcbs: map<nat, Tcb>, links: map<nat, Link>, heads: seq<nat>, max_prio: int,
                               rings: seq<seq<nat>>, t: nat): (i: nat)
    requires ReadyOk(tcbs, links, heads, max_prio, rings) && t in tcbs && tcbs[t].ready
    ensures var p := tcbs[t].priority;
            0 <= p <= MAX_PRIO && |heads| == |rings| == MAX_PRIO + 1 && IsRing(links, heads[p], rings[p])
              && i < |rings[p]| && rings[p][i] == t
  {
    var i: nat :| i < |rings[tcbs[t].priority]| && rings[tcbs[t].priority][i] == t;
    i
  }

  lemma {:induction false} ReadyRemoved(tcbs: map<nat, Tcb>, links: map<nat, Link>, heads: seq<nat>, max_prio: int,
                                        rings: seq<seq<nat>>, t: nat, i: nat, links': map<nat, Link>, h: nat)
    requires ReadyOk(tcbs, links, heads, max_prio, rings) && t in tcbs && tcbs[t].ready
    requires 0 <= tcbs[t].priority < |rings|
    requires i < |rings[tcbs[t].priority]| && rings[tcbs[t].priority][i] == t
    requires var p := tcbs[t].priority; IsRing(links', h, Without(rings[p], i)) && OthersKept(links, links', rings[p])
    ensures var p := tcbs[t].priority;
            |heads| == |rings|
            && ReadyOk(tcbs[t := tcbs[t].(ready := false)], links', heads[p := h], max_prio,
                       rings[p := Without(rings[p], i)])
  {
    hide IsRing, Without;
    var p := tcbs[t].priority;
    WithoutDistinct(links, heads[p], rings[p], i);
    WithoutNothing(rings[p], i);
    forall q | 0 <= q <= MAX_PRIO && q != p ensures IsRing(links', heads[q], rings[q]) {
      PrioritiesApart(tcbs, links, heads, max_prio, rings, q, p);
      RingKept(links, links', heads[q], rings[q], rings[p]);
    }
  }

  lemma {:induction false} WithoutNothing(ring: seq<nat>, i: nat)
    requires i < |ring|
    ensures |Without(ring, i)| == |ring| - 1
  {
  }

  lemma {:induction false} Repriorized(tcbs: map<nat, Tcb>, tcbs': map<nat, Tcb>, links: map<nat, Link>,
                                       heads: seq<nat>, max_prio: int, rings: seq<seq<nat>>, t: nat)
    requires ReadyOk(tcbs, links, heads, max_prio, rings) && t in tcbs && !tcbs[t].ready && t in tcbs'
    requires tcbs'[t].priority <= MAX_PRIO
    requires tcbs' == tcbs[t := tcbs'[t]] && !tcbs'[t].ready
    ensures ReadyOk(tcbs', links, heads, max_prio, rings)
  {
    hide IsRing;
  }

  /* ---------- the wakeup ring ---------- */

  lemma {:induction false} NotYetWaiting(tcbs: map<nat, Tcb>, links: map<nat, Link>, head: nat, ring: seq<nat>, t: nat)
    requires WakeupOk(tcbs, links, head, ring) && t in tcbs && !tcbs[t].wakeup
    ensures IsRing(links, head, ring) && t !in ring && t != 0 && t in links
  {
    hide IsRing;
  }

  lemma {:induction false} WakeupAdded(tcbs: map<nat, Tcb>, links: map<nat, Link>, head: nat, ring: seq<nat>, t: nat,
                                       links': map<nat, Link>, head': nat, tcbs': map<nat, Tcb>)
    requires WakeupOk(tcbs, links, head, ring) && t in tcbs && IsRing(links', head', ring + [t])
    requires OthersKept(links, links', ring + [t])
    requires t in tcbs' && tcbs' == tcbs[t := tcbs'[t]] && tcbs'[t].wakeup && tcbs'[t].priority == tcbs[t].priority
    ensures WakeupOk(tcbs', links', head', ring + [t])
  {
    hide IsRing;
  }

  ghost function WakeupPosition(tcbs: map<nat, Tcb>, links: map<nat, Link>, head: nat, ring: seq<nat>, t: nat): (i: nat)
    requires WakeupOk(tcbs, links, head, ring) && t in tcbs && tcbs[t].wakeup
    ensures IsRing(links, head, ring) && i < |ring| && ring[i] == t
  {
    var i: nat :| i < |ring| && ring[i] == t;
    i
  }

  lemma {:induction false} WakeupRemoved(tcbs: map<nat, Tcb>, links: map<nat, Link>, head: nat, ring: seq<nat>, t: nat,
                                         i: nat, links': map<nat, Link>, head': nat, tcbs': map<nat, Tcb>)
    requires WakeupOk(tcbs, links, head, ring) && t in tcbs && i < |ring| && ring[i] == t
    requires IsRing(links', head', Without(ring, i)) && OthersKept(links, links', ring)
    requires t in tcbs' && tcbs' == tcbs[t := tcbs'[t]] && !tcbs'[t].wakeup && tcbs'[t].priority == tcbs[t].priority
    ensures WakeupOk(tcbs', links', head', Without(ring, i))
  {
    hide IsRing, Without;
    WithoutDistinct(links, head, ring, i);
  }

  /* ---------- one kind of ring does not disturb the others ---------- */

  lemma {:induction false} ReadySame(tcbs: map<nat, Tcb>, tcbs': map<nat, Tcb>, links: map<nat, Link>, heads: seq<nat>,
                                     max_prio: int, rings: seq<seq<nat>>, t: nat)
    requires ReadyOk(tcbs, links, heads, max_prio, rings) && t in tcbs && t in tcbs' && tcbs' == tcbs[t := tcbs'[t]]
    requires tcbs'[t].priority == tcbs[t].priority && tcbs'[t].ready == tcbs[t].ready
    ensures ReadyOk(tcbs', links, heads, max_prio, rings)
  {
    hide IsRing;
  }

  lemma {:induction false} SendSame(tcbs: map<nat, Tcb>, tcbs': map<nat, Tcb>, links: map<nat, Link>,
                                    rings: map<nat, seq<nat>>, receiver: map<nat, nat>, t: nat)
    requires SendOk(tcbs, links, rings, receiver) && t in tcbs && t in tcbs' && tcbs' == tcbs[t := tcbs'[t]]
    requires tcbs'[t].priority == tcbs[t].priority || tcbs'[t].priority <= MAX_PRIO
    requires tcbs'[t].send == tcbs[t].send && tcbs'[t].send_head == tcbs[t].send_head
    ensures SendOk(tcbs', links, rings, receiver)
  {
    hide IsRing;
  }

  lemma {:induction false} OthersSame(tcbs: map<nat, Tcb>, tcbs': map<nat, Tcb>, wait: map<nat, Link>, head: nat,
                                      wakeup: seq<nat>, send: map<nat, Link>, rings: map<nat, seq<nat>>,
                                      receiver: map<nat, nat>, t: nat)
    requires WakeupOk(tcbs, wait, head, wakeup) && SendOk(tcbs, send, rings, receiver)
    requires t in tcbs && t in tcbs' && tcbs' == tcbs[t := tcbs'[t]] && tcbs'[t].priority <= MAX_PRIO
    requires tcbs'[t].wakeup == tcbs[t].wakeup && tcbs'[t].send == tcbs[t].send
    requires tcbs'[t].send_head == tcbs[t].send_head
    ensures WakeupOk(tcbs', wait, head, wakeup) && SendOk(tcbs', send, rings, receiver)
  {
    hide IsRing, SendOk;
    SendSame(tcbs, tcbs', send, rings, receiver, t);
  }

  lemma {:induction false} SendBitsOnly(tcbs: map<nat, Tcb>, tcbs': map<nat, Tcb>, links: map<nat, Link>,
                                        heads: seq<nat>, max_prio: int, rings: seq<seq<nat>>, wait: map<nat, Link>,
                                        head: nat, wakeup: seq<nat>)
    requires ReadyOk(tcbs, links, heads, max_prio, rings) && WakeupOk(tcbs, wait, head, wakeup)
    requires tcbs'.Keys == tcbs.Keys
    requires forall t :: t in tcbs ==> tcbs'[t] == tcbs[t].(send := tcbs'[t].send, send_head := tcbs'[t].send_head)
    ensures ReadyOk(tcbs', links, heads, max_prio, rings) && WakeupOk(tcbs', wait, head, wakeup)
  {
    hide IsRing;
  }

  /* ---------- the send rings ---------- */

  lemma {:induction false} NotYetSending(tcbs: map<nat, Tcb>, links: map<nat, Link>, rings: map<nat, seq<nat>>,
                                         receiver: map<nat, nat>, t: nat, to: nat)
    requires SendOk(tcbs, links, rings, receiver) && t in tcbs && to in tcbs && !tcbs[t].send
    ensures to in rings && IsRing(links, tcbs[to].send_head, rings[to]) && t !in rings[to] && t != 0 && t in links
    ensures t !in receiver
  {
  }

  /** The send rings of two receivers share no thread. */
  lemma {:induction false} SendersApart(tcbs: map<nat, Tcb>, links: map<nat, Link>, rings: map<nat, seq<nat>>,
                                        receiver: map<nat, nat>, r: nat, to: nat)
    requires SendOk(tcbs, links, rings, receiver) && r in tcbs && to in tcbs && r != to
    ensures r in rings && to in rings && IsRing(links, tcbs[r].send_head, rings[r])
    ensures forall t :: t in rings[r] ==> t in receiver && t !in rings[to]
  {
    hide IsRing;
    forall t | t in rings[r] ensures t in receiver && t !in rings[to] {
      assert receiver[t] == r;
    }
  }

  lemma {:induction false} SendAdded(tcbs: map<nat, Tcb>, links: map<nat, Link>, rings: map<nat, seq<nat>>,
                                     receiver: map<nat, nat>, t: nat, to: nat, links': map<nat, Link>, h: nat,
                                     tcbs': map<nat, Tcb>)
    requires SendOk(tcbs, links, rings, receiver) && t in tcbs && to in tcbs && !tcbs[t].send && to in rings
    requires IsRing(links', h, rings[to] + [t]) && OthersKept(links, links', rings[to] + [t])
    requires tcbs'.Keys == tcbs.Keys && forall u :: u in tcbs ==>
               tcbs'[u] == tcbs[u].(send := tcbs[u].send || u == t, send_head := if u == to then h
                                    else tcbs[u].send_head)
    ensures SendOk(tcbs', links', rings[to := rings[to] + [t]], receiver[t := to])
  {
    hide IsRing, ReceiversOk;
    ReceiverAdded(rings, receiver, t, to);
    forall r | r in tcbs ensures IsRing(links', tcbs'[r].send_head, (rings[to := rings[to] + [t]])[r]) {
      if r != to {
        SendersApart(tcbs, links, rings, receiver, r, to);
        RingKept(links, links', tcbs[r].send_head, rings[r], rings[to] + [t]);
      }
    }
  }

  lemma {:induction false} ReceiverAdded(rings: map<nat, seq<nat>>, receiver: map<nat, nat>, t: nat, to: nat)
    requires ReceiversOk(rings, receiver) && t !in receiver && to in rings
    ensures ReceiversOk(rings[to := rings[to] + [t]], receiver[t := to])
  {
  }

  lemma {:induction false} ReceiverRemoved(rings: map<nat, seq<nat>>, receiver: map<nat, nat>, t: nat, from: nat,
                                           rest: seq<nat>)
    requires ReceiversOk(rings, receiver) && from in rings && t in rings[from]
    requires forall u :: u in rest <==> u in rings[from] && u != t
    ensures ReceiversOk(rings[from := rest], receiver - {t})
  {
    var rings', receiver' := rings[from := rest], receiver - {t};
    assert receiver[t] == from;
    forall r, u | r in rings' && u in rings'[r] ensures u in receiver' && receiver'[u] == r {
      assert u in rings[r];
    }
  }

  ghost function SendPosition(tcbs: map<nat, Tcb>, links: map<nat, Link>, rings: map<nat, seq<nat>>,
                              receiver: map<nat, nat>, t: nat, from: nat): (i: nat)
    requires SendOk(tcbs, links, rings, receiver) && t in tcbs && t in receiver && receiver[t] == from && from in tcbs
    ensures from in rings && IsRing(links, tcbs[from].send_head, rings[from]) && i < |rings[from]|
    ensures rings[from][i] == t
  {
    var i: nat :| i < |rings[from]| && rings[from][i] == t;
    i
  }

  lemma {:induction false} SendRemoved(tcbs: map<nat, Tcb>, links: map<nat, Link>, rings: map<nat, seq<nat>>,
                                       receiver: map<nat, nat>, t: nat, from: nat, i: nat, links': map<nat, Link>,
                                       h: nat, tcbs': map<nat, Tcb>)
    requires SendOk(tcbs, links, rings, receiver) && t in tcbs && from in tcbs && from in rings && i < |rings[from]|
    requires rings[from][i] == t
    requires IsRing(links', h, Without(rings[from], i)) && OthersKept(links, links', rings[from])
    requires tcbs'.Keys == tcbs.Keys && forall u :: u in tcbs ==>
               tcbs'[u] == tcbs[u].(send := tcbs[u].send && u != t, send_head := if u == from then h
                                    else tcbs[u].send_head)
    ensures SendOk(tcbs', links', rings[from := Without(rings[from], i)], receiver - {t})
  {
    hide IsRing, Without, ReceiversOk;
    WithoutDistinct(links, tcbs[from].send_head, rings[from], i);
    ReceiverRemoved(rings, receiver, t, from, Without(rings[from], i));
    InReceiver(rings, receiver, t, from);
    forall r | r in tcbs ensures IsRing(links', tcbs'[r].send_head, (rings[from := Without(rings[from], i)])[r]) {
      if r != from {
        SendersApart(tcbs, links, rings, receiver, r, from);
        RingKept(links, links', tcbs[r].send_head, rings[r], rings[from]);
      }
    }
  }

  lemma {:induction false} InReceiver(rings: map<nat, seq<nat>>, receiver: map<nat, nat>, t: nat, from: nat)
    requires ReceiversOk(rings, receiver) && from in rings && t in rings[from]
    ensures t in receiver && receiver[t] == from
  {
  }
}
