/** Circular doubly linked lists threaded through thread control blocks:
    kernel/include/api/v4/queueing.h.

    `links` holds the `next` and `prev` fields that one kind of list uses in every thread control
    block; thread control blocks are named by their addresses, null by zero.  A ring is the sequence
    of threads met from the head on.
 */
module Rings {
  import opened FiniteSets

  datatype Link = Link(next: nat, prev: nat)

  function After(ring: seq<nat>, i: nat): nat
    requires i < |ring|
  {
    if i + 1 < |ring| then ring[i + 1] else ring[0]
  }

  function Before(ring: seq<nat>, i: nat): nat
    requires i < |ring|
  {
    if i > 0 then ring[i - 1] else ring[|ring| - 1]
  }

  /** The thread at position `i` is linked to its neighbours. */
  ghost predicate LinkedAt(links: map<nat, Link>, ring: seq<nat>, i: nat)
    requires i < |ring|
  {
    ring[i] != 0 && ring[i] in links && links[ring[i]] == Link(After(ring, i), Before(ring, i))
  }

  ghost predicate IsRing(links: map<nat, Link>, head: nat, ring: seq<nat>) {
    && Distinct(ring)
    && (forall i :: 0 <= i < |ring| ==> LinkedAt(links, ring, i))
    && head == if ring == [] then 0 else ring[0]
  }

  /** Only threads of the ring are relinked. */
  ghost predicate OthersKept(links: map<nat, Link>, links': map<nat, Link>, ring: seq<nat>) {
    links'.Keys == links.Keys && forall t :: t in links && t !in ring ==> links'[t] == links[t]
  }

  function Without(ring: seq<nat>, i: nat): seq<nat>
    requires i < |ring|
  {
    ring[..i] + ring[i + 1..]
  }

  /** `ENQUEUE_LIST_TAIL`. */
  method EnqueueListTail(links: map<nat, Link>, head: nat, tcb: nat, ghost ring: seq<nat>)
    returns (links': map<nat, Link>, head': nat)
    requires IsRing(links, head, ring) && tcb !in ring && tcb != 0 && tcb in links
    ensures IsRing(links', head', ring + [tcb]) && OthersKept(links, links', ring + [tcb])
  {
    links', head' := links, head;
    if head == 0 {
      Empty(links, head, ring);
      head' := tcb;
      links' := links'[tcb := Link(tcb, tcb)];
    } else {
      hide IsRing;
      HeadLinks(links, head, ring);
      links' := links'[tcb := links'[tcb].(next := head)];
      links' := links'[tcb := links'[tcb].(prev := links'[head].prev)];
      var last := links'[head].prev;
      links' := links'[last := links'[last].(next := tcb)];
      links' := links'[head := links'[head].(prev := tcb)];
      TailLinked(links, links', head, tcb, ring);
    }
  }

  /** `ENQUEUE_LIST_HEAD`. */
  method EnqueueListHead(links: map<nat, Link>, head: nat, tcb: nat, ghost ring: seq<nat>)
    returns (links': map<nat, Link>, head': nat)
    requires IsRing(links, head, ring) && tcb !in ring && tcb != 0 && tcb in links
    ensures IsRing(links', head', [tcb] + ring) && OthersKept(links, links', [tcb] + ring)
  {
    links', head' := links, head;
    if head == 0 {
      Empty(links, head, ring);
      links' := links'[tcb := Link(tcb, tcb)];
    } else {
      hide IsRing;
      HeadLinks(links, head, ring);
      links' := links'[tcb := links'[tcb].(next := head)];
      links' := links'[tcb := links'[tcb].(prev := links'[head].prev)];
      var last := links'[head].prev;
      links' := links'[last := links'[last].(next := tcb)];
      links' := links'[head := links'[head].(prev := tcb)];
      HeadLinked(links, links', head, tcb, ring);
    }
    head' := tcb;
  }

  /** `DEQUEUE_LIST`. */
  method DequeueList(links: map<nat, Link>, head: nat, tcb: nat, ghost ring: seq<nat>, ghost i: nat)
    returns (links': map<nat, Link>, head': nat)
    requires IsRing(links, head, ring) && i < |ring| && tcb == ring[i]
    ensures IsRing(links', head', Without(ring, i)) && OthersKept(links, links', ring)
  {
    hide IsRing;
    links', head' := links, head;
    DequeueLinks(links, head, ring, i);
    if links'[tcb].next == tcb {
      head' := 0;
      links' := links'[tcb := Link(0, 0)];
      LastOut(links', ring, i);
    } else {
      if head == tcb {
        head' := links'[tcb].next;
      }
      var next, prev := links'[tcb].next, links'[tcb].prev;
      links' := links'[next := links'[next].(prev := prev)];
      links' := links'[prev := links'[prev].(next := links'[tcb].next)];
      Unlinked(links, links', head, ring, i);
    }
  }

  lemma {:induction false} Empty(links: map<nat, Link>, head: nat, ring: seq<nat>)
    requires IsRing(links, head, ring) && head == 0
    ensures ring == []
  {
    assert ring != [] ==> LinkedAt(links, ring, 0);
  }

  lemma {:induction false} HeadLinks(links: map<nat, Link>, head: nat, ring: seq<nat>)
    requires IsRing(links, head, ring) && head != 0
    ensures ring != [] && head == ring[0] && head in links && links[head].prev == ring[|ring| - 1]
    ensures ring[|ring| - 1] in links
  {
    assert LinkedAt(links, ring, 0) && LinkedAt(links, ring, |ring| - 1);
  }

  lemma {:induction false} At(links: map<nat, Link>, head: nat, ring: seq<nat>, i: nat)
    requires IsRing(links, head, ring) && i < |ring|
    ensures LinkedAt(links, ring, i)
  {
  }

  lemma {:induction false} Differ(links: map<nat, Link>, head: nat, ring: seq<nat>, i: nat, j: nat)
    requires IsRing(links, head, ring) && i < |ring| && j < |ring| && i != j
    ensures ring[i] != ring[j]
  {
  }

  /** The links after a thread was put between the last and the first. */
  ghost predicate Inserted(links: map<nat, Link>, links': map<nat, Link>, head: nat, last: nat, tcb: nat)
    requires head in links && last in links && tcb in links && head != tcb && last != tcb
  {
    && links'.Keys == links.Keys
    && links'[tcb] == Link(head, last)
    && (forall t :: t in links && t != tcb ==>
          links'[t] == Link(if t == last then tcb else links[t].next, if t == head then tcb else links[t].prev))
  }

  lemma {:induction false} TailLinked(links: map<nat, Link>, links': map<nat, Link>, head: nat, tcb: nat,
                                      ring: seq<nat>)
    requires IsRing(links, head, ring) && ring != [] && head == ring[0] && head in links && ring[|ring| - 1] in links
    requires tcb in links && tcb !in ring && tcb != 0
    requires Inserted(links, links', head, ring[|ring| - 1], tcb)
    ensures IsRing(links', head, ring + [tcb]) && OthersKept(links, links', ring + [tcb])
  {
    var ring' := ring + [tcb];
    forall i | 0 <= i < |ring'| ensures LinkedAt(links', ring', i) {
      if i < |ring| {
        At(links, head, ring, i);
        if i != 0 { Differ(links, head, ring, 0, i); }
        if i != |ring| - 1 { Differ(links, head, ring, i, |ring| - 1); }
      }
    }
  }

  lemma {:induction false} HeadLinked(links: map<nat, Link>, links': map<nat, Link>, head: nat, tcb: nat,
                                      ring: seq<nat>)
    requires IsRing(links, head, ring) && ring != [] && head == ring[0] && head in links && ring[|ring| - 1] in links
    requires tcb in links && tcb !in ring && tcb != 0
    requires Inserted(links, links', head, ring[|ring| - 1], tcb)
    ensures IsRing(links', tcb, [tcb] + ring) && OthersKept(links, links', [tcb] + ring)
  {
    var ring' := [tcb] + ring;
    forall i | 0 <= i < |ring'| ensures LinkedAt(links', ring', i) {
      if i > 0 {
        At(links, head, ring, i - 1);
        if i - 1 != 0 { Differ(links, head, ring, 0, i - 1); }
        if i != |ring| { Differ(links, head, ring, i - 1, |ring| - 1); }
      }
    }
  }

  lemma {:induction false} DequeueLinks(links: map<nat, Link>, head: nat, ring: seq<nat>, i: nat)
    requires IsRing(links, head, ring) && i < |ring|
    ensures ring[i] in links && links[ring[i]] == Link(After(ring, i), Before(ring, i))
    ensures After(ring, i) in links && Before(ring, i) in links && ring != [] && head == ring[0]
    ensures After(ring, i) == ring[i] <==> |ring| == 1
    ensures head == ring[i] <==> i == 0
  {
    At(links, head, ring, i);
    At(links, head, ring, if i + 1 < |ring| then i + 1 else 0);
    At(links, head, ring, if i > 0 then i - 1 else |ring| - 1);
    if |ring| > 1 { Differ(links, head, ring, i, if i + 1 < |ring| then i + 1 else 0); }
  }

  lemma {:induction false} LastOut(links: map<nat, Link>, ring: seq<nat>, i: nat)
    requires |ring| == 1 && i == 0
    ensures IsRing(links, 0, Without(ring, i))
  {
  }

  lemma {:induction false} WithoutAt(ring: seq<nat>, i: nat, j: nat)
    requires i < |ring| && j < |ring| - 1
    ensures |Without(ring, i)| == |ring| - 1 && Without(ring, i)[j] == ring[if j < i then j else j + 1]
  {
  }

  lemma {:induction false} Unlinked(links: map<nat, Link>, links': map<nat, Link>, head: nat, ring: seq<nat>, i: nat)
    requires IsRing(links, head, ring) && i < |ring| && |ring| > 1
    requires After(ring, i) in links && Before(ring, i) in links
    requires links'.Keys == links.Keys
    requires forall t :: t in links ==>
               links'[t] == Link(if t == Before(ring, i) then After(ring, i) else links[t].next,
                                 if t == After(ring, i) then Before(ring, i) else links[t].prev)
    ensures IsRing(links', if i == 0 then After(ring, 0) else head, Without(ring, i)) && OthersKept(links, links', ring)
  {
    hide IsRing, Without, OthersKept;
    var ring' := Without(ring, i);
    WithoutAt(ring, i, 0);
    forall j | 0 <= j < |ring'| ensures LinkedAt(links', ring', j) {
      UnlinkedAt(links, links', head, ring, i, j);
    }
    WithoutDistinct(links, head, ring, i);
    RingBuilt(links', if i == 0 then After(ring, 0) else head, ring', links, head, ring, i);
    KeptOutside(links, links', head, ring, i);
  }

  lemma {:induction false} KeptOutside(links: map<nat, Link>, links': map<nat, Link>, head: nat, ring: seq<nat>, i: nat)
    requires i < |ring| && links'.Keys == links.Keys && After(ring, i) in links && Before(ring, i) in links
    requires forall t :: t in links ==>
               links'[t] == Link(if t == Before(ring, i) then After(ring, i) else links[t].next,
                                 if t == After(ring, i) then Before(ring, i) else links[t].prev)
    ensures OthersKept(links, links', ring)
  {
    assert After(ring, i) in ring && Before(ring, i) in ring;
  }

  lemma {:induction false} RingBuilt(links': map<nat, Link>, head': nat, ring': seq<nat>, links: map<nat, Link>,
                                     head: nat, ring: seq<nat>, i: nat)
    requires Distinct(ring') && (forall j :: 0 <= j < |ring'| ==> LinkedAt(links', ring', j))
    requires IsRing(links, head, ring) && i < |ring| && |ring| > 1 && ring' == Without(ring, i)
    requires head' == if i == 0 then After(ring, 0) else head
    ensures IsRing(links', head', ring')
  {
    WithoutAt(ring, i, 0);
  }

  lemma {:induction false} WithoutDistinct(links: map<nat, Link>, head: nat, ring: seq<nat>, i: nat)
    requires IsRing(links, head, ring) && i < |ring|
    ensures Distinct(Without(ring, i)) && forall t :: t in Without(ring, i) <==> t in ring && t != ring[i]
  {
    hide IsRing;
    var ring' := Without(ring, i);
    forall j, k | 0 <= j < k < |ring'| ensures ring'[j] != ring'[k] {
      WithoutAt(ring, i, j);
      WithoutAt(ring, i, k);
      Differ(links, head, ring, if j < i then j else j + 1, if k < i then k else k + 1);
    }
    forall t | t in ring && t != ring[i] ensures t in ring' {
      var j :| 0 <= j < |ring| && ring[j] == t;
      WithoutAt(ring, i, if j < i then j else j - 1);
    }
    forall t | t in ring' ensures t in ring && t != ring[i] {
      var j :| 0 <= j < |ring'| && ring'[j] == t;
      WithoutAt(ring, i, j);
      Differ(links, head, ring, i, if j < i then j else j + 1);
    }
  }

  lemma {:induction false} UnlinkedAt(links: map<nat, Link>, links': map<nat, Link>, head: nat, ring: seq<nat>, i: nat,
                                      j: nat)
    requires IsRing(links, head, ring) && i < |ring| && |ring| > 1 && j < |ring| - 1
    requires After(ring, i) in links && Before(ring, i) in links && links'.Keys == links.Keys
    requires forall t :: t in links ==>
               links'[t] == Link(if t == Before(ring, i) then After(ring, i) else links[t].next,
                                 if t == After(ring, i) then Before(ring, i) else links[t].prev)
    ensures j < |Without(ring, i)| && LinkedAt(links', Without(ring, i), j)
  {
    hide IsRing, Without;
    var n := |ring|;
    var k := if j < i then j else j + 1;
    var a, b := if i + 1 < n then i + 1 else 0, if i > 0 then i - 1 else n - 1;
    At(links, head, ring, k);
    WithoutAt(ring, i, j);
    WithoutAt(ring, i, 0);
    WithoutAt(ring, i, n - 2);
    if j + 1 < n - 1 { WithoutAt(ring, i, j + 1); }
    if j > 0 { WithoutAt(ring, i, j - 1); }
    if k != a { Differ(links, head, ring, k, a); }
    if k != b { Differ(links, head, ring, k, b); }
  }
}
