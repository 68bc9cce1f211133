/** Pools of equally sized buffers: the data structure of kernel/src/generic/mapping_alloc.cc.

    A pool is a 4096-byte page.  Its first five words are a header: the first free buffer, the number
    of free buffers, the next and previous pool of the same size that has free buffers, and the
    buffer list it belongs to.  Buffers fill the page from its end downwards; free ones are threaded
    through their first words.
 */
module BufferPools {
  import opened FiniteSets
  import opened Words
  import opened Kmem

  /** `sizeof (mdb_mng_t)`. */
  const HEADER: nat := 40

  /** `mdb_buflist_t`; the head is null when no pool has a free buffer. */
  datatype BufList = BufList(size: nat, head: nat, max_free: nat)

  datatype Pool = Pool(bl: nat, free: seq<nat>)

  /** All pools by page address, and for each buffer list its pools with free buffers in order. */
  datatype Pools = Pools(pool: map<nat, Pool>, chains: seq<seq<nat>>)

  /* ---------- buffers of a page ---------- */

  function SlotAt(p: nat, size: nat, k: nat): int { p + 4096 - k * size }

  /** `x` is one of the `max` buffers of the page `p`. */
  ghost predicate IsSlot(p: nat, size: nat, max: nat, x: nat) {
    exists k :: 1 <= k <= max && x == SlotAt(p, size, k)
  }

  /** Buffers a list of this size and `max_free` keeps in a page leave room for the header. */
  ghost predicate SizeOk(l: BufList) {
    if l.size < 4096 then l.size >= 8 && l.max_free >= 1 && HEADER <= 4096 - l.max_free * l.size
    else l.size % 1024 == 0
  }

  predicate IsPage(p: nat) { p > 0 && p % 4096 == 0 && p + 4096 <= W64 }

  function PageOf(x: nat): nat { x - x % 4096 }

  lemma {:induction false} SlotBounds(p: nat, size: nat, max: nat, x: nat)
    requires IsPage(p) && size >= 8 && HEADER <= 4096 - max * size && IsSlot(p, size, max, x)
    ensures p + HEADER <= x && x + size <= p + 4096 && PageOf(x) == p
  {
    var k :| 1 <= k <= max && x == SlotAt(p, size, k);
    MulMono(k, max, size);
    MulAtLeast(k, size);
    PageOfWithin(p, x);
  }

  lemma {:induction false} PageOfWithin(p: nat, x: nat)
    requires p % 4096 == 0 && p <= x < p + 4096
    ensures PageOf(x) == p
  {
  }

  /** Masking a buffer's address gives its page. */
  lemma {:induction false} MaskIsPage(x: Word)
    ensures And(x, Not(4095)) == PageOf(x)
  {
    Pow2Values();
    RoundDown(x, 12);
  }

  lemma {:induction false} PagesApart(p: nat, q: nat)
    requires p % 4096 == 0 && q % 4096 == 0 && p != q
    ensures p + 4096 <= q || q + 4096 <= p
  {
  }

  lemma {:induction false} SlotsOrdered(p: nat, size: nat, j: nat, k: nat)
    requires j < k
    ensures SlotAt(p, size, j) + size <= SlotAt(p, size, k) || SlotAt(p, size, k) + size <= SlotAt(p, size, j)
  {
    MulMono(j + 1, k, size);
    assert (j + 1) * size == j * size + size;
  }

  /** Two buffers of a page do not overlap. */
  lemma {:induction false} SlotsApart(p: nat, size: nat, max: nat, x: nat, y: nat)
    requires IsSlot(p, size, max, x) && IsSlot(p, size, max, y) && x != y
    ensures x + size <= y || y + size <= x
  {
    var j :| 1 <= j <= max && x == SlotAt(p, size, j);
    var k :| 1 <= k <= max && y == SlotAt(p, size, k);
    if j < k {
      SlotsOrdered(p, size, j, k);
    } else if k < j {
      SlotsOrdered(p, size, k, j);
    }
  }

  /* ---------- the invariant ---------- */

  /** The header and the threaded free buffers of one pool. */
  ghost predicate PoolOk(mem: map<nat, nat>, lists: seq<BufList>, p: nat, pool: Pool) {
    && IsPage(p) && pool.bl < |lists| && lists[pool.bl].size < 4096 && SizeOk(lists[pool.bl])
    && (forall i :: 0 <= i < |pool.free| ==> IsSlot(p, lists[pool.bl].size, lists[pool.bl].max_free, pool.free[i]))
    && Distinct(pool.free)
    && Read(mem, p) == Next(pool.free, 0) && Read(mem, p + 8) == |pool.free| && Read(mem, p + 32) == pool.bl
    && (forall i :: 0 <= i < |pool.free| ==> Read(mem, pool.free[i]) == Next(pool.free, i + 1))
  }

  /** The doubly linked list of the pools of one buffer list that have free buffers. */
  ghost predicate ChainOk(mem: map<nat, nat>, lists: seq<BufList>, ps: Pools, b: nat)
    requires b < |lists| == |ps.chains|
  {
    var c := ps.chains[b];
    && lists[b].head == Next(c, 0) && Distinct(c)
    && (forall i :: 0 <= i < |c| ==>
          && c[i] in ps.pool && ps.pool[c[i]].bl == b && ps.pool[c[i]].free != []
          && Read(mem, c[i] + 16) == Next(c, i + 1) && Read(mem, c[i] + 24) == Prev(c, i))
  }

  function Prev(l: seq<nat>, i: nat): nat { if 0 < i <= |l| then l[i - 1] else 0 }

  ghost predicate PoolsOk(mem: map<nat, nat>, lists: seq<BufList>, ps: Pools) {
    && |lists| == |ps.chains|
    && (forall p :: p in ps.pool ==> PoolOk(mem, lists, p, ps.pool[p]))
    && (forall b :: 0 <= b < |lists| ==> ChainOk(mem, lists, ps, b))
    && (forall p :: p in ps.pool ==> Listed(ps, p))
  }

  /** A pool with free buffers is in the list of its size. */
  ghost predicate Listed(ps: Pools, p: nat)
    requires p in ps.pool
  {
    ps.pool[p].free != [] ==> ps.pool[p].bl < |ps.chains| && p in ps.chains[ps.pool[p].bl]
  }

  /** Handed out and not freed. */
  ghost predicate IsLive(lists: seq<BufList>, ps: Pools, x: nat) {
    var p := PageOf(x);
    && p in ps.pool && ps.pool[p].bl < |lists|
    && IsSlot(p, lists[ps.pool[p].bl].size, lists[ps.pool[p].bl].max_free, x)
    && x !in ps.pool[p].free
  }

  function SizeOf(lists: seq<BufList>, ps: Pools, x: nat): nat {
    if PageOf(x) in ps.pool && ps.pool[PageOf(x)].bl < |lists| then lists[ps.pool[PageOf(x)].bl].size else 0
  }

  /** Live buffers are pairwise disjoint and lie between the header and the end of their page. */
  lemma {:induction false} LiveApart(mem: map<nat, nat>, lists: seq<BufList>, ps: Pools, x: nat, y: nat)
    requires PoolsOk(mem, lists, ps) && IsLive(lists, ps, x) && IsLive(lists, ps, y)
    ensures x != y ==> x + SizeOf(lists, ps, x) <= y || y + SizeOf(lists, ps, y) <= x
    ensures PageOf(x) + HEADER <= x && x + SizeOf(lists, ps, x) <= PageOf(x) + 4096
  {
    var p, q := PageOf(x), PageOf(y);
    var bl, bl' := lists[ps.pool[p].bl], lists[ps.pool[q].bl];
    assert PoolOk(mem, lists, p, ps.pool[p]) && PoolOk(mem, lists, q, ps.pool[q]);
    SlotBounds(p, bl.size, bl.max_free, x);
    SlotBounds(q, bl'.size, bl'.max_free, y);
    if p == q {
      if x != y { SlotsApart(p, bl.size, bl.max_free, x, y); }
    } else {
      PagesApart(p, q);
    }
  }

  /** A live buffer overlaps no pool's header. */
  lemma {:induction false} LiveNotHeader(mem: map<nat, nat>, lists: seq<BufList>, ps: Pools, x: nat, p: nat)
    requires PoolsOk(mem, lists, ps) && IsLive(lists, ps, x) && p in ps.pool
    ensures RangesApart(x, SizeOf(lists, ps, x), p, HEADER)
  {
    hide IsSlot, ChainOk, Listed;
    LiveApart(mem, lists, ps, x, x);
    assert PoolOk(mem, lists, p, ps.pool[p]) && PoolOk(mem, lists, PageOf(x), ps.pool[PageOf(x)]);
    if p != PageOf(x) {
      PagesApart(p, PageOf(x));
    }
  }

  /* ---------- changing words ---------- */

  /** Only the words in `ws` have changed. */
  ghost predicate OnlyIn(mem: map<nat, nat>, mem': map<nat, nat>, ws: set<nat>) {
    forall w :: w !in ws ==> Read(mem', w) == Read(mem, w)
  }

  /** Sizes are never changed. */
  ghost predicate SameSizes(lists: seq<BufList>, lists': seq<BufList>) {
    |lists'| == |lists| && forall b :: 0 <= b < |lists| ==>
      lists'[b].size == lists[b].size && lists'[b].max_free == lists[b].max_free
  }

  lemma {:induction false} PoolKept(mem: map<nat, nat>, mem': map<nat, nat>, lists: seq<BufList>, lists': seq<BufList>,
                                    q: nat, pool: Pool, ws: set<nat>)
    requires PoolOk(mem, lists, q, pool) && SameSizes(lists, lists') && OnlyIn(mem, mem', ws)
    requires forall w :: w in ws && PageOf(w) == q ==> w == q + 16 || w == q + 24
    ensures PoolOk(mem', lists', q, pool)
  {
    hide IsSlot;
    var bl := lists[pool.bl];
    PageOfWithin(q, q);
    PageOfWithin(q, q + 8);
    PageOfWithin(q, q + 32);
    forall i | 0 <= i < |pool.free| ensures Read(mem', pool.free[i]) == Next(pool.free, i + 1) {
      SlotBounds(q, bl.size, bl.max_free, pool.free[i]);
    }
  }

  /** A pool whose header and free list were rewritten. */
  lemma {:induction false} PoolBuilt(mem: map<nat, nat>, lists: seq<BufList>, p: nat, pool: Pool)
    requires IsPage(p) && pool.bl < |lists| && lists[pool.bl].size < 4096 && SizeOk(lists[pool.bl])
    requires forall i :: 0 <= i < |pool.free| ==> IsSlot(p, lists[pool.bl].size, lists[pool.bl].max_free, pool.free[i])
    requires Distinct(pool.free)
    requires Read(mem, p) == Next(pool.free, 0) && Read(mem, p + 8) == |pool.free| && Read(mem, p + 32) == pool.bl
    requires forall i :: 0 <= i < |pool.free| ==> Read(mem, pool.free[i]) == Next(pool.free, i + 1)
    ensures PoolOk(mem, lists, p, pool)
  {
  }

  lemma {:induction false} ChainKept(mem: map<nat, nat>, mem': map<nat, nat>, lists: seq<BufList>, lists': seq<BufList>,
                                     ps: Pools, ps': Pools, b: nat, ws: set<nat>)
    requires b < |lists| == |ps.chains| == |lists'| == |ps'.chains| && ChainOk(mem, lists, ps, b)
    requires OnlyIn(mem, mem', ws)
    requires ps'.chains[b] == ps.chains[b] && lists'[b].head == lists[b].head
    requires forall q :: q in ps.chains[b] ==>
               q in ps'.pool && ps'.pool[q].bl == b && ps'.pool[q].free != [] && q + 16 !in ws && q + 24 !in ws
    ensures ChainOk(mem', lists', ps', b)
  {
    hide Read, Next, Prev;
    var c := ps.chains[b];
    forall i | 0 <= i < |c|
      ensures Read(mem', c[i] + 16) == Next(c, i + 1) && Read(mem', c[i] + 24) == Prev(c, i)
      ensures c[i] in ps'.pool && ps'.pool[c[i]].bl == b && ps'.pool[c[i]].free != []
    {
      assert c[i] in ps.chains[b];
    }
  }

  /** Pools have page addresses, so their words differ. */
  lemma {:induction false} PageWords(mem: map<nat, nat>, lists: seq<BufList>, ps: Pools, p: nat)
    requires PoolsOk(mem, lists, ps) && IsPage(p)
    ensures forall q :: q in ps.pool && q != p ==> IsPage(q) && (p + 4096 <= q || q + 4096 <= p)
  {
    forall q | q in ps.pool && q != p ensures IsPage(q) && (p + 4096 <= q || q + 4096 <= p) {
      assert PoolOk(mem, lists, q, ps.pool[q]);
      PagesApart(p, q);
    }
  }

  /** Members of a list are pools of its size. */
  lemma {:induction false} ChainPools(mem: map<nat, nat>, lists: seq<BufList>, ps: Pools, b: nat)
    requires PoolsOk(mem, lists, ps) && b < |lists|
    ensures |lists| == |ps.chains|
    ensures forall q :: q in ps.chains[b] ==> q in ps.pool && ps.pool[q].bl == b && ps.pool[q].free != [] && IsPage(q)
    ensures ChainOk(mem, lists, ps, b)
  {
    assert ChainOk(mem, lists, ps, b);
    forall q | q in ps.chains[b] ensures q in ps.pool && ps.pool[q].bl == b && ps.pool[q].free != [] && IsPage(q) {
      var i :| 0 <= i < |ps.chains[b]| && ps.chains[b][i] == q;
      assert PoolOk(mem, lists, q, ps.pool[q]);
    }
  }

  /* ---------- taking a buffer ---------- */

  function WithHead(lists: seq<BufList>, b: nat, head: nat): seq<BufList> {
    if b < |lists| then lists[b := lists[b].(head := head)] else lists
  }

  /** The pools after the first free buffer of the pool `p` is taken. */
  function Taken(ps: Pools, b: nat, p: nat): Pools {
    if p in ps.pool && ps.pool[p].free != [] && b < |ps.chains| && ps.chains[b] != [] then
      Pools(ps.pool[p := Pool(b, ps.pool[p].free[1..])],
            if |ps.pool[p].free| == 1 then ps.chains[b := ps.chains[b][1..]] else ps.chains)
    else ps
  }

  /** The words after taking: free list and count, and the new first pool's back pointer. */
  function TakenMem(mem: map<nat, nat>, p: nat): map<nat, nat> {
    mem[p := Read(mem, Read(mem, p))][p + 8 := Pred(Read(mem, p + 8))]
  }

  function Pred(n: nat): nat { if n > 0 then n - 1 else 0 }

  function BackReset(mem: map<nat, nat>, q: nat, v: nat): map<nat, nat> { if q != 0 then mem[q + 24 := v] else mem }

  lemma {:induction false} TakePool(mem: map<nat, nat>, lists: seq<BufList>, p: nat, pool: Pool)
    requires PoolOk(mem, lists, p, pool) && pool.free != []
    ensures PoolOk(TakenMem(mem, p), lists, p, Pool(pool.bl, pool.free[1..]))
    ensures Read(TakenMem(mem, p), p + 8) == |pool.free| - 1 && Read(TakenMem(mem, p), p + 16) == Read(mem, p + 16)
    ensures OnlyIn(mem, TakenMem(mem, p), {p, p + 8})
  {
    hide IsSlot;
    var bl, mem', f' := lists[pool.bl], TakenMem(mem, p), pool.free[1..];
    forall i | 0 <= i < |f'| ensures Read(mem', f'[i]) == Next(f', i + 1) {
      SlotBounds(p, bl.size, bl.max_free, pool.free[i + 1]);
      assert Read(mem, pool.free[i + 1]) == Next(pool.free, i + 2);
    }
    SlotBounds(p, bl.size, bl.max_free, pool.free[0]);
    PoolBuilt(mem', lists, p, Pool(pool.bl, f'));
  }

  /** Taking a buffer when others stay free in the pool. */
  lemma {:induction false} TakeSome(mem: map<nat, nat>, lists: seq<BufList>, ps: Pools, b: nat, p: nat)
    requires PoolsOk(mem, lists, ps) && b < |lists| && ps.chains[b] != [] && p == ps.chains[b][0] && p in ps.pool
    requires |ps.pool[p].free| > 1
    ensures PoolsOk(TakenMem(mem, p), lists, Taken(ps, b, p))
  {
    hide PoolOk, ChainOk, Listed, OnlyIn;
    ChainPools(mem, lists, ps, b);
    PageWords(mem, lists, ps, p);
    var mem', ps' := TakenMem(mem, p), Taken(ps, b, p);
    TakePool(mem, lists, p, ps.pool[p]);
    TakeOthers(mem, mem', lists, lists, ps, p, {p, p + 8});
    forall c | 0 <= c < |lists| ensures ChainOk(mem', lists, ps', c) {
      ChainPools(mem, lists, ps, c);
      ChainKept(mem, mem', lists, lists, ps, ps', c, {p, p + 8});
    }
    forall q | q in ps'.pool ensures Listed(ps', q) {
      assert Listed(ps, q);
      ListedKept(ps, ps', q);
    }
  }

  lemma {:induction false} ListedKept(ps: Pools, ps': Pools, q: nat)
    requires q in ps.pool && q in ps'.pool && ps'.chains == ps.chains && ps.pool[q].bl == ps'.pool[q].bl
    requires Listed(ps, q)
    requires ps'.pool[q].free != [] ==> ps.pool[q].free != []
    ensures Listed(ps', q)
  {
  }

  lemma {:induction false} TakeOthers(mem: map<nat, nat>, mem': map<nat, nat>, lists: seq<BufList>,
                                      lists': seq<BufList>, ps: Pools, p: nat, ws: set<nat>)
    requires PoolsOk(mem, lists, ps) && IsPage(p) && SameSizes(lists, lists') && OnlyIn(mem, mem', ws)
    requires forall w :: w in ws ==> p <= w < p + 4096 || exists q :: q in ps.pool && (w == q + 16 || w == q + 24)
    ensures forall q :: q in ps.pool && q != p ==> PoolOk(mem', lists', q, ps.pool[q])
  {
    hide PoolOk, ChainOk, Listed, OnlyIn;
    forall q | q in ps.pool && q != p ensures PoolOk(mem', lists', q, ps.pool[q]) {
      assert PoolOk(mem, lists, q, ps.pool[q]);
      PageWords(mem, lists, ps, p);
      PageWords(mem, lists, ps, q);
      forall w | w in ws && PageOf(w) == q ensures w == q + 16 || w == q + 24 {
        if p <= w < p + 4096 {
          PageOfWithin(p, w);
        } else {
          var r :| r in ps.pool && (w == r + 16 || w == r + 24);
          PageWords(mem, lists, ps, r);
          PageOfPool(mem, lists, ps, r, w);
        }
      }
      PoolKept(mem, mem', lists, lists', q, ps.pool[q], ws);
    }
  }

  lemma {:induction false} PageOfPool(mem: map<nat, nat>, lists: seq<BufList>, ps: Pools, r: nat, w: nat)
    requires PoolsOk(mem, lists, ps) && r in ps.pool && r <= w < r + 4096
    ensures PageOf(w) == r && IsPage(r)
  {
    assert PoolOk(mem, lists, r, ps.pool[r]);
    PageOfWithin(r, w);
  }

  /** A list of pools, from its links. */
  lemma {:induction false} ChainBuilt(mem: map<nat, nat>, lists: seq<BufList>, ps: Pools, b: nat)
    requires b < |lists| == |ps.chains| && lists[b].head == Next(ps.chains[b], 0) && Distinct(ps.chains[b])
    requires forall i :: 0 <= i < |ps.chains[b]| ==> LinkOk(mem, ps.chains[b], i)
    requires forall q :: q in ps.chains[b] ==> q in ps.pool && ps.pool[q].bl == b && ps.pool[q].free != []
    ensures ChainOk(mem, lists, ps, b)
  {
    hide Read, Next, Prev;
    forall i | 0 <= i < |ps.chains[b]|
      ensures Read(mem, ps.chains[b][i] + 16) == Next(ps.chains[b], i + 1)
      ensures Read(mem, ps.chains[b][i] + 24) == Prev(ps.chains[b], i)
    {
      assert LinkOk(mem, ps.chains[b], i);
    }
  }

  ghost predicate LinkOk(mem: map<nat, nat>, c: seq<nat>, i: nat)
    requires i < |c|
  {
    Read(mem, c[i] + 16) == Next(c, i + 1) && Read(mem, c[i] + 24) == Prev(c, i)
  }

  lemma {:induction false} LinkAtPosition(mem: map<nat, nat>, lists: seq<BufList>, ps: Pools, b: nat, i: nat)
    requires b < |lists| == |ps.chains| && ChainOk(mem, lists, ps, b) && i < |ps.chains[b]|
    ensures LinkOk(mem, ps.chains[b], i)
  {
  }

  /** Links of a chain that loses its first pool. */
  lemma {:induction false} DropFirstLinks(mem: map<nat, nat>, lists: seq<BufList>, ps: Pools, b: nat,
                                          mem': map<nat, nat>)
    requires PoolsOk(mem, lists, ps) && b < |lists| && ps.chains[b] != []
    requires var c := ps.chains[b]; var q := Next(c, 1);
             && OnlyIn(mem, mem', {c[0], c[0] + 8} + (if q != 0 then {q + 24} else {}))
             && (q != 0 ==> Read(mem', q + 24) == 0)
    ensures var c' := ps.chains[b][1..];
            && Distinct(c') && Next(c', 0) == Next(ps.chains[b], 1)
            && forall i :: 0 <= i < |c'| ==> LinkOk(mem', c', i)
  {
    hide Read, PoolsOk, ChainOk, OnlyIn, LinkOk;
    ChainPools(mem, lists, ps, b);
    ChainDistinct(mem, lists, ps, b);
    var c := ps.chains[b];
    var c' := c[1..];
    forall i | 0 <= i < |c'| ensures LinkOk(mem', c', i) {
      LinkAtPosition(mem, lists, ps, b, i + 1);
      assert c[i + 1] in c && c[0] in c && (1 < |c| ==> c[1] in c);
      DropFirstLink(mem, mem', c, i);
    }
  }

  lemma {:induction false} DropFirstLink(mem: map<nat, nat>, mem': map<nat, nat>, c: seq<nat>, i: nat)
    requires i + 1 < |c| && LinkOk(mem, c, i + 1) && Distinct(c) && IsPage(c[0]) && IsPage(c[1]) && IsPage(c[i + 1])
    requires OnlyIn(mem, mem', {c[0], c[0] + 8} + (if c[1] != 0 then {c[1] + 24} else {}))
    requires Read(mem', c[1] + 24) == 0
    ensures LinkOk(mem', c[1..], i)
  {
    hide Read, Distinct;
    DistinctAt(c, 0, i + 1);
    PagesApart(c[0], c[i + 1]);
    if 0 < i {
      DistinctAt(c, 1, i + 1);
      PagesApart(c[1], c[i + 1]);
    }
  }

  lemma {:induction false} DistinctAt(c: seq<nat>, i: nat, j: nat)
    requires Distinct(c) && i < j < |c|
    ensures c[i] != c[j]
  {
  }

  lemma {:induction false} ChainDistinct(mem: map<nat, nat>, lists: seq<BufList>, ps: Pools, b: nat)
    requires b < |lists| == |ps.chains| && ChainOk(mem, lists, ps, b)
    ensures Distinct(ps.chains[b]) && lists[b].head == Next(ps.chains[b], 0)
  {
  }

  /** Other chains, when words of the page `p` and back or forward pointers of pools in the chain of
      `b` change. */
  lemma {:induction false} OtherChain(mem: map<nat, nat>, mem': map<nat, nat>, lists: seq<BufList>,
                                      lists': seq<BufList>, ps: Pools, ps': Pools, b: nat, c: nat, p: nat, ws: set<nat>)
    requires PoolsOk(mem, lists, ps) && b < |lists| && c < |lists| && c != b && IsPage(p) && OnlyIn(mem, mem', ws)
    requires |lists'| == |lists| == |ps'.chains| && lists'[c].head == lists[c].head && ps'.chains[c] == ps.chains[c]
    requires p in ps.pool ==> ps.pool[p].bl == b
    requires forall q :: q in ps.pool && q != p ==> q in ps'.pool && ps'.pool[q] == ps.pool[q]
    requires forall w :: w in ws ==> p <= w < p + 4096 || exists q :: q in ps.chains[b] && (w == q + 16 || w == q + 24)
    ensures ChainOk(mem', lists', ps', c)
  {
    hide Read, PoolsOk, ChainOk, OnlyIn;
    ChainPools(mem, lists, ps, b);
    ChainPools(mem, lists, ps, c);
    forall q | q in ps.chains[c] ensures q != p && q + 16 !in ws && q + 24 !in ws {
      forall w | w in ws ensures w != q + 16 && w != q + 24 {
        PageOfWithin(q, q + 16);
        PageOfWithin(q, q + 24);
        if p <= w < p + 4096 {
          PageOfWithin(p, w);
        } else {
          var r :| r in ps.chains[b] && (w == r + 16 || w == r + 24);
          PageOfWithin(r, w);
        }
      }
    }
    ChainKept(mem, mem', lists, lists', ps, ps', c, ws);
  }

  /** Taking the last free buffer of a pool takes the pool out of its list. */
  lemma {:induction false} TakeLast(mem: map<nat, nat>, lists: seq<BufList>, ps: Pools, b: nat, p: nat)
    requires PoolsOk(mem, lists, ps) && b < |lists| && ps.chains[b] != [] && p == ps.chains[b][0] && p in ps.pool
    requires |ps.pool[p].free| == 1
    ensures var q := Read(mem, p + 16);
            && q == Next(ps.chains[b], 1)
            && PoolsOk(BackReset(TakenMem(mem, p), q, 0), WithHead(lists, b, q), Taken(ps, b, p))
  {
    hide PoolOk, ChainOk, Listed, OnlyIn, Read;
    ChainPools(mem, lists, ps, b);
    LinkAtPosition(mem, lists, ps, b, 0);
    PageWords(mem, lists, ps, p);
    var c := ps.chains[b];
    var q := Next(c, 1);
    var mem', lists', ps' := BackReset(TakenMem(mem, p), q, 0), WithHead(lists, b, q), Taken(ps, b, p);
    var ws := {p, p + 8} + (if q != 0 then {q + 24} else {});
    assert q != 0 ==> q in c;
    TakePool(mem, lists, p, ps.pool[p]);
    BackResetOnly(TakenMem(mem, p), q, 0);
    OnlyInBoth(mem, TakenMem(mem, p), mem', {p, p + 8}, if q != 0 then {q + 24} else {});
    TakeOthers(mem, mem', lists, lists', ps, p, ws);
    PoolKept2(TakenMem(mem, p), mem', lists, lists', p, q, Pool(b, ps.pool[p].free[1..]));
    DropFirstLinks(mem, lists, ps, b, mem');
    assert ps'.chains[b] == c[1..];
    ChainDistinct(mem, lists, ps, b);
    forall r | r in c[1..] ensures r != p && r in c {
      var i :| 0 <= i < |c[1..]| && c[1..][i] == r;
      assert r == c[i + 1];
    }
    ChainBuilt(mem', lists', ps', b);
    forall d | 0 <= d < |lists| && d != b ensures ChainOk(mem', lists', ps', d) {
      OtherChain(mem, mem', lists, lists', ps, ps', b, d, p, ws);
    }
    forall r | r in ps'.pool ensures Listed(ps', r) {
      assert Listed(ps, r);
      ListedAfterDrop(ps, ps', b, p, r);
    }
  }

  lemma {:induction false} BackResetOnly(mem: map<nat, nat>, q: nat, v: nat)
    ensures OnlyIn(mem, BackReset(mem, q, v), if q != 0 then {q + 24} else {})
    ensures q != 0 ==> Read(BackReset(mem, q, v), q + 24) == v
  {
  }

  lemma {:induction false} OnlyInBoth(mem: map<nat, nat>, mem1: map<nat, nat>, mem2: map<nat, nat>, ws1: set<nat>,
                                      ws2: set<nat>)
    requires OnlyIn(mem, mem1, ws1) && OnlyIn(mem1, mem2, ws2)
    ensures OnlyIn(mem, mem2, ws1 + ws2)
  {
  }

  lemma {:induction false} PoolKept2(mem: map<nat, nat>, mem': map<nat, nat>, lists: seq<BufList>, lists': seq<BufList>,
                                     p: nat, q: nat, pool: Pool)
    requires PoolOk(mem, lists, p, pool) && SameSizes(lists, lists') && (q != 0 ==> IsPage(q))
    requires OnlyIn(mem, mem', if q != 0 then {q + 24} else {})
    ensures PoolOk(mem', lists', p, pool)
  {
    hide PoolOk;
    if q != 0 { PageOfWithin(q, q + 24); }
    PoolKept(mem, mem', lists, lists', p, pool, if q != 0 then {q + 24} else {});
  }

  lemma {:induction false} ListedAfterDrop(ps: Pools, ps': Pools, b: nat, p: nat, r: nat)
    requires b < |ps.chains| && ps.chains[b] != [] && p == ps.chains[b][0] && p in ps.pool
    requires ps'.chains == ps.chains[b := ps.chains[b][1..]] && r in ps'.pool && (r == p ==> ps'.pool[r].free == [])
    requires r != p ==> r in ps.pool && ps'.pool[r] == ps.pool[r] && Listed(ps, r)
    ensures Listed(ps', r)
  {
    if r != p && ps.pool[r].free != [] && ps.pool[r].bl == b {
      var i :| 0 <= i < |ps.chains[b]| && ps.chains[b][i] == r;
      assert ps.chains[b][1..][i - 1] == r;
    }
  }

  /* ---------- a new pool ---------- */

  predicate InPage(p: nat, w: nat) { p <= w < p + 4096 }

  function PageWordSet(p: nat): set<nat> { set w | p <= w < p + 4096 && InPage(p, w) }

  /** The buffers of a page in ascending order. */
  function AllSlots(p: nat, size: nat, max: nat): seq<nat> {
    seq(max, i requires 0 <= i < max => Slot(p, size, max - i))
  }

  function Slot(p: nat, size: nat, k: nat): nat { if p + 4096 >= k * size then SlotAt(p, size, k) else 0 }

  lemma {:induction false} SlotsInPage(p: nat, size: nat, max: nat, k: nat)
    requires size >= 8 && HEADER <= 4096 - max * size && 1 <= k <= max
    ensures Slot(p, size, k) == SlotAt(p, size, k) && p + HEADER <= Slot(p, size, k)
    ensures Slot(p, size, k) + size <= p + 4096
    ensures k > 1 ==> Slot(p, size, k) + size == Slot(p, size, k - 1)
    ensures k == 1 ==> Slot(p, size, k) + size == p + 4096
  {
    MulMono(k, max, size);
    MulAtLeast(k, size);
    if k > 1 { assert (k - 1) * size == k * size - size; }
  }

  /** Position `i` of the list holds a buffer of the page, adjacent to the next one or the end. */
  ghost predicate SlotHere(p: nat, size: nat, max: nat, l: seq<nat>, i: nat)
    requires i < |l|
  {
    IsSlot(p, size, max, l[i]) && p + HEADER <= l[i] && l[i] + size <= p + 4096 && l[i] + size == After(l, i, p + 4096)
  }

  lemma {:induction false} AllSlotsAt(p: nat, size: nat, max: nat, i: nat)
    requires size >= 8 && HEADER <= 4096 - max * size && i < max
    ensures |AllSlots(p, size, max)| == max && SlotHere(p, size, max, AllSlots(p, size, max), i)
    ensures AllSlots(p, size, max)[i] == SlotAt(p, size, max - i)
  {
    hide IsSlot, Slot;
    SlotsInPage(p, size, max, max - i);
    SlotIsSlot(p, size, max, max - i);
  }

  lemma {:induction false} AllSlotsOk(p: nat, size: nat, max: nat)
    requires size >= 8 && max >= 1 && HEADER <= 4096 - max * size
    ensures var l := AllSlots(p, size, max);
            && |l| == max && Distinct(l) && l[0] == p + 4096 - max * size
            && forall i :: 0 <= i < max ==> SlotHere(p, size, max, l, i)
  {
    hide IsSlot, Slot, AllSlots, SlotHere, SlotAt, After;
    var l := AllSlots(p, size, max);
    AllSlotsAt(p, size, max, 0);
    FirstSlot(p, size, max);
    forall i | 0 <= i < max ensures SlotHere(p, size, max, l, i) {
      AllSlotsAt(p, size, max, i);
    }
    forall i, j | 0 <= i < j < |l| ensures l[i] != l[j] {
      AllSlotsAt(p, size, max, i);
      AllSlotsAt(p, size, max, j);
      SlotsDiffer(p, size, max - i, max - j);
    }
  }

  lemma {:induction false} FirstSlot(p: nat, size: nat, max: nat)
    ensures SlotAt(p, size, max) == p + 4096 - max * size
  {
  }

  lemma {:induction false} SlotsDiffer(p: nat, size: nat, j: nat, k: nat)
    requires k < j && size >= 8
    ensures SlotAt(p, size, j) != SlotAt(p, size, k)
  {
    MulMono(k + 1, j, size);
  }

  lemma {:induction false} SlotIsSlot(p: nat, size: nat, max: nat, k: nat)
    requires 1 <= k <= max && Slot(p, size, k) == SlotAt(p, size, k)
    ensures IsSlot(p, size, max, Slot(p, size, k))
  {
  }

  function After(l: seq<nat>, i: nat, end: nat): nat { if i + 1 < |l| then l[i + 1] else end }

  /** A page with all its buffers free becomes the only pool in an empty list. */
  lemma {:induction false} NewPoolOk(mem: map<nat, nat>, mem': map<nat, nat>, lists: seq<BufList>, ps: Pools, b: nat,
                                     p: nat, free: seq<nat>)
    requires PoolsOk(mem, lists, ps) && b < |lists| && ps.chains[b] == [] && IsPage(p) && p !in ps.pool && free != []
    requires PoolOk(mem', lists, p, Pool(b, free)) && Read(mem', p + 16) == 0 && Read(mem', p + 24) == 0
    requires OnlyIn(mem, mem', PageWordSet(p))
    ensures PoolsOk(mem', WithHead(lists, b, p), Pools(ps.pool[p := Pool(b, free)], ps.chains[b := [p]]))
  {
    hide PoolOk, ChainOk, Listed, OnlyIn, Read;
    var lists', ps' := WithHead(lists, b, p), Pools(ps.pool[p := Pool(b, free)], ps.chains[b := [p]]);
    var ws := PageWordSet(p);
    TakeOthers(mem, mem', lists, lists', ps, p, ws);
    OnlyInSelf(mem');
    PoolKept(mem', mem', lists, lists', p, Pool(b, free), {});
    SingleLink(mem', p);
    ChainBuilt(mem', lists', ps', b);
    forall d | 0 <= d < |lists| && d != b ensures ChainOk(mem', lists', ps', d) {
      OtherChain(mem, mem', lists, lists', ps, ps', b, d, p, ws);
    }
    forall r | r in ps'.pool ensures Listed(ps', r) {
      if r != p { assert Listed(ps, r); }
      ListedNew(ps, ps', b, p, r);
    }
  }

  lemma {:induction false} OnlyInSelf(mem: map<nat, nat>)
    ensures OnlyIn(mem, mem, {})
  {
  }

  lemma {:induction false} SingleLink(mem: map<nat, nat>, p: nat)
    requires Read(mem, p + 16) == 0 && Read(mem, p + 24) == 0
    ensures LinkOk(mem, [p], 0) && Distinct([p])
  {
  }

  lemma {:induction false} ListedNew(ps: Pools, ps': Pools, b: nat, p: nat, r: nat)
    requires b < |ps.chains| && ps.chains[b] == [] && ps'.chains == ps.chains[b := [p]] && r in ps'.pool
    requires r == p ==> ps'.pool[r].bl == b
    requires r != p ==> r in ps.pool && ps'.pool[r] == ps.pool[r] && Listed(ps, r)
    ensures Listed(ps', r)
  {
  }

  /* ---------- putting a buffer back ---------- */

  function PutMem(mem: map<nat, nat>, p: nat, buf: nat): map<nat, nat> {
    mem[buf := Read(mem, p)][p := buf][p + 8 := Read(mem, p + 8) + 1]
  }

  lemma {:induction false} PutPool(mem: map<nat, nat>, lists: seq<BufList>, p: nat, pool: Pool, buf: nat)
    requires PoolOk(mem, lists, p, pool) && buf !in pool.free
    requires IsSlot(p, lists[pool.bl].size, lists[pool.bl].max_free, buf)
    ensures var mem' := PutMem(mem, p, buf);
            && PoolOk(mem', lists, p, Pool(pool.bl, [buf] + pool.free))
            && Read(mem', p + 8) == |pool.free| + 1 && Read(mem', p + 16) == Read(mem, p + 16)
            && Read(mem', p + 24) == Read(mem, p + 24)
            && OnlyIn(mem, mem', {buf, p, p + 8}) && p + HEADER <= buf < p + 4096
  {
    hide IsSlot;
    var bl, mem', f' := lists[pool.bl], PutMem(mem, p, buf), [buf] + pool.free;
    SlotBounds(p, bl.size, bl.max_free, buf);
    forall i | 0 <= i < |f'| ensures Read(mem', f'[i]) == Next(f', i + 1) {
      if i > 0 {
        SlotBounds(p, bl.size, bl.max_free, pool.free[i - 1]);
        assert Read(mem, pool.free[i - 1]) == Next(pool.free, i);
      }
    }
    PoolBuilt(mem', lists, p, Pool(pool.bl, f'));
  }

  /** Putting a buffer back into a pool that stays in its list. */
  lemma {:induction false} PutSome(mem: map<nat, nat>, lists: seq<BufList>, ps: Pools, p: nat, buf: nat)
    requires PoolsOk(mem, lists, ps) && p in ps.pool && ps.pool[p].free != [] && buf !in ps.pool[p].free
    requires ps.pool[p].bl < |lists| && IsSlot(p, lists[ps.pool[p].bl].size, lists[ps.pool[p].bl].max_free, buf)
    ensures PoolsOk(PutMem(mem, p, buf), lists, ps.(pool := ps.pool[p := Pool(ps.pool[p].bl, [buf] + ps.pool[p].free)]))
  {
    hide PoolOk, ChainOk, Listed, OnlyIn, PutMem;
    var ps' := ps.(pool := ps.pool[p := Pool(ps.pool[p].bl, [buf] + ps.pool[p].free)]);
    var mem', ws := PutMem(mem, p, buf), {buf, p, p + 8};
    assert PoolOk(mem, lists, p, ps.pool[p]);
    PutPool(mem, lists, p, ps.pool[p], buf);
    PoolIsPage(mem, lists, p, ps.pool[p]);
    TakeOthers(mem, mem', lists, lists, ps, p, ws);
    PageWords(mem, lists, ps, p);
    forall c | 0 <= c < |lists| ensures ChainOk(mem', lists, ps', c) {
      ChainPools(mem, lists, ps, c);
      ChainKept(mem, mem', lists, lists, ps, ps', c, ws);
    }
    forall q | q in ps'.pool ensures Listed(ps', q) {
      assert Listed(ps, q);
      ListedKept(ps, ps', q);
    }
  }

  lemma {:induction false} PoolIsPage(mem: map<nat, nat>, lists: seq<BufList>, p: nat, pool: Pool)
    requires PoolOk(mem, lists, p, pool)
    ensures IsPage(p) && Read(mem, p + 8) == |pool.free| && Read(mem, p + 32) == pool.bl
    ensures Read(mem, p) == Next(pool.free, 0)
  {
  }

  /** The words after the pool `p` is put in front of the pool `head`. */
  function FrontMem(mem: map<nat, nat>, p: nat, head: nat): map<nat, nat> {
    BackReset(mem, head, p)[p + 16 := head][p + 24 := 0]
  }

  lemma {:induction false} FrontOnly(mem: map<nat, nat>, p: nat, head: nat)
    requires IsPage(p) && (head != 0 ==> IsPage(head) && head != p)
    ensures OnlyIn(mem, FrontMem(mem, p, head), {p + 16, p + 24} + (if head != 0 then {head + 24} else {}))
    ensures Read(FrontMem(mem, p, head), p + 16) == head && Read(FrontMem(mem, p, head), p + 24) == 0
    ensures head != 0 ==> Read(FrontMem(mem, p, head), head + 24) == p
  {
    if head != 0 { PagesApart(p, head); }
  }

  lemma {:induction false} FrontLinks(mem: map<nat, nat>, mem': map<nat, nat>, c: seq<nat>, p: nat, i: nat)
    requires i < |c| && LinkOk(mem, c, i) && Distinct(c) && IsPage(p) && IsPage(c[0]) && IsPage(c[i]) && p !in c
    requires forall w: nat :: !(p <= w < p + 4096) && w != c[0] + 24 ==> Read(mem', w) == Read(mem, w)
    requires Read(mem', c[0] + 24) == p
    ensures LinkOk(mem', [p] + c, i + 1)
  {
    hide Read, Distinct;
    assert c[i] != p;
    PagesApart(p, c[i]);
    if i > 0 {
      DistinctAt(c, 0, i);
      PagesApart(c[0], c[i]);
    }
  }

  /** Putting a buffer back into a pool that had none free puts the pool in front of its list. */
  lemma {:induction false} PutFirst(mem: map<nat, nat>, lists: seq<BufList>, ps: Pools, p: nat, buf: nat)
    requires PoolsOk(mem, lists, ps) && p in ps.pool && ps.pool[p].free == [] && ps.pool[p].bl < |lists|
    requires IsSlot(p, lists[ps.pool[p].bl].size, lists[ps.pool[p].bl].max_free, buf)
    ensures var b := ps.pool[p].bl;
            PoolsOk(FrontMem(PutMem(mem, p, buf), p, lists[b].head), WithHead(lists, b, p),
                    Pools(ps.pool[p := Pool(b, [buf])], ps.chains[b := [p] + ps.chains[b]]))
  {
    hide PoolOk, ChainOk, Listed, OnlyIn, PutMem, FrontMem, Read;
    var b := ps.pool[p].bl;
    var c, head := ps.chains[b], lists[b].head;
    var mem1 := PutMem(mem, p, buf);
    var mem', lists', ps' := FrontMem(mem1, p, head), WithHead(lists, b, p),
      Pools(ps.pool[p := Pool(b, [buf])], ps.chains[b := [p] + c]);
    var ws := {buf, p, p + 8} + ({p + 16, p + 24} + (if head != 0 then {head + 24} else {}));
    assert PoolOk(mem, lists, p, ps.pool[p]);
    PutPool(mem, lists, p, ps.pool[p], buf);
    assert [buf] + [] == [buf];
    PoolIsPage(mem, lists, p, ps.pool[p]);
    ChainPools(mem, lists, ps, b);
    ChainDistinct(mem, lists, ps, b);
    assert p !in c;
    assert head != 0 ==> c != [] && head == c[0] && head in c;
    FrontOnly(mem1, p, head);
    OnlyInBoth(mem, mem1, mem', {buf, p, p + 8}, {p + 16, p + 24} + (if head != 0 then {head + 24} else {}));
    TakeOthers(mem, mem', lists, lists', ps, p, ws);
    FrontPool(mem1, mem', lists, lists', p, head, Pool(b, [buf]));
    FrontChain(mem, mem', lists, lists', ps, ps', b, p, ws);
    forall d | 0 <= d < |lists| && d != b ensures ChainOk(mem', lists', ps', d) {
      OtherChain(mem, mem', lists, lists', ps, ps', b, d, p, ws);
    }
    forall r | r in ps'.pool ensures Listed(ps', r) {
      if r != p { assert Listed(ps, r); }
      ListedFront(ps, ps', b, p, r);
    }
  }

  lemma {:induction false} FrontPool(mem: map<nat, nat>, mem': map<nat, nat>, lists: seq<BufList>, lists': seq<BufList>,
                                     p: nat, head: nat, pool: Pool)
    requires PoolOk(mem, lists, p, pool) && SameSizes(lists, lists') && (head != 0 ==> IsPage(head))
    requires OnlyIn(mem, mem', {p + 16, p + 24} + (if head != 0 then {head + 24} else {}))
    ensures PoolOk(mem', lists', p, pool)
  {
    hide PoolOk, OnlyIn;
    if head != 0 { PageOfWithin(head, head + 24); }
    PoolKept(mem, mem', lists, lists', p, pool, {p + 16, p + 24} + (if head != 0 then {head + 24} else {}));
  }

  lemma {:induction false} FrontChain(mem: map<nat, nat>, mem': map<nat, nat>, lists: seq<BufList>,
                                      lists': seq<BufList>, ps: Pools, ps': Pools, b: nat, p: nat, ws: set<nat>)
    requires PoolsOk(mem, lists, ps) && b < |lists| && IsPage(p) && p !in ps.chains[b] && OnlyIn(mem, mem', ws)
    requires |lists'| == |lists| == |ps'.chains| && lists'[b].head == p && ps'.chains[b] == [p] + ps.chains[b]
    requires p in ps'.pool && ps'.pool[p].bl == b && ps'.pool[p].free != []
    requires forall q :: q in ps.pool && q != p ==> q in ps'.pool && ps'.pool[q] == ps.pool[q]
    requires var head := lists[b].head;
             && (forall w :: w in ws ==> p <= w < p + 4096 || (head != 0 && w == head + 24))
             && Read(mem', p + 16) == head && Read(mem', p + 24) == 0 && (head != 0 ==> Read(mem', head + 24) == p)
    ensures ChainOk(mem', lists', ps', b)
  {
    hide Read, PoolsOk, ChainOk, LinkOk;
    ChainPools(mem, lists, ps, b);
    ChainDistinct(mem, lists, ps, b);
    var c := ps.chains[b];
    var c' := [p] + c;
    forall i | 0 <= i < |c'| ensures LinkOk(mem', c', i) {
      if i == 0 {
        FrontLink(mem', p, c);
      } else {
        LinkAtPosition(mem, lists, ps, b, i - 1);
        assert c[0] in c && c[i - 1] in c;
        FrontLinks(mem, mem', c, p, i - 1);
      }
    }
    ChainBuilt(mem', lists', ps', b);
  }

  lemma {:induction false} FrontLink(mem: map<nat, nat>, p: nat, c: seq<nat>)
    requires Read(mem, p + 16) == Next(c, 0) && Read(mem, p + 24) == 0
    ensures LinkOk(mem, [p] + c, 0)
  {
  }

  lemma {:induction false} ListedFront(ps: Pools, ps': Pools, b: nat, p: nat, r: nat)
    requires b < |ps.chains| && ps'.chains == ps.chains[b := [p] + ps.chains[b]] && r in ps'.pool
    requires r == p ==> ps'.pool[r].bl == b
    requires r != p ==> r in ps.pool && ps'.pool[r] == ps.pool[r] && Listed(ps, r)
    ensures Listed(ps', r)
  {
  }

  /* ---------- giving a page back ---------- */

  /** The words after the pool `p` between `prev` and `next` is unlinked. */
  function UnlinkMem(mem: map<nat, nat>, isHead: bool, prev: nat, next: nat): map<nat, nat> {
    var mem1 := BackReset(mem, next, prev);
    if !isHead && prev != 0 then mem1[prev + 16 := next] else mem1
  }

  function LinkWords(prev: nat, next: nat): set<nat> {
    (if next != 0 then {next + 24} else {}) + (if prev != 0 then {prev + 16} else {})
  }

  lemma {:induction false} UnlinkOnly(mem: map<nat, nat>, isHead: bool, prev: nat, next: nat)
    requires (prev != 0 ==> IsPage(prev)) && (next != 0 ==> IsPage(next)) && (isHead ==> prev == 0)
    ensures var mem' := UnlinkMem(mem, isHead, prev, next);
            && OnlyIn(mem, mem', LinkWords(prev, next))
            && (next != 0 ==> Read(mem', next + 24) == prev) && (prev != 0 ==> Read(mem', prev + 16) == next)
  {
    if prev != 0 && next != 0 {
      PageOfWithin(prev, prev + 16);
      PageOfWithin(next, next + 24);
    }
  }

  function DropAt(c: seq<nat>, i: nat): seq<nat>
    requires i < |c|
  {
    c[..i] + c[i + 1..]
  }

  lemma {:induction false} DropAtIs(c: seq<nat>, i: nat, j: nat)
    requires i < |c| && j < |c| - 1
    ensures |DropAt(c, i)| == |c| - 1 && DropAt(c, i)[j] == c[if j < i then j else j + 1]
  {
  }

  lemma {:induction false} DropAtDistinct(c: seq<nat>, i: nat)
    requires Distinct(c) && i < |c|
    ensures Distinct(DropAt(c, i)) && forall q :: q in DropAt(c, i) <==> q in c && q != c[i]
  {
    var c' := DropAt(c, i);
    forall j, k | 0 <= j < k < |c'| ensures c'[j] != c'[k] {
      DropAtIs(c, i, j);
      DropAtIs(c, i, k);
    }
    forall q | q in c && q != c[i] ensures q in c' {
      var j :| 0 <= j < |c| && c[j] == q;
      DropAtIs(c, i, if j < i then j else j - 1);
    }
    forall q | q in c' ensures q in c && q != c[i] {
      var j :| 0 <= j < |c'| && c'[j] == q;
      DropAtIs(c, i, j);
    }
  }

  lemma {:induction false} UnlinkLink(mem: map<nat, nat>, mem': map<nat, nat>, c: seq<nat>, i: nat, j: nat)
    requires i < |c| && j < |c| - 1 && Distinct(c) && (forall q :: q in c ==> IsPage(q))
    requires LinkOk(mem, c, if j < i then j else j + 1)
    requires OnlyIn(mem, mem', LinkWords(Prev(c, i), Next(c, i + 1)) + {c[i], c[i] + 8})
           || OnlyIn(mem, mem', LinkWords(Prev(c, i), Next(c, i + 1)) + PageWordSet(c[i]))
    requires i + 1 < |c| ==> Read(mem', c[i + 1] + 24) == Prev(c, i)
    requires i > 0 ==> Read(mem', c[i - 1] + 16) == Next(c, i + 1)
    ensures j < |DropAt(c, i)| && LinkOk(mem', DropAt(c, i), j)
  {
    hide Read, Distinct, DropAt, OnlyIn, LinkWords, PageWordSet;
    var k := if j < i then j else j + 1;
    DropAtIs(c, i, j);
    if j > 0 { DropAtIs(c, i, j - 1); }
    if j + 1 < |c| - 1 { DropAtIs(c, i, j + 1); }
    if k + 1 != i { UnlinkWord(mem, mem', c, i, k, 16); }
    if k != i + 1 { UnlinkWord(mem, mem', c, i, k, 24); }
  }

  /** A link word that is not rewritten. */
  lemma {:induction false} UnlinkWord(mem: map<nat, nat>, mem': map<nat, nat>, c: seq<nat>, i: nat, k: nat, at: nat)
    requires i < |c| && k < |c| && k != i && Distinct(c) && (forall q :: q in c ==> IsPage(q))
    requires (at == 16 && k + 1 != i) || (at == 24 && k != i + 1)
    requires OnlyIn(mem, mem', LinkWords(Prev(c, i), Next(c, i + 1)) + {c[i], c[i] + 8})
           || OnlyIn(mem, mem', LinkWords(Prev(c, i), Next(c, i + 1)) + PageWordSet(c[i]))
    ensures Read(mem', c[k] + at) == Read(mem, c[k] + at)
  {
    hide Read, Distinct;
    UnlinkElsewhere(c, i, k);
    assert c[k] in c && c[i] in c;
    if i > 0 { assert c[i - 1] in c; }
    if i + 1 < |c| { assert c[i + 1] in c; }
    assert c[k] + at !in LinkWords(Prev(c, i), Next(c, i + 1));
  }

  lemma {:induction false} UnlinkElsewhere(c: seq<nat>, i: nat, k: nat)
    requires i < |c| && k < |c| && k != i && Distinct(c) && (forall q :: q in c ==> IsPage(q))
    ensures c[k] + 4096 <= c[i] || c[i] + 4096 <= c[k]
    ensures i > 0 && k != i - 1 ==> c[k] != c[i - 1]
    ensures i + 1 < |c| && k != i + 1 ==> c[k] != c[i + 1]
    ensures i > 0 ==> c[k] + 24 != c[i - 1] + 16 && c[k] + 16 != c[i - 1] + 24
    ensures i + 1 < |c| ==> c[k] + 24 != c[i + 1] + 16 && c[k] + 16 != c[i + 1] + 24
  {
    assert c[k] in c && c[i] in c;
    PagesApart(c[k], c[i]);
    if i > 0 { assert c[i - 1] in c; }
    if i + 1 < |c| { assert c[i + 1] in c; }
  }

  /** The pools without the page `p`, which is position `i` of its list. */
  function Dropped(ps: Pools, b: nat, i: nat, p: nat): Pools
    requires b < |ps.chains| && i < |ps.chains[b]|
  {
    Pools(ps.pool - {p}, ps.chains[b := DropAt(ps.chains[b], i)])
  }

  /** Unlinking the pool at position `i` and forgetting its page. */
  lemma {:induction false} DropPool(mem: map<nat, nat>, mem1: map<nat, nat>, lists: seq<BufList>, ps: Pools, b: nat,
                                    i: nat, p: nat)
    requires PoolsOk(mem, lists, ps) && b < |lists| == |ps.chains| && i < |ps.chains[b]| && p == ps.chains[b][i]
    requires IsPage(p)
    requires OnlyIn(mem, mem1, PageWordSet(p))
    ensures var c := ps.chains[b]; var prev, next := Prev(c, i), Next(c, i + 1);
            && Read(mem, p + 16) == next && Read(mem, p + 24) == prev && (lists[b].head == p <==> i == 0)
            && PoolsOk(UnlinkMem(mem1, i == 0, prev, next), if i == 0 then WithHead(lists, b, next)
                       else lists, Dropped(ps, b, i, p))
  {
    hide PoolOk, ChainOk, Listed, OnlyIn, Read, DropAt, UnlinkMem, LinkWords;
    var c := ps.chains[b];
    var prev, next := Prev(c, i), Next(c, i + 1);
    var mem' := UnlinkMem(mem1, i == 0, prev, next);
    var lists', ps' := if i == 0 then WithHead(lists, b, next) else lists, Dropped(ps, b, i, p);
    var ws := LinkWords(prev, next) + PageWordSet(p);
    ChainPools(mem, lists, ps, b);
    ChainDistinct(mem, lists, ps, b);
    LinkAtPosition(mem, lists, ps, b, i);
    NeighboursIn(c, i);
    UnlinkOnly(mem1, i == 0, prev, next);
    OnlyInBoth(mem, mem1, mem', PageWordSet(p), LinkWords(prev, next));
    assert PageWordSet(p) + LinkWords(prev, next) == ws;
    LinkWordsAre(prev, next, c, p, ws);
    TakeOthers(mem, mem', lists, lists', ps, p, ws);
    DropAtDistinct(c, i);
    DropChain(mem, mem', lists, lists', ps, ps', b, i, p);
    forall d | 0 <= d < |lists| && d != b ensures ChainOk(mem', lists', ps', d) {
      OtherChain(mem, mem', lists, lists', ps, ps', b, d, p, ws);
    }
    forall r | r in ps'.pool ensures Listed(ps', r) {
      assert Listed(ps, r);
      ListedDropped(ps, ps', b, p, r, DropAt(c, i));
    }
  }

  lemma {:induction false} NeighboursIn(c: seq<nat>, i: nat)
    requires i < |c| && Distinct(c) && forall q :: q in c ==> IsPage(q)
    ensures Prev(c, i) != 0 ==> Prev(c, i) in c && IsPage(Prev(c, i))
    ensures Next(c, i + 1) != 0 ==> Next(c, i + 1) in c && IsPage(Next(c, i + 1))
    ensures i > 0 <==> Prev(c, i) != 0
    ensures Next(c, 0) == c[i] <==> i == 0
  {
    assert i > 0 ==> c[i - 1] in c;
  }

  lemma {:induction false} LinkWordsAre(prev: nat, next: nat, c: seq<nat>, p: nat, ws: set<nat>)
    requires ws == LinkWords(prev, next) + PageWordSet(p) && (prev != 0 ==> prev in c) && (next != 0 ==> next in c)
    ensures forall w :: w in ws ==> p <= w < p + 4096 || exists q :: q in c && (w == q + 16 || w == q + 24)
  {
  }

  lemma {:induction false} DropChain(mem: map<nat, nat>, mem': map<nat, nat>, lists: seq<BufList>, lists': seq<BufList>,
                                     ps: Pools, ps': Pools, b: nat, i: nat, p: nat)
    requires PoolsOk(mem, lists, ps) && b < |lists| == |ps.chains| == |lists'| && i < |ps.chains[b]|
    requires p == ps.chains[b][i]
    requires ps' == Dropped(ps, b, i, p)
    requires var c := ps.chains[b]; var prev, next := Prev(c, i), Next(c, i + 1);
             && lists'[b].head == (if i == 0 then next else lists[b].head)
             && OnlyIn(mem, mem', LinkWords(prev, next) + PageWordSet(p))
             && (next != 0 ==> Read(mem', next + 24) == prev) && (prev != 0 ==> Read(mem', prev + 16) == next)
    ensures ChainOk(mem', lists', ps', b)
  {
    hide Read, PoolsOk, ChainOk, LinkOk, DropAt, OnlyIn, LinkWords, PageWordSet;
    ChainPools(mem, lists, ps, b);
    ChainDistinct(mem, lists, ps, b);
    var c := ps.chains[b];
    NeighboursIn(c, i);
    DropAtDistinct(c, i);
    DropHead(c, i);
    forall j | 0 <= j < |ps'.chains[b]| ensures LinkOk(mem', ps'.chains[b], j) {
      DropLength(c, i);
      LinkAtPosition(mem, lists, ps, b, if j < i then j else j + 1);
      assert i + 1 < |c| ==> c[i + 1] in c;
      UnlinkLink(mem, mem', c, i, j);
    }
    ChainBuilt(mem', lists', ps', b);
  }

  lemma {:induction false} DropLength(c: seq<nat>, i: nat)
    requires i < |c|
    ensures |DropAt(c, i)| == |c| - 1
  {
  }

  lemma {:induction false} DropHead(c: seq<nat>, i: nat)
    requires i < |c|
    ensures Next(DropAt(c, i), 0) == if i == 0 then Next(c, 1) else Next(c, 0)
  {
  }

  lemma {:induction false} ListedDropped(ps: Pools, ps': Pools, b: nat, p: nat, r: nat, c': seq<nat>)
    requires b < |ps.chains| && ps'.chains == ps.chains[b := c'] && r in ps'.pool && r != p
    requires forall q :: q in c' <==> q in ps.chains[b] && q != p
    requires r in ps.pool && ps'.pool[r] == ps.pool[r] && Listed(ps, r)
    ensures Listed(ps', r)
  {
  }

  /* ---------- counting the buffers of a page ---------- */

  function SlotSet(p: nat, size: nat, max: nat): set<int> {
    set k | 1 <= k <= max :: SlotAt(p, size, k)
  }

  lemma {:induction false} SlotSetSize(p: nat, size: nat, max: nat)
    ensures |SlotSet(p, size, max)| <= max
  {
    if max == 0 {
      assert SlotSet(p, size, 0) == {};
    } else {
      SlotSetSize(p, size, max - 1);
      assert SlotSet(p, size, max) == SlotSet(p, size, max - 1) + {SlotAt(p, size, max)};
    }
  }

  lemma {:induction false} DistinctSize(l: seq<nat>)
    requires Distinct(l)
    ensures |set x: int | x in l| == |l|
  {
    if l == [] {
      assert (set x: int | x in l) == {};
    } else {
      var init := l[..|l| - 1];
      DistinctSize(init);
      assert l == init + [l[|l| - 1]];
      assert (set x: int | x in l) == (set x: int | x in init) + {l[|l| - 1]};
    }
  }

  /** A page all of whose buffers are free has no live buffer. */
  lemma {:induction false} FullyFree(p: nat, size: nat, max: nat, free: seq<nat>, x: nat)
    requires Distinct(free) && |free| >= max && IsSlot(p, size, max, x)
    requires forall i :: 0 <= i < |free| ==> IsSlot(p, size, max, free[i])
    ensures x in free
  {
    var s := set y: int | y in free;
    DistinctSize(free);
    SlotSetSize(p, size, max);
    forall y | y in s ensures y in SlotSet(p, size, max) {
      assert IsSlot(p, size, max, y);
    }
    SubsetSameSize(s, SlotSet(p, size, max));
    assert (x as int) in SlotSet(p, size, max);
  }

  /* ---------- live buffers ---------- */

  /** Taking a buffer makes exactly that one live. */
  lemma {:induction false} TakenLive(mem: map<nat, nat>, lists: seq<BufList>, lists': seq<BufList>, ps: Pools, b: nat,
                                     p: nat, x: nat)
    requires PoolsOk(mem, lists, ps) && b < |lists| && ps.chains[b] != [] && p == ps.chains[b][0] && p in ps.pool
    requires ps.pool[p].free != []
    requires ps.pool[p].bl == b && SameSizes(lists, lists')
    ensures var buf := ps.pool[p].free[0];
            && !IsLive(lists, ps, buf)
            && (IsLive(lists', Taken(ps, b, p), x) <==> IsLive(lists, ps, x) || x == buf)
            && SizeOf(lists', Taken(ps, b, p), buf) == lists[b].size && PageOf(buf) == p
  {
    hide IsSlot, ChainOk, Listed;
    assert PoolOk(mem, lists, p, ps.pool[p]);
    var f := ps.pool[p].free;
    SlotBounds(p, lists[b].size, lists[b].max_free, f[0]);
    assert f == [f[0]] + f[1..];
  }

  /** A fresh pool has no live buffer. */
  lemma {:induction false} NewPoolLive(lists: seq<BufList>, lists': seq<BufList>, ps: Pools, b: nat, p: nat,
                                       chains: seq<seq<nat>>, x: nat)
    requires b < |lists| && p !in ps.pool && SameSizes(lists, lists') && IsPage(p)
    requires lists[b].size < 4096 && SizeOk(lists[b])
    ensures var ps' := Pools(ps.pool[p := Pool(b, AllSlots(p, lists[b].size, lists[b].max_free))], chains);
            IsLive(lists', ps', x) <==> IsLive(lists, ps, x)
  {
    hide IsSlot, Distinct, AllSlots;
    var bl := lists[b];
    if PageOf(x) == p && IsSlot(p, bl.size, bl.max_free, x) {
      AllSlotsOk(p, bl.size, bl.max_free);
      var all := AllSlots(p, bl.size, bl.max_free);
      forall i | 0 <= i < |all| ensures IsSlot(p, bl.size, bl.max_free, all[i]) {
        assert SlotHere(p, bl.size, bl.max_free, all, i);
      }
      FullyFree(p, bl.size, bl.max_free, all, x);
    }
  }

  /** Putting a buffer back makes exactly that one not live, whether or not its page goes. */
  lemma {:induction false} PutLive(mem: map<nat, nat>, lists: seq<BufList>, lists': seq<BufList>, ps: Pools, ps': Pools,
                                   p: nat, buf: nat, x: nat)
    requires PoolsOk(mem, lists, ps) && IsLive(lists, ps, buf) && p == PageOf(buf) && SameSizes(lists, lists')
    requires var b := ps.pool[p].bl; var f := [buf] + ps.pool[p].free;
             ps'.pool == ps.pool[p := Pool(b, f)] || (|f| == lists[b].max_free && ps'.pool == ps.pool - {p})
    ensures IsLive(lists', ps', x) <==> IsLive(lists, ps, x) && x != buf
  {
    hide IsSlot, ChainOk, Listed;
    assert PoolOk(mem, lists, p, ps.pool[p]);
    var bl, f := lists[ps.pool[p].bl], [buf] + ps.pool[p].free;
    if PageOf(x) == p && p !in ps'.pool && IsSlot(p, bl.size, bl.max_free, x) {
      FullyFree(p, bl.size, bl.max_free, f, x);
    }
  }
}
