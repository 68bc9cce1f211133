/** The buffer allocator of the mapping database: kernel/src/generic/mapping_alloc.cc.

    Small buffers come from pools of equally sized buffers, one 4096-byte page each, taken from and
    given back to the kernel memory allocator; large ones are forwarded to it.  A freed buffer finds
    its pool by masking its address.
 */
module MappingAlloc {
  import opened FiniteSets
  import opened Words
  import opened Kmem
  import opened BufferPools
  import opened PageSizes

  /** What a request comes to; the source stops the kernel in the last two cases. */
  datatype Outcome = Buffer(addr: nat) | OutOfMemory | IllegalSize

  /** No pool of this size has a free buffer, or the size is forwarded anyway. */
  ghost predicate NeedsMemory(lists: seq<BufList>, size: nat) {
    exists b :: 0 <= b < |lists| && lists[b].size == size && (size >= 4096 || lists[b].head == 0)
  }

  /** What is then asked of kernel memory. */
  function Request(size: nat): nat { if size < 4096 then 4096 else size }

  /** First fit finds no block of this size. */
  ghost predicate NoFit(free: seq<nat>, size: nat) {
    forall j :: 0 <= j < |free| ==> !Fits(free, j, size, 0, 0)
  }

  /** The buffer lists as `mdb_buflist_init` sets them up. */
  ghost predicate BufferListsOk(lists: seq<BufList>) {
    && (forall b :: 0 <= b < |lists| ==> SizeOk(lists[b]))
    && (forall b, c :: 0 <= b < c < |lists| ==> lists[b].size != lists[c].size)
  }

  /** Pool pages and large buffers overlap neither free memory nor each other. */
  ghost predicate InUse(free: seq<nat>, ps: Pools, large: map<nat, nat>) {
    && (forall p :: p in ps.pool ==> IsPage(p) && Apart(free, p, 4096))
    && (forall a :: a in large ==> LargeOk(free, a, large[a]))
    && (forall a, p :: a in large && p in ps.pool ==> RangesApart(a, large[a], p, 4096))
    && (forall a, c :: a in large && c in large && a != c ==> RangesApart(a, large[a], c, large[c]))
  }

  ghost predicate LargeOk(free: seq<nat>, a: nat, size: nat) {
    size >= 4096 && size % 1024 == 0 && IsChunk(a) && a + size <= W64 && Apart(free, a, size)
  }

  /* ---------- pools and kernel memory ---------- */

  /** Pools do not notice changes to memory outside their pages. */
  lemma {:induction false} PoolsFrame(mem: map<nat, nat>, mem': map<nat, nat>, lists: seq<BufList>, ps: Pools)
    requires PoolsOk(mem, lists, ps)
    requires forall p, w :: p in ps.pool && InPage(p, w) ==> Read(mem', w) == Read(mem, w)
    ensures PoolsOk(mem', lists, ps)
  {
    hide Read, Next, Prev, IsSlot;
    forall p | p in ps.pool ensures PoolOk(mem', lists, p, ps.pool[p]) {
      PoolFrame(mem, mem', lists, p, ps.pool[p]);
    }
    forall b | 0 <= b < |lists| ensures ChainOk(mem', lists, ps, b) {
      ChainFrame(mem, mem', lists, ps, b);
    }
  }

  lemma {:induction false} PoolFrame(mem: map<nat, nat>, mem': map<nat, nat>, lists: seq<BufList>, p: nat, pool: Pool)
    requires PoolOk(mem, lists, p, pool) && forall w :: InPage(p, w) ==> Read(mem', w) == Read(mem, w)
    ensures PoolOk(mem', lists, p, pool)
  {
    hide Read, Next, IsSlot;
    var bl := lists[pool.bl];
    assert InPage(p, p) && InPage(p, p + 8) && InPage(p, p + 32);
    forall i | 0 <= i < |pool.free| ensures Read(mem', pool.free[i]) == Next(pool.free, i + 1) {
      SlotBounds(p, bl.size, bl.max_free, pool.free[i]);
      assert InPage(p, pool.free[i]);
    }
  }

  lemma {:induction false} ChainFrame(mem: map<nat, nat>, mem': map<nat, nat>, lists: seq<BufList>, ps: Pools, b: nat)
    requires PoolsOk(mem, lists, ps) && b < |lists| == |ps.chains|
    requires forall p, w :: p in ps.pool && InPage(p, w) ==> Read(mem', w) == Read(mem, w)
    ensures ChainOk(mem', lists, ps, b)
  {
    hide Read, Next, Prev, PoolsOk, ChainOk, Listed;
    ChainPools(mem, lists, ps, b);
    ChainDistinct(mem, lists, ps, b);
    var c := ps.chains[b];
    forall i | 0 <= i < |c| ensures LinkOk(mem', c, i) {
      LinkAtPosition(mem, lists, ps, b, i);
      assert c[i] in c && InPage(c[i], c[i] + 16) && InPage(c[i], c[i] + 24);
    }
    ChainBuilt(mem', lists, ps, b);
  }

  /** Words of pool pages are not touched when kernel memory hands out a block. */
  lemma {:induction false} AllocFrame(mem: map<nat, nat>, mem': map<nat, nat>, lists: seq<BufList>, ps: Pools,
                                      large: map<nat, nat>, free: seq<nat>, free': seq<nat>, i: nat, n: nat)
    requires PoolsOk(mem, lists, ps) && InUse(free, ps, large) && n > 0 && i + n < |free|
    requires free' == Without(free, i, n)
    requires free[i..i + n] == Run(free[i], n)
    requires forall w :: !InBlock(free[i], n * 1024, w) && w !in free' ==> Read(mem', w) == Read(mem, w)
    ensures PoolsOk(mem', lists, ps) && InUse(free', ps, large)
    ensures forall p :: p in ps.pool ==> RangesApart(free[i], n * 1024, p, 4096)
    ensures forall a :: a in large ==> RangesApart(free[i], n * 1024, a, large[a])
  {
    hide Read, Run, Without, PoolsOk, IsPage, IsChunk, Apart;
    forall p | p in ps.pool ensures Apart(free', p, 4096) && RangesApart(free[i], n * 1024, p, 4096) {
      ApartWithout(free, i, n, p, 4096);
      ApartFromBlock(free, i, n, p, 4096);
    }
    forall a | a in large ensures LargeOk(free', a, large[a]) && RangesApart(free[i], n * 1024, a, large[a]) {
      ApartWithout(free, i, n, a, large[a]);
      ApartFromBlock(free, i, n, a, large[a]);
    }
    forall p, w | p in ps.pool && InPage(p, w) ensures Read(mem', w) == Read(mem, w) {
      ApartWord(free', p, 4096, w);
    }
    PoolsFrame(mem, mem', lists, ps);
  }

  /** Nor when it takes one back. */
  lemma {:induction false} FreeFrame(mem: map<nat, nat>, mem': map<nat, nat>, lists: seq<BufList>, ps: Pools,
                                     large: map<nat, nat>, free: seq<nat>, a: nat, n: nat)
    requires PoolsOk(mem, lists, ps) && InUse(free, ps, large)
    requires forall p :: p in ps.pool ==> RangesApart(a, n * 1024, p, 4096)
    requires forall c :: c in large ==> RangesApart(a, n * 1024, c, large[c])
    requires forall w :: w !in InsertRun(free, a, n) ==> Read(mem', w) == Read(mem, w)
    ensures PoolsOk(mem', lists, ps) && InUse(InsertRun(free, a, n), ps, large)
  {
    hide Read, InsertRun, PoolsOk, IsPage, IsChunk, Apart;
    forall p | p in ps.pool ensures Apart(InsertRun(free, a, n), p, 4096) {
      ApartInsert(free, a, n, p, 4096);
    }
    forall c | c in large ensures LargeOk(InsertRun(free, a, n), c, large[c]) {
      ApartInsert(free, a, n, c, large[c]);
    }
    forall p, w | p in ps.pool && InPage(p, w) ensures Read(mem', w) == Read(mem, w) {
      ApartWord(InsertRun(free, a, n), p, 4096, w);
    }
    PoolsFrame(mem, mem', lists, ps);
  }

  /** Live buffers overlap no free chunk. */
  lemma {:induction false} LiveNotFree(mem: map<nat, nat>, lists: seq<BufList>, free: seq<nat>, ps: Pools,
                                       large: map<nat, nat>, x: nat)
    requires PoolsOk(mem, lists, ps) && InUse(free, ps, large) && IsLive(lists, ps, x)
    ensures Apart(free, x, SizeOf(lists, ps, x))
  {
    hide PoolsOk, IsSlot;
    LiveApart(mem, lists, ps, x, x);
  }

  /* ---------- everything handed out ---------- */

  ghost function SmallLive(lists: seq<BufList>, ps: Pools): set<nat> {
    set p, x | p in ps.pool && p <= x < p + 4096 && InPage(p, x) && IsLive(lists, ps, x) :: x
  }

  /** The buffers handed out and not freed, small and large, with their sizes. */
  ghost function LiveMap(lists: seq<BufList>, ps: Pools, large: map<nat, nat>): map<nat, nat> {
    map x | x in SmallLive(lists, ps) + large.Keys :: if x in large then large[x] else SizeOf(lists, ps, x)
  }

  lemma {:induction false} LiveMapIs(lists: seq<BufList>, ps: Pools, large: map<nat, nat>, x: nat)
    ensures x in LiveMap(lists, ps, large) <==> IsLive(lists, ps, x) || x in large
    ensures x in LiveMap(lists, ps, large) ==>
              LiveMap(lists, ps, large)[x] == if x in large then large[x] else SizeOf(lists, ps, x)
  {
    if IsLive(lists, ps, x) {
      assert InPage(PageOf(x), x);
    }
  }

  /** No two live buffers overlap; each is a whole range of addresses, aligned like its size. */
  lemma {:induction false} LiveRanges(mem: map<nat, nat>, lists: seq<BufList>, ps: Pools, large: map<nat, nat>,
                                      free: seq<nat>, x: nat, y: nat)
    requires PoolsOk(mem, lists, ps) && InUse(free, ps, large)
    requires x in LiveMap(lists, ps, large) && y in LiveMap(lists, ps, large)
    ensures var live := LiveMap(lists, ps, large);
            && (x != y ==> RangesApart(x, live[x], y, live[y]))
            && 8 <= live[x] && 0 < x && x + live[x] <= W64 && (live[x] % 4 == 0 ==> x % 4 == 0)
  {
    hide PoolsOk, InUse, LiveMap;
    LiveRange(mem, lists, ps, large, free, x);
    if x != y { LivePair(mem, lists, ps, large, free, x, y); }
  }

  lemma {:induction false} LiveRange(mem: map<nat, nat>, lists: seq<BufList>, ps: Pools, large: map<nat, nat>,
                                     free: seq<nat>, x: nat)
    requires PoolsOk(mem, lists, ps) && InUse(free, ps, large) && x in LiveMap(lists, ps, large)
    ensures var size := LiveMap(lists, ps, large)[x];
            8 <= size && 0 < x && x + size <= W64 && (size % 4 == 0 ==> x % 4 == 0)
  {
    hide PoolsOk, IsLive, SizeOf, LiveMap, Apart;
    LiveMapIs(lists, ps, large, x);
    if x in large {
      assert LargeOk(free, x, large[x]);
    } else {
      LivePlace(mem, lists, ps, x);
      if LiveMap(lists, ps, large)[x] % 4 == 0 { LiveAligned(mem, lists, ps, x); }
    }
  }

  lemma {:induction false} LivePair(mem: map<nat, nat>, lists: seq<BufList>, ps: Pools, large: map<nat, nat>,
                                    free: seq<nat>, x: nat, y: nat)
    requires PoolsOk(mem, lists, ps) && InUse(free, ps, large) && x != y
    requires x in LiveMap(lists, ps, large) && y in LiveMap(lists, ps, large)
    ensures RangesApart(x, LiveMap(lists, ps, large)[x], y, LiveMap(lists, ps, large)[y])
  {
    hide PoolsOk, IsLive, SizeOf, LiveMap, Apart, LargeOk;
    LiveMapIs(lists, ps, large, x);
    LiveMapIs(lists, ps, large, y);
    if x !in large { LivePlace(mem, lists, ps, x); }
    if y !in large { LivePlace(mem, lists, ps, y); }
    if x !in large && y !in large { LiveApart(mem, lists, ps, x, y); }
  }

  /** Where a small buffer lies. */
  lemma {:induction false} LivePlace(mem: map<nat, nat>, lists: seq<BufList>, ps: Pools, x: nat)
    requires PoolsOk(mem, lists, ps) && IsLive(lists, ps, x)
    ensures PageOf(x) in ps.pool && IsPage(PageOf(x)) && 8 <= SizeOf(lists, ps, x) < 4096
    ensures PageOf(x) + HEADER <= x && x + SizeOf(lists, ps, x) <= PageOf(x) + 4096
  {
    hide PoolsOk, IsSlot;
    LiveApart(mem, lists, ps, x, x);
    PoolFirst(mem, lists, ps, PageOf(x));
  }

  /** Handing out a buffer adds it, with its size. */
  lemma {:induction false} LiveAdded(lists: seq<BufList>, ps: Pools, large: map<nat, nat>, lists': seq<BufList>,
                                     ps': Pools, large': map<nat, nat>, a: nat, size: nat)
    requires forall x :: IsLive(lists', ps', x) || x in large' <==> IsLive(lists, ps, x) || x in large || x == a
    requires forall x :: x != a && x in large' ==> x in large && large[x] == large'[x]
    requires forall x :: x != a && IsLive(lists', ps', x) && x !in large' ==>
               x !in large && SizeOf(lists', ps', x) == SizeOf(lists, ps, x)
    requires if a in large' then large'[a] == size else SizeOf(lists', ps', a) == size
    ensures LiveMap(lists', ps', large') == LiveMap(lists, ps, large)[a := size]
  {
    hide IsLive, SizeOf, LiveMap;
    forall x ensures x in LiveMap(lists', ps', large') <==> x in LiveMap(lists, ps, large) || x == a {
      LiveMapIs(lists, ps, large, x);
      LiveMapIs(lists', ps', large', x);
    }
    forall x | x in LiveMap(lists', ps', large')
      ensures LiveMap(lists', ps', large')[x] == if x == a then size else LiveMap(lists, ps, large)[x]
    {
      LiveMapIs(lists, ps, large, x);
      LiveMapIs(lists', ps', large', x);
    }
  }

  /** Freeing a buffer removes it, and no other. */
  lemma {:induction false} LiveRemoved(lists: seq<BufList>, ps: Pools, large: map<nat, nat>, lists': seq<BufList>,
                                       ps': Pools, large': map<nat, nat>, a: nat)
    requires forall x :: IsLive(lists', ps', x) || x in large' <==> (IsLive(lists, ps, x) || x in large) && x != a
    requires forall x :: x in large' ==> x in large && large[x] == large'[x]
    requires forall x :: IsLive(lists', ps', x) && x !in large' ==>
               x !in large && SizeOf(lists', ps', x) == SizeOf(lists, ps, x)
    ensures LiveMap(lists', ps', large') == LiveMap(lists, ps, large) - {a}
  {
    hide IsLive, SizeOf, LiveMap;
    var live, live' := LiveMap(lists, ps, large), LiveMap(lists', ps', large');
    forall x ensures x in live' <==> x in live && x != a {
      LiveMapIs(lists, ps, large, x);
      LiveMapIs(lists', ps', large', x);
    }
    forall x | x in live' ensures live'[x] == live[x] {
      LiveMapIs(lists, ps, large, x);
      LiveMapIs(lists', ps', large', x);
    }
  }

  /** Pools that stay belong to the same buffer list. */
  ghost predicate SameOwners(ps: Pools, ps': Pools) {
    forall p :: p in ps.pool && p in ps'.pool ==> ps'.pool[p].bl == ps.pool[p].bl
  }

  lemma {:induction false} SizesKept(lists: seq<BufList>, lists': seq<BufList>, ps: Pools, ps': Pools, x: nat)
    requires SameSizes(lists, lists') && SameOwners(ps, ps')
    requires IsLive(lists, ps, x) && IsLive(lists', ps', x)
    ensures SizeOf(lists', ps', x) == SizeOf(lists, ps, x)
  {
    hide IsSlot;
  }

  lemma {:induction false} SmallNotLarge(lists: seq<BufList>, ps: Pools, large: map<nat, nat>, free: seq<nat>, x: nat)
    requires InUse(free, ps, large) && IsLive(lists, ps, x)
    ensures x !in large
  {
    hide IsSlot, Apart;
    assert x in large ==> LargeOk(free, x, large[x]) && RangesApart(x, large[x], PageOf(x), 4096);
  }

  lemma {:induction false} SmallAdded(lists: seq<BufList>, ps: Pools, lists': seq<BufList>, ps': Pools,
                                      large: map<nat, nat>, free: seq<nat>, a: nat, size: nat)
    requires SameSizes(lists, lists') && SameOwners(ps, ps') && InUse(free, ps', large)
    requires forall x :: IsLive(lists', ps', x) <==> IsLive(lists, ps, x) || x == a
    requires !IsLive(lists, ps, a) && SizeOf(lists', ps', a) == size
    ensures a !in LiveMap(lists, ps, large) && LiveMap(lists', ps', large) == LiveMap(lists, ps, large)[a := size]
  {
    hide IsLive, SizeOf, InUse, LiveMap;
    LiveMapIs(lists, ps, large, a);
    SmallNotLarge(lists', ps', large, free, a);
    forall x | x != a && IsLive(lists', ps', x) ensures x !in large && SizeOf(lists', ps', x) == SizeOf(lists, ps, x) {
      SmallNotLarge(lists', ps', large, free, x);
      SizesKept(lists, lists', ps, ps', x);
    }
    LiveAdded(lists, ps, large, lists', ps', large, a, size);
  }

  lemma {:induction false} SmallRemoved(lists: seq<BufList>, ps: Pools, lists': seq<BufList>, ps': Pools,
                                        large: map<nat, nat>, free: seq<nat>, a: nat)
    requires SameSizes(lists, lists') && SameOwners(ps, ps') && InUse(free, ps, large) && IsLive(lists, ps, a)
    requires forall x :: IsLive(lists', ps', x) <==> IsLive(lists, ps, x) && x != a
    ensures LiveMap(lists', ps', large) == LiveMap(lists, ps, large) - {a}
  {
    hide IsLive, SizeOf, InUse, LiveMap;
    SmallNotLarge(lists, ps, large, free, a);
    forall x | IsLive(lists', ps', x) ensures x !in large && SizeOf(lists', ps', x) == SizeOf(lists, ps, x) {
      SmallNotLarge(lists, ps, large, free, x);
      SizesKept(lists, lists', ps, ps', x);
    }
    LiveRemoved(lists, ps, large, lists', ps', large, a);
  }

  /** No part of the allocator's memory, free or not, reaches into these addresses. */
  ghost predicate Outside(free: seq<nat>, ps: Pools, large: map<nat, nat>, a: nat, n: nat) {
    && Apart(free, a, n)
    && (forall p :: p in ps.pool ==> RangesApart(p, 4096, a, n))
    && (forall c :: c in large ==> RangesApart(c, large[c], a, n))
  }

  /** The allocator claims no memory that was not its own. */
  ghost predicate ClaimsNothing(free: seq<nat>, ps: Pools, large: map<nat, nat>, free': seq<nat>, ps': Pools,
                                large': map<nat, nat>) {
    forall a, n :: n > 0 && Outside(free, ps, large, a, n) ==> Outside(free', ps', large', a, n)
  }

  lemma {:induction false} ClaimsBlock(free: seq<nat>, ps: Pools, large: map<nat, nat>, free': seq<nat>, i: nat, n: nat,
                                       ps': Pools, large': map<nat, nat>)
    requires n > 0 && i + n <= |free| && free[i..i + n] == Run(free[i], n) && free' == Without(free, i, n)
    requires || (ps'.pool.Keys == ps.pool.Keys + {free[i]} && n == 4 && large' == large)
             || (ps'.pool.Keys == ps.pool.Keys && large' == large[free[i] := n * 1024])
    ensures ClaimsNothing(free, ps, large, free', ps', large')
  {
    hide Apart, Run, Without;
    forall a, m | m > 0 && Outside(free, ps, large, a, m) ensures Outside(free', ps', large', a, m) {
      ApartWithout(free, i, n, a, m);
      ApartFromBlock(free, i, n, a, m);
    }
  }

  lemma {:induction false} ReturnsBlock(free: seq<nat>, ps: Pools, large: map<nat, nat>, b: nat, n: nat, ps': Pools,
                                        large': map<nat, nat>)
    requires || (b in ps.pool && n == 4) || (b in large && large[b] == n * 1024)
    requires ps'.pool.Keys <= ps.pool.Keys && large'.Keys <= large.Keys && forall c :: c in large' ==>
      large'[c] == large[c]
    ensures ClaimsNothing(free, ps, large, InsertRun(free, b, n), ps', large')
  {
    hide Apart, InsertRun;
    assert forall a, m :: Outside(free, ps, large, a, m) ==> RangesApart(b, n * 1024, a, m);
    forall a, m | m > 0 && Outside(free, ps, large, a, m) ensures Outside(InsertRun(free, b, n), ps', large', a, m) {
      ApartInsert(free, b, n, a, m);
    }
  }

  lemma {:induction false} ClaimsSame(free: seq<nat>, ps: Pools, large: map<nat, nat>, ps': Pools)
    requires ps'.pool.Keys == ps.pool.Keys
    ensures ClaimsNothing(free, ps, large, free, ps', large)
  {
    hide Apart;
  }

  lemma {:induction false} LargeRemoved(lists: seq<BufList>, ps: Pools, large: map<nat, nat>, free: seq<nat>, a: nat)
    requires InUse(free, ps, large) && a in large
    ensures LiveMap(lists, ps, large - {a}) == LiveMap(lists, ps, large) - {a}
  {
    hide IsLive, SizeOf, InUse;
    forall x | IsLive(lists, ps, x) ensures x !in large {
      SmallNotLarge(lists, ps, large, free, x);
    }
    LiveRemoved(lists, ps, large, lists, ps, large - {a}, a);
  }

  lemma {:induction false} ClaimsKept(free: seq<nat>, ps: Pools, large: map<nat, nat>, free': seq<nat>, ps': Pools,
                                      ps'': Pools, large': map<nat, nat>)
    requires ClaimsNothing(free, ps, large, free', ps', large') && ps''.pool.Keys == ps'.pool.Keys
    ensures ClaimsNothing(free, ps, large, free', ps'', large')
  {
    hide Apart;
    forall a, n | n > 0 && Outside(free, ps, large, a, n) ensures Outside(free', ps'', large', a, n) {
      assert Outside(free', ps', large', a, n);
    }
  }

  /* ---------- contents ---------- */

  /** The word is part of a pool's header. */
  ghost predicate InHeader(ps: Pools, w: nat) { exists p :: p in ps.pool && p <= w < p + HEADER }

  /** Only words of pool headers have changed. */
  ghost predicate OnlyHeaders(mem: map<nat, nat>, mem': map<nat, nat>, ps: Pools) {
    forall w: nat :: !InHeader(ps, w) ==> Read(mem', w) == Read(mem, w)
  }

  lemma {:induction false} HeaderWrite(mem0: map<nat, nat>, mem: map<nat, nat>, ps: Pools, p: nat, o: nat, v: nat)
    requires OnlyHeaders(mem0, mem, ps) && p in ps.pool && o < HEADER
    ensures OnlyHeaders(mem0, mem[p + o := v], ps)
  {
    assert InHeader(ps, p + o);
  }

  lemma {:induction false} SameHeaders(mem: map<nat, nat>, mem': map<nat, nat>, ps: Pools, ps': Pools)
    requires OnlyHeaders(mem, mem', ps) && ps'.pool.Keys == ps.pool.Keys
    ensures OnlyHeaders(mem, mem', ps')
  {
    hide Read;
    forall w: nat | InHeader(ps, w) ensures InHeader(ps', w) {
      var q :| q in ps.pool && q <= w < q + HEADER;
      assert q in ps'.pool;
    }
  }

  lemma {:induction false} NothingWritten(mem: map<nat, nat>, ps: Pools)
    ensures OnlyHeaders(mem, mem, ps)
  {
  }

  /** But for pool headers, free chunks and the `n` bytes at `a`, memory is as it was. */
  ghost predicate OnlyBooks(mem: map<nat, nat>, mem': map<nat, nat>, ps: Pools, free': seq<nat>, a: nat, n: nat) {
    forall w: nat :: !InHeader(ps, w) && w !in free' && !(a <= w < a + n) ==> Read(mem', w) == Read(mem, w)
  }

  /** The words of every buffer that stays live are as they were. */
  ghost predicate ContentsKept(mem: map<nat, nat>, mem': map<nat, nat>, live: map<nat, nat>, live': map<nat, nat>) {
    forall x, w: nat :: x in live && x in live' && x <= w < x + live[x] ==> Read(mem', w) == Read(mem, w)
  }

  /** A live buffer holds neither a word of a pool header nor the first one of a free chunk. */
  lemma {:induction false} LiveWord(mem: map<nat, nat>, lists: seq<BufList>, ps: Pools, large: map<nat, nat>,
                                    free: seq<nat>, x: nat, w: nat)
    requires PoolsOk(mem, lists, ps) && InUse(free, ps, large)
    requires x in LiveMap(lists, ps, large) && x <= w < x + LiveMap(lists, ps, large)[x]
    ensures !InHeader(ps, w) && w !in free
  {
    hide PoolsOk, IsLive, SizeOf, LiveMap, Apart;
    LiveMapIs(lists, ps, large, x);
    if x in large {
      assert LargeOk(free, x, large[x]);
      ApartWord(free, x, large[x], w);
    } else {
      LiveNotFree(mem, lists, free, ps, large, x);
      ApartWord(free, x, SizeOf(lists, ps, x), w);
      forall p | p in ps.pool ensures !(p <= w < p + HEADER) {
        LiveNotHeader(mem, lists, ps, x, p);
      }
    }
  }

  lemma {:induction false} ContentsStay(mem: map<nat, nat>, lists: seq<BufList>, ps: Pools, large: map<nat, nat>,
                                        free: seq<nat>, mem': map<nat, nat>, lists': seq<BufList>, ps': Pools,
                                        large': map<nat, nat>, free': seq<nat>, a: nat, n: nat)
    requires PoolsOk(mem, lists, ps) && InUse(free, ps, large) && PoolsOk(mem', lists', ps')
    requires InUse(free', ps', large')
    requires OnlyBooks(mem, mem', ps, free', a, n)
    requires var live, live' := LiveMap(lists, ps, large), LiveMap(lists', ps', large');
             forall x :: x in live && x in live' ==> live'[x] == live[x] && RangesApart(x, live[x], a, n)
    ensures ContentsKept(mem, mem', LiveMap(lists, ps, large), LiveMap(lists', ps', large'))
  {
    hide PoolsOk, InUse, LiveMap, InHeader, Read;
    var live, live' := LiveMap(lists, ps, large), LiveMap(lists', ps', large');
    forall x, w | x in live && x in live' && x <= w < x + live[x] ensures Read(mem', w) == Read(mem, w) {
      LiveWord(mem, lists, ps, large, free, x, w);
      LiveWord(mem', lists', ps', large', free', x, w);
    }
  }

  /** A buffer that goes or comes is apart from those that stay. */
  lemma {:induction false} OthersApart(mem: map<nat, nat>, lists: seq<BufList>, ps: Pools, large: map<nat, nat>,
                                       free: seq<nat>, a: nat)
    requires PoolsOk(mem, lists, ps) && InUse(free, ps, large) && a in LiveMap(lists, ps, large)
    ensures var live := LiveMap(lists, ps, large);
            forall x :: x in live && x != a ==> RangesApart(x, live[x], a, live[a])
  {
    hide PoolsOk, InUse, LiveMap;
    forall x | x in LiveMap(lists, ps, large) && x != a
      ensures RangesApart(x, LiveMap(lists, ps, large)[x], a, LiveMap(lists, ps, large)[a])
    {
      LiveRanges(mem, lists, ps, large, free, x, a);
    }
  }

  /** Live buffers are apart from a page that was no pool's. */
  lemma {:induction false} PageFromLive(mem: map<nat, nat>, lists: seq<BufList>, ps: Pools, large: map<nat, nat>,
                                        free: seq<nat>, ps': Pools, p: nat)
    requires PoolsOk(mem, lists, ps) && p !in ps.pool && p in ps'.pool && InUse(free, ps', large)
    ensures var live := LiveMap(lists, ps, large); forall x :: x in live ==> RangesApart(x, live[x], p, 4096)
  {
    hide PoolsOk, IsLive, SizeOf, LiveMap, Apart, LargeOk;
    forall x | x in LiveMap(lists, ps, large) ensures RangesApart(x, LiveMap(lists, ps, large)[x], p, 4096) {
      LiveMapIs(lists, ps, large, x);
      if x !in large {
        LivePlace(mem, lists, ps, x);
        PagesApart(p, PageOf(x));
      }
    }
  }

  lemma {:induction false} BooksOfNewPool(mem: map<nat, nat>, mem1: map<nat, nat>, mem': map<nat, nat>, ps: Pools,
                                          ps1: Pools, free': seq<nat>, p: nat)
    requires forall w: nat :: !InPage(p, w) && w !in free' ==> Read(mem1, w) == Read(mem, w)
    requires OnlyHeaders(mem1, mem', ps1) && ps1.pool.Keys == ps.pool.Keys + {p}
    ensures OnlyBooks(mem, mem', ps, free', p, 4096)
  {
    hide Read;
    forall w: nat | !InPage(p, w) && InHeader(ps1, w) ensures InHeader(ps, w) {
      var q :| q in ps1.pool && q <= w < q + HEADER;
      assert q in ps.pool;
    }
  }

  lemma {:induction false} BooksOfPool(mem: map<nat, nat>, mem': map<nat, nat>, ps: Pools, ps': Pools, free': seq<nat>)
    requires OnlyHeaders(mem, mem', ps') && ps'.pool.Keys == ps.pool.Keys
    ensures OnlyBooks(mem, mem', ps, free', 0, 0)
  {
    hide Read, InHeader;
    SameHeaders(mem, mem', ps', ps);
  }

  /* ---------- setting up the buffer lists ---------- */

  /** `max_free`: how many buffers fit beside the header. */
  method MaxFree(size: nat) returns (max_free: nat)
    requires 8 <= size < 4096 && 4096 % size < HEADER
    ensures HEADER <= 4096 - max_free * size || max_free == 0
    ensures 4096 - (max_free + 1) * size < HEADER
  {
    max_free := 0;
    var i := 4096 - size;
    DivExact(size);
    while i >= HEADER
      invariant i == 4096 - (max_free + 1) * size
      invariant max_free == 0 || HEADER <= 4096 - max_free * size
      invariant max_free + 1 <= 4096 / size
      decreases i
    {
      StepFits(size, max_free, i);
      i := i - size;
      max_free := max_free + 1;
    }
  }

  lemma {:induction false} DivExact(size: nat)
    requires 8 <= size < 4096
    ensures 4096 / size >= 1
  {
    var q, r := 4096 / size, 4096 % size;
    assert 4096 == q * size + r;
    assert q == 0 ==> q * size == 0;
  }

  /** While the header still fits, so does another buffer: the words past the last whole one are fewer
      than the header's. */
  lemma {:induction false} StepFits(size: nat, k: nat, i: int)
    requires 8 <= size < 4096 && 4096 % size < HEADER && k + 1 <= 4096 / size && i == 4096 - (k + 1) * size
    requires i >= HEADER
    ensures k + 2 <= 4096 / size && i >= size && i - size == 4096 - (k + 2) * size
  {
    var q := 4096 / size;
    assert 4096 == q * size + 4096 % size;
    assert (k + 2) * size == (k + 1) * size + size;
    if k + 1 == q {
      assert false;
    } else {
      MulMono(k + 2, q, size);
    }
  }

  /** `mdb_add_size`: add a size that is not there yet. */
  method AddSize(sizes: seq<nat>, size: nat) returns (r: seq<nat>)
    requires Distinct(sizes)
    ensures Distinct(r) && sizes <= r && forall s :: s in r <==> s in sizes || s == size
  {
    for k := 0 to |sizes|
      invariant size !in sizes[..k]
    {
      if sizes[k] == size {
        return sizes;
      }
    }
    r := sizes + [size];
  }

  /** The bytes of a root array for page size `i`. */
  function ArrayBytes(pgshifts: seq<nat>, i: nat): nat { ArraySize(pgshifts, i) * 8 }

  /** The sizes of mapping nodes and of dual nodes. */
  const NODE_BYTES: nat := 24
  const DUAL_BYTES: nat := 16

  /** What the mapping database asks buffers for: nodes, dual nodes and the arrays of root nodes. */
  ghost predicate Needed(pgshifts: seq<nat>, s: nat) {
    s == NODE_BYTES || s == DUAL_BYTES || exists i :: 0 <= i < |pgshifts| - 1 && s == ArrayBytes(pgshifts, i)
  }

  /** A size a buffer list can be set up for: a small one leaves a page room for the header and less
      than that over, a large one is whole chunks. */
  predicate Allocatable(s: nat) {
    if s < 4096 then 8 <= s <= 4096 - HEADER && 4096 % s < HEADER else s % 1024 == 0
  }

  ghost predicate SizesOk(sizes: seq<nat>) {
    Distinct(sizes) && forall s :: s in sizes ==> Allocatable(s)
  }

  /** The sizes `mdb_buflist_init` registers; every one of them can be set up. */
  method BufferSizes(pgshifts: seq<nat>) returns (sizes: seq<nat>)
    requires |pgshifts| > 0 && forall i, j :: 0 <= i < j < |pgshifts| ==> pgshifts[i] <= pgshifts[j]
    ensures SizesOk(sizes) && forall s :: s in sizes <==> Needed(pgshifts, s)
  {
    hide Pow2, ArrayBytes;
    sizes := AddSize([], NODE_BYTES);
    sizes := AddSize(sizes, DUAL_BYTES);
    for i := 0 to |pgshifts| - 1
      invariant SizesOk(sizes)
      invariant forall s :: s in sizes <==>
                  s == NODE_BYTES || s == DUAL_BYTES || exists j :: 0 <= j < i && s == ArrayBytes(pgshifts, j)
    {
      ArrayBytesOk(pgshifts, i);
      sizes := AddSize(sizes, Pow2(pgshifts[i + 1] - pgshifts[i]) * 8);
    }
  }

  lemma {:induction false} ArrayBytesOk(pgshifts: seq<nat>, i: nat)
    requires i + 1 < |pgshifts| && pgshifts[i] <= pgshifts[i + 1]
    ensures ArrayBytes(pgshifts, i) == Pow2(pgshifts[i + 1] - pgshifts[i]) * 8
    ensures Allocatable(ArrayBytes(pgshifts, i))
  {
    hide Pow2;
    PowerSize(pgshifts[i + 1] - pgshifts[i]);
  }

  lemma {:induction false} PowerSize(d: nat)
    ensures var s := Pow2(d) * 8; if d < 9 then 8 <= s <= 2048 && 4096 % s == 0 else s >= 4096 && s % 1024 == 0
  {
    if d < 9 {
      assert Pow2(8) == 256 && Pow2(7) == 128 && Pow2(6) == 64 && Pow2(5) == 32 && Pow2(4) == 16;
      assert Pow2(3) == 8 && Pow2(2) == 4 && Pow2(1) == 2 && Pow2(0) == 1;
    } else {
      Pow2Add(d - 7, 7);
      assert Pow2(7) == 128;
      MulMod(Pow2(d - 7), 1024);
      Pow2Mono(9, d);
      assert Pow2(9) == 512 by { Pow2Add(2, 7); }
    }
  }

  /* ---------- the allocator ---------- */

  class BufferAllocator {
    const kmem: KernelMemory
    var lists: seq<BufList>
    ghost var ps: Pools
    ghost var large: map<nat, nat>

    ghost predicate Valid()
      reads this, kmem
    {
      kmem.Valid() && BufferListsOk(lists) && PoolsOk(kmem.mem, lists, ps) && InUse(kmem.free, ps, large)
    }

    ghost function Live(): map<nat, nat>
      reads this
    {
      LiveMap(lists, ps, large)
    }

    /** `mdb_buflist_init`: no pools yet. */
    constructor (kmem: KernelMemory, sizes: seq<nat>)
      requires kmem.Valid() && SizesOk(sizes)
      ensures Valid() && this.kmem == kmem && ps.pool == map[] && large == map[]
      ensures |lists| == |sizes| && forall b :: 0 <= b < |sizes| ==> lists[b].size == sizes[b]
    {
      this.kmem := kmem;
      lists := [];
      ps := Pools(map[], seq(|sizes|, i => []));
      large := map[];
      new;
      for b := 0 to |sizes|
        invariant |lists| == b && ps == Pools(map[], seq(|sizes|, i => [])) && large == map[]
        invariant forall c :: 0 <= c < b ==> lists[c].size == sizes[c] && lists[c].head == 0 && SizeOk(lists[c])
      {
        var max := 0;
        assert sizes[b] in sizes;
        if sizes[b] < 4096 {
          max := MaxFree(sizes[b]);
        }
        lists := lists + [BufList(sizes[b], 0, max)];
      }
    }

    /** Find the buffer list of a size. */
    method FindList(size: nat) returns (b: nat)
      ensures b <= |lists| && (b < |lists| ==> lists[b].size == size)
      ensures b == |lists| ==> forall c :: 0 <= c < |lists| ==> lists[c].size != size
    {
      b := 0;
      while b < |lists| && lists[b].size != size
        invariant b <= |lists| && forall c :: 0 <= c < b ==> lists[c].size != size
      {
        b := b + 1;
      }
    }

    /** Thread the buffers of a fresh page: `mdb_alloc_buffer` lines 225-232. */
    method ThreadPool(mng: nat, size: nat, max: nat)
      requires kmem.Valid() && Apart(kmem.free, mng, 4096) && size >= 8 && max >= 1 && HEADER <= 4096 - max * size
      modifies kmem`mem
      ensures kmem.Valid() && OnlyIn(old(kmem.mem), kmem.mem, PageWordSet(mng))
      ensures forall w :: mng <= w < mng + HEADER ==> Read(kmem.mem, w) == Read(old(kmem.mem), w)
      ensures var l := AllSlots(mng, size, max); |l| == max && forall i :: 0 <= i < max ==>
        Read(kmem.mem, l[i]) == Next(l, i + 1)
    {
      hide AllSlots, Threaded, Chunks, IsSlot, Apart, ThreadedTo, Distinct, SlotHere, OnlyIn, Read, Next;
      ghost var l := AllSlots(mng, size, max);
      AllSlotsOk(mng, size, max);
      ThreadedNone(kmem.mem, mng, l, size);
      var ed := mng + 4096 - size;
      var b := mng + 4096 - max * size;
      ghost var j := 0;
      while b <= ed
        invariant 0 <= j <= max && b == (if j < max then l[j] else mng + 4096)
        invariant kmem.Valid() && ThreadedTo(old(kmem.mem), kmem.mem, mng, l, size, j)
        decreases max - j
      {
        SlotFacts(mng, size, max, l, j);
        ApartWord(kmem.free, mng, 4096, b);
        ThreadedMore(old(kmem.mem), kmem.mem, mng, l, size, max, j);
        var n := b + size;
        kmem.Write(b, n);
        b := n;
        j := j + 1;
      }
      LastSlot(mng, size, max, l, j);
      var p := b - size;
      ApartWord(kmem.free, mng, 4096, p);
      ThreadedDone(old(kmem.mem), kmem.mem, mng, l, size, max);
      kmem.Write(p, 0);
    }

    /** The header of a fresh page, but for its place in the list. */
    method WriteHeader(mng: nat, first: nat, max: nat, b: nat)
      requires kmem.Valid() && Apart(kmem.free, mng, 4096)
      modifies kmem`mem
      ensures kmem.Valid() && kmem.mem == old(kmem.mem)[mng := first][mng + 8 := max][mng + 24 := 0][mng + 32 := b]
    {
      hide Chunks, Threaded, Apart;
      ApartWord(kmem.free, mng, 4096, mng);
      ApartWord(kmem.free, mng, 4096, mng + 8);
      ApartWord(kmem.free, mng, 4096, mng + 24);
      ApartWord(kmem.free, mng, 4096, mng + 32);
      kmem.Write(mng, first);
      kmem.Write(mng + 8, max);
      kmem.Write(mng + 24, 0);
      kmem.Write(mng + 32, b);
    }

    /** A page from kernel memory, set up as the only pool of an empty list. */
    method NewPool(b: nat) returns (mng: nat)
      requires Valid() && b < |lists| && lists[b].size < 4096 && lists[b].head == 0
      modifies this, kmem
      ensures Valid() && large == old(large)
      ensures mng == 0 ==>
        ps == old(ps) && lists == old(lists) && kmem.free == old(kmem.free) && kmem.mem == old(kmem.mem)
      ensures mng != 0 ==>
        forall w: nat :: !InPage(mng, w) && w !in kmem.free ==> Read(kmem.mem, w) == Read(old(kmem.mem), w)
      ensures ClaimsNothing(old(kmem.free), old(ps), old(large), kmem.free, ps, large)
      ensures mng == 0 <==> NoFit(old(kmem.free), 4096)
      ensures mng != 0 ==>
        && lists == WithHead(old(lists), b, mng) && IsPage(mng) && mng !in old(ps).pool && b < |old(ps).chains|
        && ps == Pools(old(ps).pool[mng := Pool(b, AllSlots(mng, lists[b].size, lists[b].max_free))],
                       old(ps).chains[b := [mng]])
    {
      hide PoolsOk, Chunks, Threaded, Fits, AllSlots, OnlyIn, PoolOk, Without, InUse, Apart, ChainOk;
      var size, max := lists[b].size, lists[b].max_free;
      ghost var i;
      mng, i := kmem.Alloc(4096);
      if mng == 0 {
        return;
      }
      PageTaken(old(kmem.mem), kmem.mem, lists, ps, large, old(kmem.free), kmem.free, i);
      EmptyChain(old(kmem.mem), lists, ps, b);
      ghost var mem1 := kmem.mem;
      WriteHeader(mng, mng + 4096 - max * size, max, b);
      ghost var mem2 := kmem.mem;
      ThreadPool(mng, size, max);
      ghost var mem3 := kmem.mem;
      ApartWord(kmem.free, mng, 4096, mng + 16);
      kmem.Write(mng + 16, lists[b].head);
      PoolSetUp(mem1, mem2, mem3, lists, ps, large, kmem.free, b, mng);
      PageOnly(mem1, mem2, mem3, mng, max * size, max, b);
      PageWritten(old(kmem.mem), mem1, kmem.mem, kmem.free, mng);
      lists := WithHead(lists, b, mng);
      ps := Pools(ps.pool[mng := Pool(b, AllSlots(mng, size, max))], ps.chains[b := [mng]]);
      ClaimsBlock(old(kmem.free), old(ps), large, kmem.free, i, 4, ps, large);
    }

    /** Remove the first buffer from the free list of the first pool of a list. */
    method TakeFrom(b: nat, mng: nat) returns (buf: nat)
      requires Valid() && b < |lists| && mng != 0 && lists[b].head == mng
      modifies this, kmem
      ensures Valid() && large == old(large) && SameSizes(old(lists), lists)
      ensures kmem.free == old(kmem.free) && ps.pool.Keys == old(ps).pool.Keys && SameOwners(old(ps), ps)
      ensures OnlyHeaders(old(kmem.mem), kmem.mem, ps)
      ensures PageOf(buf) == mng && !IsLive(old(lists), old(ps), buf) && SizeOf(lists, ps, buf) == old(lists)[b].size
      ensures forall x :: IsLive(lists, ps, x) <==> IsLive(old(lists), old(ps), x) || x == buf
    {
      hide PoolsOk, Chunks, Threaded, OnlyIn, PoolOk, InUse, Apart, ChainOk, IsLive, SizeOf, Read, Taken;
      ghost var mem0, lists0, ps0 := kmem.mem, lists, ps;
      TakeFacts(mem0, lists0, ps0, large, kmem.free, b, mng);
      buf := Read(kmem.mem, mng);
      NothingWritten(mem0, ps0);
      HeaderWrite(mem0, kmem.mem, ps0, mng, 0, Read(kmem.mem, buf));
      kmem.Write(mng, Read(kmem.mem, buf));
      HeaderWrite(mem0, kmem.mem, ps0, mng, 8, Pred(Read(kmem.mem, mng + 8)));
      kmem.Write(mng + 8, Pred(Read(kmem.mem, mng + 8)));
      TakeReads(mem0, lists0, ps0, b, mng);
      if Read(kmem.mem, mng + 8) == 0 {
        // The pool leaves the list of those with free buffers
        TakeLast(mem0, lists0, ps0, b, mng);
        var next := Read(kmem.mem, mng + 16);
        lists := WithHead(lists, b, next);
        if next != 0 {
          PoolWord(mem0, lists0, ps0, large, kmem.free, next, 24);
          HeaderWrite(mem0, kmem.mem, ps0, next, 24, 0);
          kmem.Write(next + 24, 0);
        }
      } else {
        TakeSome(mem0, lists0, ps0, b, mng);
      }
      ps := Taken(ps, b, mng);
      TakenInUse(kmem.free, ps0, large, b, mng);
      SameHeaders(mem0, kmem.mem, ps0, ps);
      forall x ensures IsLive(lists, ps, x) <==> IsLive(lists0, ps0, x) || x == buf {
        TakenLive(mem0, lists0, lists, ps0, b, mng, x);
      }
      TakenLive(mem0, lists0, lists, ps0, b, mng, buf);
    }

    /** A large buffer, from kernel memory. */
    method AllocLarge(size: nat) returns (r: Outcome)
      requires Valid() && size >= 4096 && size % 1024 == 0
      modifies this`large, kmem
      ensures Valid() && !r.IllegalSize? && (r.OutOfMemory? <==> NoFit(old(kmem.free), size))
      ensures r.OutOfMemory? ==> large == old(large) && kmem.free == old(kmem.free) && kmem.mem == old(kmem.mem)
      ensures r.Buffer? ==> r.addr !in old(Live()) && Live() == old(Live())[r.addr := size]
      ensures r.Buffer? ==> r.addr !in old(large) && large == old(large)[r.addr := size]
      ensures ContentsKept(old(kmem.mem), kmem.mem, old(Live()), Live())
      ensures ClaimsNothing(old(kmem.free), ps, old(large), kmem.free, ps, large)
    {
      hide PoolsOk, Chunks, Threaded, InUse, IsLive, SizeOf, Fits, Without, LiveMap, Read, ContentsKept, ClaimsNothing;
      var a;
      ghost var i;
      a, i := kmem.Alloc(size);
      if a == 0 {
        SameContents(kmem.mem, Live());
        ClaimsSame(kmem.free, ps, large, ps);
        return OutOfMemory;
      }
      LargeTaken(old(kmem.mem), kmem.mem, lists, ps, large, old(kmem.free), kmem.free, i, size);
      large := large[a := size];
      ClaimsBlock(old(kmem.free), ps, old(large), kmem.free, i, ChunkCount(size), ps, large);
      LiveAdded(lists, ps, old(large), lists, ps, large, a, size);
      LiveMapIs(lists, ps, old(large), a);
      ContentsOfLarge(old(kmem.mem), kmem.mem, lists, ps, old(large), old(kmem.free), large, kmem.free, a, size);
      r := Buffer(a);
    }

    /** `mdb_alloc_buffer`. */
    method AllocBuffer(size: nat) returns (r: Outcome)
      requires Valid()
      modifies this, kmem
      ensures Valid() && SameSizes(old(lists), lists)
      ensures r.IllegalSize? <==> forall b :: 0 <= b < |old(lists)| ==> old(lists)[b].size != size
      ensures r.OutOfMemory? <==> NeedsMemory(old(lists), size) && NoFit(old(kmem.free), Request(size))
      ensures !r.Buffer? ==> lists == old(lists) && ps == old(ps) && large == old(large) && kmem.free == old(kmem.free)
      ensures r.Buffer? ==> r.addr !in old(Live()) && Live() == old(Live())[r.addr := size]
      ensures ContentsKept(old(kmem.mem), kmem.mem, old(Live()), Live())
      ensures ClaimsNothing(old(kmem.free), old(ps), old(large), kmem.free, ps, large)
      ensures r.Buffer? && size < 4096 ==>
        && large == old(large) && !IsLive(old(lists), old(ps), r.addr) && SizeOf(lists, ps, r.addr) == size
        && forall x :: IsLive(lists, ps, x) <==> IsLive(old(lists), old(ps), x) || x == r.addr
      ensures r.Buffer? && size >= 4096 ==>
        lists == old(lists) && ps == old(ps) && r.addr !in old(large) && large == old(large)[r.addr := size]
    {
      hide PoolsOk, Chunks, Threaded, InUse, IsLive, SizeOf, Fits, AllSlots, Without, IsPage, NeedsMemory, LiveMap,
        Read,
        OnlyHeaders, ContentsKept, ClaimsNothing, NoFit;
      var b := FindList(size);
      NeedsMemoryIf(lists, size, b);
      if b == |lists| {
        SameContents(kmem.mem, Live());
        ClaimsSame(kmem.free, ps, large, ps);
        return IllegalSize;
      }
      // Large buffers have no pool
      if size >= 4096 {
        r := AllocLarge(size);
        return;
      }
      // All pools in the list have a free buffer
      var mng := lists[b].head;
      ghost var mem1 := kmem.mem;
      if mng == 0 {
        mng := NewPool(b);
        if mng == 0 {
          SameContents(kmem.mem, Live());
          return OutOfMemory;
        }
        mem1 := kmem.mem;
        forall x ensures IsLive(lists, ps, x) <==> IsLive(old(lists), old(ps), x) {
          NewPoolLive(old(lists), lists, old(ps), b, mng, ps.chains, x);
        }
      } else {
        HeadIsPool(kmem.mem, lists, ps, b);
        ClaimsSame(kmem.free, ps, large, ps);
      }
      ghost var lists1, ps1 := lists, ps;
      var buf := TakeFrom(b, mng);
      ClaimsKept(old(kmem.free), old(ps), large, kmem.free, ps1, ps, large);
      SmallAdded(old(lists), old(ps), lists, ps, large, kmem.free, buf, size);
      ContentsOfSmall(old(kmem.mem), old(lists), old(ps), large, old(kmem.free), mem1, ps1, kmem.mem, lists, ps,
                      kmem.free, mng, buf, size);
      return Buffer(buf);
    }

    /** `mdb_free_buffer`. */
    method FreeBuffer(addr: Word, size: nat)
      requires Valid()
      requires size < 4096 ==> IsLive(lists, ps, addr)
      requires size >= 4096 ==> addr in large && large[addr] == size
      modifies this, kmem
      ensures Valid() && SameSizes(old(lists), lists)
      ensures size < 4096 ==>
        large == old(large) && forall x :: IsLive(lists, ps, x) <==> IsLive(old(lists), old(ps), x) && x != addr
      // the page goes back with its last live buffer, unless it holds only one
      ensures size < 4096 ==>
        var p := PageOf(addr); var pool := old(ps).pool[p];
        p !in ps.pool <==> |pool.free| + 1 == old(lists)[pool.bl].max_free && old(lists)[pool.bl].max_free > 1
      ensures size >= 4096 ==> lists == old(lists) && ps == old(ps) && large == old(large) - {addr}
      ensures Live() == old(Live()) - {addr} && ContentsKept(old(kmem.mem), kmem.mem, old(Live()), Live())
      ensures ClaimsNothing(old(kmem.free), old(ps), old(large), kmem.free, ps, large)
    {
      hide PoolsOk, Chunks, Threaded, IsLive, SizeOf, Read, InsertRun, IsSlot, And, InUse;
      // Large buffers have no pool
      if size >= 4096 {
        LargeFree(lists, kmem.free, ps, large, addr);
        kmem.Free(addr, size);
        FreeFrame(old(kmem.mem), kmem.mem, lists, ps, large - {addr}, old(kmem.free), addr, size / 1024);
        large := large - {addr};
        ReturnsBlock(old(kmem.free), ps, old(large), addr, size / 1024, ps, large);
        LargeRemoved(lists, ps, old(large), old(kmem.free), addr);
        ContentsStay(old(kmem.mem), lists, ps, old(large), old(kmem.free), kmem.mem, lists, ps, large, kmem.free, 0, 0);
        return;
      }
      MaskIsPage(addr);
      var mng := And(addr, Not(4095));
      LiveFacts(kmem.mem, lists, ps, large, kmem.free, addr);
      var bl := Read(kmem.mem, mng + 32);
      ghost var mem0, lists0, ps0 := kmem.mem, lists, ps;
      // The buffer becomes the first free one of its page
      kmem.Write(addr, Read(kmem.mem, mng));
      kmem.Write(mng, addr);
      kmem.Write(mng + 8, Read(kmem.mem, mng + 8) + 1);
      PutReads(mem0, lists0, ps0, addr);
      ghost var mem1 := kmem.mem;
      if Read(kmem.mem, mng + 8) == 1 {
        PoolToFront(mem0, mng, bl, addr);
        BooksOfPool(mem1, kmem.mem, ps0, ps, kmem.free);
        ClaimsSame(kmem.free, ps0, large, ps);
      } else if Read(kmem.mem, mng + 8) == lists[bl].max_free {
        GivePageBack(mem0, mng, bl, addr);
      } else {
        PutSome(mem0, lists, ps, mng, addr);
        ps := ps.(pool := ps.pool[mng := Pool(bl, [addr] + ps.pool[mng].free)]);
        SamePages(kmem.free, ps0, ps, large);
        ClaimsSame(kmem.free, ps0, large, ps);
        NothingPut(kmem.mem, ps0, kmem.free);
      }
      forall x ensures IsLive(lists, ps, x) <==> IsLive(lists0, ps0, x) && x != addr {
        PutLive(mem0, lists0, lists, ps0, ps, mng, addr, x);
      }
      SmallRemoved(lists0, ps0, lists, ps, large, old(kmem.free), addr);
      ContentsOfFreed(mem0, lists0, ps0, large, old(kmem.free), kmem.mem, lists, ps, kmem.free, mem1, addr);
    }

    /** The freed buffer is the only free one of its page: the pool heads its list again. */
    method PoolToFront(ghost mem0: map<nat, nat>, mng: nat, bl: nat, ghost buf: nat)
      requires kmem.Valid() && BufferListsOk(lists) && PoolsOk(mem0, lists, ps) && InUse(kmem.free, ps, large)
      requires IsLive(lists, ps, buf) && mng == PageOf(buf) && mng in ps.pool && bl == ps.pool[mng].bl
      requires bl < |lists| == |ps.chains|
      requires ps.pool[mng].free == [] && kmem.mem == PutMem(mem0, mng, buf)
      modifies this`lists, this`ps, kmem`mem
      ensures Valid() && SameSizes(old(lists), lists) && kmem.free == old(kmem.free)
      ensures ps.pool == old(ps).pool[mng := Pool(bl, [buf] + old(ps).pool[mng].free)]
      ensures OnlyHeaders(old(kmem.mem), kmem.mem, ps)
    {
      hide PoolsOk, Chunks, Threaded, Read, IsSlot, InUse, PutMem;
      ghost var lists0, ps0, mem1 := lists, ps, kmem.mem;
      NothingWritten(mem1, ps);
      PutFirst(mem0, lists, ps, mng, buf);
      HeadIsPool(mem0, lists, ps, bl);
      var head := lists[bl].head;
      if head != 0 {
        PoolWord(mem0, lists, ps, large, kmem.free, head, 24);
        HeaderWrite(mem1, kmem.mem, ps, head, 24, mng);
        kmem.Write(head + 24, mng);
      }
      PoolWord(mem0, lists, ps, large, kmem.free, mng, 16);
      PoolWord(mem0, lists, ps, large, kmem.free, mng, 24);
      HeaderWrite(mem1, kmem.mem, ps, mng, 16, head);
      kmem.Write(mng + 16, head);
      HeaderWrite(mem1, kmem.mem, ps, mng, 24, 0);
      kmem.Write(mng + 24, 0);
      lists := WithHead(lists, bl, mng);
      ps := Pools(ps.pool[mng := Pool(bl, [buf])], ps.chains[bl := [mng] + ps.chains[bl]]);
      assert [buf] + [] == [buf];
      SamePages(kmem.free, ps0, ps, large);
      SameHeaders(mem1, kmem.mem, ps0, ps);
    }

    /** All buffers of the page are free: unlink the pool and give the page back. */
    method GivePageBack(ghost mem0: map<nat, nat>, mng: nat, bl: nat, ghost buf: nat)
      requires kmem.Valid() && BufferListsOk(lists) && PoolsOk(mem0, lists, ps) && InUse(kmem.free, ps, large)
      requires IsLive(lists, ps, buf) && mng == PageOf(buf) && mng in ps.pool && bl == ps.pool[mng].bl
      requires bl < |lists| == |ps.chains|
      requires ps.pool[mng].free != [] && kmem.mem == PutMem(mem0, mng, buf)
      modifies this`lists, this`ps, kmem
      ensures Valid() && SameSizes(old(lists), lists) && ps.pool == old(ps).pool - {mng}
      ensures ClaimsNothing(old(kmem.free), old(ps), large, kmem.free, ps, large)
      ensures OnlyBooks(old(kmem.mem), kmem.mem, old(ps), kmem.free, 0, 0)
    {
      hide PoolsOk, Chunks, Threaded, Read, IsSlot, InUse, PutMem, DropAt, InsertRun, Apart, BackReset;
      ghost var mem1 := kmem.mem;
      ghost var i := Position(mem0, lists, ps, mng);
      PutOnly(mem0, lists, ps, buf);
      DropPool(mem0, mem1, lists, ps, bl, i, mng);
      ghost var prev0, next0 := Prev(ps.chains[bl], i), Next(ps.chains[bl], i + 1);
      NeighboursArePools(mem0, lists, ps, bl, i);
      NeighbourPools(mem0, lists, ps, large, kmem.free, bl, i);
      PutReads(mem0, lists, ps, buf);
      var next := Read(kmem.mem, mng + 16);
      if next != 0 {
        kmem.Write(next + 24, Read(kmem.mem, mng + 24));
      }
      PrevKept(mem1, mng, next);
      if lists[bl].head == mng {
        lists := WithHead(lists, bl, next);
      } else if Read(kmem.mem, mng + 24) != 0 {
        kmem.Write(Read(kmem.mem, mng + 24) + 16, next);
      }
      assert kmem.mem == UnlinkMem(mem1, i == 0, prev0, next0) by { UnlinkIs(mem1, i == 0, prev0, next0); }
      ghost var ps0, mem2, free0 := ps, kmem.mem, kmem.free;
      ps := Dropped(ps, bl, i, mng);
      PageToFree(mem0, lists, ps0, ps, large, kmem.free, mng);
      kmem.Free(mng, 4096);
      FreeFrame(mem2, kmem.mem, lists, ps, large, free0, mng, 4);
      ReturnsBlock(free0, ps0, large, mng, 4, ps, large);
      BooksOfUnlink(mem1, mem2, kmem.mem, ps0, kmem.free, i == 0, prev0, next0);
    }
  }

  lemma {:induction false} SameContents(mem: map<nat, nat>, live: map<nat, nat>)
    ensures ContentsKept(mem, mem, live, live)
  {
  }

  lemma {:induction false} NothingPut(mem: map<nat, nat>, ps: Pools, free: seq<nat>)
    ensures OnlyBooks(mem, mem, ps, free, 0, 0)
  {
  }

  lemma {:induction false} BooksOfUnlink(mem1: map<nat, nat>, mem2: map<nat, nat>, mem': map<nat, nat>, ps: Pools,
                                         free': seq<nat>, isHead: bool, prev: nat, next: nat)
    requires (prev != 0 ==> prev in ps.pool && IsPage(prev)) && (next != 0 ==> next in ps.pool && IsPage(next))
    requires isHead ==> prev == 0
    requires mem2 == UnlinkMem(mem1, isHead, prev, next) && forall w :: w !in free' ==> Read(mem', w) == Read(mem2, w)
    ensures OnlyBooks(mem1, mem', ps, free', 0, 0)
  {
    hide Read, UnlinkMem;
    UnlinkOnly(mem1, isHead, prev, next);
    forall w | w in LinkWords(prev, next) ensures InHeader(ps, w) {
    }
  }

  /** Freeing a small buffer writes to it and to headers, and gives back at most its page. */
  lemma {:induction false} ContentsOfFreed(mem: map<nat, nat>, lists: seq<BufList>, ps: Pools, large: map<nat, nat>,
                                           free: seq<nat>, mem': map<nat, nat>, lists': seq<BufList>, ps': Pools,
                                           free': seq<nat>, mem1: map<nat, nat>, a: nat)
    requires PoolsOk(mem, lists, ps) && InUse(free, ps, large) && PoolsOk(mem', lists', ps') && InUse(free', ps', large)
    requires IsLive(lists, ps, a) && mem1 == PutMem(mem, PageOf(a), a) && OnlyBooks(mem1, mem', ps, free', 0, 0)
    requires LiveMap(lists', ps', large) == LiveMap(lists, ps, large) - {a}
    ensures ContentsKept(mem, mem', LiveMap(lists, ps, large), LiveMap(lists', ps', large))
  {
    hide PoolsOk, InUse, LiveMap, Read, ContentsKept, IsSlot, PutMem;
    LiveMapIs(lists, ps, large, a);
    OthersApart(mem, lists, ps, large, free, a);
    LiveRanges(mem, lists, ps, large, free, a, a);
    PutWords(mem, lists, ps, a);
    assert OnlyBooks(mem, mem', ps, free', a, LiveMap(lists, ps, large)[a]);
    ContentsStay(mem, lists, ps, large, free, mem', lists', ps', large, free', a, LiveMap(lists, ps, large)[a]);
  }

  lemma {:induction false} PutWords(mem: map<nat, nat>, lists: seq<BufList>, ps: Pools, a: nat)
    requires PoolsOk(mem, lists, ps) && IsLive(lists, ps, a)
    ensures forall w: nat :: !InHeader(ps, w) && w != a ==> Read(PutMem(mem, PageOf(a), a), w) == Read(mem, w)
  {
    hide PoolsOk, IsSlot, PutMem, Read;
    var p := PageOf(a);
    PoolFirst(mem, lists, ps, p);
    PutPool(mem, lists, p, ps.pool[p], a);
    assert InHeader(ps, p) && InHeader(ps, p + 8);
  }

  lemma {:induction false} ContentsOfLarge(mem: map<nat, nat>, mem': map<nat, nat>, lists: seq<BufList>, ps: Pools,
                                           large: map<nat, nat>, free: seq<nat>, large': map<nat, nat>, free': seq<nat>,
                                           a: nat, size: nat)
    requires PoolsOk(mem, lists, ps) && InUse(free, ps, large) && PoolsOk(mem', lists, ps) && InUse(free', ps, large')
    requires forall w :: !InBlock(a, size, w) && w !in free' ==> Read(mem', w) == Read(mem, w)
    requires a !in LiveMap(lists, ps, large) && LiveMap(lists, ps, large') == LiveMap(lists, ps, large)[a := size]
    ensures ContentsKept(mem, mem', LiveMap(lists, ps, large), LiveMap(lists, ps, large'))
  {
    hide PoolsOk, InUse, LiveMap, Read, InHeader, ContentsKept;
    OthersApart(mem', lists, ps, large', free', a);
    ContentsStay(mem, lists, ps, large, free, mem', lists, ps, large', free', a, size);
  }

  lemma {:induction false} ContentsOfSmall(mem: map<nat, nat>, lists: seq<BufList>, ps: Pools, large: map<nat, nat>,
                                           free: seq<nat>, mem1: map<nat, nat>, ps1: Pools, mem': map<nat, nat>,
                                           lists': seq<BufList>, ps': Pools, free': seq<nat>, p: nat, a: nat, size: nat)
    requires PoolsOk(mem, lists, ps) && InUse(free, ps, large) && PoolsOk(mem', lists', ps') && InUse(free', ps', large)
    requires OnlyHeaders(mem1, mem', ps') && ps'.pool.Keys == ps1.pool.Keys && p in ps'.pool
    requires if p in ps.pool then mem1 == mem && ps1.pool.Keys == ps.pool.Keys
             else ps1.pool.Keys == ps.pool.Keys + {p}
                  && forall w: nat :: !InPage(p, w) && w !in free' ==> Read(mem1, w) == Read(mem, w)
    requires a !in LiveMap(lists, ps, large) && LiveMap(lists', ps', large) == LiveMap(lists, ps, large)[a := size]
    ensures ContentsKept(mem, mem', LiveMap(lists, ps, large), LiveMap(lists', ps', large))
  {
    hide PoolsOk, InUse, LiveMap, Read, InHeader, ContentsKept, OnlyHeaders, OnlyBooks;
    if p in ps.pool {
      BooksOfPool(mem, mem', ps, ps', free');
      ContentsStay(mem, lists, ps, large, free, mem', lists', ps', large, free', 0, 0);
    } else {
      BooksOfNewPool(mem, mem1, mem', ps, ps', free', p);
      PageFromLive(mem, lists, ps, large, free', ps', p);
      ContentsStay(mem, lists, ps, large, free, mem', lists', ps', large, free', p, 4096);
    }
  }

  /** The first `j` buffers hold the address `size` further on; header and other pages are untouched. */
  ghost predicate ThreadedTo(mem0: map<nat, nat>, mem: map<nat, nat>, p: nat, l: seq<nat>, size: nat, j: nat) {
    && j <= |l|
    && OnlyIn(mem0, mem, PageWordSet(p))
    && (forall w :: p <= w < p + HEADER ==> Read(mem, w) == Read(mem0, w))
    && (forall i :: 0 <= i < j ==> Read(mem, l[i]) == l[i] + size)
  }

  lemma {:induction false} ThreadedNone(mem: map<nat, nat>, p: nat, l: seq<nat>, size: nat)
    ensures ThreadedTo(mem, mem, p, l, size, 0)
  {
  }

  lemma {:induction false} SlotFacts(p: nat, size: nat, max: nat, l: seq<nat>, j: nat)
    requires size >= 8 && HEADER <= 4096 - max * size && l == AllSlots(p, size, max) && j <= |l| == max
    requires (if j < max then l[j] else p + 4096) <= p + 4096 - size
    ensures j < max && p + HEADER <= l[j] < p + 4096 && l[j] + size == (if j + 1 < max then l[j + 1] else p + 4096)
    ensures SlotHere(p, size, max, l, j)
  {
    hide AllSlots, IsSlot;
    AllSlotsAt(p, size, max, j);
  }

  lemma {:induction false} ThreadedMore(mem0: map<nat, nat>, mem: map<nat, nat>, p: nat, l: seq<nat>, size: nat,
                                        max: nat, j: nat)
    requires ThreadedTo(mem0, mem, p, l, size, j) && j < |l| && Distinct(l) && SlotHere(p, size, max, l, j) && size >= 8
    ensures ThreadedTo(mem0, mem[l[j] := l[j] + size], p, l, size, j + 1)
  {
    hide IsSlot;
    assert InPage(p, l[j]);
  }

  lemma {:induction false} LastSlot(p: nat, size: nat, max: nat, l: seq<nat>, j: nat)
    requires size >= 8 && max >= 1 && HEADER <= 4096 - max * size && l == AllSlots(p, size, max) && j <= max == |l|
    requires (if j < max then l[j] else p + 4096) > p + 4096 - size
    ensures j == max && l[max - 1] == p + 4096 - size && p + HEADER <= l[max - 1] < p + 4096
  {
    hide AllSlots, IsSlot;
    AllSlotsAt(p, size, max, max - 1);
    if j < max { AllSlotsAt(p, size, max, j); }
  }

  lemma {:induction false} ThreadedDone(mem0: map<nat, nat>, mem: map<nat, nat>, p: nat, l: seq<nat>, size: nat,
                                        max: nat)
    requires size >= 8 && max >= 1 && HEADER <= 4096 - max * size && l == AllSlots(p, size, max) && |l| == max
    requires ThreadedTo(mem0, mem, p, l, size, max)
    ensures var mem' := mem[l[max - 1] := 0];
            && OnlyIn(mem0, mem', PageWordSet(p))
            && (forall w :: p <= w < p + HEADER ==> Read(mem', w) == Read(mem0, w))
            && forall i :: 0 <= i < max ==> Read(mem', l[i]) == Next(l, i + 1)
  {
    hide AllSlots, IsSlot;
    AllSlotsOk(p, size, max);
    assert SlotHere(p, size, max, l, max - 1) && InPage(p, l[max - 1]);
    forall i | 0 <= i < max ensures Read(mem[l[max - 1] := 0], l[i]) == Next(l, i + 1) {
      assert SlotHere(p, size, max, l, i);
    }
  }

  lemma {:induction false} NeedsMemoryIf(lists: seq<BufList>, size: nat, b: nat)
    requires b <= |lists| && (b < |lists| ==> lists[b].size == size)
    requires (b == |lists| ==> forall c :: 0 <= c < |lists| ==> lists[c].size != size)
    requires forall c, d :: 0 <= c < d < |lists| ==> lists[c].size != lists[d].size
    ensures NeedsMemory(lists, size) <==> b < |lists| && (size >= 4096 || lists[b].head == 0)
  {
  }

  /** The list of a size is empty exactly when no pool of that size has a free buffer. */
  lemma {:induction false} EmptyHeadIff(mem: map<nat, nat>, lists: seq<BufList>, ps: Pools, b: nat)
    requires PoolsOk(mem, lists, ps) && b < |lists|
    ensures lists[b].head == 0 <==> forall p :: p in ps.pool && ps.pool[p].bl == b ==> ps.pool[p].free == []
  {
    hide PoolOk, ChainOk;
    ChainPools(mem, lists, ps, b);
    ChainDistinct(mem, lists, ps, b);
    HeadNotNull(ps.chains[b]);
    if ps.chains[b] != [] {
      assert ps.chains[b][0] in ps.chains[b];
    }
    forall p | p in ps.pool && ps.pool[p].bl == b && ps.pool[p].free != [] ensures ps.chains[b] != [] {
      assert Listed(ps, p);
    }
  }

  /** A page that kernel memory has handed out. */
  lemma {:induction false} PageTaken(mem: map<nat, nat>, mem': map<nat, nat>, lists: seq<BufList>, ps: Pools,
                                     large: map<nat, nat>, free: seq<nat>, free': seq<nat>, i: nat)
    requires PoolsOk(mem, lists, ps) && InUse(free, ps, large) && Chunks(free)
    requires Fits(free, i, 4096, 0, 0) && free' == Without(free, i, 4)
    requires forall w :: !InBlock(free[i], 4096, w) && w !in free' ==> Read(mem', w) == Read(mem, w)
    ensures PoolsOk(mem', lists, ps) && InUse(free', ps, large)
    ensures IsPage(free[i]) && free[i] !in ps.pool && Apart(free', free[i], 4096)
    ensures i + 4 <= |free| && free[i..i + 4] == Run(free[i], 4)
    ensures forall a :: a in large ==> RangesApart(a, large[a], free[i], 4096)
  {
    hide PoolsOk, Read, Without, Run, Apart, InsertRun, LargeOk, And;
    Pow2Values();
    PowerOfTwoAligned(free, i, 4096, 0, 0, 12);
    FreeUndoesAlloc(free, i, 4);
    AllocFrame(mem, mem', lists, ps, large, free, free', i, 4);
    PageFits(free, i);
  }

  lemma {:induction false} PageFits(free: seq<nat>, i: nat)
    requires Chunks(free) && i + 4 < |free| && free[i..i + 4] == Run(free[i], 4)
    ensures free[i] > 0 && free[i] + 4096 <= W64
  {
    hide Run;
    RunEnds(free, i, 4);
    assert IsChunk(free[i + 3]);
  }

  lemma {:induction false} EmptyChain(mem: map<nat, nat>, lists: seq<BufList>, ps: Pools, b: nat)
    requires PoolsOk(mem, lists, ps) && b < |lists| && lists[b].head == 0
    ensures b < |lists| == |ps.chains| && ps.chains[b] == []
  {
    hide PoolsOk, Read;
    ChainPools(mem, lists, ps, b);
    ChainDistinct(mem, lists, ps, b);
    HeadNotNull(ps.chains[b]);
  }

  lemma {:induction false} HeadNotNull(c: seq<nat>)
    requires forall q :: q in c ==> IsPage(q)
    ensures Next(c, 0) == 0 <==> c == []
  {
    if c != [] { assert c[0] in c; }
  }

  /** Header and threads make the page a pool with all its buffers free. */
  lemma {:induction false} PoolSetUp(mem1: map<nat, nat>, mem2: map<nat, nat>, mem3: map<nat, nat>, lists: seq<BufList>,
                                     ps: Pools, large: map<nat, nat>, free: seq<nat>, b: nat, p: nat)
    requires PoolsOk(mem1, lists, ps) && InUse(free, ps, large) && IsPage(p) && p !in ps.pool && Apart(free, p, 4096)
    requires forall a :: a in large ==> RangesApart(a, large[a], p, 4096)
    requires b < |lists| == |ps.chains| && ps.chains[b] == [] && lists[b].head == 0 && lists[b].size < 4096
    requires SizeOk(lists[b])
    requires mem2
      == mem1[p := p + 4096 - lists[b].max_free * lists[b].size][p + 8 := lists[b].max_free][p + 24 := 0][p + 32 := b]
    requires OnlyIn(mem2, mem3, PageWordSet(p)) && forall w :: p <= w < p + HEADER ==> Read(mem3, w) == Read(mem2, w)
    requires var l := AllSlots(p, lists[b].size, lists[b].max_free);
             |l| == lists[b].max_free && forall i :: 0 <= i < |l| ==> Read(mem3, l[i]) == Next(l, i + 1)
    ensures var all := AllSlots(p, lists[b].size, lists[b].max_free);
            var ps' := Pools(ps.pool[p := Pool(b, all)], ps.chains[b := [p]]);
            PoolsOk(mem3[p + 16 := 0], WithHead(lists, b, p), ps') && InUse(free, ps', large)
  {
    hide PoolsOk, AllSlots, IsSlot, PoolOk, Apart, OnlyIn, Read;
    var all := AllSlots(p, lists[b].size, lists[b].max_free);
    NewPoolBuilt(mem1, mem2, mem3, lists, b, p);
    PageOnly(mem1, mem2, mem3, p, lists[b].max_free * lists[b].size, lists[b].max_free, b);
    NewPoolOk(mem1, mem3[p + 16 := 0], lists, ps, b, p, all);
    InUseNewPage(free, ps, large, p, Pool(b, all), ps.chains[b := [p]]);
  }

  /** The new page by itself. */
  lemma {:induction false} NewPoolBuilt(mem1: map<nat, nat>, mem2: map<nat, nat>, mem3: map<nat, nat>,
                                        lists: seq<BufList>, b: nat, p: nat)
    requires IsPage(p) && b < |lists| && lists[b].size < 4096 && SizeOk(lists[b])
    requires mem2
      == mem1[p := p + 4096 - lists[b].max_free * lists[b].size][p + 8 := lists[b].max_free][p + 24 := 0][p + 32 := b]
    requires forall w :: p <= w < p + HEADER ==> Read(mem3, w) == Read(mem2, w)
    requires var l := AllSlots(p, lists[b].size, lists[b].max_free);
             |l| == lists[b].max_free && forall i :: 0 <= i < |l| ==> Read(mem3, l[i]) == Next(l, i + 1)
    ensures var mem' := mem3[p + 16 := 0];
            && PoolOk(mem', lists, p, Pool(b, AllSlots(p, lists[b].size, lists[b].max_free)))
            && Read(mem', p + 16) == 0 && Read(mem', p + 24) == 0
  {
    hide AllSlots, IsSlot, PoolOk;
    var size, max := lists[b].size, lists[b].max_free;
    var all := AllSlots(p, size, max);
    AllSlotsOk(p, size, max);
    forall i | 0 <= i < max ensures IsSlot(p, size, max, all[i]) && p + HEADER <= all[i] {
      assert SlotHere(p, size, max, all, i);
    }
    HeaderReads(mem2, mem3, p);
    PoolBuilt(mem3[p + 16 := 0], lists, p, Pool(b, all));
  }

  lemma {:induction false} HeaderReads(mem2: map<nat, nat>, mem3: map<nat, nat>, p: nat)
    requires forall w :: p <= w < p + HEADER ==> Read(mem3, w) == Read(mem2, w)
    ensures Read(mem3, p) == Read(mem2, p) && Read(mem3, p + 8) == Read(mem2, p + 8)
    ensures Read(mem3, p + 24) == Read(mem2, p + 24) && Read(mem3, p + 32) == Read(mem2, p + 32)
  {
  }

  lemma {:induction false} PageOnly(mem1: map<nat, nat>, mem2: map<nat, nat>, mem3: map<nat, nat>, p: nat, used: nat,
                                    n: nat, b: nat)
    requires p + 4096 >= used && mem2 == mem1[p := p + 4096 - used][p + 8 := n][p + 24 := 0][p + 32 := b]
    requires OnlyIn(mem2, mem3, PageWordSet(p))
    ensures OnlyIn(mem1, mem3[p + 16 := 0], PageWordSet(p))
  {
    assert InPage(p, p) && InPage(p, p + 8) && InPage(p, p + 16) && InPage(p, p + 24) && InPage(p, p + 32);
  }

  lemma {:induction false} PageWritten(mem: map<nat, nat>, mem1: map<nat, nat>, mem': map<nat, nat>, free': seq<nat>,
                                       p: nat)
    requires forall w :: !InBlock(p, 4096, w) && w !in free' ==> Read(mem1, w) == Read(mem, w)
    requires OnlyIn(mem1, mem', PageWordSet(p))
    ensures forall w: nat :: !InPage(p, w) && w !in free' ==> Read(mem', w) == Read(mem, w)
  {
    hide Read;
    assert forall w :: w in PageWordSet(p) ==> InPage(p, w);
  }

  lemma {:induction false} InUseNewPage(free: seq<nat>, ps: Pools, large: map<nat, nat>, p: nat, pool: Pool,
                                        chains: seq<seq<nat>>)
    requires InUse(free, ps, large) && IsPage(p) && Apart(free, p, 4096)
    requires forall a :: a in large ==> RangesApart(a, large[a], p, 4096)
    ensures InUse(free, Pools(ps.pool[p := pool], chains), large)
  {
    hide Apart, LargeOk;
  }

  /** What is known of the first pool of a list. */
  lemma {:induction false} TakeFacts(mem: map<nat, nat>, lists: seq<BufList>, ps: Pools, large: map<nat, nat>,
                                     free: seq<nat>, b: nat, p: nat)
    requires PoolsOk(mem, lists, ps) && InUse(free, ps, large) && b < |lists| && p != 0 && lists[b].head == p
    ensures b < |ps.chains| && ps.chains[b] != [] && ps.chains[b][0] == p && p in ps.pool && ps.pool[p].bl == b
    ensures ps.pool[p].free != []
    ensures p !in free && p + 8 !in free
    ensures Read(mem, p) == ps.pool[p].free[0]
    ensures Next(ps.chains[b], 1) != 0 ==> Next(ps.chains[b], 1) in ps.pool
  {
    hide PoolsOk, Read, Apart, ChainOk;
    ChainPools(mem, lists, ps, b);
    ChainDistinct(mem, lists, ps, b);
    assert ps.chains[b] != [] ==> ps.chains[b][0] in ps.chains[b];
    assert |ps.chains[b]| > 1 ==> ps.chains[b][1] in ps.chains[b];
    PoolFirst(mem, lists, ps, p);
    ApartWord(free, p, 4096, p);
    ApartWord(free, p, 4096, p + 8);
  }

  lemma {:induction false} PoolFirst(mem: map<nat, nat>, lists: seq<BufList>, ps: Pools, p: nat)
    requires PoolsOk(mem, lists, ps) && p in ps.pool
    ensures Read(mem, p) == Next(ps.pool[p].free, 0) && PoolOk(mem, lists, p, ps.pool[p])
  {
    assert PoolOk(mem, lists, p, ps.pool[p]);
  }

  lemma {:induction false} TakeReads(mem: map<nat, nat>, lists: seq<BufList>, ps: Pools, b: nat, p: nat)
    requires PoolsOk(mem, lists, ps) && p in ps.pool && ps.pool[p].free != []
    ensures Read(TakenMem(mem, p), p + 8) == |ps.pool[p].free| - 1
    ensures Read(TakenMem(mem, p), p + 16) == Read(mem, p + 16)
    ensures TakenMem(mem, p)
      == mem[p := Read(mem, Read(mem, p))][p + 8 := Pred(Read(mem[p := Read(mem, Read(mem, p))], p + 8))]
  {
    hide PoolsOk;
    PoolFirst(mem, lists, ps, p);
    TakePool(mem, lists, p, ps.pool[p]);
  }

  /** A word of a pool's page is not a free chunk's. */
  lemma {:induction false} PoolWord(mem: map<nat, nat>, lists: seq<BufList>, ps: Pools, large: map<nat, nat>,
                                    free: seq<nat>, q: nat, o: nat)
    requires PoolsOk(mem, lists, ps) && InUse(free, ps, large) && q in ps.pool && o < 4096
    ensures q + o !in free
  {
    hide Apart;
    ApartWord(free, q, 4096, q + o);
  }

  lemma {:induction false} TakenInUse(free: seq<nat>, ps: Pools, large: map<nat, nat>, b: nat, p: nat)
    requires InUse(free, ps, large) && p in ps.pool && ps.pool[p].bl == b
    ensures InUse(free, Taken(ps, b, p), large)
    ensures Taken(ps, b, p).pool.Keys == ps.pool.Keys && SameOwners(ps, Taken(ps, b, p))
  {
    hide Apart, LargeOk;
    assert Taken(ps, b, p).pool.Keys == ps.pool.Keys;
  }

  lemma {:induction false} LargeTaken(mem: map<nat, nat>, mem': map<nat, nat>, lists: seq<BufList>, ps: Pools,
                                      large: map<nat, nat>, free: seq<nat>, free': seq<nat>, i: nat, size: nat)
    requires PoolsOk(mem, lists, ps) && InUse(free, ps, large) && Chunks(free) && size >= 4096 && size % 1024 == 0
    requires Fits(free, i, size, 0, 0) && free' == Without(free, i, ChunkCount(size))
    requires forall w :: !InBlock(free[i], size, w) && w !in free' ==> Read(mem', w) == Read(mem, w)
    ensures PoolsOk(mem', lists, ps) && free[i] !in large && InUse(free', ps, large[free[i] := size])
    ensures !IsLive(lists, ps, free[i])
    ensures var n := ChunkCount(size); n * 1024 == size && free[i..i + n] == Run(free[i], n)
  {
    hide PoolsOk, Read, Without, Run, Apart, InsertRun, And;
    hide IsSlot;
    var n := ChunkCount(size);
    FreeUndoesAlloc(free, i, n);
    AllocFrame(mem, mem', lists, ps, large, free, free', i, n);
    BlockFits(free, i, n);
    assert LargeOk(free', free[i], size);
  }

  lemma {:induction false} BlockFits(free: seq<nat>, i: nat, n: nat)
    requires Chunks(free) && n > 0 && i + n < |free| && free[i..i + n] == Run(free[i], n)
    ensures IsChunk(free[i]) && free[i] + n * 1024 <= W64
  {
    hide Run;
    RunEnds(free, i, n);
    assert IsChunk(free[i + n - 1]);
  }

  /** What is known of a live buffer about to be freed. */
  lemma {:induction false} LiveFacts(mem: map<nat, nat>, lists: seq<BufList>, ps: Pools, large: map<nat, nat>,
                                     free: seq<nat>, x: nat)
    requires PoolsOk(mem, lists, ps) && InUse(free, ps, large) && IsLive(lists, ps, x)
    ensures var p := PageOf(x);
            && p in ps.pool && ps.pool[p].bl < |lists| == |ps.chains| && Read(mem, p + 32) == ps.pool[p].bl
            && x !in free && p !in free && p + 8 !in free && x !in ps.pool[p].free
            && IsSlot(p, lists[ps.pool[p].bl].size, lists[ps.pool[p].bl].max_free, x)
  {
    hide Apart, PoolOk, IsSlot, ChainOk;
    var p := PageOf(x);
    PoolFirst(mem, lists, ps, p);
    PoolIsPage(mem, lists, p, ps.pool[p]);
    ApartWord(free, p, 4096, x);
    ApartWord(free, p, 4096, p);
    ApartWord(free, p, 4096, p + 8);
  }

  lemma {:induction false} PutReads(mem: map<nat, nat>, lists: seq<BufList>, ps: Pools, x: nat)
    requires PoolsOk(mem, lists, ps) && IsLive(lists, ps, x)
    ensures var p := PageOf(x);
            && p in ps.pool && Read(PutMem(mem, p, x), p + 8) == |ps.pool[p].free| + 1
            && Read(PutMem(mem, p, x), p + 16) == Read(mem, p + 16)
            && Read(PutMem(mem, p, x), p + 24) == Read(mem, p + 24)
            && Read(PutMem(mem, p, x), p + 32) == ps.pool[p].bl
            && PutMem(mem, p, x)
              == mem[x := Read(mem, p)][p := x][p + 8 := Read(mem[x := Read(mem, p)][p := x], p + 8) + 1]
  {
    hide PoolsOk, IsSlot;
    var p := PageOf(x);
    PoolFirst(mem, lists, ps, p);
    PutPool(mem, lists, p, ps.pool[p], x);
  }

  lemma {:induction false} PutOnly(mem: map<nat, nat>, lists: seq<BufList>, ps: Pools, x: nat)
    requires PoolsOk(mem, lists, ps) && IsLive(lists, ps, x)
    ensures OnlyIn(mem, PutMem(mem, PageOf(x), x), PageWordSet(PageOf(x)))
  {
    hide PoolsOk, IsSlot, PutMem;
    var p := PageOf(x);
    PoolFirst(mem, lists, ps, p);
    PutPool(mem, lists, p, ps.pool[p], x);
    assert InPage(p, x) && InPage(p, p) && InPage(p, p + 8);
  }

  lemma {:induction false} HeadIsPool(mem: map<nat, nat>, lists: seq<BufList>, ps: Pools, b: nat)
    requires PoolsOk(mem, lists, ps) && b < |lists|
    ensures lists[b].head != 0 ==> lists[b].head in ps.pool
  {
    hide PoolsOk, ChainOk;
    ChainPools(mem, lists, ps, b);
    ChainDistinct(mem, lists, ps, b);
  }

  lemma {:induction false} SamePages(free: seq<nat>, ps: Pools, ps': Pools, large: map<nat, nat>)
    requires InUse(free, ps, large) && ps'.pool.Keys == ps.pool.Keys
    ensures InUse(free, ps', large)
  {
    hide Apart, LargeOk;
  }

  /** Where a pool with free buffers is in its list. */
  ghost function Position(mem: map<nat, nat>, lists: seq<BufList>, ps: Pools, p: nat): (i: nat)
    requires PoolsOk(mem, lists, ps) && p in ps.pool && ps.pool[p].free != []
    ensures ps.pool[p].bl < |lists| == |ps.chains| && i < |ps.chains[ps.pool[p].bl]| && ps.chains[ps.pool[p].bl][i] == p
    ensures IsPage(p)
  {
    assert Listed(ps, p) && PoolOk(mem, lists, p, ps.pool[p]);
    var i :| 0 <= i < |ps.chains[ps.pool[p].bl]| && ps.chains[ps.pool[p].bl][i] == p;
    i
  }

  lemma {:induction false} NeighbourPools(mem: map<nat, nat>, lists: seq<BufList>, ps: Pools, large: map<nat, nat>,
                                          free: seq<nat>, b: nat, i: nat)
    requires PoolsOk(mem, lists, ps) && InUse(free, ps, large) && b < |lists| == |ps.chains| && i < |ps.chains[b]|
    ensures var prev, next := Prev(ps.chains[b], i), Next(ps.chains[b], i + 1);
            && (prev != 0 ==> prev + 16 !in free) && (next != 0 ==> next + 24 !in free) && (prev != 0 <==> i > 0)
            && (next != 0 ==> IsPage(next) && next != ps.chains[b][i])
    ensures IsPage(ps.chains[b][i])
  {
    hide PoolsOk, ChainOk, InUse;
    var c := ps.chains[b];
    ChainPools(mem, lists, ps, b);
    ChainDistinct(mem, lists, ps, b);
    NeighboursIn(c, i);
    assert c[i] in c;
    if Prev(c, i) != 0 { PoolWord(mem, lists, ps, large, free, Prev(c, i), 16); }
    if Next(c, i + 1) != 0 { PoolWord(mem, lists, ps, large, free, Next(c, i + 1), 24); }
  }

  lemma {:induction false} NeighboursArePools(mem: map<nat, nat>, lists: seq<BufList>, ps: Pools, b: nat, i: nat)
    requires PoolsOk(mem, lists, ps) && b < |lists| == |ps.chains| && i < |ps.chains[b]|
    ensures var prev, next := Prev(ps.chains[b], i), Next(ps.chains[b], i + 1);
            && (prev != 0 ==> prev in ps.pool && IsPage(prev)) && (next != 0 ==> next in ps.pool && IsPage(next))
            && (i == 0 ==> prev == 0)
  {
    hide PoolsOk, ChainOk;
    ChainPools(mem, lists, ps, b);
    ChainDistinct(mem, lists, ps, b);
    NeighboursIn(ps.chains[b], i);
  }

  /** Writing the next pool's back pointer leaves this pool's own. */
  lemma {:induction false} PrevKept(mem: map<nat, nat>, p: nat, next: nat)
    requires next != 0 ==> IsPage(next) && IsPage(p) && next != p
    ensures next != 0 ==> Read(mem[next + 24 := Read(mem, p + 24)], p + 24) == Read(mem, p + 24)
  {
  }

  lemma {:induction false} UnlinkIs(mem: map<nat, nat>, isHead: bool, prev: nat, next: nat)
    ensures UnlinkMem(mem, isHead, prev, next) ==
            var mem1 := if next != 0 then mem[next + 24 := prev] else mem;
            if !isHead && prev != 0 then mem1[prev + 16 := next] else mem1
  {
  }

  /** The page of an unlinked pool can go back to kernel memory. */
  lemma {:induction false} PageToFree(mem: map<nat, nat>, lists: seq<BufList>, ps: Pools, ps': Pools,
                                      large: map<nat, nat>, free: seq<nat>, p: nat)
    requires InUse(free, ps, large) && p in ps.pool && ps'.pool == ps.pool - {p}
    ensures IsPage(p) && IsChunk(p) && Apart(free, p, 4096) && InUse(free, ps', large)
    ensures forall q :: q in ps'.pool ==> RangesApart(p, 4 * 1024, q, 4096)
    ensures forall a :: a in large ==> RangesApart(p, 4 * 1024, a, large[a])
  {
    hide Apart, LargeOk;
    forall q | q in ps'.pool ensures RangesApart(p, 4 * 1024, q, 4096) {
      PagesApart(p, q);
    }
  }

  lemma {:induction false} LargeFree(lists: seq<BufList>, free: seq<nat>, ps: Pools, large: map<nat, nat>, a: nat)
    requires InUse(free, ps, large) && a in large
    ensures LargeOk(free, a, large[a]) && InUse(free, ps, large - {a})
    ensures forall p :: p in ps.pool ==> RangesApart(a, large[a] / 1024 * 1024, p, 4096)
    ensures forall c :: c in large - {a} ==> RangesApart(a, large[a] / 1024 * 1024, c, (large - {a})[c])
  {
    hide Apart;
    assert LargeOk(free, a, large[a]);
    assert large[a] / 1024 * 1024 == large[a];
  }

  /** Buffers are aligned like their size. */
  lemma {:induction false} LiveAligned(mem: map<nat, nat>, lists: seq<BufList>, ps: Pools, x: nat)
    requires PoolsOk(mem, lists, ps) && IsLive(lists, ps, x) && SizeOf(lists, ps, x) % 4 == 0
    ensures x % 4 == 0
  {
    hide PoolsOk, PoolOk, IsSlot;
    var p := PageOf(x);
    PoolFirst(mem, lists, ps, p);
    PoolIsPage(mem, lists, p, ps.pool[p]);
    SlotAligned(p, SizeOf(lists, ps, x), lists[ps.pool[p].bl].max_free, x);
  }

  lemma {:induction false} SlotAligned(p: nat, size: nat, max: nat, x: nat)
    requires IsPage(p) && size % 4 == 0 && IsSlot(p, size, max, x)
    ensures x % 4 == 0
  {
    var k :| 1 <= k <= max && x == SlotAt(p, size, k);
    FourTimes(k, size);
  }

  lemma {:induction false} FourTimes(k: nat, size: nat)
    requires size % 4 == 0
    ensures k * size % 4 == 0
  {
    var q := size / 4;
    assert k * size == k * q * 4;
    MulMod(k * q, 4);
  }
}
