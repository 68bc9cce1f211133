/** The buffers that the nodes of the mapping database live in: kernel/src/generic/mapping.cc over
    kernel/src/generic/mapping_alloc.cc.

    Every mapping node but sigma0's, every dual node and every array of root nodes is one live
    buffer of the allocator, and every live buffer is one of these or spare: handed out, and not yet
    linked in.  Hence a buffer just handed out overlaps no node, and a node taken out can be freed.
 */
module NodeBuffers {
  import opened Words
  import opened MapNodes
  import opened PageSizes
  import opened Mapping
  import opened Kmem
  import opened BufferPools
  import opened MappingAlloc

  /** No address is two things at once. */
  ghost predicate KindsApart(nodes: set<nat>, duals: set<nat>, arrays: map<nat, nat>, spare: map<nat, nat>) {
    && nodes !! duals && nodes !! arrays.Keys && nodes !! spare.Keys
    && duals !! arrays.Keys && duals !! spare.Keys && arrays.Keys !! spare.Keys
  }

  /** The root nodes are the elements of the arrays. */
  ghost predicate RootsInArrays(roots: set<nat>, arrays: map<nat, nat>) {
    && (forall b :: b in arrays ==> ArrayAddrs(b, arrays[b]) <= roots)
    && (forall r :: r in roots ==> exists b :: b in arrays && r in ArrayAddrs(b, arrays[b]))
  }

  function HomeSize(nodes: set<nat>, duals: set<nat>, arrays: map<nat, nat>, a: nat): nat {
    if a in nodes then NODE_BYTES else if a in duals then DUAL_BYTES else if a in arrays then 8 * arrays[a] else 0
  }

  /** The live buffers are exactly the homes and the spare ones, each with its size. */
  ghost predicate LiveIs(live: map<nat, nat>, nodes: set<nat>, duals: set<nat>, arrays: map<nat, nat>,
                         spare: map<nat, nat>, sigma0: nat) {
    && (forall a :: a in live <==> (a in nodes && a != sigma0) || a in duals || a in arrays || a in spare)
    && (forall a :: a in live ==> live[a] == if a in spare then spare[a] else HomeSize(nodes, duals, arrays, a))
  }

  ghost predicate Owned(live: map<nat, nat>, nodes: set<nat>, duals: set<nat>, roots: set<nat>, arrays: map<nat, nat>,
                        spare: map<nat, nat>, sigma0: nat) {
    && LiveIs(live, nodes, duals, arrays, spare, sigma0) && KindsApart(nodes, duals, arrays, spare)
    && RootsInArrays(roots, arrays) && sigma0 in nodes
  }

  /** Live buffers are aligned, and do not overlap each other or sigma0's node, which is not one of them. */
  ghost predicate LiveDisjoint(live: map<nat, nat>, sigma0: nat) {
    && (forall x, y :: x in live && y in live && x != y ==> RangesApart(x, live[x], y, live[y]))
    && (forall x :: x in live ==> 0 < x && x + live[x] <= W64 && RangesApart(x, live[x], sigma0, NODE_BYTES))
    && (forall x :: x in live && live[x] % 4 == 0 ==> x % 4 == 0)
  }

  lemma {:induction false} HomesAt(live: map<nat, nat>, nodes: set<nat>, duals: set<nat>, roots: set<nat>,
                                   arrays: map<nat, nat>, spare: map<nat, nat>, sigma0: nat)
    requires Owned(live, nodes, duals, roots, arrays, spare, sigma0)
    ensures forall a :: a in nodes && a != sigma0 ==> a in live && live[a] == NODE_BYTES
    ensures forall a :: a in duals ==> a in live && live[a] == DUAL_BYTES
    ensures forall a :: a in arrays ==> a in live && live[a] == 8 * arrays[a]
    ensures forall a :: a in spare ==> a in live && live[a] == spare[a]
    ensures sigma0 !in live
  {
  }

  lemma {:induction false} OwnedApart(live: map<nat, nat>, nodes: set<nat>, duals: set<nat>, roots: set<nat>,
                                      arrays: map<nat, nat>, spare: map<nat, nat>, sigma0: nat)
    requires Owned(live, nodes, duals, roots, arrays, spare, sigma0)
    ensures sigma0 in nodes && forall a :: a in spare ==> a !in arrays && a !in nodes
  {
    hide LiveIs, RootsInArrays;
  }

  /** Inside a spare buffer there is no node. */
  lemma {:induction false} SpareFresh(live: map<nat, nat>, st: Store, arrays: map<nat, nat>, spare: map<nat, nat>,
                                      sigma0: nat, x: nat, a: nat)
    requires Owned(live, st.maps.Keys, st.duals.Keys, st.roots.Keys, arrays, spare, sigma0)
    requires LiveDisjoint(live, sigma0)
    requires x in spare && x <= a < x + spare[x] && a % 4 == 0
    ensures Fresh(st, a)
  {
    hide LiveDisjoint, LiveIs, ArrayAddrs;
    HomesAt(live, st.maps.Keys, st.duals.Keys, st.roots.Keys, arrays, spare, sigma0);
    NotSigma0(live, sigma0, x, a);
    if a in st.maps && a != sigma0 { NoOverlap(live, sigma0, x, a, a); }
    if a in st.duals { NoOverlap(live, sigma0, x, a, a); }
    if a in st.roots {
      var b :| b in arrays && a in ArrayAddrs(b, arrays[b]);
      ArrayHolds(b, arrays[b], a);
      NoOverlap(live, sigma0, x, a, b);
    }
  }

  lemma {:induction false} ArrayHolds(b: nat, n: nat, a: nat)
    requires a in ArrayAddrs(b, n)
    ensures b <= a < b + 8 * n && (b % 4 == 0 ==> a % 4 == 0)
  {
    assert OnStride(b, a);
    var k := (a - b) / 8;
    assert a == b + 4 * (2 * k);
  }

  lemma {:induction false} NotSigma0(live: map<nat, nat>, sigma0: nat, x: nat, a: nat)
    requires LiveDisjoint(live, sigma0) && x in live && x <= a < x + live[x]
    ensures a != sigma0 && 0 < a < W64
  {
  }

  lemma {:induction false} NoOverlap(live: map<nat, nat>, sigma0: nat, x: nat, a: nat, y: nat)
    requires LiveDisjoint(live, sigma0) && x in live && y in live && x != y && x <= a < x + live[x]
    ensures !(y <= a < y + live[y])
  {
    assert RangesApart(x, live[x], y, live[y]);
  }

  lemma {:induction false} SpareAligned(live: map<nat, nat>, nodes: set<nat>, duals: set<nat>, roots: set<nat>,
                                        arrays: map<nat, nat>, spare: map<nat, nat>, sigma0: nat, x: nat)
    requires Owned(live, nodes, duals, roots, arrays, spare, sigma0) && LiveDisjoint(live, sigma0)
    requires x in spare && spare[x] % 4 == 0
    ensures x % 4 == 0 && x > 0
  {
    hide LiveIs;
    HomesAt(live, nodes, duals, roots, arrays, spare, sigma0);
  }

  lemma {:induction false} SpareBlock(live: map<nat, nat>, st: Store, arrays: map<nat, nat>, spare: map<nat, nat>,
                                      sigma0: nat, x: nat, n: nat)
    requires Owned(live, st.maps.Keys, st.duals.Keys, st.roots.Keys, arrays, spare, sigma0)
    requires LiveDisjoint(live, sigma0)
    requires x in spare && spare[x] == 8 * n
    ensures x % 4 == 0 && FreshBlock(st, ArrayAddrs(x, n))
  {
    SpareAligned(live, st.maps.Keys, st.duals.Keys, st.roots.Keys, arrays, spare, sigma0, x);
    hide Owned, LiveDisjoint, ArrayAddrs, Fresh;
    forall a | a in ArrayAddrs(x, n) ensures Fresh(st, a) {
      ArrayHolds(x, n, a);
      SpareFresh(live, st, arrays, spare, sigma0, x, a);
    }
  }

  /* ---------- what the allocator provides ---------- */

  /** Every size that is asked for has a buffer list. */
  ghost predicate SizesKnown(lists: seq<BufList>, pgshifts: seq<nat>) {
    forall s :: Needed(pgshifts, s) ==> HasSize(lists, s)
  }

  ghost predicate HasSize(lists: seq<BufList>, s: nat) { exists b :: 0 <= b < |lists| && lists[b].size == s }

  lemma {:induction false} SizesStayKnown(lists: seq<BufList>, lists': seq<BufList>, pgshifts: seq<nat>)
    requires SizesKnown(lists, pgshifts) && SameSizes(lists, lists')
    ensures SizesKnown(lists', pgshifts)
  {
    forall s | Needed(pgshifts, s) ensures HasSize(lists', s) {
      assert HasSize(lists, s);
      var b :| 0 <= b < |lists| && lists[b].size == s;
      assert lists'[b].size == s;
    }
  }

  /** Kernel memory has no page for a pool, or no block for an array. */
  ghost predicate Exhausted(free: seq<nat>, pgshifts: seq<nat>) {
    NoFit(free, 4096) || exists s :: Needed(pgshifts, s) && s >= 4096 && NoFit(free, s)
  }

  lemma {:induction false} AllocatorApart(mem: map<nat, nat>, lists: seq<BufList>, ps: Pools, large: map<nat, nat>,
                                          free: seq<nat>, sigma0: nat)
    requires PoolsOk(mem, lists, ps) && InUse(free, ps, large) && Outside(free, ps, large, sigma0, NODE_BYTES)
    ensures LiveDisjoint(LiveMap(lists, ps, large), sigma0)
  {
    hide PoolsOk, InUse, LiveMap, Outside;
    var live := LiveMap(lists, ps, large);
    forall x, y | x in live && y in live && x != y ensures RangesApart(x, live[x], y, live[y]) {
      LiveRanges(mem, lists, ps, large, free, x, y);
    }
    forall x | x in live
      ensures 0 < x && x + live[x] <= W64 && RangesApart(x, live[x], sigma0, NODE_BYTES)
      ensures live[x] % 4 == 0 ==> x % 4 == 0
    {
      LiveRanges(mem, lists, ps, large, free, x, x);
      LiveInside(mem, lists, ps, large, free, x, sigma0, NODE_BYTES);
    }
  }

  /** A live buffer lies in the allocator's memory. */
  lemma {:induction false} LiveInside(mem: map<nat, nat>, lists: seq<BufList>, ps: Pools, large: map<nat, nat>,
                                      free: seq<nat>, x: nat, a: nat, n: nat)
    requires PoolsOk(mem, lists, ps) && Outside(free, ps, large, a, n) && x in LiveMap(lists, ps, large)
    ensures RangesApart(x, LiveMap(lists, ps, large)[x], a, n)
  {
    hide PoolsOk, LiveMap, Apart, IsLive, SizeOf;
    LiveMapIs(lists, ps, large, x);
    if x !in large { LivePlace(mem, lists, ps, x); }
  }

  /** Buffers of the sizes asked for are aligned like nodes. */
  lemma {:induction false} NeededAligned(pgshifts: seq<nat>, size: nat)
    requires Needed(pgshifts, size)
    ensures size % 4 == 0 && size >= 8
  {
    hide ArraySize;
    if size != NODE_BYTES && size != DUAL_BYTES {
      var i :| 0 <= i < |pgshifts| - 1 && size == ArrayBytes(pgshifts, i);
      EightTimes(ArraySize(pgshifts, i));
    }
  }

  lemma {:induction false} EightTimes(n: nat)
    ensures 8 * n % 4 == 0 && (n > 0 ==> 8 * n >= 8)
  {
  }

  lemma {:induction false} SmallNeeded(pgshifts: seq<nat>)
    ensures Needed(pgshifts, NODE_BYTES) && Needed(pgshifts, DUAL_BYTES)
  {
  }

  lemma {:induction false} ArrayNeeded(pgshifts: seq<nat>, p: nat)
    requires p + 1 < |pgshifts|
    ensures Needed(pgshifts, 8 * ArraySize(pgshifts, p))
  {
    hide ArraySize;
    assert 8 * ArraySize(pgshifts, p) == ArrayBytes(pgshifts, p);
  }

  lemma {:induction false} KnownSize(lists: seq<BufList>, pgshifts: seq<nat>, size: nat)
    requires SizesKnown(lists, pgshifts) && Needed(pgshifts, size)
    ensures exists b :: 0 <= b < |lists| && lists[b].size == size
  {
    hide Needed;
    assert HasSize(lists, size);
  }

  lemma {:induction false} KnownSizes(lists: seq<BufList>, sizes: seq<nat>, pgshifts: seq<nat>)
    requires |lists| == |sizes| && forall b :: 0 <= b < |sizes| ==> lists[b].size == sizes[b]
    requires forall s :: s in sizes <==> Needed(pgshifts, s)
    ensures SizesKnown(lists, pgshifts)
  {
    hide Needed;
    forall s | Needed(pgshifts, s) ensures HasSize(lists, s) {
      assert s in sizes;
      var b :| 0 <= b < |sizes| && sizes[b] == s;
      assert lists[b].size == s;
    }
  }

  lemma {:induction false} NothingLive(lists: seq<BufList>, ps: Pools, large: map<nat, nat>)
    requires ps.pool == map[] && large == map[]
    ensures LiveMap(lists, ps, large) == map[]
  {
  }

  lemma {:induction false} FirstOutside(free: seq<nat>, ps: Pools, large: map<nat, nat>, a: nat, n: nat)
    requires ps.pool == map[] && large == map[] && Apart(free, a, n)
    ensures Outside(free, ps, large, a, n)
  {
  }

  lemma {:induction false} NowExhausted(free: seq<nat>, pgshifts: seq<nat>, size: nat)
    requires NoFit(free, Request(size)) && Needed(pgshifts, size)
    ensures Exhausted(free, pgshifts)
  {
    hide Needed, NoFit;
  }

  lemma {:induction false} SmallIsLive(mem: map<nat, nat>, lists: seq<BufList>, ps: Pools, large: map<nat, nat>,
                                       free: seq<nat>, a: nat)
    requires PoolsOk(mem, lists, ps) && InUse(free, ps, large)
    requires a in LiveMap(lists, ps, large) && LiveMap(lists, ps, large)[a] < 4096
    ensures IsLive(lists, ps, a) && a < W64
  {
    hide PoolsOk, IsLive, SizeOf, LiveMap, Apart;
    LiveMapIs(lists, ps, large, a);
    assert a in large ==> LargeOk(free, a, large[a]);
    LiveRanges(mem, lists, ps, large, free, a, a);
  }

  /* ---------- what changes the owners ---------- */

  /** A buffer is handed out. */
  lemma {:induction false} BufferTaken(live: map<nat, nat>, nodes: set<nat>, duals: set<nat>, roots: set<nat>,
                                       arrays: map<nat, nat>, spare: map<nat, nat>, sigma0: nat, a: nat, size: nat)
    requires Owned(live, nodes, duals, roots, arrays, spare, sigma0) && a !in live && a != sigma0
    ensures a !in spare && Owned(live[a := size], nodes, duals, roots, arrays, spare[a := size], sigma0)
  {
  }

  /** A spare buffer becomes a node, and another one a dual node if needed. */
  lemma {:induction false} NodeHoused(live: map<nat, nat>, nodes: set<nat>, duals: set<nat>, roots: set<nat>,
                                      arrays: map<nat, nat>, spare: map<nat, nat>, sigma0: nat, x: nat, ds: set<nat>)
    requires Owned(live, nodes, duals, roots, arrays, spare, sigma0) && x in spare && spare[x] == NODE_BYTES && x !in ds
    requires forall d :: d in ds ==> d in spare && spare[d] == DUAL_BYTES
    ensures Owned(live, nodes + {x}, duals + ds, roots, arrays, spare - {x} - ds, sigma0)
  {
    hide RootsInArrays;
  }

  lemma {:induction false} ArrayAdded(roots: set<nat>, arrays: map<nat, nat>, b: nat, n: nat)
    requires RootsInArrays(roots, arrays) && b !in arrays
    ensures RootsInArrays(roots + ArrayAddrs(b, n), arrays[b := n])
  {
    hide ArrayAddrs;
    var arrays' := arrays[b := n];
    forall r | r in roots + ArrayAddrs(b, n) ensures exists c :: c in arrays' && r in ArrayAddrs(c, arrays'[c]) {
      if r in roots {
        var c :| c in arrays && r in ArrayAddrs(c, arrays[c]);
        assert c in arrays' && arrays'[c] == arrays[c];
      } else {
        assert b in arrays';
      }
    }
  }

  /** A spare buffer becomes an array, and another one a dual node if needed. */
  lemma {:induction false} ArrayHoused(live: map<nat, nat>, nodes: set<nat>, duals: set<nat>, roots: set<nat>,
                                       arrays: map<nat, nat>, spare: map<nat, nat>, sigma0: nat, b: nat, n: nat,
                                       ds: set<nat>)
    requires Owned(live, nodes, duals, roots, arrays, spare, sigma0) && b in spare && spare[b] == 8 * n && b !in ds
    requires forall d :: d in ds ==> d in spare && spare[d] == DUAL_BYTES
    ensures Owned(live, nodes, duals + ds, roots + ArrayAddrs(b, n), arrays[b := n], spare - {b} - ds, sigma0)
  {
    hide ArrayAddrs;
    assert b !in arrays;
    ArrayAdded(roots, arrays, b, n);
    hide RootsInArrays;
  }

  /** A node, and the dual nodes left over, are freed. */
  lemma {:induction false} NodeFreed(live: map<nat, nat>, nodes: set<nat>, duals: set<nat>, roots: set<nat>,
                                     arrays: map<nat, nat>, spare: map<nat, nat>, sigma0: nat, x: nat, ds: set<nat>)
    requires Owned(live, nodes, duals, roots, arrays, spare, sigma0) && x in nodes && x != sigma0 && ds <= duals
    ensures Owned(live - {x} - ds, nodes - {x}, duals - ds, roots, arrays, spare, sigma0)
  {
    hide RootsInArrays;
  }

  lemma {:induction false} NodeNotDual(live: map<nat, nat>, nodes: set<nat>, duals: set<nat>, roots: set<nat>,
                                       arrays: map<nat, nat>, spare: map<nat, nat>, sigma0: nat, x: nat)
    requires Owned(live, nodes, duals, roots, arrays, spare, sigma0) && x in nodes
    ensures x !in duals
  {
  }

  lemma {:induction false} FirstNode(live: map<nat, nat>, sigma0: nat, x: nat)
    requires LiveDisjoint(live, sigma0) && x in live && live[x] % 4 == 0 && live[x] > 0
    ensures IsNode(x) && x != sigma0
  {
    NotSigma0(live, sigma0, x, x);
  }

  lemma {:induction false} FirstNodes(live: map<nat, nat>, sigma0: nat, base: nat, n: nat)
    requires LiveDisjoint(live, sigma0) && base in live && live[base] == 8 * n && n > 0
    ensures IsNode(base) && base != sigma0 && forall a :: a in ArrayAddrs(base, n) ==> IsNode(a)
  {
    hide ArrayAddrs, LiveDisjoint, IsNode;
    EightTimes(n);
    FirstNode(live, sigma0, base);
    forall a | a in ArrayAddrs(base, n) ensures IsNode(a) {
      ArrayHolds(base, n, a);
      NotSigma0(live, sigma0, base, a);
      InArrayNode(base, a);
    }
  }

  lemma {:induction false} InArrayNode(base: nat, a: nat)
    requires IsNode(base) && (base % 4 == 0 ==> a % 4 == 0) && 0 < a < W64
    ensures IsNode(a)
  {
  }

  lemma {:induction false} FirstOwned(sigma0: nat, dual: nat, base: nat, n: nat)
    requires sigma0 != dual && dual != base && base != sigma0
    ensures Owned(map[base := 8 * n][dual := DUAL_BYTES], {sigma0}, {dual}, ArrayAddrs(base, n), map[base := n], map[],
                  sigma0)
  {
    hide ArrayAddrs;
    assert RootsInArrays(ArrayAddrs(base, n), map[base := n]) by {
      assert base in map[base := n];
    }
  }

  /** The first node lives in static memory, its dual node and array in the first two buffers. */
  lemma {:induction false} InitHouse(mem: map<nat, nat>, lists: seq<BufList>, ps: Pools, large: map<nat, nat>,
                                     free: seq<nat>, pgshifts: seq<nat>, sigma0: nat, dual: nat, base: nat)
    requires PoolsOk(mem, lists, ps) && InUse(free, ps, large) && Outside(free, ps, large, sigma0, NODE_BYTES)
    requires |pgshifts| >= 2 && dual != base
    requires LiveMap(lists, ps, large) == map[base := ArrayBytes(pgshifts, |pgshifts| - 2)][dual := DUAL_BYTES]
    ensures IsNode(base) && IsNode(dual)
    ensures var n := ArraySize(pgshifts, |pgshifts| - 2);
            && (forall a :: a in ArrayAddrs(base, n) ==> IsNode(a))
            && Owned(LiveMap(lists, ps, large), {sigma0}, {dual}, ArrayAddrs(base, n), map[base := n], map[], sigma0)
  {
    hide PoolsOk, InUse, Outside, LiveMap, ArraySize, LiveDisjoint, Owned, ArrayAddrs;
    var n := ArraySize(pgshifts, |pgshifts| - 2);
    AllocatorApart(mem, lists, ps, large, free, sigma0);
    FirstNodes(LiveMap(lists, ps, large), sigma0, base, n);
    FirstNode(LiveMap(lists, ps, large), sigma0, dual);
    FirstOwned(sigma0, dual, base, n);
  }

  /* ---------- who holds an array ---------- */

  /** The slot belongs to the list of `h`: its head, or a node in it. */
  ghost predicate InSlots(sh: Shape, h: Slot, s: Slot) {
    h in sh.chains && (s == h || (s.MapSlot? && InList(sh, h, s.addr)))
  }

  /** A slot of the list of `h` leads to the array `b`, whose root nodes head lists one page size down. */
  ghost predicate HeldBy(st: Store, sh: Shape, arrays: map<nat, nat>, b: nat, h: Slot, s: Slot) {
    && InSlots(sh, h, s) && h in sh.level && Exists(st, s) && RootOf(st, s) == b && b in arrays && b != 0
    && forall r :: r in ArrayAddrs(b, arrays[b]) ==>
         RootSlot(r) in sh.level && sh.level[RootSlot(r)].size + 1 == sh.level[h].size
  }

  ghost predicate Held(st: Store, sh: Shape, arrays: map<nat, nat>, b: nat) {
    exists h, s :: HeldBy(st, sh, arrays, b, h, s)
  }

  /** Every array is one slot's, and no other's. */
  ghost predicate ArraysHeld(st: Store, sh: Shape, arrays: map<nat, nat>) {
    && (forall s :: Exists(st, s) && RootOf(st, s) != 0 ==> RootOf(st, s) in arrays)
    && (forall s, t :: Exists(st, s) && Exists(st, t) && s != t && RootOf(st, s) != 0 ==>
        RootOf(st, t) != RootOf(st, s))
    && (forall b :: b in arrays ==> Held(st, sh, arrays, b))
  }

  /** Of the mapping nodes only sigma0 heads a list; it has no page-table entry, and no page size is above
      its own. */
  ghost predicate OneTop(sh: Shape, pgshifts: seq<nat>, sigma0: nat) {
    && MapSlot(sigma0) in sh.chains && (forall g: Slot :: g in sh.chains && g.MapSlot? ==> g.addr == sigma0)
    && sigma0 !in sh.pg
    && forall g :: g in sh.level ==> sh.level[g].size < |pgshifts|
  }

  /** Slots that lead to arrays lead to them as before, and are in the same lists. */
  lemma {:induction false} ArraysStay(st: Store, sh: Shape, st': Store, sh': Shape, arrays: map<nat, nat>)
    requires ArraysHeld(st, sh, arrays) && sh'.level == sh.level
    requires forall s :: Exists(st, s) && RootOf(st, s) != 0 ==> Exists(st', s) && RootOf(st', s) == RootOf(st, s)
    requires forall s :: Exists(st', s) && RootOf(st', s) != 0 ==> Exists(st, s) && RootOf(st, s) == RootOf(st', s)
    requires forall h, s :: InSlots(sh, h, s) && Exists(st, s) && RootOf(st, s) != 0 ==> InSlots(sh', h, s)
    ensures ArraysHeld(st', sh', arrays)
  {
    hide Exists, RootOf, ArrayAddrs, InSlots;
    forall b | b in arrays ensures Held(st', sh', arrays, b) {
      assert Held(st, sh, arrays, b);
      var h, s :| HeldBy(st, sh, arrays, b, h, s);
      assert HeldBy(st', sh', arrays, b, h, s);
    }
  }

  lemma {:induction false} HookSlots(sh: Shape, h: Slot, i: nat, x: nat, pgX: nat, g: Slot, s: Slot)
    requires h in sh.chains && i <= |sh.chains[h]| && InSlots(sh, g, s)
    ensures InSlots(HookShape(sh, h, i, x, pgX), g, s)
  {
    assert sh.chains[h] == sh.chains[h][..i] + sh.chains[h][i..];
  }

  lemma {:induction false} UnhookSlots(sh: Shape, h: Slot, i: nat, g: Slot, s: Slot)
    requires h in sh.chains && i < |sh.chains[h]| && InSlots(sh, g, s) && s != MapSlot(sh.chains[h][i])
    ensures InSlots(UnhookShape(sh, h, i), g, s)
  {
    var c := sh.chains[h];
    assert c == c[..i] + [c[i]] + c[i + 1..];
  }

  lemma {:induction false} ArraysHooked(st: Store, st': Store, sh: Shape, arrays: map<nat, nat>, h: Slot, i: nat,
                                        x: nat, pgX: nat)
    requires ArraysHeld(st, sh, arrays) && h in sh.chains && i <= |sh.chains[h]| && x !in st.maps
    requires st'.maps.Keys == st.maps.Keys + {x} && st'.roots.Keys == st.roots.Keys && RootOf(st', MapSlot(x)) == 0
    requires forall s :: Exists(st, s) ==> RootOf(st', s) == RootOf(st, s)
    ensures ArraysHeld(st', HookShape(sh, h, i, x, pgX), arrays)
  {
    hide ArraysHeld, RootOf, HookShape, InSlots;
    forall g, s | InSlots(sh, g, s) ensures InSlots(HookShape(sh, h, i, x, pgX), g, s) {
      HookSlots(sh, h, i, x, pgX, g, s);
    }
    HookLevel(sh, h, i, x, pgX);
    assert forall s :: Exists(st', s) <==> Exists(st, s) || s == MapSlot(x);
    ArraysStay(st, sh, st', HookShape(sh, h, i, x, pgX), arrays);
  }

  lemma {:induction false} HookLevel(sh: Shape, h: Slot, i: nat, x: nat, pgX: nat)
    requires h in sh.chains && i <= |sh.chains[h]|
    ensures HookShape(sh, h, i, x, pgX).level == sh.level && HookShape(sh, h, i, x, pgX).chains.Keys == sh.chains.Keys
  {
  }

  lemma {:induction false} ArraysUnhooked(st: Store, st': Store, sh: Shape, arrays: map<nat, nat>, h: Slot, i: nat)
    requires ArraysHeld(st, sh, arrays) && h in sh.chains && i < |sh.chains[h]|
    requires var x := sh.chains[h][i]; st'.maps.Keys == st.maps.Keys - {x} && RootOf(st, MapSlot(x)) == 0
    requires st'.roots.Keys == st.roots.Keys && forall s :: Exists(st', s) ==> RootOf(st', s) == RootOf(st, s)
    ensures ArraysHeld(st', UnhookShape(sh, h, i), arrays)
  {
    hide ArraysHeld, RootOf, UnhookShape, InSlots;
    var x := sh.chains[h][i];
    forall g, s | InSlots(sh, g, s) && s != MapSlot(x) ensures InSlots(UnhookShape(sh, h, i), g, s) {
      UnhookSlots(sh, h, i, g, s);
    }
    UnhookLevel(sh, h, i);
    assert forall s :: Exists(st, s) <==> Exists(st', s) || (s == MapSlot(x) && Exists(st, s));
    ArraysStay(st, sh, st', UnhookShape(sh, h, i), arrays);
  }

  lemma {:induction false} UnhookLevel(sh: Shape, h: Slot, i: nat)
    requires h in sh.chains && i < |sh.chains[h]|
    ensures UnhookShape(sh, h, i).level == sh.level && UnhookShape(sh, h, i).chains.Keys == sh.chains.Keys
  {
  }

  /** Nothing that arrays depend on has changed. */
  lemma {:induction false} ArraysSame(st: Store, st': Store, sh: Shape, sh': Shape, arrays: map<nat, nat>)
    requires ArraysHeld(st, sh, arrays) && sh'.chains == sh.chains && sh'.level == sh.level
    requires forall s :: Exists(st', s) <==> Exists(st, s)
    requires forall s :: Exists(st, s) ==> RootOf(st', s) == RootOf(st, s)
    ensures ArraysHeld(st', sh', arrays)
  {
    hide ArraysHeld, RootOf, Exists;
    assert forall h, s :: InSlots(sh, h, s) ==> InSlots(sh', h, s);
    ArraysStay(st, sh, st', sh', arrays);
  }

  /** A slot of the list of `h` gets a new array. */
  lemma {:induction false} ArraysAttached(st: Store, st': Store, sh: Shape, arrays: map<nat, nat>, h: Slot, s: Slot,
                                          b: nat, n: nat, p: Level)
    requires ArraysHeld(st, sh, arrays) && InSlots(sh, h, s) && Exists(st, s) && RootOf(st, s) == 0
    requires b != 0 && b !in arrays && Attached(st, st', s, b, ArrayAddrs(b, n))
    requires sh.level.Keys == sh.chains.Keys && sh.level[h].size == p.size + 1
    requires forall a :: a in ArrayAddrs(b, n) ==> RootSlot(a) !in sh.chains
    ensures ArraysHeld(st', AttachShape(sh, ArrayAddrs(b, n), p), arrays[b := n])
  {
    hide AttachShape, ArrayAddrs, HeldBy;
    var addrs := ArrayAddrs(b, n);
    var sh', arrays' := AttachShape(sh, addrs, p), arrays[b := n];
    AttachedSlots(st, st', s, b, addrs);
    hide Attached, RootOf, Exists;
    NewlyHeld(st, st', sh, arrays, h, s, b, n, p);
    forall c | c in arrays' ensures Held(st', sh', arrays', c) {
      if c == b {
        assert HeldBy(st', sh', arrays', b, h, s);
      } else {
        assert Held(st, sh, arrays, c);
        var g, t :| HeldBy(st, sh, arrays, c, g, t);
        StillHeld(st, st', sh, arrays, h, s, b, n, p, c, g, t);
      }
    }
  }

  lemma {:induction false} NewlyHeld(st: Store, st': Store, sh: Shape, arrays: map<nat, nat>, h: Slot, s: Slot, b: nat,
                                     n: nat, p: Level)
    requires InSlots(sh, h, s) && Exists(st, s) && b != 0 && Attached(st, st', s, b, ArrayAddrs(b, n))
    requires sh.level.Keys == sh.chains.Keys && sh.level[h].size == p.size + 1
    requires forall a :: a in ArrayAddrs(b, n) ==> RootSlot(a) !in sh.chains
    ensures HeldBy(st', AttachShape(sh, ArrayAddrs(b, n), p), arrays[b := n], b, h, s)
  {
    hide AttachShape, ArrayAddrs;
    var addrs := ArrayAddrs(b, n);
    AttachShapeIs(sh, addrs, p);
    AttachedSlots(st, st', s, b, addrs);
    hide Attached, RootOf, Exists;
  }

  lemma {:induction false} StillHeld(st: Store, st': Store, sh: Shape, arrays: map<nat, nat>, h: Slot, s: Slot, b: nat,
                                     n: nat, p: Level, c: nat, g: Slot, t: Slot)
    requires HeldBy(st, sh, arrays, c, g, t) && c != b && Exists(st, s) && RootOf(st, s) == 0
    requires Attached(st, st', s, b, ArrayAddrs(b, n)) && sh.level.Keys == sh.chains.Keys
    requires forall a :: a in ArrayAddrs(b, n) ==> RootSlot(a) !in sh.chains
    ensures HeldBy(st', AttachShape(sh, ArrayAddrs(b, n), p), arrays[b := n], c, g, t)
  {
    hide AttachShape, ArrayAddrs;
    var addrs := ArrayAddrs(b, n);
    AttachShapeIs(sh, addrs, p);
    AttachedSlots(st, st', s, b, addrs);
    hide Attached, RootOf, Exists;
  }

  lemma {:induction false} AttachedSlots(st: Store, st': Store, s: Slot, b: nat, addrs: set<nat>)
    requires Attached(st, st', s, b, addrs) && Exists(st, s)
    ensures forall t :: Exists(st', t) <==> Exists(st, t) || (t.RootSlot? && t.addr in addrs)
    ensures forall t :: Exists(st, t) ==> RootOf(st', t) == if t == s then b else RootOf(st, t)
    ensures forall t :: Exists(st', t) && !Exists(st, t) ==> RootOf(st', t) == 0
  {
    hide RootOf, MapOf;
  }

  /* ---------- what can be reached ---------- */

  /** From slot `s` one gets to slot `t`: its next mapping, or an element of its array. */
  ghost predicate Leads(st: Store, arrays: map<nat, nat>, s: Slot, t: Slot) {
    || (MapOf(st, s) != 0 && t == MapSlot(MapOf(st, s)))
    || (RootOf(st, s) in arrays && t.RootSlot? && t.addr in ArrayAddrs(RootOf(st, s), arrays[RootOf(st, s)]))
  }

  ghost predicate IsWay(st: Store, arrays: map<nat, nat>, sigma0: nat, way: seq<Slot>) {
    && way != [] && way[0] == MapSlot(sigma0)
    && forall i, j :: 0 <= i < j < |way| && j == i + 1 ==> Leads(st, arrays, way[i], way[j])
  }

  /** One gets to the slot from sigma0's node. */
  ghost predicate Reachable(st: Store, arrays: map<nat, nat>, sigma0: nat, s: Slot) {
    exists way :: IsWay(st, arrays, sigma0, way) && way[|way| - 1] == s
  }

  /** What a slot leads to: a mapping node, a dual node, an array. */
  ghost predicate Holds(st: Store, s: Slot, a: nat) {
    a != 0 && (MapOf(st, s) == a || LeadsToDual(st, s, a) || RootOf(st, s) == a)
  }

  /** All that the database is known to keep, in one predicate. */
  ghost predicate Whole(live: map<nat, nat>, st: Store, sh: Shape, pgshifts: seq<nat>, arrays: map<nat, nat>,
                        spare: map<nat, nat>, sigma0: nat) {
    && Inv(st, sh) && ArraysHeld(st, sh, arrays) && OneTop(sh, pgshifts, sigma0)
    && Owned(live, st.maps.Keys, st.duals.Keys, st.roots.Keys, arrays, spare, sigma0)
  }

  lemma {:induction false} WayOn(st: Store, arrays: map<nat, nat>, sigma0: nat, s: Slot, t: Slot)
    requires Reachable(st, arrays, sigma0, s) && Leads(st, arrays, s, t)
    ensures Reachable(st, arrays, sigma0, t)
  {
    hide Leads;
    var way :| IsWay(st, arrays, sigma0, way) && way[|way| - 1] == s;
    assert IsWay(st, arrays, sigma0, way + [t]) && (way + [t])[|way|] == t;
  }

  /** Every position of every list is reached: along the list from its head, and from there over the
      array the head is in, whose slot is in a list of larger pages. */
  lemma {:induction false} PositionReached(live: map<nat, nat>, st: Store, sh: Shape, pgshifts: seq<nat>,
                                           arrays: map<nat, nat>, spare: map<nat, nat>, sigma0: nat, h: Slot, i: nat)
    requires Whole(live, st, sh, pgshifts, arrays, spare, sigma0) && h in sh.chains && i <= |sh.chains[h]|
    requires h in sh.level
    requires sh.level[h].size < |pgshifts|
    ensures Reachable(st, arrays, sigma0, At(h, sh.chains[h], i))
    decreases |pgshifts| - sh.level[h].size, i
  {
    hide Reachable, Leads, Whole;
    if i > 0 {
      PositionReached(live, st, sh, pgshifts, arrays, spare, sigma0, h, i - 1);
      NextLeads(live, st, sh, pgshifts, arrays, spare, sigma0, h, i - 1);
      WayOn(st, arrays, sigma0, At(h, sh.chains[h], i - 1), At(h, sh.chains[h], i));
    } else if h.MapSlot? {
      TopReached(live, st, sh, pgshifts, arrays, spare, sigma0, h);
    } else {
      var g, j := Holder(live, st, sh, pgshifts, arrays, spare, sigma0, h);
      PositionReached(live, st, sh, pgshifts, arrays, spare, sigma0, g, j);
      WayOn(st, arrays, sigma0, At(g, sh.chains[g], j), h);
    }
  }

  lemma {:induction false} NextLeads(live: map<nat, nat>, st: Store, sh: Shape, pgshifts: seq<nat>,
                                     arrays: map<nat, nat>, spare: map<nat, nat>, sigma0: nat, h: Slot, i: nat)
    requires Whole(live, st, sh, pgshifts, arrays, spare, sigma0) && h in sh.chains && i < |sh.chains[h]|
    ensures Leads(st, arrays, At(h, sh.chains[h], i), At(h, sh.chains[h], i + 1))
  {
    hide MapOf, ArraysHeld, OneTop, Owned, DualsOk, AddressesOk;
    HookHere(st, sh, h, i);
    NodeNotNull(st, sh, h, i);
  }

  lemma {:induction false} NodeNotNull(st: Store, sh: Shape, h: Slot, i: nat)
    requires Inv(st, sh) && h in sh.chains && i < |sh.chains[h]|
    ensures sh.chains[h][i] != 0 && sh.chains[h][i] in st.maps
  {
    hide DualsOk, LinksOk, NodesListed;
  }

  lemma {:induction false} TopReached(live: map<nat, nat>, st: Store, sh: Shape, pgshifts: seq<nat>,
                                      arrays: map<nat, nat>, spare: map<nat, nat>, sigma0: nat, h: Slot)
    requires Whole(live, st, sh, pgshifts, arrays, spare, sigma0) && h in sh.chains && h.MapSlot?
    ensures Reachable(st, arrays, sigma0, h)
  {
    hide Inv, ArraysHeld, Owned, Leads;
    assert IsWay(st, arrays, sigma0, [MapSlot(sigma0)]);
  }

  /** The position that holds the array of a root node, one page size up. */
  lemma {:induction false} Holder(live: map<nat, nat>, st: Store, sh: Shape, pgshifts: seq<nat>, arrays: map<nat, nat>,
                                  spare: map<nat, nat>, sigma0: nat, h: Slot)
    returns (g: Slot, j: nat)
    requires Whole(live, st, sh, pgshifts, arrays, spare, sigma0) && h in sh.chains && h in sh.level && h.RootSlot?
    ensures g in sh.chains && j <= |sh.chains[g]| && g in sh.level && sh.level[g].size == sh.level[h].size + 1
    ensures sh.level[g].size < |pgshifts| && Leads(st, arrays, At(g, sh.chains[g], j), h)
  {
    hide ArrayAddrs, RootOf, MapOf, LiveIs, KindsApart, DualsOk, AddressesOk, LinksOk, EntriesOk, MembersOk, ListsApart,
      NodesListed;
    var b :| b in arrays && h.addr in ArrayAddrs(b, arrays[b]);
    assert Held(st, sh, arrays, b);
    var s;
    g, s :| HeldBy(st, sh, arrays, b, g, s);
    assert RootSlot(h.addr) == h;
    j := PlaceOf(sh, g, s);
  }

  lemma {:induction false} PlaceOf(sh: Shape, g: Slot, s: Slot) returns (j: nat)
    requires InSlots(sh, g, s)
    ensures j <= |sh.chains[g]| && At(g, sh.chains[g], j) == s
  {
    if s == g {
      j := 0;
    } else {
      var i :| 0 <= i < |sh.chains[g]| && sh.chains[g][i] == s.addr;
      j := i + 1;
    }
  }

  /** Every slot there is has a position. */
  lemma {:induction false} SlotPlaced(live: map<nat, nat>, st: Store, sh: Shape, pgshifts: seq<nat>,
                                      arrays: map<nat, nat>, spare: map<nat, nat>, sigma0: nat, s: Slot)
    returns (h: Slot, i: nat)
    requires Whole(live, st, sh, pgshifts, arrays, spare, sigma0) && Exists(st, s)
    ensures h in sh.chains && h in sh.level && i <= |sh.chains[h]| && At(h, sh.chains[h], i) == s
    ensures sh.level[h].size < |pgshifts|
  {
    hide ArraysHeld, Owned, LinksOk, DualsOk, AddressesOk, EntriesOk, MembersOk, ListsApart;
    if s in sh.chains {
      h, i := s, 0;
    } else {
      h :| InList(sh, h, s.addr);
      i := PlaceOf(sh, h, s);
    }
  }

  ghost predicate HoldsReached(st: Store, arrays: map<nat, nat>, sigma0: nat, s: Slot, a: nat) {
    Exists(st, s) && Reachable(st, arrays, sigma0, s) && Holds(st, s, a)
  }

  /** What a slot leads to is live and not spare. */
  lemma {:induction false} HeldIsLive(live: map<nat, nat>, st: Store, sh: Shape, pgshifts: seq<nat>,
                                      arrays: map<nat, nat>, spare: map<nat, nat>, sigma0: nat, s: Slot, a: nat)
    requires Whole(live, st, sh, pgshifts, arrays, spare, sigma0) && Exists(st, s) && Holds(st, s, a)
    ensures a in live && a !in spare
    ensures MapOf(st, s) == a ==> a in st.maps
    ensures LeadsToDual(st, s, a) ==> a in st.duals
    ensures RootOf(st, s) == a ==> a in arrays
  {
    hide LiveIs, MapOf, RootOf, RootsInArrays;
    HomesAt(live, st.maps.Keys, st.duals.Keys, st.roots.Keys, arrays, spare, sigma0);
    assert DualOk(st, s);
    if MapOf(st, s) == a {
      var h, i := SlotPlaced(live, st, sh, pgshifts, arrays, spare, sigma0, s);
      NextIsMember(st, sh, sigma0, h, i);
    }
  }

  lemma {:induction false} NextIsMember(st: Store, sh: Shape, sigma0: nat, h: Slot, i: nat)
    requires Inv(st, sh) && h in sh.chains && i <= |sh.chains[h]| && MapSlot(sigma0) in sh.chains
    requires MapOf(st, At(h, sh.chains[h], i)) != 0
    ensures i < |sh.chains[h]| && MapOf(st, At(h, sh.chains[h], i)) == sh.chains[h][i]
    ensures sh.chains[h][i] in st.maps && sh.chains[h][i] != sigma0
  {
    hide DualsOk, AddressesOk, EntriesOk, NodesListed, ListsApart, MapOf;
    HookHere(st, sh, h, i);
  }

  /** Nothing leaks and nothing dangles: the live buffers are the spare ones and what the slots reached
      from sigma0 lead to. */
  lemma {:induction false} LiveIsReached(live: map<nat, nat>, st: Store, sh: Shape, pgshifts: seq<nat>,
                                         arrays: map<nat, nat>, spare: map<nat, nat>, sigma0: nat, a: nat)
    requires Whole(live, st, sh, pgshifts, arrays, spare, sigma0)
    ensures a in live <==> a in spare || exists s :: HoldsReached(st, arrays, sigma0, s, a)
  {
    hide Reachable, LinksOk, AddressesOk, EntriesOk, ListsApart, MapOf, RootOf, RootsInArrays;
    if s :| HoldsReached(st, arrays, sigma0, s, a) {
      HeldIsLive(live, st, sh, pgshifts, arrays, spare, sigma0, s, a);
    }
    if a in live && a !in spare {
      var s := SomeHolder(live, st, sh, pgshifts, arrays, spare, sigma0, a);
      var h, i := SlotPlaced(live, st, sh, pgshifts, arrays, spare, sigma0, s);
      PositionReached(live, st, sh, pgshifts, arrays, spare, sigma0, h, i);
      assert HoldsReached(st, arrays, sigma0, s, a);
    }
  }

  lemma {:induction false} SomeHolder(live: map<nat, nat>, st: Store, sh: Shape, pgshifts: seq<nat>,
                                      arrays: map<nat, nat>, spare: map<nat, nat>, sigma0: nat, a: nat)
    returns (s: Slot)
    requires Whole(live, st, sh, pgshifts, arrays, spare, sigma0) && a in live && a !in spare
    ensures Exists(st, s) && Holds(st, s, a)
  {
    hide MapOf, RootOf, RootsInArrays, EntriesOk, ListsApart, Target;
    if a in st.duals {
      s :| LeadsToDual(st, s, a);
      assert IsNode(a);
    } else if a in arrays {
      assert Held(st, sh, arrays, a);
      var h;
      h, s :| HeldBy(st, sh, arrays, a, h, s);
    } else {
      var h :| InList(sh, h, a);
      var i :| 0 <= i < |sh.chains[h]| && sh.chains[h][i] == a;
      s := At(h, sh.chains[h], i);
      HookHere(st, sh, h, i);
      HookSlotExists(st, sh, h, i);
    }
  }

  /** Nothing is shared: a node, a dual node or an array has one slot that leads to it. */
  lemma {:induction false} HeldOnce(live: map<nat, nat>, st: Store, sh: Shape, pgshifts: seq<nat>,
                                    arrays: map<nat, nat>, spare: map<nat, nat>, sigma0: nat, s: Slot, t: Slot, a: nat)
    requires Whole(live, st, sh, pgshifts, arrays, spare, sigma0) && Exists(st, s) && Exists(st, t)
    requires Holds(st, s, a) && Holds(st, t, a)
    ensures s == t
  {
    hide MapOf, RootOf, RootsInArrays, EntriesOk, LiveIs, LinksOk, AddressesOk, NodesListed, Target, OneTop, MembersOk;
    HeldIsLive(live, st, sh, pgshifts, arrays, spare, sigma0, s, a);
    HeldIsLive(live, st, sh, pgshifts, arrays, spare, sigma0, t, a);
    if MapOf(st, s) == a {
      ListedOnce(live, st, sh, pgshifts, arrays, spare, sigma0, s, t);
    } else if LeadsToDual(st, s, a) {
      assert DualsApart(st, s, t);
    }
  }

  lemma {:induction false} ListedOnce(live: map<nat, nat>, st: Store, sh: Shape, pgshifts: seq<nat>,
                                      arrays: map<nat, nat>, spare: map<nat, nat>, sigma0: nat, s: Slot, t: Slot)
    requires Whole(live, st, sh, pgshifts, arrays, spare, sigma0) && Exists(st, s) && Exists(st, t)
    requires MapOf(st, s) == MapOf(st, t) != 0
    ensures s == t
  {
    hide MapOf, RootOf, Owned, DualsOk, EntriesOk, LinksOk, AddressesOk, NodesListed, MembersOk;
    var h, i := SlotPlaced(live, st, sh, pgshifts, arrays, spare, sigma0, s);
    var g, j := SlotPlaced(live, st, sh, pgshifts, arrays, spare, sigma0, t);
    NextIsMember(st, sh, sigma0, h, i);
    NextIsMember(st, sh, sigma0, g, j);
  }
}
