/** The operations of the mapping database: kernel/src/generic/mapping.cc.

    Each method changes the packed nodes as the source does and is proved against the ghost `shape`:
    which list changes, at which position, and that every next pointer and every compressed backlink
    still decodes.  Nodes live in buffers of `mdb_alloc_buffer`; the methods take and free them, and
    the invariant says that the live buffers are exactly those of the nodes.
 */
module MappingDb {
  import opened Words
  import opened MapNodes
  import opened Forest
  import opened Mapping
  import opened MappingForests
  import opened MappingFlush
  import opened PageSizes
  import Kmem
  import opened BufferPools
  import opened MappingAlloc
  import opened NodeBuffers

  class Mdb {
    /** `mdb_pgshifts`. */
    const pgshifts: seq<nat>
    const buffers: BufferAllocator
    /** The address of the static node that owns the whole address space. */
    const sigma0: nat
    var maps: map<nat, MapNode>
    var roots: map<nat, Next>
    var duals: map<nat, Dual>
    var entries: map<nat, PageEntry>
    ghost var shape: Shape
    /** The arrays of root nodes by address, with their lengths. */
    ghost var arrays: map<nat, nat>
    /** Buffers that have been handed out and are not linked in. */
    ghost var spare: map<nat, nat>

    function View(): Store
      reads this
    {
      Store(maps, roots, duals)
    }

    ghost predicate Linked()
      reads this
    {
      && Inv(View(), shape)
      && ArraysOk(View(), shape, pgshifts)
      && (forall n :: n in shape.pg ==> shape.pg[n] in entries)
    }

    /** The allocator is in order, has the sizes that are asked for, and keeps off the static node. */
    ghost predicate Backed()
      reads buffers, buffers.kmem
    {
      && buffers.Valid() && SizesKnown(buffers.lists, pgshifts)
      && Outside(buffers.kmem.free, buffers.ps, buffers.large, sigma0, NODE_BYTES)
    }

    ghost predicate Housed()
      reads this`maps, this`roots, this`duals, this`shape, this`arrays, this`spare, buffers
    {
      && Owned(buffers.Live(), maps.Keys, duals.Keys, roots.Keys, arrays, spare, sigma0)
      && ArraysHeld(Store(maps, roots, duals), shape, arrays) && OneTop(shape, pgshifts, sigma0)
    }

    ghost predicate Valid()
      reads this, buffers, buffers.kmem
    {
      Linked() && Backed() && Housed()
    }

    /** The node that owns the whole address space, over an array of its largest pages. */
    constructor (pgshifts: seq<nat>, buffers: BufferAllocator, entries: map<nat, PageEntry>, sigma0: nat, dual: nat,
                 base: nat, rwx: nat)
      requires |pgshifts| >= 2 && IsNode(sigma0) && buffers.Valid() && SizesKnown(buffers.lists, pgshifts)
      requires Outside(buffers.kmem.free, buffers.ps, buffers.large, sigma0, NODE_BYTES)
      requires dual != base && buffers.Live() == map[base := ArrayBytes(pgshifts, |pgshifts| - 2)][dual := DUAL_BYTES]
      ensures Valid() && ForestsOk(View(), shape)
      ensures this.pgshifts == pgshifts && this.buffers == buffers && this.sigma0 == sigma0 && this.entries == entries
      ensures View() == InitStore(pgshifts, sigma0, dual, base, rwx) && shape == InitShape(pgshifts, sigma0, base)
      ensures spare == map[]
    {
      hide Inv, ArraysOk, ForestsOk, ArrayAddrs, ArraySize, Outside, LiveMap, InitStore, InitShape, Owned, SizesKnown,
        ArraysHeld, OneTop;
      this.pgshifts := pgshifts;
      this.buffers := buffers;
      this.sigma0 := sigma0;
      this.entries := entries;
      ghost var n := ArraySize(pgshifts, |pgshifts| - 2);
      maps := map[sigma0 := MapNode(SetBacklink(MapSlot(0), 0), 0, rwx, SetSpace(0), ToDual(dual))];
      duals := map[dual := Dual(0, base)];
      roots := map[];
      shape := InitShape(pgshifts, sigma0, base);
      arrays := map[base := n];
      spare := map[];
      new;
      CreateRoots(base, ArraySize(pgshifts, |pgshifts| - 2));
      InitHouse(buffers.kmem.mem, buffers.lists, buffers.ps, buffers.large, buffers.kmem.free, pgshifts, sigma0, dual,
                base);
      InitIs(pgshifts, sigma0, dual, base, rwx, View());
      InitOk(pgshifts, sigma0, dual, base, rwx);
      InitHeads(pgshifts, sigma0, dual, base, rwx);
      InitHeld(pgshifts, sigma0, dual, base, rwx);
    }

    /** `init_mdb`: set up the buffer lists, then the node that owns the whole address space; null if
        kernel memory is too small. */
    static method Init(kmem: Kmem.KernelMemory, pgshifts: seq<nat>, entries: map<nat, PageEntry>, sigma0: nat, rwx: nat)
      returns (db: Mdb?)
      requires kmem.Valid() && |pgshifts| >= 2 && Ascending(pgshifts)
      requires IsNode(sigma0) && Kmem.Apart(kmem.free, sigma0, NODE_BYTES)
      modifies kmem
      ensures db == null ==> Exhausted(kmem.free, pgshifts)
      ensures db != null ==> fresh(db) && fresh(db.buffers) && db.buffers.kmem == kmem
      ensures db != null ==> db.pgshifts == pgshifts && db.sigma0 == sigma0 && db.entries == entries
      ensures db != null ==> db.Valid() && ForestsOk(db.View(), db.shape) && db.spare == map[]
    {
      hide Inv, ArraysOk, ForestsOk, ArrayAddrs, ArraySize, Outside, LiveMap, InitStore, InitShape, Owned, SizesKnown,
        PoolsOk, InUse, Needed, NoFit, SameSizes, ClaimsNothing, ArraysHeld, OneTop;
      db := null;
      var sizes := BufferSizes(pgshifts);
      var buffers := new BufferAllocator(kmem, sizes);
      KnownSizes(buffers.lists, sizes, pgshifts);
      NothingLive(buffers.lists, buffers.ps, buffers.large);
      ghost var n := |pgshifts| - 2;
      ArrayNeeded(pgshifts, n);
      SmallNeeded(pgshifts);
      FirstOutside(kmem.free, buffers.ps, buffers.large, sigma0, NODE_BYTES);
      var base := NewBlock(buffers, pgshifts, ArraySize(pgshifts, |pgshifts| - 2) * 8, sigma0);
      if base == 0 {
        return;
      }
      var dual := NewBlock(buffers, pgshifts, DUAL_BYTES, sigma0);
      if dual == 0 {
        return;
      }
      db := new Mdb(pgshifts, buffers, entries, sigma0, dual, base, rwx);
    }

    /** A buffer of a size that has a list. */
    static method NewBlock(buffers: BufferAllocator, ghost pgshifts: seq<nat>, size: nat, ghost sigma0: nat)
      returns (a: nat)
      requires buffers.Valid() && SizesKnown(buffers.lists, pgshifts) && Needed(pgshifts, size)
      requires Outside(buffers.kmem.free, buffers.ps, buffers.large, sigma0, NODE_BYTES)
      modifies buffers, buffers.kmem
      ensures buffers.Valid() && SizesKnown(buffers.lists, pgshifts)
      ensures Outside(buffers.kmem.free, buffers.ps, buffers.large, sigma0, NODE_BYTES)
      ensures a == 0 ==> Exhausted(buffers.kmem.free, pgshifts) && buffers.Live() == old(buffers.Live())
      ensures a != 0 ==> a !in old(buffers.Live()) && buffers.Live() == old(buffers.Live())[a := size] && a != sigma0
    {
      hide Outside, LiveMap, SizesKnown, PoolsOk, InUse, Needed, NoFit, SameSizes, LiveDisjoint, ContentsKept;
      ghost var lists0, free := buffers.lists, buffers.kmem.free;
      KnownSize(buffers.lists, pgshifts, size);
      var r := buffers.AllocBuffer(size);
      SizesStayKnown(lists0, buffers.lists, pgshifts);
      if !r.Buffer? {
        NowExhausted(free, pgshifts, size);
        return 0;
      }
      a := r.addr;
      AllocatorApart(buffers.kmem.mem, buffers.lists, buffers.ps, buffers.large, buffers.kmem.free, sigma0);
      NeededAligned(pgshifts, size);
      NotSigma0(buffers.Live(), sigma0, a, a);
    }

    /* ---------- buffers ---------- */

    /** `mdb_alloc_buffer`; null if kernel memory has run out. */
    method NewBuffer(size: nat) returns (a: nat)
      requires Valid() && Needed(pgshifts, size)
      modifies this`spare, buffers, buffers.kmem
      ensures Valid()
      ensures a == 0 ==> spare == old(spare) && Exhausted(buffers.kmem.free, pgshifts)
      ensures a != 0 ==> a !in old(spare) && spare == old(spare)[a := size]
    {
      hide Inv, ArraysOk, Outside, LiveMap, Owned, SizesKnown, Needed, Exhausted, ArraysHeld, OneTop, ContentsKept;
      ghost var live := buffers.Live();
      a := NewBlock(buffers, pgshifts, size, sigma0);
      if a != 0 {
        BufferTaken(live, maps.Keys, duals.Keys, roots.Keys, arrays, spare, sigma0, a, size);
        spare := spare[a := size];
      }
    }

    /** `mdb_free_buffer` of a node or dual node. */
    method GiveBack(a: nat, size: nat)
      requires Backed() && a in buffers.Live() && buffers.Live()[a] == size && size < 4096
      modifies buffers, buffers.kmem
      ensures Backed() && buffers.Live() == old(buffers.Live()) - {a}
    {
      hide Outside, LiveMap, SizesKnown, PoolsOk, InUse, SameSizes, IsLive, ContentsKept;
      ghost var lists0 := buffers.lists;
      SmallIsLive(buffers.kmem.mem, buffers.lists, buffers.ps, buffers.large, buffers.kmem.free, a);
      buffers.FreeBuffer(a, size);
      SizesStayKnown(lists0, buffers.lists, pgshifts);
    }

    lemma {:induction false} LiveOk()
      requires Backed()
      ensures LiveDisjoint(buffers.Live(), sigma0)
    {
      hide Outside, LiveMap, SizesKnown, PoolsOk, InUse, LiveDisjoint;
      AllocatorApart(buffers.kmem.mem, buffers.lists, buffers.ps, buffers.large, buffers.kmem.free, sigma0);
    }

    /** A spare buffer overlaps no node. */
    lemma {:induction false} SpareNode(x: nat)
      requires Valid() && x in spare && spare[x] % 4 == 0 && spare[x] > 0
      ensures Fresh(View(), x)
    {
      hide Linked, Backed, LiveMap, Owned, LiveDisjoint, Fresh, ArraysHeld, OneTop;
      LiveOk();
      SpareAligned(buffers.Live(), maps.Keys, duals.Keys, roots.Keys, arrays, spare, sigma0, x);
      SpareFresh(buffers.Live(), View(), arrays, spare, sigma0, x, x);
    }

    lemma {:induction false} SpareArray(x: nat, n: nat)
      requires Valid() && x in spare && spare[x] == 8 * n && n > 0
      ensures FreshBlock(View(), ArrayAddrs(x, n)) && IsNode(x)
    {
      hide Linked, Backed, LiveMap, Owned, LiveDisjoint, ArrayAddrs, ArraysHeld, OneTop;
      LiveOk();
      SpareBlock(buffers.Live(), View(), arrays, spare, sigma0, x, n);
      FirstInArray(x, n);
    }

    lemma {:induction false} NoSpareNull()
      requires Valid()
      ensures 0 !in spare
    {
      hide Linked, Backed, LiveMap, LiveIs, ArraysHeld, OneTop;
      LiveOk();
      HomesAt(buffers.Live(), maps.Keys, duals.Keys, roots.Keys, arrays, spare, sigma0);
    }

    /** Nothing leaks, nothing dangles and nothing is shared: what the slots reached from sigma0 lead to
        is live, all other live buffers are spare, and no two slots lead to the same thing. */
    lemma {:induction false} NothingLeaks(a: nat)
      requires Valid()
      ensures a in buffers.Live() <==> a in spare || exists s :: HoldsReached(View(), arrays, sigma0, s, a)
      ensures forall s, t ::
        HoldsReached(View(), arrays, sigma0, s, a) && HoldsReached(View(), arrays, sigma0, t, a) ==> s == t
    {
      hide Inv, ArraysOk, Backed, ArraysHeld, OneTop, Owned, LiveMap, Holds, Reachable, Exists;
      ghost var live := buffers.Live();
      LiveIsReached(live, View(), shape, pgshifts, arrays, spare, sigma0, a);
      forall s, t | HoldsReached(View(), arrays, sigma0, s, a) && HoldsReached(View(), arrays, sigma0, t, a)
        ensures s == t
      {
        HeldOnce(live, View(), shape, pgshifts, arrays, spare, sigma0, s, t, a);
      }
    }

    /** The node that owns the whole address space has no page-table entry. */
    lemma {:induction false} NoTopEntry()
      requires Valid()
      ensures sigma0 !in shape.pg
    {
      hide Linked, Backed, Owned, ArraysHeld;
    }

    /* ---------- next pointers ---------- */

    /** `set_next` and `set_ptr`. */
    method SetField(s: Slot, n: Next)
      requires Exists(View(), s)
      modifies this`maps, this`roots
      ensures View() == WithField(old(View()), s, n)
    {
      match s
      case MapSlot(a) => maps := maps[a := maps[a].(next := n)];
      case RootSlot(a) => roots := roots[a := n];
    }

    /** Fixup of the previous slot's next pointer when `x` is hooked in. */
    method LinkTo(prev: Slot, x: nat, dualbuf: nat)
      requires Exists(View(), prev)
      modifies this`maps, this`roots, this`duals
      ensures View() == LinkedTo(old(View()), prev, x, dualbuf)
    {
      var n := Field(View(), prev);
      if n.isRoot && !n.isMap {
        duals := duals[dualbuf := Dual(x, NextRoot(n, duals))];
        SetField(prev, ToDual(dualbuf));
      } else if IsBoth(n) && Target(n) in duals {
        duals := duals[Target(n) := duals[Target(n)].(map_ := x)];
      } else {
        SetField(prev, ToMap(x));
      }
    }

    /** Fixup of the previous slot's next pointer when the node before `nmap` is taken out. */
    method UnlinkTo(prev: Slot, nmap: nat)
      requires Exists(View(), prev) && Field(View(), prev).isMap && DualOk(View(), prev) && Backed()
      requires forall d :: d in LeftOver(View(), prev, nmap) ==> d in buffers.Live() && buffers.Live()[d] == DUAL_BYTES
      modifies this`maps, this`roots, this`duals, buffers, buffers.kmem
      ensures View() == UnlinkedTo(old(View()), prev, nmap)
      ensures Backed() && buffers.Live() == old(buffers.Live()) - LeftOver(old(View()), prev, nmap)
    {
      hide Outside, LiveMap, SizesKnown, Target;
      var n := Field(View(), prev);
      if !n.isRoot || Target(n) !in duals {
        SetField(prev, ToMap(nmap));
      } else {
        var dual := Target(n);
        if nmap != 0 {
          duals := duals[dual := duals[dual].(map_ := nmap)];
        } else {
          // The mapping was the only one
          var root := duals[dual].root;
          duals := duals - {dual};
          SetField(prev, ToRoot(root));
          GiveBack(dual, DUAL_BYTES);
        }
      }
    }

    /* ---------- mdb_map ---------- */

    /** The stores that link a new node in. */
    method StoreNode(prev: Slot, x: nat, node: MapNode, dual: nat, nmap: nat)
      requires Exists(View(), prev)
      modifies this`maps, this`roots, this`duals
      ensures View() == HookStore(old(View()), prev, x, node, dual, nmap)
    {
      hide LinkedTo, SetBacklink, GetPgent;
      maps := maps[x := node];
      LinkTo(prev, x, dual);
      if nmap != 0 && nmap in maps {
        maps := maps[nmap := maps[nmap].(back := SetBacklink(MapSlot(x), GetPgent(maps[nmap].back, prev.addr)))];
      }
    }

    /** Hook a new node in below `prev`, as its list's next node: kernel/src/generic/mapping.cc
        lines 229-246 for a mapping node and 296-319 for a root node.  The reference bits of the new
        node are whatever its buffer held; `dual` is the dual node, if one is needed. */
    method HookNode(ghost h: Slot, ghost i: nat, prev: Slot, x: nat, t_pg: nat, t_space: nat, depth: nat, rwx: nat,
                    dual: nat)
      requires Valid() && h in shape.chains && i <= |shape.chains[h]| && prev == At(h, shape.chains[h], i)
      requires x in spare && spare[x] == NODE_BYTES && DualTaken(View(), prev, dual, spare)
      requires IsEntry(t_pg) && t_pg in entries && t_pg !in shape.pg.Values
      modifies this`maps, this`roots, this`duals, this`shape, this`spare
      ensures Valid() && shape == HookShape(old(shape), h, i, x, t_pg) && spare == old(spare) - {x, dual}
      ensures NewNode(old(View()), View(), x, SetDepth(depth), SetSpace(t_space)) && SameRoots(old(View()), View())
    {
      hide Inv, ArraysOk, HookStore, Field, MapOf, RootOf, SetBacklink, HookShape, ToMap, Owned, Backed, LiveMap,
        ArraysHeld, OneTop;
      ghost var st, sh := View(), shape;
      HookPosition(st, sh, h, i, prev);
      HookBuffers(prev, x, dual);
      FreshSlot(st, sh, x);
      var nmap := MapOf(View(), prev);
      var node := MapNode(SetBacklink(prev, t_pg), SetDepth(depth), rwx, SetSpace(t_space), ToMap(nmap));
      HookWhole(st, sh, pgshifts, h, i, prev, x, node, dual, t_pg);
      StoreNode(prev, x, node, dual, nmap);
      shape := HookShape(shape, h, i, x, t_pg);
      HookShapePg(sh, h, i, x, t_pg);
      spare := spare - {x, dual};
      ArraysHooked(st, View(), sh, arrays, h, i, x, t_pg);
      TopHooked(sh, pgshifts, sigma0, h, i, x, t_pg);
    }

    /** The buffers of a new node and its dual node, before and after they are linked in. */
    lemma {:induction false} HookBuffers(prev: Slot, x: nat, dual: nat)
      requires Valid() && x in spare && spare[x] == NODE_BYTES && DualTaken(View(), prev, dual, spare)
      ensures Fresh(View(), x) && DualReady(View(), dual, NeedsDual(View(), prev)) && x != dual && x != sigma0
      ensures Owned(buffers.Live(), maps.Keys + {x}, duals.Keys + (if NeedsDual(View(), prev) then {dual} else {}),
                    roots.Keys,
                    arrays, spare - {x, dual}, sigma0)
    {
      hide Inv, ArraysOk, Backed, Owned, NeedsDual, ArraysHeld, OneTop;
      SpareNode(x);
      if NeedsDual(View(), prev) { SpareNode(dual); } else { NoSpareNull(); }
      ghost var ds := if NeedsDual(View(), prev) then {dual} else {};
      OwnedApart(buffers.Live(), maps.Keys, duals.Keys, roots.Keys, arrays, spare, sigma0);
      NodeHoused(buffers.Live(), maps.Keys, duals.Keys, roots.Keys, arrays, spare, sigma0, x, ds);
      assert spare - {x} - ds == spare - {x, dual};
    }

    /** The same with the dual node taken from the allocator; fails if there is no memory for it. */
    method HookBelow(ghost h: Slot, ghost i: nat, prev: Slot, x: nat, t_pg: nat, t_space: nat, depth: nat, rwx: nat)
      returns (ok: bool)
      requires Valid() && h in shape.chains && i <= |shape.chains[h]| && prev == At(h, shape.chains[h], i)
      requires x in spare && spare[x] == NODE_BYTES
      requires IsEntry(t_pg) && t_pg in entries && t_pg !in shape.pg.Values
      modifies this, buffers, buffers.kmem
      ensures Valid() && entries == old(entries) && arrays == old(arrays)
      ensures !ok ==> View() == old(View()) && shape == old(shape) && spare == old(spare)
                      && Exhausted(buffers.kmem.free, pgshifts)
      ensures ok ==> shape == HookShape(old(shape), h, i, x, t_pg) && spare == old(spare) - {x}
      ensures ok ==>
        NewNode(old(View()), View(), x, SetDepth(depth), SetSpace(t_space)) && SameRoots(old(View()), View())
    {
      hide Inv, ArraysOk, RootOf, HookShape, Backed, Housed, Exhausted, Needed;
      HookPosition(View(), shape, h, i, prev);
      NoSpareNull();
      var n, dual := Field(View(), prev), 0;
      if n.isRoot && !n.isMap {
        SmallNeeded(pgshifts);
        dual := NewBuffer(DUAL_BYTES);
        if dual == 0 {
          return false;
        }
      }
      HookNode(h, i, prev, x, t_pg, t_space, depth, rwx, dual);
      assert spare == old(spare) - {x};
      ok := true;
    }

    /** `remove_map`, for either kind of predecessor. */
    method RemoveMap(ghost h: Slot, ghost i: nat, prev: Slot, cmap: nat)
      requires Valid() && h in shape.chains && i < |shape.chains[h]| && prev == At(h, shape.chains[h], i)
      requires cmap == shape.chains[h][i] && RootOf(View(), MapSlot(cmap)) == 0
      modifies this, buffers, buffers.kmem
      ensures Valid() && entries == old(entries) && shape == UnhookShape(old(shape), h, i)
      ensures arrays == old(arrays) && spare == old(spare)
      ensures NodeGone(old(View()), View(), cmap)
    {
      hide Inv, ArraysOk, UnhookStore, Owned, Backed, LeftOver, Field, MapOf, RootOf, DualOk, LiveMap, UnhookShape,
        ArraysHeld, OneTop;
      ghost var st, sh := View(), shape;
      TopHead(sh, pgshifts, sigma0);
      RemovedNode(st, sh, h, i, sigma0);
      UnhookWhole(st, sh, pgshifts, h, i, prev);
      var nmap := MapOf(View(), MapSlot(cmap));
      UnhookBuffers(cmap, LeftOver(st, prev, nmap));
      DropNode(prev, cmap, nmap);
      shape := UnhookShape(shape, h, i);
      UnhookShapePg(sh, h, i);
      ArraysUnhooked(st, View(), sh, arrays, h, i);
      TopUnhooked(sh, pgshifts, sigma0, h, i);
    }

    /** The stores that take a node out; its buffer is freed, and so is a dual node left over. */
    method DropNode(prev: Slot, cmap: nat, nmap: nat)
      requires Exists(View(), prev) && Field(View(), prev).isMap && DualOk(View(), prev) && Backed()
      requires forall d :: d in LeftOver(View(), prev, nmap) ==> d in buffers.Live() && buffers.Live()[d] == DUAL_BYTES
      requires cmap in buffers.Live() - LeftOver(View(), prev, nmap) && buffers.Live()[cmap] == NODE_BYTES
      modifies this`maps, this`roots, this`duals, buffers, buffers.kmem
      ensures View() == UnhookStore(old(View()), prev, cmap, nmap)
      ensures Backed() && buffers.Live() == old(buffers.Live()) - LeftOver(old(View()), prev, nmap) - {cmap}
    {
      hide UnlinkedTo, Backed, LeftOver, Field, SetBacklink, GetPgent, DualOk, LiveMap;
      UnlinkTo(prev, nmap);
      GiveBack(cmap, NODE_BYTES);
      maps := maps - {cmap};
      if nmap != 0 && nmap in maps {
        maps := maps[nmap := maps[nmap].(back := SetBacklink(prev, GetPgent(maps[nmap].back, cmap)))];
      }
    }

    /** The buffers of a node and of the dual node left over, before and after they are freed. */
    lemma {:induction false} UnhookBuffers(x: nat, ds: set<nat>)
      requires Valid() && x in maps && x != sigma0 && ds <= duals.Keys
      ensures x in buffers.Live() - ds && buffers.Live()[x] == NODE_BYTES
      ensures forall d :: d in ds ==> d in buffers.Live() && buffers.Live()[d] == DUAL_BYTES
      ensures Owned(buffers.Live() - ds - {x}, maps.Keys - {x}, duals.Keys - ds, roots.Keys, arrays, spare, sigma0)
    {
      hide Inv, ArraysOk, Backed, LiveIs, RootsInArrays, KindsApart, LiveMap, ArraysHeld, OneTop;
      ghost var live := buffers.Live();
      HomesAt(live, maps.Keys, duals.Keys, roots.Keys, arrays, spare, sigma0);
      NodeNotDual(live, maps.Keys, duals.Keys, roots.Keys, arrays, spare, sigma0, x);
      NodeFreed(live, maps.Keys, duals.Keys, roots.Keys, arrays, spare, sigma0, x, ds);
      assert live - ds - {x} == live - {x} - ds;
    }

    /** A grant keeps the node and gives it to another space and page-table entry.  The node that owns the
        whole address space is in no list: its backlink is lost. */
    method Grant(ghost h: Slot, ghost i: nat, f_map: nat, f_pg: nat, t_pg: nat, t_space: nat)
      requires Valid() && h in shape.chains && i <= |shape.chains[h]| && MapSlot(f_map) == At(h, shape.chains[h], i)
      requires i > 0 ==> f_map in shape.pg && f_pg == shape.pg[f_map]
      requires IsEntry(t_pg) && t_pg in entries && t_pg !in shape.pg.Values
      modifies this`maps, this`shape
      ensures Valid() && (i == 0 <==> f_map == sigma0) && f_map in old(maps)
      ensures shape == if i > 0 then old(shape).(pg := old(shape).pg[f_map := t_pg]) else old(shape)
      ensures var node := old(maps)[f_map];
              maps == old(maps)[f_map := node.(back := SetBacklink(GetPrev(node.back, f_pg), t_pg),
                                               space := SetSpace(t_space))]
      ensures i > 0 ==> GetPrev(maps[f_map].back, t_pg) == GetPrev(old(maps)[f_map].back, f_pg)
                        == At(h, shape.chains[h], i - 1)
    {
      hide Inv, ArraysOk, SetBacklink, GetPrev, Field, Backed, Owned, ArraysHeld, OneTop, RootOf;
      ghost var st, sh := View(), shape;
      FromExists(st, sh, h, i, f_map);
      TopOnly(st, sh, pgshifts, sigma0, h, i);
      var back := SetBacklink(GetPrev(maps[f_map].back, f_pg), t_pg);
      if i > 0 {
        BacklinksDecode(st, sh, h, i - 1);
        GrantKeepsInv(st, sh, pgshifts, h, i - 1, t_pg, SetSpace(t_space));
        PredecessorKept(st, sh, h, i - 1, t_pg);
      } else {
        GrantHeadKeepsInv(st, sh, pgshifts, f_map, back, SetSpace(t_space));
      }
      maps := maps[f_map := maps[f_map].(back := back)];
      maps := maps[f_map := maps[f_map].(space := SetSpace(t_space))];
      assert View() == GrantStore(st, f_map, back, SetSpace(t_space));
      if i > 0 {
        shape := shape.(pg := shape.pg[f_map := t_pg]);
      }
      assert maps.Keys == old(maps.Keys);
      GrantRoots(st, f_map, back, SetSpace(t_space));
      ArraysSame(st, View(), sh, shape, arrays);
      TopSame(sh, shape, pgshifts, sigma0, f_map);
    }

    /** Mapping a page of the same size: the new node becomes the first child of `f_map`.  Fails if
        there is no memory for a dual node. */
    method MapSameSize(ghost h: Slot, ghost i: nat, f_map: nat, t_pg: nat, t_space: nat, rwx: nat, newmap: nat)
      returns (ok: bool)
      requires Valid() && h in shape.chains && i <= |shape.chains[h]| && MapSlot(f_map) == At(h, shape.chains[h], i)
      requires newmap in spare && spare[newmap] == NODE_BYTES
      requires IsEntry(t_pg) && t_pg in entries && t_pg !in shape.pg.Values
      modifies this, buffers, buffers.kmem
      ensures Valid() && entries == old(entries) && arrays == old(arrays)
      ensures !ok ==> View() == old(View()) && shape == old(shape) && spare == old(spare)
                      && Exhausted(buffers.kmem.free, pgshifts)
      ensures ok ==> shape == HookShape(old(shape), h, i, newmap, t_pg) && spare == old(spare) - {newmap}
      ensures ok ==> NewNode(old(View()), View(), newmap, BelowDepth(old(View()), f_map), SetSpace(t_space))
      ensures ok ==> SameRoots(old(View()), View())
      ensures ok && i > 0 ==> DepthInserted(old(View()), old(shape), View(), shape, h, i - 1, newmap)
      ensures ForestsOk(old(View()), old(shape)) && ok && DepthLeft(old(View()), f_map) ==>
        ForestsOk(View(), shape) && LeafAdded(old(View()), old(shape), View(), shape, h, i, newmap)
    {
      hide Inv, ArraysOk, ForestsOk, RootOf, Backed, Housed, Exhausted, LeafAdded, NewNode, SameRoots, HookShape,
        DepthInserted, Depths;
      ghost var st, sh := View(), shape;
      FromExists(st, sh, h, i, f_map);
      ok := HookBelow(h, i, MapSlot(f_map), newmap, t_pg, t_space, maps[f_map].depth + 1, rwx);
      if ok {
        InvLists(View(), shape);
        SameSizeDone(st, View(), sh, h, i, f_map, newmap, t_pg, SetSpace(t_space));
      }
    }

    /** The stores of `mdb_create_roots`: root nodes that lead nowhere. */
    method CreateRoots(base: nat, num: nat)
      modifies this`roots
      ensures roots == old(roots) + EmptyRoots(ArrayAddrs(base, num))
    {
      hide ArrayAddrs, EmptyRoots;
      NoRoots(roots, base);
      for k := 0 to num
        invariant roots == old(roots) + EmptyRoots(ArrayAddrs(base, k))
      {
        ArrayGrows(old(roots), base, k);
        roots := roots[base + 8 * k := ToMap(0)];
      }
    }

    /** `mdb_create_roots` and the stores that link the array in. */
    method StoreArray(s: Slot, base: nat, num: nat, dual: nat)
      requires Exists(View(), s)
      modifies this`maps, this`roots, this`duals
      ensures View() == AttachStore(old(View()), s, base, ArrayAddrs(base, num), dual)
    {
      hide ArrayAddrs, EmptyRoots, MapOf;
      ghost var st := View();
      var nmap := MapOf(View(), s);
      CreateRoots(base, num);
      RootsKeepSlot(st, View(), s);
      if nmap != 0 {
        duals := duals[dual := Dual(nmap, base)];
        SetField(s, ToDual(dual));
      } else {
        SetField(s, ToRoot(base));
      }
    }

    /** Insert a new array below a slot that has none. */
    method AttachArray(ghost h: Slot, ghost i: nat, s: Slot, p: nat, base: nat, dual: nat)
      requires Valid() && h in shape.chains && i <= |shape.chains[h]| && s == At(h, shape.chains[h], i)
      requires h in shape.level && shape.level[h].size == p + 1 < |pgshifts| && RootOf(View(), s) == 0
      requires base in spare && spare[base] == 8 * ArraySize(pgshifts, p) && base != dual
      requires if MapOf(View(), s) != 0 then dual in spare && spare[dual] == DUAL_BYTES else dual == 0
      modifies this`maps, this`roots, this`duals, this`shape, this`arrays, this`spare
      ensures Valid() && spare == old(spare) - {base, dual} && IsNode(base)
      ensures var addrs := ArrayAddrs(base, ArraySize(pgshifts, p));
              && shape == AttachShape(old(shape), addrs, Level(p, Below(old(View()), old(shape).level[h], s)))
              && Attached(old(View()), View(), s, base, addrs)
    {
      hide Inv, ArraysOk, Attached, AddressesOk, DualsOk, ArrayAddrs, ArraySize, Owned, Backed, MapOf, RootOf,
        AttachShape,
        AttachStore, LiveMap, ArraysHeld, OneTop;
      ghost var st, sh := View(), shape;
      ghost var n := ArraySize(pgshifts, p);
      ghost var addrs := ArrayAddrs(base, n);
      AttachBuffers(base, n, dual, MapOf(st, s) != 0);
      HookPosition(st, sh, h, i, s);
      HeadLevel(st, sh, h);
      AttachAttaches(st, s, base, addrs, dual);
      ghost var lv := Level(p, Below(st, sh.level[h], s));
      AttachKeepsInv(st, AttachStore(st, s, base, addrs, dual), sh, pgshifts, h, i, base, lv);
      StoreArray(s, base, ArraySize(pgshifts, p), dual);
      shape := AttachShape(shape, addrs, lv);
      AttachedView(st, View(), s, base, addrs);
      SlotInList(sh, h, i, s);
      AttachFresh(st, sh, View(), s, base, addrs);
      ArraysAttached(st, View(), sh, arrays, h, s, base, n, lv);
      arrays, spare := arrays[base := n], spare - {base, dual};
      HeadsAttached(sh, addrs, lv);
      TopAttached(sh, pgshifts, sigma0, addrs, lv);
    }

    /** The buffers of a new array and its dual node, before and after they are linked in. */
    lemma {:induction false} AttachBuffers(base: nat, n: nat, dual: nat, needed: bool)
      requires Valid() && base in spare && spare[base] == 8 * n && n > 0 && base != dual
      requires if needed then dual in spare && spare[dual] == DUAL_BYTES else dual == 0
      ensures FreshBlock(View(), ArrayAddrs(base, n)) && IsNode(base) && DualReady(View(), dual, needed)
      ensures base !in arrays
      ensures Owned(buffers.Live(), maps.Keys, duals.Keys + (if needed then {dual} else {}),
                    roots.Keys + ArrayAddrs(base, n),
                    arrays[base := n], spare - {base, dual}, sigma0)
    {
      hide Inv, ArraysOk, Backed, Owned, ArraysHeld, OneTop;
      SpareArray(base, n);
      if needed { SpareNode(dual); } else { NoSpareNull(); }
      ghost var ds := if needed then {dual} else {};
      OwnedApart(buffers.Live(), maps.Keys, duals.Keys, roots.Keys, arrays, spare, sigma0);
      ArrayHoused(buffers.Live(), maps.Keys, duals.Keys, roots.Keys, arrays, spare, sigma0, base, n, ds);
      assert spare - {base} - ds == spare - {base, dual};
    }

    /** The same with buffers taken from the allocator; null if there is no memory. */
    method AttachRoots(ghost h: Slot, ghost i: nat, s: Slot, p: nat) returns (base: nat)
      requires Valid() && h in shape.chains && i <= |shape.chains[h]| && s == At(h, shape.chains[h], i)
      requires h in shape.level && shape.level[h].size == p + 1 < |pgshifts| && RootOf(View(), s) == 0
      modifies this, buffers, buffers.kmem
      ensures Valid() && entries == old(entries)
      ensures base == 0 ==> View() == old(View()) && shape == old(shape) && KeepsSpare(old(spare), spare)
                            && Exhausted(buffers.kmem.free, pgshifts)
      ensures base != 0 ==> spare == old(spare) && IsNode(base)
      ensures base != 0 ==>
        var addrs := ArrayAddrs(base, ArraySize(pgshifts, p));
        && shape == AttachShape(old(shape), addrs, Level(p, Below(old(View()), old(shape).level[h], s)))
        && Attached(old(View()), View(), s, base, addrs)
    {
      hide Inv, ArraysOk, Attached, ArrayAddrs, ArraySize, Housed, Backed, Exhausted, Needed, AttachShape, MapOf,
        RootOf;
      NoSpareNull();
      ArrayNeeded(pgshifts, p);
      base := NewBuffer(8 * ArraySize(pgshifts, p));
      if base == 0 {
        return;
      }
      var dual := 0;
      if MapOf(View(), s) != 0 {
        SmallNeeded(pgshifts);
        dual := NewBuffer(DUAL_BYTES);
        if dual == 0 {
          return 0;
        }
      }
      AttachArray(h, i, s, p, base, dual);
      assert spare == old(spare);
    }

    /** The array of a slot, made if there is none; null if there is no memory for it. */
    method NeedRoots(ghost h: Slot, ghost i: nat, s: Slot, p: nat) returns (root: nat, created: bool)
      requires Valid() && h in shape.chains && i <= |shape.chains[h]| && s == At(h, shape.chains[h], i)
      requires h in shape.level && shape.level[h].size == p + 1 < |pgshifts|
      modifies this, buffers, buffers.kmem
      ensures Valid() && entries == old(entries) && (root != 0 ==> root == RootOf(View(), s))
      ensures created ==> RootOf(old(View()), s) == 0 && root != 0
      ensures !created ==> View() == old(View()) && shape == old(shape) && KeepsSpare(old(spare), spare)
      ensures root == 0 ==> Exhausted(buffers.kmem.free, pgshifts)
      ensures root != 0 ==> spare == old(spare)
      ensures created ==>
        var addrs := ArrayAddrs(root, ArraySize(pgshifts, p));
        && shape == AttachShape(old(shape), addrs, Level(p, Below(old(View()), old(shape).level[h], s)))
        && Attached(old(View()), View(), s, root, addrs)
    {
      hide Inv, ArraysOk, AddressesOk, DualsOk, ArrayAddrs, ArraySize, AttachShape, Backed, Housed,
        Exhausted;
      root, created := RootOf(View(), s), false;
      if root == 0 {
        root := AttachRoots(h, i, s, p);
        created := root != 0;
      }
    }

    /** Mapping a smaller page: descend through the arrays, making the missing ones, and put the new
        node at the head of the root node that the bits of `f_addr` select.  When memory runs out, at
        most empty arrays have been added. */
    method MapSmaller(ghost h: Slot, ghost i: nat, f_map: nat, f_pgsize: nat, f_addr: nat, t_pg: nat, t_pgsize: nat,
                      t_space: nat, rwx: nat, newmap: nat)
      returns (ok: bool, ghost path: seq<Slot>)
      requires Valid() && h in shape.chains && i <= |shape.chains[h]| && MapSlot(f_map) == At(h, shape.chains[h], i)
      requires h in shape.level && shape.level[h].size == f_pgsize && t_pgsize < f_pgsize < |pgshifts|
      requires IsEntry(t_pg) && t_pg in entries && t_pg !in shape.pg.Values
      requires newmap in spare && spare[newmap] == NODE_BYTES
      modifies this, buffers, buffers.kmem
      ensures Valid() && entries == old(entries)
      ensures !ok ==> Grown(old(View()), old(shape), View(), shape, path) && KeepsSpare(old(spare), spare)
                      && Exhausted(buffers.kmem.free, pgshifts)
      ensures ok ==> spare == old(spare) - {newmap} && shape.pg == old(shape).pg[newmap := t_pg]
      ensures ok ==> |path| == f_pgsize - t_pgsize + 1
      ensures ok ==> NewNode(old(View()), View(), newmap, BelowDepth(old(View()), f_map), SetSpace(t_space))
      ensures ok ==> PutBelow(old(View()), old(shape), View(), shape, pgshifts, f_map, f_pgsize, f_addr, path, newmap)
      ensures ForestsOk(old(View()), old(shape)) && (ok ==> DepthLeft(old(View()), f_map)) ==> ForestsOk(View(), shape)
      ensures ForestsOk(old(View()), old(shape)) && ok && DepthLeft(old(View()), f_map) ==>
        LeafAdded(old(View()), old(shape), View(), shape, path[|path| - 1], 0, newmap)
    {
      hide Inv, ArraysOk, ArraySize, ArrayAddrs, Index, Attached, OnTheWay, ForestsOk, RootOf, Descent, Backed, Housed,
        Exhausted, Grown, LeafAdded,
        NewNode, PutBelow, SameRoots, HookShape;
      var s, p := MapSlot(f_map), f_pgsize;
      ghost var g: Slot, k: nat := h, i;
      path := [s];
      ghost var st0, sh0 := View(), shape;
      OnTheWayStart(st0, sh0, pgshifts, f_map, f_pgsize, f_addr, h, i);
      while p > t_pgsize
        invariant t_pgsize <= p <= f_pgsize
        invariant Valid() && entries == old(entries) && spare == old(spare)
        invariant OnTheWay(st0, sh0, View(), shape, pgshifts, f_map, f_pgsize, f_addr, path, g, k, p)
        invariant path != [] && s == path[|path| - 1]
      {
        p := p - 1;
        ghost var st, sh := View(), shape;
        OnTheWayHere(st0, sh0, st, sh, pgshifts, f_map, f_pgsize, f_addr, path, g, k, p + 1);
        var root, created := NeedRoots(g, k, s, p);
        if root == 0 {
          MapSmallerFails(st0, sh0, View(), shape, pgshifts, f_map, f_pgsize, f_addr, path, g, k, p + 1);
          return false, path;
        }
        if created {
          ghost var addrs := ArrayAddrs(root, ArraySize(pgshifts, p));
          OnTheWayAttach(st0, sh0, st, sh, View(), shape, pgshifts, f_map, f_pgsize, f_addr, path, g, k, p + 1, root,
                         addrs,
                         Level(p, Below(st, sh.level[g], s)));
        }
        OnTheWayStep(st0, sh0, View(), shape, pgshifts, f_map, f_pgsize, f_addr, path, g, k, p);
        s := RootSlot(root + 8 * Index(pgshifts, p, f_addr));
        g, k := s, 0;
        path := path + [s];
      }
      OnTheWayHere(st0, sh0, View(), shape, pgshifts, f_map, f_pgsize, f_addr, path, g, k, p);
      ghost var st1, sh1 := View(), shape;
      ok := HookBelow(s, 0, s, newmap, t_pg, t_space, maps[f_map].depth + 1, rwx);
      if ok {
        InvLists(View(), shape);
        HookShapePg(sh1, s, 0, newmap, t_pg);
        MapSmallerDone(st0, sh0, st1, sh1, View(), pgshifts, f_map, f_pgsize, f_addr, path, s, p, newmap, t_pg,
                       SetSpace(t_space));
      } else {
        MapSmallerFails(st0, sh0, View(), shape, pgshifts, f_map, f_pgsize, f_addr, path, g, k, p);
      }
    }

    /** `mdb_map` once the page sizes are known; null if memory has run out. */
    method MapNew(ghost h: Slot, ghost i: nat, f_map: nat, f_pgsize: nat, f_addr: nat, t_pg: nat, t_pgsize: nat,
                  t_space: nat, rwx: nat)
      returns (node: nat, ghost path: seq<Slot>)
      requires Valid() && h in shape.chains && i <= |shape.chains[h]| && MapSlot(f_map) == At(h, shape.chains[h], i)
      requires IsEntry(t_pg) && t_pg in entries && t_pg !in shape.pg.Values
      requires h in shape.level && shape.level[h].size == f_pgsize && t_pgsize <= f_pgsize < |pgshifts|
      modifies this, buffers, buffers.kmem
      ensures Valid() && entries == old(entries)
      ensures node == 0 ==> Exhausted(buffers.kmem.free, pgshifts)
                            && Grown(old(View()), old(shape), View(), shape, path) && KeepsSpare(old(spare), spare)
      ensures node != 0 ==> |path| == f_pgsize - t_pgsize + 1 && path[0] == MapSlot(f_map)
      ensures node != 0 ==> shape.pg == old(shape).pg[node := t_pg] && spare == old(spare)
      ensures node != 0 ==> NewNode(old(View()), View(), node, BelowDepth(old(View()), f_map), SetSpace(t_space))
      ensures node != 0 && f_pgsize == t_pgsize ==>
        shape == HookShape(old(shape), h, i, node, t_pg) && SameRoots(old(View()), View())
      ensures node != 0 && f_pgsize > t_pgsize ==>
        PutBelow(old(View()), old(shape), View(), shape, pgshifts, f_map, f_pgsize, f_addr, path, node)
      ensures ForestsOk(old(View()), old(shape)) && (node != 0 ==> DepthLeft(old(View()), f_map)) ==>
        ForestsOk(View(), shape)
      ensures ForestsOk(old(View()), old(shape)) && node != 0 && DepthLeft(old(View()), f_map) ==>
        if f_pgsize == t_pgsize then LeafAdded(old(View()), old(shape), View(), shape, h, i, node)
        else LeafAdded(old(View()), old(shape), View(), shape, path[|path| - 1], 0, node)
    {
      hide Inv, ArraysOk, ForestsOk, RootOf, Descent, PutAtHead, HookShape, Backed, Housed, Exhausted, Grown, LeafAdded,
        Needed, NewNode, PutBelow, SameRoots;
      ghost var st, sh := View(), shape;
      FromExists(st, sh, h, i, f_map);
      SmallNeeded(pgshifts);
      NoSpareNull();
      path := [MapSlot(f_map)];
      node := NewBuffer(NODE_BYTES);
      GrownSelf(st, sh, path);
      if node == 0 {
        return;
      }
      var ok;
      if f_pgsize == t_pgsize {
        ok := MapSameSize(h, i, f_map, t_pg, t_space, rwx, node);
        if ok { HookShapePg(sh, h, i, node, t_pg); }
      } else {
        ok, path := MapSmaller(h, i, f_map, f_pgsize, f_addr, t_pg, t_pgsize, t_space, rwx, node);
        if ok { PathHead(st, sh, View(), shape, pgshifts, f_map, f_pgsize, f_addr, path, node); }
      }
      if ok {
        assert spare == old(spare);
      } else {
        node := 0;
      }
    }

    /** `mdb_map`: a grant hands the node on, a page of the same size becomes a child, and a smaller page
        is put at the head of the root node that the address selects.  Null stands for the kernel
        having run out of memory. */
    method MdbMap(ghost h: Slot, ghost i: nat, f_map: nat, f_pg: nat, f_shift: nat, f_addr: nat, t_pg: nat,
                  t_shift: nat, t_space: nat, grant: bool, rwx: nat)
      returns (node: nat, ghost path: seq<Slot>)
      requires Valid() && h in shape.chains && i <= |shape.chains[h]| && MapSlot(f_map) == At(h, shape.chains[h], i)
      requires IsEntry(t_pg) && t_pg in entries && t_pg !in shape.pg.Values
      requires grant && i > 0 ==> f_map in shape.pg && f_pg == shape.pg[f_map]
      requires h in shape.level && FirstAtLeast(pgshifts, f_shift, shape.level[h].size)
      requires t_shift <= f_shift
      modifies this, buffers, buffers.kmem
      ensures Valid() && entries == old(entries)
      ensures node == 0 ==> Exhausted(buffers.kmem.free, pgshifts) && !grant
                            && Grown(old(View()), old(shape), View(), shape, path) && KeepsSpare(old(spare), spare)
      ensures node != 0 ==> spare == old(spare)
      ensures node != 0 && (!grant || i > 0) ==> shape.pg == old(shape).pg[node := t_pg]
      ensures grant ==> node == f_map && shape.chains == old(shape).chains && path == [] && f_map in old(maps)
      ensures grant ==>
        && maps == old(maps)[f_map := old(maps)[f_map].(back := SetBacklink(GetPrev(old(maps)[f_map].back, f_pg), t_pg),
                                                        space := SetSpace(t_space))]
        && (i > 0 ==> GetPrev(maps[f_map].back, t_pg) == At(h, shape.chains[h], i - 1))
      ensures grant ==> (f_map in shape.pg && shape.pg[f_map] == t_pg <==> f_map != sigma0)
      ensures grant && f_map == sigma0 ==> shape == old(shape)
      ensures !grant && node != 0 ==>
        && path != [] && path[0] == MapSlot(f_map)
        && NewNode(old(View()), View(), node, BelowDepth(old(View()), f_map), SetSpace(t_space))
      ensures !grant && node != 0 && |path| == 1 ==>
        && FirstAtLeast(pgshifts, t_shift, old(shape).level[h].size)
        && shape == HookShape(old(shape), h, i, node, t_pg) && SameRoots(old(View()), View())
      ensures !grant && node != 0 && |path| > 1 ==>
        && |path| <= old(shape).level[h].size + 1
        && FirstAtLeast(pgshifts, t_shift, old(shape).level[h].size + 1 - |path|)
        && PutBelow(old(View()), old(shape), View(), shape, pgshifts, f_map, old(shape).level[h].size, f_addr, path,
                    node)
      ensures ForestsOk(old(View()), old(shape)) && (grant || node == 0 || DepthLeft(old(View()), f_map)) ==>
        ForestsOk(View(), shape)
      ensures ForestsOk(old(View()), old(shape)) && !grant && node != 0 && DepthLeft(old(View()), f_map) ==>
        if |path| == 1 then LeafAdded(old(View()), old(shape), View(), shape, h, i, node)
        else LeafAdded(old(View()), old(shape), View(), shape, path[|path| - 1], 0, node)
    {
      hide Inv, ArraysOk, ForestsOk, RootOf, Descent, HookShape, Backed, Housed, Exhausted, Grown, LeafAdded,
        Needed, NewNode, PutBelow, SameRoots;
      ghost var st, sh := View(), shape;
      FromExists(st, sh, h, i, f_map);
      if grant {
        Grant(h, i, f_map, f_pg, t_pg, t_space);
        NoTopEntry();
        node, path := f_map, [];
        GrantForests(st, sh, View(), shape, f_map);
        NotNull(st, sh, f_map);
        return;
      }
      var f_pgsize := Convert(pgshifts, f_shift);
      var t_pgsize := Convert(pgshifts, t_shift);
      ConversionKeepsOrder(pgshifts, t_shift, f_shift, t_pgsize, f_pgsize);
      node, path := MapNew(h, i, f_map, f_pgsize, f_addr, t_pg, t_pgsize, t_space, rwx);
    }

    /* ---------- mdb_flush ---------- */

    /** `set_rwx` and `update_rwx`. */
    method SetRwx(n: nat, rwx: nat)
      requires Valid() && n in maps
      modifies this`maps
      ensures Valid() && maps == old(maps)[n := old(maps)[n].(rwx := rwx)]
      ensures forall s :: Exists(old(View()), s) ==> RootOf(View(), s) == RootOf(old(View()), s)
    {
      hide Inv, ArraysOk, RootOf, Backed, Owned, ArraysHeld, OneTop;
      ghost var st := View();
      RwxKeepsInv(st, shape, pgshifts, n, rwx);
      maps := maps[n := maps[n].(rwx := rwx)];
      assert maps.Keys == old(maps.Keys);
      assert View() == WithRwx(st, n, rwx);
      assert forall s :: Exists(View(), s) <==> Exists(st, s);
      ArraysSame(st, View(), shape, shape, arrays);
    }

    /** One turn of the loop in `mdb_flush` for a node that leads to no array: what happens to the node
        and its entry, and the next node with its entry. */
    method FlushNode(ghost h: Slot, ghost m: nat, f_map: nat, f_pg: nat, unmap_self: bool, rights: nat, rwx: nat)
      returns (nmap: nat, next_pg: nat, rwx': nat)
      requires Valid() && h in shape.chains && m < |shape.chains[h]| && f_map == shape.chains[h][m]
      requires f_map in shape.pg && f_pg == shape.pg[f_map] && f_pg in entries && RootOf(View(), MapSlot(f_map)) == 0
      modifies this, buffers, buffers.kmem
      ensures Valid() && arrays == old(arrays) && spare == old(spare)
      ensures unmap_self ==> Stepped(old(View()), old(shape), old(entries), h, m, rights, View(), shape, entries)
      ensures unmap_self && rights < 8 ==> EntryFlushed(old(entries)[f_pg], rights, entries[f_pg])
      ensures unmap_self ==> rwx' == Or(rwx, old(entries)[f_pg].refs)
      ensures !unmap_self ==> View() == old(View()) && shape == old(shape) && rwx' == rwx
                              && entries == old(entries)[f_pg := old(entries)[f_pg].(refs := 0)]
      ensures nmap == if m + 1 < |old(shape).chains[h]| then old(shape).chains[h][m + 1] else 0
      ensures nmap != 0 ==> nmap in shape.pg && next_pg == shape.pg[nmap]
    {
      hide Inv, ArraysOk, RootOf, MapOf, SetBacklink, GetPrev, GetPgent, Or, Backed, Housed, NodeGone, Stepped,
        UnhookShape;
      ghost var st, sh, en := View(), shape, entries;
      FlushPosition(st, sh, h, m);
      var prev := GetPrev(maps[f_map].back, f_pg);
      nmap := MapOf(View(), MapSlot(f_map));
      rwx' := rwx;
      if unmap_self {
        SetRwx(f_map, Or(maps[f_map].rwx, entries[f_pg].refs));
        ghost var st1 := View();
        rwx' := Or(rwx, entries[f_pg].refs);
        if rights == FULLY {
          RemoveMap(h, m, prev, f_map);
          entries := entries[f_pg := PageEntry(false, false, 0)];
          SteppedOut(st, sh, en, h, m, st1, View());
          if nmap != 0 { FlushNextGone(View(), sh, h, m, prev); }
        } else {
          entries := entries[f_pg := FlushEntry(entries[f_pg], rights)];
          SteppedOver(st, sh, en, h, m, rights, View());
          prev := MapSlot(f_map);
          if nmap != 0 { FlushNext(View(), shape, h, m + 1, prev); }
        }
      } else {
        entries := entries[f_pg := entries[f_pg].(refs := 0)];
        prev := MapSlot(f_map);
        if nmap != 0 { FlushNext(View(), shape, h, m + 1, prev); }
      }
      next_pg := 0;
      if nmap != 0 {
        next_pg := GetPgent(maps[nmap].back, prev.addr);
      }
    }

    /** The loop of `mdb_flush` from its first test on: one turn for each deeper node. */
    method FlushRest(ghost h: Slot, ghost k: nat, n_: nat, pg_: nat, rwx_: nat, startdepth: nat, f_pgsize: nat,
                     t_pgsize: nat, rights: nat, unmap_self: bool, ghost st1: Store, ghost sh0: Shape,
                     ghost en0: map<nat, PageEntry>, ghost first: nat, ghost start: nat)
      returns (rwx: nat)
      requires Valid() && f_pgsize <= t_pgsize && Inv(st1, sh0)
      requires h in sh0.chains && k < |sh0.chains[h]| == |Depths(st1, sh0.chains[h])|
      requires startdepth == Depths(st1, sh0.chains[h])[k].depth
      requires forall j :: k <= j < SubtreeEnd(Depths(st1, sh0.chains[h]), k) ==>
        RootOf(st1, MapSlot(sh0.chains[h][j])) == 0
      requires AtTest(st1, sh0, en0, h, k, first, rights, start, k + 1, View(), shape, entries, n_, pg_, rwx_)
      modifies this, buffers, buffers.kmem
      ensures Valid() && arrays == old(arrays) && spare == old(spare)
      ensures Flushed(st1, sh0, en0, h, k, first, rights, start, View(), shape, entries, rwx)
      ensures ForestsOk(st1, sh0) ==> ForestsOk(View(), shape)
    {
      hide Inv, ArraysOk, RootOf, AtTest, Flushed, ForestsOk, Stepped, SubtreeEnd, Depths, MapOf, At, Where, Backed,
        Housed;
      var n, pg := n_, pg_;
      rwx := rwx_;
      // The first node has been dealt with, and all further ones are unmapped
      var unmap := if f_pgsize <= t_pgsize then true else unmap_self;
      ghost var e := SubtreeEnd(Depths(st1, sh0.chains[h]), k);
      ghost var j := k + 1;
      InNodes(View(), shape);
      if n != 0 { AtTestNext(st1, sh0, en0, h, k, first, rights, start, j, View(), shape, entries, n, pg, rwx); }
      while n != 0 && maps[n].depth > startdepth
        invariant unmap && Valid() && arrays == old(arrays) && spare == old(spare) && k < j <= |sh0.chains[h]|
        invariant AtTest(st1, sh0, en0, h, k, first, rights, start, j, View(), shape, entries, n, pg, rwx)
        invariant n != 0 ==> n in maps && j < |sh0.chains[h]|
        decreases |sh0.chains[h]| - j
      {
        ghost var st, sh, en, n1, pg1, rwx1 := View(), shape, entries, n, pg, rwx;
        AtTestNext(st1, sh0, en0, h, k, first, rights, start, j, st, sh, en, n, pg, rwx);
        AtTestDeeper(st1, sh0, en0, h, k, first, rights, start, j, st, sh, en, n, pg, rwx, e);
        assert RootOf(st1, MapSlot(sh0.chains[h][j])) == 0;
        n, pg, rwx := FlushNode(h, Where(first, j, rights), n, pg, unmap, rights, rwx);
        if f_pgsize <= t_pgsize {
          unmap := true;
        }
        AtTestStep(st1, sh0, en0, h, k, first, rights, start, j, st, sh, en, n1, pg1, rwx1, View(), shape, entries, n,
                   pg, rwx);
        InNodes(View(), shape);
        j := j + 1;
        AtTestBound(st1, sh0, en0, h, k, first, rights, start, j, View(), shape, entries, n, pg, rwx);
      }
      if n != 0 {
        AtTestNext(st1, sh0, en0, h, k, first, rights, start, j, View(), shape, entries, n, pg, rwx);
      } else {
        AtTestEnd(st1, sh0, en0, h, k, first, rights, start, j, View(), shape, entries, pg, rwx);
      }
      AtTestDone(st1, sh0, en0, h, k, first, rights, start, j, View(), shape, entries, n, pg, rwx);
    }

    /** `mdb_flush` of a mapping whose run leads to no array, for equal page sizes: the mapping and its
        descendants, or its strict descendants only, lose the rights; with all rights they go. */
    method MdbFlush(ghost h: Slot, ghost k: nat, f_map: nat, f_pg: nat, f_pgsize: nat, t_pgsize: nat, rights: nat,
                    unmap_self: bool)
      returns (rwx: nat)
      requires Valid() && h in shape.chains && k < |shape.chains[h]| && f_map == shape.chains[h][k]
      requires f_map in shape.pg && f_pg == shape.pg[f_map] && f_pgsize <= t_pgsize
      requires forall j :: k <= j < SubtreeEnd(Depths(View(), shape.chains[h]), k) ==>
        RootOf(View(), MapSlot(shape.chains[h][j])) == 0
      modifies this, buffers, buffers.kmem
      ensures Valid() && arrays == old(arrays) && spare == old(spare)
      ensures Flushed(if unmap_self then WithRwx(old(View()), f_map, 0)
                      else old(View()), old(shape), old(entries), h, k,
                      if unmap_self then k else k + 1, rights,
                      if unmap_self && f_map in old(maps) && f_pg in old(entries)
                        then Or(old(maps)[f_map].rwx, old(entries)[f_pg].refs) else 0,
                      View(), shape, entries, rwx)
      ensures rights < 8 ==> EntriesFlushed(old(View()), old(shape), old(entries), h, k, unmap_self, rights, entries)
      ensures BitsReturned(old(View()), old(shape), old(entries), h, k, unmap_self, rwx)
      ensures BitsStored(old(View()), old(shape), old(entries), h, k, unmap_self, View())
      ensures ForestsOk(old(View()), old(shape)) ==>
        && ForestsOk(View(), shape) && OtherForests(old(View()), old(shape), View(), shape, h)
        && k < Count(ForestOf(old(View()), old(shape), h))
        && ForestOf(View(), shape, h)
          == FlushedForest(ForestOf(old(View()), old(shape), h), k, rights == FULLY, unmap_self)
    {
      hide Inv, ArraysOk, RootOf, AtTest, Flushed, ForestsOk, Stepped, Or, SubtreeEnd, Depths, MapOf, Pgs, Sweep,
        Gather, GetPrev, At, Where,
        Backed, Housed, FlushedForest, OtherForests, ForestOf, Count, EntriesFlushed, BitsReturned, BitsStored;
      ghost var st0, sh0, en0 := View(), shape, entries;
      FlushPosition(st0, sh0, h, k);
      DepthsLength(st0, sh0.chains[h]);
      assert RootOf(st0, MapSlot(f_map)) == 0 by { assert k < SubtreeEnd(Depths(st0, sh0.chains[h]), k); }
      var startdepth := maps[f_map].depth;
      rwx := 0;
      if unmap_self {
        rwx := Or(maps[f_map].rwx, entries[f_pg].refs);
        SetRwx(f_map, 0);
        entries := entries[f_pg := entries[f_pg].(refs := 0)];
      }
      ghost var st1, first, start := View(), if unmap_self then k else k + 1, rwx;
      RunStart(st0, st1, sh0, h, k, unmap_self);
      var n, pg;
      n, pg, rwx := FlushNode(h, k, f_map, f_pg, unmap_self, rights, rwx);
      OrZero(start);
      AtTestStart(st1, sh0, en0, h, k, first, rights, start, View(), shape, entries, n, pg, rwx);
      rwx := FlushRest(h, k, n, pg, rwx, startdepth, f_pgsize, t_pgsize, rights, unmap_self, st1, sh0, en0, first,
                       start);
      FlushedBits(st0, st1, sh0, en0, h, k, unmap_self, rights, start, View(), shape, entries, rwx);
      if ForestsOk(st0, sh0) {
        InvLists(st0, sh0);
        InvLists(View(), shape);
        FlushedIsForest(st0, st1, sh0, en0, h, k, unmap_self, rights, start, View(), shape, entries, rwx);
      }
    }
  }

  /** Every spare buffer stays spare. */
  ghost predicate KeepsSpare(spare: map<nat, nat>, spare': map<nat, nat>) {
    forall a :: a in spare ==> a in spare' && spare'[a] == spare[a]
  }

  /** A dual node is at hand exactly if one is needed. */
  ghost predicate DualTaken(st: Store, prev: Slot, dual: nat, spare: map<nat, nat>) {
    if NeedsDual(st, prev) then dual in spare && spare[dual] == DUAL_BYTES else dual == 0
  }

  lemma {:induction false} UnhookShapePg(sh: Shape, h: Slot, i: nat)
    requires h in sh.chains && i < |sh.chains[h]|
    ensures forall n :: n in UnhookShape(sh, h, i).pg ==> n in sh.pg && UnhookShape(sh, h, i).pg[n] == sh.pg[n]
  {
  }

  lemma {:induction false} FirstInArray(x: nat, n: nat)
    requires n > 0
    ensures x in ArrayAddrs(x, n)
  {
    assert OnStride(x, x);
  }

  lemma {:induction false} HeadsAttached(sh: Shape, addrs: set<nat>, p: Level)
    ensures sh.chains.Keys <= AttachShape(sh, addrs, p).chains.Keys && AttachShape(sh, addrs, p).pg == sh.pg
  {
  }

  /* ---------- the node that owns the whole address space ---------- */

  lemma {:induction false} InitHeld(pgshifts: seq<nat>, sigma0: nat, dual: nat, base: nat, rwx: nat)
    requires |pgshifts| >= 2 && IsNode(sigma0) && IsNode(dual) && IsNode(base)
    requires forall a :: a in ArrayAddrs(base, ArraySize(pgshifts, |pgshifts| - 2)) ==> IsNode(a)
    ensures var sh := InitShape(pgshifts, sigma0, base);
            && ArraysHeld(InitStore(pgshifts, sigma0, dual, base, rwx), sh,
                          map[base := ArraySize(pgshifts, |pgshifts| - 2)])
            && OneTop(sh, pgshifts, sigma0)
  {
    hide ArrayAddrs, ArraySize, InitStore, InitShape, Exists, RootOf, MapOf;
    var st, sh := InitStore(pgshifts, sigma0, dual, base, rwx), InitShape(pgshifts, sigma0, base);
    var arrays := map[base := ArraySize(pgshifts, |pgshifts| - 2)];
    InitHolds(pgshifts, sigma0, dual, base, rwx);
    assert HeldBy(st, sh, arrays, base, MapSlot(sigma0), MapSlot(sigma0));
  }

  lemma {:induction false} TopHead(sh: Shape, pgshifts: seq<nat>, sigma0: nat)
    requires OneTop(sh, pgshifts, sigma0)
    ensures MapSlot(sigma0) in sh.chains
  {
  }

  /** A node is the one that owns the whole address space exactly if it heads a list. */
  lemma {:induction false} TopOnly(st: Store, sh: Shape, pgshifts: seq<nat>, sigma0: nat, h: Slot, i: nat)
    requires Inv(st, sh) && OneTop(sh, pgshifts, sigma0) && h in sh.chains && i <= |sh.chains[h]|
    requires At(h, sh.chains[h], i).MapSlot?
    ensures i == 0 <==> At(h, sh.chains[h], i) == MapSlot(sigma0)
  {
    hide AddressesOk, DualsOk, LinksOk, EntriesOk, ListsApart, NodesListed;
  }

  lemma {:induction false} TopHooked(sh: Shape, pgshifts: seq<nat>, sigma0: nat, h: Slot, i: nat, x: nat, pgX: nat)
    requires OneTop(sh, pgshifts, sigma0) && h in sh.chains && i <= |sh.chains[h]| && x != sigma0
    ensures OneTop(HookShape(sh, h, i, x, pgX), pgshifts, sigma0)
  {
  }

  lemma {:induction false} TopUnhooked(sh: Shape, pgshifts: seq<nat>, sigma0: nat, h: Slot, i: nat)
    requires OneTop(sh, pgshifts, sigma0) && h in sh.chains && i < |sh.chains[h]|
    ensures OneTop(UnhookShape(sh, h, i), pgshifts, sigma0)
  {
  }

  lemma {:induction false} TopAttached(sh: Shape, pgshifts: seq<nat>, sigma0: nat, addrs: set<nat>, p: Level)
    requires OneTop(sh, pgshifts, sigma0) && sh.level.Keys == sh.chains.Keys && p.size < |pgshifts|
    requires forall a :: a in addrs ==> RootSlot(a) !in sh.chains
    ensures OneTop(AttachShape(sh, addrs, p), pgshifts, sigma0)
  {
    hide AttachShape;
    AttachShapeIs(sh, addrs, p);
  }

  lemma {:induction false} TopSame(sh: Shape, sh': Shape, pgshifts: seq<nat>, sigma0: nat, n: nat)
    requires OneTop(sh, pgshifts, sigma0) && sh'.chains == sh.chains && sh'.level == sh.level
    requires forall m :: m in sh'.pg ==> m in sh.pg || m == n
    requires n != sigma0 || sh'.pg == sh.pg
    ensures OneTop(sh', pgshifts, sigma0)
  {
  }

  /* ---------- grants ---------- */

  lemma {:induction false} PredecessorKept(st: Store, sh: Shape, h: Slot, i: nat, t_pg: nat)
    requires Inv(st, sh) && h in sh.chains && i < |sh.chains[h]| && IsEntry(t_pg)
    ensures GetPrev(SetBacklink(At(h, sh.chains[h], i), t_pg), t_pg) == At(h, sh.chains[h], i)
  {
    hide Inv, SetBacklink, GetPrev;
    var prev := At(h, sh.chains[h], i);
    HookPosition(st, sh, h, i, prev);
    SlotAddress(st, prev);
    BacklinkDecodes(prev, t_pg);
  }

  lemma {:induction false} GrantRoots(st: Store, n: nat, b: Back, space: nat)
    ensures var st' := GrantStore(st, n, b, space);
            forall s :: (Exists(st', s) <==> Exists(st, s)) && RootOf(st', s) == RootOf(st, s)
  {
  }

  /** The failing input of a grant: the node that owns the whole address space, whose backlink starts
      null.  With the new page-table entry it then decodes to the old one, as if that were a node. */
  lemma {:induction false} GrantFromTop(f_pg: nat, t_pg: nat)
    requires IsEntry(f_pg) && IsEntry(t_pg)
    ensures var back := SetBacklink(GetPrev(SetBacklink(MapSlot(0), 0), f_pg), t_pg);
            GetPrev(back, t_pg) == MapSlot(f_pg) && (GetPrev(back, t_pg).addr == 0 <==> f_pg == 0)
  {
    hide SetBacklink, GetPrev;
    NullBacklink(f_pg);
    BacklinkDecodes(MapSlot(f_pg), t_pg);
  }

  lemma {:induction false} NullBacklink(f_pg: nat)
    ensures GetPrev(SetBacklink(MapSlot(0), 0), f_pg) == MapSlot(f_pg)
  {
    hide Shl, Shr, Xor;
    NullWords(f_pg);
  }

  lemma {:induction false} NullWords(w: nat)
    ensures Xor(0, 0) == 0 && Shr(0, 1) == 0 && Shl(0, 1) == 0 && Xor(0, w) == w
  {
  }

  lemma {:induction false} SlotInList(sh: Shape, h: Slot, i: nat, s: Slot)
    requires h in sh.chains && i <= |sh.chains[h]| && s == At(h, sh.chains[h], i)
    ensures InSlots(sh, h, s)
  {
    if i > 0 { assert sh.chains[h][i - 1] in sh.chains[h]; }
  }

  /** The node in a list is none that heads one. */
  lemma {:induction false} RemovedNode(st: Store, sh: Shape, h: Slot, i: nat, sigma0: nat)
    requires Inv(st, sh) && h in sh.chains && i < |sh.chains[h]| && MapSlot(sigma0) in sh.chains
    ensures sh.chains[h][i] in st.maps && sh.chains[h][i] != sigma0
    ensures UnhookShape(sh, h, i).chains.Keys == sh.chains.Keys
  {
    hide ListsApart, LinksOk;
  }

  lemma {:induction false} NotNull(st: Store, sh: Shape, n: nat)
    requires Inv(st, sh) && n in st.maps
    ensures n != 0
  {
  }

  lemma {:induction false} InvLists(st: Store, sh: Shape)
    requires Inv(st, sh)
    ensures ListsOk(st, sh)
  {
  }

  lemma {:induction false} AttachedView(st: Store, st': Store, s: Slot, base: nat, addrs: set<nat>)
    requires Attached(st, st', s, base, addrs)
    ensures st'.maps.Keys == st.maps.Keys && st'.roots.Keys == st.roots.Keys + addrs
  {
  }

  /** One node more, of this depth and space; of the others only links have changed. */
  ghost predicate NewNode(st: Store, st': Store, x: nat, depth: nat, space: nat) {
    && x !in st.maps && st'.maps.Keys == st.maps.Keys + {x}
    && st'.maps[x].depth == depth && st'.maps[x].space == space
    && forall n :: n in st.maps ==> st'.maps[n] == st.maps[n].(next := st'.maps[n].next, back := st'.maps[n].back)
  }

  /** One node less; of the others only links have changed. */
  ghost predicate NodeGone(st: Store, st': Store, x: nat) {
    && st'.maps.Keys == st.maps.Keys - {x} && st'.roots.Keys == st.roots.Keys
    && (forall n :: n in st'.maps ==> st'.maps[n] == st.maps[n].(next := st'.maps[n].next, back := st'.maps[n].back))
    && (forall s :: Exists(st', s) ==> RootOf(st', s) == RootOf(st, s))
  }

  /** The depth stored for a mapping made from `f`. */
  function BelowDepth(st: Store, f: nat): nat { SetDepth((if f in st.maps then st.maps[f].depth else 0) + 1) }

  /** There is a depth for mappings made from `f`. */
  predicate DepthLeft(st: Store, f: nat) { f in st.maps && st.maps[f].depth < 255 }

  /** Every slot leads to the array it led to. */
  ghost predicate SameRoots(st: Store, st': Store) {
    st'.roots.Keys == st.roots.Keys && forall s :: Exists(st, s) ==> RootOf(st', s) == RootOf(st, s)
  }

  /** The depths of the list of `h` have gained that of a node right after position `i`. */
  ghost predicate DepthInserted(st: Store, sh: Shape, st': Store, sh': Shape, h: Slot, i: nat, x: nat) {
    && h in sh.chains && h in sh'.chains
    && var l := Depths(st, sh.chains[h]);
    i < |l| && Depths(st', sh'.chains[h]) == Insert(l, i, x, SetDepth(l[i].depth + 1))
  }

  /** The new node heads the list that the address selects below `f`; no other list and no array that
      was there has changed. */
  ghost predicate PutBelow(st: Store, sh: Shape, st': Store, sh': Shape, pgshifts: seq<nat>, f: nat, fp: nat, addr: nat,
                           path: seq<Slot>, x: nat) {
    && Descent(st', pgshifts, MapSlot(f), fp, addr, path) && RootsKept(st, st', path)
    && path != [] && PutAtHead(sh.chains, sh'.chains, path[|path| - 1], x)
  }

  lemma {:induction false} PathHead(st: Store, sh: Shape, st': Store, sh': Shape, pgshifts: seq<nat>, f: nat, fp: nat,
                                    addr: nat, path: seq<Slot>, x: nat)
    requires PutBelow(st, sh, st', sh', pgshifts, f, fp, addr, path, x)
    ensures path != [] && path[0] == MapSlot(f)
  {
    hide RootsKept, PutAtHead;
  }

  lemma {:induction false} GrantForests(st: Store, sh: Shape, st': Store, sh': Shape, n: nat)
    requires Inv(st, sh) && sh'.chains == sh.chains && sh'.level == sh.level && n in st.maps && n in st'.maps
    requires st'.roots == st.roots && st'.maps.Keys == st.maps.Keys && DepthsKept(st, st')
    ensures ForestsOk(st, sh) ==> ForestsOk(st', sh')
  {
    hide Nested, ListsApart, LinksOk, EntriesOk, DualsOk, AddressesOk;
    if ForestsOk(st, sh) {
      forall g | g in sh'.chains ensures g in sh'.level && ForestOk(st', sh', g) {
        assert ForestOk(st, sh, g);
        ForestKept(st, st', sh, sh', g);
      }
    }
  }

  lemma {:induction false} OrZero(x: nat)
    ensures Or(x, 0) == x
  {
  }

  lemma {:induction false} InNodes(st: Store, sh: Shape)
    requires Inv(st, sh)
    ensures forall n :: n in sh.pg ==> n in st.maps
  {
  }

  lemma {:induction false} FlushPosition(st: Store, sh: Shape, h: Slot, m: nat)
    requires Inv(st, sh) && h in sh.chains && m < |sh.chains[h]|
    ensures var f := sh.chains[h][m];
            && f in st.maps && f in sh.pg && GetPrev(st.maps[f].back, sh.pg[f]) == At(h, sh.chains[h], m)
            && MapOf(st, MapSlot(f)) == (if m + 1 < |sh.chains[h]| then sh.chains[h][m + 1] else 0)
            && (m + 1 < |sh.chains[h]| ==> sh.chains[h][m + 1] != 0 && sh.chains[h][m + 1] != f)
  {
    hide GetPrev, SetBacklink, AddressesOk, DualsOk, EntriesOk, ListsOk, GetPgent;
    BacklinksDecode(st, sh, h, m);
    HookHere(st, sh, h, m);
    HookHere(st, sh, h, m + 1);
    if m + 1 < |sh.chains[h]| { UnhookNext(st, sh, h, m); }
  }

  lemma {:induction false} FlushNext(st: Store, sh: Shape, h: Slot, m: nat, prev: Slot)
    requires Inv(st, sh) && h in sh.chains && m < |sh.chains[h]| && prev == At(h, sh.chains[h], m)
    ensures var n := sh.chains[h][m]; n in st.maps && n in sh.pg && GetPgent(st.maps[n].back, prev.addr) == sh.pg[n]
  {
    hide GetPrev, SetBacklink, Inv, GetPgent;
    BacklinksDecode(st, sh, h, m);
    FlushPosition(st, sh, h, m);
  }

  /** The node after a removed one is now in its place. */
  lemma {:induction false} FlushNextGone(st: Store, sh: Shape, h: Slot, m: nat, prev: Slot)
    requires h in sh.chains && m + 1 < |sh.chains[h]| && prev == At(h, sh.chains[h], m)
    requires Inv(st, UnhookShape(sh, h, m))
    ensures var n := sh.chains[h][m + 1]; var sh' := UnhookShape(sh, h, m);
            n in st.maps && n in sh'.pg && GetPgent(st.maps[n].back, prev.addr) == sh'.pg[n]
  {
    hide Inv, GetPgent;
    FlushNext(st, UnhookShape(sh, h, m), h, m, prev);
  }

  lemma {:induction false} SteppedOut(st: Store, sh: Shape, en: map<nat, PageEntry>, h: Slot, m: nat, st1: Store,
                                      st2: Store)
    requires h in sh.chains && m < |sh.chains[h]|
    requires var f := sh.chains[h][m];
             && f in st.maps && f in sh.pg && sh.pg[f] in en && NodeGone(st1, st2, f)
             && st1 == WithRwx(st, f, Or(st.maps[f].rwx, en[sh.pg[f]].refs))
    ensures Stepped(st, sh, en, h, m, FULLY, st2, UnhookShape(sh, h, m),
                    en[sh.pg[sh.chains[h][m]] := PageEntry(false, false, 0)])
  {
    hide Or, RootOf, UnhookShape;
    var f := sh.chains[h][m];
    forall s | Exists(st2, s) ensures RootOf(st2, s) == RootOf(st, s) {
      RootSame(st, f, Or(st.maps[f].rwx, en[sh.pg[f]].refs), s);
    }
  }

  lemma {:induction false} SteppedOver(st: Store, sh: Shape, en: map<nat, PageEntry>, h: Slot, m: nat, rights: nat,
                                       st1: Store)
    requires h in sh.chains && m < |sh.chains[h]| && rights != FULLY
    requires var f := sh.chains[h][m];
             && f in st.maps && f in sh.pg && sh.pg[f] in en
             && st1 == WithRwx(st, f, Or(st.maps[f].rwx, en[sh.pg[f]].refs))
    ensures var pg := sh.pg[sh.chains[h][m]];
      Stepped(st, sh, en, h, m, rights, st1, sh, en[pg := FlushEntry(en[pg], rights)])
  {
    hide Or, RootOf;
    var f := sh.chains[h][m];
    forall s | Exists(st1, s) ensures RootOf(st1, s) == RootOf(st, s) {
      RootSame(st, f, Or(st.maps[f].rwx, en[sh.pg[f]].refs), s);
    }
  }

  lemma {:induction false} HookShapePg(sh: Shape, h: Slot, i: nat, x: nat, pgX: nat)
    requires h in sh.chains && i <= |sh.chains[h]|
    ensures HookShape(sh, h, i, x, pgX).pg == sh.pg[x := pgX]
  {
  }

  /** The new node heads the list of `r`; all other lists are as before, and new ones empty. */
  ghost predicate PutAtHead(old_: map<Slot, seq<nat>>, new_: map<Slot, seq<nat>>, r: Slot, x: nat) {
    && r in new_ && old_.Keys <= new_.Keys
    && new_[r] == [x] + (if r in old_ then old_[r] else [])
    && (forall g :: g in new_ && g != r ==> new_[g] == if g in old_ then old_[g] else [])
  }

  lemma {:induction false} OnTheWayHere(st0: Store, sh0: Shape, st: Store, sh: Shape, pgshifts: seq<nat>, f: nat,
                                        fp: nat, addr: nat, path: seq<Slot>, g: Slot, k: nat, p: nat)
    requires OnTheWay(st0, sh0, st, sh, pgshifts, f, fp, addr, path, g, k, p)
    ensures path != [] && g in sh.chains && k <= |sh.chains[g]| && path[|path| - 1] == At(g, sh.chains[g], k)
    ensures g in sh.level && sh.level[g].size == p && (p < fp ==> k == 0 && g == path[|path| - 1])
    ensures f in st.maps && f in st0.maps && st.maps[f].depth == st0.maps[f].depth
    ensures sh.pg == sh0.pg && st.maps.Keys == st0.maps.Keys && |path| == fp - p + 1
  {
  }

  lemma {:induction false} SameSizeDone(st: Store, st': Store, sh: Shape, h: Slot, i: nat, f: nat, x: nat, pg: nat,
                                        space: nat)
    requires Inv(st, sh) && h in sh.chains && i <= |sh.chains[h]| && MapSlot(f) == At(h, sh.chains[h], i)
    requires NewNode(st, st', x, BelowDepth(st, f), space) && ListsOk(st', HookShape(sh, h, i, x, pg))
    ensures i > 0 ==> DepthInserted(st, sh, st', HookShape(sh, h, i, x, pg), h, i - 1, x)
    ensures ForestsOk(st, sh) && DepthLeft(st, f) ==>
              ForestsOk(st', HookShape(sh, h, i, x, pg)) && LeafAdded(st, sh, st', HookShape(sh, h, i, x, pg), h, i, x)
  {
    hide Inv, ForestsOk, LeafAdded, Nested, ListsOk, NodesListed, DualsHeld;
    InvParts(st, sh);
    FromExists(st, sh, h, i, f);
    DepthsHooked(st, st', sh.chains[h], i, x);
    if ForestsOk(st, sh) && DepthLeft(st, f) {
      HookKeepsForests(st, st', sh, h, i, x, pg);
      HookAddsLeaf(st, st', sh, h, i, x, pg);
    }
  }

  lemma {:induction false} MapSmallerDone(st0: Store, sh0: Shape, st: Store, sh: Shape, st': Store, pgshifts: seq<nat>,
                                          f: nat, fp: nat, addr: nat, path: seq<Slot>, r: Slot, p: nat, x: nat, pg: nat,
                                          space: nat)
    requires OnTheWay(st0, sh0, st, sh, pgshifts, f, fp, addr, path, r, 0, p) && p < fp && Inv(st, sh) && Inv(st0, sh0)
    requires r in sh.chains && NewNode(st, st', x, BelowDepth(st0, f), space) && SameRoots(st, st')
    requires ListsOk(st', HookShape(sh, r, 0, x, pg))
    ensures NewNode(st0, st', x, BelowDepth(st0, f), space)
    ensures PutBelow(st0, sh0, st', HookShape(sh, r, 0, x, pg), pgshifts, f, fp, addr, path, x)
    ensures ForestsOk(st0, sh0) && DepthLeft(st0, f) ==>
              && ForestsOk(st', HookShape(sh, r, 0, x, pg))
              && LeafAdded(st0, sh0, st', HookShape(sh, r, 0, x, pg), r, 0, x)
  {
    hide Inv, Descent, Grown, ForestsOk, RootOf, RootsKept, HookShape, ListsOk, ForestOf, NodesListed, DualsHeld;
    DescentSame(st, st', pgshifts, MapSlot(f), fp, addr, path);
    GrownPut(st0, sh0, st, sh, path, r, x, pg);
    GrownRoots(st0, sh0, st, sh, st', path);
    GrownDepth(st0, sh0, st, sh, path, f);
    if ForestsOk(st0, sh0) && DepthLeft(st0, f) {
      InvParts(st0, sh0);
      InvLists(st0, sh0);
      InvLists(st, sh);
      GrowKeepsForests(st0, sh0, st, sh, path);
      HookKeepsForests(st, st', sh, r, 0, x, pg);
      GrowSameForests(st0, sh0, st, sh, path);
      HookAddsLeaf(st, st', sh, r, 0, x, pg);
    }
  }

  lemma {:induction false} MapSmallerFails(st0: Store, sh0: Shape, st: Store, sh: Shape, pgshifts: seq<nat>, f: nat,
                                           fp: nat, addr: nat, path: seq<Slot>, g: Slot, k: nat, p: nat)
    requires OnTheWay(st0, sh0, st, sh, pgshifts, f, fp, addr, path, g, k, p) && Inv(st0, sh0)
    ensures Grown(st0, sh0, st, sh, path) && (ForestsOk(st0, sh0) ==> ForestsOk(st, sh))
  {
    hide Inv, Descent, Grown, ForestsOk;
    if ForestsOk(st0, sh0) {
      InvLists(st0, sh0);
      GrowKeepsForests(st0, sh0, st, sh, path);
    }
  }

  lemma {:induction false} GrownRoots(st0: Store, sh0: Shape, st: Store, sh: Shape, st': Store, path: seq<Slot>)
    requires Grown(st0, sh0, st, sh, path) && forall s :: Exists(st, s) ==> RootOf(st', s) == RootOf(st, s)
    ensures RootsKept(st0, st', path)
  {
    hide RootOf;
    assert forall s :: Exists(st0, s) ==> Exists(st, s);
  }

  lemma {:induction false} GrownPut(st0: Store, sh0: Shape, st: Store, sh: Shape, path: seq<Slot>, r: Slot, x: nat,
                                    pg: nat)
    requires Grown(st0, sh0, st, sh, path) && r in sh.chains
    ensures PutAtHead(sh0.chains, HookShape(sh, r, 0, x, pg).chains, r, x)
  {
  }
}
