/** The packed nodes of the mapping database: kernel/include/mapping.h on a 64-bit machine.

    A mapping node does not store its predecessor and its page-table entry separately: it stores
    their exclusive-or, so that either can be recovered from the other.  Its next pointer has two
    tag bits that say whether it leads to a mapping node, to an array of root nodes, or to a dual
    node holding one of each.
 */
module MapNodes {
  import opened Words

  /** A place whose next pointer can lead to mappings: a mapping node or a root node. */
  datatype Slot = MapSlot(addr: nat) | RootSlot(addr: nat)

  /** `is_prev_root` and `prev_ptr` (63 bits). */
  datatype Back = Back(isRoot: bool, ptr: nat)

  /** `is_next_root`, `is_next_map` and `next_ptr` (62 bits). */
  datatype Next = Next(isRoot: bool, isMap: bool, ptr: nat)

  datatype MapNode = MapNode(back: Back, depth: nat, rwx: nat, space: nat, next: Next)

  datatype Dual = Dual(map_: nat, root: nat)

  /** Addresses of nodes: four-byte aligned and not null. */
  predicate IsNode(a: nat) { 0 < a < W64 && a % 4 == 0 }

  /** Addresses of page-table entries. */
  predicate IsEntry(a: nat) { a < W64 && a % 2 == 0 }

  /* ---------- backlinks ---------- */

  function SetBacklink(prev: Slot, pg: nat): Back {
    Back(prev.RootSlot?, Shr(Xor(prev.addr, pg), 1))
  }

  /** `get_pgent`. */
  function GetPgent(b: Back, prev: nat): nat { Xor(Shl(b.ptr, 1), prev) }

  /** `get_prevmap` and `get_prevroot`: one of them is null, the other is the predecessor. */
  function GetPrev(b: Back, pg: nat): Slot {
    if b.isRoot then RootSlot(Xor(Shl(b.ptr, 1), pg)) else MapSlot(Xor(Shl(b.ptr, 1), pg))
  }

  /** A backlink decodes to the page-table entry given the predecessor, and to the predecessor given
      the page-table entry; its pointer fits in 63 bits. */
  lemma {:induction false} BacklinkDecodes(prev: Slot, pg: nat)
    requires prev.addr < W64 && prev.addr % 2 == 0 && IsEntry(pg)
    ensures var b := SetBacklink(prev, pg);
            b.ptr < Pow2(63) && GetPgent(b, prev.addr) == pg && GetPrev(b, pg) == prev
  {
    hide Shl, Shr, Xor;
    var x := Xor(prev.addr, pg);
    Pow2Values();
    XorBound(prev.addr, pg, 64);
    XorHalf(prev.addr, pg);
    HalfRoundTrip(x);
    XorDecode(prev.addr, pg);
  }

  lemma {:induction false} HalfRoundTrip(x: nat)
    requires x < W64 && x % 2 == 0
    ensures Shl(Shr(x, 1), 1) == x && Shr(x, 1) < Pow2(63)
  {
    ShrIsDiv(x, 1);
    assert Pow2(1) == 2;
    Pow2Values();
    Pow2Add(63, 1);
    DivModUnique(x, W64, 0, x);
  }

  /* ---------- next pointers ---------- */

  function ToMap(a: nat): Next { Next(false, true, Shr(a, 2)) }
  function ToRoot(a: nat): Next { Next(true, false, Shr(a, 2)) }
  function ToDual(a: nat): Next { Next(true, true, Shr(a, 2)) }

  function Target(n: Next): nat { Shl(n.ptr, 2) }

  predicate IsBoth(n: Next) { n.isRoot && n.isMap }

  lemma {:induction false} TargetDecodes(a: nat)
    requires a < W64 && a % 4 == 0
    ensures Target(ToMap(a)) == Target(ToRoot(a)) == Target(ToDual(a)) == a
    ensures ToMap(a).ptr < Pow2(62)
  {
    ShrIsDiv(a, 2);
    assert Pow2(2) == 4 by { assert Pow2(1) == 2; }
    Pow2Values();
    DivModUnique(a, W64, 0, a);
    Pow2Add(62, 2);
  }

  /** `get_nextmap`, `get_map`. */
  function NextMap(n: Next, duals: map<nat, Dual>): nat {
    if !n.isMap then 0
    else if n.isRoot then (if Target(n) in duals then duals[Target(n)].map_ else 0)
    else Target(n)
  }

  /** `get_nextroot`, `get_root`. */
  function NextRoot(n: Next, duals: map<nat, Dual>): nat {
    if !n.isRoot then 0
    else if n.isMap then (if Target(n) in duals then duals[Target(n)].root else 0)
    else Target(n)
  }

  /* ---------- space and depth ---------- */

  /** `set_space` keeps the upper 53 bits. */
  function SetSpace(space: nat): nat { Shr(space, 11) }
  function GetSpace(field: nat): nat { Shl(field, 11) }

  /** A space pointer survives exactly when it is 2048-byte aligned. */
  lemma {:induction false} SpaceSurvivesIff(space: Word)
    ensures GetSpace(SetSpace(space)) == space <==> space % 2048 == 0
  {
    ShrIsDiv(space, 11);
    Pow2Values();
    assert Pow2(11) == 2 * Pow2(10) == 2048;
    var q := space / 2048;
    assert q * 2048 <= space < W64;
    DivModUnique(q * 2048, W64, 0, q * 2048);
    if space % 2048 == 0 {
      assert q * 2048 == space;
    }
  }

  /** `set_depth` keeps eight bits. */
  function SetDepth(depth: nat): nat { depth % 256 }
}
