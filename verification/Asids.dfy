/** The pool of address space identifiers: kernel/include/asid.h, without preemption.

    An identifier is not usable, free, or owned by one address space; the free ones are linked by
    index.  Each address space holds the identifier it owns, if any.
 */
module Asids {

  const MAX_ASIDS: nat := 256
  const INVALID: int := -1

  datatype Owner = Unusable | Free | Owned(space: nat)

  datatype AsidLink = AsidLink(owner: Owner, prev: int, next: int)

  /** The index at position `i` of the free list, or the end mark. */
  function IndexAt(free: seq<int>, i: nat): int { if i < |free| then free[i] else INVALID }

  predicate IsIndex(k: int) { 0 <= k < MAX_ASIDS }

  /** The free list is acyclic and holds exactly the free identifiers. */
  ghost predicate FreeOk(asids: seq<AsidLink>, first_free: int, free: seq<int>) {
    && |asids| == MAX_ASIDS && first_free == IndexAt(free, 0)
    && (forall i, j :: 0 <= i < j < |free| ==> free[i] != free[j])
    && (forall i :: 0 <= i < |free| ==>
        IsIndex(free[i]) && asids[free[i]].owner.Free? && asids[free[i]].next == IndexAt(free, i + 1))
    && (forall k :: 0 <= k < MAX_ASIDS && asids[k].owner.Free? ==> k in free)
  }

  /** Owner and value are inverse to each other. */
  ghost predicate OwnersOk(asids: seq<AsidLink>, value: map<nat, int>) {
    && |asids| == MAX_ASIDS
    && (forall k :: 0 <= k < MAX_ASIDS && asids[k].owner.Owned? ==>
        asids[k].owner.space in value && value[asids[k].owner.space] == k)
    && (forall s :: s in value && value[s] != INVALID ==> IsIndex(value[s]) && asids[value[s]].owner == Owned(s))
  }

  /** The identifiers from `start` on below `end` that are not usable yet. */
  function Unused(asids: seq<AsidLink>, start: nat, end: nat): seq<int>
    requires end <= |asids|
  {
    if start >= end then []
    else if asids[end - 1].owner.Unusable? then Unused(asids, start, end - 1) + [end - 1]
    else Unused(asids, start, end - 1)
  }

  lemma {:induction false} UnusedIs(asids: seq<AsidLink>, start: nat, end: nat)
    requires end <= |asids|
    ensures forall k :: k in Unused(asids, start, end) <==> start <= k < end && asids[k].owner.Unusable?
    ensures forall i, j :: 0 <= i < j < |Unused(asids, start, end)| ==>
      Unused(asids, start, end)[i] < Unused(asids, start, end)[j]
  {
    if start < end {
      UnusedIs(asids, start, end - 1);
      var u := Unused(asids, start, end - 1);
      assert forall i :: 0 <= i < |u| ==> u[i] in u;
    }
  }

  class AsidCache {
    const asids: array<AsidLink>
    var first_free: int
    /** The identifier that each `asid_t` holds. */
    var value: map<nat, int>
    ghost var free: seq<int>

    ghost predicate Valid()
      reads this, asids
    {
      asids.Length == MAX_ASIDS && FreeOk(asids[..], first_free, free) && OwnersOk(asids[..], value)
    }

    /** `asid_cache_t::init`, with `asid_t::init` of every address space. */
    constructor (asids: array<AsidLink>, spaces: set<nat>)
      requires asids.Length == MAX_ASIDS
      modifies asids
      ensures Valid() && this.asids == asids && free == [] && value == map s | s in spaces :: INVALID
      ensures forall k :: 0 <= k < MAX_ASIDS ==> asids[k].owner.Unusable?
    {
      this.asids := asids;
      first_free := INVALID;
      value := map s | s in spaces :: INVALID;
      free := [];
      new;
      for i := 0 to MAX_ASIDS
        invariant forall k :: 0 <= k < i ==> asids[k].owner.Unusable?
        modifies asids
      {
        asids[i] := AsidLink(Unusable, INVALID, INVALID);
      }
    }

    /** `*prev = idx`, where `prev` leads to the head or to the `next` field of an entry. */
    method SetLink(prev: int, idx: int)
      requires asids.Length == MAX_ASIDS && (prev == INVALID || IsIndex(prev))
      modifies this`first_free, asids
      ensures prev == INVALID ==> first_free == idx && asids[..] == old(asids[..])
      ensures prev != INVALID ==>
        first_free == old(first_free) && asids[..] == old(asids[..])[prev := old(asids[prev]).(next := idx)]
    {
      if prev == INVALID { first_free := idx; } else { asids[prev] := asids[prev].(next := idx); }
    }

    /** `set_valid`: the identifiers of the range that were not usable, in order, in front of the list. */
    method SetValid(start: nat, end: nat)
      requires Valid() && end < MAX_ASIDS
      modifies this`first_free, this`free, asids
      ensures Valid() && free == Unused(old(asids[..]), start, end + 1) + old(free)
      ensures forall k :: 0 <= k < MAX_ASIDS ==>
                asids[k].owner == if start <= k <= end && old(asids[k]).owner.Unusable? then Free
                  else old(asids[k]).owner
    {
      hide FreeOk, OwnersOk, Unused, Extended;
      ghost var a0 := asids[..];
      var old_head := first_free;
      var prev := INVALID;
      var idx := start;
      NoneAdded(a0, start, first_free);
      while idx <= end
        invariant asids.Length == MAX_ASIDS && value == old(value) && free == old(free)
        invariant start <= end + 1 ==>
          start <= idx <= end + 1 && Extended(a0, asids[..], first_free, old_head, start, idx, prev)
        invariant start > end + 1 ==> idx == start && prev == INVALID && asids[..] == a0 && first_free == old_head
      {
        ExtendOne(a0, asids[..], first_free, old_head, start, idx, prev);
        if asids[idx].owner != Unusable {
          idx := idx + 1;
          continue;
        }
        SetLink(prev, idx);
        asids[idx] := asids[idx].(owner := Free);
        prev := idx;
        idx := idx + 1;
      }
      if start <= end + 1 {
        ExtendDone(a0, asids[..], first_free, old_head, start, end + 1, prev, free, value);
      } else {
        NothingToAdd(a0, start, end + 1, free);
      }
      SetLink(prev, old_head);
      free := Unused(a0, start, end + 1) + free;
    }

    /** `asid_cache_t::allocate`.  When no identifier is free the kernel stops in its debugger, for which
        `INVALID` stands. */
    method Allocate(space: nat) returns (idx: int)
      requires Valid()
      modifies this`first_free, this`free, asids
      ensures idx == IndexAt(old(free), 0) && FreeOk(asids[..], first_free, free)
      ensures idx == INVALID ==> free == old(free) == [] && first_free == old(first_free) && asids[..] == old(asids[..])
      ensures idx != INVALID ==>
        && IsIndex(idx) && old(free) == [idx] + free && old(asids[idx]).owner.Free?
        && asids[..] == old(asids[..])[idx := old(asids[idx]).(owner := Owned(space))]
    {
      idx := INVALID;
      if first_free == INVALID {
        return;
      }
      idx := first_free;
      first_free := asids[first_free].next;
      asids[idx] := asids[idx].(owner := Owned(space));
      assert free == [free[0]] + free[1..];
      free := free[1..];
      TakenFree(old(asids[..]), asids[..], old(first_free), old(free), space);
    }

    /** `asid_t::get`: the space's identifier, allocated first if it has none. */
    method Get(space: nat) returns (idx: int)
      requires Valid() && space in value
      modifies this`first_free, this`free, this`value, asids
      ensures Valid() && value == old(value)[space := idx]
      ensures idx == INVALID <==> old(value[space]) == INVALID && old(free) == []
      ensures idx != INVALID ==> IsIndex(idx) && asids[idx].owner == Owned(space)
      ensures idx == INVALID || old(value[space]) != INVALID ==> free == old(free) && asids[..] == old(asids[..])
      ensures idx != INVALID && old(value[space]) == INVALID ==> old(free) == [idx] + free
    {
      if value[space] == INVALID {
        idx := Allocate(space);
        value := value[space := idx];
        assert idx == INVALID ==> value == old(value);
      } else {
        idx := value[space];
        assert value == value[space := idx];
      }
    }

    /** `asid_t::release`: a space without an identifier has nothing to give back. */
    method Release(space: nat)
      requires Valid() && space in value
      modifies this`first_free, this`free, this`value, asids
      ensures Valid() && value == old(value)[space := INVALID]
      ensures old(value[space]) == INVALID ==> free == old(free) && asids[..] == old(asids[..])
      ensures old(value[space]) != INVALID ==> free == [old(value[space])] + old(free)
    {
      if value[space] != INVALID {
        var idx := value[space];
        asids[idx] := asids[idx].(owner := Free);
        asids[idx] := asids[idx].(next := first_free);
        first_free := idx;
        free := [idx] + free;
        GivenBack(old(asids[..]), asids[..], old(first_free), old(free), old(value), space);
        value := value[space := INVALID];
      } else {
        assert value == value[space := INVALID];
      }
    }
  }

  /* ---------- taking and giving back ---------- */

  lemma {:induction false} TakenFree(a: seq<AsidLink>, a': seq<AsidLink>, first_free: int, free: seq<int>, space: nat)
    requires FreeOk(a, first_free, free) && free != [] && IsIndex(free[0])
    requires a' == a[free[0] := a[free[0]].(owner := Owned(space))]
    ensures FreeOk(a', a[free[0]].next, free[1..])
  {
    var rest := free[1..];
    assert free == [free[0]] + rest;
    forall i | 0 <= i < |rest|
      ensures IsIndex(rest[i]) && a'[rest[i]].owner.Free? && a'[rest[i]].next == IndexAt(rest, i + 1)
    {
      assert rest[i] == free[i + 1] && free[i + 1] != free[0];
    }
    forall k | 0 <= k < MAX_ASIDS && a'[k].owner.Free? ensures k in rest {
      assert k != free[0] && k in free;
    }
  }

  lemma {:induction false} GivenBack(a: seq<AsidLink>, a': seq<AsidLink>, first_free: int, free: seq<int>,
                                     value: map<nat, int>, space: nat)
    requires FreeOk(a, first_free, free) && OwnersOk(a, value) && space in value && value[space] != INVALID
    requires IsIndex(value[space])
    requires a' == a[value[space] := a[value[space]].(owner := Free, next := first_free)]
    ensures FreeOk(a', value[space], [value[space]] + free) && OwnersOk(a', value[space := INVALID])
  {
    var free' := [value[space]] + free;
    assert value[space] !in free;
    forall i | 0 <= i < |free'|
      ensures IsIndex(free'[i]) && a'[free'[i]].owner.Free? && a'[free'[i]].next == IndexAt(free', i + 1)
    {
    }
  }

  /* ---------- extending the valid range ---------- */

  /** After the identifiers from `start` up to `idx`: the ones that were not usable are free and linked
      from the head on, and `prev` leads to the last link. */
  ghost predicate Extended(a0: seq<AsidLink>, a: seq<AsidLink>, first_free: int, old_head: int, start: nat, idx: nat,
                           prev: int) {
    && |a0| == |a| == MAX_ASIDS && idx <= MAX_ASIDS
    && var u := Unused(a0, start, idx);
    && prev == (if u == [] then INVALID else u[|u| - 1])
    && (if u == [] then first_free == old_head else first_free == u[0])
    && (forall k :: 0 <= k < MAX_ASIDS ==> a[k].owner == if k in u then Free else a0[k].owner)
    && (forall i :: 0 <= i < |u| - 1 ==> IsIndex(u[i]) && a[u[i]].next == u[i + 1])
    && (forall k :: 0 <= k < MAX_ASIDS && k !in u ==> a[k] == a0[k])
  }

  lemma {:induction false} NoneAdded(a0: seq<AsidLink>, start: nat, first_free: int)
    requires |a0| == MAX_ASIDS
    ensures start <= MAX_ASIDS ==> Extended(a0, a0, first_free, first_free, start, start, INVALID)
  {
  }

  /** The entry at `idx` is as it was; linking it in extends the list by it. */
  lemma {:induction false} ExtendOne(a0: seq<AsidLink>, a: seq<AsidLink>, first_free: int, old_head: int, start: nat,
                                     idx: nat, prev: int)
    requires Extended(a0, a, first_free, old_head, start, idx, prev) && start <= idx < MAX_ASIDS
    ensures |a| == MAX_ASIDS && a[idx].owner == a0[idx].owner && (prev == INVALID || (IsIndex(prev) && prev != idx))
    ensures a[idx].owner != Unusable ==> Extended(a0, a, first_free, old_head, start, idx + 1, prev)
    ensures a[idx].owner == Unusable ==>
      var a1 := if prev == INVALID then a else a[prev := a[prev].(next := idx)];
      Extended(a0, a1[idx := a1[idx].(owner := Free)], if prev == INVALID then idx
               else first_free, old_head, start, idx + 1, idx)
  {
    UnusedIs(a0, start, idx);
    var u := Unused(a0, start, idx);
    assert idx !in u && (u != [] ==> u[|u| - 1] in u);
    if a[idx].owner == Unusable {
      LinkLast(a0, a, first_free, old_head, start, idx, prev);
    }
  }

  lemma {:induction false} LinkLast(a0: seq<AsidLink>, a: seq<AsidLink>, first_free: int, old_head: int, start: nat,
                                    idx: nat, prev: int)
    requires Extended(a0, a, first_free, old_head, start, idx, prev) && start <= idx < MAX_ASIDS
    requires a0[idx].owner == Unusable
    requires prev == INVALID || (IsIndex(prev) && prev != idx)
    ensures var a1 := if prev == INVALID then a else a[prev := a[prev].(next := idx)];
            Extended(a0, a1[idx := a1[idx].(owner := Free)], if prev == INVALID then idx
                     else first_free, old_head, start, idx + 1, idx)
  {
    UnusedIs(a0, start, idx);
    var u := Unused(a0, start, idx);
    assert Unused(a0, start, idx + 1) == u + [idx];
    hide Unused;
    var a1 := if prev == INVALID then a else a[prev := a[prev].(next := idx)];
    var a2 := a1[idx := a1[idx].(owner := Free)];
    LastLinked(a, a2, u, idx, prev);
    assert forall k :: k in u + [idx] <==> k in u || k == idx;
  }

  lemma {:induction false} LastLinked(a: seq<AsidLink>, a2: seq<AsidLink>, u: seq<int>, idx: nat, prev: int)
    requires |a| == MAX_ASIDS && idx < MAX_ASIDS && idx !in u && (forall k :: k in u ==> IsIndex(k))
    requires forall i, j :: 0 <= i < j < |u| ==> u[i] < u[j]
    requires prev == (if u == [] then INVALID else u[|u| - 1]) && (prev == INVALID || IsIndex(prev))
    requires a2 == (if prev == INVALID then a else a[prev := a[prev].(next := idx)])[idx := a[idx].(owner := Free)]
    requires forall i :: 0 <= i < |u| - 1 ==> IsIndex(u[i]) && a[u[i]].next == u[i + 1]
    ensures forall i :: 0 <= i < |u| ==> IsIndex((u + [idx])[i]) && a2[(u + [idx])[i]].next == (u + [idx])[i + 1]
  {
    forall i | 0 <= i < |u| ensures IsIndex((u + [idx])[i]) && a2[(u + [idx])[i]].next == (u + [idx])[i + 1] {
      assert u[i] in u && u[|u| - 1] in u;
      if i < |u| - 1 { assert u[i] < u[|u| - 1]; }
    }
  }

  lemma {:induction false} ExtendDone(a0: seq<AsidLink>, a: seq<AsidLink>, first_free: int, old_head: int, start: nat,
                                      end: nat, prev: int, free: seq<int>, value: map<nat, int>)
    requires Extended(a0, a, first_free, old_head, start, end, prev)
    requires FreeOk(a0, old_head, free) && OwnersOk(a0, value)
    ensures |a| == MAX_ASIDS && (prev == INVALID || IsIndex(prev))
    ensures forall k :: 0 <= k < MAX_ASIDS ==>
      a[k].owner == if start <= k < end && a0[k].owner.Unusable? then Free else a0[k].owner
    ensures var a1 := if prev == INVALID then a else a[prev := a[prev].(next := old_head)];
            FreeOk(a1, if prev == INVALID then old_head else first_free, Unused(a0, start, end) + free)
              && OwnersOk(a1, value)
  {
    hide FreeOk, Unused;
    UnusedIs(a0, start, end);
    var u := Unused(a0, start, end);
    assert u != [] ==> u[|u| - 1] in u;
    JoinLists(a0, a, first_free, old_head, u, prev, free);
    OwnersSame(a0, if prev == INVALID then a else a[prev := a[prev].(next := old_head)], value);
  }

  lemma {:induction false} OwnersSame(a0: seq<AsidLink>, a: seq<AsidLink>, value: map<nat, int>)
    requires OwnersOk(a0, value) && |a| == MAX_ASIDS
    requires forall k :: 0 <= k < MAX_ASIDS ==> a[k].owner == a0[k].owner || (a[k].owner.Free? && a0[k].owner.Unusable?)
    ensures OwnersOk(a, value)
  {
  }

  lemma {:induction false} JoinLists(a0: seq<AsidLink>, a: seq<AsidLink>, first_free: int, old_head: int, u: seq<int>,
                                     prev: int, free: seq<int>)
    requires FreeOk(a0, old_head, free) && |a| == MAX_ASIDS
    requires forall k :: k in u ==> IsIndex(k) && a0[k].owner.Unusable?
    requires forall i, j :: 0 <= i < j < |u| ==> u[i] < u[j]
    requires prev == (if u == [] then INVALID else u[|u| - 1])
    requires (if u == [] then first_free == old_head else first_free == u[0])
    requires forall k :: 0 <= k < MAX_ASIDS ==> a[k].owner == if k in u then Free else a0[k].owner
    requires forall i :: 0 <= i < |u| - 1 ==> IsIndex(u[i]) && a[u[i]].next == u[i + 1]
    requires forall k :: 0 <= k < MAX_ASIDS && k !in u ==> a[k] == a0[k]
    ensures prev == INVALID || IsIndex(prev)
    ensures var a1 := if prev == INVALID then a else a[prev := a[prev].(next := old_head)];
            FreeOk(a1, if prev == INVALID then old_head else first_free, u + free)
  {
    assert u != [] ==> u[|u| - 1] in u;
    var a1 := if prev == INVALID then a else a[prev := a[prev].(next := old_head)];
    var l := u + free;
    forall i | 0 <= i < |l| ensures IsIndex(l[i]) && a1[l[i]].owner.Free? && a1[l[i]].next == IndexAt(l, i + 1) {
      if i < |u| {
        JoinedNew(a, a1, u, prev, old_head, free, i);
      } else {
        JoinedOld(a0, a, a1, first_free, old_head, u, prev, free, i - |u|);
      }
    }
    JoinedDistinct(a0, old_head, u, free);
    JoinedAll(a0, a, a1, old_head, u, free);
  }

  lemma {:induction false} JoinedNew(a: seq<AsidLink>, a1: seq<AsidLink>, u: seq<int>, prev: int, old_head: int,
                                     free: seq<int>, i: nat)
    requires |a| == MAX_ASIDS && i < |u| && (forall k :: k in u ==> IsIndex(k) && a[k].owner.Free?)
    requires prev == u[|u| - 1] && IsIndex(prev)
    requires a1 == a[prev := a[prev].(next := old_head)] && old_head == IndexAt(free, 0)
    requires forall i, j :: 0 <= i < j < |u| ==> u[i] < u[j]
    requires forall i :: 0 <= i < |u| - 1 ==> IsIndex(u[i]) && a[u[i]].next == u[i + 1]
    ensures var l := u + free; IsIndex(l[i]) && a1[l[i]].owner.Free? && a1[l[i]].next == IndexAt(l, i + 1)
  {
    assert u[i] in u;
    if i < |u| - 1 { assert u[i] < u[|u| - 1]; }
  }

  lemma {:induction false} JoinedOld(a0: seq<AsidLink>, a: seq<AsidLink>, a1: seq<AsidLink>, first_free: int,
                                     old_head: int, u: seq<int>, prev: int, free: seq<int>, i: nat)
    requires FreeOk(a0, old_head, free) && |a| == MAX_ASIDS && i < |free|
    requires forall k :: k in u ==> IsIndex(k) && a0[k].owner.Unusable?
    requires prev == (if u == [] then INVALID else u[|u| - 1]) && (prev == INVALID || IsIndex(prev))
    requires a1 == if prev == INVALID then a else a[prev := a[prev].(next := old_head)]
    requires forall k :: 0 <= k < MAX_ASIDS && k !in u ==> a[k] == a0[k]
    ensures var l := u + free;
            IsIndex(l[|u| + i]) && a1[l[|u| + i]].owner.Free? && a1[l[|u| + i]].next == IndexAt(l, |u| + i + 1)
  {
    assert free[i] !in u;
    assert u != [] ==> u[|u| - 1] in u;
  }

  lemma {:induction false} JoinedDistinct(a0: seq<AsidLink>, old_head: int, u: seq<int>, free: seq<int>)
    requires FreeOk(a0, old_head, free)
    requires forall k :: k in u ==> IsIndex(k) && a0[k].owner.Unusable?
    requires forall i, j :: 0 <= i < j < |u| ==> u[i] < u[j]
    ensures var l := u + free; forall i, j :: 0 <= i < j < |l| ==> l[i] != l[j]
  {
    var l := u + free;
    forall i, j | 0 <= i < j < |l| ensures l[i] != l[j] {
      if i < |u| <= j { assert u[i] in u; }
    }
  }

  lemma {:induction false} JoinedAll(a0: seq<AsidLink>, a: seq<AsidLink>, a1: seq<AsidLink>, old_head: int, u: seq<int>,
                                     free: seq<int>)
    requires FreeOk(a0, old_head, free) && |a1| == |a| == MAX_ASIDS
    requires forall k :: 0 <= k < MAX_ASIDS ==> a1[k].owner == if k in u then Free else a0[k].owner
    ensures forall k :: 0 <= k < MAX_ASIDS && a1[k].owner.Free? ==> k in u + free
  {
  }

  lemma {:induction false} NothingToAdd(a0: seq<AsidLink>, start: nat, end: nat, free: seq<int>)
    requires start > end && end <= |a0|
    ensures Unused(a0, start, end) + free == free
  {
    assert [] + free == free;
  }
}
