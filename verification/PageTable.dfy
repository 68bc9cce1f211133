/** Page tables: kernel/include/linear_ptab.h and `lookup_mapping` in
    kernel/src/generic/linear_ptab_walker.cc.

    A page table is a tree.  An entry of level `s` covers a page of `hw_pgshifts[s]` bits; it is
    invalid, maps that page, or leads to a table of entries of level `s - 1`.  The whole address
    space is an entry of the last level.  A pointer to an entry is the path of indices to it.
 */
module PageTable {
  import opened Options
  import opened Words

  datatype Entry = Invalid | Leaf(paddr: nat, map_: nat) | Table(entries: seq<Entry>)

  datatype Found = Found(leaf: Entry, size: nat)

  /** `hw_pgshifts`: ascending, and at most the width of an address. */
  ghost predicate ShiftsOk(sh: seq<nat>) {
    |sh| >= 2 && sh[|sh| - 1] <= 64 && forall i, j :: 0 <= i < j < |sh| ==> sh[i] < sh[j]
  }

  /** `page_size`. */
  function Span(sh: seq<nat>, s: nat): (r: nat)
    ensures r > 0
  {
    if s < |sh| then Pow2(sh[s]) else 1
  }

  /** `page_table_size`. */
  function TableSize(sh: seq<nat>, s: nat): (r: nat)
    ensures r > 0
  {
    if s + 1 < |sh| && sh[s] <= sh[s + 1] then Pow2(sh[s + 1] - sh[s]) else 1
  }

  /** `page_table_index`. */
  function TableIndex(sh: seq<nat>, s: nat, v: nat): nat {
    if s < |sh| then And(Shr(v, sh[s]), TableSize(sh, s) - 1) else 0
  }

  /** Tables are complete, and lead to smaller pages. */
  ghost predicate WellFormed(sh: seq<nat>, e: Entry, s: nat)
    decreases s
  {
    e.Table? ==> s > 0 && |e.entries| == TableSize(sh, s - 1) && forall i :: 0 <= i < |e.entries| ==>
      WellFormed(sh, e.entries[i], s - 1)
  }

  /** The mapping of offset `o` in an entry of level `s`, by positional notation: the reference that
      the walkers are compared with. */
  function Lookup(sh: seq<nat>, e: Entry, s: nat, o: nat): Option<Found>
    decreases s
  {
    match e
    case Invalid => None
    case Leaf(_, _) => Some(Found(e, s))
    case Table(es) =>
      if s == 0 then None
      else
        var i := Quot(o, Span(sh, s - 1));
        if i < |es| then Lookup(sh, es[i], s - 1, Rem(o, Span(sh, s - 1))) else None
  }

  /** A mapping found below an entry is no larger than the entry. */
  lemma {:induction false} LookupSize(sh: seq<nat>, e: Entry, s: nat, o: nat)
    ensures Lookup(sh, e, s, o).Some? ==> Lookup(sh, e, s, o).value.size <= s
    decreases s
  {
    hide Span, Quot, Rem;
    if e.Table? && s > 0 {
      var i := Quot(o, Span(sh, s - 1));
      if i < |e.entries| {
        LookupSize(sh, e.entries[i], s - 1, Rem(o, Span(sh, s - 1)));
      }
    }
  }

  /* ---------- paths ---------- */

  ghost predicate ValidPath(e: Entry, path: seq<nat>)
    decreases |path|
  {
    path == [] || (e.Table? && path[0] < |e.entries| && ValidPath(e.entries[path[0]], path[1..]))
  }

  function EntryAt(e: Entry, path: seq<nat>): Entry
    requires ValidPath(e, path)
    decreases |path|
  {
    if path == [] then e else EntryAt(e.entries[path[0]], path[1..])
  }

  function Update(e: Entry, path: seq<nat>, x: Entry): Entry
    requires ValidPath(e, path)
    decreases |path|
  {
    if path == [] then x else Table(e.entries[path[0] := Update(e.entries[path[0]], path[1..], x)])
  }

  /** The address a path from an entry of level `s` leads to. */
  function Offset(sh: seq<nat>, s: nat, path: seq<nat>): nat
    decreases |path|
  {
    if path == [] || s == 0 then 0 else path[0] * Span(sh, s - 1) + Offset(sh, s - 1, path[1..])
  }

  /* ---------- arithmetic of spans ---------- */

  lemma {:induction false} SpanStep(sh: seq<nat>, s: nat)
    requires ShiftsOk(sh) && s + 1 < |sh|
    ensures TableSize(sh, s) * Span(sh, s) == Span(sh, s + 1)
  {
    hide Pow2;
    Pow2Add(sh[s + 1] - sh[s], sh[s]);
  }

  /** Digits of a number that starts with `i`. */
  lemma {:induction false} Digit(o: nat, d: nat, i: nat)
    requires d > 0 && i * d <= o < i * d + d
    ensures o / d == i && o % d == o - i * d
  {
    DivModUnique(o, d, i, o - i * d);
  }

  lemma {:induction false} DigitElse(o: nat, d: nat, i: nat)
    requires d > 0 && o / d == i
    ensures i * d <= o < i * d + d && o % d == o - i * d
  {
  }

  /** A valid path stays within the table. */
  lemma {:induction false} OffsetBound(sh: seq<nat>, e: Entry, s: nat, path: seq<nat>)
    requires ShiftsOk(sh) && WellFormed(sh, e, s) && s < |sh| && ValidPath(e, path)
    ensures |path| <= s && WellFormed(sh, EntryAt(e, path), s - |path|)
    ensures Offset(sh, s, path) + Span(sh, s - |path|) <= Span(sh, s)
    decreases |path|
  {
    if path != [] {
      hide Span, TableSize;
      OffsetBound(sh, e.entries[path[0]], s - 1, path[1..]);
      SpanStep(sh, s - 1);
      BoundStep(path[0], TableSize(sh, s - 1), Span(sh, s - 1));
    }
  }

  /** Inside the span of a path, lookup continues from the path's entry. */
  lemma {:induction false} LookupInside(sh: seq<nat>, e: Entry, s: nat, path: seq<nat>, o: nat)
    requires ShiftsOk(sh) && WellFormed(sh, e, s) && s < |sh| && ValidPath(e, path)
    requires |path| <= s && Offset(sh, s, path) <= o < Offset(sh, s, path) + Span(sh, s - |path|)
    ensures Lookup(sh, e, s, o) == Lookup(sh, EntryAt(e, path), s - |path|, o - Offset(sh, s, path))
    decreases |path|
  {
    if path != [] {
      hide Span, TableSize;
      var d, i := Span(sh, s - 1), path[0];
      OffsetBound(sh, e.entries[i], s - 1, path[1..]);
      Digit(o, d, i);
      LookupInside(sh, e.entries[i], s - 1, path[1..], o - i * d);
    }
  }

  /** Changing an entry changes the lookups in its span, and no other. */
  lemma {:induction false} LookupUpdate(sh: seq<nat>, e: Entry, s: nat, path: seq<nat>, x: Entry, o: nat)
    requires ShiftsOk(sh) && WellFormed(sh, e, s) && s < |sh| && ValidPath(e, path) && |path| <= s && o < Span(sh, s)
    ensures var a := Offset(sh, s, path);
            Lookup(sh, Update(e, path, x), s, o) ==
            if a <= o < a + Span(sh, s - |path|) then Lookup(sh, x, s - |path|, o - a) else Lookup(sh, e, s, o)
    decreases |path|
  {
    if path != [] {
      hide Span, TableSize, Quot, Rem;
      var d, i := Span(sh, s - 1), path[0];
      QuotFacts(o, d, i);
      OffsetBound(sh, e.entries[i], s - 1, path[1..]);
      if Quot(o, d) == i {
        LookupUpdate(sh, e.entries[i], s - 1, path[1..], x, Rem(o, d));
      }
    }
  }

  lemma {:induction false} QuotFacts(o: nat, d: nat, i: nat)
    requires d > 0
    ensures Quot(o, d) == i <==> i * d <= o < i * d + d
    ensures Quot(o, d) == i ==> Rem(o, d) == o - i * d
    ensures Rem(o, d) < d
  {
    if Quot(o, d) == i {
      DigitElse(o, d, i);
    } else {
      DigitApart(o, d, i);
    }
  }

  lemma {:induction false} DigitApart(o: nat, d: nat, i: nat)
    requires d > 0 && o / d != i
    ensures o < i * d || o >= i * d + d
  {
    if i * d <= o < i * d + d {
      Digit(o, d, i);
    }
  }

  lemma {:induction false} UpdateWellFormed(sh: seq<nat>, e: Entry, s: nat, path: seq<nat>, x: Entry)
    requires WellFormed(sh, e, s) && ValidPath(e, path) && |path| <= s && WellFormed(sh, x, s - |path|)
    ensures WellFormed(sh, Update(e, path, x), s)
    decreases |path|
  {
    if path != [] {
      UpdateWellFormed(sh, e.entries[path[0]], s - 1, path[1..], x);
    }
  }

  /* ---------- moving in the tree ---------- */

  lemma {:induction false} PathSnoc(e: Entry, path: seq<nat>, i: nat)
    requires ValidPath(e, path) && EntryAt(e, path).Table? && i < |EntryAt(e, path).entries|
    ensures ValidPath(e, path + [i]) && EntryAt(e, path + [i]) == EntryAt(e, path).entries[i]
    decreases |path|
  {
    if path == [] {
      assert ([] + [i])[1..] == [];
    } else {
      assert (path + [i])[1..] == path[1..] + [i];
      PathSnoc(e.entries[path[0]], path[1..], i);
    }
  }

  lemma {:induction false} PathInit(e: Entry, path: seq<nat>)
    requires ValidPath(e, path) && path != []
    ensures var q := path[..|path| - 1];
            ValidPath(e, q) && EntryAt(e, q).Table? && path[|path| - 1] < |EntryAt(e, q).entries|
            && EntryAt(e, path) == EntryAt(e, q).entries[path[|path| - 1]]
    decreases |path|
  {
    if |path| == 1 {
      assert path[1..] == [];
    } else {
      assert path[1..][..|path| - 2] == path[..|path| - 1][1..];
      PathInit(e.entries[path[0]], path[1..]);
    }
  }

  lemma {:induction false} OffsetSnoc(sh: seq<nat>, s: nat, path: seq<nat>, i: nat)
    requires |path| < s
    ensures Offset(sh, s, path + [i]) == Offset(sh, s, path) + i * Span(sh, s - |path| - 1)
    decreases |path|
  {
    hide Span;
    if path == [] {
      assert ([] + [i])[1..] == [];
    } else {
      assert (path + [i])[1..] == path[1..] + [i];
      OffsetSnoc(sh, s - 1, path[1..], i);
    }
  }

  /** Changing the entry at a path leaves the tables above it, with their other entries. */
  lemma {:induction false} UpdateAbove(e: Entry, path: seq<nat>, x: Entry)
    requires ValidPath(e, path) && path != []
    ensures var q := path[..|path| - 1];
            && ValidPath(e, q) && EntryAt(e, q).Table? && path[|path| - 1] < |EntryAt(e, q).entries|
            && ValidPath(Update(e, path, x), q)
            && EntryAt(Update(e, path, x), q) == Table(EntryAt(e, q).entries[path[|path| - 1] := x])
    decreases |path|
  {
    var q := path[..|path| - 1];
    if |path| == 1 {
      assert path[1..] == [];
      assert q == [];
    } else {
      assert path[1..][..|path| - 2] == q[1..];
      UpdateAbove(e.entries[path[0]], path[1..], x);
    }
  }

  /* ---------- lookup_mapping ---------- */

  /** The digits of an address are the indices the walker uses. */
  lemma {:induction false} IndexIsDigit(sh: seq<nat>, s: nat, v: nat, w: nat)
    requires ShiftsOk(sh) && s + 1 < |sh| && v % Span(sh, s + 1) == w
    ensures TableIndex(sh, s, v) == w / Span(sh, s) && v % Span(sh, s) == w % Span(sh, s) && w < Span(sh, s + 1)
    ensures TableIndex(sh, s, v) < TableSize(sh, s)
  {
    hide Pow2, And, Shr;
    var d, n := Span(sh, s), TableSize(sh, s);
    ShrIsDiv(v, sh[s]);
    AndLowMask(Shr(v, sh[s]), sh[s + 1] - sh[s]);
    SpanStep(sh, s);
    NestedDigits(v, d, n);
  }

  lemma {:induction false} LookupStart(sh: seq<nat>, root: Entry, v: nat)
    requires ShiftsOk(sh) && WellFormed(sh, root, |sh| - 1) && root.Table?
    ensures var s := |sh| - 2; var i := TableIndex(sh, s, v); var o := v % Span(sh, s + 1);
            && ValidPath(root, [i]) && EntryAt(root, [i]) == root.entries[i]
            && Offset(sh, s + 1, [i]) + v % Span(sh, s) == o
            && Lookup(sh, root, s + 1, o) == Lookup(sh, EntryAt(root, [i]), s, v % Span(sh, s))
  {
    hide Span, TableSize, TableIndex;
    var s := |sh| - 2;
    var o := v % Span(sh, s + 1);
    var i := TableIndex(sh, s, v);
    IndexIsDigit(sh, s, v, o);
    DigitElse(o, Span(sh, s), i);
    assert [i][1..] == [];
    assert ValidPath(root.entries[i], []);
  }

  lemma {:induction false} LookupDown(sh: seq<nat>, root: Entry, pg: seq<nat>, s: nat, v: nat)
    requires ShiftsOk(sh) && WellFormed(sh, root, |sh| - 1) && ValidPath(root, pg) && s > 0 && s + |pg| == |sh| - 1
    requires EntryAt(root, pg).Table?
    ensures var i := TableIndex(sh, s - 1, v);
            && ValidPath(root, pg + [i])
            && Offset(sh, |sh| - 1, pg + [i]) + v % Span(sh, s - 1) == Offset(sh, |sh| - 1, pg) + v % Span(sh, s)
            && Lookup(sh, EntryAt(root, pg), s, v % Span(sh, s))
              == Lookup(sh, EntryAt(root, pg + [i]), s - 1, v % Span(sh, s - 1))
  {
    hide Span, TableSize, TableIndex;
    var i := TableIndex(sh, s - 1, v);
    OffsetBound(sh, root, |sh| - 1, pg);
    IndexIsDigit(sh, s - 1, v, v % Span(sh, s));
    PathSnoc(root, pg, i);
    OffsetSnoc(sh, |sh| - 1, pg, i);
    DigitElse(v % Span(sh, s), Span(sh, s - 1), i);
  }
}
