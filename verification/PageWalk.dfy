/** What a walk over part of a page table has to do: the specification of `unmap_fpage` in
    kernel/src/generic/linear_ptab_walker.cc, and the steps of its explicit-stack walk.
 */
module PageWalk {
  import opened Options
  import opened Words
  import opened PageTable

  /** A mapping handed to the mapping database, with the address it was found at. */
  datatype Visit = Visit(vaddr: nat, found: Found)

  function Last(sh: seq<nat>): nat { if |sh| > 0 then |sh| - 1 else 0 }

  /* ---------- what has been done below an address ---------- */

  /** The visit is of a mapping within the range, at its own base address. */
  ghost predicate VisitOk(sh: seq<nat>, root: Entry, v: Visit, lo: nat, hi: nat) {
    && lo <= v.vaddr && v.vaddr + Span(sh, v.found.size) <= hi
    && Lookup(sh, root, Last(sh), v.vaddr) == Some(v.found)
  }

  /** The mapping of `o` is among the visits. */
  ghost predicate Visited(sh: seq<nat>, visited: seq<Visit>, f: Found, o: nat) {
    exists i :: 0 <= i < |visited| && visited[i].found == f
      && visited[i].vaddr <= o < visited[i].vaddr + Span(sh, f.size)
  }

  /** Every mapping of the range is visited, once and in ascending order. */
  ghost predicate VisitsExactly(sh: seq<nat>, root: Entry, visited: seq<Visit>, lo: nat, hi: nat) {
    && (forall i :: 0 <= i < |visited| ==> VisitOk(sh, root, visited[i], lo, hi))
    && (forall i, j :: 0 <= i < j < |visited| ==>
        visited[i].vaddr + Span(sh, visited[i].found.size) <= visited[j].vaddr)
    && (forall o :: lo <= o < hi && Lookup(sh, root, Last(sh), o).Some? ==>
        Visited(sh, visited, Lookup(sh, root, Last(sh), o).value, o))
  }

  /** A cleared range has no mapping; other addresses are mapped as before. */
  ghost predicate Cleared(sh: seq<nat>, root0: Entry, root: Entry, clear: bool, lo: nat, hi: nat) {
    forall o :: 0 <= o < Span(sh, Last(sh)) ==>
      Lookup(sh, root, Last(sh), o) == if clear && lo <= o < hi then None else Lookup(sh, root0, Last(sh), o)
  }

  /* ---------- where the walk is ---------- */

  /** The entries to walk: `n` entries from `first` on in the table at `tp`, whose pages have size
      `pgsize`.  They cover the addresses from `lo` up to `hi`. */
  datatype Range = Range(tp: seq<nat>, first: nat, n: nat, pgsize: nat, lo: nat, hi: nat)

  ghost predicate RangeOk(sh: seq<nat>, r: Range) {
    && ShiftsOk(sh) && r.pgsize < Last(sh) && |r.tp| == Last(sh) - r.pgsize - 1
    && r.first + r.n <= TableSize(sh, r.pgsize)
    && r.lo == Offset(sh, Last(sh), r.tp) + r.first * Span(sh, r.pgsize)
    && r.hi == r.lo + r.n * Span(sh, r.pgsize)
  }

  /** The path leads to an entry of level `size` below one of the entries to walk. */
  ghost predicate AtEntry(sh: seq<nat>, root: Entry, r: Range, p: seq<nat>, size: nat) {
    && RangeOk(sh, r) && WellFormed(sh, root, Last(sh)) && ValidPath(root, p)
    && size <= r.pgsize && |p| == Last(sh) - size
    && p[..|r.tp|] == r.tp && r.first <= p[|r.tp|] < r.first + r.n
  }

  /** How many entries of its table are left, this one included. */
  function Left(sh: seq<nat>, r: Range, p: seq<nat>, size: nat): int {
    if p == [] then 0
    else (if size == r.pgsize then r.first + r.n else TableSize(sh, size)) - p[|p| - 1]
  }

  /** The stacks hold, for each level above the current one, the entry the walk is below and how many
      entries are left after it. */
  ghost predicate StackOk(sh: seq<nat>, r: Range, p: seq<nat>, size: nat, rpg: seq<seq<nat>>, rnum: seq<nat>) {
    && |rpg| == |rnum| >= r.pgsize && |p| == Last(sh) - size
    && forall s :: size <= s < r.pgsize ==> Framed(sh, r, p, s, rpg, rnum)
  }

  ghost predicate Framed(sh: seq<nat>, r: Range, p: seq<nat>, s: nat, rpg: seq<seq<nat>>, rnum: seq<nat>) {
    && s < |rpg| && s < |rnum| && s < Last(sh) && Last(sh) - s - 1 <= |p|
    && rpg[s] == p[..Last(sh) - s - 1] && rnum[s] == Left(sh, r, rpg[s], s + 1) - 1
  }

  /** About to look at the entry at `p`. */
  ghost predicate Walking(sh: seq<nat>, root0: Entry, root: Entry, r: Range, clear: bool, visited: seq<Visit>,
                          p: seq<nat>, size: nat, num: nat, a: nat, rpg: seq<seq<nat>>, rnum: seq<nat>) {
    && AtEntry(sh, root, r, p, size) && num == Left(sh, r, p, size) && a == Offset(sh, Last(sh), p)
    && StackOk(sh, r, p, size, rpg, rnum)
    && VisitsExactly(sh, root0, visited, r.lo, a) && Cleared(sh, root0, root, clear, r.lo, a)
  }

  /** Done with the entry at `q` and everything before it. */
  ghost predicate Between(sh: seq<nat>, root0: Entry, root: Entry, r: Range, clear: bool, visited: seq<Visit>,
                          q: seq<nat>, size: nat, num: nat, a: nat, rpg: seq<seq<nat>>, rnum: seq<nat>) {
    && AtEntry(sh, root, r, q, size) && num == Left(sh, r, q, size) - 1 && a == Offset(sh, Last(sh), q) + Span(sh, size)
    && StackOk(sh, r, q, size, rpg, rnum)
    && VisitsExactly(sh, root0, visited, r.lo, a) && Cleared(sh, root0, root, clear, r.lo, a)
  }

  /* ---------- positions ---------- */

  /** Below an entry to walk, everything lies within the range. */
  lemma {:induction false} EntryInRange(sh: seq<nat>, root: Entry, r: Range, p: seq<nat>, size: nat)
    requires AtEntry(sh, root, r, p, size)
    ensures r.lo <= Offset(sh, Last(sh), p) && Offset(sh, Last(sh), p) + Span(sh, size) <= r.hi
    ensures r.hi <= Span(sh, Last(sh)) && WellFormed(sh, EntryAt(root, p), size)
    decreases |p|
  {
    hide Span, TableSize, Offset;
    var q, i := p[..|p| - 1], p[|p| - 1];
    assert p == q + [i];
    PathInit(root, p);
    OffsetBound(sh, root, Last(sh), p);
    OffsetSnoc(sh, Last(sh), q, i);
    if size == r.pgsize {
      assert q == r.tp;
      OffsetBound(sh, root, Last(sh), q);
      TopEntry(sh, r, i);
    } else {
      assert q[..|r.tp|] == r.tp;
      EntryInRange(sh, root, r, q, size + 1);
      OffsetBound(sh, root, Last(sh), q);
      SpanStep(sh, size);
      BoundStep(i, TableSize(sh, size), Span(sh, size));
    }
  }

  lemma {:induction false} TopEntry(sh: seq<nat>, r: Range, i: nat)
    requires RangeOk(sh, r) && r.first <= i < r.first + r.n
    requires Offset(sh, Last(sh), r.tp) + Span(sh, r.pgsize + 1) <= Span(sh, Last(sh))
    ensures var a := Offset(sh, Last(sh), r.tp) + i * Span(sh, r.pgsize);
            r.lo <= a && a + Span(sh, r.pgsize) <= r.hi <= Span(sh, Last(sh))
  {
    hide Span, TableSize, Offset;
    var d := Span(sh, r.pgsize);
    SpanStep(sh, r.pgsize);
    MulSplit(r.first, i - r.first, d);
    BoundStep(i - r.first, r.n, d);
    MulSplit(r.first, r.n, d);
    MulSplit(r.first + r.n, TableSize(sh, r.pgsize) - (r.first + r.n), d);
  }

  lemma {:induction false} MulSplit(a: nat, b: nat, d: nat)
    ensures (a + b) * d == a * d + b * d && b * d >= 0
  {
  }

  /* ---------- visits and clearing, one entry at a time ---------- */

  /** An entry without a mapping below it. */
  lemma {:induction false} SkipEntry(sh: seq<nat>, root0: Entry, visited: seq<Visit>, lo: nat, a: nat, b: nat)
    requires VisitsExactly(sh, root0, visited, lo, a) && a <= b
    requires forall o :: a <= o < b ==> Lookup(sh, root0, Last(sh), o) == None
    ensures VisitsExactly(sh, root0, visited, lo, b)
  {
    hide Lookup, Span, Visited;
  }

  /** An entry that is a mapping. */
  lemma {:induction false} AddVisit(sh: seq<nat>, root0: Entry, visited: seq<Visit>, lo: nat, a: nat, f: Found)
    requires VisitsExactly(sh, root0, visited, lo, a) && lo <= a
    requires forall o :: a <= o < a + Span(sh, f.size) ==> Lookup(sh, root0, Last(sh), o) == Some(f)
    ensures VisitsExactly(sh, root0, visited + [Visit(a, f)], lo, a + Span(sh, f.size))
  {
    hide Lookup, Span, Visited, VisitOk;
    var v := visited + [Visit(a, f)];
    var b := a + Span(sh, f.size);
    forall i | 0 <= i < |v| ensures VisitOk(sh, root0, v[i], lo, b) {
      if i < |visited| {
        assert VisitOk(sh, root0, visited[i], lo, a);
        VisitWider(sh, root0, visited[i], lo, a, b);
      } else {
        VisitNew(sh, root0, Visit(a, f), lo);
      }
    }
    forall i, j | 0 <= i < j < |v| ensures v[i].vaddr + Span(sh, v[i].found.size) <= v[j].vaddr {
      if j == |visited| {
        assert VisitOk(sh, root0, visited[i], lo, a);
        VisitEnds(sh, root0, visited[i], lo, a);
      }
    }
    forall o | lo <= o < b && Lookup(sh, root0, Last(sh), o).Some?
      ensures Visited(sh, v, Lookup(sh, root0, Last(sh), o).value, o)
    {
      if o < a {
        VisitedMore(sh, visited, Visit(a, f), Lookup(sh, root0, Last(sh), o).value, o);
      } else {
        VisitedLast(sh, visited, Visit(a, f), o);
      }
    }
  }

  lemma {:induction false} VisitWider(sh: seq<nat>, root: Entry, v: Visit, lo: nat, a: nat, b: nat)
    requires VisitOk(sh, root, v, lo, a) && a <= b
    ensures VisitOk(sh, root, v, lo, b)
  {
  }

  lemma {:induction false} VisitNew(sh: seq<nat>, root: Entry, v: Visit, lo: nat)
    requires lo <= v.vaddr && Lookup(sh, root, Last(sh), v.vaddr) == Some(v.found)
    ensures VisitOk(sh, root, v, lo, v.vaddr + Span(sh, v.found.size))
  {
  }

  lemma {:induction false} VisitEnds(sh: seq<nat>, root: Entry, v: Visit, lo: nat, a: nat)
    requires VisitOk(sh, root, v, lo, a)
    ensures v.vaddr + Span(sh, v.found.size) <= a
  {
  }

  lemma {:induction false} VisitedLast(sh: seq<nat>, visited: seq<Visit>, v: Visit, o: nat)
    requires v.vaddr <= o < v.vaddr + Span(sh, v.found.size)
    ensures Visited(sh, visited + [v], v.found, o)
  {
    assert (visited + [v])[|visited|] == v;
  }

  lemma {:induction false} VisitedMore(sh: seq<nat>, visited: seq<Visit>, v: Visit, f: Found, o: nat)
    requires Visited(sh, visited, f, o)
    ensures Visited(sh, visited + [v], f, o)
  {
    hide Span;
    var i :| 0 <= i < |visited| && visited[i].found == f && visited[i].vaddr <= o < visited[i].vaddr + Span(sh, f.size);
    assert (visited + [v])[i] == visited[i];
  }

  /** Invalidating an entry clears its span. */
  lemma {:induction false} ClearEntry(sh: seq<nat>, root0: Entry, root: Entry, lo: nat, a: nat, b: nat, p: seq<nat>,
                                      size: nat)
    requires ShiftsOk(sh) && WellFormed(sh, root, Last(sh)) && ValidPath(root, p) && |p| <= Last(sh)
    requires size == Last(sh) - |p|
    requires Cleared(sh, root0, root, true, lo, a) && lo <= Offset(sh, Last(sh), p) <= a
    requires b == Offset(sh, Last(sh), p) + Span(sh, size)
    requires a <= b
    ensures Cleared(sh, root0, Update(root, p, Invalid), true, lo, b)
    ensures WellFormed(sh, Update(root, p, Invalid), Last(sh))
  {
    hide Span, Offset, WellFormed, ValidPath;
    UpdateWellFormed(sh, root, Last(sh), p, Invalid);
    forall o | 0 <= o < Span(sh, Last(sh))
      ensures Lookup(sh, Update(root, p, Invalid), Last(sh), o) == if lo <= o < b then None
        else Lookup(sh, root0, Last(sh), o)
    {
      LookupUpdate(sh, root, Last(sh), p, Invalid, o);
    }
  }

  /** Without a mapping in it, a span is cleared whether or not anything is changed. */
  lemma {:induction false} ClearNothing(sh: seq<nat>, root0: Entry, root: Entry, clear: bool, lo: nat, a: nat, b: nat)
    requires Cleared(sh, root0, root, clear, lo, a) && a <= b
    requires clear ==> forall o :: a <= o < b && o < Span(sh, Last(sh)) ==> Lookup(sh, root0, Last(sh), o) == None
    ensures Cleared(sh, root0, root, clear, lo, b)
  {
    hide Lookup, Span;
  }

  /** What is ahead of the walk is still as it was. */
  lemma {:induction false} AheadSame(sh: seq<nat>, root0: Entry, root: Entry, r: Range, clear: bool, p: seq<nat>,
                                     size: nat, o: nat)
    requires AtEntry(sh, root, r, p, size) && Cleared(sh, root0, root, clear, r.lo, Offset(sh, Last(sh), p))
    requires Offset(sh, Last(sh), p) <= o < Offset(sh, Last(sh), p) + Span(sh, size)
    ensures Lookup(sh, root0, Last(sh), o) == Lookup(sh, EntryAt(root, p), size, o - Offset(sh, Last(sh), p))
  {
    hide Lookup, Span, Offset, WellFormed, ValidPath, EntryAt, RangeOk;
    EntryInRange(sh, root, r, p, size);
    LookupInRoot(sh, root, r, p, size, o);
  }

  lemma {:induction false} LookupInRoot(sh: seq<nat>, root: Entry, r: Range, p: seq<nat>, size: nat, o: nat)
    requires AtEntry(sh, root, r, p, size)
    requires Offset(sh, Last(sh), p) <= o < Offset(sh, Last(sh), p) + Span(sh, size)
    ensures Lookup(sh, root, Last(sh), o) == Lookup(sh, EntryAt(root, p), size, o - Offset(sh, Last(sh), p))
  {
    LookupInside(sh, root, Last(sh), p, o);
  }

  /* ---------- the steps of the walk ---------- */

  /** Into a subtree. */
  lemma {:induction false} StepDown(sh: seq<nat>, root0: Entry, root: Entry, r: Range, clear: bool, visited: seq<Visit>,
                                    p: seq<nat>, size: nat, num: nat, a: nat, rpg: seq<seq<nat>>, rnum: seq<nat>)
    requires Walking(sh, root0, root, r, clear, visited, p, size, num, a, rpg, rnum)
    requires ValidPath(root, p) && EntryAt(root, p).Table? && num > 0
    ensures size > 0 && size - 1 < |rpg| && size - 1 < |rnum|
    ensures Walking(sh, root0, root, r, clear, visited, p + [0], size - 1, TableSize(sh, size - 1), a,
                    rpg[size - 1 := p], rnum[size - 1 := num - 1])
  {
    hide Lookup, Span, Offset, VisitsExactly, Cleared, RangeOk, TableSize;
    EntryInRange(sh, root, r, p, size);
    EntryIsTable(sh, EntryAt(root, p), size);
    PathSnoc(root, p, 0);
    OffsetOfFirst(sh, p);
    RangeLevels(sh, r);
    var p', rpg', rnum' := p + [0], rpg[size - 1 := p], rnum[size - 1 := num - 1];
    forall s | size - 1 <= s < r.pgsize ensures Framed(sh, r, p', s, rpg', rnum') {
      if s == size - 1 {
        assert p'[..Last(sh) - s - 1] == p;
      } else {
        assert Framed(sh, r, p, s, rpg, rnum);
        assert p'[..Last(sh) - s - 1] == p[..Last(sh) - s - 1];
      }
    }
    assert p'[..|r.tp|] == p[..|r.tp|];
  }

  lemma {:induction false} EntryIsTable(sh: seq<nat>, e: Entry, s: nat)
    requires WellFormed(sh, e, s) && e.Table?
    ensures s > 0 && |e.entries| == TableSize(sh, s - 1) && |e.entries| > 0
  {
  }

  lemma {:induction false} OffsetOfFirst(sh: seq<nat>, p: seq<nat>)
    requires |p| < Last(sh)
    ensures Offset(sh, Last(sh), p + [0]) == Offset(sh, Last(sh), p)
  {
    hide Offset, Span;
    OffsetSnoc(sh, Last(sh), p, 0);
  }

  lemma {:induction false} RangeLevels(sh: seq<nat>, r: Range)
    requires RangeOk(sh, r)
    ensures r.pgsize < Last(sh) && |r.tp| == Last(sh) - r.pgsize - 1 && ShiftsOk(sh)
  {
  }

  /** Past an entry that is not a table: a mapping has been handed on and, in a full flush, cleared. */
  lemma {:induction false} StepOver(sh: seq<nat>, root0: Entry, root: Entry, r: Range, clear: bool, visited: seq<Visit>,
                                    p: seq<nat>, size: nat, num: nat, a: nat, rpg: seq<seq<nat>>, rnum: seq<nat>)
    requires Walking(sh, root0, root, r, clear, visited, p, size, num, a, rpg, rnum)
    requires ValidPath(root, p) && !EntryAt(root, p).Table? && num > 0
    ensures var e := EntryAt(root, p);
            var root' := if e.Leaf? && clear then Update(root, p, Invalid) else root;
            var visited' := if e.Leaf? then visited + [Visit(a, Found(e, size))] else visited;
            Between(sh, root0, root', r, clear, visited', p, size, num - 1, a + Span(sh, size), rpg, rnum)
  {
    hide Span, Offset, VisitsExactly, Cleared, RangeOk, TableSize, Framed, WellFormed;
    var e := EntryAt(root, p);
    EntryInRange(sh, root, r, p, size);
    RangeLevels(sh, r);
    var b := a + Span(sh, size);
    forall o | a <= o < b
      ensures Lookup(sh, root0, Last(sh), o) == if e.Leaf? then Some(Found(e, size)) else None
    {
      AheadSame(sh, root0, root, r, clear, p, size, o);
    }
    if e == Invalid {
      SkipEntry(sh, root0, visited, r.lo, a, b);
      ClearNothing(sh, root0, root, clear, r.lo, a, b);
    } else {
      AddVisit(sh, root0, visited, r.lo, a, Found(e, size));
      if clear {
        ClearEntry(sh, root0, root, r.lo, a, b, p, size);
        UpdateKeepsPath(root, p, Invalid);
      } else {
        NotCleared(sh, root0, root, r.lo, a, b);
      }
    }
  }

  lemma {:induction false} NotCleared(sh: seq<nat>, root0: Entry, root: Entry, lo: nat, a: nat, b: nat)
    requires Cleared(sh, root0, root, false, lo, a)
    ensures Cleared(sh, root0, root, false, lo, b)
  {
  }

  lemma {:induction false} UpdateKeepsPath(e: Entry, path: seq<nat>, x: Entry)
    requires ValidPath(e, path)
    ensures ValidPath(Update(e, path, x), path)
    decreases |path|
  {
    if path != [] {
      UpdateKeepsPath(e.entries[path[0]], path[1..], x);
    }
  }

  /** Back up to the entry above, whose subtree may be removed in a full flush. */
  lemma {:induction false} StepUp(sh: seq<nat>, root0: Entry, root: Entry, r: Range, clear: bool, visited: seq<Visit>,
                                  q: seq<nat>, size: nat, a: nat, rpg: seq<seq<nat>>, rnum: seq<nat>, remove: bool)
    requires Between(sh, root0, root, r, clear, visited, q, size, 0, a, rpg, rnum) && size < r.pgsize
    requires (remove ==> clear)
    ensures size < |rpg| && size < |rnum| && ValidPath(root, rpg[size])
    ensures var root' := if remove then Update(root, rpg[size], Invalid) else root;
            Between(sh, root0, root', r, clear, visited, rpg[size], size + 1, rnum[size], a, rpg, rnum)
  {
    hide Span, Offset, VisitsExactly, Cleared, RangeOk, TableSize;
    RangeLevels(sh, r);
    assert Framed(sh, r, q, size, rpg, rnum);
    var q', i := q[..|q| - 1], q[|q| - 1];
    assert rpg[size] == q' && q == q' + [i];
    PathInit(root, q);
    ParentEnd(sh, root, r, q, size);
    assert q'[..|r.tp|] == r.tp;
    EntryInRange(sh, root, r, q', size + 1);
    forall s | size + 1 <= s < r.pgsize ensures Framed(sh, r, q', s, rpg, rnum) {
      assert Framed(sh, r, q, s, rpg, rnum);
      assert q'[..Last(sh) - s - 1] == q[..Last(sh) - s - 1];
    }
    if remove {
      ClearEntry(sh, root0, root, r.lo, a, a, q', size + 1);
      UpdateKeepsPath(root, q', Invalid);
    }
  }

  /** The last entry of a table ends where the entry above ends. */
  lemma {:induction false} ParentEnd(sh: seq<nat>, root: Entry, r: Range, q: seq<nat>, size: nat)
    requires AtEntry(sh, root, r, q, size) && size < r.pgsize && Left(sh, r, q, size) == 1
    ensures Offset(sh, Last(sh), q) + Span(sh, size) == Offset(sh, Last(sh), q[..|q| - 1]) + Span(sh, size + 1)
  {
    hide Span, Offset, TableSize, ValidPath, WellFormed;
    var q', i := q[..|q| - 1], q[|q| - 1];
    assert q == q' + [i];
    OffsetSnoc(sh, Last(sh), q', i);
    SpanStep(sh, size);
    MulSplit(i, 1, Span(sh, size));
  }

  /** On to the next entry of the table. */
  lemma {:induction false} StepNext(sh: seq<nat>, root0: Entry, root: Entry, r: Range, clear: bool, visited: seq<Visit>,
                                    q: seq<nat>, size: nat, num: nat, a: nat, rpg: seq<seq<nat>>, rnum: seq<nat>)
    requires Between(sh, root0, root, r, clear, visited, q, size, num, a, rpg, rnum) && num > 0
    ensures q != [] && Walking(sh, root0, root, r, clear, visited, NextEntry(q), size, num, a, rpg, rnum)
  {
    hide Span, Offset, VisitsExactly, Cleared, TableSize;
    RangeLevels(sh, r);
    var q', i, p := q[..|q| - 1], q[|q| - 1], NextEntry(q);
    assert q == q' + [i] && p == q' + [i + 1];
    PathInit(root, q);
    OffsetBound(sh, root, Last(sh), q');
    EntryIsTable(sh, EntryAt(root, q'), size + 1);
    PathSnoc(root, q', i + 1);
    OffsetSnoc(sh, Last(sh), q', i);
    OffsetSnoc(sh, Last(sh), q', i + 1);
    MulSplit(i, 1, Span(sh, size));
    assert p[..|r.tp|] == q[..|r.tp|];
    forall s | size <= s < r.pgsize ensures Framed(sh, r, p, s, rpg, rnum) {
      assert Framed(sh, r, q, s, rpg, rnum);
      assert p[..Last(sh) - s - 1] == q[..Last(sh) - s - 1];
    }
  }

  /** `next`. */
  function NextEntry(pg: seq<nat>): seq<nat> {
    if pg == [] then pg else pg[..|pg| - 1] + [pg[|pg| - 1] + 1]
  }

  /** The end of the range. */
  lemma {:induction false} StepDone(sh: seq<nat>, root0: Entry, root: Entry, r: Range, clear: bool, visited: seq<Visit>,
                                    q: seq<nat>, a: nat, rpg: seq<seq<nat>>, rnum: seq<nat>)
    requires Between(sh, root0, root, r, clear, visited, q, r.pgsize, 0, a, rpg, rnum)
    ensures a == r.hi
  {
    hide Span, Offset, VisitsExactly, Cleared, TableSize, ValidPath, WellFormed;
    var q', i := q[..|q| - 1], q[|q| - 1];
    assert q == q' + [i] && q' == r.tp;
    OffsetSnoc(sh, Last(sh), q', i);
    MulSplit(i, 1, Span(sh, r.pgsize));
    MulSplit(r.first, r.n, Span(sh, r.pgsize));
  }

  /* ---------- on the way to the range ---------- */

  /** The entry at `p` covers `lo`. */
  ghost predicate Covers(sh: seq<nat>, root: Entry, p: seq<nat>, size: nat, lo: nat) {
    && ShiftsOk(sh) && WellFormed(sh, root, Last(sh)) && ValidPath(root, p) && p != [] && size + |p| == Last(sh)
    && Offset(sh, Last(sh), p) + lo % Span(sh, size) == lo < Span(sh, Last(sh))
  }

  /** `pgsize` is the largest page size that fits into `bits`. */
  ghost predicate LargestFit(sh: seq<nat>, pgsize: nat, bits: nat) {
    && pgsize < Last(sh) && sh[pgsize] <= bits <= sh[Last(sh)]
    && (pgsize + 1 < Last(sh) ==> bits < sh[pgsize + 1])
  }

  lemma {:induction false} AlignedFits(v: nat, a: nat, b: nat)
    requires a <= b && v % Pow2(a) == 0
    ensures v % Pow2(b) + Pow2(a) <= Pow2(b)
  {
    hide Pow2;
    Pow2Add(b - a, a);
    NestedDigits(v, Pow2(a), Pow2(b - a));
    var w := v % Pow2(b);
    DigitElse(w, Pow2(a), w / Pow2(a));
    QuotBound(w, Pow2(a), Pow2(b - a));
    BoundStep(w / Pow2(a), Pow2(b - a), Pow2(a));
  }

  lemma {:induction false} QuotBound(w: nat, d: nat, n: nat)
    requires d > 0 && w < n * d
    ensures w / d < n
  {
    var q := w / d;
    DigitElse(w, d, q);
    if q >= n { MulMono(n, q, d); }
  }

  lemma {:induction false} MultipleOfSmaller(v: nat, a: nat, b: nat)
    requires a <= b && v % Pow2(b) == 0
    ensures v % Pow2(a) == 0
  {
    hide Pow2;
    Pow2Add(b - a, a);
    NestedDigits(v, Pow2(a), Pow2(b - a));
    DivModUnique(0, Pow2(a), 0, 0);
  }

  /** The whole range lies below an entry that covers `lo` and is larger. */
  lemma {:induction false} RangeBelow(sh: seq<nat>, root: Entry, p: seq<nat>, size: nat, lo: nat, bits: nat,
                                      pgsize: nat)
    requires Covers(sh, root, p, size, lo) && LargestFit(sh, pgsize, bits) && size > pgsize && lo % Pow2(bits) == 0
    ensures Offset(sh, Last(sh), p) <= lo && lo + Pow2(bits) <= Offset(sh, Last(sh), p) + Span(sh, size)
  {
    hide Pow2, Offset;
    assert bits <= sh[size];
    AlignedFits(lo, bits, sh[size]);
  }

  /** A larger entry without a table decides the whole range. */
  lemma {:induction false} LargeEntry(sh: seq<nat>, root: Entry, p: seq<nat>, size: nat, lo: nat, bits: nat,
                                      pgsize: nat, o: nat)
    requires Covers(sh, root, p, size, lo) && LargestFit(sh, pgsize, bits) && size > pgsize && lo % Pow2(bits) == 0
    requires !EntryAt(root, p).Table? && lo <= o < lo + Pow2(bits)
    ensures Lookup(sh, root, Last(sh), o) == if EntryAt(root, p).Leaf? then Some(Found(EntryAt(root, p), size))
      else None
  {
    hide Pow2, Offset, Span;
    RangeBelow(sh, root, p, size, lo, bits, pgsize);
    LookupInside(sh, root, Last(sh), p, o);
  }

  /** Arriving at the page size: the entries to walk start here. */
  lemma {:induction false} Arrive(sh: seq<nat>, root: Entry, p: seq<nat>, pgsize: nat, lo: nat, bits: nat, clear: bool,
                                  rpg: seq<seq<nat>>, rnum: seq<nat>)
    requires Covers(sh, root, p, pgsize, lo) && LargestFit(sh, pgsize, bits) && lo % Pow2(bits) == 0
    requires |rpg| == |rnum| >= pgsize
    ensures var n := Pow2(bits - sh[pgsize]);
            var r := Range(p[..|p| - 1], p[|p| - 1], n, pgsize, lo, lo + Pow2(bits));
            RangeOk(sh, r) && Walking(sh, root, root, r, clear, [], p, pgsize, n, lo, rpg, rnum)
  {
    hide Pow2, Offset, WellFormed, ValidPath, Lookup, Span, TableSize, VisitsExactly, Cleared;
    ArriveRange(sh, root, p, pgsize, lo, bits);
    var n := Pow2(bits - sh[pgsize]);
    ArriveWalk(sh, root, Range(p[..|p| - 1], p[|p| - 1], n, pgsize, lo, lo + Pow2(bits)), p, clear, rpg, rnum);
  }

  lemma {:induction false} ArriveWalk(sh: seq<nat>, root: Entry, r: Range, p: seq<nat>, clear: bool, rpg: seq<seq<nat>>,
                                      rnum: seq<nat>)
    requires RangeOk(sh, r) && WellFormed(sh, root, Last(sh)) && ValidPath(root, p) && p != []
    requires r.pgsize + |p| == Last(sh)
    requires r.tp == p[..|p| - 1] && r.first == p[|p| - 1] && r.n > 0 && r.lo == Offset(sh, Last(sh), p)
    requires |rpg| == |rnum| >= r.pgsize
    ensures Walking(sh, root, root, r, clear, [], p, r.pgsize, r.n, r.lo, rpg, rnum)
  {
    hide Offset, WellFormed, ValidPath, Lookup, Span, TableSize, VisitsExactly, Cleared, RangeOk;
    NothingYet(sh, root, clear, r.lo);
  }

  lemma {:induction false} ArriveRange(sh: seq<nat>, root: Entry, p: seq<nat>, pgsize: nat, lo: nat, bits: nat)
    requires Covers(sh, root, p, pgsize, lo) && LargestFit(sh, pgsize, bits) && lo % Pow2(bits) == 0
    ensures RangeOk(sh, Range(p[..|p| - 1], p[|p| - 1], Pow2(bits - sh[pgsize]), pgsize, lo, lo + Pow2(bits)))
    ensures Offset(sh, Last(sh), p) == lo
  {
    hide Pow2, Offset, WellFormed, ValidPath, Lookup, Span, TableSize;
    var tp, i := p[..|p| - 1], p[|p| - 1];
    assert p == tp + [i];
    SmallestStart(sh, pgsize, lo, bits);
    OffsetSnoc(sh, Last(sh), tp, i);
    TableRoom(sh, root, p, pgsize, lo, bits);
  }

  lemma {:induction false} SmallestStart(sh: seq<nat>, pgsize: nat, lo: nat, bits: nat)
    requires LargestFit(sh, pgsize, bits) && lo % Pow2(bits) == 0
    ensures lo % Span(sh, pgsize) == 0 && Pow2(bits - sh[pgsize]) * Span(sh, pgsize) == Pow2(bits)
  {
    hide Pow2;
    MultipleOfSmaller(lo, sh[pgsize], bits);
    Pow2Add(bits - sh[pgsize], sh[pgsize]);
  }

  lemma {:induction false} NothingYet(sh: seq<nat>, root: Entry, clear: bool, lo: nat)
    ensures VisitsExactly(sh, root, [], lo, lo) && Cleared(sh, root, root, clear, lo, lo)
  {
  }

  lemma {:induction false} TableRoom(sh: seq<nat>, root: Entry, p: seq<nat>, pgsize: nat, lo: nat, bits: nat)
    requires Covers(sh, root, p, pgsize, lo) && LargestFit(sh, pgsize, bits) && lo % Pow2(bits) == 0
    requires lo % Span(sh, pgsize) == 0
    ensures p[|p| - 1] + Pow2(bits - sh[pgsize]) <= TableSize(sh, pgsize)
  {
    hide Pow2, Offset, WellFormed, ValidPath, TableSize, Span;
    var n, d, i := Pow2(bits - sh[pgsize]), Span(sh, pgsize), p[|p| - 1];
    SmallestStart(sh, pgsize, lo, bits);
    WithinParent(sh, root, p, pgsize, lo);
    SpanStep(sh, pgsize);
    ParentRoom(sh, pgsize, lo, bits);
    MulSplit(i, n, d);
    RoomFromProduct(i + n, TableSize(sh, pgsize), d);
  }

  lemma {:induction false} ParentRoom(sh: seq<nat>, pgsize: nat, lo: nat, bits: nat)
    requires ShiftsOk(sh) && LargestFit(sh, pgsize, bits) && lo % Pow2(bits) == 0
    ensures lo % Span(sh, pgsize + 1) + Pow2(bits) <= Span(sh, pgsize + 1)
  {
    hide Pow2;
    AlignedFits(lo, bits, sh[pgsize + 1]);
  }

  /** An aligned address is `i` pages into the page above, where `i` ends its path. */
  lemma {:induction false} WithinParent(sh: seq<nat>, root: Entry, p: seq<nat>, size: nat, lo: nat)
    requires Covers(sh, root, p, size, lo) && size < Last(sh) && lo % Span(sh, size) == 0
    ensures lo % Span(sh, size + 1) == p[|p| - 1] * Span(sh, size)
  {
    hide Offset, WellFormed, ValidPath, TableSize, Span;
    var d, tp, i := Span(sh, size), p[..|p| - 1], p[|p| - 1];
    assert p == tp + [i];
    PathInit(root, p);
    OffsetBound(sh, root, Last(sh), tp);
    EntryIsTable(sh, EntryAt(root, tp), size + 1);
    OffsetSnoc(sh, Last(sh), tp, i);
    SpanStep(sh, size);
    OffsetAligned(sh, tp, size + 1);
    BoundStep(i, TableSize(sh, size), d);
    ParentDigit(lo, Offset(sh, Last(sh), tp), i * d, Span(sh, size + 1));
  }

  lemma {:induction false} RoomFromProduct(a: nat, b: nat, d: nat)
    requires d > 0 && a * d <= b * d
    ensures a <= b
  {
    if a > b { BoundStep(b, a, d); }
  }

  /** Addresses of entries are multiples of their size. */
  lemma {:induction false} OffsetAligned(sh: seq<nat>, p: seq<nat>, size: nat)
    requires ShiftsOk(sh) && size + |p| == Last(sh)
    ensures Offset(sh, Last(sh), p) % Span(sh, size) == 0
    decreases |p|
  {
    hide Span, Offset;
    if p == [] {
      NothingOffset(sh);
      DivModUnique(0, Span(sh, size), 0, 0);
    } else {
      var q, i := p[..|p| - 1], p[|p| - 1];
      assert p == q + [i];
      OffsetAligned(sh, q, size + 1);
      OffsetSnoc(sh, Last(sh), q, i);
      SpanStep(sh, size);
      SumOfMultiples(Offset(sh, Last(sh), q), TableSize(sh, size), Span(sh, size), i);
    }
  }

  lemma {:induction false} NothingOffset(sh: seq<nat>)
    ensures Offset(sh, Last(sh), []) == 0
  {
  }

  lemma {:induction false} SumOfMultiples(a: nat, n: nat, d: nat, i: nat)
    requires d > 0 && n > 0 && n * d > 0 && a % (n * d) == 0
    ensures (a + i * d) % d == 0
  {
    var q := a / (n * d);
    assert a == q * (n * d);
    assert q * (n * d) == (q * n) * d;
    MulSplit(q * n, i, d);
    MulMod(q * n + i, d);
  }

  lemma {:induction false} ParentDigit(lo: nat, a: nat, x: nat, d: nat)
    requires d > 0 && a % d == 0 && lo == a + x && x < d
    ensures lo % d == x
  {
    var q := a / d;
    assert a == q * d;
    DivModUnique(lo, d, q, x);
  }
}
