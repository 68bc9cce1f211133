/** The recursive traversal that the explicit stacks of `unmap_fpage` replace
    (kernel/src/generic/linear_ptab_walker.cc), and the proof that the two visit the same mappings in
    the same order.
 */
module PageTraversal {
  import opened Options
  import opened Words
  import opened PageTable
  import opened PageWalk

  /** All mappings below an entry of level `s` at address `base`. */
  function Leaves(sh: seq<nat>, e: Entry, s: nat, base: nat): seq<Visit>
    decreases s, 0
  {
    match e
    case Invalid => []
    case Leaf(_, _) => [Visit(base, Found(e, s))]
    case Table(es) => if s == 0 then [] else LeavesFrom(sh, es, s - 1, base, 0)
  }

  /** The mappings below entry `i` and the later ones of a table whose entries have level `s`. */
  function LeavesFrom(sh: seq<nat>, es: seq<Entry>, s: nat, base: nat, i: nat): seq<Visit>
    decreases s, |es| - i + 1
  {
    if i >= |es| then [] else Leaves(sh, es[i], s, base + i * Span(sh, s)) + LeavesFrom(sh, es, s, base, i + 1)
  }

  /** The mapping of address `o` in an entry at `base`. */
  function MapsTo(sh: seq<nat>, e: Entry, s: nat, base: nat, o: nat): Option<Found> {
    if o >= base then Lookup(sh, e, s, o - base) else None
  }

  /** `v` visits every mapping of the range from `lo` up to `hi` of an entry at `base`, once and in
      ascending order. */
  ghost predicate Exact(sh: seq<nat>, e: Entry, s: nat, base: nat, v: seq<Visit>, lo: nat, hi: nat) {
    && base <= lo
    && (forall i :: 0 <= i < |v| ==> WithinRange(sh, e, s, base, v[i], lo, hi))
    && (forall i, j :: 0 <= i < j < |v| ==> v[i].vaddr + Span(sh, v[i].found.size) <= v[j].vaddr)
    && (forall o :: lo <= o < hi && MapsTo(sh, e, s, base, o).Some? ==>
        Visited(sh, v, MapsTo(sh, e, s, base, o).value, o))
  }

  ghost predicate WithinRange(sh: seq<nat>, e: Entry, s: nat, base: nat, v: Visit, lo: nat, hi: nat) {
    lo <= v.vaddr && v.vaddr + Span(sh, v.found.size) <= hi && MapsTo(sh, e, s, base, v.vaddr) == Some(v.found)
  }

  /** Two ranges side by side. */
  lemma {:induction false} ExactBoth(sh: seq<nat>, e: Entry, s: nat, base: nat, v: seq<Visit>, w: seq<Visit>, a: nat,
                                     b: nat, c: nat)
    requires Exact(sh, e, s, base, v, a, b) && Exact(sh, e, s, base, w, b, c) && a <= b <= c
    ensures Exact(sh, e, s, base, v + w, a, c)
  {
    hide MapsTo, Span, Visited;
    var x := v + w;
    forall i | 0 <= i < |x| ensures WithinRange(sh, e, s, base, x[i], a, c) {
      if i < |v| { assert WithinRange(sh, e, s, base, v[i], a, b); }
        else { assert WithinRange(sh, e, s, base, w[i - |v|], b, c); }
    }
    forall i, j | 0 <= i < j < |x| ensures x[i].vaddr + Span(sh, x[i].found.size) <= x[j].vaddr {
      if i < |v| <= j {
        assert WithinRange(sh, e, s, base, v[i], a, b);
        assert WithinRange(sh, e, s, base, w[j - |v|], b, c);
      }
    }
    forall o | a <= o < c && MapsTo(sh, e, s, base, o).Some?
      ensures Visited(sh, x, MapsTo(sh, e, s, base, o).value, o) {
      VisitedEither(sh, v, w, MapsTo(sh, e, s, base, o).value, o);
    }
  }

  lemma {:induction false} VisitedEither(sh: seq<nat>, v: seq<Visit>, w: seq<Visit>, f: Found, o: nat)
    ensures Visited(sh, v, f, o) || Visited(sh, w, f, o) ==> Visited(sh, v + w, f, o)
  {
    hide Span;
    if Visited(sh, v, f, o) {
      var i :| 0 <= i < |v| && v[i].found == f && v[i].vaddr <= o < v[i].vaddr + Span(sh, f.size);
      assert (v + w)[i] == v[i];
    } else if Visited(sh, w, f, o) {
      var i :| 0 <= i < |w| && w[i].found == f && w[i].vaddr <= o < w[i].vaddr + Span(sh, f.size);
      assert (v + w)[|v| + i] == w[i];
    }
  }

  /** A range in which two entries map alike. */
  lemma {:induction false} ExactElsewhere(sh: seq<nat>, e: Entry, s: nat, base: nat, e': Entry, s': nat, base': nat,
                                          v: seq<Visit>, lo: nat, hi: nat)
    requires Exact(sh, e, s, base, v, lo, hi) && base' <= lo
    requires forall o :: lo <= o < hi ==> MapsTo(sh, e', s', base', o) == MapsTo(sh, e, s, base, o)
    ensures Exact(sh, e', s', base', v, lo, hi)
  {
    hide MapsTo, Span, Visited;
    forall i | 0 <= i < |v| ensures WithinRange(sh, e', s', base', v[i], lo, hi) {
      assert WithinRange(sh, e, s, base, v[i], lo, hi);
      SpanPositive(sh, v[i].found.size);
    }
  }

  lemma {:induction false} SpanPositive(sh: seq<nat>, s: nat)
    ensures Span(sh, s) > 0
  {
  }

  /** The traversal of an entry is exact. */
  lemma {:induction false} LeavesExact(sh: seq<nat>, e: Entry, s: nat, base: nat)
    requires ShiftsOk(sh) && WellFormed(sh, e, s) && s < |sh|
    ensures Exact(sh, e, s, base, Leaves(sh, e, s, base), base, base + Span(sh, s))
    decreases s, 0, 0
  {
    hide Span, TableSize, Exact;
    if e.Table? {
      LeavesFromExact(sh, e, s - 1, base, 0, |e.entries|);
      SpanStep(sh, s - 1);
      NoProduct(Span(sh, s - 1));
      assert e.entries[..|e.entries|] == e.entries;
    } else {
      SingleExact(sh, e, s, base);
    }
  }

  lemma {:induction false} SingleExact(sh: seq<nat>, e: Entry, s: nat, base: nat)
    requires !e.Table?
    ensures Exact(sh, e, s, base, Leaves(sh, e, s, base), base, base + Span(sh, s))
  {
    hide Span;
    if e.Leaf? {
      var v := Leaves(sh, e, s, base);
      assert v == [Visit(base, Found(e, s))];
      forall o | base <= o < base + Span(sh, s) ensures Visited(sh, v, Found(e, s), o) {
        assert v[0].vaddr <= o < v[0].vaddr + Span(sh, s);
      }
    }
  }

  lemma {:induction false} NoProduct(d: nat)
    ensures 0 * d == 0
  {
  }

  /** So is the traversal of the entries of a table from `i` up to `m`. */
  lemma {:induction false} LeavesFromExact(sh: seq<nat>, t: Entry, s: nat, base: nat, i: nat, m: nat)
    requires ShiftsOk(sh) && WellFormed(sh, t, s + 1) && s + 1 < |sh| && t.Table? && i <= m <= |t.entries|
    ensures Exact(sh, t, s + 1, base, LeavesFrom(sh, t.entries[..m], s, base, i), base + i * Span(sh, s),
                  base + m * Span(sh, s))
    decreases s, 1, m - i
  {
    hide Span, TableSize, Exact, MapsTo, Leaves;
    var d := Span(sh, s);
    if i < m {
      LeavesExact(sh, t.entries[i], s, base + i * d);
      EntryExact(sh, t, s, base, i, Leaves(sh, t.entries[i], s, base + i * d));
      LeavesFromExact(sh, t, s, base, i + 1, m);
      NextProduct(i, m, d);
      ExactBoth(sh, t, s + 1, base, Leaves(sh, t.entries[i], s, base + i * d),
                LeavesFrom(sh, t.entries[..m], s, base, i + 1),
                base + i * d, base + (i + 1) * d, base + m * d);
    } else {
      NothingExact(sh, t, s + 1, base, base + i * d);
    }
  }

  /** What is exact for an entry is exact for its part of the table. */
  lemma {:induction false} EntryExact(sh: seq<nat>, t: Entry, s: nat, base: nat, i: nat, part: seq<Visit>)
    requires t.Table? && i < |t.entries|
    requires var a := base + i * Span(sh, s); Exact(sh, t.entries[i], s, a, part, a, a + Span(sh, s))
    ensures Exact(sh, t, s + 1, base, part, base + i * Span(sh, s), base + (i + 1) * Span(sh, s))
  {
    hide Span, Exact;
    var d := Span(sh, s);
    var a := base + i * d;
    assert (i + 1) * d == i * d + d;
    forall o | a <= o < a + d ensures MapsTo(sh, t, s + 1, base, o) == MapsTo(sh, t.entries[i], s, a, o) {
      Digit(o - base, d, i);
    }
    ExactElsewhere(sh, t.entries[i], s, a, t, s + 1, base, part, a, a + d);
  }

  lemma {:induction false} NextProduct(i: nat, n: nat, d: nat)
    requires i < n
    ensures (i + 1) * d == i * d + d && (i + 1) * d <= n * d
  {
    BoundStep(i, n, d);
  }

  lemma {:induction false} NothingExact(sh: seq<nat>, e: Entry, s: nat, base: nat, lo: nat)
    requires base <= lo
    ensures Exact(sh, e, s, base, [], lo, lo)
  {
  }

  ghost predicate Agree(v: seq<Visit>, w: seq<Visit>, k: nat) {
    k <= |v| && k <= |w| && forall j :: 0 <= j < k ==> v[j] == w[j]
  }

  /** There is only one exact sequence of visits. */
  lemma {:induction false} ExactUnique(sh: seq<nat>, e: Entry, s: nat, base: nat, v: seq<Visit>, w: seq<Visit>, lo: nat,
                                       hi: nat, k: nat)
    requires Exact(sh, e, s, base, v, lo, hi) && Exact(sh, e, s, base, w, lo, hi) && k <= |v|
    ensures Agree(v, w, k)
    decreases k
  {
    hide Exact;
    if k > 0 {
      ExactUnique(sh, e, s, base, v, w, lo, hi, k - 1);
      NextSame(sh, e, s, base, v, w, lo, hi, k - 1);
    }
  }

  /** After a common prefix, the next visits agree. */
  lemma {:induction false} NextSame(sh: seq<nat>, e: Entry, s: nat, base: nat, v: seq<Visit>, w: seq<Visit>, lo: nat,
                                    hi: nat, k: nat)
    requires Exact(sh, e, s, base, v, lo, hi) && Exact(sh, e, s, base, w, lo, hi) && k < |v| && Agree(v, w, k)
    ensures k < |w| && v[k] == w[k]
  {
    hide MapsTo, Span, Exact, Agree;
    AgreeBoth(v, w, k);
    NotAfter(sh, e, s, base, v, w, lo, hi, k);
    NotAfter(sh, e, s, base, w, v, lo, hi, k);
    ExactAt(sh, e, s, base, v, lo, hi, k);
    ExactAt(sh, e, s, base, w, lo, hi, k);
  }

  lemma {:induction false} AgreeBoth(v: seq<Visit>, w: seq<Visit>, k: nat)
    requires Agree(v, w, k)
    ensures Agree(w, v, k)
  {
  }

  lemma {:induction false} NotAfter(sh: seq<nat>, e: Entry, s: nat, base: nat, v: seq<Visit>, w: seq<Visit>, lo: nat,
                                    hi: nat, k: nat)
    requires Exact(sh, e, s, base, v, lo, hi) && Exact(sh, e, s, base, w, lo, hi) && k < |v| && Agree(v, w, k)
    ensures k < |w| && w[k].vaddr <= v[k].vaddr
  {
    hide MapsTo, Span, Exact, Visited;
    var o := v[k].vaddr;
    ExactAt(sh, e, s, base, v, lo, hi, k);
    SpanPositive(sh, v[k].found.size);
    var f := v[k].found;
    ExactCovers(sh, e, s, base, w, lo, hi, o);
    var j := Visitor(sh, w, f, o);
    if j < k {
      ExactOrder(sh, e, s, base, v, lo, hi, j, k);
      assert false;
    }
    if k < j {
      SpanPositive(sh, w[k].found.size);
      ExactOrder(sh, e, s, base, w, lo, hi, k, j);
    }
  }

  ghost function Visitor(sh: seq<nat>, w: seq<Visit>, f: Found, o: nat): (j: nat)
    requires Visited(sh, w, f, o)
    ensures j < |w| && w[j].found == f && w[j].vaddr <= o < w[j].vaddr + Span(sh, f.size)
  {
    var j :| 0 <= j < |w| && w[j].found == f && w[j].vaddr <= o < w[j].vaddr + Span(sh, f.size);
    j
  }

  lemma {:induction false} ExactAt(sh: seq<nat>, e: Entry, s: nat, base: nat, v: seq<Visit>, lo: nat, hi: nat, i: nat)
    requires Exact(sh, e, s, base, v, lo, hi) && i < |v|
    ensures WithinRange(sh, e, s, base, v[i], lo, hi)
  {
  }

  lemma {:induction false} ExactOrder(sh: seq<nat>, e: Entry, s: nat, base: nat, v: seq<Visit>, lo: nat, hi: nat,
                                      i: nat, j: nat)
    requires Exact(sh, e, s, base, v, lo, hi) && i < j < |v|
    ensures v[i].vaddr + Span(sh, v[i].found.size) <= v[j].vaddr
  {
  }

  lemma {:induction false} ExactCovers(sh: seq<nat>, e: Entry, s: nat, base: nat, v: seq<Visit>, lo: nat, hi: nat,
                                       o: nat)
    requires Exact(sh, e, s, base, v, lo, hi) && lo <= o < hi && MapsTo(sh, e, s, base, o).Some?
    ensures Visited(sh, v, MapsTo(sh, e, s, base, o).value, o)
  {
  }

  /* ---------- a window ---------- */

  /** The recursive traversal that unmaps: the mappings of those entries that meet the window. */
  function LeavesIn(sh: seq<nat>, e: Entry, s: nat, base: nat, lo: nat, hi: nat): seq<Visit>
    decreases s, 0
  {
    if hi <= base || base + Span(sh, s) <= lo then [] else
    match e
    case Invalid => []
    case Leaf(_, _) => [Visit(base, Found(e, s))]
    case Table(es) => if s == 0 then [] else LeavesInFrom(sh, es, s - 1, base, 0, lo, hi)
  }

  function LeavesInFrom(sh: seq<nat>, es: seq<Entry>, s: nat, base: nat, i: nat, lo: nat, hi: nat): seq<Visit>
    decreases s, |es| - i + 1
  {
    if i >= |es| then []
    else LeavesIn(sh, es[i], s, base + i * Span(sh, s), lo, hi) + LeavesInFrom(sh, es, s, base, i + 1, lo, hi)
  }

  /** An entry within the window is traversed in full. */
  lemma {:induction false} LeavesWithin(sh: seq<nat>, e: Entry, s: nat, base: nat, lo: nat, hi: nat)
    requires ShiftsOk(sh) && WellFormed(sh, e, s) && s < |sh| && lo <= base && base + Span(sh, s) <= hi
    ensures LeavesIn(sh, e, s, base, lo, hi) == Leaves(sh, e, s, base)
    decreases s, 0, 0
  {
    hide Span, TableSize;
    SpanPositive(sh, s);
    if e.Table? {
      SpanStep(sh, s - 1);
      LeavesWithinFrom(sh, e.entries, s - 1, base, 0, lo, hi);
    }
  }

  lemma {:induction false} LeavesWithinFrom(sh: seq<nat>, es: seq<Entry>, s: nat, base: nat, i: nat, lo: nat, hi: nat)
    requires ShiftsOk(sh) && s < |sh| && i <= |es| && lo <= base + i * Span(sh, s) && base + |es| * Span(sh, s) <= hi
    requires forall j :: 0 <= j < |es| ==> WellFormed(sh, es[j], s)
    ensures LeavesInFrom(sh, es, s, base, i, lo, hi) == LeavesFrom(sh, es, s, base, i)
    decreases s, 1, |es| - i
  {
    hide Span, WellFormed, Leaves, LeavesIn;
    if i < |es| {
      NextProduct(i, |es|, Span(sh, s));
      LeavesWithin(sh, es[i], s, base + i * Span(sh, s), lo, hi);
      LeavesWithinFrom(sh, es, s, base, i + 1, lo, hi);
    }
  }

  /** Nothing is traversed beyond the window. */
  lemma {:induction false} NoneAfter(sh: seq<nat>, es: seq<Entry>, s: nat, base: nat, i: nat, lo: nat, hi: nat)
    requires i <= |es| && hi <= base + i * Span(sh, s)
    ensures LeavesInFrom(sh, es, s, base, i, lo, hi) == []
    decreases |es| - i
  {
    hide Span;
    if i < |es| {
      NextProduct(i, |es|, Span(sh, s));
      NoneAfter(sh, es, s, base, i + 1, lo, hi);
    }
  }

  /** Nothing is traversed before the window. */
  lemma {:induction false} NoneBefore(sh: seq<nat>, es: seq<Entry>, s: nat, base: nat, i: nat, first: nat, lo: nat,
                                      hi: nat)
    requires i <= first <= |es| && base + first * Span(sh, s) <= lo
    ensures LeavesInFrom(sh, es, s, base, i, lo, hi) == LeavesInFrom(sh, es, s, base, first, lo, hi)
    decreases first - i
  {
    hide Span, LeavesIn;
    if i < first {
      NextProduct(i, first, Span(sh, s));
      EntryApart(sh, es[i], s, base + i * Span(sh, s), lo, hi);
      NoneBefore(sh, es, s, base, i + 1, first, lo, hi);
    }
  }

  /** Of a table, the entries from `i` up to `m` are traversed, if they are what the window has left. */
  lemma {:induction false} LeavesOfTable(sh: seq<nat>, es: seq<Entry>, s: nat, base: nat, i: nat, m: nat, lo: nat,
                                         hi: nat)
    requires ShiftsOk(sh) && s < |sh| && i <= m <= |es|
    requires lo <= base + i * Span(sh, s) && hi == base + m * Span(sh, s)
    requires forall j :: 0 <= j < |es| ==> WellFormed(sh, es[j], s)
    ensures LeavesInFrom(sh, es, s, base, i, lo, hi) == LeavesFrom(sh, es[..m], s, base, i)
    decreases m - i
  {
    hide Span, WellFormed, Leaves, LeavesIn;
    if i == m {
      NoneAfter(sh, es, s, base, i, lo, hi);
    } else {
      NextProduct(i, m, Span(sh, s));
      LeavesOfTable(sh, es, s, base, i + 1, m, lo, hi);
      LeavesWithin(sh, es[i], s, base + i * Span(sh, s), lo, hi);
    }
  }

  lemma {:induction false} EntryApart(sh: seq<nat>, e: Entry, s: nat, base: nat, lo: nat, hi: nat)
    requires hi <= base || base + Span(sh, s) <= lo
    ensures LeavesIn(sh, e, s, base, lo, hi) == []
  {
    hide Span;
  }

  /** A window within entry `k` of a table leads into that entry. */
  lemma {:induction false} LeavesOfEntry(sh: seq<nat>, es: seq<Entry>, s: nat, base: nat, i: nat, k: nat, lo: nat,
                                         hi: nat)
    requires i <= k < |es| && base + k * Span(sh, s) <= lo && hi <= base + k * Span(sh, s) + Span(sh, s)
    ensures LeavesInFrom(sh, es, s, base, i, lo, hi) == LeavesIn(sh, es[k], s, base + k * Span(sh, s), lo, hi)
    decreases k - i
  {
    hide Span, LeavesIn;
    var d := Span(sh, s);
    if i == k {
      NextProduct(k, |es|, d);
      NoneAfter(sh, es, s, base, k + 1, lo, hi);
    } else {
      NextProduct(i, k, d);
      EntryApart(sh, es[i], s, base + i * d, lo, hi);
      LeavesOfEntry(sh, es, s, base, i + 1, k, lo, hi);
    }
  }

  /** A window within the entry at a path leads to that entry. */
  lemma {:induction false} LeavesAtPath(sh: seq<nat>, e: Entry, s: nat, base: nat, p: seq<nat>, lo: nat, hi: nat)
    requires ShiftsOk(sh) && WellFormed(sh, e, s) && s < |sh| && ValidPath(e, p) && |p| <= s && lo < hi
    requires base + Offset(sh, s, p) <= lo && hi <= base + Offset(sh, s, p) + Span(sh, s - |p|)
    ensures LeavesIn(sh, e, s, base, lo, hi) == LeavesIn(sh, EntryAt(e, p), s - |p|, base + Offset(sh, s, p), lo, hi)
    decreases |p|
  {
    if p != [] {
      hide Span, TableSize, LeavesIn, WellFormed;
      var d, k := Span(sh, s - 1), p[0];
      PathStep(sh, e, s, p);
      OffsetBound(sh, e.entries[k], s - 1, p[1..]);
      OffsetBound(sh, e, s, p);
      LeavesIntoEntry(sh, e, s, base, k, lo, hi);
      hide EntryAt, ValidPath, Offset;
      LeavesAtPath(sh, e.entries[k], s - 1, base + k * d, p[1..], lo, hi);
    }
  }

  lemma {:induction false} PathStep(sh: seq<nat>, e: Entry, s: nat, p: seq<nat>)
    requires WellFormed(sh, e, s) && ValidPath(e, p) && p != []
    ensures e.Table? && s > 0 && p[0] < |e.entries| && WellFormed(sh, e.entries[p[0]], s - 1)
    ensures ValidPath(e.entries[p[0]], p[1..]) && EntryAt(e, p) == EntryAt(e.entries[p[0]], p[1..])
    ensures Offset(sh, s, p) == p[0] * Span(sh, s - 1) + Offset(sh, s - 1, p[1..])
  {
    hide Span, TableSize;
  }

  /** A window within entry `k` of a table leads from the table into that entry. */
  lemma {:induction false} LeavesIntoEntry(sh: seq<nat>, e: Entry, s: nat, base: nat, k: nat, lo: nat, hi: nat)
    requires ShiftsOk(sh) && WellFormed(sh, e, s) && s < |sh| && e.Table? && s > 0 && k < |e.entries| && lo < hi
    requires base + k * Span(sh, s - 1) <= lo && hi <= base + k * Span(sh, s - 1) + Span(sh, s - 1)
    ensures LeavesIn(sh, e, s, base, lo, hi)
         == LeavesIn(sh, e.entries[k], s - 1, base + k * Span(sh, s - 1), lo, hi)
  {
    hide Span, TableSize;
    SpanStep(sh, s - 1);
    BoundStep(k, TableSize(sh, s - 1), Span(sh, s - 1));
    LeavesOfEntry(sh, e.entries, s - 1, base, 0, k, lo, hi);
  }

  /* ---------- the fpage ---------- */

  /** The recursive traversal of a range of entries. */
  function Traverse(sh: seq<nat>, root: Entry, r: Range): seq<Visit>
    requires ValidPath(root, r.tp) && EntryAt(root, r.tp).Table? && r.first + r.n <= |EntryAt(root, r.tp).entries|
  {
    LeavesFrom(sh, EntryAt(root, r.tp).entries[..r.first + r.n], r.pgsize, Offset(sh, Last(sh), r.tp), r.first)
  }

  /** The range is one of a table that there is. */
  ghost predicate InTable(sh: seq<nat>, root: Entry, r: Range) {
    && RangeOk(sh, r) && r.n > 0 && WellFormed(sh, root, Last(sh)) && ValidPath(root, r.tp)
    && EntryAt(root, r.tp).Table?
  }

  /** What visits the mappings of a range exactly is the recursive traversal of its window. */
  lemma {:induction false} WalkIsTraversal(sh: seq<nat>, root: Entry, r: Range, visited: seq<Visit>)
    requires InTable(sh, root, r) && VisitsExactly(sh, root, visited, r.lo, r.hi)
    ensures visited == LeavesIn(sh, root, Last(sh), 0, r.lo, r.hi)
  {
    hide Span, TableSize, Exact, VisitsExactly, LeavesFrom, Lookup, Offset, LeavesIn;
    OffsetBound(sh, root, Last(sh), r.tp);
    TableComplete(sh, EntryAt(root, r.tp), r.pgsize + 1);
    TraverseExact(sh, root, r);
    FromZero(sh, root, visited, r.lo, r.hi);
    var w := Traverse(sh, root, r);
    ExactUnique(sh, root, Last(sh), 0, visited, w, r.lo, r.hi, |visited|);
    ExactUnique(sh, root, Last(sh), 0, w, visited, r.lo, r.hi, |w|);
    assert |visited| == |w| && forall j :: 0 <= j < |w| ==> visited[j] == w[j];
    WindowOfRange(sh, root, r);
  }

  lemma {:induction false} WindowOfRange(sh: seq<nat>, root: Entry, r: Range)
    requires InTable(sh, root, r) && r.first + r.n <= |EntryAt(root, r.tp).entries|
    ensures LeavesIn(sh, root, Last(sh), 0, r.lo, r.hi) == Traverse(sh, root, r)
  {
    hide Span, TableSize, LeavesFrom, Offset, LeavesInFrom;
    var t, base, m, d := EntryAt(root, r.tp), Offset(sh, Last(sh), r.tp), r.first + r.n, Span(sh, r.pgsize);
    OffsetBound(sh, root, Last(sh), r.tp);
    TableComplete(sh, t, r.pgsize + 1);
    SpanStep(sh, r.pgsize);
    SpanPositive(sh, r.pgsize);
    WindowBounds(base, r.first, r.n, |t.entries|, d);
    LeavesAtPath(sh, root, Last(sh), 0, r.tp, r.lo, r.hi);
    NoneBefore(sh, t.entries, r.pgsize, base, 0, r.first, r.lo, r.hi);
    LeavesOfTable(sh, t.entries, r.pgsize, base, r.first, m, r.lo, r.hi);
  }

  lemma {:induction false} WindowBounds(base: nat, first: nat, n: nat, size: nat, d: nat)
    requires d > 0 && n > 0 && first + n <= size
    ensures base <= base + first * d < base + first * d + n * d <= base + size * d
    ensures base + first * d + n * d == base + (first + n) * d
  {
    MulSplit(first, n, d);
    MulMono(first + n, size, d);
    MulMono(1, n, d);
  }

  /** No mapping is traversed below an entry that is invalid. */
  lemma {:induction false} WindowOfNothing(sh: seq<nat>, root: Entry, p: seq<nat>, lo: nat, hi: nat)
    requires ShiftsOk(sh) && WellFormed(sh, root, Last(sh)) && ValidPath(root, p) && |p| <= Last(sh)
    requires EntryAt(root, p) == Invalid
    requires Offset(sh, Last(sh), p) <= lo < hi <= Offset(sh, Last(sh), p) + Span(sh, Last(sh) - |p|)
    ensures LeavesIn(sh, root, Last(sh), 0, lo, hi) == []
  {
    hide Span, Offset;
    LeavesAtPath(sh, root, Last(sh), 0, p, lo, hi);
  }

  lemma {:induction false} TableComplete(sh: seq<nat>, e: Entry, s: nat)
    requires WellFormed(sh, e, s) && e.Table? && s > 0
    ensures |e.entries| == TableSize(sh, s - 1)
  {
  }

  lemma {:induction false} FromZero(sh: seq<nat>, root: Entry, visited: seq<Visit>, lo: nat, hi: nat)
    requires VisitsExactly(sh, root, visited, lo, hi)
    ensures Exact(sh, root, Last(sh), 0, visited, lo, hi)
  {
    hide Lookup, Span, Visited;
    forall i | 0 <= i < |visited| ensures WithinRange(sh, root, Last(sh), 0, visited[i], lo, hi) {
      assert VisitOk(sh, root, visited[i], lo, hi);
    }
  }

  lemma {:induction false} TraverseExact(sh: seq<nat>, root: Entry, r: Range)
    requires RangeOk(sh, r) && WellFormed(sh, root, Last(sh)) && ValidPath(root, r.tp) && EntryAt(root, r.tp).Table?
    requires r.first + r.n <= |EntryAt(root, r.tp).entries|
    ensures Exact(sh, root, Last(sh), 0, Traverse(sh, root, r), r.lo, r.hi)
  {
    hide Span, TableSize, Exact, LeavesFrom, Lookup, Offset;
    var t, base, m := EntryAt(root, r.tp), Offset(sh, Last(sh), r.tp), r.first + r.n;
    OffsetBound(sh, root, Last(sh), r.tp);
    TableComplete(sh, t, r.pgsize + 1);
    LeavesFromExact(sh, t, r.pgsize, base, r.first, m);
    MulSplit(r.first, r.n, Span(sh, r.pgsize));
    SpanStep(sh, r.pgsize);
    MulMono(m, |t.entries|, Span(sh, r.pgsize));
    forall o | r.lo <= o < r.hi ensures MapsTo(sh, root, Last(sh), 0, o) == MapsTo(sh, t, r.pgsize + 1, base, o) {
      LookupInside(sh, root, Last(sh), r.tp, o);
    }
    ExactElsewhere(sh, t, r.pgsize + 1, base, root, Last(sh), 0, Traverse(sh, root, r), r.lo, r.hi);
  }
}
