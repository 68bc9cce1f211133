/** What a flush does to page-table entries, reference bits and lists, one visited node at a time:
    the loop of `mdb_flush` in kernel/src/generic/mapping.cc.
 */
module MappingFlush {
  import opened Words
  import opened MapNodes
  import opened Forest
  import opened Mapping
  import opened MappingForests

  /** All three access rights. */
  const FULLY: nat := 7

  /** A flushed entry: cleared if all rights go, otherwise without the revoked write right and
      without reference bits. */
  function FlushEntry(en: PageEntry, rights: nat): PageEntry {
    if rights == FULLY then PageEntry(false, false, 0)
    else if rights / 2 % 2 == 1 then en.(writable := false, refs := 0)
    else en.(refs := 0)
  }

  /** Execute, write and read are bits 0, 1 and 2 of a set of rights. */
  ghost predicate AllRights(rights: nat) { HasBit(rights, 0) && HasBit(rights, 1) && HasBit(rights, 2) }

  /** What a flush leaves of an entry: nothing if all rights go; otherwise the entry is there as before, its
      reference bits are reset, and it can be written if it could be and the write right stays. */
  ghost predicate EntryFlushed(en: PageEntry, rights: nat, en': PageEntry) {
    if AllRights(rights) then !en'.present && !en'.writable && en'.refs == 0
    else en'.present == en.present && en'.refs == 0 && (en'.writable <==> en.writable && !HasBit(rights, 1))
  }

  lemma {:induction false} FlushEntryIs(en: PageEntry, rights: nat)
    requires rights < 8
    ensures EntryFlushed(en, rights, FlushEntry(en, rights))
  {
    RightsBits(rights);
  }

  lemma {:induction false} RightsBits(rights: nat)
    requires rights < 8
    ensures AllRights(rights) <==> rights == FULLY
    ensures HasBit(rights, 1) <==> rights / 2 % 2 == 1
  {
    assert Pow2(0) == 1 && Pow2(1) == 2 && Pow2(2) == 4;
  }

  /** Flushing the entries `pgs` one after the other. */
  function Sweep(en: map<nat, PageEntry>, pgs: seq<nat>, rights: nat): map<nat, PageEntry> {
    if pgs == [] then en else
      var a, r := pgs[|pgs| - 1], Sweep(en, pgs[..|pgs| - 1], rights);
      if a in r then r[a := FlushEntry(r[a], rights)] else r
  }

  /** Or-ing the reference bits of the entries `pgs`. */
  function Gather(en: map<nat, PageEntry>, pgs: seq<nat>, start: nat): nat {
    if pgs == [] then start else
      var a, r := pgs[|pgs| - 1], Gather(en, pgs[..|pgs| - 1], start);
      if a in en then Or(r, en[a].refs) else r
  }

  /** The bits gathered are those there were and those of some entry. */
  lemma {:induction false} GatherBits(en: map<nat, PageEntry>, pgs: seq<nat>, start: nat, b: nat)
    requires forall i :: 0 <= i < |pgs| ==> pgs[i] in en
    ensures HasBit(Gather(en, pgs, start), b) <==>
            HasBit(start, b) || exists i :: 0 <= i < |pgs| && HasBit(en[pgs[i]].refs, b)
  {
    hide Or, HasBit;
    if pgs != [] {
      var n := |pgs| - 1;
      var init := pgs[..n];
      GatherBits(en, init, start, b);
      OrHasBit(Gather(en, init, start), en[pgs[n]].refs, b);
      assert forall i :: 0 <= i < n ==> init[i] == pgs[i];
    }
  }

  function Pgs(pg: map<nat, nat>, c: seq<nat>): seq<nat> {
    seq(|c|, i requires 0 <= i < |c| => if c[i] in pg then pg[c[i]] else 0)
  }

  function Elems(c: seq<nat>): set<nat> { set n | n in c }

  /** Each swept entry is flushed once; the others stay. */
  lemma {:induction false} SweepAt(en: map<nat, PageEntry>, pgs: seq<nat>, rights: nat, a: nat)
    requires a in en && forall i, j :: 0 <= i < j < |pgs| ==> pgs[i] != pgs[j]
    ensures Sweep(en, pgs, rights).Keys == en.Keys
    ensures Sweep(en, pgs, rights)[a] == if a in pgs then FlushEntry(en[a], rights) else en[a]
    ensures rights < 8 && a in pgs ==> EntryFlushed(en[a], rights, Sweep(en, pgs, rights)[a])
  {
    hide EntryFlushed, FlushEntry;
    if rights < 8 { FlushEntryIs(en[a], rights); }
    if pgs != [] {
      var init := pgs[..|pgs| - 1];
      assert pgs == init + [pgs[|pgs| - 1]];
      SweepAt(en, init, rights, a);
      assert pgs[|pgs| - 1] !in init;
    }
  }

  lemma {:induction false} SweepElsewhere(en: map<nat, PageEntry>, pgs: seq<nat>, rights: nat, a: nat)
    requires a in en && a !in pgs
    ensures Sweep(en, pgs, rights).Keys == en.Keys && Sweep(en, pgs, rights)[a] == en[a]
  {
    if pgs != [] {
      SweepElsewhere(en, pgs[..|pgs| - 1], rights, a);
    }
  }

  lemma {:induction false} PgsSnoc(pg: map<nat, nat>, c: seq<nat>, i: nat, j: nat)
    requires i <= j < |c|
    ensures Pgs(pg, c[i..j + 1]) == Pgs(pg, c[i..j]) + [if c[j] in pg then pg[c[j]] else 0]
    ensures Elems(c[i..j + 1]) == Elems(c[i..j]) + {c[j]}
  {
    assert c[i..j + 1] == c[i..j] + [c[j]];
  }

  lemma {:induction false} SweepSnoc(en: map<nat, PageEntry>, pgs: seq<nat>, rights: nat, a: nat)
    requires a in Sweep(en, pgs, rights)
    ensures var r := Sweep(en, pgs, rights);
            Sweep(en, pgs + [a], rights) == r[a := FlushEntry(r[a], rights)]
  {
    assert (pgs + [a])[..|pgs|] == pgs;
  }

  lemma {:induction false} GatherSnoc(en: map<nat, PageEntry>, pgs: seq<nat>, start: nat, a: nat)
    requires a in en
    ensures Gather(en, pgs + [a], start) == Or(Gather(en, pgs, start), en[a].refs)
  {
    assert (pgs + [a])[..|pgs|] == pgs;
  }

  /** The flushed part of the list of `h` in state `0` is `first` up to `j`; the rest follows. */
  ghost predicate Swept(st0: Store, sh0: Shape, en0: map<nat, PageEntry>, h: Slot, first: nat, j: nat, rights: nat,
                        st: Store, sh: Shape, en: map<nat, PageEntry>)
    requires h in sh0.chains
  {
    var c := sh0.chains[h];
    && first <= j <= |c|
    && en == Sweep(en0, Pgs(sh0.pg, c[first..j]), rights)
    && sh.level == sh0.level && st.roots.Keys == st0.roots.Keys
    && (forall s :: Exists(st, s) ==> RootOf(st, s) == RootOf(st0, s))
    && (if rights == FULLY then
          && sh.chains == sh0.chains[h := c[..first] + c[j..]] && sh.pg == sh0.pg - Elems(c[first..j])
          && st.maps.Keys == st0.maps.Keys - Elems(c[first..j])
        else sh == sh0 && st.maps.Keys == st0.maps.Keys)
    && NodesSwept(st0, sh0.pg, en0, c[first..j], st)
  }

  /** The reference bits stored in a node after `visited` have been flushed. */
  function SweptRwx(st0: Store, pg: map<nat, nat>, en0: map<nat, PageEntry>, visited: seq<nat>, n: nat): nat
    requires n in st0.maps
  {
    if n in visited && n in pg && pg[n] in en0 then Or(st0.maps[n].rwx, en0[pg[n]].refs) else st0.maps[n].rwx
  }

  /** Nodes that are left keep their depth and space. */
  ghost predicate NodesSwept(st0: Store, pg: map<nat, nat>, en0: map<nat, PageEntry>, visited: seq<nat>, st: Store) {
    forall n :: n in st.maps ==>
      && n in st0.maps
      && st.maps[n]
        == st0.maps[n].(next := st.maps[n].next, back := st.maps[n].back, rwx := SweptRwx(st0, pg, en0, visited, n))
  }

  /** Where the next node to visit is in the list that is left. */
  function Where(first: nat, j: nat, rights: nat): nat { if rights == FULLY then first else j }

  /** What flushing the node at position `m` does. */
  ghost predicate Stepped(st: Store, sh: Shape, en: map<nat, PageEntry>, h: Slot, m: nat, rights: nat, st': Store,
                          sh': Shape, en': map<nat, PageEntry>)
    requires h in sh.chains && m < |sh.chains[h]|
  {
    var f := sh.chains[h][m];
    && f in st.maps && f in sh.pg && sh.pg[f] in en
    && sh' == (if rights == FULLY then UnhookShape(sh, h, m) else sh)
    && st'.maps.Keys == (if rights == FULLY then st.maps.Keys - {f} else st.maps.Keys)
    && st'.roots.Keys == st.roots.Keys
    && (forall s :: Exists(st', s) ==> RootOf(st', s) == RootOf(st, s))
    && NodeStepped(st, f, en[sh.pg[f]].refs, st')
    && en' == en[sh.pg[f] := FlushEntry(en[sh.pg[f]], rights)]
  }

  ghost predicate NodeStepped(st: Store, f: nat, refs: nat, st': Store)
    requires f in st.maps
  {
    forall n :: n in st'.maps ==>
      && n in st.maps
      && st'.maps[n] == st.maps[n].(next := st'.maps[n].next, back := st'.maps[n].back,
                                    rwx := if n == f then Or(st.maps[f].rwx, refs) else st.maps[n].rwx)
  }

  lemma {:induction false} SweptStart(st: Store, sh: Shape, en: map<nat, PageEntry>, h: Slot, first: nat, rights: nat)
    requires h in sh.chains && first <= |sh.chains[h]|
    ensures Swept(st, sh, en, h, first, first, rights, st, sh, en)
  {
    var c := sh.chains[h];
    assert c[first..first] == [] && c[..first] + c[first..] == c;
    assert Pgs(sh.pg, []) == [] && Elems([]) == {};
  }

  /** The next node to visit. */
  lemma {:induction false} SweptNext(st0: Store, sh0: Shape, en0: map<nat, PageEntry>, h: Slot, first: nat, j: nat,
                                     rights: nat, st: Store, sh: Shape, en: map<nat, PageEntry>)
    requires h in sh0.chains && Swept(st0, sh0, en0, h, first, j, rights, st, sh, en) && Inv(st0, sh0)
    ensures h in sh.chains
    ensures var c, m := sh0.chains[h], Where(first, j, rights);
            && |sh.chains[h]| - m == |c| - j
            && (j < |c| ==> m < |sh.chains[h]| && sh.chains[h][m] == c[j])
            && (j + 1 < |c| ==> m + 1 < |sh.chains[h]| && sh.chains[h][m + 1] == c[j + 1])
  {
    hide Inv, Sweep, Pgs, Elems;
  }

  lemma {:induction false} SweptNodeOk(st0: Store, sh0: Shape, en0: map<nat, PageEntry>, h: Slot, first: nat, j: nat,
                                       rights: nat, st: Store, sh: Shape, en: map<nat, PageEntry>)
    requires h in sh0.chains && Swept(st0, sh0, en0, h, first, j, rights, st, sh, en) && Inv(st0, sh0)
    requires j < |sh0.chains[h]|
    requires forall n :: n in sh0.pg ==> sh0.pg[n] in en0
    ensures var f := sh0.chains[h][j];
            && f in st.maps && f in sh.pg && f in sh0.pg && sh.pg[f] == sh0.pg[f] && f !in sh0.chains[h][first..j]
            && sh.pg[f] in en && sh.pg[f] in en0 && en[sh.pg[f]] == en0[sh.pg[f]] && st.maps[f].rwx == st0.maps[f].rwx
            && f in st0.maps && st.maps[f].depth == st0.maps[f].depth
            && RootOf(st, MapSlot(f)) == RootOf(st0, MapSlot(f))
  {
    hide Sweep, LinksOk, DualsOk, AddressesOk, RootOf, Inv;
    var c := sh0.chains[h];
    var f := c[j];
    EntryOnce(st0, sh0, h, j);
    assert sh0.pg[f] !in Pgs(sh0.pg, c[first..j]);
    SweepElsewhere(en0, Pgs(sh0.pg, c[first..j]), rights, sh0.pg[f]);
    assert Exists(st, MapSlot(f));
  }

  /** The nodes before another in a list have other page-table entries. */
  lemma {:induction false} EntryOnce(st: Store, sh: Shape, h: Slot, j: nat)
    requires Inv(st, sh) && h in sh.chains && j < |sh.chains[h]|
    ensures var c := sh.chains[h];
            && c[j] in st.maps && c[j] in sh.pg
            && forall i :: 0 <= i < j ==> c[i] != c[j] && c[i] in sh.pg && sh.pg[c[i]] != sh.pg[c[j]]
  {
    hide LinksOk, DualsOk, AddressesOk, NodesListed;
  }

  /** One more node flushed. */
  lemma {:induction false} SweptStep(st0: Store, sh0: Shape, en0: map<nat, PageEntry>, h: Slot, first: nat, j: nat,
                                     rights: nat, st: Store, sh: Shape, en: map<nat, PageEntry>, st': Store, sh': Shape,
                                     en': map<nat, PageEntry>)
    requires h in sh0.chains && Swept(st0, sh0, en0, h, first, j, rights, st, sh, en) && Inv(st0, sh0)
    requires j < |sh0.chains[h]|
    requires forall n :: n in sh0.pg ==> sh0.pg[n] in en0
    requires h in sh.chains && Where(first, j, rights) < |sh.chains[h]|
    requires sh.chains[h][Where(first, j, rights)] == sh0.chains[h][j]
    requires Stepped(st, sh, en, h, Where(first, j, rights), rights, st', sh', en')
    ensures Swept(st0, sh0, en0, h, first, j + 1, rights, st', sh', en')
  {
    hide Sweep, Inv, RootOf, Pgs, Elems, FlushEntry;
    var c := sh0.chains[h];
    var f := c[j];
    SweptNodeOk(st0, sh0, en0, h, first, j, rights, st, sh, en);
    PgsSnoc(sh0.pg, c, first, j);
    SweepSnoc(en0, Pgs(sh0.pg, c[first..j]), rights, sh0.pg[f]);
    SweptStepLists(sh0, h, first, j, rights, sh, sh');
    SweptStepNodes(st0, sh0, en0, c, first, j, st, st', f);
    SweptStepRoots(st0, st, st');
  }

  lemma {:induction false} SweptStepRoots(st0: Store, st: Store, st': Store)
    requires forall s :: Exists(st, s) ==> RootOf(st, s) == RootOf(st0, s)
    requires forall s :: Exists(st', s) ==> RootOf(st', s) == RootOf(st, s)
    requires st'.maps.Keys <= st.maps.Keys && st'.roots.Keys == st.roots.Keys
    ensures forall s :: Exists(st', s) ==> RootOf(st', s) == RootOf(st0, s)
  {
    hide RootOf;
    forall s | Exists(st', s) ensures RootOf(st', s) == RootOf(st0, s) {
      assert Exists(st, s);
    }
  }

  lemma {:induction false} SweptStepLists(sh0: Shape, h: Slot, first: nat, j: nat, rights: nat, sh: Shape, sh': Shape)
    requires h in sh0.chains && first <= j < |sh0.chains[h]| && sh.level == sh0.level
    requires var c := sh0.chains[h];
             if rights == FULLY then
               sh.chains == sh0.chains[h := c[..first] + c[j..]] && sh.pg == sh0.pg - Elems(c[first..j])
                 && sh' == UnhookShape(sh, h, first)
             else sh == sh0 && sh' == sh
    ensures var c := sh0.chains[h];
            && sh'.level == sh0.level
            && if rights == FULLY then
                 sh'.chains == sh0.chains[h := c[..first] + c[j + 1..]] && sh'.pg == sh0.pg - Elems(c[first..j + 1])
               else sh' == sh0
  {
    if rights == FULLY {
      var c := sh0.chains[h];
      var cur := c[..first] + c[j..];
      assert cur[..first] + cur[first + 1..] == c[..first] + c[j + 1..];
      PgsSnoc(sh0.pg, c, first, j);
      assert sh'.pg == sh0.pg - Elems(c[first..j + 1]);
    }
  }

  lemma {:induction false} SweptStepNodes(st0: Store, sh0: Shape, en0: map<nat, PageEntry>, c: seq<nat>, first: nat,
                                          j: nat, st: Store, st': Store, f: nat)
    requires first <= j < |c| && f == c[j] && f !in c[first..j] && f in sh0.pg && sh0.pg[f] in en0 && f in st.maps
    requires NodesSwept(st0, sh0.pg, en0, c[first..j], st) && NodeStepped(st, f, en0[sh0.pg[f]].refs, st')
    ensures NodesSwept(st0, sh0.pg, en0, c[first..j + 1], st')
  {
    hide Or;
    assert c[first..j + 1] == c[first..j] + [f];
  }

  /** The run of `k` goes on through `j` while the nodes are deeper than `k`. */
  lemma {:induction false} RunGoesOn<T>(l: seq<Entry<T>>, k: nat, j: nat)
    requires k < j <= |l| && forall i :: k < i < j ==> l[i].depth > l[k].depth
    ensures j <= SubtreeEnd(l, k)
    ensures (j == |l| || l[j].depth <= l[k].depth) ==> SubtreeEnd(l, k) == j
  {
    if j == |l| || l[j].depth <= l[k].depth {
      DeeperEndIs(l, k + 1, l[k].depth, j);
    }
    var e := SubtreeEnd(l, k);
    assert e < |l| ==> l[e].depth <= l[k].depth;
  }

  /* ---------- the loop ---------- */

  /** The entries once the reference bits of the flushed mapping's own entry are reset. */
  function ResetEntry(en: map<nat, PageEntry>, a: nat): map<nat, PageEntry> {
    if a in en then en[a := en[a].(refs := 0)] else en
  }

  /** The state at the test of the loop of `mdb_flush`: nodes up to `j` are visited, all but `k` are
      deeper than `k`, and `n` with its entry is next. */
  ghost predicate AtTest(st1: Store, sh0: Shape, en0: map<nat, PageEntry>, h: Slot, k: nat, first: nat, rights: nat,
                         start: nat, j: nat, st: Store, sh: Shape, en: map<nat, PageEntry>, n: nat, pg: nat, rwx: nat)
    requires h in sh0.chains && k < |sh0.chains[h]|
  {
    var c := sh0.chains[h];
    && c[k] in sh0.pg && k <= first <= k + 1 && k < j <= |c|
    && (forall n :: n in sh0.pg ==> sh0.pg[n] in en0)
    && Swept(st1, sh0, ResetEntry(en0, sh0.pg[c[k]]), h, first, j, rights, st, sh, en)
    && (forall i :: k < i < j ==> Depths(st1, c)[i].depth > Depths(st1, c)[k].depth)
    && rwx == Gather(en0, Pgs(sh0.pg, c[k + 1..j]), start)
    && n == (if j < |c| then c[j] else 0)
    && (n != 0 ==> n in sh.pg && pg == sh.pg[n])
  }

  /** What the loop may rely on for the next node. */
  lemma {:induction false} AtTestNext(st1: Store, sh0: Shape, en0: map<nat, PageEntry>, h: Slot, k: nat, first: nat,
                                      rights: nat, start: nat, j: nat, st: Store, sh: Shape, en: map<nat, PageEntry>,
                                      n: nat, pg: nat, rwx: nat)
    requires h in sh0.chains && k < |sh0.chains[h]| && Inv(st1, sh0)
    requires AtTest(st1, sh0, en0, h, k, first, rights, start, j, st, sh, en, n, pg, rwx) && n != 0
    ensures var m := Where(first, j, rights);
            && j < |sh0.chains[h]| && h in sh.chains && m < |sh.chains[h]| && sh.chains[h][m] == n == sh0.chains[h][j]
            && n in st.maps && n in st1.maps && st.maps[n].depth == st1.maps[n].depth && n in sh.pg && pg == sh.pg[n]
            && pg in en
            && n in sh0.pg && pg == sh0.pg[n] && pg in en0 && en[pg] == en0[pg]
            && RootOf(st, MapSlot(n)) == RootOf(st1, MapSlot(n))
            && (m + 1 < |sh.chains[h]| <==> j + 1 < |sh0.chains[h]|)
            && (j + 1 < |sh0.chains[h]| ==> sh.chains[h][m + 1] == sh0.chains[h][j + 1])
            && sh0.chains[h][k] in st1.maps && Depths(st1, sh0.chains[h])[k].depth == st1.maps[sh0.chains[h][k]].depth
            && Depths(st1, sh0.chains[h])[j].depth == st1.maps[n].depth
  {
    hide Swept, Inv, RootOf, Gather;
    var c := sh0.chains[h];
    var en1 := ResetEntry(en0, sh0.pg[c[k]]);
    SweptNext(st1, sh0, en1, h, first, j, rights, st, sh, en);
    SweptNodeOk(st1, sh0, en1, h, first, j, rights, st, sh, en);
    EntriesDiffer(st1, sh0, h, k, j);
  }

  lemma {:induction false} EntriesDiffer(st: Store, sh: Shape, h: Slot, i: nat, j: nat)
    requires Inv(st, sh) && h in sh.chains && i < j < |sh.chains[h]|
    ensures var c := sh.chains[h];
      c[i] in sh.pg && c[j] in sh.pg && sh.pg[c[i]] != sh.pg[c[j]] && c[i] in st.maps && c[j] in st.maps
  {
    var c := sh.chains[h];
    assert c[i] in sh.pg && c[j] in sh.pg;
  }

  lemma {:induction false} AtTestStep(st1: Store, sh0: Shape, en0: map<nat, PageEntry>, h: Slot, k: nat, first: nat,
                                      rights: nat, start: nat, j: nat, st: Store, sh: Shape, en: map<nat, PageEntry>,
                                      n: nat, pg: nat, rwx: nat, st': Store, sh': Shape, en': map<nat, PageEntry>,
                                      n': nat, pg': nat, rwx': nat)
    requires h in sh0.chains && k < |sh0.chains[h]| && Inv(st1, sh0)
    requires AtTest(st1, sh0, en0, h, k, first, rights, start, j, st, sh, en, n, pg, rwx) && n != 0
    requires j < |sh0.chains[h]| && Depths(st1, sh0.chains[h])[j].depth > Depths(st1, sh0.chains[h])[k].depth
    requires pg in en && rwx' == Or(rwx, en[pg].refs)
    requires var m := Where(first, j, rights);
             && h in sh.chains && m < |sh.chains[h]| && Stepped(st, sh, en, h, m, rights, st', sh', en')
             && n' == (if m + 1 < |sh.chains[h]| then sh.chains[h][m + 1] else 0)
             && (n' != 0 ==> n' in sh'.pg && pg' == sh'.pg[n'])
    ensures AtTest(st1, sh0, en0, h, k, first, rights, start, j + 1, st', sh', en', n', pg', rwx')
  {
    hide Swept, Inv, RootOf, Gather, Stepped, Depths, Pgs;
    AtTestNext(st1, sh0, en0, h, k, first, rights, start, j, st, sh, en, n, pg, rwx);
    var c := sh0.chains[h];
    var en1 := ResetEntry(en0, sh0.pg[c[k]]);
    SweptStep(st1, sh0, en1, h, first, j, rights, st, sh, en, st', sh', en');
    PgsSnoc(sh0.pg, c, k + 1, j);
    GatherSnoc(en0, Pgs(sh0.pg, c[k + 1..j]), start, pg);
  }

  /** The first turn, which flushes the mapping itself only when asked to. */
  lemma {:induction false} AtTestStart(st1: Store, sh0: Shape, en0: map<nat, PageEntry>, h: Slot, k: nat, first: nat,
                                       rights: nat, start: nat, st: Store, sh: Shape, en: map<nat, PageEntry>, n: nat,
                                       pg: nat, rwx: nat)
    requires h in sh0.chains && k < |sh0.chains[h]| && Inv(st1, sh0) && sh0.chains[h][k] in sh0.pg
    requires forall n :: n in sh0.pg ==> sh0.pg[n] in en0
    requires k <= first <= k + 1
    requires if first == k then Stepped(st1, sh0, ResetEntry(en0, sh0.pg[sh0.chains[h][k]]), h, k, rights, st, sh, en)
             else st == st1 && sh == sh0 && en == ResetEntry(en0, sh0.pg[sh0.chains[h][k]])
    requires rwx == start
    requires n == (if k + 1 < |sh0.chains[h]| then sh0.chains[h][k + 1] else 0)
    requires (n != 0 ==> n in sh.pg && pg == sh.pg[n])
    ensures AtTest(st1, sh0, en0, h, k, first, rights, start, k + 1, st, sh, en, n, pg, rwx)
  {
    hide Swept, Inv, RootOf, Stepped, Depths;
    var c := sh0.chains[h];
    var en1 := ResetEntry(en0, sh0.pg[c[k]]);
    SweptStart(st1, sh0, en1, h, first, rights);
    if first == k {
      SweptStep(st1, sh0, en1, h, first, k, rights, st1, sh0, en1, st, sh, en);
    }
    assert c[k + 1..k + 1] == [] && Pgs(sh0.pg, []) == [];
  }

  /** Where the loop stops, the visited nodes are the run of `k`. */
  ghost predicate Flushed(st1: Store, sh0: Shape, en0: map<nat, PageEntry>, h: Slot, k: nat, first: nat, rights: nat,
                          start: nat, st: Store, sh: Shape, en: map<nat, PageEntry>, rwx: nat)
    requires h in sh0.chains && k < |sh0.chains[h]|
  {
    var c := sh0.chains[h]; var l := Depths(st1, c); var e := SubtreeEnd(l, k);
    && k <= first <= k + 1 && c[k] in sh0.pg
    && sh.level == sh0.level
    && (if rights == FULLY then
          && sh.chains == sh0.chains[h := c[..first] + c[e..]]
          && Depths(st, sh.chains[h]) == Cut(l, first, e)
          && st.maps.Keys == st1.maps.Keys - Elems(c[first..e])
        else sh == sh0 && Depths(st, c) == l && st.maps.Keys == st1.maps.Keys)
    && NodesSwept(st1, sh0.pg, ResetEntry(en0, sh0.pg[c[k]]), c[first..e], st)
    && en == Sweep(ResetEntry(en0, sh0.pg[c[k]]), Pgs(sh0.pg, c[first..e]), rights)
    && rwx == Gather(en0, Pgs(sh0.pg, c[k + 1..e]), start)
  }

  lemma {:induction false} AtTestDone(st1: Store, sh0: Shape, en0: map<nat, PageEntry>, h: Slot, k: nat, first: nat,
                                      rights: nat, start: nat, j: nat, st: Store, sh: Shape, en: map<nat, PageEntry>,
                                      n: nat, pg: nat, rwx: nat)
    requires h in sh0.chains && k < |sh0.chains[h]| && Inv(st1, sh0) && Inv(st, sh)
    requires AtTest(st1, sh0, en0, h, k, first, rights, start, j, st, sh, en, n, pg, rwx)
    requires j == |sh0.chains[h]| || Depths(st1, sh0.chains[h])[j].depth <= Depths(st1, sh0.chains[h])[k].depth
    ensures Flushed(st1, sh0, en0, h, k, first, rights, start, st, sh, en, rwx)
    ensures ForestsOk(st1, sh0) ==> ForestsOk(st, sh)
  {
    hide Inv, NodesListed, RootOf, Gather, Sweep, Pgs, Elems, ForestsOk, Depths, SubtreeEnd, ResetEntry;
    var c := sh0.chains[h];
    assert |Depths(st1, c)| == |c| by { DepthsLength(st1, c); }
    RunGoesOn(Depths(st1, c), k, j);
    InvParts(st, sh);
    InvParts(st1, sh0);
    SweptDepths(st1, sh0, ResetEntry(en0, sh0.pg[c[k]]), h, first, j, rights, st, sh, en);
    if ForestsOk(st1, sh0) {
      if rights == FULLY {
        FlushKeepsForests(st1, st, sh0, sh, h, k, first);
      } else {
        SameForests(st1, st, sh0, sh);
      }
    }
  }

  lemma {:induction false} DepthsLength(st: Store, c: seq<nat>)
    ensures |Depths(st, c)| == |c|
  {
  }

  lemma {:induction false} SweptDepths(st1: Store, sh0: Shape, en1: map<nat, PageEntry>, h: Slot, first: nat, j: nat,
                                       rights: nat, st: Store, sh: Shape, en: map<nat, PageEntry>)
    requires h in sh0.chains && Swept(st1, sh0, en1, h, first, j, rights, st, sh, en) && MembersOk(st1, sh0)
    requires MembersOk(st, sh)
    ensures DepthsKept(st1, st) && h in sh.chains && st.maps.Keys <= st1.maps.Keys
    ensures Depths(st, sh.chains[h]) == if rights == FULLY then Cut(Depths(st1, sh0.chains[h]), first, j)
      else Depths(st1, sh0.chains[h])
  {
    hide Sweep, Pgs, RootOf, Elems;
    var c := sh0.chains[h];
    if rights == FULLY {
      assert sh.chains[h] == c[..first] + c[j..];
      DepthsCut(st1, st, c, first, j);
    } else {
      DepthsSame(st1, st, c);
    }
  }

  lemma {:induction false} SameForests(st: Store, st': Store, sh: Shape, sh': Shape)
    requires ListsOk(st, sh) && ForestsOk(st, sh) && sh' == sh && DepthsKept(st, st') && st'.maps.Keys == st.maps.Keys
    ensures ForestsOk(st', sh')
  {
    hide Nested, ListsApart;
    forall g | g in sh'.chains ensures g in sh'.level && ForestOk(st', sh', g) {
      assert ForestOk(st, sh, g);
      ForestKept(st, st', sh, sh', g);
    }
  }

  lemma {:induction false} AtTestBound(st1: Store, sh0: Shape, en0: map<nat, PageEntry>, h: Slot, k: nat, first: nat,
                                       rights: nat, start: nat, j: nat, st: Store, sh: Shape, en: map<nat, PageEntry>,
                                       n: nat, pg: nat, rwx: nat)
    requires h in sh0.chains && k < |sh0.chains[h]|
    requires AtTest(st1, sh0, en0, h, k, first, rights, start, j, st, sh, en, n, pg, rwx)
    ensures n != 0 ==> j < |sh0.chains[h]| && n in sh.pg
  {
  }

  lemma {:induction false} AtTestEnd(st1: Store, sh0: Shape, en0: map<nat, PageEntry>, h: Slot, k: nat, first: nat,
                                     rights: nat, start: nat, j: nat, st: Store, sh: Shape, en: map<nat, PageEntry>,
                                     pg: nat, rwx: nat)
    requires h in sh0.chains && k < |sh0.chains[h]| && Inv(st1, sh0)
    requires AtTest(st1, sh0, en0, h, k, first, rights, start, j, st, sh, en, 0, pg, rwx)
    ensures j == |sh0.chains[h]|
  {
    if j < |sh0.chains[h]| {
      HookHere(st1, sh0, h, j);
    }
  }

  /** A node that is deeper than `k` is in its run. */
  lemma {:induction false} AtTestDeeper(st1: Store, sh0: Shape, en0: map<nat, PageEntry>, h: Slot, k: nat, first: nat,
                                        rights: nat, start: nat, j: nat, st: Store, sh: Shape, en: map<nat, PageEntry>,
                                        n: nat, pg: nat, rwx: nat, e: nat)
    requires h in sh0.chains && k < |sh0.chains[h]| && j < |sh0.chains[h]|
    requires AtTest(st1, sh0, en0, h, k, first, rights, start, j, st, sh, en, n, pg, rwx)
    requires Depths(st1, sh0.chains[h])[j].depth > Depths(st1, sh0.chains[h])[k].depth
    requires e == SubtreeEnd(Depths(st1, sh0.chains[h]), k)
    ensures j < e
  {
    hide Swept, Gather;
    RunGoesOn(Depths(st1, sh0.chains[h]), k, j + 1);
  }

  /** Stored reference bits do not matter to the forests. */
  lemma {:induction false} RwxForests(st: Store, sh: Shape, n: nat, rwx: nat)
    requires Inv(st, sh)
    ensures ForestsOk(st, sh) ==> ForestsOk(WithRwx(st, n, rwx), sh)
    ensures forall c: seq<nat> :: Depths(WithRwx(st, n, rwx), c) == Depths(st, c)
  {
    hide ForestsOk, LinksOk, DualsOk;
    forall c: seq<nat> ensures Depths(WithRwx(st, n, rwx), c) == Depths(st, c) {
    }
    if ForestsOk(st, sh) {
      SameForests(st, WithRwx(st, n, rwx), sh, sh);
    }
  }

  /** Flushing as an edit of the forest: the first node's reference bits make no difference. */
  lemma {:induction false} FlushedIsForest(st0: Store, st1: Store, sh0: Shape, en0: map<nat, PageEntry>, h: Slot,
                                           k: nat, self: bool, rights: nat, start: nat, st: Store, sh: Shape,
                                           en: map<nat, PageEntry>, rwx: nat)
    requires h in sh0.chains && k < |sh0.chains[h]| && ForestsOk(st0, sh0) && ListsOk(st0, sh0) && ListsOk(st, sh)
    requires Flushed(st1, sh0, en0, h, k, if self then k else k + 1, rights, start, st, sh, en, rwx)
    requires st1.maps.Keys == st0.maps.Keys && DepthsKept(st0, st1)
    ensures OtherForests(st0, sh0, st, sh, h) && k < Count(ForestOf(st0, sh0, h))
    ensures ForestOf(st, sh, h) == FlushedForest(ForestOf(st0, sh0, h), k, rights == FULLY, self)
  {
    hide Sweep, Gather, Pgs, Elems, ResetEntry, ListsOk, ForestOf, ForestsOk, SubtreeEnd, Cut, Depths, Count;
    SameDepths(st0, st1, sh0, h);
    NodesInForest(st0, sh0, h, k);
    assert DepthsKept(st0, st);
    if rights == FULLY {
      FlushForest(st0, sh0, st, sh, h, k, self);
    } else {
      forall g: Slot ensures ForestOf(st, sh, g) == ForestOf(st0, sh0, g) {
        UntouchedForest(st0, st, sh, g);
      }
    }
  }

  lemma {:induction false} SameDepths(st: Store, st': Store, sh: Shape, h: Slot)
    requires ListsOk(st, sh) && h in sh.chains && st'.maps.Keys == st.maps.Keys && DepthsKept(st, st')
    ensures Depths(st', sh.chains[h]) == Depths(st, sh.chains[h])
  {
    hide HeadsOk, ListsApart;
    DepthsSame(st, st', sh.chains[h]);
  }

  lemma {:induction false} UntouchedForest(st: Store, st': Store, sh: Shape, g: Slot)
    requires ListsOk(st, sh) && ListsOk(st', sh) && DepthsKept(st, st')
    ensures ForestOf(st', sh, g) == ForestOf(st, sh, g)
  {
    hide Depths, Parse, ListsOk;
    if g in sh.chains && g in sh.level { SameForest(st, sh, st', sh, g); }
  }

  /** Resetting the first node's reference bits changes neither depths nor arrays. */
  lemma {:induction false} RunStart(st0: Store, st1: Store, sh0: Shape, h: Slot, k: nat, self: bool)
    requires Inv(st0, sh0) && h in sh0.chains && k < |sh0.chains[h]|
    requires st1 == if self then WithRwx(st0, sh0.chains[h][k], 0) else st0
    requires forall j :: k <= j < SubtreeEnd(Depths(st0, sh0.chains[h]), k) ==>
      RootOf(st0, MapSlot(sh0.chains[h][j])) == 0
    ensures var c := sh0.chains[h];
            && Depths(st1, c) == Depths(st0, c) && |Depths(st0, c)| == |c|
            && c[k] in st0.maps && Depths(st0, c)[k].depth == st0.maps[c[k]].depth && DepthsKept(st0, st1)
            && forall j :: k <= j < SubtreeEnd(Depths(st1, c), k) ==> RootOf(st1, MapSlot(c[j])) == 0
    ensures st1.maps.Keys == st0.maps.Keys && (ForestsOk(st0, sh0) ==> ForestsOk(st1, sh0))
  {
    hide SubtreeEnd, ForestsOk, LinksOk, DualsOk, ListsApart, HeadsOk, RootOf;
    var c := sh0.chains[h];
    RwxForests(st0, sh0, c[k], 0);
    forall j | k <= j < SubtreeEnd(Depths(st1, c), k) ensures RootOf(st1, MapSlot(c[j])) == 0 {
      RootSame(st0, c[k], 0, MapSlot(c[j]));
    }
  }

  lemma {:induction false} RootSame(st: Store, n: nat, rwx: nat, s: Slot)
    ensures RootOf(WithRwx(st, n, rwx), s) == RootOf(st, s)
  {
  }

  /* ---------- what a flush comes to, bit by bit ---------- */

  /** The page-table entry of a node, and the reference bits it holds. */
  function EntryOf(sh: Shape, n: nat): nat { if n in sh.pg then sh.pg[n] else 0 }

  function EntryBits(en: map<nat, PageEntry>, sh: Shape, n: nat): nat {
    if EntryOf(sh, n) in en then en[EntryOf(sh, n)].refs else 0
  }

  function StoredBits(st: Store, n: nat): nat { if n in st.maps then st.maps[n].rwx else 0 }

  /** The end of the run of position `k`. */
  function RunEnd(st: Store, sh: Shape, h: Slot, k: nat): (e: nat)
    requires h in sh.chains && k < |sh.chains[h]|
    ensures k < e <= |sh.chains[h]|
  {
    DepthsLength(st, sh.chains[h]);
    SubtreeEnd(Depths(st, sh.chains[h]), k)
  }

  /** The entries of the run of `k`, with or without its own, are flushed; of the others only the
      reference bits of that of `k` change, which are reset. */
  ghost predicate EntriesFlushed(st: Store, sh: Shape, en: map<nat, PageEntry>, h: Slot, k: nat, self: bool,
                                 rights: nat, en': map<nat, PageEntry>)
    requires h in sh.chains && k < |sh.chains[h]|
  {
    var c, first, e := sh.chains[h], if self then k else k + 1, RunEnd(st, sh, h, k);
    && en'.Keys == en.Keys
    && (forall j :: first <= j < e ==>
          EntryOf(sh, c[j]) in en && EntryFlushed(en[EntryOf(sh, c[j])], rights, en'[EntryOf(sh, c[j])]))
    && (forall a :: a in en && (forall j :: first <= j < e ==> a != EntryOf(sh, c[j])) ==>
          en'[a] == if a == EntryOf(sh, c[k]) then en[a].(refs := 0) else en[a])
  }

  /** The reference bits a flush returns: those in the entries of the strict descendants, and, if the mapping
      itself is flushed, those in its entry and those stored in its node. */
  ghost predicate BitsReturned(st: Store, sh: Shape, en: map<nat, PageEntry>, h: Slot, k: nat, self: bool, rwx: nat)
    requires h in sh.chains && k < |sh.chains[h]|
  {
    var c, e := sh.chains[h], RunEnd(st, sh, h, k);
    forall b: nat :: HasBit(rwx, b) <==>
      || (self && (HasBit(StoredBits(st, c[k]), b) || HasBit(EntryBits(en, sh, c[k]), b)))
      || exists j :: k < j < e && HasBit(EntryBits(en, sh, c[j]), b)
  }

  /** Nodes that stay and whose entry was flushed have gained its reference bits; those stored in the
      mapping itself are reset first. */
  ghost predicate BitsStored(st: Store, sh: Shape, en: map<nat, PageEntry>, h: Slot, k: nat, self: bool, st': Store)
    requires h in sh.chains && k < |sh.chains[h]|
  {
    var c, e := sh.chains[h], RunEnd(st, sh, h, k);
    forall n, b: nat :: n in st'.maps ==>
      (HasBit(st'.maps[n].rwx, b) <==>
         || (HasBit(StoredBits(st, n), b) && !(self && n == c[k]))
         || (n in c[k + 1..e] && HasBit(EntryBits(en, sh, n), b)))
  }

  /** The run is one of different entries, each of which there is. */
  lemma {:induction false} RunEntries(st: Store, sh: Shape, en: map<nat, PageEntry>, h: Slot, first: nat, e: nat)
    requires Inv(st, sh) && h in sh.chains && first <= e <= |sh.chains[h]|
    requires forall n :: n in sh.pg ==> sh.pg[n] in en
    ensures var c := sh.chains[h]; var pgs := Pgs(sh.pg, c[first..e]);
            && |pgs| == e - first
            && (forall i :: 0 <= i < |pgs| ==> pgs[i] == EntryOf(sh, c[first + i]) && pgs[i] in en)
            && (forall i, j :: 0 <= i < j < |pgs| ==> pgs[i] != pgs[j])
  {
    hide Inv;
    var c := sh.chains[h];
    forall j | first <= j < e
      ensures c[j] in sh.pg && forall i :: 0 <= i < j ==> c[i] in sh.pg && sh.pg[c[i]] != sh.pg[c[j]] {
      EntryOnce(st, sh, h, j);
    }
  }

  lemma {:induction false} SweptEntries(st: Store, sh: Shape, en: map<nat, PageEntry>, h: Slot, k: nat, self: bool,
                                        rights: nat)
    requires Inv(st, sh) && h in sh.chains && k < |sh.chains[h]| && rights < 8
    requires forall n :: n in sh.pg ==> sh.pg[n] in en
    ensures var c, first := sh.chains[h], if self then k else k + 1;
            c[k] in sh.pg && EntriesFlushed(st, sh, en, h, k, self, rights,
              Sweep(ResetEntry(en, sh.pg[c[k]]), Pgs(sh.pg, c[first..RunEnd(st, sh, h, k)]), rights))
  {
    hide Inv, Sweep, FlushEntry, Pgs, SubtreeEnd, Depths, RunEnd, EntryFlushed;
    var c, first, e := sh.chains[h], if self then k else k + 1, RunEnd(st, sh, h, k);
    EntryOnce(st, sh, h, k);
    var en1, pgs := ResetEntry(en, sh.pg[c[k]]), Pgs(sh.pg, c[first..e]);
    RunEntries(st, sh, en, h, first, e);
    SweepKeys(en1, pgs, rights);
    forall a | a in en
      ensures Sweep(en1, pgs, rights)[a] == (if a in pgs then FlushEntry(en1[a], rights) else en1[a])
      ensures a in pgs ==> EntryFlushed(en[a], rights, Sweep(en1, pgs, rights)[a])
    {
      SweepAt(en1, pgs, rights, a);
      SameButBits(en, sh.pg[c[k]], a, rights, Sweep(en1, pgs, rights)[a]);
    }
    forall j | first <= j < e ensures EntryOf(sh, c[j]) in pgs {
      assert pgs[j - first] == EntryOf(sh, c[first + (j - first)]);
    }
  }

  lemma {:induction false} SweepKeys(en: map<nat, PageEntry>, pgs: seq<nat>, rights: nat)
    ensures Sweep(en, pgs, rights).Keys == en.Keys
  {
    hide FlushEntry;
    if pgs != [] { SweepKeys(en, pgs[..|pgs| - 1], rights); }
  }

  /** Resetting reference bits first makes no difference to a flush. */
  lemma {:induction false} SameButBits(en: map<nat, PageEntry>, a0: nat, a: nat, rights: nat, en': PageEntry)
    requires a in en
    ensures EntryFlushed(ResetEntry(en, a0)[a], rights, en') <==> EntryFlushed(en[a], rights, en')
  {
    hide AllRights, HasBit;
  }

  lemma {:induction false} ReturnedBits(st: Store, sh: Shape, en: map<nat, PageEntry>, h: Slot, k: nat, self: bool)
    requires Inv(st, sh) && h in sh.chains && k < |sh.chains[h]|
    requires forall n :: n in sh.pg ==> sh.pg[n] in en
    ensures var c := sh.chains[h];
            var start := if self then Or(StoredBits(st, c[k]), EntryBits(en, sh, c[k])) else 0;
            BitsReturned(st, sh, en, h, k, self, Gather(en, Pgs(sh.pg, c[k + 1..RunEnd(st, sh, h, k)]), start))
  {
    hide Inv, Gather, Pgs, SubtreeEnd, Depths, RunEnd, Or, HasBit;
    var c, e := sh.chains[h], RunEnd(st, sh, h, k);
    var start := if self then Or(StoredBits(st, c[k]), EntryBits(en, sh, c[k])) else 0;
    var pgs := Pgs(sh.pg, c[k + 1..e]);
    RunEntries(st, sh, en, h, k + 1, e);
    forall b: nat
      ensures HasBit(Gather(en, pgs, start), b) <==>
        || (self && (HasBit(StoredBits(st, c[k]), b) || HasBit(EntryBits(en, sh, c[k]), b)))
        || exists j :: k < j < e && HasBit(EntryBits(en, sh, c[j]), b)
    {
      GatherBits(en, pgs, start, b);
      if self { OrHasBit(StoredBits(st, c[k]), EntryBits(en, sh, c[k]), b); } else { NoBits(b); }
      forall i | 0 <= i < |pgs| ensures en[pgs[i]].refs == EntryBits(en, sh, c[k + 1 + i]) {
      }
      if j :| k < j < e && HasBit(EntryBits(en, sh, c[j]), b) {
        assert pgs[j - (k + 1)] == EntryOf(sh, c[k + 1 + (j - (k + 1))]);
      }
    }
  }

  lemma {:induction false} KeptBits(st: Store, st1: Store, sh: Shape, en: map<nat, PageEntry>, h: Slot, k: nat,
                                    self: bool, st': Store)
    requires Inv(st, sh) && h in sh.chains && k < |sh.chains[h]|
    requires forall n :: n in sh.pg ==> sh.pg[n] in en
    requires st1 == if self then WithRwx(st, sh.chains[h][k], 0) else st
    requires var c, first := sh.chains[h], if self then k else k + 1;
             c[k] in sh.pg && NodesSwept(st1, sh.pg, ResetEntry(en, sh.pg[c[k]]), c[first..RunEnd(st, sh, h, k)], st')
    ensures BitsStored(st, sh, en, h, k, self, st')
  {
    hide Inv, SubtreeEnd, Depths, RunEnd, Or, HasBit;
    var c, first, e := sh.chains[h], if self then k else k + 1, RunEnd(st, sh, h, k);
    EntryOnce(st, sh, h, k);
    forall n, b: nat | n in st'.maps
      ensures HasBit(st'.maps[n].rwx, b) <==>
         || (HasBit(StoredBits(st, n), b) && !(self && n == c[k]))
         || (n in c[k + 1..e] && HasBit(EntryBits(en, sh, n), b))
    {
      KeptNode(st, st1, sh, en, h, k, self, first, e, n, b);
    }
  }

  lemma {:induction false} KeptNode(st: Store, st1: Store, sh: Shape, en: map<nat, PageEntry>, h: Slot, k: nat,
                                    self: bool, first: nat, e: nat, n: nat, b: nat)
    requires Inv(st, sh) && h in sh.chains && k < e <= |sh.chains[h]| && first == (if self then k else k + 1)
    requires forall n :: n in sh.pg ==> sh.pg[n] in en
    requires n in st.maps && sh.chains[h][k] in sh.pg
    requires st1 == if self then WithRwx(st, sh.chains[h][k], 0) else st
    ensures var c := sh.chains[h];
            HasBit(SweptRwx(st1, sh.pg, ResetEntry(en, sh.pg[c[k]]), c[first..e], n), b) <==>
              || (HasBit(StoredBits(st, n), b) && !(self && n == c[k]))
              || (n in c[k + 1..e] && HasBit(EntryBits(en, sh, n), b))
  {
    hide Inv, Or, HasBit;
    var c := sh.chains[h];
    NoBits(b);
    OrZeros();
    assert self ==> c[first..e] == [c[k]] + c[k + 1..e];
    if n in c[k + 1..e] {
      var j :| k < j < e && c[j] == n;
      EntryOnce(st, sh, h, j);
      OrHasBit(st.maps[n].rwx, en[sh.pg[n]].refs, b);
    }
  }

  lemma {:induction false} OrZeros()
    ensures Or(0, 0) == 0
  {
  }

  /** All of this for a finished flush. */
  lemma {:induction false} FlushedBits(st0: Store, st1: Store, sh0: Shape, en0: map<nat, PageEntry>, h: Slot, k: nat,
                                       self: bool, rights: nat, start: nat, st: Store, sh: Shape,
                                       en: map<nat, PageEntry>, rwx: nat)
    requires Inv(st0, sh0) && h in sh0.chains && k < |sh0.chains[h]|
    requires forall n :: n in sh0.pg ==> sh0.pg[n] in en0
    requires st1 == if self then WithRwx(st0, sh0.chains[h][k], 0) else st0
    requires Depths(st1, sh0.chains[h]) == Depths(st0, sh0.chains[h])
    requires Flushed(st1, sh0, en0, h, k, if self then k else k + 1, rights, start, st, sh, en, rwx)
    requires start == if self then Or(StoredBits(st0, sh0.chains[h][k]), EntryBits(en0, sh0, sh0.chains[h][k])) else 0
    ensures rights < 8 ==> EntriesFlushed(st0, sh0, en0, h, k, self, rights, en)
    ensures BitsReturned(st0, sh0, en0, h, k, self, rwx) && BitsStored(st0, sh0, en0, h, k, self, st)
  {
    hide Inv, Sweep, Gather, Pgs, Depths, SubtreeEnd, Or, EntriesFlushed, BitsReturned, BitsStored, ResetEntry,
      NodesSwept;
    if rights < 8 { SweptEntries(st0, sh0, en0, h, k, self, rights); }
    ReturnedBits(st0, sh0, en0, h, k, self);
    KeptBits(st0, st1, sh0, en0, h, k, self, st);
  }
}
