/** The walkers of the page tables: `lookup_mapping` and `unmap_fpage` in
    kernel/src/generic/linear_ptab_walker.cc, with their explicit loops and stacks.
 */
module PageWalker {
  import opened Options
  import opened Words
  import opened PageTable
  import opened PageWalk
  import opened PageTraversal
  import opened ByteWords
  import opened ReadMem

  /** The reference bits of all visits. */
  function Gathered(refs: Visit -> nat, visited: seq<Visit>): nat {
    if visited == [] then 0 else Or(Gathered(refs, visited[..|visited| - 1]), refs(visited[|visited| - 1]))
  }

  /** The bits gathered are those of some visit. */
  lemma {:induction false} GatheredBits(refs: Visit -> nat, visited: seq<Visit>, k: nat)
    ensures HasBit(Gathered(refs, visited), k) <==> exists i :: 0 <= i < |visited| && HasBit(refs(visited[i]), k)
  {
    hide Or, HasBit;
    if visited == [] {
      NoBits(k);
    } else {
      var n := |visited| - 1;
      var init := visited[..n];
      GatheredBits(refs, init, k);
      OrHasBit(Gathered(refs, init), refs(visited[n]), k);
      assert forall i :: 0 <= i < n ==> init[i] == visited[i];
    }
  }

  lemma {:induction false} AllGathered(refs: Visit -> nat, visited: seq<Visit>)
    ensures forall k: nat ::
      HasBit(Gathered(refs, visited), k) <==> exists i :: 0 <= i < |visited| && HasBit(refs(visited[i]), k)
  {
    hide HasBit, Gathered;
    forall k: nat
      ensures HasBit(Gathered(refs, visited), k) <==> exists i :: 0 <= i < |visited| && HasBit(refs(visited[i]), k)
    {
      GatheredBits(refs, visited, k);
    }
  }

  lemma {:induction false} NothingGathered(refs: Visit -> nat)
    ensures Gathered(refs, []) == 0
  {
  }

  /** `address`: the base of an fpage, with its low bits cleared. */
  function FpageBase(raw: nat, bits: nat): nat { RoundedDown(raw, Pow2(bits)) }

  lemma {:induction false} BaseIs(raw: Word, bits: nat)
    requires bits < 64
    ensures Pow2(bits) - 1 < W64
    ensures And(raw, Not(Pow2(bits) - 1)) == FpageBase(raw, bits) && FpageBase(raw, bits) % Pow2(bits) == 0
  {
    hide And, Pow2;
    RoundDown(raw, bits);
    var d := Pow2(bits);
    assert raw - raw % d == raw / d * d;
    MulMod(raw / d, d);
  }

  /** The mapping at `lo` is larger than any page that fits into `bits`. */
  ghost predicate Oversized(sh: seq<nat>, root: Entry, lo: nat, bits: nat) {
    var m := Lookup(sh, root, Last(sh), lo);
    m.Some? && m.value.size < |sh| && sh[m.value.size] > bits
  }

  /** What unmapping the range from `lo` up to `hi` comes to. */
  ghost predicate Unmapped(sh: seq<nat>, root0: Entry, root: Entry, clear: bool, lo: nat, hi: nat,
                           visited: seq<Visit>) {
    VisitsExactly(sh, root0, visited, lo, hi) && Cleared(sh, root0, root, clear, lo, hi)
  }

  class AddressSpace {
    const sh: seq<nat>
    /** The page table of the whole space, an entry of the last level. */
    var root: Entry

    function Top(): nat { if |sh| > 0 then |sh| - 1 else 0 }

    ghost predicate Valid()
      reads this
    {
      ShiftsOk(sh) && WellFormed(sh, root, Top()) && root.Table?
    }

    /** The entry a pointer leads to. */
    function At(pg: seq<nat>): Entry
      reads this
      requires ValidPath(root, pg)
    {
      EntryAt(root, pg)
    }

    /** `lookup_mapping`: the walk finds what positional notation says, with a pointer to the entry. */
    method LookupMapping(vaddr: nat) returns (found: bool, pg: seq<nat>, pgsize: nat)
      requires Valid()
      ensures found <==> Lookup(sh, root, Top(), vaddr % Span(sh, Top())).Some?
      ensures found ==> ValidPath(root, pg) && pgsize + |pg| == Top()
                        && Lookup(sh, root, Top(), vaddr % Span(sh, Top())) == Some(Found(EntryAt(root, pg), pgsize))
                        && Offset(sh, Top(), pg) + vaddr % Span(sh, pgsize) == vaddr % Span(sh, Top())
    {
      hide Span, TableSize, TableIndex, ShiftsOk;
      ghost var o := vaddr % Span(sh, Top());
      LookupStart(sh, root, vaddr);
      pgsize := Top() - 1;
      pg := [TableIndex(sh, pgsize, vaddr)];
      while true
        invariant pgsize + |pg| == Top() && pg != [] && ValidPath(root, pg) && pgsize < Top()
        invariant Offset(sh, Top(), pg) + vaddr % Span(sh, pgsize) == o
        invariant Lookup(sh, root, Top(), o) == Lookup(sh, EntryAt(root, pg), pgsize, vaddr % Span(sh, pgsize))
        decreases pgsize
      {
        if At(pg) == Invalid {
          // Lookup ends here too
          return false, pg, pgsize;
        } else if At(pg).Table? {
          // The path grows by the next digit of the address
          if pgsize == 0 {
            return false, pg, pgsize;
          }
          LookupDown(sh, root, pg, pgsize, vaddr);
          pg := pg + [TableIndex(sh, pgsize - 1, vaddr)];
          pgsize := pgsize - 1;
        } else {
          // The entry covers the address
          return true, pg, pgsize;
        }
      }
    }

    /** `readmem`: the word made of the eight bytes from `vaddr` on, each translated on its own; it fails
        exactly when one of them is not mapped.  `phys` is physical memory. */
    method Readmem(phys: nat -> Byte, vaddr: Word, big: bool) returns (ok: bool, contents: nat)
      requires Valid() && WordPages(sh)
      ensures ok <==> Readable(sh, root, vaddr)
      ensures ok ==> contents == WordOf(big, BytesFrom(phys, sh, root, vaddr))
      ensures ok ==> IsWord(phys, sh, root, vaddr, big, contents)
    {
      hide IsWord, Lookup, Span, Frame, WordOf, And, Or, Shl, Shr, RoundedDown, Readable, BytesFrom, ShiftsOk,
        WellFormed,
        ValidPath;
      var v := vaddr;
      var found, pg, pgsize := LookupMapping(v);
      FirstFound(sh, root, v);
      if !found {
        HalfMissing(sh, root, vaddr);
        return false, 0;
      }
      var size := Span(sh, pgsize);
      var paddr := Frame(sh, Found(At(pg), pgsize)) + v % size;
      var paddr1 := paddr - paddr % 8;
      if paddr1 == paddr {
        // One page holds all eight bytes
        AlignedRead(phys, sh, root, vaddr);
        contents := WordOf(big, PhysBytes(phys, paddr, 8));
      } else {
        // The bytes lie in two aligned words
        var paddr2 := paddr1 + 8;
        if RoundedDown(paddr1, size) != RoundedDown(paddr2, size) {
          // The second word may be mapped elsewhere
          v := (v + 8) % W64;
          found, pg, pgsize := LookupMapping(v);
          SecondFound(sh, root, vaddr);
          if !found {
            HalfMissing(sh, root, vaddr);
            return false, 0;
          }
          paddr2 := Frame(sh, Found(At(pg), pgsize)) + v % Span(sh, pgsize);
          paddr2 := paddr2 - paddr2 % 8;
        } else {
          NextWordHere(sh, root, vaddr);
        }
        var idx := And(v, 7);
        IndexOfByte(v, vaddr);
        UnalignedRead(phys, sh, root, vaddr, paddr1, paddr2, idx);
        contents := if big
          then Or(Shl(WordOf(true, PhysBytes(phys, paddr1, 8)), idx * 8),
                  Shr(WordOf(true, PhysBytes(phys, paddr2, 8)), (8 - idx) * 8))
          else Or(Shr(WordOf(false, PhysBytes(phys, paddr1, 8)), idx * 8),
                  Shl(WordOf(false, PhysBytes(phys, paddr2, 8)), (8 - idx) * 8));
      }
      ok := true;
      WordBytesAre(phys, sh, root, vaddr, big);
    }

    /** The largest page size that fits. */
    method LargestSize(num: nat) returns (pgsize: nat)
      requires ShiftsOk(sh) && sh[0] <= num <= sh[Last(sh)]
      ensures LargestFit(sh, pgsize, num)
    {
      pgsize := |sh| - 2;
      while sh[pgsize] > num
        invariant pgsize < Last(sh) && (pgsize + 1 < Last(sh) ==> num < sh[pgsize + 1])
        decreases pgsize
      {
        pgsize := pgsize - 1;
      }
    }

    /** `unmap_fpage` of the fpage with base `raw` and size `bits`, in a range of mappable user pages.
        `mdb_flush` of a visited mapping is taken to clear that entry, in a full flush, and no other
        entry of this space; `refs` gives the reference bits it returns.  `removable` stands for the
        test before an empty subtree is removed. */
    method UnmapFpage(raw: Word, bits: nat, full: bool, flush: bool, refs: Visit -> nat, removable: nat -> bool)
      returns (visited: seq<Visit>, rwx: nat)
      requires Valid() && bits < 64 && FpageBase(raw, bits) + Pow2(bits) <= Span(sh, Last(sh))
      requires (full && flush) || !Oversized(sh, root, FpageBase(raw, bits), bits)
      modifies this
      ensures Valid()
      ensures bits < sh[0] || Oversized(sh, old(root), FpageBase(raw, bits), bits) ==>
        root == old(root) && visited == []
      ensures sh[0] <= bits && !Oversized(sh, old(root), FpageBase(raw, bits), bits) ==>
                Unmapped(sh, old(root), root, full && flush, FpageBase(raw, bits), FpageBase(raw, bits) + Pow2(bits),
                         visited)
      // the order is that of the recursive traversal
      ensures sh[0] <= bits && !Oversized(sh, old(root), FpageBase(raw, bits), bits) ==>
                visited == LeavesIn(sh, old(root), Last(sh), 0, FpageBase(raw, bits), FpageBase(raw, bits) + Pow2(bits))
      // a reference bit is set exactly if some visited mapping's is
      ensures forall k: nat :: HasBit(rwx, k) <==> exists i :: 0 <= i < |visited| && HasBit(refs(visited[i]), k)
    {
      hide Pow2, Lookup, Span, TableSize, TableIndex, Offset, Covers, LargestFit, Oversized,
        Unmapped, Walking, Between, RangeOk, And, WellFormed, ValidPath, FpageBase, LeavesIn, InTable, HasBit, Gathered;
      visited, rwx := [], 0;
      NothingGathered(refs);
      var num := bits;
      BaseIs(raw, bits);
      var vaddr := And(raw, Not(Pow2(bits) - 1));
      ghost var lo, hi, root0, clear := vaddr, vaddr + Pow2(bits), root, full && flush;
      if num < sh[0] {
        AllGathered(refs, visited);
        return;
      }
      if num > sh[|sh| - 1] {
        num := sh[|sh| - 1];
      }
      FitsSpace(sh, lo, bits);
      // The walk hands on entries of this size and below
      var pgsize := LargestSize(num);
      PageCount(sh, pgsize, bits);
      num := Pow2(num - sh[pgsize]);
      var size: nat := |sh| - 2;
      var pg := [TableIndex(sh, size, vaddr)];
      CoversStart(sh, root, vaddr);
      var r_pg := new seq<nat>[|sh| - 2];
      var r_num := new nat[|sh| - 2];
      ghost var r := Range([], 0, num, pgsize, lo, hi);
      if size == pgsize {
        NotOversized(sh, root, pg, pgsize, lo, bits);
        Arrive(sh, root, pg, pgsize, lo, bits, clear, r_pg[..], r_num[..]);
        ArriveTable(sh, root, pg, pgsize, lo, bits);
        r := Range(pg[..|pg| - 1], pg[|pg| - 1], num, pgsize, lo, hi);
      }
      while num != 0
        invariant Valid() && r.pgsize == pgsize && r.lo == lo && r.hi == hi && r_pg.Length == r_num.Length == |sh| - 2
        invariant size > pgsize ==> Covers(sh, root, pg, size, lo) && vaddr == lo && root == root0 && visited == []
                                    && num == Pow2(bits - sh[pgsize])
        invariant size <= pgsize && num > 0 ==>
                    Walking(sh, root0, root, r, clear, visited, pg, size, num, vaddr, r_pg[..], r_num[..])
        invariant size <= pgsize ==> !Oversized(sh, root0, lo, bits) && InTable(sh, root0, r)
        invariant num == 0 ==> size <= pgsize && Unmapped(sh, root0, root, clear, lo, hi, visited)
                               && visited == LeavesIn(sh, root0, Last(sh), 0, lo, hi)
        invariant rwx == Gathered(refs, visited)
        decreases num != 0, hi - vaddr, size
      {
        LoopFacts(sh, root0, root, r, clear, visited, pg, size, num, vaddr, r_pg[..], r_num[..]);
        if size > pgsize {
          // Nothing has been visited on the way down
          if At(pg) == Invalid {
            NothingThere(sh, root, pg, size, lo, bits, pgsize, clear);
            break;
          } else if At(pg).Table? {
            CoversDown(sh, root, pg, size, lo);
            size := size - 1;
            pg := pg + [TableIndex(sh, size, vaddr)];
            if size == pgsize {
              NotOversized(sh, root, pg, pgsize, lo, bits);
              Arrive(sh, root, pg, pgsize, lo, bits, clear, r_pg[..], r_num[..]);
              ArriveTable(sh, root, pg, pgsize, lo, bits);
              r := Range(pg[..|pg| - 1], pg[|pg| - 1], num, pgsize, lo, hi);
            }
            continue;
          } else if full && flush {
            TooLarge(sh, root, pg, size, lo, bits, pgsize);
            break;
          } else {
            TooLarge(sh, root, pg, size, lo, bits, pgsize);
            assert false;
          }
        }
        if At(pg).Table? {
          // The table's entries come before the next one here
          StepDown(sh, root0, root, r, clear, visited, pg, size, num, vaddr, r_pg[..], r_num[..]);
          size := size - 1;
          r_pg[size] := pg;
          r_num[size] := num - 1;
          pg := pg + [0];
          num := TableSize(sh, size);
          continue;
        }
        pg, size, num, vaddr, visited, rwx :=
          FinishEntry(root0, r, clear, visited, rwx, pg, size, num, vaddr, r_pg, r_num, pgsize, full, flush, refs,
                      removable);
        if num == 0 { UnmapIsTraversal(sh, root0, root, r, clear, visited); }
      }
      AllGathered(refs, visited);
    }

    /** Hand an entry that is no table to the mapping database, go on to the next one, and back up from
        finished tables: lines 851-918 of `unmap_fpage`. */
    method FinishEntry(ghost root0: Entry, ghost r: Range, ghost clear: bool, visited_: seq<Visit>, rwx_: nat,
                       pg_: seq<nat>, size_: nat, num_: nat, vaddr_: nat, r_pg: array<seq<nat>>, r_num: array<nat>,
                       pgsize: nat, full: bool, flush: bool, refs: Visit -> nat, removable: nat -> bool)
      returns (pg: seq<nat>, size: nat, num: nat, vaddr: nat, visited: seq<Visit>, rwx: nat)
      requires Valid() && r.pgsize == pgsize && clear == (full && flush) && num_ > 0
      requires Walking(sh, root0, root, r, clear, visited_, pg_, size_, num_, vaddr_, r_pg[..], r_num[..])
      requires ValidPath(root, pg_) && !EntryAt(root, pg_).Table? && size_ <= pgsize
      requires rwx_ == Gathered(refs, visited_)
      modifies this
      ensures Valid() && size <= pgsize && vaddr > vaddr_ && rwx == Gathered(refs, visited)
      ensures num > 0 ==> Walking(sh, root0, root, r, clear, visited, pg, size, num, vaddr, r_pg[..], r_num[..])
      ensures num == 0 ==> vaddr == r.hi && Unmapped(sh, root0, root, clear, r.lo, r.hi, visited)
    {
      hide Pow2, Lookup, Span, TableSize, TableIndex, Offset, Covers, LargestFit, Oversized,
        Unmapped, Walking, Between, RangeOk, ShiftsOk, WellFormed, ValidPath, EntryAt, Update, Or, Gathered;
      pg, size, num, vaddr, visited, rwx := pg_, size_, num_, vaddr_, visited_, rwx_;
      ghost var rpg, rnum := r_pg[..], r_num[..];
      StepOver(sh, root0, root, r, clear, visited, pg, size, num, vaddr, rpg, rnum);
      if At(pg).Leaf? {
        var visit := Visit(vaddr, Found(At(pg), size));
        visited := visited + [visit];
        GatheredSnoc(refs, visited_, visit);
        rwx := Or(rwx, refs(visit));
        if full && flush {
          root := Update(root, pg, Invalid);
        }
      }
      // Everything up to the end of this entry is done
      ghost var q := pg;
      pg := NextEntry(pg);
      vaddr := vaddr + Span(sh, size);
      num := num - 1;
      while num == 0 && size < pgsize
        invariant size <= pgsize && Between(sh, root0, root, r, clear, visited, q, size, num, vaddr, rpg, rnum)
        invariant pg == NextEntry(q) && r_pg[..] == rpg && r_num[..] == rnum
        decreases pgsize - size
      {
        // The table is finished
        var remove := full && flush && removable(vaddr);
        StepUp(sh, root0, root, r, clear, visited, q, size, vaddr, rpg, rnum, remove);
        pg := r_pg[size];
        num := r_num[size];
        size := size + 1;
        q := pg;
        if remove {
          root := Update(root, pg, Invalid);
        }
        pg := NextEntry(pg);
      }
      BetweenValid(sh, root0, root, r, clear, visited, q, size, num, vaddr, rpg, rnum);
      if num > 0 {
        StepNext(sh, root0, root, r, clear, visited, q, size, num, vaddr, rpg, rnum);
      } else {
        WalkEnds(sh, root0, root, r, clear, visited, q, vaddr, rpg, rnum);
      }
    }
  }

  lemma {:induction false} GatheredSnoc(refs: Visit -> nat, visited: seq<Visit>, v: Visit)
    ensures Gathered(refs, visited + [v]) == Or(Gathered(refs, visited), refs(v))
  {
    hide Or;
    assert (visited + [v])[..|visited|] == visited;
  }

  lemma {:induction false} BetweenValid(sh: seq<nat>, root0: Entry, root: Entry, r: Range, clear: bool,
                                        visited: seq<Visit>, q: seq<nat>, size: nat, num: nat, a: nat,
                                        rpg: seq<seq<nat>>, rnum: seq<nat>)
    requires Between(sh, root0, root, r, clear, visited, q, size, num, a, rpg, rnum)
    ensures WellFormed(sh, root, Last(sh)) && root.Table?
  {
    hide Lookup, Span, Offset, VisitsExactly, Cleared, RangeOk, StackOk;
  }

  lemma {:induction false} FitsSpace(sh: seq<nat>, lo: nat, bits: nat)
    requires ShiftsOk(sh) && lo + Pow2(bits) <= Span(sh, Last(sh))
    ensures bits <= sh[Last(sh)]
  {
    if bits > sh[Last(sh)] { Pow2Mono(sh[Last(sh)], bits); }
  }

  lemma {:induction false} PageCount(sh: seq<nat>, pgsize: nat, bits: nat)
    requires LargestFit(sh, pgsize, bits)
    ensures pgsize < Last(sh) && sh[pgsize] <= bits
  {
  }

  lemma {:induction false} CoversStart(sh: seq<nat>, root: Entry, v: nat)
    requires ShiftsOk(sh) && WellFormed(sh, root, Last(sh)) && root.Table? && v < Span(sh, Last(sh))
    ensures Covers(sh, root, [TableIndex(sh, |sh| - 2, v)], |sh| - 2, v)
  {
    hide Span, TableIndex, Lookup;
    LookupStart(sh, root, v);
    DivModUnique(v, Span(sh, Last(sh)), 0, v);
  }

  lemma {:induction false} CoversDown(sh: seq<nat>, root: Entry, p: seq<nat>, size: nat, v: nat)
    requires Covers(sh, root, p, size, v) && size > 0 && EntryAt(root, p).Table?
    ensures Covers(sh, root, p + [TableIndex(sh, size - 1, v)], size - 1, v)
  {
    hide Span, TableIndex, Lookup;
    LookupDown(sh, root, p, size, v);
  }

  lemma {:induction false} LoopFacts(sh: seq<nat>, root0: Entry, root: Entry, r: Range, clear: bool,
                                     visited: seq<Visit>, p: seq<nat>, size: nat, num: nat, a: nat, rpg: seq<seq<nat>>,
                                     rnum: seq<nat>)
    requires size > r.pgsize ==> Covers(sh, root, p, size, r.lo)
    requires size <= r.pgsize ==> Walking(sh, root0, root, r, clear, visited, p, size, num, a, rpg, rnum)
    ensures ValidPath(root, p)
    ensures (size <= r.pgsize ==> a + Span(sh, size) <= r.hi && WellFormed(sh, EntryAt(root, p), size))
  {
    if size <= r.pgsize {
      hide Lookup, Span, Offset, VisitsExactly, Cleared, RangeOk;
      EntryInRange(sh, root, r, p, size);
    }
  }

  lemma {:induction false} NothingThere(sh: seq<nat>, root: Entry, p: seq<nat>, size: nat, lo: nat, bits: nat,
                                        pgsize: nat, clear: bool)
    requires Covers(sh, root, p, size, lo) && LargestFit(sh, pgsize, bits) && size > pgsize && lo % Pow2(bits) == 0
    requires EntryAt(root, p) == Invalid
    ensures Unmapped(sh, root, root, clear, lo, lo + Pow2(bits), []) && !Oversized(sh, root, lo, bits)
    ensures LeavesIn(sh, root, Last(sh), 0, lo, lo + Pow2(bits)) == []
  {
    hide Pow2, Offset, Span, Lookup, Covers, LargestFit, LeavesIn;
    CoversFacts(sh, root, p, size, lo);
    RangeBelow(sh, root, p, size, lo, bits, pgsize);
    Pow2Positive(bits);
    WindowOfNothing(sh, root, p, lo, lo + Pow2(bits));
    forall o | lo <= o < lo + Pow2(bits) ensures Lookup(sh, root, Last(sh), o) == None {
      LargeEntry(sh, root, p, size, lo, bits, pgsize, o);
    }
    Pow2Positive(bits);
    NothingYet(sh, root, clear, lo);
    SkipEntry(sh, root, [], lo, lo, lo + Pow2(bits));
    ClearNothing(sh, root, root, clear, lo, lo, lo + Pow2(bits));
  }

  lemma {:induction false} CoversFacts(sh: seq<nat>, root: Entry, p: seq<nat>, size: nat, lo: nat)
    requires Covers(sh, root, p, size, lo)
    ensures ShiftsOk(sh) && WellFormed(sh, root, Last(sh)) && ValidPath(root, p) && size == Last(sh) - |p|
  {
  }

  /** The walk starts in a table. */
  lemma {:induction false} ArriveTable(sh: seq<nat>, root: Entry, p: seq<nat>, pgsize: nat, lo: nat, bits: nat)
    requires Covers(sh, root, p, pgsize, lo) && LargestFit(sh, pgsize, bits) && lo % Pow2(bits) == 0
    ensures InTable(sh, root, Range(p[..|p| - 1], p[|p| - 1], Pow2(bits - sh[pgsize]), pgsize, lo, lo + Pow2(bits)))
  {
    hide Pow2, Offset, Span, TableSize;
    ArriveRange(sh, root, p, pgsize, lo, bits);
    Pow2Positive(bits - sh[pgsize]);
    PathInit(root, p);
  }

  lemma {:induction false} UnmapIsTraversal(sh: seq<nat>, root0: Entry, root: Entry, r: Range, clear: bool,
                                            visited: seq<Visit>)
    requires InTable(sh, root0, r) && Unmapped(sh, root0, root, clear, r.lo, r.hi, visited)
    ensures visited == LeavesIn(sh, root0, Last(sh), 0, r.lo, r.hi)
  {
    hide InTable, VisitsExactly, Cleared, LeavesIn;
    WalkIsTraversal(sh, root0, r, visited);
  }

  lemma {:induction false} Pow2Positive(k: nat)
    ensures Pow2(k) > 0
  {
  }

  lemma {:induction false} TooLarge(sh: seq<nat>, root: Entry, p: seq<nat>, size: nat, lo: nat, bits: nat, pgsize: nat)
    requires Covers(sh, root, p, size, lo) && LargestFit(sh, pgsize, bits) && size > pgsize && lo % Pow2(bits) == 0
    requires EntryAt(root, p).Leaf?
    ensures Oversized(sh, root, lo, bits)
  {
    hide Pow2, Offset, Span, Lookup;
    Pow2Positive(bits);
    LargeEntry(sh, root, p, size, lo, bits, pgsize, lo);
  }

  lemma {:induction false} WalkEnds(sh: seq<nat>, root0: Entry, root: Entry, r: Range, clear: bool, visited: seq<Visit>,
                                    q: seq<nat>, a: nat, rpg: seq<seq<nat>>, rnum: seq<nat>)
    requires Between(sh, root0, root, r, clear, visited, q, r.pgsize, 0, a, rpg, rnum)
    ensures a == r.hi && Unmapped(sh, root0, root, clear, r.lo, r.hi, visited) && WellFormed(sh, root, Last(sh))
  {
    StepDone(sh, root0, root, r, clear, visited, q, a, rpg, rnum);
  }

  lemma {:induction false} NotOversized(sh: seq<nat>, root: Entry, p: seq<nat>, pgsize: nat, lo: nat, bits: nat)
    requires Covers(sh, root, p, pgsize, lo) && LargestFit(sh, pgsize, bits)
    ensures !Oversized(sh, root, lo, bits)
  {
    hide Span, Offset, Lookup;
    LookupInside(sh, root, Last(sh), p, lo);
    LookupSize(sh, EntryAt(root, p), pgsize, lo - Offset(sh, Last(sh), p));
  }
}
