/** Reading memory through a page table: the specification of `readmem` in
    kernel/src/generic/linear_ptab_walker.cc, byte by byte.
 */
module ReadMem {
  import opened Options
  import opened Words
  import opened PageTable
  import opened PageWalk
  import opened ByteWords

  /** What the walk of `lookup_mapping` finds for an address of any size. */
  function Mapping(sh: seq<nat>, root: Entry, v: nat): Option<Found> {
    Lookup(sh, root, Last(sh), Rem(v, Span(sh, Last(sh))))
  }

  /** `address`: the start of the frame that an entry maps. */
  function Frame(sh: seq<nat>, f: Found): nat {
    if f.leaf.Leaf? then RoundedDown(f.leaf.paddr, Span(sh, f.size)) else 0
  }

  /** The physical address of a virtual one. */
  function Translate(sh: seq<nat>, root: Entry, v: nat): Option<nat> {
    var m := Mapping(sh, root, v);
    if m.Some? then Some(Frame(sh, m.value) + Rem(v, Span(sh, m.value.size))) else None
  }

  /** The byte at a virtual address, zero if it is not mapped. */
  function ByteAt(phys: nat -> Byte, sh: seq<nat>, root: Entry, v: nat): Byte {
    var p := Translate(sh, root, v);
    if p.Some? then phys(p.value) else 0
  }

  /** `b` is the byte of virtual address `v`: the page table has a mapping for the page of `v`, and `b` is in
      the frame it maps, as far from its start as `v` from that of the page. */
  ghost predicate IsByte(phys: nat -> Byte, sh: seq<nat>, root: Entry, v: nat, b: nat) {
    var m := Lookup(sh, root, Last(sh), Rem(v, Span(sh, Last(sh))));
    && m.Some? && m.value.leaf.Leaf?
    && var d := Span(sh, m.value.size);
    b == phys(RoundedDown(m.value.leaf.paddr, d) + Rem(v, d))
  }

  /** The word has at digit `i`, or at that digit from the other end, the byte of address `v + i`. */
  ghost predicate HasByte(phys: nat -> Byte, sh: seq<nat>, root: Entry, v: nat, big: bool, w: nat, i: nat)
    requires i < 8
  {
    IsByte(phys, sh, root, (v + i) % W64, w / Pow2(8 * if big then 7 - i else i) % 256)
  }

  /** The word at a virtual address. */
  ghost predicate IsWord(phys: nat -> Byte, sh: seq<nat>, root: Entry, v: nat, big: bool, w: nat) {
    w < W64 && forall i :: 0 <= i < 8 ==> HasByte(phys, sh, root, v, big, w, i)
  }

  lemma {:induction false} FoundLeaf(sh: seq<nat>, e: Entry, s: nat, o: nat)
    ensures Lookup(sh, e, s, o).Some? ==> Lookup(sh, e, s, o).value.leaf.Leaf?
    decreases s
  {
    hide Span;
    if e.Table? && s > 0 {
      var i := Quot(o, Span(sh, s - 1));
      if i < |e.entries| { FoundLeaf(sh, e.entries[i], s - 1, Rem(o, Span(sh, s - 1))); }
    }
  }

  /** Translated bytes are the bytes of the frames that the entries map. */
  lemma {:induction false} MappedByte(phys: nat -> Byte, sh: seq<nat>, root: Entry, v: nat)
    requires Mapping(sh, root, v).Some?
    ensures IsByte(phys, sh, root, v, ByteAt(phys, sh, root, v))
  {
    hide Span, Lookup;
    FoundLeaf(sh, root, Last(sh), Rem(v, Span(sh, Last(sh))));
  }

  /** The eight bytes from `v` on; addresses wrap around. */
  function BytesFrom(phys: nat -> Byte, sh: seq<nat>, root: Entry, v: nat): (r: seq<Byte>)
    ensures |r| == 8
  {
    seq<Byte>(8, i requires 0 <= i < 8 => ByteAt(phys, sh, root, (v + i) % W64))
  }

  /** All eight bytes are mapped. */
  ghost predicate Readable(sh: seq<nat>, root: Entry, v: nat) {
    forall i :: 0 <= i < 8 ==> ByteMapped(sh, root, v, i)
  }

  predicate ByteMapped(sh: seq<nat>, root: Entry, v: nat, i: nat) { Mapping(sh, root, (v + i) % W64).Some? }

  /** `readmem_phys` of an aligned physical address. */
  function PhysBytes(phys: nat -> Byte, p: nat, n: nat): (r: seq<Byte>)
    ensures |r| == n
  {
    seq<Byte>(n, i requires 0 <= i < n => phys(p + i))
  }

  /* ---------- neighbouring addresses ---------- */

  /** Pages are at least a word. */
  ghost predicate WordPages(sh: seq<nat>) { ShiftsOk(sh) && sh[0] >= 3 }

  /** Addresses in the same aligned word are mapped alike. */
  lemma {:induction false} SameWord(sh: seq<nat>, e: Entry, s: nat, o: nat, o': nat)
    requires WordPages(sh) && s < |sh| && o / 8 == o' / 8
    ensures Lookup(sh, e, s, o) == Lookup(sh, e, s, o')
    decreases s
  {
    hide Span, Quot, Rem;
    if e.Table? && s > 0 {
      WordDigits(sh, s - 1, o, o');
      var i := Quot(o, Span(sh, s - 1));
      if i < |e.entries| {
        SameWord(sh, e.entries[i], s - 1, Rem(o, Span(sh, s - 1)), Rem(o', Span(sh, s - 1)));
      }
    }
  }

  lemma {:induction false} WordDigits(sh: seq<nat>, s: nat, o: nat, o': nat)
    requires WordPages(sh) && s < |sh| && o / 8 == o' / 8
    ensures var d := Span(sh, s); Quot(o, d) == Quot(o', d) && Rem(o, d) / 8 == Rem(o', d) / 8
  {
    hide Pow2;
    assert Pow2(3) == 8 by { PowThree(); }
    assert sh[s] >= 3;
    Pow2Add(sh[s] - 3, 3);
    TwoLevels(o, 8, Pow2(sh[s] - 3));
    TwoLevels(o', 8, Pow2(sh[s] - 3));
  }

  lemma {:induction false} PowThree()
    ensures Pow2(3) == 8
  {
  }

  /** The digits of a number in two steps. */
  lemma {:induction false} TwoLevels(o: nat, d: nat, n: nat)
    requires d > 0 && n > 0
    ensures n * d > 0 && o / (n * d) == o / d / n && o % (n * d) / d == o / d % n && o % (n * d) % d == o % d
  {
    NestedDigits(o, d, n);
    UpperDigit(o, d, n);
  }

  lemma {:induction false} UpperDigit(o: nat, d: nat, n: nat)
    requires d > 0 && n > 0
    ensures n * d > 0 && o / (n * d) == o / d / n
  {
    UpperQuot(o, d, n);
  }

  lemma {:induction false} UpperQuot(o: nat, d: nat, n: nat)
    requires d > 0 && n > 0
    ensures n * d > 0 && Quot(o, n * d) == Quot(Quot(o, d), n)
  {
    hide Quot, Rem;
    MulAtLeast(n, d);
    var q, r := Quot(o, d), Rem(o, d);
    QuotRem(o, d);
    var a, b := Quot(q, n), Rem(q, n);
    QuotRem(q, n);
    BoundStep(b, n, d);
    ThreeDigits(o, d, n, q, a, b, r);
    QuotRemUnique(o, n * d, a, b * d + r);
  }

  /** Addresses in the same page are mapped alike. */
  lemma {:induction false} SamePage(sh: seq<nat>, e: Entry, s: nat, o: nat, o': nat)
    requires ShiftsOk(sh) && s < |sh| && Lookup(sh, e, s, o).Some?
    requires var d := Span(sh, Lookup(sh, e, s, o).value.size); o / d == o' / d
    ensures Lookup(sh, e, s, o') == Lookup(sh, e, s, o)
    decreases s
  {
    hide Span, Quot, Rem;
    if e.Table? && s > 0 {
      var i := Quot(o, Span(sh, s - 1));
      LookupSize(sh, e.entries[i], s - 1, Rem(o, Span(sh, s - 1)));
      PageDigits(sh, s - 1, Lookup(sh, e, s, o).value.size, o, o');
      SamePage(sh, e.entries[i], s - 1, Rem(o, Span(sh, s - 1)), Rem(o', Span(sh, s - 1)));
    }
  }

  lemma {:induction false} PageDigits(sh: seq<nat>, s: nat, f: nat, o: nat, o': nat)
    requires ShiftsOk(sh) && s < |sh| && f <= s && o / Span(sh, f) == o' / Span(sh, f)
    ensures var d := Span(sh, s); Quot(o, d) == Quot(o', d) && Rem(o, d) / Span(sh, f) == Rem(o', d) / Span(sh, f)
  {
    hide Pow2;
    assert sh[f] <= sh[s];
    Pow2Add(sh[s] - sh[f], sh[f]);
    TwoLevels(o, Span(sh, f), Pow2(sh[s] - sh[f]));
    TwoLevels(o', Span(sh, f), Pow2(sh[s] - sh[f]));
  }

  /** The bytes of a readable word. */
  lemma {:induction false} WordBytesAre(phys: nat -> Byte, sh: seq<nat>, root: Entry, v: nat, big: bool)
    requires Readable(sh, root, v)
    ensures IsWord(phys, sh, root, v, big, WordOf(big, BytesFrom(phys, sh, root, v)))
  {
    hide Pow2, Mapping, IsByte, ByteAt, WordOf;
    var b := BytesFrom(phys, sh, root, v);
    WordByte(big, b, 0);
    forall i | 0 <= i < 8 ensures HasByte(phys, sh, root, v, big, WordOf(big, b), i) {
      assert ByteMapped(sh, root, v, i);
      MappedByte(phys, sh, root, (v + i) % W64);
      WordByte(big, b, i);
    }
  }

  /* ---------- aligned words ---------- */

  lemma {:induction false} SpanOfWords(sh: seq<nat>, s: nat)
    requires WordPages(sh) && s < |sh|
    ensures Span(sh, s) % 8 == 0 && Span(sh, s) >= 8
  {
    hide Pow2;
    assert sh[s] >= sh[0];
    PowThree();
    Pow2Divides(3, sh[s]);
    Pow2Mono(3, sh[s]);
  }

  lemma {:induction false} MultipleOfMultiple(x: nat, d: nat)
    requires d > 0 && d % 8 == 0 && x % d == 0
    ensures x % 8 == 0
  {
    var q, e := x / d, d / 8;
    assert x == q * d && d == e * 8;
    assert q * (e * 8) == q * e * 8;
    MulMod(q * e, 8);
  }

  lemma {:induction false} FrameAligned(sh: seq<nat>, f: Found)
    requires WordPages(sh) && f.size < |sh|
    ensures Frame(sh, f) % 8 == 0 && Frame(sh, f) % Span(sh, f.size) == 0
  {
    hide Span, RoundedDown;
    var d := Span(sh, f.size);
    SpanOfWords(sh, f.size);
    if f.leaf.Leaf? {
      RoundedFacts(f.leaf.paddr, d);
    } else {
      DivModUnique(0, d, 0, 0);
    }
    MultipleOfMultiple(Frame(sh, f), d);
  }

  /** Offsets in a page go up with the address within a word. */
  lemma {:induction false} WordOffset(w: nat, j: nat, d: nat)
    requires d >= 8 && d % 8 == 0 && w % 8 == 0 && j < 8
    ensures (w + j) % d == w % d + j && w % d % 8 == 0 && w % d + 8 <= d && (w + j) / d == w / d
  {
    var n := d / 8;
    assert n * 8 == d;
    TwoLevels(w, 8, n);
    var q, r := w / d, w % d;
    assert r % 8 == 0;
    DivModUnique(w + j, d, q, r + j);
  }

  lemma {:induction false} MappingSize(sh: seq<nat>, root: Entry, v: nat)
    requires ShiftsOk(sh)
    ensures Mapping(sh, root, v).Some? ==> Mapping(sh, root, v).value.size < |sh|
  {
    hide Span, Lookup;
    LookupSize(sh, root, Last(sh), Rem(v, Span(sh, Last(sh))));
  }

  /** All bytes of an aligned word are mapped alike, to consecutive physical bytes. */
  lemma {:induction false} WordBytes(phys: nat -> Byte, sh: seq<nat>, root: Entry, w: nat, j: nat)
    requires WordPages(sh) && w % 8 == 0 && j < 8
    ensures Mapping(sh, root, w + j) == Mapping(sh, root, w)
    ensures Mapping(sh, root, w).Some? ==> ByteAt(phys, sh, root, w + j) == phys(WordStart(sh, root, w) + j)
  {
    hide Span, Lookup, Frame, Rem;
    WordDigits(sh, Last(sh), w, w + j);
    SameWord(sh, root, Last(sh), Rem(w, Span(sh, Last(sh))), Rem(w + j, Span(sh, Last(sh))));
    MappingSize(sh, root, w);
    if Mapping(sh, root, w).Some? {
      var d := Span(sh, Mapping(sh, root, w).value.size);
      SpanOfWords(sh, Mapping(sh, root, w).value.size);
      RemOffset(w, j, d);
    }
  }

  lemma {:induction false} RemOffset(w: nat, j: nat, d: nat)
    requires d >= 8 && d % 8 == 0 && w % 8 == 0 && j < 8
    ensures Rem(w + j, d) == Rem(w, d) + j
  {
    WordOffset(w, j, d);
  }

  /** Where an aligned word is in physical memory. */
  function WordStart(sh: seq<nat>, root: Entry, w: nat): nat {
    var p := Translate(sh, root, w);
    if p.Some? then p.value else 0
  }

  /* ---------- the two words that hold an unaligned one ---------- */

  /** The aligned word with `v` in it, and the one after it. */
  function FirstWord(v: nat): nat { v - v % 8 }
  function SecondWord(v: nat): nat { (FirstWord(v) + 8) % W64 }

  /** An unaligned word is made of the upper bytes of one and the lower bytes of the next. */
  lemma {:induction false} UnalignedBytes(phys: nat -> Byte, sh: seq<nat>, root: Entry, v: Word)
    requires WordPages(sh)
    requires Mapping(sh, root, FirstWord(v)).Some? && (v % 8 != 0 ==> Mapping(sh, root, SecondWord(v)).Some?)
    ensures BytesFrom(phys, sh, root, v) ==
            PhysBytes(phys, WordStart(sh, root, FirstWord(v)), 8)[v % 8..]
              + PhysBytes(phys, WordStart(sh, root, SecondWord(v)), 8)[..v % 8]
    ensures Readable(sh, root, v)
  {
    hide Mapping, WordStart, ByteAt;
    var k, w1, w2 := v % 8, FirstWord(v), SecondWord(v);
    var b := BytesFrom(phys, sh, root, v);
    var c := PhysBytes(phys, WordStart(sh, root, w1), 8)[k..] + PhysBytes(phys, WordStart(sh, root, w2), 8)[..k];
    forall i | 0 <= i < 8 ensures b[i] == c[i] && ByteMapped(sh, root, v, i) {
      ByteHome(v, i);
      if i < 8 - k {
        WordBytes(phys, sh, root, w1, k + i);
      } else {
        WordBytes(phys, sh, root, w2, i - (8 - k));
      }
    }
  }

  /** Which of the two words byte `i` is in. */
  lemma {:induction false} ByteHome(v: Word, i: nat)
    requires i < 8
    ensures FirstWord(v) % 8 == 0 && SecondWord(v) % 8 == 0
    ensures i < 8 - v % 8 ==> (v + i) % W64 == FirstWord(v) + (v % 8 + i)
    ensures i >= 8 - v % 8 ==> (v + i) % W64 == SecondWord(v) + (i - (8 - v % 8))
  {
    var q, r := v / 8, v % 8;
    assert v == 8 * q + r && 8 * q + 8 <= W64;
    HomeWord(q, r, i);
  }

  lemma {:induction false} HomeWord(q: nat, r: nat, i: nat)
    requires r < 8 && i < 8 && 8 * q + 8 <= W64
    ensures var second := (8 * q + 8) % W64;
            && second % 8 == 0
            && (i < 8 - r ==> (8 * q + r + i) % W64 == 8 * q + r + i)
            && (i >= 8 - r ==> (8 * q + r + i) % W64 == second + (i - (8 - r)))
  {
    if 8 * q + 8 < W64 {
      DivModUnique(8 * q + 8, W64, 0, 8 * q + 8);
      DivModUnique(8 * q + r + i, W64, 0, 8 * q + r + i);
    } else {
      DivModUnique(W64, W64, 1, 0);
      if i < 8 - r { DivModUnique(8 * q + r + i, W64, 0, 8 * q + r + i); }
      else { DivModUnique(8 * q + r + i, W64, 1, r + i - 8); }
    }
  }

  /** A word with an unmapped half is not readable. */
  lemma {:induction false} HalfMissing(sh: seq<nat>, root: Entry, v: Word)
    requires WordPages(sh)
    requires Mapping(sh, root, FirstWord(v)).None? || (v % 8 != 0 && Mapping(sh, root, SecondWord(v)).None?)
    ensures !Readable(sh, root, v)
  {
    hide Mapping;
    var k := v % 8;
    var i := if Mapping(sh, root, FirstWord(v)).None? then 0 else 8 - k;
    ByteHome(v, i);
    SameMapping(sh, root, FirstWord(v), k);
    assert !ByteMapped(sh, root, v, i);
  }

  lemma {:induction false} SameMapping(sh: seq<nat>, root: Entry, w: nat, j: nat)
    requires WordPages(sh) && w % 8 == 0 && j < 8
    ensures Mapping(sh, root, w + j) == Mapping(sh, root, w)
  {
    WordBytes(_ => 0, sh, root, w, j);
  }

  /** The next word is in the same page frame exactly when its physical address is: then it is mapped
      right after the first. */
  lemma {:induction false} NextWordHere(sh: seq<nat>, root: Entry, v: Word)
    requires WordPages(sh) && Mapping(sh, root, FirstWord(v)).Some?
    requires var d := Span(sh, Mapping(sh, root, FirstWord(v)).value.size);
      var p := WordStart(sh, root, FirstWord(v));
             RoundedDown(p, d) == RoundedDown(p + 8, d)
    ensures Mapping(sh, root, SecondWord(v)).Some?
    ensures WordStart(sh, root, SecondWord(v)) == WordStart(sh, root, FirstWord(v)) + 8
  {
    hide Span, Mapping, WordStart, RoundedDown;
    var w := FirstWord(v);
    var f := Mapping(sh, root, w).value;
    MappingSize(sh, root, w);
    NextFits(sh, root, w, f);
    NoWrap(sh, f.size, w);
    NextStart(sh, root, w, f);
  }

  /** If the frame holds the next word, the page does. */
  lemma {:induction false} NextFits(sh: seq<nat>, root: Entry, w: nat, f: Found)
    requires WordPages(sh) && w % 8 == 0 && Mapping(sh, root, w) == Some(f) && f.size < |sh|
    requires var d, p := Span(sh, f.size), WordStart(sh, root, w); RoundedDown(p, d) == RoundedDown(p + 8, d)
    ensures w % Span(sh, f.size) + 8 < Span(sh, f.size)
  {
    hide Span, Lookup, Frame, RoundedDown, Mapping;
    var d := Span(sh, f.size);
    SpanOfWords(sh, f.size);
    FrameAligned(sh, f);
    WordOffset(w, 0, d);
    InFrame(Frame(sh, f), w % d, d);
  }

  lemma {:induction false} NextStart(sh: seq<nat>, root: Entry, w: nat, f: Found)
    requires WordPages(sh) && Mapping(sh, root, w) == Some(f) && f.size < |sh|
    requires w % Span(sh, f.size) + 8 < Span(sh, f.size)
    ensures Mapping(sh, root, w + 8) == Some(f) && WordStart(sh, root, w + 8) == WordStart(sh, root, w) + 8
  {
    hide Span, Lookup, Frame, Rem, Mapping;
    NextInPage(sh, root, w, f);
  }

  lemma {:induction false} InFrame(frame: nat, o: nat, d: nat)
    requires d >= 8 && frame % d == 0 && o + 8 <= d && RoundedDown(frame + o, d) == RoundedDown(frame + o + 8, d)
    ensures o + 8 < d
  {
    var q := frame / d;
    assert frame == q * d && (q + 1) * d == q * d + d;
    DivModUnique(frame + o, d, q, o);
    DivModUnique(frame + d, d, q + 1, 0);
  }

  /** A page ends at or before the end of the address space. */
  lemma {:induction false} NoWrap(sh: seq<nat>, s: nat, w: nat)
    requires WordPages(sh) && s < |sh| && w < W64 && w % Span(sh, s) + 8 < Span(sh, s)
    ensures w + 8 < W64
  {
    hide Pow2;
    Pow2Values();
    Pow2Add(64 - sh[s], sh[s]);
    NextFitsBelow(w, Span(sh, s), Pow2(64 - sh[s]));
  }

  lemma {:induction false} NextFitsBelow(w: nat, d: nat, n: nat)
    requires d > 0 && w < n * d && Rem(w, d) + 8 < d
    ensures w + 8 < n * d
  {
    hide Rem, Quot;
    QuotRem(w, d);
    var q := Quot(w, d);
    if q >= n {
      MulMono(n, q, d);
      assert false;
    }
    BoundStep(q, n, d);
  }

  lemma {:induction false} NextInPage(sh: seq<nat>, root: Entry, w: nat, f: Found)
    requires WordPages(sh) && Mapping(sh, root, w) == Some(f) && f.size < |sh|
    requires w % Span(sh, f.size) + 8 < Span(sh, f.size)
    ensures Mapping(sh, root, w + 8) == Some(f) && Translate(sh, root, w + 8) == Some(Translate(sh, root, w).value + 8)
  {
    hide Span, Lookup, Frame, Quot;
    var d, t := Span(sh, f.size), Span(sh, Last(sh));
    var q := w / d;
    assert w == q * d + w % d;
    DivModUnique(w + 8, d, q, w % d + 8);
    PageDigits(sh, Last(sh), f.size, w, w + 8);
    SamePage(sh, root, Last(sh), Rem(w, t), Rem(w + 8, t));
  }

  /* ---------- the two branches of readmem ---------- */

  /** The first lookup, from the address itself, finds the word it is in. */
  lemma {:induction false} FirstFound(sh: seq<nat>, root: Entry, v: Word)
    requires WordPages(sh)
    ensures Mapping(sh, root, v) == Mapping(sh, root, FirstWord(v))
    ensures Mapping(sh, root, v).Some? ==>
      var m := Mapping(sh, root, v).value; var p := Frame(sh, m) + v % Span(sh, m.size);
      p - p % 8 == WordStart(sh, root, FirstWord(v)) && p % 8 == v % 8
  {
    hide Lookup, Span, Frame;
    WordOfAddress(sh, root, FirstWord(v), v % 8);
  }

  /** Any address in a word leads to the word's physical start. */
  lemma {:induction false} WordOfAddress(sh: seq<nat>, root: Entry, w: nat, j: nat)
    requires WordPages(sh) && w % 8 == 0 && j < 8
    ensures Mapping(sh, root, w + j) == Mapping(sh, root, w)
    ensures Mapping(sh, root, w).Some? ==>
      var m := Mapping(sh, root, w).value; var p := Frame(sh, m) + (w + j) % Span(sh, m.size);
      p - p % 8 == WordStart(sh, root, w) && p % 8 == j
  {
    hide Lookup, Span, Frame, Mapping;
    SameMapping(sh, root, w, j);
    MappingSize(sh, root, w);
    if Mapping(sh, root, w).Some? {
      var m := Mapping(sh, root, w).value;
      SpanOfWords(sh, m.size);
      FrameAligned(sh, m);
      WordOffset(w, j, Span(sh, m.size));
      WordStarts(Frame(sh, m), w % Span(sh, m.size), j);
    }
  }

  lemma {:induction false} WordStarts(frame: nat, o: nat, j: nat)
    requires frame % 8 == 0 && o % 8 == 0 && j < 8
    ensures (frame + (o + j)) % 8 == j
  {
  }

  /** The second lookup, eight bytes on, finds the next word. */
  lemma {:induction false} SecondFound(sh: seq<nat>, root: Entry, v: Word)
    requires WordPages(sh)
    ensures var u := (v + 8) % W64;
            && Mapping(sh, root, u) == Mapping(sh, root, SecondWord(v))
            && (Mapping(sh, root, u).Some? ==>
                  var m := Mapping(sh, root, u).value; var p := Frame(sh, m) + u % Span(sh, m.size);
                  p - p % 8 == WordStart(sh, root, SecondWord(v)))
  {
    hide Lookup, Span, Frame, Mapping, WordStart;
    EightOn(v);
    WordOfAddress(sh, root, SecondWord(v), v % 8);
  }

  lemma {:induction false} EightOn(v: Word)
    ensures (v + 8) % W64 == SecondWord(v) + v % 8 && SecondWord(v) % 8 == 0 && (v + 8) % W64 % 8 == v % 8
  {
    var q, r := v / 8, v % 8;
    assert v == 8 * q + r;
    if v + 8 < W64 {
      DivModUnique(v + 8, W64, 0, v + 8);
      DivModUnique(8 * q + 8, W64, 0, 8 * q + 8);
    } else {
      assert 8 * q + 8 == W64;
      DivModUnique(v + 8, W64, 1, r);
      DivModUnique(W64, W64, 1, 0);
    }
  }

  lemma {:induction false} IndexOfByte(v: Word, vaddr: Word)
    requires v == vaddr || v == (vaddr + 8) % W64
    ensures And(v, 7) == vaddr % 8
  {
    hide And;
    PowThree();
    AndLowMask(v, 3);
    EightOn(vaddr);
  }

  lemma {:induction false} AlignedRead(phys: nat -> Byte, sh: seq<nat>, root: Entry, v: Word)
    requires WordPages(sh) && v % 8 == 0 && Mapping(sh, root, v).Some?
    ensures Readable(sh, root, v) && BytesFrom(phys, sh, root, v) == PhysBytes(phys, WordStart(sh, root, v), 8)
  {
    hide Mapping, WordStart, BytesFrom;
    UnalignedBytes(phys, sh, root, v);
    var a := PhysBytes(phys, WordStart(sh, root, v), 8);
    assert a[0..] + PhysBytes(phys, WordStart(sh, root, SecondWord(v)), 8)[..0] == a;
  }

  lemma {:induction false} UnalignedRead(phys: nat -> Byte, sh: seq<nat>, root: Entry, v: Word, p1: nat, p2: nat,
                                         k: nat)
    requires WordPages(sh) && k == v % 8 != 0
    requires Mapping(sh, root, FirstWord(v)).Some? && Mapping(sh, root, SecondWord(v)).Some?
    requires p1 == WordStart(sh, root, FirstWord(v)) && p2 == WordStart(sh, root, SecondWord(v))
    ensures Readable(sh, root, v)
    ensures Or(Shl(WordOf(true, PhysBytes(phys, p1, 8)), k * 8), Shr(WordOf(true, PhysBytes(phys, p2, 8)), (8 - k) * 8))
            == WordOf(true, BytesFrom(phys, sh, root, v))
    ensures Or(Shr(WordOf(false, PhysBytes(phys, p1, 8)), k * 8),
               Shl(WordOf(false, PhysBytes(phys, p2, 8)), (8 - k) * 8))
            == WordOf(false, BytesFrom(phys, sh, root, v))
  {
    hide Mapping, WordStart, BytesFrom, Or, Shl, Shr, Little, Big, Readable, PhysBytes;
    UnalignedBytes(phys, sh, root, v);
    var x, y := PhysBytes(phys, p1, 8), PhysBytes(phys, p2, 8);
    assert x == x[..k] + x[k..] && y == y[..k] + y[k..];
    JoinLittle(x[..k], x[k..], y[..k], y[k..]);
    JoinBig(x[..k], x[k..], y[..k], y[k..]);
  }
}
