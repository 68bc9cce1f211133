/** The kernel memory allocator: kernel/src/generic/kmemory.cc.

    Free memory is a list of 1024-byte chunks in ascending address order.  The list is threaded
    through the chunks themselves: the first word of a free chunk is the address of the next one.
    The ghost `free` is that list, and each operation is proved against it.
 */
module Kmem {
  import opened Words

  /* ---------- lists of chunks ---------- */

  /** Chunks do not overlap, ascend, and are word-aligned and not null. */
  ghost predicate Chunks(l: seq<nat>) {
    && (forall i :: 0 <= i < |l| ==> IsChunk(l[i]))
    && (forall i, j :: 0 <= i < j < |l| ==> l[i] + 1024 <= l[j])
  }

  predicate IsChunk(a: nat) { 0 < a && a % 8 == 0 && a + 1024 <= W64 }

  /** `n` consecutive chunks. */
  function Run(a: nat, n: nat): (r: seq<nat>) { seq(n, i requires 0 <= i < n => a + 1024 * i) }

  /** How many chunks of the list lie below `a`. */
  function Below(l: seq<nat>, a: nat): (k: nat)
    ensures k <= |l|
    ensures forall i :: 0 <= i < k ==> l[i] < a
    ensures k < |l| ==> a <= l[k]
  {
    if l == [] || a <= l[0] then 0 else 1 + Below(l[1..], a)
  }

  /** The list with a block of `n` chunks put in its place. */
  function InsertRun(l: seq<nat>, a: nat, n: nat): seq<nat> {
    InsertAt(l, Below(l, a), a, n)
  }

  function InsertAt(l: seq<nat>, k: nat, a: nat, n: nat): seq<nat>
    requires k <= |l|
  {
    l[..k] + Run(a, n) + l[k..]
  }

  /** The block shares no byte with a chunk of the list. */
  ghost predicate Apart(l: seq<nat>, a: nat, size: nat) {
    forall i :: 0 <= i < |l| ==> l[i] + 1024 <= a || a + size <= l[i]
  }

  /** Sizes are whole chunks, at least one. */
  function BlockSize(size: nat): nat { if size < 1024 then 1024 else size }

  function ChunkCount(size: nat): nat { BlockSize(size) / 1024 }

  /** Position `i` of the list starts a block of the size that is aligned as asked, and the list goes
      on after it. */
  predicate Fits(l: seq<nat>, i: nat, size: nat, alignment: nat, mask: nat) {
    && i + ChunkCount(size) < |l|
    && And(l[i], mask) == And(alignment, mask)
    && And(l[i], BlockSize(size) - 1) == 0
    && l[i..i + ChunkCount(size)] == Run(l[i], ChunkCount(size))
  }

  function Without(l: seq<nat>, i: nat, n: nat): seq<nat>
    requires i + n <= |l|
  {
    l[..i] + l[i + n..]
  }

  lemma {:induction false} BelowIs(l: seq<nat>, a: nat, k: nat)
    requires k <= |l| && (forall i :: 0 <= i < k ==> l[i] < a) && (k < |l| ==> a <= l[k])
    requires forall i, j :: 0 <= i < j < |l| ==> l[i] <= l[j]
    ensures Below(l, a) == k
  {
  }

  /** Freeing a block that overlaps no free chunk keeps the list ascending and adds exactly the
      block's chunks. */
  lemma {:induction false} InsertRunOk(l: seq<nat>, a: nat, n: nat)
    requires Chunks(l) && n > 0 && Apart(l, a, n * 1024) && IsChunk(a) && a + n * 1024 <= W64
    ensures Chunks(InsertRun(l, a, n)) && |InsertRun(l, a, n)| == |l| + n
    ensures forall c :: c in InsertRun(l, a, n) <==> c in l || c in Run(a, n)
  {
    hide Below, InsertAt;
    var k := Below(l, a);
    BelowSplits(l, a, n);
    InsertAtOk(l, k, a, n);
  }

  lemma {:induction false} InsertAtOk(l: seq<nat>, k: nat, a: nat, n: nat)
    requires Chunks(l) && n > 0 && Splits(l, k, a, n) && IsChunk(a) && a + n * 1024 <= W64
    ensures Chunks(InsertAt(l, k, a, n)) && |InsertAt(l, k, a, n)| == |l| + n
    ensures forall c :: c in InsertAt(l, k, a, n) <==> c in l || c in Run(a, n)
  {
    hide InsertAt, Run;
    InsertAtIs(l, k, a, n);
    InsertAtIn(l, k, a, n);
    var l' := InsertAt(l, k, a, n);
    forall i, j | 0 <= i < j < |l'| ensures l'[i] + 1024 <= l'[j] {
    }
    forall i | 0 <= i < |l'| ensures IsChunk(l'[i]) {
    }
  }

  lemma {:induction false} InsertAtIn(l: seq<nat>, k: nat, a: nat, n: nat)
    requires k <= |l|
    ensures forall c :: c in InsertAt(l, k, a, n) <==> c in l || c in Run(a, n)
  {
    assert l == l[..k] + l[k..];
  }

  lemma {:induction false} InsertAtIs(l: seq<nat>, k: nat, a: nat, n: nat)
    requires k <= |l|
    ensures |InsertAt(l, k, a, n)| == |l| + n
    ensures forall i {:trigger InsertAt(l, k, a, n)[i]} :: 0 <= i < |l| + n ==>
              InsertAt(l, k, a, n)[i] == if i < k then l[i] else if i < k + n then a + 1024 * (i - k) else l[i - n]
  {
    var l' := InsertAt(l, k, a, n);
    forall i | 0 <= i < |l'|
      ensures l'[i] == if i < k then l[i] else if i < k + n then a + 1024 * (i - k) else l[i - n] {
      if k <= i < k + n { assert l'[i] == Run(a, n)[i - k]; }
    }
  }

  /** The chunks before position `k` end below the block, and the others start after it. */
  ghost predicate Splits(l: seq<nat>, k: nat, a: nat, n: nat) {
    && k <= |l|
    && (forall i :: 0 <= i < k ==> l[i] + 1024 <= a)
    && (forall i :: k <= i < |l| ==> a + n * 1024 <= l[i])
  }

  lemma {:induction false} BelowSplits(l: seq<nat>, a: nat, n: nat)
    requires Chunks(l) && n > 0 && Apart(l, a, n * 1024)
    ensures Splits(l, Below(l, a), a, n)
  {
    var k := Below(l, a);
    forall i | k <= i < |l| ensures a + n * 1024 <= l[i] {
      assert l[k] <= l[i];
    }
  }

  /** Freeing a block that was just taken out restores the identical list. */
  lemma {:induction false} FreeUndoesAlloc(l: seq<nat>, i: nat, n: nat)
    requires Chunks(l) && 0 < n && i + n <= |l| && l[i..i + n] == Run(l[i], n)
    ensures InsertRun(Without(l, i, n), l[i], n) == l
    ensures Chunks(Without(l, i, n)) && Apart(Without(l, i, n), l[i], n * 1024)
  {
    hide Run, Without;
    var l' := Without(l, i, n);
    WithoutOk(l, i, n);
    BelowIs(l', l[i], i);
    InsertBack(l, i, n);
  }

  lemma {:induction false} InsertBack(l: seq<nat>, i: nat, n: nat)
    requires i + n <= |l| && i < |l| && l[i..i + n] == Run(l[i], n)
    ensures InsertAt(Without(l, i, n), i, l[i], n) == l
  {
    var l' := Without(l, i, n);
    assert l'[..i] == l[..i] && l'[i..] == l[i + n..];
    assert l == l[..i] + l[i..i + n] + l[i + n..];
  }

  lemma {:induction false} WithoutOk(l: seq<nat>, i: nat, n: nat)
    requires Chunks(l) && 0 < n && i + n <= |l| && l[i..i + n] == Run(l[i], n)
    ensures var l' := Without(l, i, n);
            && Chunks(l') && Apart(l', l[i], n * 1024)
            && i <= |l'| && (forall j :: 0 <= j < i ==> l'[j] < l[i]) && (i < |l'| ==> l[i] <= l'[i])
  {
    hide Run, Without;
    WithoutAt(l, i, n);
    RunEnds(l, i, n);
  }

  lemma {:induction false} RunEnds(l: seq<nat>, i: nat, n: nat)
    requires Chunks(l) && 0 < n && i + n <= |l| && l[i..i + n] == Run(l[i], n)
    ensures l[i + n - 1] == l[i] + 1024 * (n - 1)
    ensures forall j :: i + n <= j < |l| ==> l[i] + 1024 * n <= l[j]
  {
    assert l[i..i + n][n - 1] == Run(l[i], n)[n - 1];
  }

  lemma {:induction false} WithoutAt(l: seq<nat>, i: nat, n: nat)
    requires i + n <= |l|
    ensures |Without(l, i, n)| == |l| - n
    ensures forall j {:trigger Without(l, i, n)[j]} :: 0 <= j < |l| - n ==>
      Without(l, i, n)[j] == if j < i then l[j] else l[j + n]
  {
  }

  /** The last chunk of the list is never handed out. */
  lemma {:induction false} LastChunkStays(l: seq<nat>, i: nat, size: nat, alignment: nat, mask: nat)
    requires Fits(l, i, size, alignment, mask)
    ensures var l' := Without(l, i, ChunkCount(size)); l' != [] && l'[|l'| - 1] == l[|l| - 1]
  {
  }

  /** For a power of two, the block is aligned to its own size. */
  lemma {:induction false} PowerOfTwoAligned(l: seq<nat>, i: nat, size: nat, alignment: nat, mask: nat, k: nat)
    requires Fits(l, i, size, alignment, mask) && size == Pow2(k) && k >= 10
    ensures l[i] % size == 0
  {
    Pow2Values();
    Pow2Mono(10, k);
    AndLowMask(l[i], k);
  }

  /* ---------- memory ---------- */

  function Read(mem: map<nat, nat>, a: nat): nat { if a in mem then mem[a] else 0 }

  function Next(l: seq<nat>, i: nat): nat { if i < |l| then l[i] else 0 }

  /** Each chunk's first word leads to the next chunk. */
  ghost predicate Threaded(mem: map<nat, nat>, l: seq<nat>) {
    forall i :: 0 <= i < |l| ==> Read(mem, l[i]) == Next(l, i + 1)
  }

  /** The words of a block. */
  predicate InBlock(a: nat, size: nat, w: nat) { a <= w < a + size && (w - a) % 8 == 0 }

  class KernelMemory {
    var mem: map<nat, nat>
    var kmem_free_list: nat
    var free_chunks: nat
    ghost var free: seq<nat>

    ghost predicate Valid()
      reads this
    {
      && Chunks(free) && Threaded(mem, free)
      && kmem_free_list == Next(free, 0)
      && free_chunks == |free|
    }

    /** `*prev = v`, where a null `prev` stands for the address of `kmem_free_list`. */
    method SetNext(prev: nat, v: nat)
      modifies this`mem, this`kmem_free_list
      ensures prev == 0 ==> kmem_free_list == v && mem == old(mem)
      ensures prev != 0 ==> kmem_free_list == old(kmem_free_list) && mem == old(mem)[prev := v]
    {
      if prev == 0 { kmem_free_list := v; } else { mem := mem[prev := v]; }
    }

    /** A store to memory that is not free. */
    method Write(w: nat, v: nat)
      requires Valid() && w !in free
      modifies this`mem
      ensures Valid() && mem == old(mem)[w := v]
    {
      mem := mem[w := v];
      assert forall i :: 0 <= i < |free| ==> Read(mem, free[i]) == Read(old(mem), free[i]);
    }

    /** `init`: an empty list, then everything from `start` up to `end`. */
    constructor (mem: map<nat, nat>, start: nat, end: nat)
      requires IsChunk(start) && start < end && start + BlockSize(end - start) <= W64
      requires BlockSize(end - start) % 1024 == 0
      ensures Valid() && free == Run(start, ChunkCount(end - start))
    {
      this.mem := mem;
      kmem_free_list := 0;
      free_chunks := 0;
      free := [];
      new;
      Free(start, end - start);
      assert free == Run(start, ChunkCount(end - start));
    }

    /** `free`: thread the block's chunks, find the place, splice them in. */
    method Free(address: nat, size_: nat)
      requires Valid() && IsChunk(address) && address + BlockSize(size_) <= W64 && BlockSize(size_) % 1024 == 0
      requires Apart(free, address, BlockSize(size_))
      modifies this
      ensures Valid() && free == InsertRun(old(free), address, ChunkCount(size_))
      ensures |free| == |old(free)| + if size_ < 1024 then 1 else size_ / 1024
      ensures forall w :: w !in free ==> Read(mem, w) == Read(old(mem), w)
    {
      hide Chunks, Apart, InsertAt, Threaded, Run, ThreadedUpTo, Below;
      var size := BlockSize(size_);
      ghost var l, n := free, ChunkCount(size_);
      var p := address;
      ghost var i := 0;
      ThreadStart(mem, address, n);
      while p < address + size - 1024
        invariant 0 <= i < n && p == address + 1024 * i
        invariant kmem_free_list == old(kmem_free_list) && free == l && free_chunks == old(free_chunks)
        invariant ThreadedUpTo(old(mem), mem, address, n, i)
        decreases n - i
      {
        ThreadStep(old(mem), mem, address, n, i);
        mem := mem[p := p + 1024];
        p := Read(mem, p);
        i := i + 1;
      }
      ghost var mem1 := mem;
      // `prev` is the last chunk below the block
      var prev, curr := 0, kmem_free_list;
      ghost var k := 0;
      while curr != 0 && address > curr
        invariant mem == mem1 && kmem_free_list == old(kmem_free_list) && free == l && free_chunks == old(free_chunks)
        invariant k <= |l| && curr == Next(l, k) && prev == (if k == 0 then 0 else l[k - 1])
        invariant forall j :: 0 <= j < k ==> l[j] < address
        decreases |l| - k
      {
        ChunkAt(l, k);
        NextAfterThreading(old(mem), mem, l, address, n, i, k);
        prev, curr := curr, Read(mem, curr);
        k := k + 1;
      }
      BelowHere(l, address, k);
      if k > 0 { ChunkAt(l, k - 1); }
      SpliceOk(old(mem), mem, l, address, n, i, k);
      // From here on `free` holds the block
      SetNext(prev, address);
      mem := mem[p := curr];
      free_chunks := free_chunks + size / 1024;
      free := InsertRun(l, address, n);
      InsertRunOk(l, address, n);
    }

    /** The word after a run of `n` chunks from `curr` on, null if the list has no such run or ends
        with it. */
    method RunFrom(curr: nat, n: nat, ghost i: nat) returns (tmp: nat)
      requires Valid() && i < |free| && curr == free[i] && n > 0
      ensures tmp != 0 <==> i + n < |free| && free[i..i + n] == Run(curr, n)
      ensures tmp != 0 ==> tmp == free[i + n]
    {
      hide Chunks, Threaded, Run, Next, Read;
      ChunkAt(free, i + 1);
      LinkAt(mem, free, i);
      NextIs(free, i + 1);
      tmp := Read(mem, curr);
      var k := 1;
      while tmp != 0 && k < n
        invariant 1 <= k <= n && i + k <= |free|
        invariant tmp == Next(free, i + k)
        invariant forall j :: 0 <= j < k ==> free[i..][j] == curr + 1024 * j
        decreases n - k
      {
        ChunkAt(free, i + k);
        NextIs(free, i + k);
        LinkAt(mem, free, i + k);
        if tmp != curr + 1024 * k {
          NotARun(free, i, n, k);
          tmp := 0;
          return;
        }
        tmp := Read(mem, tmp);
        k := k + 1;
      }
      ChunkAt(free, i + k);
      NextIs(free, i + k);
      if tmp != 0 { IsARun(free, i, n); }
    }

    /** Zero the words of a block. */
    method Zero(curr: nat, size: nat)
      requires size % 8 == 0
      modifies this`mem
      ensures forall w :: InBlock(curr, size, w) ==> Read(mem, w) == 0
      ensures forall w :: !InBlock(curr, size, w) ==> Read(mem, w) == Read(old(mem), w)
    {
      hide Zeroed, InBlock, Read;
      NothingZeroed(mem, curr);
      for i := 0 to size / 8
        invariant Zeroed(old(mem), mem, curr, i)
      {
        OneWordMore(old(mem), mem, curr, i);
        mem := mem[curr + 8 * i := 0];
      }
      BlockZeroed(old(mem), mem, curr, size);
    }

    /** Take `n` chunks at position `k` out of the list, and zero them. */
    method TakeBlock(prev: nat, curr: nat, tmp: nat, size: nat, ghost k: nat, ghost n: nat)
      requires Valid() && n > 0 && size == n * 1024 && k + n < |free| && curr == free[k] && tmp == free[k + n]
      requires prev == (if k == 0 then 0 else free[k - 1]) && free[k..k + n] == Run(curr, n)
      modifies this
      ensures Valid() && free == Without(old(free), k, n)
      ensures forall w :: InBlock(curr, size, w) ==> Read(mem, w) == 0
      ensures forall w :: !InBlock(curr, size, w) && w !in free ==> Read(mem, w) == Read(old(mem), w)
    {
      hide Chunks, Threaded, Without, Run, InBlock, Read;
      ghost var l := free;
      // `prev` leads over the block
      DequeueOk(old(mem), l, k, n);
      NextIs(l, 0);
      if k > 0 { ChunkAt(l, k - 1); }
      SetNext(prev, tmp);
      ghost var mem1 := mem;
      // Only words of the block are written
      WholeChunks(n, size);
      Zero(curr, size);
      free_chunks := free_chunks - size / 1024;
      free := Without(l, k, n);
      ZeroKeeps(mem1, mem, l, k, n);
      OthersKept(old(mem), mem1, mem, l, k, n, size, tmp);
    }

    /** `alloc_aligned`: the first block that fits, zeroed, or null when there is none. */
    method AllocAligned(size_: nat, alignment: nat, mask: nat) returns (address: nat, ghost i: nat)
      requires Valid() && BlockSize(size_) % 1024 == 0
      modifies this
      ensures Valid()
      ensures address == 0 <==> forall j :: 0 <= j < |old(free)| ==> !Fits(old(free), j, size_, alignment, mask)
      ensures address == 0 ==> free == old(free) && mem == old(mem)
      ensures address != 0 ==>
        && i + ChunkCount(size_) < |old(free)| && address == old(free)[i] && Fits(old(free), i, size_, alignment, mask)
        && (forall j :: 0 <= j < i ==> !Fits(old(free), j, size_, alignment, mask))
        && free == Without(old(free), i, ChunkCount(size_))
        && |old(free)| == |free| + (if size_ < 1024 then 1 else size_ / 1024)
        && (forall w :: InBlock(address, BlockSize(size_), w) ==> Read(mem, w) == 0)
        && (forall w :: !InBlock(address, BlockSize(size_), w) && w !in free ==> Read(mem, w) == Read(old(mem), w))
    {
      hide Chunks, Threaded, Without, And, Run, Fits;
      var align := And(alignment, mask);
      var size := BlockSize(size_);
      ghost var l, n := free, ChunkCount(size_);
      var prev, curr := 0, kmem_free_list;
      ghost var k := 0;
      while curr != 0
        invariant mem == old(mem) && kmem_free_list == old(kmem_free_list) && free == l
        invariant free_chunks == old(free_chunks)
        invariant k <= |l| && curr == Next(l, k) && prev == (if k == 0 then 0 else l[k - 1])
        invariant forall j :: 0 <= j < k ==> !Fits(l, j, size_, alignment, mask)
        decreases |l| - k
      {
        ChunkAt(l, k);
        FitsIff(l, k, size_, alignment, mask);
        // Only an aligned chunk can start the block
        if And(curr, mask) == align && And(curr, size - 1) == 0 {
          var tmp := RunFrom(curr, size / 1024, k);
          if tmp != 0 {
            TakeBlock(prev, curr, tmp, size, k, n);
            ChunksTaken(l, k, size_);
            address, i := curr, k;
            return;
          }
        }
        LinkAt(mem, l, k);
        prev, curr := curr, Read(mem, curr);
        k := k + 1;
      }
      ChunkAt(l, k);
      address, i := 0, 0;
    }

    /** `alloc`: no alignment beyond the block's own size. */
    method Alloc(size: nat) returns (address: nat, ghost i: nat)
      requires Valid() && BlockSize(size) % 1024 == 0
      modifies this
      ensures Valid()
      ensures address == 0 <==> forall j :: 0 <= j < |old(free)| ==> !Fits(old(free), j, size, 0, 0)
      ensures address == 0 ==> free == old(free) && mem == old(mem)
      ensures address != 0 ==>
        && i + ChunkCount(size) < |old(free)| && address == old(free)[i] && Fits(old(free), i, size, 0, 0)
        && (forall j :: 0 <= j < i ==> !Fits(old(free), j, size, 0, 0))
        && free == Without(old(free), i, ChunkCount(size))
        && |old(free)| == |free| + (if size < 1024 then 1 else size / 1024)
        && (forall w :: InBlock(address, BlockSize(size), w) ==> Read(mem, w) == 0)
        && (forall w :: !InBlock(address, BlockSize(size), w) && w !in free ==> Read(mem, w) == Read(old(mem), w))
    {
      address, i := AllocAligned(size, 0, 0);
    }
  }

  /** The `n` words from `a` on are zero, and all others as before. */
  ghost predicate Zeroed(mem: map<nat, nat>, mem': map<nat, nat>, a: nat, n: nat) {
    forall w: nat :: Read(mem', w) == if a <= w < a + 8 * n && (w - a) % 8 == 0 then 0 else Read(mem, w)
  }

  lemma {:induction false} WholeChunks(n: nat, size: nat)
    requires size == n * 1024
    ensures size % 8 == 0 && size / 1024 == n
  {
    MulMod(n * 128, 8);
    DivModUnique(size, 1024, n, 0);
  }

  lemma {:induction false} NothingZeroed(mem: map<nat, nat>, a: nat)
    ensures Zeroed(mem, mem, a, 0)
  {
  }

  lemma {:induction false} OneWordMore(mem: map<nat, nat>, mem': map<nat, nat>, a: nat, n: nat)
    requires Zeroed(mem, mem', a, n)
    ensures Zeroed(mem, mem'[a + 8 * n := 0], a, n + 1)
  {
    var mem'' := mem'[a + 8 * n := 0];
    forall w: nat
      ensures Read(mem'', w) == if a <= w < a + 8 * (n + 1) && (w - a) % 8 == 0 then 0 else Read(mem, w)
    {
      assert Read(mem', w) == if a <= w < a + 8 * n && (w - a) % 8 == 0 then 0 else Read(mem, w);
      if a + 8 * n <= w < a + 8 * (n + 1) { LastWord(a, n, w); }
    }
  }

  lemma {:induction false} LastWord(a: nat, n: nat, w: nat)
    requires a + 8 * n <= w < a + 8 * (n + 1)
    ensures (w - a) % 8 == 0 <==> w == a + 8 * n
  {
  }

  lemma {:induction false} BlockZeroed(mem: map<nat, nat>, mem': map<nat, nat>, a: nat, size: nat)
    requires size % 8 == 0 && Zeroed(mem, mem', a, size / 8)
    ensures forall w :: InBlock(a, size, w) ==> Read(mem', w) == 0
    ensures forall w :: !InBlock(a, size, w) ==> Read(mem', w) == Read(mem, w)
  {
    hide Read;
  }

  lemma {:induction false} OthersKept(mem: map<nat, nat>, mem1: map<nat, nat>, mem': map<nat, nat>, l: seq<nat>, k: nat,
                                      n: nat, size: nat, tmp: nat)
    requires k + n < |l| && (k > 0 ==> l[k - 1] in Without(l, k, n))
    requires mem1 == if k == 0 then mem else mem[l[k - 1] := tmp]
    requires forall w :: !InBlock(l[k], size, w) ==> Read(mem', w) == Read(mem1, w)
    ensures forall w :: !InBlock(l[k], size, w) && w !in Without(l, k, n) ==> Read(mem', w) == Read(mem, w)
  {
    hide Without, InBlock;
  }

  lemma {:induction false} FitsIff(l: seq<nat>, i: nat, size: nat, alignment: nat, mask: nat)
    ensures Fits(l, i, size, alignment, mask) <==>
      && i + ChunkCount(size) < |l|
      && And(l[i], mask) == And(alignment, mask) && And(l[i], BlockSize(size) - 1) == 0
      && l[i..i + ChunkCount(size)] == Run(l[i], ChunkCount(size))
  {
    hide And, Run;
  }

  lemma {:induction false} ChunksTaken(l: seq<nat>, i: nat, size: nat)
    requires i + ChunkCount(size) <= |l|
    ensures |l| == |Without(l, i, ChunkCount(size))| + (if size < 1024 then 1 else size / 1024)
  {
  }

  lemma {:induction false} NotARun(l: seq<nat>, i: nat, n: nat, k: nat)
    requires i + k < |l| && k < n && l[i + k] != l[i] + 1024 * k
    ensures !(i + n < |l| && l[i..i + n] == Run(l[i], n))
  {
    assert i + n < |l| ==> l[i..i + n][k] == l[i + k];
    assert Run(l[i], n)[k] == l[i] + 1024 * k;
  }

  lemma {:induction false} IsARun(l: seq<nat>, i: nat, n: nat)
    requires i + n < |l| && forall j :: 0 <= j < n ==> l[i..][j] == l[i] + 1024 * j
    ensures l[i..i + n] == Run(l[i], n)
  {
    forall j | 0 <= j < n ensures l[i..i + n][j] == Run(l[i], n)[j] {
      assert l[i..][j] == l[i + j];
    }
  }

  lemma {:induction false} LinkAt(mem: map<nat, nat>, l: seq<nat>, k: nat)
    requires Threaded(mem, l) && k < |l|
    ensures Read(mem, l[k]) == Next(l, k + 1)
  {
  }

  /** Leading over a run takes it out of the list. */
  lemma {:induction false} DequeueOk(mem: map<nat, nat>, l: seq<nat>, k: nat, n: nat)
    requires Threaded(mem, l) && Chunks(l) && n > 0 && k + n < |l| && l[k..k + n] == Run(l[k], n)
    ensures var mem1 := if k == 0 then mem else mem[l[k - 1] := l[k + n]];
            Threaded(mem1, Without(l, k, n)) && Next(Without(l, k, n), 0) == (if k == 0 then l[n] else l[0])
    ensures k > 0 ==> l[k - 1] in Without(l, k, n)
  {
    hide Run, Without, Threaded, Next, Read, Chunks;
    WithoutAt(l, k, n);
    var l' := Without(l, k, n);
    var mem1 := if k == 0 then mem else mem[l[k - 1] := l[k + n]];
    NextIs(l', 0);
    if k > 0 { assert l'[k - 1] == l[k - 1]; }
    forall j | 0 <= j < |l'| ensures Read(mem1, l'[j]) == Next(l', j + 1) {
      var j' := if j < k then j else j + n;
      LinkAt(mem, l, j');
      NextIs(l', j + 1);
      NextIs(l, j' + 1);
      ReadAfter(mem, l, k, l[k + n], j');
    }
    ThreadedIs(mem1, l');
  }

  lemma {:induction false} ReadAfter(mem: map<nat, nat>, l: seq<nat>, k: nat, v: nat, j: nat)
    requires Chunks(l) && k < |l| && j < |l|
    ensures var mem1 := if k == 0 then mem else mem[l[k - 1] := v];
            Read(mem1, l[j]) == if j + 1 == k then v else Read(mem, l[j])
  {
    assert k > 0 && j != k - 1 ==> l[j] != l[k - 1];
  }

  lemma {:induction false} ZeroKeeps(mem: map<nat, nat>, mem': map<nat, nat>, l: seq<nat>, k: nat, n: nat)
    requires Chunks(l) && n > 0 && k + n < |l| && l[k..k + n] == Run(l[k], n) && Threaded(mem, Without(l, k, n))
    requires forall w :: !InBlock(l[k], n * 1024, w) ==> Read(mem', w) == Read(mem, w)
    ensures Threaded(mem', Without(l, k, n)) && Chunks(Without(l, k, n)) && |Without(l, k, n)| == |l| - n
  {
    hide Run, Without, Read;
    WithoutOk(l, k, n);
    WithoutAt(l, k, n);
    var l' := Without(l, k, n);
    forall j | 0 <= j < |l'| ensures Read(mem', l'[j]) == Next(l', j + 1) {
      assert !InBlock(l[k], n * 1024, l'[j]);
    }
  }

  /** The first `i` chunks of a block lead to the next ones; no word outside the block has changed. */
  ghost predicate ThreadedUpTo(mem0: map<nat, nat>, mem: map<nat, nat>, a: nat, n: nat, i: nat) {
    && (forall j :: 0 <= j < i ==> Read(mem, a + 1024 * j) == a + 1024 * (j + 1))
    && (forall w :: w !in Run(a, n) ==> Read(mem, w) == Read(mem0, w))
  }

  lemma {:induction false} ThreadStart(mem: map<nat, nat>, a: nat, n: nat)
    ensures ThreadedUpTo(mem, mem, a, n, 0)
  {
  }

  lemma {:induction false} ThreadStep(mem0: map<nat, nat>, mem: map<nat, nat>, a: nat, n: nat, i: nat)
    requires ThreadedUpTo(mem0, mem, a, n, i) && i < n
    ensures ThreadedUpTo(mem0, mem[a + 1024 * i := a + 1024 * i + 1024], a, n, i + 1)
  {
    assert Run(a, n)[i] == a + 1024 * i;
    hide Run;
    var mem' := mem[a + 1024 * i := a + 1024 * i + 1024];
    forall j | 0 <= j < i + 1 ensures Read(mem', a + 1024 * j) == a + 1024 * (j + 1) {
    }
  }

  lemma {:induction false} NextAfterThreading(mem0: map<nat, nat>, mem: map<nat, nat>, l: seq<nat>, a: nat, n: nat,
                                              i: nat, k: nat)
    requires ThreadedUpTo(mem0, mem, a, n, i) && Threaded(mem0, l) && Chunks(l) && Apart(l, a, n * 1024) && k < |l|
    ensures Read(mem, l[k]) == Next(l, k + 1)
  {
    RunApart(l, a, n);
  }

  lemma {:induction false} SpliceOk(mem0: map<nat, nat>, mem: map<nat, nat>, l: seq<nat>, a: nat, n: nat, i: nat,
                                    k: nat)
    requires ThreadedUpTo(mem0, mem, a, n, i) && Threaded(mem0, l) && Chunks(l) && Apart(l, a, n * 1024)
    requires n > 0 && i == n - 1 && k <= |l| && a > 0
    ensures var mem1 := if k == 0 then mem else mem[l[k - 1] := a];
            var mem' := mem1[a + 1024 * i := Next(l, k)];
            && Threaded(mem', InsertAt(l, k, a, n))
            && Next(InsertAt(l, k, a, n), 0) == (if k == 0 then a else Next(l, 0))
            && (forall w :: w !in InsertAt(l, k, a, n) ==> Read(mem', w) == Read(mem0, w))
  {
    hide InsertAt, Threaded, Apart, Chunks, ThreadedUpTo;
    SpliceMem(mem0, mem, l, a, n, i, k);
    InsertAtIs(l, k, a, n);
    InsertAtIn(l, k, a, n);
    var mem1 := if k == 0 then mem else mem[l[k - 1] := a];
    InsertThreaded(mem0, mem1[a + 1024 * i := Next(l, k)], l, a, n, k);
  }

  lemma {:induction false} SpliceMem(mem0: map<nat, nat>, mem: map<nat, nat>, l: seq<nat>, a: nat, n: nat, i: nat,
                                     k: nat)
    requires ThreadedUpTo(mem0, mem, a, n, i) && Chunks(l) && Apart(l, a, n * 1024) && n > 0 && i == n - 1 && k <= |l|
    ensures var mem1 := if k == 0 then mem else mem[l[k - 1] := a];
            var mem' := mem1[a + 1024 * i := Next(l, k)];
            && (forall j :: 0 <= j < n - 1 ==> Read(mem', a + 1024 * j) == a + 1024 * (j + 1))
            && Read(mem', a + 1024 * (n - 1)) == Next(l, k)
            && (k > 0 ==> Read(mem', l[k - 1]) == a)
            && (forall w :: w !in Run(a, n) && (k == 0 || w != l[k - 1]) ==> Read(mem', w) == Read(mem0, w))
  {
    hide Apart, Chunks, Run, Next;
    RunApart(l, a, n);
    RunHas(a, n);
    var e := a + 1024 * i;
    assert e in Run(a, n) && (k > 0 ==> l[k - 1] !in Run(a, n));
    assert forall j :: 0 <= j < n - 1 ==> a + 1024 * j in Run(a, n) && a + 1024 * j != e;
  }

  lemma {:induction false} RunHas(a: nat, n: nat)
    ensures forall j :: 0 <= j < n ==> a + 1024 * j in Run(a, n)
  {
    forall j | 0 <= j < n ensures a + 1024 * j in Run(a, n) {
      assert Run(a, n)[j] == a + 1024 * j;
    }
  }

  lemma {:induction false} InsertThreaded(mem0: map<nat, nat>, mem: map<nat, nat>, l: seq<nat>, a: nat, n: nat, k: nat)
    requires Chunks(l) && Threaded(mem0, l) && n > 0 && a > 0 && Apart(l, a, n * 1024) && k <= |l|
    requires forall j :: 0 <= j < n - 1 ==> Read(mem, a + 1024 * j) == a + 1024 * (j + 1)
    requires Read(mem, a + 1024 * (n - 1)) == Next(l, k)
    requires k > 0 ==> Read(mem, l[k - 1]) == a
    requires forall w :: w !in Run(a, n) && (k == 0 || w != l[k - 1]) ==> Read(mem, w) == Read(mem0, w)
    ensures Threaded(mem, InsertAt(l, k, a, n))
  {
    hide InsertAt, Apart, Chunks, Read, Run, Threaded, Next;
    InsertAtIs(l, k, a, n);
    var l' := InsertAt(l, k, a, n);
    forall i | 0 <= i < |l'| ensures Read(mem, l'[i]) == Next(l', i + 1) {
      if i < k - 1 || k + n <= i {
        OldLink(mem0, mem, l, a, n, k, if i < k then i else i - n);
        NextIs(l', i + 1);
        NextIs(l, if i < k then i + 1 else i + 1 - n);
      } else {
        NextIs(l', i + 1);
        NextIs(l, k);
      }
    }
    ThreadedIs(mem, l');
  }

  lemma {:induction false} NextIs(l: seq<nat>, i: nat)
    ensures Next(l, i) == if i < |l| then l[i] else 0
  {
  }

  lemma {:induction false} ThreadedIs(mem: map<nat, nat>, l: seq<nat>)
    requires forall i :: 0 <= i < |l| ==> Read(mem, l[i]) == Next(l, i + 1)
    ensures Threaded(mem, l)
  {
  }

  lemma {:induction false} OldLink(mem0: map<nat, nat>, mem: map<nat, nat>, l: seq<nat>, a: nat, n: nat, k: nat, i: nat)
    requires Chunks(l) && Threaded(mem0, l) && Apart(l, a, n * 1024) && k <= |l| && i < |l| && i + 1 != k
    requires forall w :: w !in Run(a, n) && (k == 0 || w != l[k - 1]) ==> Read(mem, w) == Read(mem0, w)
    ensures Read(mem, l[i]) == Next(l, i + 1)
  {
    hide Read, Run;
    RunApart(l, a, n);
    assert k > 0 ==> l[i] != l[k - 1];
  }

  lemma {:induction false} ChunkAt(l: seq<nat>, k: nat)
    requires Chunks(l)
    ensures Next(l, k) != 0 <==> k < |l|
  {
  }

  /** No chunk of the block is in the list. */
  lemma {:induction false} RunApart(l: seq<nat>, a: nat, n: nat)
    requires Chunks(l) && Apart(l, a, n * 1024)
    ensures forall i :: 0 <= i < |l| ==> l[i] !in Run(a, n)
    ensures forall i, j :: 0 <= i < j < |l| ==> l[i] != l[j]
  {
  }

  lemma {:induction false} BelowHere(l: seq<nat>, a: nat, k: nat)
    requires Chunks(l) && k <= |l| && (forall j :: 0 <= j < k ==> l[j] < a) && (Next(l, k) == 0 || a <= Next(l, k))
    ensures Below(l, a) == k
  {
    ChunkAt(l, k);
    BelowIs(l, a, k);
  }

  /* ---------- memory in use ---------- */

  /** Two address ranges share no byte. */
  predicate RangesApart(a: nat, size: nat, b: nat, size': nat) { a + size <= b || b + size' <= a }

  /** What overlaps no free chunk does not overlap a block made of free chunks. */
  lemma {:induction false} ApartFromBlock(l: seq<nat>, i: nat, n: nat, p: nat, size: nat)
    requires n > 0 && i + n <= |l| && l[i..i + n] == Run(l[i], n) && Apart(l, p, size) && size > 0
    ensures RangesApart(l[i], n * 1024, p, size)
  {
    var a := l[i];
    forall j | 0 <= j < n ensures l[i + j] == a + 1024 * j {
      assert l[i..i + n][j] == Run(a, n)[j];
    }
    var j := if a <= p < a + n * 1024 then (p - a) / 1024 else 0;
    assert l[i + j] + 1024 <= p || p + size <= l[i + j];
  }

  lemma {:induction false} ApartWithout(l: seq<nat>, i: nat, n: nat, p: nat, size: nat)
    requires i + n <= |l| && Apart(l, p, size)
    ensures Apart(Without(l, i, n), p, size)
  {
    hide Without;
    WithoutAt(l, i, n);
    var l' := Without(l, i, n);
    assert forall j :: 0 <= j < |l'| ==> l'[j] == l[if j < i then j else j + n];
  }

  lemma {:induction false} ApartInsert(l: seq<nat>, a: nat, n: nat, p: nat, size: nat)
    requires Apart(l, p, size) && RangesApart(a, n * 1024, p, size)
    ensures Apart(InsertRun(l, a, n), p, size)
  {
    hide Below, InsertAt;
    var k := Below(l, a);
    InsertAtIs(l, k, a, n);
  }

  /** No word of a range that overlaps no free chunk is the first of a free chunk. */
  lemma {:induction false} ApartWord(l: seq<nat>, p: nat, size: nat, w: nat)
    requires Apart(l, p, size) && p <= w < p + size
    ensures w !in l
  {
  }
}
