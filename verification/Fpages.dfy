/** Flexpages and map windows: kernel/include/api/v4/fpage.h and the head of `map_fpage` in
    kernel/src/generic/linear_ptab_walker.cc, on a 64-bit machine.
 */
module Fpages {
  import opened Words

  /* ---------- fields of an fpage ---------- */

  function SizeField(raw: Word): nat { raw / 16 % 64 }
  function BaseField(raw: Word): nat { raw / 1024 }

  /** The fields, and the four access bits below them, are the digits of the word. */
  lemma {:induction false} FieldsOf(raw: Word)
    ensures raw == BaseField(raw) * 1024 + SizeField(raw) * 16 + raw % 16 && SizeField(raw) < 64
  {
    NestedDigits(raw, 16, 64);
    assert raw == raw / 1024 * 1024 + raw % 1024 && raw % 1024 == raw % 1024 / 16 * 16 + raw % 1024 % 16;
  }

  predicate IsComplete(raw: Word) { SizeField(raw) == 1 && BaseField(raw) == 0 }

  /** `get_size_log2`. */
  function SizeLog2(raw: Word): nat { if IsComplete(raw) then 64 else SizeField(raw) }

  /** Sizes of ordinary fpages. */
  predicate Ordinary(raw: Word) { !IsComplete(raw) && SizeField(raw) >= 10 }

  /** `~0UL >> (64 - n)`. */
  function LowOnes(n: nat): Word { if n <= 64 then Shr(W64 - 1, 64 - n) % W64 else 0 }

  /** `get_address`. */
  function GetAddress(raw: Word): Word { And(Shl(BaseField(raw), 10), Not(LowOnes(SizeField(raw)))) }

  /** `get_size`. */
  function GetSize(raw: Word): Word { Shl(1, SizeField(raw)) }

  /** `addr_offset`. */
  function AddrOffset(a: Word, n: Word): Word { (a + n) % W64 }

  /** `address` of linear_ptab_walker.cc. */
  function Address(raw: Word, size: nat): Word { And(raw, Not((Shl(1, size) + W64 - 1) % W64)) }

  /** `base_mask`. */
  function BaseMask(raw: Word, size: nat): Word { And(LowOnes(SizeLog2(raw)), Not(LowOnes(size))) }

  /* ---------- masks ---------- */

  lemma {:induction false} LowOnesIs(n: nat)
    requires n <= 64
    ensures LowOnes(n) == Pow2(n) - 1 && Pow2(n) <= W64
  {
    hide Shr, Pow2;
    Pow2Values();
    Pow2Mono(n, 64);
    ShrIsDiv(W64 - 1, 64 - n);
    Pow2Add(n, 64 - n);
    var p, q := Pow2(n), Pow2(64 - n);
    assert W64 - 1 == (p - 1) * q + (q - 1) by { Expand(p, q); }
    DivModUnique(W64 - 1, q, p - 1, q - 1);
  }

  lemma {:induction false} Expand(p: nat, q: nat)
    requires p >= 1
    ensures p * q - 1 == (p - 1) * q + q - 1
  {
  }

  /** The words above the mask's width do not matter. */
  lemma {:induction false} AndNarrow(x: nat, y: nat, n: nat)
    requires y < Pow2(n)
    ensures And(x, y) == And(x % Pow2(n), y)
    decreases n
  {
    if n == 0 {
    } else {
      hide And;
      HalfMod(x, n - 1);
      AndNarrow(x / 2, y / 2, n - 1);
      AndStep(x, x % Pow2(n), y, x / 2 % Pow2(n - 1));
    }
  }

  lemma {:induction false} AndStep(x: nat, z: nat, y: nat, h: nat)
    requires z == 2 * h + x % 2 && And(x / 2, y / 2) == And(h, y / 2)
    ensures And(x, y) == And(z, y)
  {
    hide And;
    assert z / 2 == h && z % 2 == x % 2;
    AndUnfold(x, y);
    AndUnfold(z, y);
  }

  lemma {:induction false} AndUnfold(x: nat, y: nat)
    ensures And(x, y) == 2 * And(x / 2, y / 2) + x % 2 * (y % 2)
  {
  }

  /** A mask and its complement share a word between them. */
  lemma {:induction false} AndSplit(x: nat, y: nat, n: nat)
    requires x < Pow2(n) && y < Pow2(n)
    ensures And(x, Pow2(n) - 1 - y) + And(x, y) == x
    decreases n
  {
    if n > 0 {
      var z := Pow2(n) - 1 - y;
      assert z / 2 == Pow2(n - 1) - 1 - y / 2 && z % 2 == 1 - y % 2;
      AndSplit(x / 2, y / 2, n - 1);
      AndUnfold(x, y);
      AndUnfold(x, z);
      OneBit(x % 2, y % 2);
    }
  }

  lemma {:induction false} OneBit(a: nat, b: nat)
    requires b <= 1
    ensures a * (1 - b) + a * b == a
  {
  }

  lemma {:induction false} AddressIs(raw: Word, size: nat)
    requires size < 64
    ensures Address(raw, size) == raw - raw % Pow2(size)
  {
    hide And, Pow2;
    Pow2Values();
    Pow2Mono(size, 63);
    Pow2Mono(63, 64);
    DivModUnique(Pow2(size), W64, 0, Pow2(size));
    DivModUnique(Pow2(size) + W64 - 1, W64, 1, Pow2(size) - 1);
    RoundDown(raw, size);
  }

  /** Bits `s` up to `l`. */
  lemma {:induction false} BaseMaskIs(raw: Word, s: nat)
    requires s <= SizeLog2(raw) <= 64
    ensures Pow2(s) <= Pow2(SizeLog2(raw)) <= W64
    ensures BaseMask(raw, s) == Pow2(SizeLog2(raw)) - Pow2(s)
  {
    hide And, Pow2, LowOnes;
    var l := SizeLog2(raw);
    LowOnesIs(l);
    LowOnesIs(s);
    Pow2Mono(s, l);
    RoundDown(Pow2(l) - 1, s);
    OnesMod(s, l);
  }

  lemma {:induction false} OnesMod(s: nat, l: nat)
    requires s <= l
    ensures (Pow2(l) - 1) % Pow2(s) == Pow2(s) - 1
  {
    hide Pow2;
    var p, q := Pow2(s), Pow2(l - s);
    Pow2Add(l - s, s);
    assert Pow2(l) - 1 == (q - 1) * p + (p - 1) by { Expand(q, p); }
    DivModUnique(Pow2(l) - 1, p, q - 1, p - 1);
  }

  /** Masking with bits `s` up to `l`. */
  lemma {:induction false} AndBits(x: nat, s: nat, l: nat)
    requires s <= l
    ensures Pow2(s) <= Pow2(l) && And(x, Pow2(l) - Pow2(s)) == x % Pow2(l) - x % Pow2(s)
  {
    hide And, Pow2;
    Pow2Mono(s, l);
    AndNarrow(x, Pow2(l) - Pow2(s), l);
    AndHighMask(x % Pow2(l), l, s);
    ModMod(x, s, l);
  }

  lemma {:induction false} ModMod(x: nat, s: nat, l: nat)
    requires s <= l
    ensures x % Pow2(l) % Pow2(s) == x % Pow2(s)
  {
    hide Pow2;
    Pow2Add(l - s, s);
    NestedDigits(x, Pow2(s), Pow2(l - s));
  }

  /* ---------- where an ordinary fpage is ---------- */

  /** An ordinary fpage starts at its base rounded down to its size. */
  lemma {:induction false} GetAddressIs(raw: Word)
    requires Ordinary(raw)
    ensures var n := SizeField(raw);
            && GetAddress(raw) == raw - raw % Pow2(n) && GetSize(raw) == Pow2(n) && GetAddress(raw) % Pow2(n) == 0
            && GetAddress(raw) + Pow2(n) <= W64
  {
    hide And, Pow2, LowOnes, Shl;
    var n := SizeField(raw);
    LowOnesIs(n);
    BaseShifted(raw);
    var b := raw - raw % 1024;
    RoundDown(b, n);
    RoundTwice(raw, n);
    SizeIs(n);
    TopBound(raw, n);
  }

  lemma {:induction false} BaseShifted(raw: Word)
    ensures Shl(BaseField(raw), 10) == raw - raw % 1024
  {
    hide Pow2;
    Pow2Values();
    assert raw == raw / 1024 * 1024 + raw % 1024;
    DivModUnique(raw / 1024 * 1024, W64, 0, raw / 1024 * 1024);
  }

  lemma {:induction false} SizeIs(n: nat)
    requires n < 64
    ensures Shl(1, n) == Pow2(n) < W64
  {
    Pow2Values();
    Pow2Mono(n, 63);
    Pow2Mono(63, 64);
    DivModUnique(Pow2(n), W64, 0, Pow2(n));
  }

  lemma {:induction false} RoundTwice(x: nat, n: nat)
    requires n >= 10
    ensures var b := x - x % 1024; b - b % Pow2(n) == x - x % Pow2(n)
  {
    hide Pow2;
    Pow2Values();
    Pow2Add(n - 10, 10);
    RoundModBy(x, 1024, Pow2(n - 10));
  }

  lemma {:induction false} TopBound(x: Word, n: nat)
    requires n <= 64
    ensures (x - x % Pow2(n)) % Pow2(n) == 0 && x - x % Pow2(n) + Pow2(n) <= W64
  {
    hide Pow2;
    Pow2Values();
    Pow2Add(64 - n, n);
    TopBoundBy(x, Pow2(n), Pow2(64 - n));
  }

  lemma {:induction false} TopBoundBy(x: nat, p: nat, k: nat)
    requires p > 0 && x < k * p
    ensures (x - x % p) % p == 0 && x - x % p + p <= k * p
  {
    var q := x / p;
    assert x == q * p + x % p;
    MulMod(q, p);
    MulMono(k, q, p);
    MulMono(q + 1, k, p);
    assert (q + 1) * p == q * p + p;
  }

  /* ---------- map windows ---------- */

  datatype Window = Window(f_addr: Word, t_addr: Word, size: nat)

  /** The send and receive addresses at the head of `map_fpage`. */
  function MapWindow(snd: Word, base: Word, rcv: Word): Window {
    if SizeLog2(snd) <= SizeLog2(rcv) then
      var n := SizeLog2(snd);
      var m := BaseMask(rcv, n);
      Window(Address(snd, n), AddrOffset(And(Address(rcv, n), Not(m)), And(base, m)), n)
    else
      var n := SizeLog2(rcv);
      var m := BaseMask(snd, n);
      Window(AddrOffset(And(Address(snd, n), Not(m)), And(base, m)), Address(rcv, n), n)
  }

  /** The window that `base` selects in the larger fpage. */
  lemma {:induction false} WindowInside(large: Word, base: Word, n: nat)
    requires Ordinary(large) && 10 <= n <= SizeField(large)
    ensures var l := SizeField(large); var m := BaseMask(large, n);
            var a := AddrOffset(And(Address(large, n), Not(m)), And(base, m));
            && a == GetAddress(large) + (base % Pow2(l) - base % Pow2(n))
            && a % Pow2(n) == 0 && GetAddress(large) <= a && a + Pow2(n) <= GetAddress(large) + GetSize(large)
  {
    hide And, Pow2, BaseMask, GetAddress, GetSize, Address, AddrOffset;
    WindowParts(large, base, n);
    GetAddressIs(large);
    WindowSum(GetAddress(large), base, n, SizeField(large));
  }

  lemma {:induction false} WindowParts(large: Word, base: Word, n: nat)
    requires Ordinary(large) && 10 <= n <= SizeField(large)
    ensures var l := SizeField(large); var m := BaseMask(large, n);
            && And(Address(large, n), Not(m)) == GetAddress(large) && And(base, m) == base % Pow2(l) - base % Pow2(n)
            && l <= 63
  {
    hide And, Pow2, BaseMask, GetAddress, GetSize, Address;
    var l := SizeField(large);
    BaseMaskIs(large, n);
    AddressIs(large, n);
    GetAddressIs(large);
    HighPart(large, n, l);
    assert RoundedDown(large, Pow2(n)) == large - large % Pow2(n)
      && RoundedDown(large, Pow2(l)) == large - large % Pow2(l);
    AndBits(base, n, l);
  }

  lemma {:induction false} WindowSum(top: Word, base: Word, n: nat, l: nat)
    requires n <= l <= 63 && top % Pow2(l) == 0 && top + Pow2(l) <= W64
    ensures base % Pow2(n) <= base % Pow2(l)
    ensures var part := base % Pow2(l) - base % Pow2(n); var a := AddrOffset(top, part);
            a == top + part && a % Pow2(n) == 0 && top <= a && a + Pow2(n) <= top + Pow2(l)
  {
    hide Pow2;
    BitsFit(base, n, l);
    var part := base % Pow2(l) - base % Pow2(n);
    Pow2Values();
    Pow2Mono(n, l);
    DivModUnique(top + part, W64, 0, top + part);
    Pow2Divides(n, l);
    SumMultiple(top, part, n, l);
  }

  /** Masking out bits `n` up to `l` of an address that is a multiple of 2^n rounds it down to 2^l. */
  lemma {:induction false} HighPart(x: Word, n: nat, l: nat)
    requires n <= l <= 63
    ensures Pow2(n) <= Pow2(l) < W64
    ensures And(RoundedDown(x, Pow2(n)), Not(Pow2(l) - Pow2(n))) == RoundedDown(x, Pow2(l))
  {
    hide And, Pow2;
    Pow2Values();
    Pow2Mono(n, l);
    Pow2Mono(l, 63);
    Pow2Mono(63, 64);
    var a := RoundedDown(x, Pow2(n));
    AndSplit(a, Pow2(l) - Pow2(n), 64);
    AndBits(a, n, l);
    RoundMod(x, n, l);
  }

  lemma {:induction false} RoundMod(x: nat, n: nat, l: nat)
    requires n <= l
    ensures var a := RoundedDown(x, Pow2(n)); a % Pow2(n) == 0 && a % Pow2(l) == x % Pow2(l) - x % Pow2(n)
  {
    hide Pow2;
    Pow2Add(l - n, n);
    RoundModBy(x, Pow2(n), Pow2(l - n));
  }

  lemma {:induction false} RoundModBy(x: nat, d: nat, k: nat)
    requires d > 0 && k > 0
    ensures k * d > 0 && RoundedDown(x, d) % d == 0 && RoundedDown(x, d) % (k * d) == x % (k * d) - x % d
  {
    NestedDigits(x, d, k);
    RoundedFacts(x, d);
    RoundModPart(x, d, k * d);
  }

  lemma {:induction false} RoundModPart(x: nat, d: nat, p: nat)
    requires d > 0 && p > 0 && x % p % d == x % d
    ensures RoundedDown(x, d) % p == x % p - x % d
  {
    var a, r, e := x / p, x % p, x % d;
    assert x == a * p + r;
    assert e <= r;
    DivModUnique(x - e, p, a, r - e);
  }

  lemma {:induction false} BitsFit(x: nat, n: nat, l: nat)
    requires n <= l
    ensures 0 <= x % Pow2(l) - x % Pow2(n) && x % Pow2(l) - x % Pow2(n) + Pow2(n) <= Pow2(l)
    ensures (x % Pow2(l) - x % Pow2(n)) % Pow2(n) == 0
  {
    hide Pow2;
    ModMod(x, n, l);
    var p, k := Pow2(n), Pow2(l - n);
    Pow2Add(l - n, n);
    var r := x % Pow2(l);
    var q := r / p;
    assert r == q * p + r % p;
    if q >= k { MulMono(k, q, p); }
    MulMono(q + 1, k, p);
    assert (q + 1) * p == q * p + p;
    MulMod(q, p);
  }

  lemma {:induction false} SumMultiple(a: nat, b: nat, n: nat, l: nat)
    requires n <= l && a % Pow2(l) == 0 && b % Pow2(n) == 0
    ensures (a + b) % Pow2(n) == 0
  {
    hide Pow2;
    ModMod(a, n, l);
    var p := Pow2(n);
    DivModUnique(0, p, 0, 0);
    var x, y := a / p, b / p;
    assert a == x * p && b == y * p;
    assert (x + y) * p == x * p + y * p;
    MulMod(x + y, p);
  }

  /** Both windows are aligned to the smaller size and lie inside their fpages. */
  lemma {:induction false} MapWindowsOk(snd: Word, base: Word, rcv: Word)
    requires Ordinary(snd) && Ordinary(rcv)
    ensures var w := MapWindow(snd, base, rcv); var d := Pow2(w.size);
            && w.size == (if SizeField(snd) <= SizeField(rcv) then SizeField(snd) else SizeField(rcv))
            && w.f_addr % d == 0 && w.t_addr % d == 0
            && GetAddress(snd) <= w.f_addr && w.f_addr + d <= GetAddress(snd) + GetSize(snd)
            && GetAddress(rcv) <= w.t_addr && w.t_addr + d <= GetAddress(rcv) + GetSize(rcv)
    // the smaller fpage is taken from its start, and the send base says where in the larger one
    ensures var w := MapWindow(snd, base, rcv); var n, l := SizeField(snd), SizeField(rcv);
            if n <= l then
              && w.f_addr == snd - snd % Pow2(n)
              && w.t_addr == rcv - rcv % Pow2(l) + base % Pow2(l) - base % Pow2(n)
            else
              && w.f_addr == snd - snd % Pow2(n) + base % Pow2(n) - base % Pow2(l)
              && w.t_addr == rcv - rcv % Pow2(l)
  {
    hide And, Pow2, BaseMask, GetAddress, GetSize, Address, AddrOffset;
    GetAddressIs(snd);
    GetAddressIs(rcv);
    if SizeLog2(snd) <= SizeLog2(rcv) {
      AddressIs(snd, SizeField(snd));
      WindowInside(rcv, base, SizeField(snd));
    } else {
      AddressIs(rcv, SizeField(rcv));
      WindowInside(snd, base, SizeField(rcv));
    }
  }

  /* ---------- overlap ---------- */

  /** `is_overlapping`. */
  predicate IsOverlapping(a: Word, b: Word) {
    if GetAddress(b) < GetAddress(a) then AddrOffset(GetAddress(b), GetSize(b)) > GetAddress(a)
    else AddrOffset(GetAddress(a), GetSize(a)) > GetAddress(b)
  }

  predicate Contains(a: Word, b: Word) {
    GetAddress(a) <= GetAddress(b) && GetAddress(b) + GetSize(b) <= GetAddress(a) + GetSize(a)
  }

  /** The lower of two fpages ends at the top of the address space. */
  predicate LowerEndsAtTop(a: Word, b: Word) {
    if GetAddress(b) < GetAddress(a) then GetAddress(b) + GetSize(b) == W64 else GetAddress(a) + GetSize(a) == W64
  }

  /** Two ordinary fpages are reported to overlap exactly when one contains the other, except that an
      fpage that ends at the top of the address space is missed when it is the lower one. */
  lemma {:induction false} OverlapIff(a: Word, b: Word)
    requires Ordinary(a) && Ordinary(b)
    ensures IsOverlapping(a, b) <==> (Contains(a, b) || Contains(b, a)) && !LowerEndsAtTop(a, b)
  {
    hide Pow2, GetAddress, GetSize;
    GetAddressIs(a);
    GetAddressIs(b);
    if GetAddress(b) < GetAddress(a) {
      Meets(b, a);
    } else {
      Meets(a, b);
    }
  }

  /** Aligned ranges that meet are nested. */
  lemma {:induction false} Meets(low: Word, high: Word)
    requires Ordinary(low) && Ordinary(high) && GetAddress(low) <= GetAddress(high)
    ensures GetAddress(low) + GetSize(low) <= W64
    ensures GetAddress(low) + GetSize(low) > GetAddress(high) <==> Contains(low, high) || Contains(high, low)
    ensures GetAddress(low) + GetSize(low) == W64 ==> AddrOffset(GetAddress(low), GetSize(low)) == 0
    ensures GetAddress(low) + GetSize(low) < W64 ==>
      AddrOffset(GetAddress(low), GetSize(low)) == GetAddress(low) + GetSize(low)
  {
    hide Pow2, GetAddress, GetSize;
    GetAddressIs(low);
    GetAddressIs(high);
    var e := GetAddress(low) + GetSize(low);
    if e == W64 { DivModUnique(e, W64, 1, 0); } else { DivModUnique(e, W64, 0, e); }
    if SizeField(high) <= SizeField(low) {
      NextMultiple(GetAddress(high), GetAddress(low) + GetSize(low), SizeField(high), SizeField(low), GetAddress(low));
    } else {
      NextMultiple(GetAddress(low), GetAddress(high), SizeField(low), SizeField(high), GetAddress(high));
    }
  }

  /** Multiples of 2^n below a multiple of 2^n are at least 2^n below it. */
  lemma {:induction false} NextMultiple(x: nat, y: nat, n: nat, l: nat, a: nat)
    requires n <= l && x % Pow2(n) == 0 && a % Pow2(l) == 0 && (y == a || y == a + Pow2(l))
    ensures x < y ==> x + Pow2(n) <= y
  {
    hide Pow2;
    Pow2Divides(n, l);
    SumMultiple(a, Pow2(l), n, l);
    SumMultiple(a, 0, n, l);
    StepBelow(x, y, Pow2(n));
  }

  lemma {:induction false} StepBelow(x: nat, y: nat, p: nat)
    requires p > 0 && x % p == 0 && y % p == 0
    ensures x < y ==> x + p <= y
  {
    var i, j := x / p, y / p;
    assert x == i * p && y == j * p;
    MulMono(j, i, p);
    MulMono(i + 1, j, p);
    assert (i + 1) * p == i * p + p;
  }

  /** The top gigabyte contains its own last kilobyte, and the overlap is missed. */
  lemma {:induction false} OverlapMissedAtTop()
    ensures var gigabyte: Word := 0xFFFF_FFFF_C000_01E0; var kilobyte: Word := 0xFFFF_FFFF_FFFF_FCA0;
            Ordinary(gigabyte) && Ordinary(kilobyte) && Contains(gigabyte, kilobyte)
              && !IsOverlapping(gigabyte, kilobyte)
  {
    hide And, Shl, LowOnes, GetAddress, GetSize, Pow2, IsOverlapping;
    var gigabyte: Word, kilobyte: Word := 0xFFFF_FFFF_C000_01E0, 0xFFFF_FFFF_FFFF_FCA0;
    PowerThirty();
    assert SizeField(gigabyte) == 30 && SizeField(kilobyte) == 10;
    GetAddressIs(gigabyte);
    GetAddressIs(kilobyte);
    assert gigabyte % 0x4000_0000 == 0x1E0 && kilobyte % 0x400 == 0xA0;
    assert GetAddress(gigabyte) == 0xFFFF_FFFF_C000_0000 && GetAddress(kilobyte) == 0xFFFF_FFFF_FFFF_FC00;
    OverlapIff(gigabyte, kilobyte);
  }

  lemma {:induction false} PowerThirty()
    ensures Pow2(30) == 0x4000_0000 && Pow2(10) == 0x400
  {
    hide Pow2;
    Pow2Values();
    Pow2Add(10, 10);
    Pow2Add(20, 10);
  }
}
