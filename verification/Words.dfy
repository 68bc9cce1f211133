/** Machine words: bitwise operators on natural numbers and on 64-bit words.

    The kernel sources use `&`, `|`, `^`, `~`, `<<` and `>>` on 64-bit words.  Here a word is a
    natural number below `W64`, the operators recurse over the binary digits, and the lemmas state
    the few arithmetic meanings the kernel relies on: masking is remainder, clearing low bits
    rounds down, or-ing disjoint parts adds, and exclusive-or is its own inverse.
 */
module Words {

  function Pow2(k: nat): (r: nat)
    ensures r > 0
  {
    if k == 0 then 1 else 2 * Pow2(k - 1)
  }

  const W64: nat := 0x1_0000_0000_0000_0000

  type Word = w: nat | w < W64

  function And(x: nat, y: nat): (r: nat)
    ensures r <= x && r <= y
    decreases x
  {
    if x == 0 || y == 0 then 0 else 2 * And(x / 2, y / 2) + (x % 2) * (y % 2)
  }

  function Or(x: nat, y: nat): nat
    decreases x + y
  {
    if x == 0 then y else if y == 0 then x
    else 2 * Or(x / 2, y / 2) + (if x % 2 == 1 || y % 2 == 1 then 1 else 0)
  }

  function Xor(x: nat, y: nat): nat
    decreases x + y
  {
    if x == 0 then y else if y == 0 then x
    else 2 * Xor(x / 2, y / 2) + (x + y) % 2
  }

  /** `~x` on a 64-bit word. */
  function Not(x: Word): (r: Word) { W64 - 1 - x }

  /** `x << n` on a 64-bit word: bits pushed out on the left are lost. */
  function Shl(x: nat, n: nat): (r: Word) { x * Pow2(n) % W64 }

  /** `x >> n`. */
  function Shr(x: nat, n: nat): nat {
    if n == 0 then x else Shr(x / 2, n - 1)
  }

  lemma {:induction false} ShrIsDiv(x: nat, n: nat)
    ensures Shr(x, n) == x / Pow2(n)
  {
    ShrIsQuot(x, n);
  }

  lemma {:induction false} ShrIsQuot(x: nat, n: nat)
    ensures Shr(x, n) == Quot(x, Pow2(n))
  {
    if n > 0 {
      hide Quot, Pow2;
      ShrIsQuot(x / 2, n - 1);
      Pow2Half(n);
      HalvesRem(x, Pow2(n - 1));
    }
  }

  lemma {:induction false} Pow2Values()
    ensures Pow2(8) == 0x100 && Pow2(10) == 1024 && Pow2(12) == 4096 && Pow2(64) == W64
  {
    Pow2Small();
    hide Pow2;
    Pow2Add(4, 4);
    Pow2Add(8, 2);
    Pow2Add(8, 4);
    Pow2Add(8, 8);
    Pow2Add(16, 16);
    Pow2Add(32, 32);
  }

  lemma {:induction false} Pow2Small()
    ensures Pow2(1) == 2 && Pow2(2) == 4 && Pow2(4) == 16
  {
    assert Pow2(0) == 1 && Pow2(1) == 2 && Pow2(2) == 4 && Pow2(3) == 8;
  }

  lemma {:induction false} Pow2Add(a: nat, b: nat)
    ensures Pow2(a + b) == Pow2(a) * Pow2(b)
  {
    if a == 0 {
    } else {
      Pow2Add(a - 1, b);
      assert Pow2(a + b) == 2 * (Pow2(a - 1) * Pow2(b));
    }
  }

  lemma {:induction false} Pow2Mono(a: nat, b: nat)
    requires a <= b
    ensures Pow2(a) <= Pow2(b)
    ensures a < b ==> 2 * Pow2(a) <= Pow2(b)
    decreases b - a
  {
    if a < b {
      Pow2Mono(a, b - 1);
    }
  }

  /** A larger power of two is a multiple of a smaller one. */
  lemma {:induction false} Pow2Divides(a: nat, b: nat)
    requires a <= b
    ensures Pow2(b) % Pow2(a) == 0
  {
    Pow2Add(b - a, a);
    MulMod(Pow2(b - a), Pow2(a));
  }

  lemma {:induction false} MulMod(k: nat, d: nat)
    requires d > 0
    ensures k * d % d == 0
  {
    DivModUnique(k * d, d, k, 0);
  }

  /* ---------- quotients and remainders ---------- */

  function Quot(o: nat, d: nat): nat
    requires d > 0
  {
    o / d
  }

  function Rem(o: nat, d: nat): nat
    requires d > 0
  {
    o % d
  }

  lemma {:induction false} QuotRem(x: nat, d: nat)
    requires d > 0
    ensures x == Quot(x, d) * d + Rem(x, d) && Rem(x, d) < d
  {
  }

  lemma {:induction false} QuotRemUnique(x: nat, d: nat, q: nat, r: nat)
    requires d > 0 && r < d && x == q * d + r
    ensures Quot(x, d) == q && Rem(x, d) == r
  {
    DivModUnique(x, d, q, r);
  }

  /** Dividing by twice a number the way the recursive operators do. */
  lemma {:induction false} HalvesRem(x: nat, p: nat)
    requires p > 0
    ensures Rem(x, 2 * p) == 2 * Rem(x / 2, p) + x % 2 && Quot(x, 2 * p) == Quot(x / 2, p)
  {
    hide Quot, Rem;
    var q, r := Quot(x / 2, p), Rem(x / 2, p);
    QuotRem(x / 2, p);
    DoubleProduct(q, p);
    QuotRemUnique(x, 2 * p, q, 2 * r + x % 2);
  }

  lemma {:induction false} DoubleProduct(q: nat, p: nat)
    ensures q * (2 * p) == 2 * (q * p)
  {
  }

  lemma {:induction false} HalfMod(x: nat, k: nat)
    ensures x % Pow2(k + 1) == 2 * (x / 2 % Pow2(k)) + x % 2
  {
    HalvesRem(x, Pow2(k));
  }

  lemma {:induction false} DivModUnique(x: nat, d: nat, q: nat, r: nat)
    requires d > 0 && r < d && x == q * d + r
    ensures x / d == q && x % d == r
  {
    var q', r' := x / d, x % d;
    assert (q - q') * d == r' - r;
    if q > q' {
      MulAtLeast(q - q', d);
    } else if q < q' {
      MulAtLeast(q' - q, d);
    }
  }

  lemma {:induction false} MulAtLeast(k: nat, d: nat)
    requires k >= 1
    ensures k * d >= d
  {
    assert k * d == (k - 1) * d + d;
  }

  lemma {:induction false} MulMono(a: nat, b: nat, d: nat)
    ensures a <= b ==> a * d <= b * d
  {
    if a <= b { assert b * d == a * d + (b - a) * d; }
  }

  lemma {:induction false} BoundStep(i: nat, n: nat, d: nat)
    requires i < n
    ensures i * d + d <= n * d
  {
    assert n * d == i * d + d + (n - i - 1) * d;
  }

  lemma {:induction false} ThreeDigits(v: nat, d: nat, n: nat, q: nat, a: nat, b: nat, r: nat)
    requires v == q * d + r && q == a * n + b
    ensures v == a * (n * d) + (b * d + r)
  {
    assert q * d == a * n * d + b * d;
    assert a * n * d == a * (n * d);
  }

  lemma {:induction false} NestedDigits(v: nat, d: nat, n: nat)
    requires d > 0 && n > 0
    ensures n * d > 0 && v / d % n == v % (n * d) / d && v % d == v % (n * d) % d
  {
    NestedRem(v, d, n);
  }

  lemma {:induction false} NestedRem(v: nat, d: nat, n: nat)
    requires d > 0 && n > 0
    ensures n * d > 0
    ensures Rem(Quot(v, d), n) == Quot(Rem(v, n * d), d) && Rem(v, d) == Rem(Rem(v, n * d), d)
  {
    hide Quot, Rem;
    MulAtLeast(n, d);
    var q, r := Quot(v, d), Rem(v, d);
    QuotRem(v, d);
    var a, b := Quot(q, n), Rem(q, n);
    QuotRem(q, n);
    BoundStep(b, n, d);
    ThreeDigits(v, d, n, q, a, b, r);
    QuotRemUnique(v, n * d, a, b * d + r);
    QuotRemUnique(b * d + r, d, b, r);
  }

  function RoundedDown(x: nat, d: nat): nat
    requires d > 0
  {
    x - x % d
  }

  /** Rounding down to a multiple. */
  lemma {:induction false} RoundedFacts(x: nat, d: nat)
    requires d > 0
    ensures RoundedDown(x, d) % d == 0 && RoundedDown(x, d) <= x < RoundedDown(x, d) + d
    ensures x == RoundedDown(x, d) + x % d
  {
    var q := x / d;
    assert x == q * d + x % d;
    MulMod(q, d);
  }

  /** One unfolding of `And` that has no special case for zero. */
  lemma {:induction false} AndStep(x: nat, y: nat)
    ensures And(x, y) == 2 * And(x / 2, y / 2) + if x % 2 == 1 && y % 2 == 1 then 1 else 0
  {
  }

  lemma {:induction false} AndOdd(x: nat, z: nat)
    ensures And(x, 2 * z + 1) == 2 * And(x / 2, z) + x % 2
  {
    AndStep(x, 2 * z + 1);
  }

  lemma {:induction false} AndEven(x: nat, z: nat)
    ensures And(x, 2 * z) == 2 * And(x / 2, z)
  {
    AndStep(x, 2 * z);
  }

  lemma {:induction false} Pow2Half(k: nat)
    requires k > 0
    ensures Pow2(k) == 2 * Pow2(k - 1)
  {
  }

  /** `x & ((1 << k) - 1)` is the remainder modulo 2^k. */
  lemma {:induction false} AndLowMask(x: nat, k: nat)
    ensures And(x, Pow2(k) - 1) == x % Pow2(k)
  {
    AndLowRem(x, k);
  }

  lemma {:induction false} AndLowRem(x: nat, k: nat)
    ensures And(x, Pow2(k) - 1) == Rem(x, Pow2(k))
  {
    if k > 0 {
      hide Pow2;
      AndLowRem(x / 2, k - 1);
      Pow2Half(k);
      LowStep(x, Pow2(k - 1), Pow2(k));
    }
  }

  /** Clearing the low `k` bits of a number that fits in `n` bits rounds it down. */
  lemma {:induction false} AndHighMask(x: nat, n: nat, k: nat)
    requires k <= n && x < Pow2(n)
    ensures Pow2(k) <= Pow2(n)
    ensures And(x, Pow2(n) - Pow2(k)) == x - x % Pow2(k)
  {
    AndHighRem(x, n, k);
  }

  lemma {:induction false} LowStep(x: nat, p: nat, p': nat)
    requires p > 0 && p' == 2 * p && And(x / 2, p - 1) == Rem(x / 2, p)
    ensures And(x, p' - 1) == Rem(x, p')
  {
    hide And, Rem;
    AndOdd(x, p - 1);
    HalvesRem(x, p);
    assert p' - 1 == 2 * (p - 1) + 1;
  }

  lemma {:induction false} HighStep(x: nat, q: nat, p: nat, q': nat, p': nat)
    requires 0 < p <= q && p' == 2 * p && q' == 2 * q && And(x / 2, q - p) == x / 2 - Rem(x / 2, p)
    ensures And(x, q' - p') == x - Rem(x, p')
  {
    hide And, Rem;
    AndEven(x, q - p);
    HalvesRem(x, p);
    assert q' - p' == 2 * (q - p);
    assert x == 2 * (x / 2) + x % 2;
  }

  lemma {:induction false} AndHighRem(x: nat, n: nat, k: nat)
    requires k <= n && x < Pow2(n)
    ensures Pow2(k) <= Pow2(n)
    ensures And(x, Pow2(n) - Pow2(k)) == x - Rem(x, Pow2(k))
  {
    hide Rem, And;
    Pow2Mono(k, n);
    if k == 0 {
      AndLowRem(x, n);
      QuotRemUnique(x, Pow2(n), 0, x);
      QuotRemUnique(x, 1, x, 0);
    } else {
      hide Pow2;
      Pow2Half(k);
      Pow2Half(n);
      AndHighRem(x / 2, n - 1, k - 1);
      HighStep(x, Pow2(n - 1), Pow2(k - 1), Pow2(n), Pow2(k));
    }
  }

  /** `x & ~((1 << k) - 1)` on a 64-bit word. */
  lemma {:induction false} RoundDown(x: Word, k: nat)
    requires k <= 64
    ensures Pow2(k) - 1 < W64
    ensures And(x, Not(Pow2(k) - 1)) == x - x % Pow2(k)
  {
    Pow2Values();
    Pow2Mono(k, 64);
    AndHighMask(x, 64, k);
  }

  lemma {:induction false} AndComm(x: nat, y: nat)
    ensures And(x, y) == And(y, x)
    decreases x
  {
    if x != 0 && y != 0 {
      AndComm(x / 2, y / 2);
    }
  }

  /** Or-ing a multiple of 2^k with a number below 2^k adds them. */
  lemma {:induction false} OrDisjoint(x: nat, y: nat, k: nat)
    requires x < Pow2(k) && y % Pow2(k) == 0
    ensures Or(x, y) == x + y
  {
    if k == 0 || x == 0 || y == 0 {
    } else {
      HalfMod(y, k - 1);
      assert x / 2 < Pow2(k - 1);
      OrDisjoint(x / 2, y / 2, k - 1);
    }
  }

  lemma {:induction false} OrComm(x: nat, y: nat)
    ensures Or(x, y) == Or(y, x)
    decreases x + y
  {
    if x != 0 && y != 0 {
      OrComm(x / 2, y / 2);
    }
  }

  lemma {:induction false} XorComm(x: nat, y: nat)
    ensures Xor(x, y) == Xor(y, x)
    decreases x + y
  {
    if x != 0 && y != 0 {
      XorComm(x / 2, y / 2);
    }
  }

  /** One unfolding of exclusive-or that has no special case for zero. */
  lemma {:induction false} XorHalf(x: nat, y: nat)
    ensures Xor(x, y) / 2 == Xor(x / 2, y / 2)
    ensures Xor(x, y) % 2 == (x + y) % 2
  {
  }

  /** Exclusive-or undoes itself: this is what makes the compressed backlinks decodable. */
  lemma {:induction false} XorCancel(x: nat, y: nat)
    ensures Xor(Xor(x, y), y) == x
    decreases x + y
  {
    if x == 0 {
      XorSelf(y);
    } else if y == 0 {
    } else {
      var z := Xor(x, y);
      XorHalf(x, y);
      XorHalf(z, y);
      XorCancel(x / 2, y / 2);
      assert Xor(z, y) == 2 * (Xor(z, y) / 2) + Xor(z, y) % 2;
    }
  }

  lemma {:induction false} XorSelf(x: nat)
    ensures Xor(x, x) == 0
  {
    if x != 0 {
      XorSelf(x / 2);
    }
  }

  /** Decoding either half of `Xor(x, y)` from the other. */
  lemma {:induction false} XorDecode(x: nat, y: nat)
    ensures Xor(Xor(x, y), y) == x
    ensures Xor(Xor(x, y), x) == y
  {
    XorCancel(x, y);
    XorComm(x, y);
    XorCancel(y, x);
  }

  lemma {:induction false} XorBound(x: nat, y: nat, k: nat)
    requires x < Pow2(k) && y < Pow2(k)
    ensures Xor(x, y) < Pow2(k)
  {
    if k > 0 && x != 0 && y != 0 {
      XorBound(x / 2, y / 2, k - 1);
    }
  }

  lemma {:induction false} OrBound(x: nat, y: nat, k: nat)
    requires x < Pow2(k) && y < Pow2(k)
    ensures Or(x, y) < Pow2(k)
  {
    if k > 0 && x != 0 && y != 0 {
      OrBound(x / 2, y / 2, k - 1);
    }
  }

  /* ---------- bits ---------- */

  /** Bit `k` of `x`. */
  predicate HasBit(x: nat, k: nat) { x / Pow2(k) % 2 == 1 }

  lemma {:induction false} FirstBit(x: nat)
    ensures HasBit(x, 0) <==> x % 2 == 1
  {
  }

  lemma {:induction false} NextBit(x: nat, k: nat)
    requires k > 0
    ensures HasBit(x, k) <==> HasBit(x / 2, k - 1)
  {
    HalvesRem(x, Pow2(k - 1));
  }

  lemma {:induction false} OrHalf(x: nat, y: nat)
    ensures Or(x, y) / 2 == Or(x / 2, y / 2)
    ensures Or(x, y) % 2 == if x % 2 == 1 || y % 2 == 1 then 1 else 0
  {
  }

  lemma {:induction false} AndHalf(x: nat, y: nat)
    ensures And(x, y) / 2 == And(x / 2, y / 2)
    ensures And(x, y) % 2 == if x % 2 == 1 && y % 2 == 1 then 1 else 0
  {
    AndStep(x, y);
    hide And;
  }

  /** The bits of `x | y` are those of either operand. */
  lemma {:induction false} OrHasBit(x: nat, y: nat, k: nat)
    ensures HasBit(Or(x, y), k) <==> HasBit(x, k) || HasBit(y, k)
  {
    OrHalf(x, y);
    hide Or, HasBit;
    if k == 0 {
      FirstBit(x);
      FirstBit(y);
      FirstBit(Or(x, y));
    } else {
      NextBit(x, k);
      NextBit(y, k);
      NextBit(Or(x, y), k);
      OrHasBit(x / 2, y / 2, k - 1);
    }
  }

  /** The bits of `x & y` are those of both operands. */
  lemma {:induction false} AndHasBit(x: nat, y: nat, k: nat)
    ensures HasBit(And(x, y), k) <==> HasBit(x, k) && HasBit(y, k)
  {
    AndHalf(x, y);
    hide And, HasBit;
    if k == 0 {
      FirstBit(x);
      FirstBit(y);
      FirstBit(And(x, y));
    } else {
      NextBit(x, k);
      NextBit(y, k);
      NextBit(And(x, y), k);
      AndHasBit(x / 2, y / 2, k - 1);
    }
  }

  /** The bits of `x ^ y` are those of one operand and not the other. */
  lemma {:induction false} XorHasBit(x: nat, y: nat, k: nat)
    ensures HasBit(Xor(x, y), k) <==> HasBit(x, k) != HasBit(y, k)
  {
    XorHalf(x, y);
    hide Xor, HasBit;
    if k == 0 {
      FirstBit(x);
      FirstBit(y);
      FirstBit(Xor(x, y));
    } else {
      NextBit(x, k);
      NextBit(y, k);
      NextBit(Xor(x, y), k);
      XorHasBit(x / 2, y / 2, k - 1);
    }
  }

  lemma {:induction false} NoBits(k: nat)
    ensures !HasBit(0, k)
  {
    DivModUnique(0, Pow2(k), 0, 0);
  }

  /** A number below 2^k has no bit from `k` on. */
  lemma {:induction false} BitsBelow(x: nat, k: nat, j: nat)
    requires x < Pow2(k) && k <= j
    ensures !HasBit(x, j)
  {
    Pow2Mono(k, j);
    DivModUnique(x, Pow2(j), 0, x);
  }

  /** The numbers below 2^k are told apart by their bits. */
  lemma {:induction false} SameBits(x: nat, y: nat, k: nat)
    requires x < Pow2(k) && y < Pow2(k) && forall j :: 0 <= j < k ==> (HasBit(x, j) <==> HasBit(y, j))
    ensures x == y
  {
    if k > 0 {
      Pow2Half(k);
      FirstBit(x);
      FirstBit(y);
      forall j | 0 <= j < k - 1 ensures HasBit(x / 2, j) <==> HasBit(y / 2, j) {
        NextBit(x, j + 1);
        NextBit(y, j + 1);
        assert HasBit(x, j + 1) <==> HasBit(y, j + 1);
      }
      hide Pow2, HasBit;
      SameBits(x / 2, y / 2, k - 1);
      assert HasBit(x, 0) <==> HasBit(y, 0);
    }
  }
}
