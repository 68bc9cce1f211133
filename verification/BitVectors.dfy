/** What the bit-vector operators mean: the laws of two's complement arithmetic that the semantics of terms
    meets, on which the evaluator in libirpy/z3eval.py relies when it hands them to the solver.
 */
module BitVectors {
  import opened Words
  import opened Terms
  import opened Programs

  /* ---------- signed numbers ---------- */

  /** The signed value is the one number of the range that differs by a multiple of 2^w; its sign is the top bit. */
  lemma {:induction false} SignedIs(w: nat, x: nat)
    requires w > 0 && x < Pow2(w)
    ensures -(Pow2(w - 1) as int) <= Signed(w, x) < Pow2(w - 1)
    ensures Signed(w, x) == x || Signed(w, x) == x - Pow2(w)
    ensures Signed(w, x) < 0 <==> HasBit(x, w - 1)
  {
    Pow2Half(w);
    var p := Pow2(w - 1);
    hide Pow2;
    if x < p { DivModUnique(x, p, 0, x); } else { DivModUnique(x, p, 1, x - p); }
  }

  lemma {:induction false} SignedOf(w: nat, v: int)
    requires w > 0 && -(Pow2(w - 1) as int) <= v < Pow2(w - 1)
    ensures Signed(w, v % Pow2(w)) == v
  {
    Pow2Half(w);
    var d := Pow2(w);
    hide Pow2;
    if v >= 0 { DivModUnique(v, d, 0, v); } else { NegativeMod(v, d); }
  }

  lemma {:induction false} NegativeMod(v: int, d: nat)
    requires -(d as int) <= v < 0
    ensures d > 0 && v % d == v + d
  {
    var q, r := v / d, v % d;
    assert v == q * d + r;
    if q >= 0 { MulMono(0, q, d); } else if q < -1 { MulMono(2, -q, d); }
  }

  /** Sign extension keeps the signed value. */
  lemma {:induction false} SignExtendKeeps(w: nat, x: nat, out: nat)
    requires 0 < w <= out && x < Pow2(w)
    ensures Signed(out, SignExtend(w, x, out)) == Signed(w, x)
  {
    SignedIs(w, x);
    Pow2Mono(w - 1, out - 1);
    SignedOf(out, Signed(w, x));
  }

  /** The signed order is the unsigned one with the top bits flipped. */
  lemma {:induction false} SignedOrder(w: nat, x: nat, y: nat)
    requires w > 0 && x < Pow2(w) && y < Pow2(w)
    ensures var h, d := Pow2(w - 1), Pow2(w);
            && (PredSem(Slt, w, x, y) <==> (x + h) % d < (y + h) % d)
            && (PredSem(Sgt, w, x, y) <==> (x + h) % d > (y + h) % d)
            && (PredSem(Sge, w, x, y) <==> (x + h) % d >= (y + h) % d)
  {
    TopFlipped(w, x);
    TopFlipped(w, y);
  }

  lemma {:induction false} TopFlipped(w: nat, x: nat)
    requires w > 0 && x < Pow2(w)
    ensures (x + Pow2(w - 1)) % Pow2(w) == Signed(w, x) + Pow2(w - 1)
  {
    Pow2Half(w);
    var h, d := Pow2(w - 1), Pow2(w);
    hide Pow2;
    if x < h { DivModUnique(x + h, d, 0, x + h); } else { DivModUnique(x + h, d, 1, x - h); }
  }

  /* ---------- sums, products, quotients ---------- */

  lemma {:induction false} ModOfSum(v: int, y: int, d: nat)
    requires d > 0
    ensures (v % d + y) % d == (v + y) % d
  {
    var q := v / d;
    assert v == q * d + v % d;
    ModShift(v % d + y, q, d);
  }

  lemma {:induction false} ModShift(a: int, q: int, d: nat)
    requires d > 0
    ensures (a + q * d) % d == a % d
  {
    var k, r := a / d, a % d;
    assert a + q * d == (k + q) * d + r;
    ModUnique(a + q * d, d, k + q, r);
  }

  lemma {:induction false} ModUnique(v: int, d: nat, q: int, r: nat)
    requires d > 0 && r < d && v == q * d + r
    ensures v % d == r
  {
    var q', r' := v / d, v % d;
    assert v == q' * d + r' && (q - q') * d == r' - r;
    if q > q' { MulAtLeast(q - q', d); } else if q < q' { MulAtLeast(q' - q, d); }
  }

  /** Subtraction undoes addition. */
  lemma {:induction false} SubtractionUndone(w: nat, x: nat, y: nat)
    requires x < Pow2(w)
    ensures BvSem(Add, w, BvSem(Sub, w, x, y), y) == x
  {
    hide Pow2, DivSem, ShiftSem, And, Or, Xor;
    ModOfSum(x - y, y, Pow2(w));
    DivModUnique(x, Pow2(w), 0, x);
  }

  /** Multiplication is repeated addition. */
  lemma {:induction false} MultiplicationStep(w: nat, x: nat, y: nat)
    ensures BvSem(Mul, w, x, 0) == 0
    ensures BvSem(Mul, w, x, y + 1) == BvSem(Add, w, BvSem(Mul, w, x, y), x)
  {
    hide Pow2, DivSem, ShiftSem, And, Or, Xor;
    DivModUnique(0, Pow2(w), 0, 0);
    ModOfSum(x * y, x, Pow2(w));
    assert x * (y + 1) == x * y + x;
  }

  /** Unsigned quotient and remainder. */
  lemma {:induction false} UnsignedDivision(w: nat, x: nat, y: nat)
    requires x < Pow2(w) && 0 < y
    ensures var q, r := BvSem(UDiv, w, x, y), BvSem(URem, w, x, y); x == q * y + r && r < y
  {
    hide Pow2, ShiftSem, And, Or, Xor;
    var q, r := x / y, x % y;
    assert x == q * y + r;
    assert q <= x && r <= x by { MulMono(1, y, q); Times(q, y); }
    DivModUnique(q, Pow2(w), 0, q);
    DivModUnique(r, Pow2(w), 0, r);
  }

  lemma {:induction false} Times(q: nat, y: nat)
    ensures q * y == y * q
  {
  }

  /** Signed quotient and remainder, but for the one quotient that does not fit: rounded toward zero, the
      remainder with the sign of the dividend. */
  lemma {:induction false} SignedDivision(w: nat, x: nat, y: nat)
    requires w > 0 && x < Pow2(w) && 0 < y < Pow2(w) && !QuotientOverflows(w, x, y)
    ensures var a, b := Signed(w, x), Signed(w, y);
            var q, r := Signed(w, BvSem(SDiv, w, x, y)), Signed(w, BvSem(SRem, w, x, y));
            && a == q * b + r && Absolute(r) < Absolute(b) && (r == 0 || (r < 0 <==> a < 0))
  {
    hide Pow2, BvSem, Signed, TruncDiv, Absolute;
    SignedIs(w, x);
    SignedIs(w, y);
    var a, b := Signed(w, x), Signed(w, y);
    NotZero(w, y);
    DivisionMeans(w, x, y);
    Truncated(a, b);
    OneOverflow(w, x, y);
    QuotientFits(w, a, b);
    SignedOf(w, TruncDiv(a, b));
    SignedOf(w, a - b * TruncDiv(a, b));
    TimesSigned(b, TruncDiv(a, b));
  }

  lemma {:induction false} NotZero(w: nat, y: nat)
    requires w > 0 && 0 < y < Pow2(w)
    ensures Signed(w, y) != 0
  {
  }

  lemma {:induction false} OneOverflow(w: nat, x: nat, y: nat)
    requires w > 0 && x < Pow2(w) && !QuotientOverflows(w, x, y)
    ensures !(Signed(w, x) == -(Pow2(w - 1) as int) && Signed(w, y) == -1)
  {
  }

  lemma {:induction false} DivisionMeans(w: nat, x: nat, y: nat)
    requires Signed(w, y) != 0
    ensures var a, b := Signed(w, x), Signed(w, y);
            && BvSem(SDiv, w, x, y) == TruncDiv(a, b) % Pow2(w)
            && BvSem(SRem, w, x, y) == (a - b * TruncDiv(a, b)) % Pow2(w)
  {
    hide Pow2, ShiftSem, And, Or, Xor, Signed, TruncDiv;
  }

  lemma {:induction false} TimesSigned(a: int, b: int)
    ensures a * b == b * a
  {
  }

  function Absolute(v: int): nat { if v < 0 then -v else v }

  lemma {:induction false} Truncated(a: int, b: int)
    requires b != 0
    ensures var q := TruncDiv(a, b); var r := a - b * q;
            && Absolute(r) < Absolute(b) && (r == 0 || (r < 0 <==> a < 0))
            && Absolute(q) == Absolute(a) / Absolute(b) && (q == 0 || (q < 0 <==> (a < 0) != (b < 0)))
  {
    var m: int, n: int := Absolute(a), Absolute(b);
    var k: int, q := m / n, TruncDiv(a, b);
    assert q == if (a < 0) == (b < 0) then k else -k;
    hide TruncDiv;
    assert m == k * n + m % n && 0 <= m % n < n;
    assert b * q == if a < 0 then -(k * n) else k * n by {
      hide Absolute;
      SignedProduct(n, k);
    }
    assert k == Quot(m, n);
  }

  lemma {:induction false} SignedProduct(n: int, k: int)
    ensures n * k == k * n && n * -k == -(k * n) && -n * k == -(k * n) && -n * -k == k * n
  {
  }

  lemma {:induction false} QuotientFits(w: nat, a: int, b: int)
    requires w > 0 && b != 0 && !(a == -(Pow2(w - 1) as int) && b == -1)
    requires -(Pow2(w - 1) as int) <= a < Pow2(w - 1) && -(Pow2(w - 1) as int) <= b < Pow2(w - 1)
    ensures -(Pow2(w - 1) as int) <= TruncDiv(a, b) < Pow2(w - 1)
    ensures -(Pow2(w - 1) as int) <= a - b * TruncDiv(a, b) < Pow2(w - 1)
  {
    Truncated(a, b);
    hide TruncDiv, Pow2;
    var m, n, k := Absolute(a), Absolute(b), Absolute(a) / Absolute(b);
    assert m == k * n + m % n;
    Times(k, n);
    if n > 1 {
      MulMono(2, n, k);
    } else {
      assert m % 1 == 0;
    }
  }

  /* ---------- bits ---------- */

  lemma {:induction false} BitOfMod(v: nat, w: nat, k: nat)
    requires k < w
    ensures HasBit(v % Pow2(w), k) <==> HasBit(v, k)
  {
    hide Pow2, HasBit;
    HalfOfMod(v, w);
    if k == 0 {
      FirstBit(v);
      FirstBit(v % Pow2(w));
    } else {
      NextBit(v, k);
      NextBit(v % Pow2(w), k);
      BitOfMod(v / 2, w - 1, k - 1);
    }
  }

  lemma {:induction false} HalfOfMod(v: nat, w: nat)
    requires w > 0
    ensures v % Pow2(w) % 2 == v % 2 && v % Pow2(w) / 2 == v / 2 % Pow2(w - 1)
  {
    hide Pow2;
    HalfMod(v, w - 1);
    Doubled(v % Pow2(w), v / 2 % Pow2(w - 1), v % 2);
  }

  lemma {:induction false} Doubled(m: nat, h: nat, b: nat)
    requires m == 2 * h + b && b < 2
    ensures m / 2 == h && m % 2 == b
  {
  }

  lemma {:induction false} BitOfProduct(x: nat, y: nat, k: nat)
    ensures HasBit(x * Pow2(y), k) <==> k >= y && HasBit(x, k - y)
  {
    if y == 0 {
      assert x * Pow2(0) == x;
    } else {
      Pow2Half(y);
      DoubleProduct(x, Pow2(y - 1));
      var v := x * Pow2(y);
      assert v == 2 * (x * Pow2(y - 1));
      hide Pow2, HasBit;
      if k == 0 { FirstBit(v); } else {
        NextBit(v, k);
        BitOfProduct(x, y - 1, k - 1);
      }
    }
  }

  lemma {:induction false} BitOfQuotient(x: nat, y: nat, k: nat)
    ensures HasBit(Quot(x, Pow2(y)), k) <==> HasBit(x, k + y)
  {
    if y == 0 {
      assert Pow2(0) == 1 && Quot(x, 1) == x;
    } else {
      Pow2Half(y);
      HalvesRem(x, Pow2(y - 1));
      hide Pow2, HasBit, Quot;
      NextBit(x, k + y);
      BitOfQuotient(x / 2, y - 1, k);
    }
  }

  /** Shifting left moves bits up and fills with zeros. */
  lemma {:induction false} LeftShiftBits(w: nat, x: nat, y: nat, k: nat)
    requires k < w
    ensures HasBit(BvSem(Shl, w, x, y), k) <==> k >= y && HasBit(x, k - y)
  {
    hide Pow2, DivSem, And, Or, Xor, HasBit;
    if y >= w {
      BitOfMod(0, w, k);
      NoBits(k);
    } else {
      BitOfMod(x * Pow2(y), w, k);
      BitOfProduct(x, y, k);
    }
  }

  /** Shifting right moves bits down and fills with zeros. */
  lemma {:induction false} RightShiftBits(w: nat, x: nat, y: nat, k: nat)
    requires k < w && x < Pow2(w)
    ensures HasBit(BvSem(LShr, w, x, y), k) <==> HasBit(x, k + y)
  {
    hide Pow2, DivSem, And, Or, Xor, HasBit;
    if y >= w {
      BitOfMod(0, w, k);
      NoBits(k);
      BitsBelow(x, w, k + y);
    } else {
      BitOfMod(Quot(x, Pow2(y)), w, k);
      BitOfQuotient(x, y, k);
    }
  }

  /** The arithmetic shift fills with the sign bit. */
  lemma {:induction false} ArithmeticShiftBits(w: nat, x: nat, y: nat, k: nat)
    requires k < w && x < Pow2(w)
    ensures HasBit(BvSem(AShr, w, x, y), k) <==> HasBit(x, if k + y < w then k + y else w - 1)
  {
    hide Pow2, DivSem, And, Or, Xor, HasBit, Signed;
    SignedIs(w, x);
    if Signed(w, x) >= 0 {
      if y < w {
        BitOfMod(Quot(x, Pow2(y)), w, k);
        BitOfQuotient(x, y, k);
      } else {
        BitOfMod(0, w, k);
        NoBits(k);
      }
      if k + y >= w { BitsBelow(x, w, k + y); }
    } else if y < w {
      FilledShift(w, x, y, k);
    } else {
      NegativeMod(-1, Pow2(w));
      OnesBits(w, k);
    }
  }

  lemma {:induction false} OnesBits(w: nat, k: nat)
    ensures HasBit(Pow2(w) - 1, k) <==> k < w
  {
    if k >= w {
      BitsBelow(Pow2(w) - 1, w, k);
    } else {
      Pow2Half(w);
      var v := Pow2(w) - 1;
      assert v == 2 * (Pow2(w - 1) - 1) + 1;
      hide Pow2, HasBit;
      if k == 0 { FirstBit(v); } else {
        NextBit(v, k);
        OnesBits(w - 1, k - 1);
      }
    }
  }

  lemma {:induction false} BitOfSum(x: nat, m: nat, w: nat, k: nat)
    requires x < Pow2(w)
    ensures HasBit(x + m * Pow2(w), k) <==> if k < w then HasBit(x, k) else HasBit(m, k - w)
  {
    var v := x + m * Pow2(w);
    if k < w {
      BitOfMod(v, w, k);
      DivModUnique(v, Pow2(w), m, x);
    } else {
      DivModUnique(v, Pow2(w), m, x);
      BitOfQuotient(v, w, k - w);
    }
  }

  lemma {:induction false} FilledShift(w: nat, x: nat, y: nat, k: nat)
    requires k < w && x < Pow2(w) && Signed(w, x) < 0 && y < w
    ensures HasBit(Signed(w, x) / Pow2(y) % Pow2(w), k) <==> HasBit(x, if k + y < w then k + y else w - 1)
  {
    hide Pow2, HasBit, Signed, Quot;
    SignedIs(w, x);
    var ones := Pow2(y) - 1;
    var v := x + ones * Pow2(w);
    // the negative number has the bits of v, which is larger by a multiple of 2^(w + y)
    SameShift(w, x, y, v);
    BitOfMod(Quot(v, Pow2(y)), w, k);
    BitOfQuotient(v, y, k);
    BitOfSum(x, ones, w, k + y);
    OnesBits(y, if k + y < w then 0 else k + y - w);
  }

  lemma {:induction false} SameShift(w: nat, x: nat, y: nat, v: nat)
    requires Signed(w, x) == x - Pow2(w) && v == x + (Pow2(y) - 1) * Pow2(w)
    ensures Signed(w, x) / Pow2(y) % Pow2(w) == Quot(v, Pow2(y)) % Pow2(w)
  {
    hide Pow2, Signed;
    var d, p := Pow2(w), Pow2(y);
    Spread(p, d);
    FloorShift(Signed(w, x), d, p);
    ModShift(Signed(w, x) / p, 1, d);
  }

  lemma {:induction false} Spread(p: nat, d: nat)
    requires p > 0
    ensures (p - 1) * d == p * d - d
  {
  }

  lemma {:induction false} FloorShift(v: int, d: nat, p: nat)
    requires p > 0 && v + p * d >= 0
    ensures (v + p * d) / p == v / p + d
  {
    var q, r := v / p, v % p;
    assert v == q * p + r;
    assert v + p * d == (q + d) * p + r;
    assert q + d >= 0 by { if q + d < 0 { MulAtLeast(-(q + d), p); } }
    DivModUnique(v + p * d, p, q + d, r);
  }

  /** The bitwise operators work on each bit. */
  lemma {:induction false} BitwiseBits(w: nat, x: nat, y: nat, k: nat)
    requires k < w
    ensures HasBit(BvSem(BAnd, w, x, y), k) <==> HasBit(x, k) && HasBit(y, k)
    ensures HasBit(BvSem(BOr, w, x, y), k) <==> HasBit(x, k) || HasBit(y, k)
    ensures HasBit(BvSem(BXor, w, x, y), k) <==> HasBit(x, k) != HasBit(y, k)
  {
    hide Pow2, DivSem, ShiftSem, And, Or, Xor, HasBit;
    BitOfMod(And(x, y), w, k);
    BitOfMod(Or(x, y), w, k);
    BitOfMod(Xor(x, y), w, k);
    AndHasBit(x, y, k);
    OrHasBit(x, y, k);
    XorHasBit(x, y, k);
  }
}
