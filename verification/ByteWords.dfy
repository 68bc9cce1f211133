/** Words made of bytes, in both byte orders: the shifts and masks of `readmem` in
    kernel/src/generic/linear_ptab_walker.cc.
 */
module ByteWords {
  import opened Words

  type Byte = b: nat | b < 256

  /** The first byte is the least significant. */
  function Little(s: seq<Byte>): nat { if s == [] then 0 else s[0] + 256 * Little(s[1..]) }

  /** The first byte is the most significant. */
  function Big(s: seq<Byte>): nat { if s == [] then 0 else 256 * Big(s[..|s| - 1]) + s[|s| - 1] }

  function WordOf(big: bool, s: seq<Byte>): nat { if big then Big(s) else Little(s) }

  lemma {:induction false} Pow2Byte(n: nat)
    ensures Pow2(8 * (n + 1)) == 256 * Pow2(8 * n)
  {
    Pow2Values();
    Pow2Add(8, 8 * n);
  }

  lemma {:induction false} LittleBound(s: seq<Byte>)
    ensures Little(s) < Pow2(8 * |s|)
  {
    if s != [] {
      LittleBound(s[1..]);
      Pow2Byte(|s| - 1);
    }
  }

  lemma {:induction false} BigBound(s: seq<Byte>)
    ensures Big(s) < Pow2(8 * |s|)
  {
    if s != [] {
      BigBound(s[..|s| - 1]);
      Pow2Byte(|s| - 1);
    }
  }

  lemma {:induction false} LittleSplit(s: seq<Byte>, t: seq<Byte>)
    ensures Little(s + t) == Little(s) + Pow2(8 * |s|) * Little(t)
  {
    if s == [] {
      assert s + t == t;
    } else {
      assert (s + t)[1..] == s[1..] + t;
      LittleSplit(s[1..], t);
      Pow2Byte(|s| - 1);
      Regroup(Pow2(8 * (|s| - 1)), Little(t));
    }
  }

  lemma {:induction false} Regroup(p: nat, x: nat)
    ensures 256 * (p * x) == 256 * p * x
  {
  }

  lemma {:induction false} BigSplit(s: seq<Byte>, t: seq<Byte>)
    ensures Big(s + t) == Big(s) * Pow2(8 * |t|) + Big(t)
  {
    if t == [] {
      assert s + t == s && Pow2(0) == 1;
    } else {
      hide Pow2;
      var u := s + t;
      var p, x := Pow2(8 * (|t| - 1)), Big(s);
      assert u[..|u| - 1] == s + t[..|t| - 1] && u[|u| - 1] == t[|t| - 1];
      BigSplit(s, t[..|t| - 1]);
      Pow2Byte(|t| - 1);
      Rescale(x, p, Big(t[..|t| - 1]));
    }
  }

  lemma {:induction false} Rescale(x: nat, p: nat, y: nat)
    ensures 256 * (x * p + y) == x * (256 * p) + 256 * y
  {
  }

  /** Byte `i` of a little-endian word is its digit `i`. */
  lemma {:induction false} LittleByte(s: seq<Byte>, i: nat)
    requires i < |s|
    ensures Little(s) / Pow2(8 * i) % 256 == s[i]
  {
    assert s == s[..i] + s[i..] && s[i..][1..] == s[i + 1..];
    LittleSplit(s[..i], s[i..]);
    LittleBound(s[..i]);
    var low, p, high, rest := Little(s[..i]), Pow2(8 * i), Little(s[i..]), Little(s[i + 1..]);
    assert high == s[i] + 256 * rest;
    hide Pow2, Little;
    Commute(high, p);
    DigitIs(high * p + low, low, p, high, rest, s[i]);
  }

  lemma {:induction false} DigitIs(x: nat, low: nat, p: nat, high: nat, rest: nat, b: Byte)
    requires p > 0 && low < p && x == high * p + low && high == 256 * rest + b
    ensures x / p % 256 == b
  {
    DivModUnique(x, p, high, low);
    DivModUnique(high, 256, rest, b);
  }

  /** Byte `i` of a big-endian word is its digit `i` from the other end. */
  lemma {:induction false} BigByte(s: seq<Byte>, i: nat)
    requires i < |s|
    ensures Big(s) / Pow2(8 * (|s| - 1 - i)) % 256 == s[i]
  {
    assert s == s[..i + 1] + s[i + 1..] && s[..i + 1][..i] == s[..i];
    BigSplit(s[..i + 1], s[i + 1..]);
    BigBound(s[i + 1..]);
    var low, p, high, rest := Big(s[i + 1..]), Pow2(8 * (|s| - 1 - i)), Big(s[..i + 1]), Big(s[..i]);
    assert high == 256 * rest + s[i];
    hide Pow2, Big;
    DigitIs(high * p + low, low, p, high, rest, s[i]);
  }

  /** The same for words of eight bytes. */
  lemma {:induction false} WordByte(big: bool, s: seq<Byte>, i: nat)
    requires |s| == 8 && i < 8
    ensures WordOf(big, s) / Pow2(8 * if big then 7 - i else i) % 256 == s[i] && WordOf(big, s) < W64
  {
    hide Pow2, Little, Big;
    Pow2Values();
    if big {
      BigByte(s, i);
      BigBound(s);
    } else {
      LittleByte(s, i);
      LittleBound(s);
    }
  }

  /** Or-ing the upper bytes of one word with the lower bytes of the next joins them. */
  lemma {:induction false} JoinLittle(a: seq<Byte>, b: seq<Byte>, c: seq<Byte>, d: seq<Byte>)
    requires |a + b| == 8 && |c + d| == 8 && |a| == |c|
    ensures Or(Shr(Little(a + b), 8 * |a|), Shl(Little(c + d), 8 * (8 - |a|))) == Little(b + c)
  {
    hide Little, Or, Shr, Shl, Pow2;
    var k := 8 * |a|;
    LittleSplit(a, b);
    LittleSplit(c, d);
    LittleSplit(b, c);
    LittleBound(a);
    LittleBound(b);
    LittleBound(c);
    assert 8 * |b| == 64 - k;
    UpperPart(Little(a), Little(b), k);
    LowerPart(Little(c), Little(d), k);
    Joined(Little(b), Little(c), 64 - k);
  }

  /** Or-ing the lower bytes of one word with the upper bytes of the next joins them. */
  lemma {:induction false} JoinBig(a: seq<Byte>, b: seq<Byte>, c: seq<Byte>, d: seq<Byte>)
    requires |a + b| == 8 && |c + d| == 8 && |a| == |c|
    ensures Or(Shl(Big(a + b), 8 * |a|), Shr(Big(c + d), 8 * (8 - |a|))) == Big(b + c)
  {
    hide Big, Or, Shr, Shl, Pow2;
    var k := 8 * |a|;
    BigSplit(a, b);
    BigSplit(c, d);
    BigSplit(b, c);
    BigBound(b);
    BigBound(c);
    BigBound(d);
    assert 8 * |b| == 64 - k && 8 * |d| == 64 - k;
    UpperPart(Big(d), Big(c), 64 - k);
    Commute(Big(c), Pow2(64 - k));
    LowerPart(Big(b), Big(a), 64 - k);
    Commute(Big(a), Pow2(64 - k));
    Joined(Big(c), Big(b), k);
    OrComm(Shl(Big(a + b), k), Shr(Big(c + d), 64 - k));
    Commute(Big(b), Pow2(k));
  }

  lemma {:induction false} Commute(x: nat, y: nat)
    ensures x * y == y * x
  {
  }

  /** Shifting right drops the low part. */
  lemma {:induction false} UpperPart(low: nat, high: nat, k: nat)
    requires low < Pow2(k)
    ensures Shr(low + Pow2(k) * high, k) == high
  {
    hide Pow2, Shr;
    ShrIsDiv(low + Pow2(k) * high, k);
    Commute(high, Pow2(k));
    DivModUnique(low + Pow2(k) * high, Pow2(k), high, low);
  }

  /** Shifting left by the rest of the word drops the high part. */
  lemma {:induction false} LowerPart(low: nat, high: nat, k: nat)
    requires k <= 64 && low < Pow2(k)
    ensures Shl(low + Pow2(k) * high, 64 - k) == low * Pow2(64 - k) < W64
  {
    hide Pow2;
    var p, q := Pow2(k), Pow2(64 - k);
    Pow2Values();
    Pow2Add(k, 64 - k);
    Spread(low, p, high, q);
    BelowProduct(low, p, q);
    DivModUnique((low + p * high) * q, W64, high, low * q);
  }

  lemma {:induction false} Spread(low: nat, p: nat, high: nat, q: nat)
    ensures (low + p * high) * q == high * (p * q) + low * q
  {
    assert (low + p * high) * q == low * q + p * high * q;
    assert p * high * q == high * (p * q);
  }

  lemma {:induction false} BelowProduct(x: nat, p: nat, q: nat)
    requires x < p && q > 0
    ensures x * q < p * q
  {
    MulAtLeast(p - x, q);
    assert p * q == x * q + (p - x) * q;
  }

  lemma {:induction false} Joined(low: nat, high: nat, k: nat)
    requires low < Pow2(k)
    ensures Or(low, high * Pow2(k)) == low + Pow2(k) * high
  {
    hide Pow2, Or;
    MulMod(high, Pow2(k));
    OrDisjoint(low, high * Pow2(k), k);
    Commute(high, Pow2(k));
  }
}
