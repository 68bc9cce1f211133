/** Where the evaluator does something else than the language: an index narrower than 64 bits, whose
    unsigned value `canonical_path` in libirpy/datatypes.py takes; an addition that promises no signed
    overflow, for which libirpy/z3eval.py asks about positive sums only; and the signed division whose
    result does not fit, which libirpy/z3eval.py does not look for.

    Here is exactly when that makes a difference to one operation, and that it makes none to a run in
    which no such operation occurs.
 */
module Oversights {
  import opened Options
  import opened Words
  import opened Terms
  import opened References
  import opened Programs

  /* ---------- one gep ---------- */

  /** How far sign extension is from the unsigned value. */
  function Error(v: Value): int { if NarrowNegative(v) then W64 - Pow2(v.width) else 0 }

  lemma {:induction false} PowBelow(w: nat)
    requires 0 < w < 64
    ensures 2 <= Pow2(w) && 2 * Pow2(w) <= W64 && (w < 63 ==> 4 * Pow2(w) <= W64) && (w == 63 ==> 2 * Pow2(w) == W64)
  {
    hide Pow2;
    Pow2Values();
    Pow2Mono(w, 64);
    Pow2Mono(1, w);
    Pow2One();
    Pow2Add(63, 1);
    if w < 63 {
      Pow2Mono(w, 63);
      Pow2Mono(63, 64);
    }
  }

  lemma {:induction false} Pow2One()
    ensures Pow2(1) == 2
  {
  }

  lemma {:induction false} ModNegative(a: int)
    requires 0 <= a + W64 < W64
    ensures a % W64 == a + W64
  {
  }

  lemma {:induction false} WidenError(v: Value)
    requires WellSized(v)
    ensures Num(SignWiden(v)) == Num(WidenValue(v)) + Error(v)
  {
    hide Pow2, SignExtend;
    if v.width < 64 {
      PowBelow(v.width);
      SignedError(v.width, v.n);
      ModSmall(v.n);
    }
  }

  lemma {:induction false} SignedError(w: nat, n: nat)
    requires 0 < w < 64 && n < Pow2(w)
    ensures SignExtend(w, n, 64) == n + if n >= Pow2(w - 1) then W64 - Pow2(w) else 0
  {
    hide Pow2;
    Pow2Values();
    PowBelow(w);
    if n >= Pow2(w - 1) { ModNegative(n - Pow2(w)); } else { ModSmall(n); }
  }

  lemma {:induction false} ModSmall(n: nat)
    requires n < W64
    ensures n % W64 == n
  {
  }

  lemma {:induction false} ErrorsCancel(v: Value, w: Value, x: nat)
    ensures (x + Error(v) + Error(w)) % W64 == x % W64 <==> !Misread(v, w)
  {
    var e := Error(v) + Error(w);
    if NarrowNegative(v) { PowBelow(v.width); }
    if NarrowNegative(w) { PowBelow(w.width); }
    assert e == 0 || 0 < e < W64 || e == W64 || W64 < e < 2 * W64;
    ModShift(x, e);
  }

  lemma {:induction false} ModShift(x: nat, e: nat)
    requires e < 2 * W64
    ensures (x + e) % W64 == x % W64 <==> e == 0 || e == W64
  {
    var q, r := x / W64, x % W64;
    if e < W64 {
      if r + e < W64 { DivModUnique(x + e, W64, q, r + e); } else { DivModUnique(x + e, W64, q + 1, r + e - W64); }
    } else {
      if r + e < 2 * W64 { DivModUnique(x + e, W64, q + 1, r + e - W64); }
      else { DivModUnique(x + e, W64, q + 2, r + e - 2 * W64); }
    }
  }

  /** A gep moves the address as the language says exactly unless an index it adds is misread. */
  lemma {:induction false} GepExact(p: CVal, idx: seq<CVal>)
    requires CGetElement(ByEvaluator, p, idx).Good?
    ensures p.CAddr? && p.a.path != [] && idx != [] && idx[0].CNum?
    ensures CGetElement(ByEvaluator, p, idx) == CGetElement(ByLanguage, p, idx)
       <==> !Misread(p.a.path[|p.a.path| - 1], VBv(idx[0].width, idx[0].n))
  {
    hide SignWiden, WidenValue, Misread, NarrowNegative;
    var path := p.a.path;
    var n := |path| - 1;
    var vs := seq(|idx|, i requires 0 <= i < |idx| => assert idx[i].CNum?; VBv(idx[i].width, idx[i].n));
    var v, w := path[n], vs[0];
    WidenError(v);
    WidenError(w);
    ErrorsCancel(v, w, Num(WidenValue(v)) + Num(WidenValue(w)));
    assert Step(path, vs)[n] == VBv(64, (Num(WidenValue(v)) + Num(WidenValue(w))) % W64);
    assert SignStep(path, vs)[n] == VBv(64, (Num(SignWiden(v)) + Num(SignWiden(w))) % W64);
  }

  lemma {:induction false} Pow232()
    ensures Pow2(32) == 0x1_0000_0000
  {
    Pow2Values();
    Pow2Add(16, 16);
    Pow2Add(8, 8);
  }

  /** A gep with one index, on a path of one index. */
  lemma {:induction false} GepValue(path: seq<Value>, w: Value)
    requires |path| == 1
    ensures Step(path, [w]) == [VBv(64, (Num(WidenValue(path[0])) + Num(WidenValue(w))) % W64)]
    ensures SignStep(path, [w]) == [VBv(64, (Num(SignWiden(path[0])) + Num(SignWiden(w))) % W64)]
  {
  }

  lemma {:induction false} OneIndex(rules: Rules, ref: Reference, v: Value, w: nat, n: nat)
    requires WellSized(v) && WellSized(VBv(w, n)) && !rules.Guarded?
    ensures var path := if rules.ByEvaluator? then Step([v], [VBv(w, n)]) else SignStep([v], [VBv(w, n)]);
            CGetElement(rules, CAddr(Address(ref, [v])), [CNum(w, n)]) == Good(CAddr(Address(ref, path)))
  {
    hide Step, SignStep;
    var idx := [CNum(w, n)];
    assert seq(|idx|, i requires 0 <= i < |idx| => assert idx[i].CNum?; VBv(idx[i].width, idx[i].n)) == [VBv(w, n)];
  }

  const BACK: Value := VBv(64, W64 - 0xFFFF_FFFF)
  const ONE: Value := VBv(32, 0xFFFF_FFFF)

  lemma {:induction false} BackSteps()
    ensures WellSized(BACK) && WellSized(ONE) && WellSized(ORIGIN_VALUE)
    ensures Step([ORIGIN_VALUE], [BACK]) == SignStep([ORIGIN_VALUE], [BACK]) == [BACK]
    ensures Step([BACK], [ONE]) == [VBv(64, 0)] && SignStep([BACK], [ONE]) == [VBv(64, W64 - 0x1_0000_0000)]
  {
    hide Pow2, Step, SignStep;
    Pow2Values();
    Pow2Add(31, 1);
    Pow2One();
    Pow232();
    GepValue([ORIGIN_VALUE], BACK);
    GepValue([BACK], ONE);
    ModNegative(-1);
    assert Num(SignWiden(ONE)) == W64 - 1 && Num(WidenValue(ONE)) == 0xFFFF_FFFF;
  }

  /** An input that the evaluator gets wrong: going back 2^32 - 1 objects by a 64-bit index and one
      more by a 32-bit one is, to the evaluator, no movement at all.  It finds the object; by the
      language the access is out of bounds. */
  lemma {:induction false} NarrowIndexWrong(name: string)
    ensures var p := CAddr(Address(Reference(name, TPointer(TInt(8))), [ORIGIN_VALUE]));
            var back, one := CNum(64, W64 - 0xFFFF_FFFF), CNum(32, 0xFFFF_FFFF);
            var q := CGetElement(ByEvaluator, p, [back]);
            && q.Good? && q == CGetElement(ByLanguage, p, [back])
            && var r, s := CGetElement(ByEvaluator, q.value, [one]), CGetElement(ByLanguage, q.value, [one]);
            && r.Good? && s.Good?
            && DecodeAddress(r.value.a).Found? && DecodeAddress(s.value.a).Faulty?
  {
    hide Step, SignStep, CGetElement, WellSized;
    BackSteps();
    var ref := Reference(name, TPointer(TInt(8)));
    OneIndex(ByEvaluator, ref, ORIGIN_VALUE, 64, W64 - 0xFFFF_FFFF);
    OneIndex(ByLanguage, ref, ORIGIN_VALUE, 64, W64 - 0xFFFF_FFFF);
    OneIndex(ByEvaluator, ref, BACK, 32, 0xFFFF_FFFF);
    OneIndex(ByLanguage, ref, BACK, 32, 0xFFFF_FFFF);
    assert DecodeAddress(Address(ref, [VBv(64, 0)])).Found?;
    assert DecodeAddress(Address(ref, [VBv(64, W64 - 0x1_0000_0000)])).Faulty?;
  }

  /* ---------- one sum, one quotient ---------- */

  /** Two negative numbers whose sum is out of range. */
  predicate NegativeSumWraps(w: nat, x: nat, y: nat) {
    w > 0 && Signed(w, x) < 0 && Signed(w, y) < 0 && Signed(w, x) + Signed(w, y) < -(Pow2(w - 1) as int)
  }

  /** What the evaluator asks the solver for `nsw` leaves out exactly those. */
  lemma {:induction false} SumExact(w: nat, x: nat, y: nat)
    requires x < Pow2(w) && y < Pow2(w)
    ensures SignedSumFits(w, x, y) <==> PredSem(AddNoOverflowS, w, x, y) && !NegativeSumWraps(w, x, y)
  {
    if w > 0 {
      Pow2Half(w);
      hide Pow2;
      SumBelow(x + y, Pow2(w));
    }
  }

  lemma {:induction false} SumBelow(s: nat, d: nat)
    requires s < 2 * d
    ensures s % d == if s < d then s else s - d
  {
    if s < d { DivModUnique(s, d, 0, s); } else { DivModUnique(s, d, 1, s - d); }
  }

  /** A result the evaluator computes although the language has none. */
  predicate Undefined(op: BvOp, w: nat, x: nat, y: nat, nsw: bool) {
    || (op.Add? && nsw && NegativeSumWraps(w, x, y))
    || ((op.SDiv? || op.SRem?) && QuotientOverflows(w, x, y))
  }

  /** A binary operator that the evaluator carries out is one that the language defines, with the same
      result, exactly unless it is a negative sum out of range that promised `nsw`, or a signed
      division of the smallest number by minus one. */
  lemma {:induction false} BinaryExact(op: BvOp, x: CVal, y: CVal, nuw: bool, nsw: bool, exact: bool)
    requires CBinary(ByEvaluator, op, x, y, nuw, nsw, exact).Good?
    ensures x.CNum? && y.CNum? && x.width == y.width
    ensures var r := CBinary(ByLanguage, op, x, y, nuw, nsw, exact);
            r == if Undefined(op, x.width, x.n, y.n, nsw) then Bad(Fault)
                 else CBinary(ByEvaluator, op, x, y, nuw, nsw, exact)
  {
    hide PredSem, SignedSumFits, NegativeSumWraps, QuotientOverflows, BvSem, Pow2;
    SumExact(x.width, x.n, y.n);
  }

  /** -128 plus -1 in eight bits, which the evaluator's check for `nsw` lets pass. */
  lemma {:induction false} NegativeSumWrong(m: Model)
    ensures Holds(CmpTerm(AddNoOverflowS, BvVal(128, 8), BvVal(255, 8)), m)
    ensures CBinary(ByEvaluator, Add, CNum(8, 128), CNum(8, 255), false, true, false) == Good(CNum(8, 127))
    ensures CBinary(ByLanguage, Add, CNum(8, 128), CNum(8, 255), false, true, false) == Bad(Fault)
  {
    ByteValues();
    hide Pow2, BvSem, OpSem;
    CmpNode(AddNoOverflowS, BvVal(128, 8), BvVal(255, 8), m);
    AddMeaning(8, 128, 255);
  }

  /** -128 divided by -1 in eight bits, whose divisor is not zero. */
  lemma {:induction false} QuotientWrong()
    ensures CBinary(ByEvaluator, SDiv, CNum(8, 128), CNum(8, 255), false, false, false) == Good(CNum(8, 128))
    ensures CBinary(ByEvaluator, SRem, CNum(8, 128), CNum(8, 255), false, false, false) == Good(CNum(8, 0))
    ensures CBinary(ByLanguage, SDiv, CNum(8, 128), CNum(8, 255), false, false, false) == Bad(Fault)
    ensures CBinary(ByLanguage, SRem, CNum(8, 128), CNum(8, 255), false, false, false) == Bad(Fault)
  {
    ByteValues();
    hide Pow2;
    assert TruncDiv(-128, -1) == 128;
  }

  lemma {:induction false} ByteValues()
    ensures Pow2(8) == 256 && Pow2(7) == 128 && Signed(8, 128) == -128 && Signed(8, 255) == -1
  {
    Pow2Values();
    Pow2Half(8);
  }

  /* ---------- whole runs ---------- */

  function Guard(mc: Machine): Machine { mc.(rules := Guarded) }

  /** The reasons for which only a guarded machine stops. */
  predicate Overlooked(why: Stop) { why == NarrowIndex || why == NegativeWrap || why == DivisionOverflow }

  predicate Halts(c: CRes) { c.CStop? && Overlooked(c.why) }

  predicate HaltsAt<T>(r: Outcome<T>) { r.Bad? && Overlooked(r.why) }

  lemma {:induction false} GepAlike(rules: Rules, p: CVal, idx: seq<CVal>)
    ensures HaltsAt(CGetElement(Guarded, p, idx)) || CGetElement(rules, p, idx) == CGetElement(Guarded, p, idx)
  {
    hide Step, SignStep, Misread;
    if CGetElement(ByEvaluator, p, idx).Good? {
      GepExact(p, idx);
    }
  }

  lemma {:induction false} BinaryAlike(rules: Rules, op: BvOp, x: CVal, y: CVal, nuw: bool, nsw: bool, exact: bool)
    ensures HaltsAt(CBinary(Guarded, op, x, y, nuw, nsw, exact))
         || CBinary(rules, op, x, y, nuw, nsw, exact) == CBinary(Guarded, op, x, y, nuw, nsw, exact)
  {
    hide PredSem, SignedSumFits, NegativeSumWraps, QuotientOverflows, BvSem, Pow2;
    if x.CNum? && y.CNum? && x.width == y.width && x.n < Pow2(x.width) && y.n < Pow2(x.width) {
      SumExact(x.width, x.n, y.n);
    }
  }

  lemma {:induction false} RhsAlike(mc: Machine, cs: CState, pred: Option<string>, pos: Position, rhs: Rhs)
    requires !rhs.Call?
    ensures HaltsAt(CRhs(Guard(mc), cs, pred, pos, rhs))
         || CRhs(mc, cs, pred, pos, rhs) == CRhs(Guard(mc), cs, pred, pos, rhs)
  {
    hide CGetElement, CBinary;
    match rhs
    case GetElement(p, idx) =>
      var a, vs := COperand(cs, p), COperands(cs, idx);
      if a.Good? && vs.Good? { GepAlike(mc.rules, a.value, vs.value); }
    case Binary(op, a, b, nuw, nsw, exact) =>
      var x, y := COperand(cs, a), COperand(cs, b);
      if x.Good? && y.Good? { BinaryAlike(mc.rules, op, x.value, y.value, nuw, nsw, exact); }
    case _ =>
  }

  /** A guarded run that is not stopped is the run under any rules. */
  lemma {:induction false} BlockAlike(P: Program, mc: Machine, fn: Function, here: string, pred: Option<string>,
                                      pos: Position, cs: CState, fuel: nat)
    ensures Halts(CBlock(P, Guard(mc), fn, here, pred, pos, cs, fuel))
         || CBlock(P, mc, fn, here, pred, pos, cs, fuel) == CBlock(P, Guard(mc), fn, here, pred, pos, cs, fuel)
    decreases fuel, 4, 0
  {
    if fuel > 0 && here in fn.blocks {
      InstrsAlike(P, mc, fn, here, pred, pos, 0, fn.blocks[here], cs, fuel);
    }
  }

  lemma {:induction false} InstrsAlike(P: Program, mc: Machine, fn: Function, here: string, pred: Option<string>,
                                       pos: Position, k: nat, block: Block, cs: CState, fuel: nat)
    requires fuel > 0 && k <= |block.instrs|
    ensures Halts(CInstrs(P, Guard(mc), fn, here, pred, pos, k, block, cs, fuel))
         || CInstrs(P, mc, fn, here, pred, pos, k, block, cs, fuel)
            == CInstrs(P, Guard(mc), fn, here, pred, pos, k, block, cs, fuel)
    decreases fuel, 3, |block.instrs| - k
  {
    if k == |block.instrs| {
      TerminatorAlike(P, mc, fn, here, pos + [k], block.term, cs, fuel);
    } else {
      InstrAlike(P, mc, pred, pos + [k], block.instrs[k], cs, fuel);
      var c := CInstr(P, mc, pred, pos + [k], block.instrs[k], cs, fuel);
      if c.CDone? { InstrsAlike(P, mc, fn, here, pred, pos, k + 1, block, c.st, fuel); }
    }
  }

  lemma {:induction false} InstrAlike(P: Program, mc: Machine, pred: Option<string>, pos: Position, i: Instr,
                                      cs: CState, fuel: nat)
    requires fuel > 0
    ensures Halts(CInstr(P, Guard(mc), pred, pos, i, cs, fuel))
         || CInstr(P, mc, pred, pos, i, cs, fuel) == CInstr(P, Guard(mc), pred, pos, i, cs, fuel)
    decreases fuel, 2, 0
  {
    hide CRhs;
    match i
    case Assign(dst, rhs) =>
      if rhs.Call? { CallAlike(P, mc, pos, rhs.fn, rhs.args, cs, fuel); } else { RhsAlike(mc, cs, pred, pos, rhs); }
    case CallVoid(f, args) => CallAlike(P, mc, pos, f, args, cs, fuel);
    case Store(x, p) =>
  }

  lemma {:induction false} CallAlike(P: Program, mc: Machine, pos: Position, f: string, args: seq<Operand>, cs: CState,
                                     fuel: nat)
    requires fuel > 0
    ensures Halts(CCall(P, Guard(mc), pos, f, args, cs, fuel))
         || CCall(P, mc, pos, f, args, cs, fuel) == CCall(P, Guard(mc), pos, f, args, cs, fuel)
    decreases fuel, 1, 0
  {
    var vs := COperands(cs, args);
    if vs.Good? && f in P && |P[f].params| == |vs.value| {
      BlockAlike(P, mc, P[f], P[f].entry, None, pos, cs.(locals := cs.locals + [Bind(P[f].params, vs.value)]),
                 fuel - 1);
    }
  }

  lemma {:induction false} TerminatorAlike(P: Program, mc: Machine, fn: Function, here: string, pos: Position,
                                           t: Terminator, cs: CState, fuel: nat)
    requires fuel > 0
    ensures Halts(CTerminator(P, Guard(mc), fn, here, pos, t, cs, fuel))
         || CTerminator(P, mc, fn, here, pos, t, cs, fuel) == CTerminator(P, Guard(mc), fn, here, pos, t, cs, fuel)
    decreases fuel, 2, 0
  {
    match t
    case Return(v) =>
    case Unreachable =>
    case Jump(l) => BlockAlike(P, mc, fn, l, Some(here), pos, cs, fuel - 1);
    case Branch(c, l1, l2) =>
      var v := COperand(cs, c);
      if v.Good? { BranchAlike(P, mc, fn, here, pos, v.value, Goto(l1), Goto(l2), cs, fuel); }
    case Switch(x, default, cases) =>
      TakeAlike(P, mc, fn, here, pos, Cases(x, default, cases), cs, fuel);
  }

  lemma {:induction false} BranchAlike(P: Program, mc: Machine, fn: Function, here: string, pos: Position, c: CVal,
                                       t1: Target, t2: Target, cs: CState, fuel: nat)
    requires fuel > 0
    ensures Halts(CBranch(P, Guard(mc), fn, here, pos, c, t1, t2, cs, fuel))
         || CBranch(P, mc, fn, here, pos, c, t1, t2, cs, fuel)
           == CBranch(P, Guard(mc), fn, here, pos, c, t1, t2, cs, fuel)
    decreases fuel, 1, Larger(TargetSize(t1), TargetSize(t2)) + 1
  {
    TakeAlike(P, mc, fn, here, pos + [0], t1, cs, fuel);
    TakeAlike(P, mc, fn, here, pos + [1], t2, cs, fuel);
  }

  lemma {:induction false} TakeAlike(P: Program, mc: Machine, fn: Function, here: string, pos: Position, t: Target,
                                     cs: CState, fuel: nat)
    requires fuel > 0
    ensures Halts(CTake(P, Guard(mc), fn, here, pos, t, cs, fuel))
         || CTake(P, mc, fn, here, pos, t, cs, fuel) == CTake(P, Guard(mc), fn, here, pos, t, cs, fuel)
    decreases fuel, 1, TargetSize(t)
  {
    match t
    case Goto(l) => BlockAlike(P, mc, fn, l, Some(here), pos, cs, fuel - 1);
    case Cases(x, default, cases) =>
      if cases == [] {
        BlockAlike(P, mc, fn, default, Some(here), pos, cs, fuel - 1);
      } else {
        var r := (var v :- COperand(cs, x); var w :- COperand(cs, cases[0].0); CCompare(IEq, v, w));
        if r.Good? {
          BranchAlike(P, mc, fn, here, pos, r.value, Goto(cases[0].1), Cases(x, default, cases[1..]), cs, fuel);
        }
      }
  }
}
