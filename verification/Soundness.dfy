/** What the symbolic evaluator's results mean.

    Fix a valuation of the path condition.  Evaluating a symbolic state under it gives a concrete
    state, and the main theorem says that this commutes with running a program: if the evaluator
    finishes, the concrete run from the evaluated state finishes too, in the evaluated final state
    and with the evaluated result.  Pruned sides, merged states and dictionaries with one-sided keys
    do not show.  In particular the concrete run never panics and never faults.
 */
module Soundness {
  import opened Options
  import opened Words
  import opened Terms
  import opened References
  import opened Programs
  import opened SymbolicExec
  import opened Oversights

  /* ---------- evaluating states ---------- */

  /** Booleans and one-bit vectors are the same concrete numbers. */
  function Alpha(v: Value): CVal {
    match v case VBool(b) => CBit(b) case VBv(w, n) => CNum(w, n)
  }

  function Sem(v: SVal, m: Model): CVal {
    match v case STerm(t) => Alpha(Eval(t, m)) case SPtr(p) => CAddr(EvalPointer(p, m))
  }

  /** Every variable of the concrete run is a variable of the symbolic one, with that value. */
  ghost predicate VarsRel(sm: map<string, SVal>, cm: map<string, CVal>, m: Model) {
    forall k :: k in cm ==> k in sm && Sem(sm[k], m) == cm[k]
  }

  ghost predicate MemRel(refs: Refs, m: Model, mem: Cell -> CVal, alive: set<FnId>) {
    forall c: Cell :: c.fn in alive ==> HasCell(refs, c.fn) && Alpha(EvalCell(refs, c, m)) == mem(c)
  }

  ghost predicate FramesRel(sl: seq<map<string, SVal>>, cl: seq<map<string, CVal>>, m: Model) {
    |sl| == |cl| && forall i :: 0 <= i < |sl| ==> VarsRel(sl[i], cl[i], m)
  }

  /** The concrete state is the symbolic state under the valuation. */
  ghost predicate Rel(st: SymState, m: Model, cs: CState) {
    && VarsRel(st.globals, cs.globals, m)
    && FramesRel(st.locals, cs.locals, m)
    && MemRel(st.refs, m, cs.mem, cs.alive)
    && cs.accessed <= st.accessed
  }

  ghost predicate ValRel(v: Option<SVal>, c: Option<CVal>, m: Model) {
    match v case None => c.None? case Some(x) => c == Some(Sem(x, m))
  }

  /** The machine that goes by the evaluator's rules. */
  function Evaluated(m: Model): Machine { Machine(m.cells, ByEvaluator) }

  /** Excuses: the run was not well formed, or made a poison value. */
  predicate Excused(c: CRes) { c == CStop(IllFormed) || c == CStop(Poison) }

  ghost predicate Agrees(r: SRes, c: CRes, m: Model) {
    r.Done? ==> Excused(c) || (c.CDone? && Rel(r.st, m, c.st) && ValRel(r.val, c.val, m))
  }

  ghost predicate AgreesOutcome(r: Option<(SymState, SVal)>, c: Outcome<(CState, CVal)>, m: Model) {
    r.Some? ==>
      match c
      case Bad(why) => why == IllFormed || why == Poison
      case Good((cs, v)) => Rel(r.value.0, m, cs) && Sem(r.value.1, m) == v
  }

  ghost predicate AgreesState(r: Option<SymState>, c: Outcome<CState>, m: Model) {
    r.Some? ==>
      match c
      case Bad(why) => why == IllFormed || why == Poison
      case Good(cs) => Rel(r.value, m, cs)
  }

  ghost predicate AgreesNumber(t: Option<Term>, c: Outcome<CVal>, m: Model) {
    t.Some? ==>
      match c
      case Bad(why) => why == IllFormed || why == Poison
      case Good(v) => Alpha(Eval(t.value, m)) == v
  }

  /* ---------- merging ---------- */

  lemma {:induction false} IfValSound(o: Oracle, cond: Term, a: SVal, b: SVal, m: Model)
    requires Sound(o) && IfVal(o, cond, a, b).Some?
    ensures Sem(IfVal(o, cond, a, b).value, m) == if Holds(cond, m) then Sem(a, m) else Sem(b, m)
  {
    match (a, b)
    case (STerm(x), STerm(y)) => IfMeaning(o, cond, x, y, m);
    case _ =>
      var c := o.simplify(cond);
      assert Eval(c, m) == Eval(cond, m);
      assert Eval(o.simplify(c), m) == Eval(c, m);
  }

  lemma {:induction false} IfFnSound(o: Oracle, cond: Term, a: Fn, b: Fn, idx: seq<Value>, m: Model)
    requires Sound(o) && IfFn(o, cond, a, b).Some?
    ensures EvalFn(IfFn(o, cond, a, b).value, idx, m)
         == if Holds(cond, m) then EvalFn(a, idx, m) else EvalFn(b, idx, m)
  {
    var c := o.simplify(cond);
    assert Eval(c, m) == Eval(cond, m);
    assert Eval(o.simplify(c), m) == Eval(c, m);
  }

  lemma {:induction false} MergeValsSound(o: Oracle, cond: Term, m1: map<string, SVal>, m2: map<string, SVal>, m: Model,
                                          cm: map<string, CVal>)
    requires Sound(o) && MergeVals(o, cond, m1, m2).Some?
    requires VarsRel(if Holds(cond, m) then m1 else m2, cm, m)
    ensures VarsRel(MergeVals(o, cond, m1, m2).value, cm, m)
  {
    forall k | k in cm && k in m1 && k in m2 {
      IfValSound(o, cond, m1[k], m2[k], m);
    }
  }

  lemma {:induction false} MergeFramesSound(o: Oracle, cond: Term, l1: seq<map<string, SVal>>,
                                            l2: seq<map<string, SVal>>, m: Model, cl: seq<map<string, CVal>>)
    requires Sound(o) && MergeFrames(o, cond, l1, l2).Some?
    requires FramesRel(if Holds(cond, m) then l1 else l2, cl, m)
    ensures FramesRel(MergeFrames(o, cond, l1, l2).value, cl, m)
    decreases |l1|
  {
    if l1 != [] {
      MergeValsSound(o, cond, l1[0], l2[0], m, cl[0]);
      MergeFramesSound(o, cond, l1[1..], l2[1..], m, cl[1..]);
    }
  }

  lemma {:induction false} MergeRefsSound(o: Oracle, cond: Term, r1: Refs, r2: Refs, m: Model, mem: Cell -> CVal,
                                          alive: set<FnId>)
    requires Sound(o) && MergeRefs(o, cond, r1, r2).Some?
    requires MemRel(if Holds(cond, m) then r1 else r2, m, mem, alive)
    ensures MemRel(MergeRefs(o, cond, r1, r2).value, m, mem, alive)
  {
    var r := MergeRefs(o, cond, r1, r2).value;
    forall c: Cell | c.fn in alive
      ensures HasCell(r, c.fn) && Alpha(EvalCell(r, c, m)) == mem(c)
    {
      MergeRefsCell(o, cond, r1, r2, c, m);
    }
  }

  /** A cell that exists on the side taken holds there what it holds after the merge. */
  lemma {:induction false} MergeRefsCell(o: Oracle, cond: Term, r1: Refs, r2: Refs, c: Cell, m: Model)
    requires Sound(o) && MergeRefs(o, cond, r1, r2).Some?
    requires HasCell(if Holds(cond, m) then r1 else r2, c.fn)
    ensures var r := MergeRefs(o, cond, r1, r2).value;
            && HasCell(r, c.fn)
            && EvalCell(r, c, m) == EvalCell(if Holds(cond, m) then r1 else r2, c, m)
  {
    var x, f := c.fn.obj, c.fn.fields;
    if x in r1 && x in r2 {
      assert MergeObject(o, cond, r1[x], r2[x]).Some?;
      if f in r1[x] && f in r2[x] {
        IfFnSound(o, cond, r1[x][f], r2[x][f], c.idx, m);
      }
    }
  }

  /** Whichever side the valuation takes, the merged state is that side's state. */
  lemma {:induction false} MergeSound(o: Oracle, cond: Term, s1: SymState, s2: SymState, m: Model, cs: CState)
    requires Sound(o) && Merge(o, cond, s1, s2).Some?
    requires Rel(if Holds(cond, m) then s1 else s2, m, cs)
    ensures Rel(Merge(o, cond, s1, s2).value, m, cs)
  {
    MergeValsSound(o, cond, s1.globals, s2.globals, m, cs.globals);
    MergeFramesSound(o, cond, s1.locals, s2.locals, m, cs.locals);
    MergeRefsSound(o, cond, s1.refs, s2.refs, m, cs.mem, cs.alive);
  }

  /* ---------- operands ---------- */

  ghost predicate AgreesVal(v: Option<SVal>, c: Outcome<CVal>, m: Model) {
    v.Some? ==> c == Bad(IllFormed) || c == Good(Sem(v.value, m))
  }

  lemma {:induction false} OperandSound(st: SymState, m: Model, cs: CState, x: Operand)
    requires Rel(st, m, cs)
    ensures AgreesVal(SOperand(st, x), COperand(cs, x), m)
  {
    match x
    case Local(name) =>
    case Global(name) =>
    case Int(v, w) =>
      if v < Pow2(w) {
        DivModUnique(v, Pow2(w), 0, v);
      }
  }

  lemma {:induction false} OperandsSound(st: SymState, m: Model, cs: CState, xs: seq<Operand>)
    requires Rel(st, m, cs) && SOperands(st, xs).Some?
    ensures var c := COperands(cs, xs); var vs := SOperands(st, xs).value;
            c == Bad(IllFormed) || (c.Good? && |c.value| == |vs| == |xs|
                                    && forall i :: 0 <= i < |vs| ==> c.value[i] == Sem(vs[i], m))
    decreases xs
  {
    if xs != [] {
      OperandSound(st, m, cs, xs[0]);
      OperandsSound(st, m, cs, xs[1..]);
    }
  }

  lemma {:induction false} SetSound(st: SymState, m: Model, cs: CState, dst: string, v: SVal)
    requires Rel(st, m, cs)
    ensures AgreesState(SSet(st, dst, v), CSet(cs, dst, Sem(v, m)), m)
  {
  }

  /* ---------- operators ---------- */

  /** A boolean as a one-bit number. */
  function Bit(b: bool): nat { if b then 1 else 0 }

  lemma {:induction false} BitwiseOnBits(op: BvOp, x: bool, y: bool)
    requires op.BAnd? || op.BOr? || op.BXor?
    ensures BvSem(op, 1, Bit(x), Bit(y)) == Bit(BoolSem(LogicOf(op), x, y))
  {
    assert Pow2(1) == 2;
  }

  lemma {:induction false} AsBoolSound(o: Oracle, t: Term, m: Model)
    requires Sound(o) && AsBool(o, t).Some?
    ensures SortOf(AsBool(o, t).value) == SBool
    ensures Alpha(Eval(t, m)) == CBit(Truth(Eval(AsBool(o, t).value, m)))
  {
    hide OpSem, OpSorted, OpSort, BvSem;
    assert HasSort(Eval(t, m), SortOf(t));
    if SortOf(t) != SBool {
      assert Pow2(1) == 2;
      IfMeaning(o, Equal(t, BvVal(1, 1)), TRUE, FALSE, m);
    }
  }

  lemma {:induction false} LogicSound(o: Oracle, op: BvOp, a: Term, b: Term, m: Model)
    requires Sound(o) && (op.BAnd? || op.BOr? || op.BXor?)
    requires AsBool(o, a).Some? && AsBool(o, b).Some?
    requires SortOf(AsBool(o, a).value) == SBool && SortOf(AsBool(o, b).value) == SBool
    ensures var t := Node(Logic(LogicOf(op)), [AsBool(o, a).value, AsBool(o, b).value]);
            WellSorted(t)
              && Good(Alpha(Eval(t, m)))
                == CBinary(ByEvaluator, op, Alpha(Eval(a, m)), Alpha(Eval(b, m)), false, false, false)
  {
    hide BvSem, BoolSem, CBinary;
    AsBoolSound(o, a, m);
    AsBoolSound(o, b, m);
    var x, y := AsBool(o, a).value, AsBool(o, b).value;
    EvalNode(Logic(LogicOf(op)), [x, y], m);
    BitwiseOnBits(op, Truth(Eval(x, m)), Truth(Eval(y, m)));
    BinaryOnBits(op, Truth(Eval(x, m)), Truth(Eval(y, m)));
  }

  lemma {:induction false} BinaryOnBits(op: BvOp, x: bool, y: bool)
    requires op.BAnd? || op.BOr? || op.BXor?
    ensures CBinary(ByEvaluator, op, CBit(x), CBit(y), false, false, false)
      == Good(CNum(1, BvSem(op, 1, Bit(x), Bit(y))))
  {
    hide BvSem;
    assert Pow2(1) == 2;
  }

  lemma {:induction false} BvOperand(t: Term, m: Model)
    requires SortOf(t).SBv?
    ensures Alpha(Eval(t, m)) == CNum(SortOf(t).width, Num(Eval(t, m)))
    ensures Num(Eval(t, m)) < Pow2(SortOf(t).width)
  {
    assert HasSort(Eval(t, m), SortOf(t));
  }

  lemma {:induction false} ShiftSound(o: Oracle, pc: seq<Term>, op: BvOp, a: Term, b: Term, m: Model)
    requires Sound(o) && Sat(pc, m) && (op.Shl? || op.LShr? || op.AShr?)
    requires SortOf(a) == SortOf(b) && SortOf(a).SBv?
    ensures AgreesNumber(SBinary(o, pc, op, a, b, false, false, false),
                         CBinary(ByEvaluator, op, Alpha(Eval(a, m)), Alpha(Eval(b, m)), false, false, false), m)
  {
    hide SBinary, CBinary, BvSem, PredSem, Pow2, OpSem, OpSorted, OpSort;
    var w := SortOf(a).width;
    BvOperand(a, m);
    BvOperand(b, m);
    ShiftCases(o, pc, op, a, b, w, Num(Eval(a, m)), Num(Eval(b, m)));
    var r: Term := BvTerm(op, a, b);
    BvNode(op, a, b, m);
    var inRange: Term := CmpTerm(Ult, b, BvVal(w, w));
    ShiftInRange(b, w, m);
    if If(o, inRange, r, Sym("poison", SBv(w))).Some? {
      PartialIf(o, pc, inRange, r, Sym("poison", SBv(w)), m);
    }
  }

  lemma {:induction false} ShiftCases(o: Oracle, pc: seq<Term>, op: BvOp, a: Term, b: Term, w: nat, x: nat, y: nat)
    requires op.Shl? || op.LShr? || op.AShr?
    requires SortOf(a) == SBv(w) && SortOf(b) == SBv(w) && x < Pow2(w) && y < Pow2(w)
    ensures WellSorted(CmpTerm(Ult, b, BvVal(w, w))) && WellSorted(BvTerm(op, a, b))
    ensures SBinary(o, pc, op, a, b, false, false, false)
         == match If(o, CmpTerm(Ult, b, BvVal(w, w)), BvTerm(op, a, b), Sym("poison", SBv(w)))
            case None => None
            case Some(t) => PartialEval(o, pc, t)
    ensures CBinary(ByEvaluator, op, CNum(w, x), CNum(w, y), false, false, false)
         == if y >= w then Bad(Poison) else Good(CNum(w, BvSem(op, w, x, y)))
  {
    hide BvSem, Signed, If, PartialEval;
  }

  lemma {:induction false} ShiftInRange(b: Term, w: nat, m: Model)
    requires SortOf(b) == SBv(w)
    ensures WellSorted(CmpTerm(Ult, b, BvVal(w, w)))
    ensures Eval(CmpTerm(Ult, b, BvVal(w, w)), m) == VBool(Num(Eval(b, m)) < w)
  {
    hide PredSem;
    CmpNode(Ult, b, BvVal(w, w), m);
    ShiftGuard(w, Num(Eval(b, m)));
  }

  /** A conditional built by `If` and then partially evaluated keeps the side its condition takes. */
  lemma {:induction false} PartialIf(o: Oracle, pc: seq<Term>, c: Term, x: Term, y: Term, m: Model)
    requires Sound(o) && Sat(pc, m) && If(o, c, x, y).Some?
    ensures var p := PartialEval(o, pc, If(o, c, x, y).value);
            p.Some? && Eval(p.value, m) == if Holds(c, m) then Eval(x, m) else Eval(y, m)
  {
    IfMeaning(o, c, x, y, m);
    PartialEvalMeaning(o, pc, If(o, c, x, y).value, m);
  }

  lemma {:induction false} ShiftGuard(w: nat, y: nat)
    ensures PredSem(Ult, w, y, w % Pow2(w)) == (y < w)
  {
    BelowPow2(w);
    DivModUnique(w, Pow2(w), 0, w);
  }

  lemma {:induction false} BelowPow2(w: nat)
    ensures w < Pow2(w)
  {
    if w > 0 { BelowPow2(w - 1); }
  }

  lemma {:induction false} DivisionSound(o: Oracle, pc: seq<Term>, op: BvOp, a: Term, b: Term, m: Model)
    requires Sound(o) && Sat(pc, m) && (op.UDiv? || op.SDiv? || op.URem? || op.SRem?)
    requires SortOf(a) == SortOf(b) && SortOf(a).SBv?
    ensures AgreesNumber(SBinary(o, pc, op, a, b, false, false, false),
                         CBinary(ByEvaluator, op, Alpha(Eval(a, m)), Alpha(Eval(b, m)), false, false, false), m)
  {
    hide BvSem, PredSem, Pow2, OpSem, Signed;
    var w := SortOf(a).width;
    BvNode(op, a, b, m);
    BvOperand(a, m);
    BvOperand(b, m);
    var nonzero := Negate(Equal(b, BvVal(0, w)));
    if Implied(o, pc, nonzero) {
      ImpliedHolds(o, pc, nonzero, m);
    }
  }

  /** Additions: what the solver is asked for a promised flag holds of the concrete addition. */
  lemma {:induction false} AdditionSound(o: Oracle, pc: seq<Term>, a: Term, b: Term, nuw: bool, nsw: bool, m: Model)
    requires Sound(o) && Sat(pc, m)
    requires SortOf(a) == SortOf(b) && SortOf(a).SBv?
    ensures AgreesNumber(SBinary(o, pc, Add, a, b, nuw, nsw, false),
                         CBinary(ByEvaluator, Add, Alpha(Eval(a, m)), Alpha(Eval(b, m)), nuw, nsw, false), m)
  {
    hide SBinary, CBinary, BvSem, PredSem, Pow2, OpSem, OpSort, OpSorted;
    var w := SortOf(a).width;
    BvOperand(a, m);
    BvOperand(b, m);
    AdditionCases(o, pc, a, b, w, nuw, nsw, Num(Eval(a, m)), Num(Eval(b, m)));
    BvNode(Add, a, b, m);
    CmpNode(AddNoOverflowU, a, b, m);
    CmpNode(AddNoOverflowS, a, b, m);
    var u: Term := CmpTerm(AddNoOverflowU, a, b);
    var s: Term := CmpTerm(AddNoOverflowS, a, b);
    if Implied(o, pc, u) { ImpliedHolds(o, pc, u, m); }
    if Implied(o, pc, s) { ImpliedHolds(o, pc, s, m); }
  }

  lemma {:induction false} AdditionCases(o: Oracle, pc: seq<Term>, a: Term, b: Term, w: nat, nuw: bool, nsw: bool,
                                         x: nat, y: nat)
    requires SortOf(a) == SBv(w) && SortOf(b) == SBv(w) && x < Pow2(w) && y < Pow2(w)
    ensures WellSorted(CmpTerm(AddNoOverflowU, a, b)) && WellSorted(CmpTerm(AddNoOverflowS, a, b))
    ensures WellSorted(BvTerm(Add, a, b))
    ensures SBinary(o, pc, Add, a, b, nuw, nsw, false)
         == if (nuw && !Implied(o, pc, CmpTerm(AddNoOverflowU, a, b)))
               || (nsw && !Implied(o, pc, CmpTerm(AddNoOverflowS, a, b))) then None
            else Some(BvTerm(Add, a, b))
    ensures CBinary(ByEvaluator, Add, CNum(w, x), CNum(w, y), nuw, nsw, false)
         == if (nuw && !PredSem(AddNoOverflowU, w, x, y)) || (nsw && !PredSem(AddNoOverflowS, w, x, y)) then Bad(Fault)
            else Good(CNum(w, BvSem(Add, w, x, y)))
  {
    hide BvSem, PredSem, Implied;
  }

  lemma {:induction false} BinarySound(o: Oracle, pc: seq<Term>, op: BvOp, a: Term, b: Term, nuw: bool, nsw: bool,
                                       exact: bool, m: Model)
    requires Sound(o) && Sat(pc, m)
    ensures AgreesNumber(SBinary(o, pc, op, a, b, nuw, nsw, exact),
                         CBinary(ByEvaluator, op, Alpha(Eval(a, m)), Alpha(Eval(b, m)), nuw, nsw, exact), m)
  {
    hide BvSem, PredSem, Pow2, OpSem;
    if SBinary(o, pc, op, a, b, nuw, nsw, exact).Some? {
      if (op.BAnd? || op.BOr? || op.BXor?) && (SortOf(a) == SBool || SortOf(b) == SBool) {
        LogicSound(o, op, a, b, m);
      } else if op.Add? {
        AdditionSound(o, pc, a, b, nuw, nsw, m);
      } else if op.UDiv? || op.SDiv? || op.URem? || op.SRem? {
        DivisionSound(o, pc, op, a, b, m);
      } else if op.Shl? || op.LShr? || op.AShr? {
        ShiftSound(o, pc, op, a, b, m);
      } else {
        BvNode(op, a, b, m);
        BvOperand(a, m);
        BvOperand(b, m);
      }
    }
  }

  lemma {:induction false} AlphaEqual(s: Sort, x: Value, y: Value)
    requires HasSort(x, s) && HasSort(y, s)
    ensures Alpha(x).CNum? && Alpha(y).CNum? && Alpha(x).width == Alpha(y).width
    ensures Alpha(x).n == Alpha(y).n <==> x == y
  {
  }

  lemma {:induction false} CompareSound(cmp: ICmp, a: Term, b: Term, m: Model)
    ensures AgreesNumber(SCompare(cmp, a, b), CCompare(cmp, Alpha(Eval(a, m)), Alpha(Eval(b, m))), m)
  {
    hide BvSem, PredSem, Pow2, OpSem, OpSort, OpSorted, Equal, Negate;
    if SortOf(a) == SortOf(b) {
      AlphaEqual(SortOf(a), Eval(a, m), Eval(b, m));
      match cmp
      case IEq => assert Eval(Equal(a, b), m) == VBool(Eval(a, m) == Eval(b, m));
      case INe => assert Eval(Negate(Equal(a, b)), m) == VBool(Eval(a, m) != Eval(b, m));
      case IOrd(p) =>
        if SortOf(a).SBv? {
          CmpNode(p, a, b, m);
          BvOperand(a, m);
          BvOperand(b, m);
        }
    }
  }

  lemma {:induction false} ConvertSound(o: Oracle, cast: Cast, a: Term, to: nat, m: Model)
    requires Sound(o)
    ensures AgreesNumber(SConvert(o, cast, a, to), CConvert(cast, Alpha(Eval(a, m)), to), m)
  {
    hide BvSem, PredSem, SignExtend;
    if SConvert(o, cast, a, to).Some? {
      assert HasSort(Eval(a, m), SortOf(a));
      match cast
      case Trunc => EvalNode(Extract(to), [a], m);
      case ZExt =>
        if SortOf(a) == SBool {
          IfMeaning(o, a, BvVal(1, to), BvVal(0, to), m);
          Pow2Mono(1, to);
          assert Pow2(1) == 2;
          DivModUnique(1, Pow2(to), 0, 1);
          DivModUnique(0, Pow2(to), 0, 0);
        } else {
          EvalNode(ZeroExt(to), [a], m);
        }
      case SExt => EvalNode(SignExt(to), [a], m);
    }
  }

  /* ---------- memory ---------- */

  lemma {:induction false} TouchedHoldsTarget(p: Pointer, m: Model)
    ensures EvalPointer(p, m).ref.name in Touched(p)
  {
    match p
    case PBase(_, _) =>
    case PIte(_, p1, p2) => TouchedHoldsTarget(p1, m); TouchedHoldsTarget(p2, m);
  }

  /** A load the evaluator accepts reads in bounds, and reads the right cell. */
  lemma {:induction false} LoadSound(o: Oracle, pc: seq<Term>, st: SymState, p: SVal, m: Model, cs: CState)
    requires Sound(o) && Sat(pc, m) && Rel(st, m, cs) && SLoad(o, pc, st, p).Some?
    ensures var c := CAccess(cs, Sem(p, m)); var r := SLoad(o, pc, st, p).value;
            c == Bad(IllFormed) || (c.Good? && Sem(r.1, m) == cs.mem(c.value)
                                    && Rel(r.0, m, cs.(accessed := cs.accessed + {c.value.fn.obj})))
  {
    ReadMeaning(o, pc, st.refs, p.p, m);
    TouchedHoldsTarget(p.p, m);
  }

  /** A store the evaluator accepts writes in bounds, and changes the right cell only. */
  lemma {:induction false} StoreSound(o: Oracle, pc: seq<Term>, st: SymState, v: SVal, p: SVal, m: Model, cs: CState)
    requires Sound(o) && Sat(pc, m) && Rel(st, m, cs)
    ensures AgreesState(SStore(o, pc, st, v, p), CStore(cs, Sem(v, m), Sem(p, m)), m)
  {
    if SStore(o, pc, st, v, p).Some? {
      WriteMeaning(o, pc, st.refs, p.p, v.t, m);
      TouchedHoldsTarget(p.p, m);
    }
  }

  lemma {:induction false} AllocaSound(st: SymState, pos: Position, t: IType, m: Model, cs: CState)
    requires Rel(st, m, cs)
    ensures AgreesOutcome(SAlloca(st, pos, t), CRhs(Evaluated(m), cs, None, pos, Alloca(t)), m)
  {
    var name, leaves := ObjectName(pos), Leaves(t, 0);
    if name !in st.refs {
      var refs' := st.refs[name := FreshObject(name, leaves)];
      var cs' := CRhs(Evaluated(m), cs, None, pos, Alloca(t)).value.0;
      forall c: Cell | c.fn in cs'.alive
        ensures HasCell(refs', c.fn) && Alpha(EvalCell(refs', c, m)) == cs'.mem(c)
      {
        if c.fn in cs.alive {
          assert HasCell(st.refs, c.fn);
        } else {
          assert c.fn.obj == name && c.fn.fields in leaves;
        }
      }
    }
  }

  lemma {:induction false} TermsSound(vs: seq<SVal>, m: Model)
    requires STerms(vs).Some?
    ensures |STerms(vs).value| == |vs|
    ensures forall i :: 0 <= i < |vs| ==> vs[i] == STerm(STerms(vs).value[i])
    decreases vs
  {
    if vs != [] { TermsSound(vs[1..], m); }
  }

  lemma {:induction false} GetElementSound(p: SVal, vs: seq<SVal>, m: Model, cvs: seq<CVal>)
    requires p.SPtr? && STerms(vs).Some? && STerms(vs).value != [] && |cvs| == |vs|
    requires forall i :: 0 <= i < |vs| ==> cvs[i] == Sem(vs[i], m)
    ensures var c := CGetElement(ByEvaluator, Sem(p, m), cvs);
            c == Bad(IllFormed) || c == Good(CAddr(EvalPointer(Gep(p.p, STerms(vs).value), m)))
  {
    TermsSound(vs, m);
    var ts := STerms(vs).value;
    GepMeaning(p.p, ts, m);
    if CGetElement(ByEvaluator, Sem(p, m), cvs).Good? {
      var ws := seq(|cvs|, i requires 0 <= i < |cvs| => assert cvs[i].CNum?; VBv(cvs[i].width, cvs[i].n));
      assert forall i :: 0 <= i < |ts| ==> cvs[i] == Alpha(Eval(ts[i], m));
      assert ws == EvalIndices(ts, m);
    }
  }

  /* ---------- instructions ---------- */

  lemma {:induction false} RhsSound(o: Oracle, pc: seq<Term>, st: SymState, pred: Option<string>, pos: Position,
                                    rhs: Rhs, m: Model, cs: CState)
    requires Sound(o) && Sat(pc, m) && Rel(st, m, cs) && !rhs.Call?
    ensures AgreesOutcome(SRhs(o, pc, st, pred, pos, rhs), CRhs(Evaluated(m), cs, pred, pos, rhs), m)
  {
    hide SBinary, CBinary, SCompare, CCompare, SConvert, CConvert, IfVal, CSelect, CGetElement, SLoad, CAccess, Rel;
    if SRhs(o, pc, st, pred, pos, rhs).Some? {
      match rhs
      case Binary(op, a, b, nuw, nsw, exact) =>
        OperandSound(st, m, cs, a);
        OperandSound(st, m, cs, b);
        BinarySound(o, pc, op, SOperand(st, a).value.t, SOperand(st, b).value.t, nuw, nsw, exact, m);
      case Compare(cmp, a, b) =>
        OperandSound(st, m, cs, a);
        OperandSound(st, m, cs, b);
        CompareSound(cmp, SOperand(st, a).value.t, SOperand(st, b).value.t, m);
      case Convert(cast, a, w) =>
        OperandSound(st, m, cs, a);
        ConvertSound(o, cast, SOperand(st, a).value.t, w, m);
      case Select(c, a, b) =>
        OperandSound(st, m, cs, c);
        OperandSound(st, m, cs, a);
        OperandSound(st, m, cs, b);
        if COperand(cs, c).Good? && COperand(cs, a).Good? && COperand(cs, b).Good? {
          SelectSound(o, st, c, a, b, m, cs);
        }
      case Load(p) =>
        OperandSound(st, m, cs, p);
        LoadSound(o, pc, st, SOperand(st, p).value, m, cs);
      case GetElement(p, idx) =>
        OperandSound(st, m, cs, p);
        OperandsSound(st, m, cs, idx);
        if COperand(cs, p).Good? && COperands(cs, idx).Good? {
          GetElementSound(SOperand(st, p).value, SOperands(st, idx).value, m, COperands(cs, idx).value);
        }
      case Alloca(t) =>
        AllocaSound(st, pos, t, m, cs);
      case Phi(cases) =>
        OperandSound(st, m, cs, cases[pred.value]);
    }
  }

  lemma {:induction false} SelectSound(o: Oracle, st: SymState, c: Operand, a: Operand, b: Operand, m: Model,
                                       cs: CState)
    requires Sound(o) && Rel(st, m, cs)
    requires SOperand(st, c).Some? && SOperand(st, a).Some? && SOperand(st, b).Some? && SOperand(st, c).value.STerm?
    requires COperand(cs, c).Good? && COperand(cs, a).Good? && COperand(cs, b).Good?
    requires IfVal(o, SOperand(st, c).value.t, SOperand(st, a).value, SOperand(st, b).value).Some?
    ensures var v := IfVal(o, SOperand(st, c).value.t, SOperand(st, a).value, SOperand(st, b).value).value;
            CSelect(COperand(cs, c).value, COperand(cs, a).value, COperand(cs, b).value) == Good(Sem(v, m))
  {
    OperandSound(st, m, cs, c);
    OperandSound(st, m, cs, a);
    OperandSound(st, m, cs, b);
    var t := SOperand(st, c).value.t;
    IfValSound(o, t, SOperand(st, a).value, SOperand(st, b).value, m);
    assert SortOf(t) == SBool;
    assert HasSort(Eval(t, m), SBool);
  }

  lemma {:induction false} BindSound(params: seq<string>, vs: seq<SVal>, cvs: seq<CVal>, m: Model)
    requires |params| == |vs| == |cvs|
    requires forall i :: 0 <= i < |vs| ==> cvs[i] == Sem(vs[i], m)
    ensures VarsRel(Bind(params, vs), Bind(params, cvs), m)
    decreases params
  {
    if params != [] {
      var n := |params| - 1;
      BindSound(params[..n], vs[..n], cvs[..n], m);
    }
  }

  lemma {:induction false} PushFrameSound(st: SymState, m: Model, cs: CState, f: map<string, SVal>,
                                          cf: map<string, CVal>)
    requires Rel(st, m, cs) && VarsRel(f, cf, m)
    ensures Rel(st.(locals := st.locals + [f]), m, cs.(locals := cs.locals + [cf]))
  {
  }

  lemma {:induction false} PopFrameSound(st: SymState, m: Model, cs: CState)
    requires Rel(st, m, cs) && st.locals != []
    ensures cs.locals != []
    ensures Rel(st.(locals := st.locals[..|st.locals| - 1]), m, cs.(locals := cs.locals[..|cs.locals| - 1]))
  {
  }

  /* ---------- branching ---------- */

  /** Joining two sides: the result agrees with every run that agrees with the side taken, and the
      side taken was not one that the evaluator pruned or found unreachable. */
  lemma {:induction false} CombineSound(o: Oracle, cond: Term, scond: Term, r1: SRes, r2: SRes, m: Model, c: CRes)
    requires Sound(o) && SortOf(cond) == SBool && SortOf(scond) == SBool
    requires Eval(scond, m) == Eval(cond, m)
    requires Combine(o, cond, scond, r1, r2).Done?
    requires var r := if Holds(cond, m) then r1 else r2; r != UnreachableReached && Agrees(r, c, m)
    ensures Agrees(Combine(o, cond, scond, r1, r2), c, m)
  {
    hide Rel, Merge, IfVal;
    if r1.Done? && r2.Done? {
      if c.CDone? {
        MergeSound(o, scond, r1.st, r2.st, m, c.st);
        if r1.val.Some? && r2.val.Some? {
          IfValSound(o, cond, r1.val.value, r2.val.value, m);
        }
      }
    }
  }

  /** Under a satisfied path condition neither pruning nor a settled `unreachable` can drop the side
      that the valuation takes. */
  lemma {:induction false} TakenSideIsLive(o: Oracle, pc: seq<Term>, cond: Term, m: Model)
    requires Sound(o) && Sat(pc, m) && SortOf(cond) == SBool && SortOf(o.simplify(cond)) == SBool
    ensures var s := o.simplify(cond);
            && Eval(s, m) == Eval(cond, m)
            && (Holds(cond, m) ==> CanBeTrue(o, pc, s) && Sat(pc + [s], m) && !Implied(o, pc + [s], FALSE))
            && (!Holds(cond, m) ==>
                CanBeFalse(o, pc, s) && Sat(pc + [Negate(s)], m) && !Implied(o, pc + [Negate(s)], FALSE))
  {
    var s := o.simplify(cond);
    assert Eval(s, m) == Eval(cond, m);
    var side := if Holds(cond, m) then s else Negate(s);
    assert Holds(side, m);
    assert Sat(pc + [side], m);
    if Implied(o, pc + [side], FALSE) { ImpliedHolds(o, pc + [side], FALSE, m); }
    if Implied(o, pc, s) { ImpliedHolds(o, pc, s, m); }
    if Implied(o, pc, Negate(s)) { ImpliedHolds(o, pc, Negate(s), m); }
  }

  /* ---------- execution ---------- */

  lemma {:induction false} BlockSound(o: Oracle, P: Program, fn: Function, here: string, pred: Option<string>,
                                      pos: Position, pc: seq<Term>, st: SymState, fuel: nat, m: Model, cs: CState)
    requires Sound(o) && Sat(pc, m) && Rel(st, m, cs)
    ensures Agrees(SBlock(o, P, fn, here, pred, pos, pc, st, fuel),
                   CBlock(P, Evaluated(m), fn, here, pred, pos, cs, fuel),
                   m)
    decreases fuel, 4, 0
  {
    if fuel > 0 && here in fn.blocks {
      InstrsSound(o, P, fn, here, pred, pos, 0, fn.blocks[here], pc, st, fuel, m, cs);
    }
  }

  lemma {:induction false} InstrsSound(o: Oracle, P: Program, fn: Function, here: string, pred: Option<string>,
                                       pos: Position, k: nat, block: Block, pc: seq<Term>, st: SymState, fuel: nat,
                                       m: Model, cs: CState)
    requires Sound(o) && Sat(pc, m) && Rel(st, m, cs) && fuel > 0 && k <= |block.instrs|
    ensures Agrees(SInstrs(o, P, fn, here, pred, pos, k, block, pc, st, fuel),
                   CInstrs(P, Evaluated(m), fn, here, pred, pos, k, block, cs, fuel), m)
    decreases fuel, 3, |block.instrs| - k
  {
    hide Rel;
    if k == |block.instrs| {
      TerminatorSound(o, P, fn, here, pos + [k], block.term, pc, st, fuel, m, cs);
    } else {
      InstrSound(o, P, pred, pos + [k], block.instrs[k], pc, st, fuel, m, cs);
      var r := SInstr(o, P, pred, pos + [k], block.instrs[k], pc, st, fuel);
      var c := CInstr(P, Evaluated(m), pred, pos + [k], block.instrs[k], cs, fuel);
      if r.Done? && c.CDone? {
        InstrsSound(o, P, fn, here, pred, pos, k + 1, block, pc, r.st, fuel, m, c.st);
      }
    }
  }

  lemma {:induction false} InstrSound(o: Oracle, P: Program, pred: Option<string>, pos: Position, i: Instr,
                                      pc: seq<Term>, st: SymState, fuel: nat, m: Model, cs: CState)
    requires Sound(o) && Sat(pc, m) && Rel(st, m, cs) && fuel > 0
    ensures Agrees(SInstr(o, P, pred, pos, i, pc, st, fuel), CInstr(P, Evaluated(m), pred, pos, i, cs, fuel), m)
    decreases fuel, 2, 0
  {
    hide Rel, SRhs, CRhs, SSet, CSet;
    match i
    case Assign(dst, rhs) =>
      if rhs.Call? {
        CallSound(o, P, pos, rhs.fn, rhs.args, pc, st, fuel, m, cs);
        var r := SCall(o, P, pos, rhs.fn, rhs.args, pc, st, fuel);
        var c := CCall(P, Evaluated(m), pos, rhs.fn, rhs.args, cs, fuel);
        if r.Done? && c.CDone? && r.val.Some? {
          SetSound(r.st, m, c.st, dst, r.val.value);
        }
      } else {
        AssignSound(o, P, pred, pos, dst, rhs, pc, st, fuel, m, cs);
      }
    case CallVoid(f, args) =>
      CallSound(o, P, pos, f, args, pc, st, fuel, m, cs);
    case Store(x, p) =>
      StoreInstrSound(o, P, pred, pos, x, p, pc, st, fuel, m, cs);
  }

  lemma {:induction false} AssignSound(o: Oracle, P: Program, pred: Option<string>, pos: Position, dst: string,
                                       rhs: Rhs, pc: seq<Term>, st: SymState, fuel: nat, m: Model, cs: CState)
    requires Sound(o) && Sat(pc, m) && Rel(st, m, cs) && fuel > 0 && !rhs.Call?
    ensures var i := Assign(dst, rhs);
            Agrees(SInstr(o, P, pred, pos, i, pc, st, fuel), CInstr(P, Evaluated(m), pred, pos, i, cs, fuel), m)
  {
    hide Rel, SRhs, CRhs, SSet, CSet;
    RhsSound(o, pc, st, pred, pos, rhs, m, cs);
    var r, c := SRhs(o, pc, st, pred, pos, rhs), CRhs(Evaluated(m), cs, pred, pos, rhs);
    if r.Some? && c.Good? {
      SetSound(r.value.0, m, c.value.0, dst, r.value.1);
    }
  }

  lemma {:induction false} StoreInstrSound(o: Oracle, P: Program, pred: Option<string>, pos: Position, x: Operand,
                                           p: Operand, pc: seq<Term>, st: SymState, fuel: nat, m: Model, cs: CState)
    requires Sound(o) && Sat(pc, m) && Rel(st, m, cs) && fuel > 0
    ensures var i := Store(x, p);
            Agrees(SInstr(o, P, pred, pos, i, pc, st, fuel), CInstr(P, Evaluated(m), pred, pos, i, cs, fuel), m)
  {
    hide Rel, SOperand, COperand, SStore, CStore, Sem, Sat, Sound;
    OperandSound(st, m, cs, x);
    OperandSound(st, m, cs, p);
    if SOperand(st, x).Some? && SOperand(st, p).Some? {
      StoreSound(o, pc, st, SOperand(st, x).value, SOperand(st, p).value, m, cs);
    }
  }

  lemma {:induction false} CallSound(o: Oracle, P: Program, pos: Position, f: string, args: seq<Operand>, pc: seq<Term>,
                                     st: SymState, fuel: nat, m: Model, cs: CState)
    requires Sound(o) && Sat(pc, m) && Rel(st, m, cs) && fuel > 0
    ensures Agrees(SCall(o, P, pos, f, args, pc, st, fuel), CCall(P, Evaluated(m), pos, f, args, cs, fuel), m)
    decreases fuel, 1, 0
  {
    hide Rel;
    if SCall(o, P, pos, f, args, pc, st, fuel).Done? {
      OperandsSound(st, m, cs, args);
      var vs := SOperands(st, args).value;
      if COperands(cs, args).Good? {
        var cvs := COperands(cs, args).value;
        BindSound(P[f].params, vs, cvs, m);
        PushFrameSound(st, m, cs, Bind(P[f].params, vs), Bind(P[f].params, cvs));
        var st1 := st.(locals := st.locals + [Bind(P[f].params, vs)]);
        var cs1 := cs.(locals := cs.locals + [Bind(P[f].params, cvs)]);
        BlockSound(o, P, P[f], P[f].entry, None, pos, pc, st1, fuel - 1, m, cs1);
        var r := SBlock(o, P, P[f], P[f].entry, None, pos, pc, st1, fuel - 1);
        var c := CBlock(P, Evaluated(m), P[f], P[f].entry, None, pos, cs1, fuel - 1);
        if c.CDone? {
          PopFrameSound(r.st, m, c.st);
        }
      }
    }
  }

  lemma {:induction false} TerminatorSound(o: Oracle, P: Program, fn: Function, here: string, pos: Position,
                                           t: Terminator, pc: seq<Term>, st: SymState, fuel: nat, m: Model, cs: CState)
    requires Sound(o) && Sat(pc, m) && Rel(st, m, cs) && fuel > 0
    ensures Agrees(STerminator(o, P, fn, here, pos, t, pc, st, fuel),
                   CTerminator(P, Evaluated(m), fn, here, pos, t, cs, fuel), m)
    decreases fuel, 2, 0
  {
    hide Rel, SOperand, COperand;
    match t
    case Return(None) =>
    case Return(Some(x)) => OperandSound(st, m, cs, x);
    case Jump(l) => BlockSound(o, P, fn, l, Some(here), pos, pc, st, fuel - 1, m, cs);
    case Branch(c, l1, l2) =>
      OperandSound(st, m, cs, c);
      if SOperand(st, c).Some? && SOperand(st, c).value.STerm? {
        BranchSound(o, P, fn, here, pos, SOperand(st, c).value.t, Goto(l1), Goto(l2), pc, st, fuel, m, cs);
      }
    case Switch(x, default, cases) =>
      OperandSound(st, m, cs, x);
      TakeSound(o, P, fn, here, pos, Cases(x, default, cases), pc, st, fuel, m, cs);
    case Unreachable =>
  }

  lemma {:induction false} BranchSound(o: Oracle, P: Program, fn: Function, here: string, pos: Position, cond: Term,
                                       t1: Target, t2: Target, pc: seq<Term>, st: SymState, fuel: nat, m: Model,
                                       cs: CState)
    requires Sound(o) && Sat(pc, m) && Rel(st, m, cs) && fuel > 0
    ensures Agrees(SBranch(o, P, fn, here, pos, cond, t1, t2, pc, st, fuel),
                   CBranch(P, Evaluated(m), fn, here, pos, Alpha(Eval(cond, m)), t1, t2, cs, fuel), m)
    decreases fuel, 1, Larger(TargetSize(t1), TargetSize(t2)) + 1
  {
    hide Rel, Combine, STake, CTake;
    var scond := o.simplify(cond);
    if SBranch(o, P, fn, here, pos, cond, t1, t2, pc, st, fuel).Done? {
      assert HasSort(Eval(cond, m), SBool);
      TakenSideIsLive(o, pc, cond, m);
      if Holds(cond, m) {
        TakeSound(o, P, fn, here, pos + [0], t1, pc + [scond], st, fuel, m, cs);
      } else {
        TakeSound(o, P, fn, here, pos + [1], t2, pc + [Negate(scond)], st, fuel, m, cs);
      }
      var r1 :=
        if CanBeTrue(o, pc, scond)
        then Settle(o, pc + [scond], STake(o, P, fn, here, pos + [0], t1, pc + [scond], st, fuel))
        else UnreachableReached;
      var r2 :=
        if CanBeFalse(o, pc, scond)
        then Settle(o, pc + [Negate(scond)], STake(o, P, fn, here, pos + [1], t2, pc + [Negate(scond)], st, fuel))
        else UnreachableReached;
      CombineSound(o, cond, scond, r1, r2, m,
                   CBranch(P, Evaluated(m), fn, here, pos, Alpha(Eval(cond, m)), t1, t2, cs, fuel));
    }
  }

  lemma {:induction false} TakeSound(o: Oracle, P: Program, fn: Function, here: string, pos: Position, t: Target,
                                     pc: seq<Term>, st: SymState, fuel: nat, m: Model, cs: CState)
    requires Sound(o) && Sat(pc, m) && Rel(st, m, cs) && fuel > 0
    ensures Agrees(STake(o, P, fn, here, pos, t, pc, st, fuel), CTake(P, Evaluated(m), fn, here, pos, t, cs, fuel), m)
    decreases fuel, 1, TargetSize(t)
  {
    hide Rel, SOperand, COperand, SCompare, CCompare;
    match t
    case Goto(l) => BlockSound(o, P, fn, l, Some(here), pos, pc, st, fuel - 1, m, cs);
    case Cases(x, default, cases) =>
      if cases == [] {
        BlockSound(o, P, fn, default, Some(here), pos, pc, st, fuel - 1, m, cs);
      } else if CaseCondition(st, x, cases[0].0).Some? {
        OperandSound(st, m, cs, x);
        OperandSound(st, m, cs, cases[0].0);
        var a, b := SOperand(st, x).value.t, SOperand(st, cases[0].0).value.t;
        CompareSound(IEq, a, b, m);
        BranchSound(o, P, fn, here, pos, CaseCondition(st, x, cases[0].0).value,
                    Goto(cases[0].1), Cases(x, default, cases[1..]), pc, st, fuel, m, cs);
      }
  }

  /** The machine of the language, and the one that stops where the evaluator departs from it. */
  function Language(m: Model): Machine { Machine(m.cells, ByLanguage) }
  function Watchful(m: Model): Machine { Machine(m.cells, Guarded) }

  /** The guarantee a verification run gives: under every valuation of the path condition a program
      the evaluator gets through does not execute `unreachable`, does not access memory out of
      bounds, makes no undefined division and breaks no no-overflow flag, ends, and computes the
      symbolic result in the symbolic final state; provided that its run meets none of the three
      operations in which the evaluator departs from the language. */
  lemma {:induction false} EvaluatorSound(o: Oracle, P: Program, f: string, args: seq<Operand>, pos: Position,
                                          pc: seq<Term>, st: SymState, fuel: nat, m: Model, cs: CState)
    requires Sound(o) && Sat(pc, m) && Rel(st, m, cs) && fuel > 0
    requires SCall(o, P, pos, f, args, pc, st, fuel).Done?
    requires !Halts(CCall(P, Watchful(m), pos, f, args, cs, fuel))
    ensures var c := CCall(P, Language(m), pos, f, args, cs, fuel);
            var r := SCall(o, P, pos, f, args, pc, st, fuel);
            && c != CStop(Panic) && c != CStop(Fault) && c != CStop(OutOfFuel)
            && (c.CDone? ==> Rel(r.st, m, c.st) && ValRel(r.val, c.val, m))
  {
    hide CCall, SCall;
    CallSound(o, P, pos, f, args, pc, st, fuel, m, cs);
    CallAlike(P, Evaluated(m), pos, f, args, cs, fuel);
    CallAlike(P, Language(m), pos, f, args, cs, fuel);
  }

  /** Departing or not, the symbolic result is that of the machine that goes by the evaluator's rules. */
  lemma {:induction false} EvaluatorComputes(o: Oracle, P: Program, f: string, args: seq<Operand>, pos: Position,
                                             pc: seq<Term>, st: SymState, fuel: nat, m: Model, cs: CState)
    requires Sound(o) && Sat(pc, m) && Rel(st, m, cs) && fuel > 0
    requires SCall(o, P, pos, f, args, pc, st, fuel).Done?
    ensures var c := CCall(P, Evaluated(m), pos, f, args, cs, fuel);
            var r := SCall(o, P, pos, f, args, pc, st, fuel);
            && c != CStop(Panic) && c != CStop(Fault) && c != CStop(OutOfFuel) && !Halts(c)
            && (c.CDone? ==> Rel(r.st, m, c.st) && ValRel(r.val, c.val, m))
  {
    hide CCall, SCall;
    CallSound(o, P, pos, f, args, pc, st, fuel, m, cs);
  }

  /* ---------- two operations that are not what they are called ---------- */

  /** What `sext` computes for a boolean. */
  function SextOfBoolean(o: Oracle, a: Term, to: nat): Option<Term> {
    If(o, a, BvVal(1, to), BvVal(0, to))
  }

  /** `sext` of a boolean is a sign extension only for false: for true it gives 1, not all ones. */
  lemma {:induction false} SextOfBooleanExact(o: Oracle, a: Term, to: nat, m: Model)
    requires Sound(o) && SortOf(a) == SBool && to > 1 && SextOfBoolean(o, a, to).Some?
    ensures Good(Alpha(Eval(SextOfBoolean(o, a, to).value, m))) == CConvert(SExt, Alpha(Eval(a, m)), to)
        <==> !Holds(a, m)
  {
    assert HasSort(Eval(a, m), SBool);
    IfMeaning(o, a, BvVal(1, to), BvVal(0, to), m);
    Pow2Mono(2, to);
    assert Pow2(0) == 1 && Pow2(1) == 2 && Pow2(2) == 4;
    DivModUnique(1, Pow2(to), 0, 1);
    DivModUnique(0, Pow2(to), 0, 0);
    MinusOneMod(Pow2(to));
    assert Signed(1, 1) == -1 && Signed(1, 0) == 0;
  }

  lemma {:induction false} MinusOneMod(d: nat)
    requires d > 1
    ensures -1 % d == d - 1
  {
  }

  /** The term that `sle` builds. */
  function SleTerm(a: Term, b: Term): Term
    requires SortOf(a) == SortOf(b) && SortOf(a).SBv?
  {
    CmpTerm(Slt, a, b)
  }

  /** `sle` is the signed comparison exactly when its operands differ. */
  lemma {:induction false} SleExact(a: Term, b: Term, m: Model)
    requires SortOf(a) == SortOf(b) && SortOf(a).SBv?
    ensures (Holds(SleTerm(a, b), m)
             == (Signed(SortOf(a).width, Num(Eval(a, m))) <= Signed(SortOf(a).width, Num(Eval(b, m)))))
        <==> Eval(a, m) != Eval(b, m)
  {
    hide OpSem;
    CmpNode(Slt, a, b, m);
    BvOperand(a, m);
    BvOperand(b, m);
    var w, x, y := SortOf(a).width, Num(Eval(a, m)), Num(Eval(b, m));
    if Signed(w, x) == Signed(w, y) { SignedInjective(w, x, y); }
    assert HasSort(Eval(a, m), SortOf(a)) && HasSort(Eval(b, m), SortOf(b));
  }

  lemma {:induction false} SignedInjective(w: nat, x: nat, y: nat)
    requires x < Pow2(w) && y < Pow2(w) && Signed(w, x) == Signed(w, y)
    ensures x == y
  {
  }
}
