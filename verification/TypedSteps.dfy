/** Right-hand sides of a typed program: libirpy/z3eval.py.  Where the concrete machine carries one out under every
    valuation of the path condition, an evaluator with an exact solver does.
 */
module TypedSteps {
  import opened Options
  import opened Words
  import opened Terms
  import opened References
  import opened Programs
  import opened SymbolicExec
  import opened Soundness
  import opened Typing
  import opened Completeness
  import opened TypedStates

  /* ---------- right-hand sides ---------- */

  /** The symbolic state stands for a concrete one under every valuation of the path condition. */
  ghost predicate Covers(pc: seq<Term>, st: SymState, cs: Model -> CState) {
    forall m: Model :: Sat(pc, m) ==> Rel(st, m, cs(m))
  }

  /** The concrete right-hand side is carried out under every valuation. */
  ghost predicate RhsEnds(pc: seq<Term>, pred: Option<string>, pos: Position, rhs: Rhs, cs: Model -> CState)
    requires !rhs.Call?
  {
    forall m: Model :: Sat(pc, m) ==> CRhs(Evaluated(m), cs(m), pred, pos, rhs).Good?
  }

  /** What the evaluation of a right-hand side leaves. */
  ghost predicate RhsDone(o: Oracle, objs: map<string, IType>, objs': map<string, IType>, st: SymState, pos: Position,
                          r: Option<(SymState, SVal)>, t: Ty)
  {
    && r.Some? && ValFits(o, objs', r.value.1, t)
    && r.value.0.globals == st.globals && r.value.0.locals == st.locals
    && MemFits(r.value.0.refs, objs') && Grows(objs, objs', pos)
  }

  lemma {:induction false} SameObjects(objs: map<string, IType>, pos: Position)
    ensures Grows(objs, objs, pos)
  {
  }

  /** Flags and divisors: what holds under every valuation is proved. */
  lemma {:induction false} ChecksProved(o: Oracle, pc: seq<Term>, op: BvOp, x: Term, y: Term, nuw: bool, nsw: bool,
                                        exact: bool)
    requires Exact(o) && Live(pc) && SortOf(x) == SortOf(y) && SortOf(x).SBv?
    requires forall m: Model :: Sat(pc, m) ==>
               CBinary(ByEvaluator, op, Alpha(Eval(x, m)), Alpha(Eval(y, m)), nuw, nsw, exact).Good?
    ensures !exact && Checked(o, pc, op, x, y, nuw, nsw)
  {
    hide Exact, Sat, PredSem, BvSem, CBinary, Implied;
    var w := SortOf(x).width;
    var nonzero := Negate(Equal(y, BvVal(0, w)));
    var u: Term, s: Term := CmpTerm(AddNoOverflowU, x, y), CmpTerm(AddNoOverflowS, x, y);
    forall m: Model | Sat(pc, m)
      ensures !exact && (nuw || nsw ==> op.Add?)
      ensures nuw ==> Holds(u, m)
      ensures nsw ==> Holds(s, m)
      ensures op.UDiv? || op.SDiv? || op.URem? || op.SRem? ==> Holds(nonzero, m)
    {
      BvOperand(x, m);
      BvOperand(y, m);
      ChecksHold(op, w, Num(Eval(x, m)), Num(Eval(y, m)), nuw, nsw, exact);
      CmpNode(AddNoOverflowU, x, y, m);
      CmpNode(AddNoOverflowS, x, y, m);
    }
    var m0: Model :| Sat(pc, m0);
    if nuw { Proved(o, pc, u); }
    if nsw { Proved(o, pc, s); }
    if op.UDiv? || op.SDiv? || op.URem? || op.SRem? { Proved(o, pc, nonzero); }
  }

  lemma {:induction false} Proved(o: Oracle, pc: seq<Term>, t: Term)
    requires Exact(o) && SortOf(t) == SBool && forall m: Model :: Sat(pc, m) ==> Holds(t, m)
    ensures Implied(o, pc, t)
  {
    hide Sat, Holds;
    assert Follows(pc, t);
  }

  lemma {:induction false} ChecksHold(op: BvOp, w: nat, x: nat, y: nat, nuw: bool, nsw: bool, exact: bool)
    requires CBinary(ByEvaluator, op, CNum(w, x), CNum(w, y), nuw, nsw, exact).Good?
    ensures !exact && (nuw || nsw ==> op.Add?)
    ensures nuw ==> PredSem(AddNoOverflowU, w, x, y)
    ensures nsw ==> PredSem(AddNoOverflowS, w, x, y)
    ensures op.UDiv? || op.SDiv? || op.URem? || op.SRem? ==> y != 0
  {
    hide PredSem, BvSem;
  }

  lemma {:induction false} BinaryEnds(o: Oracle, pc: seq<Term>, st: SymState, objs: map<string, IType>,
                                      G: map<string, Ty>, L: map<string, Ty>, pred: Option<string>, pos: Position,
                                      op: BvOp, a: Operand, b: Operand, nuw: bool, nsw: bool, exact: bool, t: Ty,
                                      cs: Model -> CState)
    requires Exact(o) && Live(pc) && StateFits(o, objs, G, L, st) && Covers(pc, st, cs)
    requires var rhs := Binary(op, a, b, nuw, nsw, exact); RhsOk(G, L, rhs, t) && RhsEnds(pc, pred, pos, rhs, cs)
    ensures RhsDone(o, objs, objs, st, pos, SRhs(o, pc, st, pred, pos, Binary(op, a, b, nuw, nsw, exact)), t)
  {
    hide Exact, Sat, StateFits, SBinary, CBinary, SOperand, ValFits, OperandTy, MemFits, Rel, CRhs, BinaryOk;
    StateParts(o, objs, G, L, st);
    SameObjects(objs, pos);
    forall m: Model | Sat(pc, m)
      ensures SOperand(st, a).Some? && SOperand(st, b).Some?
      ensures ValFits(o, objs, SOperand(st, a).value, OperandTy(G, L, a).value)
      ensures ValFits(o, objs, SOperand(st, b).value, OperandTy(G, L, b).value)
      ensures CBinary(ByEvaluator, op, Sem(SOperand(st, a).value, m), Sem(SOperand(st, b).value, m), nuw, nsw,
                      exact).Good?
    {
      BinaryOperands(o, st, objs, G, L, pred, pos, op, a, b, nuw, nsw, exact, m, cs(m));
    }
    var m0: Model :| Sat(pc, m0);
    BinaryTerms(o, pc, objs, op, SOperand(st, a).value, SOperand(st, b).value, nuw, nsw, exact,
                OperandTy(G, L, a).value, OperandTy(G, L, b).value, t);
  }

  lemma {:induction false} BinaryOperands(o: Oracle, st: SymState, objs: map<string, IType>, G: map<string, Ty>,
                                          L: map<string, Ty>, pred: Option<string>, pos: Position, op: BvOp, a: Operand,
                                          b: Operand, nuw: bool, nsw: bool, exact: bool, m: Model, cs: CState)
    requires StateFits(o, objs, G, L, st) && Rel(st, m, cs) && OperandTy(G, L, a).Some? && OperandTy(G, L, b).Some?
    requires CRhs(Evaluated(m), cs, pred, pos, Binary(op, a, b, nuw, nsw, exact)).Good?
    ensures SOperand(st, a).Some? && SOperand(st, b).Some?
    ensures ValFits(o, objs, SOperand(st, a).value, OperandTy(G, L, a).value)
    ensures ValFits(o, objs, SOperand(st, b).value, OperandTy(G, L, b).value)
    ensures CBinary(ByEvaluator, op, Sem(SOperand(st, a).value, m), Sem(SOperand(st, b).value, m), nuw, nsw,
                    exact).Good?
  {
    hide StateFits, Rel, CBinary, COperand, SOperand, ValFits, OperandTy;
    OperandFinishes(o, objs, G, L, st, a, m, cs);
    OperandFinishes(o, objs, G, L, st, b, m, cs);
  }

  lemma {:induction false} StateParts(o: Oracle, objs: map<string, IType>, G: map<string, Ty>, L: map<string, Ty>,
                                      st: SymState)
    requires StateFits(o, objs, G, L, st)
    ensures MemFits(st.refs, objs) && st.locals != []
  {
  }

  lemma {:induction false} BinaryTerms(o: Oracle, pc: seq<Term>, objs: map<string, IType>, op: BvOp, x: SVal, y: SVal,
                                       nuw: bool, nsw: bool, exact: bool, a: Ty, b: Ty, t: Ty)
    requires Exact(o) && Live(pc) && BinaryOk(op, a, b, t) && ValFits(o, objs, x, a) && ValFits(o, objs, y, b)
    requires forall m: Model :: Sat(pc, m) ==> CBinary(ByEvaluator, op, Sem(x, m), Sem(y, m), nuw, nsw, exact).Good?
    ensures x.STerm? && y.STerm?
    ensures var r := SBinary(o, pc, op, x.t, y.t, nuw, nsw, exact);
            r.Some? && ValFits(o, objs, STerm(r.value), t)
  {
    hide Exact, Sat, SBinary, CBinary, PointerFits, Eval, Checked;
    ExactIsSound(o);
    if a.TyBv? && b == a && t == a {
      ChecksProved(o, pc, op, x.t, y.t, nuw, nsw, exact);
      BinaryFinishes(o, pc, op, x.t, y.t, nuw, nsw);
    } else {
      LogicFinishes(o, pc, op, x.t, y.t);
      var m0: Model :| Sat(pc, m0);
      NoFlags(op, Sem(x, m0), Sem(y, m0), nuw, nsw, exact);
    }
  }

  lemma {:induction false} NoFlags(op: BvOp, x: CVal, y: CVal, nuw: bool, nsw: bool, exact: bool)
    requires CBinary(ByEvaluator, op, x, y, nuw, nsw, exact).Good? && !op.Add?
    ensures !nuw && !nsw && !exact
  {
    hide PredSem, BvSem;
  }

  lemma {:induction false} CompareEnds(o: Oracle, pc: seq<Term>, st: SymState, objs: map<string, IType>,
                                       G: map<string, Ty>, L: map<string, Ty>, pred: Option<string>, pos: Position,
                                       cmp: ICmp, a: Operand, b: Operand, t: Ty, cs: Model -> CState)
    requires Exact(o) && Live(pc) && StateFits(o, objs, G, L, st) && Covers(pc, st, cs)
    requires RhsOk(G, L, Compare(cmp, a, b), t) && RhsEnds(pc, pred, pos, Compare(cmp, a, b), cs)
    ensures RhsDone(o, objs, objs, st, pos, SRhs(o, pc, st, pred, pos, Compare(cmp, a, b)), t)
  {
    hide Exact, Sat, StateFits, Rel, COperand, SOperand, OperandTy, MemFits, CCompare, SCompare, PointerFits, Eval;
    StateParts(o, objs, G, L, st);
    SameObjects(objs, pos);
    var m: Model :| Sat(pc, m);
    assert CRhs(Evaluated(m), cs(m), pred, pos, Compare(cmp, a, b)).Good?;
    OperandFinishes(o, objs, G, L, st, a, m, cs(m));
    OperandFinishes(o, objs, G, L, st, b, m, cs(m));
    CompareFinishes(cmp, SOperand(st, a).value.t, SOperand(st, b).value.t);
  }

  lemma {:induction false} ConvertEnds(o: Oracle, pc: seq<Term>, st: SymState, objs: map<string, IType>,
                                       G: map<string, Ty>, L: map<string, Ty>, pred: Option<string>, pos: Position,
                                       cast: Cast, a: Operand, w: nat, t: Ty, cs: Model -> CState)
    requires Exact(o) && Live(pc) && StateFits(o, objs, G, L, st) && Covers(pc, st, cs)
    requires RhsOk(G, L, Convert(cast, a, w), t) && RhsEnds(pc, pred, pos, Convert(cast, a, w), cs)
    ensures RhsDone(o, objs, objs, st, pos, SRhs(o, pc, st, pred, pos, Convert(cast, a, w)), t)
  {
    hide Exact, Sat, StateFits, Rel, COperand, SOperand, OperandTy, MemFits, CConvert, SConvert, PointerFits, Eval;
    StateParts(o, objs, G, L, st);
    SameObjects(objs, pos);
    var m: Model :| Sat(pc, m);
    assert CRhs(Evaluated(m), cs(m), pred, pos, Convert(cast, a, w)).Good?;
    OperandFinishes(o, objs, G, L, st, a, m, cs(m));
    ExactIsSound(o);
    ConvertFinishes(o, cast, SOperand(st, a).value.t, w);
  }

  lemma {:induction false} SelectEnds(o: Oracle, pc: seq<Term>, st: SymState, objs: map<string, IType>,
                                      G: map<string, Ty>, L: map<string, Ty>, pred: Option<string>, pos: Position,
                                      c: Operand, a: Operand, b: Operand, t: Ty, cs: Model -> CState)
    requires Exact(o) && Live(pc) && StateFits(o, objs, G, L, st) && Covers(pc, st, cs)
    requires RhsOk(G, L, Select(c, a, b), t) && RhsEnds(pc, pred, pos, Select(c, a, b), cs)
    ensures RhsDone(o, objs, objs, st, pos, SRhs(o, pc, st, pred, pos, Select(c, a, b)), t)
  {
    hide Exact, Sat, StateFits, Rel, COperand, SOperand, OperandTy, MemFits, CSelect, IfVal, PointerFits, Eval;
    StateParts(o, objs, G, L, st);
    SameObjects(objs, pos);
    var m: Model :| Sat(pc, m);
    assert CRhs(Evaluated(m), cs(m), pred, pos, Select(c, a, b)).Good?;
    OperandFinishes(o, objs, G, L, st, c, m, cs(m));
    OperandFinishes(o, objs, G, L, st, a, m, cs(m));
    OperandFinishes(o, objs, G, L, st, b, m, cs(m));
    ExactIsSound(o);
    IfValExact(o, SOperand(st, c).value.t, SOperand(st, a).value, SOperand(st, b).value);
  }

  lemma {:induction false} PhiEnds(o: Oracle, pc: seq<Term>, st: SymState, objs: map<string, IType>, G: map<string, Ty>,
                                   L: map<string, Ty>, pred: Option<string>, pos: Position, cases: map<string, Operand>,
                                   t: Ty, cs: Model -> CState)
    requires Exact(o) && Live(pc) && StateFits(o, objs, G, L, st) && Covers(pc, st, cs)
    requires RhsOk(G, L, Phi(cases), t) && RhsEnds(pc, pred, pos, Phi(cases), cs)
    ensures RhsDone(o, objs, objs, st, pos, SRhs(o, pc, st, pred, pos, Phi(cases)), t)
  {
    hide Exact, Sat, StateFits, Rel, COperand, SOperand, OperandTy, MemFits, ValFits, Below;
    StateParts(o, objs, G, L, st);
    SameObjects(objs, pos);
    var m: Model :| Sat(pc, m);
    assert CRhs(Evaluated(m), cs(m), pred, pos, Phi(cases)).Good?;
    var x := cases[pred.value];
    OperandFinishes(o, objs, G, L, st, x, m, cs(m));
    ValBelow(o, objs, SOperand(st, x).value, OperandTy(G, L, x).value, t);
  }

  /** What a pointer to a number is in bounds for. */
  lemma {:induction false} AccessInBounds(pc: seq<Term>, p: Pointer, cs: Model -> CState)
    requires p.PBase? && forall m: Model :: Sat(pc, m) ==> CAccess(cs(m), CAddr(EvalPointer(p, m))).Good?
    ensures InBounds(p, pc)
  {
    hide Sat;
    forall m: Model | Sat(pc, m) ensures DecodeAddress(EvalPointer(p, m)).Found? {
      assert CAccess(cs(m), CAddr(EvalPointer(p, m))).Good?;
    }
  }

  lemma {:induction false} LoadEnds(o: Oracle, pc: seq<Term>, st: SymState, objs: map<string, IType>,
                                    G: map<string, Ty>, L: map<string, Ty>, pred: Option<string>, pos: Position,
                                    p: Operand, t: Ty, cs: Model -> CState)
    requires Exact(o) && Live(pc) && StateFits(o, objs, G, L, st) && Covers(pc, st, cs)
    requires RhsOk(G, L, Load(p), t) && RhsEnds(pc, pred, pos, Load(p), cs)
    ensures RhsDone(o, objs, objs, st, pos, SRhs(o, pc, st, pred, pos, Load(p)), t)
  {
    hide Exact, Sat, StateFits, Rel, COperand, SOperand, OperandTy, MemFits, PointerFits, Eval, CAccess, Read, Reach,
      Touched;
    StateParts(o, objs, G, L, st);
    SameObjects(objs, pos);
    forall m: Model | Sat(pc, m)
      ensures SOperand(st, p).Some? && ValFits(o, objs, SOperand(st, p).value, OperandTy(G, L, p).value)
      ensures CAccess(cs(m), Sem(SOperand(st, p).value, m)).Good?
    {
      assert CRhs(Evaluated(m), cs(m), pred, pos, Load(p)).Good?;
      OperandFinishes(o, objs, G, L, st, p, m, cs(m));
    }
    var m0: Model :| Sat(pc, m0);
    var v, s := SOperand(st, p).value, OperandTy(G, L, p).value;
    AccessInBounds(pc, v.p, cs);
    ReadExact(o, pc, st.refs, objs, v.p, s.obj, s.path, t.width);
  }

  lemma {:induction false} GetElementEnds(o: Oracle, pc: seq<Term>, st: SymState, objs: map<string, IType>,
                                          G: map<string, Ty>, L: map<string, Ty>, pred: Option<string>, pos: Position,
                                          p: Operand, idx: seq<Operand>, t: Ty, cs: Model -> CState)
    requires Exact(o) && Live(pc) && StateFits(o, objs, G, L, st) && Covers(pc, st, cs)
    requires RhsOk(G, L, GetElement(p, idx), t) && RhsEnds(pc, pred, pos, GetElement(p, idx), cs)
    ensures RhsDone(o, objs, objs, st, pos, SRhs(o, pc, st, pred, pos, GetElement(p, idx)), t)
  {
    hide Exact, Sat, StateFits, Rel, COperand, SOperand, OperandTy, MemFits, PointerFits, Eval, CGetElement, StepPath,
      PathFits, IndicesOf, SOperands, COperands, STerms, Below;
    StateParts(o, objs, G, L, st);
    SameObjects(objs, pos);
    var m: Model :| Sat(pc, m);
    assert CRhs(Evaluated(m), cs(m), pred, pos, GetElement(p, idx)).Good?;
    OperandFinishes(o, objs, G, L, st, p, m, cs(m));
    IndicesFinish(o, objs, G, L, st, idx, m, cs(m));
    var v, s := SOperand(st, p).value, OperandTy(G, L, p).value;
    var ts, ix := STerms(SOperands(st, idx).value).value, IndicesOf(G, L, idx).value;
    PathLength(ts, ix);
    GepFits(o, objs, v.p, s.obj, s.path, ts, ix);
    StepNotEmpty(s.path, ix);
    ValBelow(o, objs, SPtr(Gep(v.p, ts)), TyPtr(s.obj, StepPath(s.path, ix)), t);
  }

  lemma {:induction false} PathLength(ts: seq<Term>, path: seq<Index>)
    requires PathFits(ts, path)
    ensures |ts| == |path|
  {
  }

  lemma {:induction false} StepNotEmpty(path: seq<Index>, idx: seq<Index>)
    requires path != [] && idx != []
    ensures StepPath(path, idx) != []
  {
  }

  lemma {:induction false} AllocaEnds(o: Oracle, pc: seq<Term>, st: SymState, objs: map<string, IType>,
                                      G: map<string, Ty>, L: map<string, Ty>, pred: Option<string>, pos: Position,
                                      itype: IType, t: Ty)
    requires Exact(o) && StateFits(o, objs, G, L, st) && RhsOk(G, L, Alloca(itype), t) && Unused(objs, pos)
    ensures ObjectName(pos) !in objs
    ensures RhsDone(o, objs, objs[ObjectName(pos) := itype], st, pos, SRhs(o, pc, st, pred, pos, Alloca(itype)), t)
  {
    hide Exact, StateFits, MemFits, Eval, Below, Leaves, ObjectName, ComposeGeps;
    StateParts(o, objs, G, L, st);
    var name := ObjectName(pos);
    assert NamedFrom(pos, name);
    var objs' := objs[name := itype];
    AllocaFits(st.refs, objs, name, itype);
    var p := PBase(Reference(name, itype), []);
    OriginFits(o);
    assert PointerFits(o, objs', p, itype, [Known(ORIGIN_VALUE)]);
    ValBelow(o, objs', SPtr(p), TyPtr(itype, [Known(ORIGIN_VALUE)]), t);
  }

  lemma {:induction false} OriginFits(o: Oracle)
    ensures ComposeGeps(o, [ORIGIN], []) == Some([ORIGIN]) && PathFits([ORIGIN], [Known(ORIGIN_VALUE)])
  {
  }

  lemma {:induction false} AllocaFits(refs: Refs, objs: map<string, IType>, name: string, t: IType)
    requires MemFits(refs, objs) && name !in objs
    ensures name !in refs && MemFits(refs[name := FreshObject(name, Leaves(t, 0))], objs[name := t])
  {
    hide Leaves;
  }

  lemma {:induction false} RhsFinishes(o: Oracle, pc: seq<Term>, st: SymState, objs: map<string, IType>,
                                       G: map<string, Ty>, L: map<string, Ty>, pred: Option<string>, pos: Position,
                                       rhs: Rhs, t: Ty, cs: Model -> CState)
    returns (objs': map<string, IType>)
    requires Exact(o) && Live(pc) && StateFits(o, objs, G, L, st) && Covers(pc, st, cs) && !rhs.Call?
    requires RhsOk(G, L, rhs, t) && RhsEnds(pc, pred, pos, rhs, cs) && Unused(objs, pos)
    ensures RhsDone(o, objs, objs', st, pos, SRhs(o, pc, st, pred, pos, rhs), t)
  {
    hide Exact, Live, StateFits, Covers, RhsOk, RhsEnds, RhsDone, Unused, SRhs;
    objs' := objs;
    match rhs
    case Binary(op, a, b, nuw, nsw, exact) =>
      BinaryEnds(o, pc, st, objs, G, L, pred, pos, op, a, b, nuw, nsw, exact, t, cs);
    case Load(p) => LoadEnds(o, pc, st, objs, G, L, pred, pos, p, t, cs);
    case GetElement(p, idx) => GetElementEnds(o, pc, st, objs, G, L, pred, pos, p, idx, t, cs);
    case Alloca(itype) =>
      AllocaEnds(o, pc, st, objs, G, L, pred, pos, itype, t);
      objs' := objs[ObjectName(pos) := itype];
    case Compare(cmp, a, b) => CompareEnds(o, pc, st, objs, G, L, pred, pos, cmp, a, b, t, cs);
    case Convert(cast, a, w) => ConvertEnds(o, pc, st, objs, G, L, pred, pos, cast, a, w, t, cs);
    case Select(c, a, b) => SelectEnds(o, pc, st, objs, G, L, pred, pos, c, a, b, t, cs);
    case Phi(cases) => PhiEnds(o, pc, st, objs, G, L, pred, pos, cases, t, cs);
  }
}
