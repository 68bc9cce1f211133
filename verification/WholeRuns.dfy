/** Whole runs of the symbolic evaluator: libirpy/z3eval.py over the contexts of libirpy/ctx.py.

    A typed program whose concrete runs end under every valuation of the path condition is evaluated to the end by
    an evaluator whose solver proves everything that is true.  The proof follows the evaluation: the state keeps
    the types, the sides that are not pruned are those that some valuation takes, and two finished sides of a
    branch can be joined.
 */
module WholeRuns {
  import opened Options
  import opened Words
  import opened Terms
  import opened References
  import opened Programs
  import opened Oversights
  import opened SymbolicExec
  import opened Soundness
  import opened Typing
  import opened Completeness
  import opened TypedStates
  import opened TypedSteps
  import opened TypedJoins

  /* ---------- concrete runs that end under every valuation ---------- */

  type Family = Model -> CState

  ghost predicate BlockEnds(P: Program, fn: Function, here: string, pred: Option<string>, pos: Position, pc: seq<Term>,
                            cs: Family, fuel: nat)
  {
    forall m: Model :: Sat(pc, m) ==> CBlock(P, Evaluated(m), fn, here, pred, pos, cs(m), fuel).CDone?
  }

  ghost predicate InstrsEnd(P: Program, fn: Function, here: string, pred: Option<string>, pos: Position, k: nat,
                            block: Block, pc: seq<Term>, cs: Family, fuel: nat)
    requires fuel > 0 && k <= |block.instrs|
  {
    forall m: Model :: Sat(pc, m) ==> CInstrs(P, Evaluated(m), fn, here, pred, pos, k, block, cs(m), fuel).CDone?
  }

  ghost predicate InstrEnds(P: Program, pred: Option<string>, pos: Position, i: Instr, pc: seq<Term>, cs: Family,
                            fuel: nat)
    requires fuel > 0
  {
    forall m: Model :: Sat(pc, m) ==> CInstr(P, Evaluated(m), pred, pos, i, cs(m), fuel).CDone?
  }

  ghost predicate CallEnds(P: Program, pos: Position, f: string, args: seq<Operand>, pc: seq<Term>, cs: Family,
                           fuel: nat)
    requires fuel > 0
  {
    forall m: Model :: Sat(pc, m) ==> CCall(P, Evaluated(m), pos, f, args, cs(m), fuel).CDone?
  }

  ghost predicate TermEnds(P: Program, fn: Function, here: string, pos: Position, t: Terminator, pc: seq<Term>,
                           cs: Family, fuel: nat)
    requires fuel > 0
  {
    forall m: Model :: Sat(pc, m) ==> CTerminator(P, Evaluated(m), fn, here, pos, t, cs(m), fuel).CDone?
  }

  ghost predicate BranchEnds(P: Program, fn: Function, here: string, pos: Position, cond: Term, t1: Target, t2: Target,
                             pc: seq<Term>, cs: Family, fuel: nat)
    requires fuel > 0
  {
    forall m: Model :: Sat(pc, m) ==>
      CBranch(P, Evaluated(m), fn, here, pos, Alpha(Eval(cond, m)), t1, t2, cs(m), fuel).CDone?
  }

  ghost predicate TakeEnds(P: Program, fn: Function, here: string, pos: Position, t: Target, pc: seq<Term>, cs: Family,
                           fuel: nat)
    requires fuel > 0
  {
    forall m: Model :: Sat(pc, m) ==> CTake(P, Evaluated(m), fn, here, pos, t, cs(m), fuel).CDone?
  }

  /** The concrete states after an instruction. */
  function AfterInstr(P: Program, pred: Option<string>, pos: Position, i: Instr, cs: Family, fuel: nat): Family
    requires fuel > 0
  {
    (m: Model) => var c := CInstr(P, Evaluated(m), pred, pos, i, cs(m), fuel); if c.CDone? then c.st else cs(m)
  }

  /** The concrete states in a function that is called. */
  function InCall(P: Program, f: string, args: seq<Operand>, cs: Family): Family {
    (m: Model) =>
      var c := COperands(cs(m), args);
      if f in P && c.Good? && |c.value| == |P[f].params|
      then cs(m).(locals := cs(m).locals + [Bind(P[f].params, c.value)]) else cs(m)
  }

  lemma {:induction false} InstrsSplit(P: Program, fn: Function, here: string, pred: Option<string>, pos: Position,
                                       k: nat, block: Block, pc: seq<Term>, cs: Family, fuel: nat)
    requires fuel > 0 && k < |block.instrs| && InstrsEnd(P, fn, here, pred, pos, k, block, pc, cs, fuel)
    ensures InstrEnds(P, pred, pos + [k], block.instrs[k], pc, cs, fuel)
    ensures InstrsEnd(P, fn, here, pred, pos, k + 1, block, pc,
                      AfterInstr(P, pred, pos + [k], block.instrs[k], cs, fuel), fuel)
  {
    hide Sat, CInstr, CTerminator;
    var i := block.instrs[k];
    forall m: Model | Sat(pc, m)
      ensures CInstr(P, Evaluated(m), pred, pos + [k], i, cs(m), fuel).CDone?
      ensures CInstrs(P, Evaluated(m), fn, here, pred, pos, k + 1, block,
                      AfterInstr(P, pred, pos + [k], i, cs, fuel)(m), fuel).CDone?
    {
      assert CInstrs(P, Evaluated(m), fn, here, pred, pos, k, block, cs(m), fuel).CDone?;
    }
  }

  lemma {:induction false} LastInstr(P: Program, fn: Function, here: string, pred: Option<string>, pos: Position,
                                     block: Block, pc: seq<Term>, cs: Family, fuel: nat)
    requires fuel > 0 && InstrsEnd(P, fn, here, pred, pos, |block.instrs|, block, pc, cs, fuel)
    ensures TermEnds(P, fn, here, pos + [|block.instrs|], block.term, pc, cs, fuel)
  {
    hide Sat, CTerminator;
    forall m: Model | Sat(pc, m)
      ensures CTerminator(P, Evaluated(m), fn, here, pos + [|block.instrs|], block.term, cs(m), fuel).CDone?
    {
      assert CInstrs(P, Evaluated(m), fn, here, pred, pos, |block.instrs|, block, cs(m), fuel).CDone?;
    }
  }

  lemma {:induction false} BlockStarts(P: Program, fn: Function, here: string, pred: Option<string>, pos: Position,
                                       pc: seq<Term>, cs: Family, fuel: nat)
    requires Live(pc) && BlockEnds(P, fn, here, pred, pos, pc, cs, fuel)
    ensures fuel > 0 && here in fn.blocks && InstrsEnd(P, fn, here, pred, pos, 0, fn.blocks[here], pc, cs, fuel)
  {
    hide Sat, CInstrs;
    var m0: Model :| Sat(pc, m0);
    assert CBlock(P, Evaluated(m0), fn, here, pred, pos, cs(m0), fuel).CDone?;
    forall m: Model | Sat(pc, m)
      ensures CInstrs(P, Evaluated(m), fn, here, pred, pos, 0, fn.blocks[here], cs(m), fuel).CDone?
    {
      assert CBlock(P, Evaluated(m), fn, here, pred, pos, cs(m), fuel).CDone?;
    }
  }

  /** After a finished instruction the symbolic state still covers the concrete ones. */
  lemma {:induction false} CoversAfter(o: Oracle, P: Program, pred: Option<string>, pos: Position, i: Instr,
                                       pc: seq<Term>, st: SymState, cs: Family, fuel: nat)
    requires Sound(o) && fuel > 0 && Covers(pc, st, cs) && InstrEnds(P, pred, pos, i, pc, cs, fuel)
    requires SInstr(o, P, pred, pos, i, pc, st, fuel).Done?
    ensures Covers(pc, SInstr(o, P, pred, pos, i, pc, st, fuel).st, AfterInstr(P, pred, pos, i, cs, fuel))
  {
    hide Sound, Sat, CInstr, SInstr, Rel;
    forall m: Model | Sat(pc, m)
      ensures Rel(SInstr(o, P, pred, pos, i, pc, st, fuel).st, m, AfterInstr(P, pred, pos, i, cs, fuel)(m))
    {
      assert CInstr(P, Evaluated(m), pred, pos, i, cs(m), fuel).CDone? && Rel(st, m, cs(m));
      InstrSound(o, P, pred, pos, i, pc, st, fuel, m, cs(m));
    }
  }

  /** The call of a function runs its first block. */
  lemma {:induction false} CallStarts(P: Program, pos: Position, f: string, args: seq<Operand>, pc: seq<Term>,
                                      cs: Family, fuel: nat)
    requires fuel > 0 && Live(pc) && CallEnds(P, pos, f, args, pc, cs, fuel)
    ensures f in P
    ensures forall m: Model :: Sat(pc, m) ==>
              COperands(cs(m), args).Good? && |COperands(cs(m), args).value| == |P[f].params|
    ensures BlockEnds(P, P[f], P[f].entry, None, pos, pc, InCall(P, f, args, cs), fuel - 1)
  {
    hide Sat, COperands, CBlock;
    var m0: Model :| Sat(pc, m0);
    assert CCall(P, Evaluated(m0), pos, f, args, cs(m0), fuel).CDone?;
    forall m: Model | Sat(pc, m)
      ensures COperands(cs(m), args).Good? && |COperands(cs(m), args).value| == |P[f].params|
      ensures CBlock(P, Evaluated(m), P[f], P[f].entry, None, pos, InCall(P, f, args, cs)(m), fuel - 1).CDone?
    {
      assert CCall(P, Evaluated(m), pos, f, args, cs(m), fuel).CDone?;
    }
  }

  /** Each side of a branch ends under the valuations that take it. */
  lemma {:induction false} SidesEnd(P: Program, fn: Function, here: string, pos: Position, cond: Term, s: Term, n: Term,
                                    t1: Target, t2: Target, pc: seq<Term>, cs: Family, fuel: nat)
    requires fuel > 0 && BranchEnds(P, fn, here, pos, cond, t1, t2, pc, cs, fuel) && SortOf(cond) == SBool
    requires SortOf(s) == SBool && n == Negate(s) && forall m: Model :: Eval(s, m) == Eval(cond, m)
    ensures TakeEnds(P, fn, here, pos + [0], t1, pc + [s], cs, fuel)
    ensures TakeEnds(P, fn, here, pos + [1], t2, pc + [n], cs, fuel)
  {
    hide Sat, CTake, Eval, Negate;
    forall m: Model | Sat(pc + [s], m) ensures CTake(P, Evaluated(m), fn, here, pos + [0], t1, cs(m), fuel).CDone? {
      SatMore(pc, s, m);
      assert CBranch(P, Evaluated(m), fn, here, pos, Alpha(Eval(cond, m)), t1, t2, cs(m), fuel).CDone?;
    }
    forall m: Model | Sat(pc + [n], m) ensures CTake(P, Evaluated(m), fn, here, pos + [1], t2, cs(m), fuel).CDone? {
      SatMore(pc, n, m);
      assert HasSort(Eval(cond, m), SBool);
      assert CBranch(P, Evaluated(m), fn, here, pos, Alpha(Eval(cond, m)), t1, t2, cs(m), fuel).CDone?;
    }
  }

  lemma {:induction false} SatMore(pc: seq<Term>, t: Term, m: Model)
    ensures Sat(pc + [t], m) <==> Sat(pc, m) && Holds(t, m)
  {
    hide Eval;
    if Sat(pc + [t], m) {
      assert (pc + [t])[|pc|] == t;
      forall i | 0 <= i < |pc| ensures Holds(pc[i], m) { assert (pc + [t])[i] == pc[i]; }
    }
  }

  lemma {:induction false} CoversMore(pc: seq<Term>, t: Term, st: SymState, cs: Family)
    requires Covers(pc, st, cs)
    ensures Covers(pc + [t], st, cs)
  {
    hide Sat, Rel;
    forall m: Model | Sat(pc + [t], m) ensures Rel(st, m, cs(m)) {
      SatMore(pc, t, m);
    }
  }

  /** The sides that are not pruned are those that some valuation takes. */
  lemma {:induction false} LiveSides(o: Oracle, pc: seq<Term>, s: Term, n: Term)
    requires Exact(o) && Live(pc) && SortOf(s) == SBool && n == Negate(s)
    ensures CanBeTrue(o, pc, s) ==> Live(pc + [s])
    ensures CanBeFalse(o, pc, s) ==> Live(pc + [n])
  {
    hide Sat, Eval, Negate;
    if CanBeTrue(o, pc, s) {
      assert !Follows(pc, n);
      var m: Model :| Sat(pc, m) && !Holds(n, m);
      assert HasSort(Eval(s, m), SBool);
      SatMore(pc, s, m);
    }
    if CanBeFalse(o, pc, s) {
      var m := FalseSomewhere(o, pc, s, n);
      SatMore(pc, n, m);
    }
  }

  lemma {:induction false} FalseSomewhere(o: Oracle, pc: seq<Term>, s: Term, n: Term) returns (m: Model)
    requires Exact(o) && Live(pc) && SortOf(s) == SBool && n == Negate(s) && CanBeFalse(o, pc, s)
    ensures Sat(pc, m) && Holds(n, m)
  {
    hide Sat, Negate;
    if CanBeTrue(o, pc, s) {
      assert !Follows(pc, s);
      m :| Sat(pc, m) && !Holds(s, m);
    } else {
      m :| Sat(pc, m);
      if Implied(o, pc, n) { ImpliedHolds(o, pc, n, m); }
    }
    assert HasSort(Eval(s, m), SBool);
  }

  /* ---------- execution ---------- */

  /** What holds before every step: an exact solver, a typed program, a path condition that some valuation meets, and a
      typed state that covers the concrete ones. */
  ghost predicate Ready(o: Oracle, P: Program, S: map<string, Sig>, G: map<string, Ty>, L: map<string, Ty>,
                        objs: map<string, IType>, pc: seq<Term>, st: SymState, cs: Family)
  {
    Exact(o) && ProgramOk(P, S, G) && Live(pc) && StateFits(o, objs, G, L, st) && Covers(pc, st, cs)
  }

  /** An instruction leaves a typed state; globals and the frames below are as they were. */
  ghost predicate InstrDone(o: Oracle, objs: map<string, IType>, objs': map<string, IType>, G: map<string, Ty>,
                            L: map<string, Ty>, st: SymState, pos: Position, r: SRes)
  {
    && r.Done? && StateFits(o, objs', G, L, r.st) && Grows(objs, objs', pos)
    && r.st.globals == st.globals && |r.st.locals| == |st.locals| > 0
    && r.st.locals[..|st.locals| - 1] == st.locals[..|st.locals| - 1]
  }

  /** A call leaves all locals of its caller. */
  ghost predicate CallDone(objs: map<string, IType>, objs': map<string, IType>, result: Option<Ty>, st: SymState,
                           pos: Position, r: SRes)
  {
    && r.Done? && r.st.globals == st.globals && r.st.locals == st.locals && MemFits(r.st.refs, objs')
    && Grows(objs, objs', pos) && ResultFits(r.val, result)
  }

  lemma {:induction false} SetFits(o: Oracle, objs: map<string, IType>, objs': map<string, IType>, G: map<string, Ty>,
                                   L: map<string, Ty>, st: SymState, st': SymState, pos: Position, dst: string, v: SVal)
    requires StateFits(o, objs, G, L, st) && Grows(objs, objs', pos) && dst in L && ValFits(o, objs', v, L[dst])
    requires st'.globals == st.globals && st'.locals == st.locals && MemFits(st'.refs, objs')
    ensures InstrDone(o, objs, objs', G, L, st, pos, SFinish(SSet(st', dst, v)))
  {
    hide ValFits, MemFits, Grows;
    FrameGrows(o, objs, objs', pos, L, STop(st));
    FrameGrows(o, objs, objs', pos, G, st.globals);
  }

  lemma {:induction false} ResultValue(o: Oracle, objs: map<string, IType>, v: SVal, t: Ty)
    requires IsNumber(t)
    ensures KindFits(v, t) <==> ValFits(o, objs, v, t)
  {
  }

  lemma {:induction false} InstrFinishes(o: Oracle, P: Program, S: map<string, Sig>, G: map<string, Ty>,
                                         L: map<string, Ty>, objs: map<string, IType>, pred: Option<string>,
                                         pos: Position, i: Instr, pc: seq<Term>, st: SymState, fuel: nat, cs: Family)
    returns (objs': map<string, IType>)
    requires Ready(o, P, S, G, L, objs, pc, st, cs) && Unused(objs, pos) && fuel > 0 && InstrOk(P, S, G, L, i)
    requires InstrEnds(P, pred, pos, i, pc, cs, fuel)
    ensures InstrDone(o, objs, objs', G, L, st, pos, SInstr(o, P, pred, pos, i, pc, st, fuel))
    decreases fuel, 2, 0
  {
    hide Exact, ProgramOk, Live, StateFits, Covers, Unused, RhsOk, ArgsOk, InstrDone, SFinish, SSet, SRhs, CRhs, Sat,
      ValFits, KindFits, MemFits, Grows, CCall, SOperand, COperand, SStore, CStore, OperandTy, LeadsTo;
    match i
    case Assign(dst, rhs) =>
      if rhs.Call? {
        CalledByInstr(P, pred, pos, i, pc, cs, fuel);
        objs' := CallFinishes(o, P, S, G, L, objs, pos, rhs.fn, rhs.args, pc, st, fuel, cs);
        var r := SCall(o, P, pos, rhs.fn, rhs.args, pc, st, fuel);
        ResultValue(o, objs', r.val.value, L[dst]);
        SetFits(o, objs, objs', G, L, st, r.st, pos, dst, r.val.value);
      } else {
        AssignEnds(P, pred, pos, dst, rhs, pc, cs, fuel);
        objs' := RhsFinishes(o, pc, st, objs, G, L, pred, pos, rhs, L[dst], cs);
        var r := SRhs(o, pc, st, pred, pos, rhs).value;
        SetFits(o, objs, objs', G, L, st, r.0, pos, dst, r.1);
      }
    case CallVoid(f, args) =>
      CalledByInstr(P, pred, pos, i, pc, cs, fuel);
      FunctionKnown(P, S, G, L, f, args);
      objs' := CallFinishes(o, P, S, G, L, objs, pos, f, args, pc, st, fuel, cs);
      CalledFits(o, objs, objs', G, L, st, pos, S[f].result, SCall(o, P, pos, f, args, pc, st, fuel));
    case Store(x, p) =>
      objs' := objs;
      StoreFinishes(o, P, S, G, L, objs, pred, pos, x, p, pc, st, fuel, cs);
  }

  lemma {:induction false} FunctionKnown(P: Program, S: map<string, Sig>, G: map<string, Ty>, L: map<string, Ty>,
                                         f: string, args: seq<Operand>)
    requires ArgsOk(P, S, G, L, f, args)
    ensures f in P && f in S
  {
  }

  lemma {:induction false} CalledByInstr(P: Program, pred: Option<string>, pos: Position, i: Instr, pc: seq<Term>,
                                         cs: Family, fuel: nat)
    requires fuel > 0 && InstrEnds(P, pred, pos, i, pc, cs, fuel) && (i.CallVoid? || (i.Assign? && i.rhs.Call?))
    ensures var f, args := if i.CallVoid? then i.fn else i.rhs.fn, if i.CallVoid? then i.args else i.rhs.args;
            CallEnds(P, pos, f, args, pc, cs, fuel)
  {
    hide Sat, CCall;
    var f, args := if i.CallVoid? then i.fn else i.rhs.fn, if i.CallVoid? then i.args else i.rhs.args;
    forall m: Model | Sat(pc, m) ensures CCall(P, Evaluated(m), pos, f, args, cs(m), fuel).CDone? {
      assert CInstr(P, Evaluated(m), pred, pos, i, cs(m), fuel).CDone?;
    }
  }

  lemma {:induction false} AssignEnds(P: Program, pred: Option<string>, pos: Position, dst: string, rhs: Rhs,
                                      pc: seq<Term>, cs: Family, fuel: nat)
    requires fuel > 0 && !rhs.Call? && InstrEnds(P, pred, pos, Assign(dst, rhs), pc, cs, fuel)
    ensures RhsEnds(pc, pred, pos, rhs, cs)
  {
    hide Sat, CRhs;
    forall m: Model | Sat(pc, m) ensures CRhs(Evaluated(m), cs(m), pred, pos, rhs).Good? {
      assert CInstr(P, Evaluated(m), pred, pos, Assign(dst, rhs), cs(m), fuel).CDone?;
    }
  }

  lemma {:induction false} CalledFits(o: Oracle, objs: map<string, IType>, objs': map<string, IType>,
                                      G: map<string, Ty>, L: map<string, Ty>, st: SymState, pos: Position,
                                      result: Option<Ty>, r: SRes)
    requires StateFits(o, objs, G, L, st) && CallDone(objs, objs', result, st, pos, r)
    ensures InstrDone(o, objs, objs', G, L, st, pos, r)
  {
    hide ValFits, MemFits, Grows;
    FrameGrows(o, objs, objs', pos, L, STop(st));
    FrameGrows(o, objs, objs', pos, G, st.globals);
  }

  lemma {:induction false} StoreFinishes(o: Oracle, P: Program, S: map<string, Sig>, G: map<string, Ty>,
                                         L: map<string, Ty>, objs: map<string, IType>, pred: Option<string>,
                                         pos: Position, x: Operand, p: Operand, pc: seq<Term>, st: SymState, fuel: nat,
                                         cs: Family)
    requires Ready(o, P, S, G, L, objs, pc, st, cs) && fuel > 0 && InstrOk(P, S, G, L, Store(x, p))
    requires InstrEnds(P, pred, pos, Store(x, p), pc, cs, fuel)
    ensures InstrDone(o, objs, objs, G, L, st, pos, SInstr(o, P, pred, pos, Store(x, p), pc, st, fuel))
  {
    hide Exact, ProgramOk, StateFits, Sat, SOperand, COperand, OperandTy, MemFits, PointerFits, Eval, CAccess, Write,
      Touched, Rel, Reach;
    forall m: Model | Sat(pc, m)
      ensures SOperand(st, p).Some? && ValFits(o, objs, SOperand(st, p).value, OperandTy(G, L, p).value)
      ensures SOperand(st, x).Some? && ValFits(o, objs, SOperand(st, x).value, OperandTy(G, L, x).value)
      ensures CAccess(cs(m), Sem(SOperand(st, p).value, m)).Good?
    {
      assert CInstr(P, Evaluated(m), pred, pos, Store(x, p), cs(m), fuel).CDone?;
      StoreOperands(P, pred, pos, x, p, cs(m), m, fuel);
      OperandFinishes(o, objs, G, L, st, p, m, cs(m));
      OperandFinishes(o, objs, G, L, st, x, m, cs(m));
    }
    var m0: Model :| Sat(pc, m0);
    var v, a, s := SOperand(st, x).value, SOperand(st, p).value, OperandTy(G, L, p).value;
    AccessInBounds(pc, a.p, cs);
    StateParts(o, objs, G, L, st);
    WriteExact(o, pc, st.refs, objs, a.p, s.obj, s.path, v.t, OperandTy(G, L, x).value.width);
    var refs' := Write(o, pc, st.refs, a.p, v.t).value;
    RefsReplaced(o, objs, G, L, st, refs', st.accessed + Touched(a.p), pos);
  }

  lemma {:induction false} RefsReplaced(o: Oracle, objs: map<string, IType>, G: map<string, Ty>, L: map<string, Ty>,
                                        st: SymState, refs': Refs, accessed': set<string>, pos: Position)
    requires StateFits(o, objs, G, L, st) && MemFits(refs', objs)
    ensures InstrDone(o, objs, objs, G, L, st, pos, Done(st.(refs := refs', accessed := accessed'), None))
  {
    hide ValFits, MemFits;
  }

  lemma {:induction false} StoreOperands(P: Program, pred: Option<string>, pos: Position, x: Operand, p: Operand,
                                         cs: CState, m: Model, fuel: nat)
    requires fuel > 0 && CInstr(P, Evaluated(m), pred, pos, Store(x, p), cs, fuel).CDone?
    ensures COperand(cs, x).Good? && COperand(cs, p).Good? && CAccess(cs, COperand(cs, p).value).Good?
  {
    hide COperand, CAccess;
  }

  /** A call finishes, and leaves nothing of its frame. */
  lemma {:induction false} CallFinishes(o: Oracle, P: Program, S: map<string, Sig>, G: map<string, Ty>,
                                        L: map<string, Ty>, objs: map<string, IType>, pos: Position, f: string,
                                        args: seq<Operand>, pc: seq<Term>, st: SymState, fuel: nat, cs: Family)
    returns (objs': map<string, IType>)
    requires Ready(o, P, S, G, L, objs, pc, st, cs) && Unused(objs, pos) && fuel > 0 && ArgsOk(P, S, G, L, f, args)
    requires CallEnds(P, pos, f, args, pc, cs, fuel)
    ensures CallDone(objs, objs', S[f].result, st, pos, SCall(o, P, pos, f, args, pc, st, fuel))
    decreases fuel, 1, 0
  {
    hide Exact, Live, StateFits, Covers, Unused, Sat, MemFits, Grows, FunctionOk, SBlock, CBlock, FrameKinds,
      ResultFits,
      SOperands;
    CallStarts(P, pos, f, args, pc, cs, fuel);
    CalleeReady(o, P, S, G, L, objs, pos, f, args, pc, st, cs);
    var st1 := st.(locals := st.locals + [Bind(P[f].params, SOperands(st, args).value)]);
    objs' := BlockFinishes(o, P, S, G, S[f], objs, P[f], P[f].entry, None, pos, pc, st1, fuel - 1,
                           InCall(P, f, args, cs));
    var r := SBlock(o, P, P[f], P[f].entry, None, pos, pc, st1, fuel - 1);
    assert st1.locals[..|st1.locals| - 1] == st.locals;
  }

  lemma {:induction false} CalleeReady(o: Oracle, P: Program, S: map<string, Sig>, G: map<string, Ty>,
                                       L: map<string, Ty>, objs: map<string, IType>, pos: Position, f: string,
                                       args: seq<Operand>, pc: seq<Term>, st: SymState, cs: Family)
    requires Ready(o, P, S, G, L, objs, pc, st, cs) && ArgsOk(P, S, G, L, f, args)
    requires forall m: Model :: Sat(pc, m) ==>
               COperands(cs(m), args).Good? && |COperands(cs(m), args).value| == |P[f].params|
    ensures SOperands(st, args).Some? && |SOperands(st, args).value| == |P[f].params|
    ensures var st1 := st.(locals := st.locals + [Bind(P[f].params, SOperands(st, args).value)]);
            Ready(o, P, S, G, S[f].locals, objs, pc, st1, InCall(P, f, args, cs))
  {
    hide Exact, ProgramOk, StateFits, Sat, MemFits, ValFits, Below, OperandTy, COperands, SOperands, Rel;
    var m0: Model :| Sat(pc, m0);
    ArgsFinish(o, objs, G, L, st, args, m0, cs(m0));
    var params, vs := P[f].params, SOperands(st, args).value;
    forall i | 0 <= i < |vs| ensures ValFits(o, objs, vs[i], S[f].locals[params[i]]) {
      ValBelow(o, objs, vs[i], OperandTy(G, L, args[i]).value, S[f].locals[params[i]]);
    }
    BindFits(o, objs, S[f].locals, params, vs);
    FramePushed(o, objs, G, L, S[f].locals, st, Bind(params, vs));
    var st1 := st.(locals := st.locals + [Bind(params, vs)]);
    forall m: Model | Sat(pc, m) ensures Rel(st1, m, InCall(P, f, args, cs)(m)) {
      ArgsFinish(o, objs, G, L, st, args, m, cs(m));
      BindSound(params, vs, COperands(cs(m), args).value, m);
      PushFrameSound(st, m, cs(m), Bind(params, vs), Bind(params, COperands(cs(m), args).value));
    }
  }

  lemma {:induction false} FramePushed(o: Oracle, objs: map<string, IType>, G: map<string, Ty>, L: map<string, Ty>,
                                       L': map<string, Ty>, st: SymState, fr: map<string, SVal>)
    requires StateFits(o, objs, G, L, st) && FrameFits(o, objs, L', fr)
    ensures StateFits(o, objs, G, L', st.(locals := st.locals + [fr]))
  {
    hide ValFits, MemFits;
  }

  lemma {:induction false} BlockFinishes(o: Oracle, P: Program, S: map<string, Sig>, G: map<string, Ty>, sig: Sig,
                                         objs: map<string, IType>, fn: Function, here: string, pred: Option<string>,
                                         pos: Position, pc: seq<Term>, st: SymState, fuel: nat, cs: Family)
    returns (objs': map<string, IType>)
    requires Ready(o, P, S, G, sig.locals, objs, pc, st, cs) && FunctionOk(P, S, G, fn, sig) && Unused(objs, pos)
    requires BlockEnds(P, fn, here, pred, pos, pc, cs, fuel)
    ensures RunDone(objs, objs', sig.locals, sig.result, st, pos, SBlock(o, P, fn, here, pred, pos, pc, st, fuel))
    decreases fuel, 4, 0
  {
    hide Exact, Live, StateFits, Covers, Unused, RunDone, Sat, SInstrs, BlockOk;
    BlockStarts(P, fn, here, pred, pos, pc, cs, fuel);
    UnusedStart(objs, pos);
    objs' := InstrsFinish(o, P, S, G, sig, objs, fn, here, pred, pos, 0, fn.blocks[here], pc, st, fuel, cs);
  }

  lemma {:induction false} InstrsFinish(o: Oracle, P: Program, S: map<string, Sig>, G: map<string, Ty>, sig: Sig,
                                        objs: map<string, IType>, fn: Function, here: string, pred: Option<string>,
                                        pos: Position, k: nat, block: Block, pc: seq<Term>, st: SymState, fuel: nat,
                                        cs: Family)
    returns (objs': map<string, IType>)
    requires Ready(o, P, S, G, sig.locals, objs, pc, st, cs) && FunctionOk(P, S, G, fn, sig)
    requires fuel > 0 && k <= |block.instrs| && BlockOk(P, S, G, block, sig) && UnusedFrom(objs, pos, k)
    requires InstrsEnd(P, fn, here, pred, pos, k, block, pc, cs, fuel)
    ensures RunDone(objs, objs', sig.locals, sig.result, st, pos,
                    SInstrs(o, P, fn, here, pred, pos, k, block, pc, st, fuel))
    decreases fuel, 3, |block.instrs| - k
  {
    hide Exact, Live, StateFits, Covers, Unused, RunDone, InstrDone, Sat, InstrOk, TermOk, STerminator, SInstr,
      FunctionOk, InstrEnds, InstrsEnd, AfterInstr;
    if k == |block.instrs| {
      LastInstr(P, fn, here, pred, pos, block, pc, cs, fuel);
      objs' := TermFinishes(o, P, S, G, sig, objs, fn, here, pos + [k], block.term, pc, st, fuel, cs);
      RunBelow(objs, objs', sig.locals, sig.result, st, pos, pos + [k],
               STerminator(o, P, fn, here, pos + [k], block.term, pc, st, fuel));
    } else {
      var i := block.instrs[k];
      InstrsSplit(P, fn, here, pred, pos, k, block, pc, cs, fuel);
      var objs1 := InstrFinishes(o, P, S, G, sig.locals, objs, pred, pos + [k], i, pc, st, fuel, cs);
      var r := SInstr(o, P, pred, pos + [k], i, pc, st, fuel);
      var cs1 := AfterInstr(P, pred, pos + [k], i, cs, fuel);
      InstrParts(o, objs, objs1, G, sig.locals, st, pos + [k], r);
      ExactIsSound(o);
      CoversAfter(o, P, pred, pos + [k], i, pc, st, cs, fuel);
      UnusedNext(objs, objs1, pos, k);
      objs' := InstrsFinish(o, P, S, G, sig, objs1, fn, here, pred, pos, k + 1, block, pc, r.st, fuel, cs1);
      RunAfter(o, objs, objs1, objs', G, sig, st, pos, k, r,
               SInstrs(o, P, fn, here, pred, pos, k + 1, block, pc, r.st, fuel));
    }
  }

  lemma {:induction false} InstrParts(o: Oracle, objs: map<string, IType>, objs1: map<string, IType>,
                                      G: map<string, Ty>, L: map<string, Ty>, st: SymState, pos: Position, r: SRes)
    requires InstrDone(o, objs, objs1, G, L, st, pos, r)
    ensures r.Done? && StateFits(o, objs1, G, L, r.st) && Grows(objs, objs1, pos)
  {
  }

  lemma {:induction false} RunAfter(o: Oracle, objs: map<string, IType>, objs1: map<string, IType>,
                                    objs': map<string, IType>, G: map<string, Ty>, sig: Sig, st: SymState,
                                    pos: Position, k: nat, r: SRes, r': SRes)
    requires InstrDone(o, objs, objs1, G, sig.locals, st, pos + [k], r)
    requires RunDone(objs1, objs', sig.locals, sig.result, r.st, pos, r')
    ensures RunDone(objs, objs', sig.locals, sig.result, st, pos, r')
  {
    hide StateFits, FrameKinds, MemFits, ResultFits, Grows;
    GrowsBelow(objs, objs1, pos, pos + [k]);
    GrowsTwice(objs, objs1, objs', pos, pos);
  }

  /** The end of a function. */
  lemma {:induction false} ReturnFinishes(o: Oracle, G: map<string, Ty>, sig: Sig, objs: map<string, IType>,
                                          pos: Position, st: SymState, v: Option<SVal>)
    requires StateFits(o, objs, G, sig.locals, st) && ResultFits(v, sig.result)
    ensures RunDone(objs, objs, sig.locals, sig.result, st, pos, Done(st, v))
  {
    hide ValFits, MemFits;
    KindOf(o, objs, sig.locals, STop(st));
    SameObjects(objs, pos);
  }

  lemma {:induction false} TermFinishes(o: Oracle, P: Program, S: map<string, Sig>, G: map<string, Ty>, sig: Sig,
                                        objs: map<string, IType>, fn: Function, here: string, pos: Position,
                                        t: Terminator, pc: seq<Term>, st: SymState, fuel: nat, cs: Family)
    returns (objs': map<string, IType>)
    requires Ready(o, P, S, G, sig.locals, objs, pc, st, cs) && FunctionOk(P, S, G, fn, sig) && Unused(objs, pos)
    requires fuel > 0 && TermOk(G, sig, t) && TermEnds(P, fn, here, pos, t, pc, cs, fuel)
    ensures RunDone(objs, objs', sig.locals, sig.result, st, pos, STerminator(o, P, fn, here, pos, t, pc, st, fuel))
    decreases fuel, 2, 0
  {
    hide Exact, ProgramOk, StateFits, Unused, RunDone, Sat, SOperand, COperand, OperandTy, SBlock, CBlock, SBranch,
      CBranch, STake, CTake, CasesOk, PointerFits, Rel, BlockOk;
    objs' := objs;
    var m0: Model :| Sat(pc, m0);
    assert CTerminator(P, Evaluated(m0), fn, here, pos, t, cs(m0), fuel).CDone?;
    match t
    case Return(None) => ReturnFinishes(o, G, sig, objs, pos, st, None);
    case Return(Some(x)) =>
      OperandFinishes(o, objs, G, sig.locals, st, x, m0, cs(m0));
      ResultValue(o, objs, SOperand(st, x).value, sig.result.value);
      ReturnFinishes(o, G, sig, objs, pos, st, SOperand(st, x));
    case Jump(l) =>
      JumpEnds(P, fn, here, pos, l, pc, cs, fuel);
      objs' := BlockFinishes(o, P, S, G, sig, objs, fn, l, Some(here), pos, pc, st, fuel - 1, cs);
    case Branch(c, l1, l2) =>
      OperandFinishes(o, objs, G, sig.locals, st, c, m0, cs(m0));
      ConditionalEnds(o, objs, G, sig, P, fn, here, pos, c, l1, l2, pc, st, cs, fuel);
      objs' := BranchEndsWell(o, P, S, G, sig, objs, fn, here, pos, SOperand(st, c).value.t, Goto(l1), Goto(l2), pc, st,
                              fuel, cs);
    case Switch(x, default, cases) =>
      SwitchedOn(G, sig.locals, x, cases);
      OperandFinishes(o, objs, G, sig.locals, st, x, m0, cs(m0));
      SwitchEnds(P, fn, here, pos, x, default, cases, pc, cs, fuel);
      objs' := TakeFinishes(o, P, S, G, sig, objs, fn, here, pos, Cases(x, default, cases), pc, st, fuel, cs);
    case Unreachable =>
  }

  lemma {:induction false} SwitchedOn(G: map<string, Ty>, L: map<string, Ty>, x: Operand, cases: seq<(Operand, string)>)
    requires CasesOk(G, L, x, cases)
    ensures OperandTy(G, L, x).Some?
  {
  }

  lemma {:induction false} JumpEnds(P: Program, fn: Function, here: string, pos: Position, l: string, pc: seq<Term>,
                                    cs: Family, fuel: nat)
    requires fuel > 0 && TermEnds(P, fn, here, pos, Jump(l), pc, cs, fuel)
    ensures BlockEnds(P, fn, l, Some(here), pos, pc, cs, fuel - 1)
  {
    hide Sat, CBlock;
    forall m: Model | Sat(pc, m) ensures CBlock(P, Evaluated(m), fn, l, Some(here), pos, cs(m), fuel - 1).CDone? {
      assert CTerminator(P, Evaluated(m), fn, here, pos, Jump(l), cs(m), fuel).CDone?;
    }
  }

  lemma {:induction false} SwitchEnds(P: Program, fn: Function, here: string, pos: Position, x: Operand,
                                      default: string, cases: seq<(Operand, string)>, pc: seq<Term>, cs: Family,
                                      fuel: nat)
    requires fuel > 0 && TermEnds(P, fn, here, pos, Switch(x, default, cases), pc, cs, fuel)
    ensures TakeEnds(P, fn, here, pos, Cases(x, default, cases), pc, cs, fuel)
  {
    hide Sat, CTake, COperand;
    forall m: Model | Sat(pc, m)
      ensures CTake(P, Evaluated(m), fn, here, pos, Cases(x, default, cases), cs(m), fuel).CDone?
    {
      assert CTerminator(P, Evaluated(m), fn, here, pos, Switch(x, default, cases), cs(m), fuel).CDone?;
    }
  }

  lemma {:induction false} ConditionalEnds(o: Oracle, objs: map<string, IType>, G: map<string, Ty>, sig: Sig,
                                           P: Program, fn: Function, here: string, pos: Position, c: Operand,
                                           l1: string, l2: string, pc: seq<Term>, st: SymState, cs: Family, fuel: nat)
    requires StateFits(o, objs, G, sig.locals, st) && Covers(pc, st, cs)
    requires OperandTy(G, sig.locals, c) == Some(TyBool) && SOperand(st, c).Some? && SOperand(st, c).value.STerm?
    requires fuel > 0 && TermEnds(P, fn, here, pos, Branch(c, l1, l2), pc, cs, fuel)
    ensures BranchEnds(P, fn, here, pos, SOperand(st, c).value.t, Goto(l1), Goto(l2), pc, cs, fuel)
  {
    hide StateFits, Sat, CBranch, COperand, SOperand, OperandTy, Rel, Eval;
    forall m: Model | Sat(pc, m)
      ensures CBranch(P, Evaluated(m), fn, here, pos, Alpha(Eval(SOperand(st, c).value.t, m)), Goto(l1), Goto(l2),
                      cs(m), fuel).CDone?
    {
      assert CTerminator(P, Evaluated(m), fn, here, pos, Branch(c, l1, l2), cs(m), fuel).CDone?;
      OperandFinishes(o, objs, G, sig.locals, st, c, m, cs(m));
    }
  }

  lemma {:induction false} BranchEndsWell(o: Oracle, P: Program, S: map<string, Sig>, G: map<string, Ty>, sig: Sig,
                                          objs: map<string, IType>, fn: Function, here: string, pos: Position,
                                          cond: Term, t1: Target, t2: Target, pc: seq<Term>, st: SymState, fuel: nat,
                                          cs: Family)
    returns (objs': map<string, IType>)
    requires Ready(o, P, S, G, sig.locals, objs, pc, st, cs) && FunctionOk(P, S, G, fn, sig) && Unused(objs, pos)
    requires fuel > 0 && SortOf(cond) == SBool && TargetOk(G, sig.locals, t1) && TargetOk(G, sig.locals, t2)
    requires BranchEnds(P, fn, here, pos, cond, t1, t2, pc, cs, fuel)
    ensures RunDone(objs, objs', sig.locals, sig.result, st, pos,
                    SBranch(o, P, fn, here, pos, cond, t1, t2, pc, st, fuel))
    decreases fuel, 1, Larger(TargetSize(t1), TargetSize(t2)) + 1
  {
    hide Exact, ProgramOk, Live, StateFits, Covers, Unused, Sat, STake, FunctionOk, TargetOk, SBranch, CanBeTrue,
      CanBeFalse, Combine, FrameKinds, MemFits, Grows, ResultFits, Joinable, BranchEnds, TakeEnds, RunDone, Negate;
    ExactIsSound(o);
    Simplified(o, cond);
    var s := o.simplify(cond);
    var n := Negate(s);
    SidesEnd(P, fn, here, pos, cond, s, n, t1, t2, pc, cs, fuel);
    LiveSides(o, pc, s, n);
    var objs1, objs2 := objs, objs;
    var r1 := SideResult(o, P, fn, here, pos, s, 0, t1, pc, st, fuel);
    var r2 := SideResult(o, P, fn, here, pos, n, 1, t2, pc, st, fuel);
    if CanBeTrue(o, pc, s) {
      CoversMore(pc, s, st, cs);
      UnusedBelow(objs, pos, pos + [0]);
      objs1 := TakeFinishes(o, P, S, G, sig, objs, fn, here, pos + [0], t1, pc + [s], st, fuel, cs);
      RunBelow(objs, objs1, sig.locals, sig.result, st, pos, pos + [0], r1);
      RunIsDone(objs, objs1, sig.locals, sig.result, st, pos, r1);
    }
    if CanBeFalse(o, pc, s) {
      CoversMore(pc, n, st, cs);
      UnusedBelow(objs, pos, pos + [1]);
      objs2 := TakeFinishes(o, P, S, G, sig, objs, fn, here, pos + [1], t2, pc + [n], st, fuel, cs);
      RunBelow(objs, objs2, sig.locals, sig.result, st, pos, pos + [1], r2);
      RunIsDone(objs, objs2, sig.locals, sig.result, st, pos, r2);
    }
    SomeSide(o, pc, s);
    if CanBeTrue(o, pc, s) && CanBeFalse(o, pc, s) {
      JoinRuns(o, objs, objs1, objs2, sig.locals, sig.result, st, pos, cond, s, r1, r2);
      objs' := objs1 + objs2;
    } else {
      objs' := if CanBeTrue(o, pc, s) then objs1 else objs2;
    }
    BranchFinishes(o, P, fn, here, pos, cond, s, n, t1, t2, pc, st, fuel);
  }

  lemma {:induction false} Simplified(o: Oracle, cond: Term)
    requires Sound(o)
    ensures SortOf(o.simplify(cond)) == SortOf(cond)
    ensures forall m: Model :: Eval(o.simplify(cond), m) == Eval(cond, m)
  {
    hide Eval;
  }

  lemma {:induction false} SomeSide(o: Oracle, pc: seq<Term>, s: Term)
    requires SortOf(s) == SBool
    ensures CanBeTrue(o, pc, s) || CanBeFalse(o, pc, s)
  {
    hide Implied;
  }

  lemma {:induction false} RunIsDone(objs: map<string, IType>, objs': map<string, IType>, L: map<string, Ty>,
                                     result: Option<Ty>, st: SymState, pos: Position, r: SRes)
    requires RunDone(objs, objs', L, result, st, pos, r)
    ensures r.Done?
  {
  }

  lemma {:induction false} TakeFinishes(o: Oracle, P: Program, S: map<string, Sig>, G: map<string, Ty>, sig: Sig,
                                        objs: map<string, IType>, fn: Function, here: string, pos: Position, t: Target,
                                        pc: seq<Term>, st: SymState, fuel: nat, cs: Family)
    returns (objs': map<string, IType>)
    requires Ready(o, P, S, G, sig.locals, objs, pc, st, cs) && FunctionOk(P, S, G, fn, sig) && Unused(objs, pos)
    requires fuel > 0 && TargetOk(G, sig.locals, t) && TakeEnds(P, fn, here, pos, t, pc, cs, fuel)
    ensures RunDone(objs, objs', sig.locals, sig.result, st, pos, STake(o, P, fn, here, pos, t, pc, st, fuel))
    decreases fuel, 1, TargetSize(t)
  {
    hide Exact, ProgramOk, Live, StateFits, Covers, Unused, RunDone, Sat, SBlock, CBlock, SBranch, CBranch, FunctionOk,
      CaseCondition, OperandTy, BlockEnds, BranchEnds;
    match t
    case Goto(l) =>
      GotoEnds(P, fn, here, pos, t, l, pc, cs, fuel);
      objs' := BlockFinishes(o, P, S, G, sig, objs, fn, l, Some(here), pos, pc, st, fuel - 1, cs);
    case Cases(x, default, cases) =>
      if cases == [] {
        GotoEnds(P, fn, here, pos, t, default, pc, cs, fuel);
        objs' := BlockFinishes(o, P, S, G, sig, objs, fn, default, Some(here), pos, pc, st, fuel - 1, cs);
      } else {
        CaseEnds(o, P, G, sig.locals, objs, fn, here, pos, x, default, cases, pc, st, cs, fuel);
        objs' := BranchEndsWell(o, P, S, G, sig, objs, fn, here, pos, CaseCondition(st, x, cases[0].0).value,
                                Goto(cases[0].1), Cases(x, default, cases[1..]), pc, st, fuel, cs);
      }
  }

  lemma {:induction false} GotoEnds(P: Program, fn: Function, here: string, pos: Position, t: Target, l: string,
                                    pc: seq<Term>, cs: Family, fuel: nat)
    requires fuel > 0 && TakeEnds(P, fn, here, pos, t, pc, cs, fuel)
    requires t == Goto(l) || (t.Cases? && t.cases == [] && t.default == l)
    ensures BlockEnds(P, fn, l, Some(here), pos, pc, cs, fuel - 1)
  {
    hide Sat, CBlock;
    forall m: Model | Sat(pc, m) ensures CBlock(P, Evaluated(m), fn, l, Some(here), pos, cs(m), fuel - 1).CDone? {
      assert CTake(P, Evaluated(m), fn, here, pos, t, cs(m), fuel).CDone?;
    }
  }

  /** A case of a switch is a branch on a comparison. */
  lemma {:induction false} CaseEnds(o: Oracle, P: Program, G: map<string, Ty>, L: map<string, Ty>,
                                    objs: map<string, IType>, fn: Function, here: string, pos: Position, x: Operand,
                                    default: string, cases: seq<(Operand, string)>, pc: seq<Term>, st: SymState,
                                    cs: Family, fuel: nat)
    requires Live(pc) && StateFits(o, objs, G, L, st) && Covers(pc, st, cs) && CasesOk(G, L, x, cases) && cases != []
    requires fuel > 0 && TakeEnds(P, fn, here, pos, Cases(x, default, cases), pc, cs, fuel)
    ensures CaseCondition(st, x, cases[0].0).Some? && SortOf(CaseCondition(st, x, cases[0].0).value) == SBool
    ensures BranchEnds(P, fn, here, pos, CaseCondition(st, x, cases[0].0).value, Goto(cases[0].1),
                       Cases(x, default, cases[1..]), pc, cs, fuel)
    ensures CasesOk(G, L, x, cases[1..])
  {
    hide StateFits, Sat, CBranch, COperand, SOperand, OperandTy, Rel, SCompare, CCompare, PointerFits, Eval;
    var y := cases[0].0;
    forall m: Model | Sat(pc, m)
      ensures CaseCondition(st, x, y).Some? && SortOf(CaseCondition(st, x, y).value) == SBool
      ensures CBranch(P, Evaluated(m), fn, here, pos, Alpha(Eval(CaseCondition(st, x, y).value, m)), Goto(cases[0].1),
                      Cases(x, default, cases[1..]), cs(m), fuel).CDone?
    {
      assert CTake(P, Evaluated(m), fn, here, pos, Cases(x, default, cases), cs(m), fuel).CDone?;
      CaseCompared(P, fn, here, pos, x, default, cases, cs(m), m, fuel);
      OperandFinishes(o, objs, G, L, st, x, m, cs(m));
      OperandFinishes(o, objs, G, L, st, y, m, cs(m));
      CompareFinishes(IEq, SOperand(st, x).value.t, SOperand(st, y).value.t);
      CompareSound(IEq, SOperand(st, x).value.t, SOperand(st, y).value.t, m);
    }
    var m0: Model :| Sat(pc, m0);
  }

  lemma {:induction false} CaseCompared(P: Program, fn: Function, here: string, pos: Position, x: Operand,
                                        default: string, cases: seq<(Operand, string)>, cs: CState, m: Model, fuel: nat)
    requires fuel > 0 && cases != [] && CTake(P, Evaluated(m), fn, here, pos, Cases(x, default, cases), cs, fuel).CDone?
    ensures COperand(cs, x).Good? && COperand(cs, cases[0].0).Good?
    ensures var c := CCompare(IEq, COperand(cs, x).value, COperand(cs, cases[0].0).value);
            c.Good? && CBranch(P, Evaluated(m), fn, here, pos, c.value, Goto(cases[0].1),
                               Cases(x, default, cases[1..]), cs, fuel).CDone?
  {
    hide CBranch, COperand, CCompare;
  }

  /* ---------- the theorem ---------- */

  /** The evaluator gets to the end: if under every valuation of the path condition the concrete run of a typed program
      ends, by the language and without one of the three operations in which the evaluator departs from it, then the
      symbolic run, with a solver that proves everything that is true, is finished. */
  lemma {:induction false} EvaluatorFinishes(o: Oracle, P: Program, S: map<string, Sig>, G: map<string, Ty>,
                                             L: map<string, Ty>, objs: map<string, IType>, f: string,
                                             args: seq<Operand>, pos: Position, pc: seq<Term>, st: SymState, fuel: nat,
                                             cs: Family)
    requires Ready(o, P, S, G, L, objs, pc, st, cs) && Unused(objs, pos) && fuel > 0 && ArgsOk(P, S, G, L, f, args)
    requires forall m: Model :: Sat(pc, m) ==>
               && CCall(P, Language(m), pos, f, args, cs(m), fuel).CDone?
               && !Halts(CCall(P, Watchful(m), pos, f, args, cs(m), fuel))
    ensures SCall(o, P, pos, f, args, pc, st, fuel).Done?
  {
    hide CCall, SCall, Ready, Unused, ArgsOk, Sat, Halts;
    forall m: Model | Sat(pc, m) ensures CCall(P, Evaluated(m), pos, f, args, cs(m), fuel).CDone? {
      CallAlike(P, Evaluated(m), pos, f, args, cs(m), fuel);
      CallAlike(P, Language(m), pos, f, args, cs(m), fuel);
    }
    var objs' := CallFinishes(o, P, S, G, L, objs, pos, f, args, pc, st, fuel, cs);
  }

  /** By the rules of the evaluator a typed run is decided: finished if it ends under every valuation, and not
      finished if under one it executes `unreachable`, faults, or does not end in time. */
  lemma {:induction false} EvaluatorDecides(o: Oracle, P: Program, S: map<string, Sig>, G: map<string, Ty>,
                                            L: map<string, Ty>, objs: map<string, IType>, f: string, args: seq<Operand>,
                                            pos: Position, pc: seq<Term>, st: SymState, fuel: nat, cs: Family)
    requires Ready(o, P, S, G, L, objs, pc, st, cs) && Unused(objs, pos) && fuel > 0 && ArgsOk(P, S, G, L, f, args)
    requires forall m: Model :: Sat(pc, m) ==> !Excused(CCall(P, Evaluated(m), pos, f, args, cs(m), fuel))
    ensures SCall(o, P, pos, f, args, pc, st, fuel).Done? <==>
            forall m: Model :: Sat(pc, m) ==> CCall(P, Evaluated(m), pos, f, args, cs(m), fuel).CDone?
  {
    hide CCall, SCall, StateFits, ProgramOk, Unused, ArgsOk, Sat, Rel, Excused;
    if SCall(o, P, pos, f, args, pc, st, fuel).Done? {
      ExactIsSound(o);
      forall m: Model | Sat(pc, m) ensures CCall(P, Evaluated(m), pos, f, args, cs(m), fuel).CDone? {
        CallSound(o, P, pos, f, args, pc, st, fuel, m, cs(m));
      }
    }
    if forall m: Model :: Sat(pc, m) ==> CCall(P, Evaluated(m), pos, f, args, cs(m), fuel).CDone? {
      var objs' := CallFinishes(o, P, S, G, L, objs, pos, f, args, pc, st, fuel, cs);
    }
  }

  /* ---------- a branch on a free boolean ---------- */

  const TWO_WAYS: Function :=
    Function(["c"], "entry",
             map["entry" := Block([], Branch(Local("c"), "yes", "no")),
                 "yes" := Block([], Return(Some(Int(1, 8)))),
                 "no" := Block([], Return(Some(Int(2, 8))))])

  const TWO_WAYS_SIG: Sig := Sig(map["c" := TyBool], Some(TyBv(8)))

  function FreeState(): SymState { SymState(map[], [map["c" := STerm(Sym("c", SBool))]], map[], {}) }

  function FreeStates(): Family {
    (m: Model) =>
      CState(map[], [map["c" := Alpha(Eval(Sym("c", SBool), m))]], (c: Cell) => CNum(0, 0), {}, {})
  }

  lemma {:induction false} TwoWaysEnd(mc: Machine, m: Model)
    ensures CCall(map["f" := TWO_WAYS], mc, [], "f", [Local("c")], FreeStates()(m), 3).CDone?
  {
    Pow2Values();
    hide Pow2;
    var cs := FreeStates()(m);
    var v := cs.locals[0]["c"];
    assert HasSort(Eval(Sym("c", SBool), m), SBool);
    assert COperand(cs, Local("c")) == Good(v) && [Local("c")][1..] == [];
    assert COperands(cs, []) == Good([]) && [v] + [] == [v];
    assert COperands(cs, [Local("c")]) == Good([v]);
    var cs1 := cs.(locals := cs.locals + [Bind(["c"], [v])]);
    assert Bind(["c"], [v]) == map["c" := v];
    forall l, n: nat, p, q: Position | (l == "yes" && n == 1) || (l == "no" && n == 2)
      ensures CBlock(map["f" := TWO_WAYS], mc, TWO_WAYS, l, p, q, cs1, 1) == CDone(cs1, Some(CNum(8, n)))
    {
    }
  }

  /** Whichever way it goes, the evaluator joins the two results. */
  lemma {:induction false} FreeBranchFinishes(o: Oracle)
    requires Exact(o)
    ensures SCall(o, map["f" := TWO_WAYS], [], "f", [Local("c")], [], FreeState(), 3).Done?
  {
    hide CCall, SCall, Exact, ProgramOk, StateFits, Covers, ArgsOk, Rel;
    var P, S, L := map["f" := TWO_WAYS], map["f" := TWO_WAYS_SIG], map["c" := TyBool];
    TwoWaysTyped(o);
    assert Sat([], AnyModel());
    forall m: Model
      ensures CCall(P, Language(m), [], "f", [Local("c")], FreeStates()(m), 3).CDone?
      ensures !Halts(CCall(P, Watchful(m), [], "f", [Local("c")], FreeStates()(m), 3))
    {
      TwoWaysEnd(Language(m), m);
      TwoWaysEnd(Watchful(m), m);
    }
    EvaluatorFinishes(o, P, S, map[], L, map[], "f", [Local("c")], [], [], FreeState(), 3, FreeStates());
  }

  lemma {:induction false} TwoWaysTyped(o: Oracle)
    ensures ProgramOk(map["f" := TWO_WAYS], map["f" := TWO_WAYS_SIG], map[])
    ensures ArgsOk(map["f" := TWO_WAYS], map["f" := TWO_WAYS_SIG], map[], map["c" := TyBool], "f", [Local("c")])
    ensures StateFits(o, map[], map[], map["c" := TyBool], FreeState()) && Covers([], FreeState(), FreeStates())
  {
    Pow2Values();
    hide Pow2, Eval;
    assert StateFits(o, map[], map[], map["c" := TyBool], FreeState());
    assert BlockOk(map["f" := TWO_WAYS], map["f" := TWO_WAYS_SIG], map[], TWO_WAYS.blocks["yes"], TWO_WAYS_SIG);
    assert BlockOk(map["f" := TWO_WAYS], map["f" := TWO_WAYS_SIG], map[], TWO_WAYS.blocks["no"], TWO_WAYS_SIG);
    assert BlockOk(map["f" := TWO_WAYS], map["f" := TWO_WAYS_SIG], map[], TWO_WAYS.blocks["entry"], TWO_WAYS_SIG);
  }
}
