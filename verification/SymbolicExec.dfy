/** The symbolic evaluator as a function from states to states: libirpy/z3eval.py over the contexts
    of libirpy/ctx.py.

    `SymState` is the part of a context that `snapshot`, `restore` and `merge` carry around; the
    path condition (the solver's assertions) is a parameter.  Module Evaluator runs the same
    evaluation on a mutable context, and module Soundness says what its results mean.
 */
module SymbolicExec {
  import opened Options
  import opened Words
  import opened Terms
  import opened References
  import opened Programs

  datatype SVal = STerm(t: Term) | SPtr(p: Pointer)

  datatype SymState = SymState(
    globals: map<string, SVal>,
    locals: seq<map<string, SVal>>,
    refs: Refs,
    accessed: set<string>)

  /** How a run of the evaluator ends.  `Refused` stands for every Python error: a failed
      assertion, an index not provably in bounds, a sort error. */
  datatype SRes = Done(st: SymState, val: Option<SVal>) | UnreachableReached | Refused | NoFuel

  /* ---------- util.If and util.merge ---------- */

  /** `util.If` on any two values. */
  function IfVal(o: Oracle, cond: Term, a: SVal, b: SVal): Option<SVal> {
    match (a, b)
    case (STerm(x), STerm(y)) => var t :- If(o, cond, x, y); Some(STerm(t))
    case _ =>
      if SortOf(cond) != SBool then None else
      var c := o.simplify(cond);
      if IsTrue(o, c) then Some(a)
      else if IsFalse(o, c) then Some(b)
      else if a == b then Some(a)
      else if a.SPtr? && b.SPtr? then Some(SPtr(PIte(c, a.p, b.p)))
      else None
  }

  /** `util.If` on two memory functions. */
  function IfFn(o: Oracle, cond: Term, a: Fn, b: Fn): Option<Fn> {
    if SortOf(cond) != SBool then None else
    var c := o.simplify(cond);
    if IsTrue(o, c) then Some(a)
    else if IsFalse(o, c) then Some(b)
    else if a == b then Some(a)
    else Some(Choice(c, a, b))
  }

  /** `util.merge` on dictionaries: keys on both sides are merged, a key on one side is copied. */
  function MergeMap<K, V>(m1: map<K, V>, m2: map<K, V>, f: (V, V) -> Option<V>): Option<map<K, V>> {
    if forall k :: k in m1 && k in m2 ==> f(m1[k], m2[k]).Some?
    then Some(map k | k in m1.Keys + m2.Keys ::
                if k !in m2 then m1[k] else if k !in m1 then m2[k] else
                (match f(m1[k], m2[k]) case Some(v) => v case None => m1[k]))
    else None
  }

  function MergeVals(o: Oracle, cond: Term, m1: map<string, SVal>, m2: map<string, SVal>): Option<map<string, SVal>> {
    MergeMap(m1, m2, (a, b) => IfVal(o, cond, a, b))
  }

  /** `util.merge` on the list of frames. */
  function MergeFrames(o: Oracle, cond: Term, l1: seq<map<string, SVal>>, l2: seq<map<string, SVal>>)
    : Option<seq<map<string, SVal>>>
  {
    if |l1| != |l2| then None
    else if l1 == [] then Some([])
    else
      var head :- MergeVals(o, cond, l1[0], l2[0]);
      var tail :- MergeFrames(o, cond, l1[1..], l2[1..]);
      Some([head] + tail)
  }

  function MergeObject(o: Oracle, cond: Term, d1: map<seq<nat>, Fn>, d2: map<seq<nat>, Fn>): Option<map<seq<nat>, Fn>> {
    MergeMap(d1, d2, (a, b) => IfFn(o, cond, a, b))
  }

  function MergeRefs(o: Oracle, cond: Term, r1: Refs, r2: Refs): Option<Refs> {
    MergeMap(r1, r2, (a, b) => MergeObject(o, cond, a, b))
  }

  /** `Context.merge`. */
  function Merge(o: Oracle, cond: Term, s1: SymState, s2: SymState): Option<SymState> {
    var g :- MergeVals(o, cond, s1.globals, s2.globals);
    var l :- MergeFrames(o, cond, s1.locals, s2.locals);
    var r :- MergeRefs(o, cond, s1.refs, s2.refs);
    Some(SymState(g, l, r, s1.accessed + s2.accessed))
  }

  /* ---------- operands and locals ---------- */

  function STop(st: SymState): map<string, SVal> {
    if st.locals == [] then map[] else st.locals[|st.locals| - 1]
  }

  function SSet(st: SymState, dst: string, v: SVal): Option<SymState> {
    if st.locals == [] then None else
      var n := |st.locals| - 1;
      Some(st.(locals := st.locals[n := st.locals[n][dst := v]]))
  }

  /** `constant_int`: one-bit constants are booleans. */
  function Constant(v: nat, w: nat): Term {
    if w == 1 then Lit(VBool(v == 1)) else BvVal(v, w)
  }

  function SOperand(st: SymState, x: Operand): Option<SVal> {
    match x
    case Local(name) => if name in STop(st) then Some(STop(st)[name]) else None
    case Global(name) => if name in st.globals then Some(st.globals[name]) else None
    case Int(v, w) => if v < Pow2(w) then Some(STerm(Constant(v, w))) else None
  }

  function SOperands(st: SymState, xs: seq<Operand>): Option<seq<SVal>> {
    if xs == [] then Some([]) else
      var v :- SOperand(st, xs[0]);
      var rest :- SOperands(st, xs[1..]);
      Some([v] + rest)
  }

  /** The operands that must be solver terms. */
  function STerms(vs: seq<SVal>): Option<seq<Term>> {
    if vs == [] then Some([])
    else if vs[0].SPtr? then None
    else
      var rest :- STerms(vs[1..]);
      Some([vs[0].t] + rest)
  }

  /* ---------- operators ---------- */

  /** `as_bool`. */
  function AsBool(o: Oracle, t: Term): Option<Term> {
    if SortOf(t) == SBool then Some(t)
    else if SortOf(t) == SBv(1) then If(o, Equal(t, BvVal(1, 1)), TRUE, FALSE)
    else None
  }

  function LogicOf(op: BvOp): BoolOp {
    match op case BAnd => LAnd case BOr => LOr case _ => LXor
  }

  /** The binary operators.  Flags and divisors are checked with the solver, and over-wide shifts
      become an unconstrained value that `partial_eval` removes when it can. */
  function SBinary(o: Oracle, pc: seq<Term>, op: BvOp, a: Term, b: Term, nuw: bool, nsw: bool, exact: bool)
    : Option<Term>
  {
    if exact then None
    else if (op.BAnd? || op.BOr? || op.BXor?) && (SortOf(a) == SBool || SortOf(b) == SBool) then
      if nuw || nsw then None else
      var x :- AsBool(o, a);
      var y :- AsBool(o, b);
      if SortOf(x) == SBool && SortOf(y) == SBool then Some(Node(Logic(LogicOf(op)), [x, y])) else None
    else if SortOf(a) != SortOf(b) || !SortOf(a).SBv? then None
    else
      var w := SortOf(a).width;
      var r := BvTerm(op, a, b);
      if op.Add? then
        if nuw && !Implied(o, pc, CmpTerm(AddNoOverflowU, a, b)) then None
        else if nsw && !Implied(o, pc, CmpTerm(AddNoOverflowS, a, b)) then None
        else Some(r)
      else if nuw || nsw then None
      else if op.UDiv? || op.SDiv? || op.URem? || op.SRem? then
        if Implied(o, pc, Negate(Equal(b, BvVal(0, w)))) then Some(r) else None
      else if op.Shl? || op.LShr? || op.AShr? then
        var t :- If(o, CmpTerm(Ult, b, BvVal(w, w)), r, Sym("poison", SBv(w)));
        PartialEval(o, pc, t)
      else Some(r)
  }

  function SCompare(cmp: ICmp, a: Term, b: Term): Option<Term> {
    if SortOf(a) != SortOf(b) then None else
    match cmp
    case IEq => Some(Equal(a, b))
    case INe => Some(Negate(Equal(a, b)))
    case IOrd(p) => if SortOf(a).SBv? then Some(CmpTerm(p, a, b)) else None
  }

  function BitSize(s: Sort): nat { match s case SBool => 1 case SBv(w) => w }

  /** Casts.  Sign extension of a boolean is not part of this evaluation; see `SextOfBoolean`. */
  function SConvert(o: Oracle, cast: Cast, a: Term, to: nat): Option<Term> {
    match cast
    case Trunc =>
      if SortOf(a).SBv? && BitSize(SortOf(a)) > to then Some(Node(Extract(to), [a])) else None
    case ZExt =>
      if BitSize(SortOf(a)) >= to then None
      else if SortOf(a) == SBool then If(o, a, BvVal(1, to), BvVal(0, to))
      else Some(Node(ZeroExt(to), [a]))
    case SExt =>
      if BitSize(SortOf(a)) >= to || SortOf(a) == SBool then None else Some(Node(SignExt(to), [a]))
  }

  /* ---------- memory ---------- */

  /** The objects an access through a pointer touches. */
  function Touched(p: Pointer): set<string> {
    match p case PBase(ref, _) => {ref.name} case PIte(_, p1, p2) => Touched(p1) + Touched(p2)
  }

  function SLoad(o: Oracle, pc: seq<Term>, st: SymState, p: SVal): Option<(SymState, SVal)> {
    if !p.SPtr? then None else
      var t :- Read(o, pc, st.refs, p.p);
      Some((st.(accessed := st.accessed + Touched(p.p)), STerm(t)))
  }

  function SStore(o: Oracle, pc: seq<Term>, st: SymState, v: SVal, p: SVal): Option<SymState> {
    if !p.SPtr? || !v.STerm? then None else
      var refs' :- Write(o, pc, st.refs, p.p, v.t);
      Some(st.(refs := refs', accessed := st.accessed + Touched(p.p)))
  }

  /** `init_ref`: one uninterpreted function for each cell field. */
  function FreshObject(name: string, leaves: map<seq<nat>, nat>): map<seq<nat>, Fn> {
    map tup | tup in leaves :: Base(FnId(name, tup), leaves[tup])
  }

  function SAlloca(st: SymState, pos: Position, t: IType): Option<(SymState, SVal)> {
    var name := ObjectName(pos);
    if name in st.refs then None
    else Some((st.(refs := st.refs[name := FreshObject(name, Leaves(t, 0))]), SPtr(PBase(Reference(name, t), []))))
  }

  /** The right-hand sides other than calls. */
  function SRhs(o: Oracle, pc: seq<Term>, st: SymState, pred: Option<string>, pos: Position, rhs: Rhs)
    : Option<(SymState, SVal)>
    requires !rhs.Call?
  {
    match rhs
    case Binary(op, a, b, nuw, nsw, exact) =>
      var x :- SOperand(st, a);
      var y :- SOperand(st, b);
      if x.SPtr? || y.SPtr? then None else
      var t :- SBinary(o, pc, op, x.t, y.t, nuw, nsw, exact);
      Some((st, STerm(t)))
    case Compare(cmp, a, b) =>
      var x :- SOperand(st, a);
      var y :- SOperand(st, b);
      if x.SPtr? || y.SPtr? then None else
      var t :- SCompare(cmp, x.t, y.t);
      Some((st, STerm(t)))
    case Convert(cast, a, w) =>
      var x :- SOperand(st, a);
      if x.SPtr? then None else
      var t :- SConvert(o, cast, x.t, w);
      Some((st, STerm(t)))
    case Select(c, a, b) =>
      var z :- SOperand(st, c);
      var x :- SOperand(st, a);
      var y :- SOperand(st, b);
      if z.SPtr? then None else
      var v :- IfVal(o, z.t, x, y);
      Some((st, v))
    case Load(p) =>
      var a :- SOperand(st, p);
      SLoad(o, pc, st, a)
    case GetElement(p, idx) =>
      var a :- SOperand(st, p);
      var vs :- SOperands(st, idx);
      var ts :- STerms(vs);
      if a.STerm? || ts == [] then None else Some((st, SPtr(Gep(a.p, ts))))
    case Alloca(t) => SAlloca(st, pos, t)
    case Phi(cases) =>
      if pred.None? || pred.value !in cases then None else
        var v :- SOperand(st, cases[pred.value]);
        Some((st, v))
  }

  /* ---------- branching ---------- */

  /** The two pruning tests of `branch`, on the simplified condition. */
  predicate CanBeTrue(o: Oracle, pc: seq<Term>, scond: Term)
    requires SortOf(scond) == SBool
  {
    scond != FALSE && !Implied(o, pc, Negate(scond))
  }

  predicate CanBeFalse(o: Oracle, pc: seq<Term>, scond: Term)
    requires SortOf(scond) == SBool
  {
    !CanBeTrue(o, pc, scond) || (scond != TRUE && !Implied(o, pc, scond))
  }

  /** A side that raised `UnreachableException` is dropped if the solver agrees that its path
      condition is contradictory, and is a panic otherwise. */
  function Settle(o: Oracle, pc: seq<Term>, r: SRes): SRes {
    if r == UnreachableReached && !Implied(o, pc, FALSE) then Refused else r
  }

  function MergeResults(o: Oracle, cond: Term, scond: Term, r1: SRes, r2: SRes): SRes
    requires r1.Done? && r2.Done?
  {
    match Merge(o, scond, r1.st, r2.st)
    case None => Refused
    case Some(st) =>
      match (r1.val, r2.val)
      case (None, None) => Done(st, None)
      case (Some(a), Some(b)) =>
        (match IfVal(o, cond, a, b) case Some(v) => Done(st, Some(v)) case None => Refused)
      case _ => Refused
  }

  /** What `branch` makes of the results of its two sides, where a pruned side counts as
      unreachable. */
  function Combine(o: Oracle, cond: Term, scond: Term, r1: SRes, r2: SRes): SRes {
    if r1 == Refused || r2 == Refused then Refused
    else if r1 == NoFuel || r2 == NoFuel then NoFuel
    else if r1 == UnreachableReached then r2
    else if r2 == UnreachableReached then r1
    else MergeResults(o, cond, scond, r1, r2)
  }

  /* ---------- symbolic execution ---------- */

  function SBlock(o: Oracle, P: Program, fn: Function, here: string, pred: Option<string>, pos: Position, pc: seq<Term>,
                  st: SymState, fuel: nat): SRes
    decreases fuel, 4, 0
  {
    if fuel == 0 then NoFuel
    else if here !in fn.blocks then Refused
    else SInstrs(o, P, fn, here, pred, pos, 0, fn.blocks[here], pc, st, fuel)
  }

  function SInstrs(o: Oracle, P: Program, fn: Function, here: string, pred: Option<string>, pos: Position, k: nat,
                   block: Block, pc: seq<Term>, st: SymState, fuel: nat): SRes
    requires fuel > 0 && k <= |block.instrs|
    decreases fuel, 3, |block.instrs| - k
  {
    if k == |block.instrs| then STerminator(o, P, fn, here, pos + [k], block.term, pc, st, fuel)
    else
      var r := SInstr(o, P, pred, pos + [k], block.instrs[k], pc, st, fuel);
      if r.Done? then SInstrs(o, P, fn, here, pred, pos, k + 1, block, pc, r.st, fuel) else r
  }

  function SFinish(r: Option<SymState>): SRes {
    match r case Some(st) => Done(st, None) case None => Refused
  }

  function SInstr(o: Oracle, P: Program, pred: Option<string>, pos: Position, i: Instr, pc: seq<Term>, st: SymState,
                  fuel: nat): SRes
    requires fuel > 0
    decreases fuel, 2, 0
  {
    match i
    case Assign(dst, Call(f, args)) =>
      var r := SCall(o, P, pos, f, args, pc, st, fuel);
      if !r.Done? then r
      else if r.val.None? then Refused
      else SFinish(SSet(r.st, dst, r.val.value))
    case Assign(dst, rhs) =>
      (match SRhs(o, pc, st, pred, pos, rhs)
       case None => Refused
       case Some((st', v)) => SFinish(SSet(st', dst, v)))
    case CallVoid(f, args) => SCall(o, P, pos, f, args, pc, st, fuel)
    case Store(x, p) => SFinish(var v :- SOperand(st, x); var a :- SOperand(st, p); SStore(o, pc, st, v, a))
  }

  function SCall(o: Oracle, P: Program, pos: Position, f: string, args: seq<Operand>, pc: seq<Term>, st: SymState,
                 fuel: nat): SRes
    requires fuel > 0
    decreases fuel, 1, 0
  {
    match SOperands(st, args)
    case None => Refused
    case Some(vs) =>
      if f !in P || |P[f].params| != |vs| then Refused else
      var r := SBlock(o, P, P[f], P[f].entry, None, pos, pc, st.(locals := st.locals + [Bind(P[f].params, vs)]),
                      fuel - 1);
      if !r.Done? then r
      else if r.st.locals == [] then Refused
      else r.(st := r.st.(locals := r.st.locals[..|r.st.locals| - 1]))
  }

  function STerminator(o: Oracle, P: Program, fn: Function, here: string, pos: Position, t: Terminator, pc: seq<Term>,
                       st: SymState, fuel: nat): SRes
    requires fuel > 0
    decreases fuel, 2, 0
  {
    match t
    case Return(None) => Done(st, None)
    case Return(Some(x)) =>
      (match SOperand(st, x) case None => Refused case Some(v) => Done(st, Some(v)))
    case Jump(l) => SBlock(o, P, fn, l, Some(here), pos, pc, st, fuel - 1)
    case Branch(c, l1, l2) =>
      (match SOperand(st, c)
       case None => Refused
       case Some(v) => if v.SPtr? then Refused else SBranch(o, P, fn, here, pos, v.t, Goto(l1), Goto(l2), pc, st, fuel))
    case Switch(x, default, cases) =>
      (match SOperand(st, x)
       case None => Refused
       case Some(v) => STake(o, P, fn, here, pos, Cases(x, default, cases), pc, st, fuel))
    case Unreachable => UnreachableReached
  }

  /** `branch`: run each side that the solver cannot rule out under its extended path condition, and
      join the results. */
  function SBranch(o: Oracle, P: Program, fn: Function, here: string, pos: Position, cond: Term, t1: Target, t2: Target,
                   pc: seq<Term>, st: SymState, fuel: nat): SRes
    requires fuel > 0
    decreases fuel, 1, Larger(TargetSize(t1), TargetSize(t2)) + 1
  {
    var scond := o.simplify(cond);
    if SortOf(cond) != SBool || SortOf(scond) != SBool then Refused else
    var r1 :=
      if CanBeTrue(o, pc, scond)
      then Settle(o, pc + [scond], STake(o, P, fn, here, pos + [0], t1, pc + [scond], st, fuel))
      else UnreachableReached;
    var r2 :=
      if CanBeFalse(o, pc, scond)
      then Settle(o, pc + [Negate(scond)], STake(o, P, fn, here, pos + [1], t2, pc + [Negate(scond)], st, fuel))
      else UnreachableReached;
    Combine(o, cond, scond, r1, r2)
  }

  /** A jump, or the remaining cases of a switch, which is a chain of branches. */
  function STake(o: Oracle, P: Program, fn: Function, here: string, pos: Position, t: Target, pc: seq<Term>,
                 st: SymState, fuel: nat): SRes
    requires fuel > 0
    decreases fuel, 1, TargetSize(t)
  {
    match t
    case Goto(l) => SBlock(o, P, fn, l, Some(here), pos, pc, st, fuel - 1)
    case Cases(x, default, cases) =>
      if cases == [] then SBlock(o, P, fn, default, Some(here), pos, pc, st, fuel - 1) else
      var c := CaseCondition(st, x, cases[0].0);
      if c.None? then Refused
      else SBranch(o, P, fn, here, pos, c.value, Goto(cases[0].1), Cases(x, default, cases[1..]), pc, st, fuel)
  }

  function CaseCondition(st: SymState, x: Operand, y: Operand): Option<Term> {
    var v :- SOperand(st, x);
    var w :- SOperand(st, y);
    if v.SPtr? || w.SPtr? then None else SCompare(IEq, v.t, w.t)
  }
}
