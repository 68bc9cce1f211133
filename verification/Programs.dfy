/** The intermediate programs the evaluator runs, and their concrete meaning.

    A function is a set of labelled blocks; a block is a list of instructions closed by a
    terminator.  The concrete machine runs on numbers and addresses.  It consumes one unit of fuel
    for each block entered, and reports how a run went wrong: `Panic` is an executed `unreachable`,
    `Fault` an out-of-bounds access, an undefined division or a broken no-overflow flag, `Poison` an
    over-wide shift, and `IllFormed` something the evaluated programs do not do (an unset local, a
    clash of widths, a pointer where a number is due).
 */
module Programs {
  import opened Options
  import opened Words
  import opened Terms
  import opened References

  /* ---------- syntax ---------- */

  datatype Operand = Local(name: string) | Global(name: string) | Int(value: nat, width: nat)

  datatype ICmp = IEq | INe | IOrd(pred: BvPred)

  datatype Cast = Trunc | ZExt | SExt

  datatype Rhs =
    | Binary(op: BvOp, a: Operand, b: Operand, nuw: bool, nsw: bool, exact: bool)
    | Compare(cmp: ICmp, a: Operand, b: Operand)
    | Convert(cast: Cast, a: Operand, width: nat)
    | Select(c: Operand, a: Operand, b: Operand)
    | Load(p: Operand)
    | GetElement(p: Operand, idx: seq<Operand>)
    | Alloca(itype: IType)
    | Phi(cases: map<string, Operand>)
    | Call(fn: string, args: seq<Operand>)

  datatype Instr = Assign(dst: string, rhs: Rhs) | Store(v: Operand, p: Operand) | CallVoid(fn: string,
      args: seq<Operand>)

  datatype Terminator =
    | Return(v: Option<Operand>)
    | Jump(dest: string)
    | Branch(c: Operand, iftrue: string, iffalse: string)
    | Switch(x: Operand, default: string, cases: seq<(Operand, string)>)
    | Unreachable

  datatype Block = Block(instrs: seq<Instr>, term: Terminator)

  datatype Function = Function(params: seq<string>, entry: string, blocks: map<string, Block>)

  type Program = map<string, Function>

  /** Which dynamic instruction is running: the instruction and branch numbers on the way to it.
      It names the objects that `alloca` creates. */
  type Position = seq<nat>

  function Unary(n: nat): string { if n == 0 then "." else "i" + Unary(n - 1) }

  function ObjectName(pos: Position): string {
    if pos == [] then "alloca" else ObjectName(pos[..|pos| - 1]) + Unary(pos[|pos| - 1])
  }

  /** The field tuples of an object with the widths of their cells. */
  function Leaves(t: IType, depth: nat): map<seq<nat>, nat>
    decreases t, 1
  {
    match t
    case TInt(w) => map[[] := w]
    case TPointer(to) => if depth != 0 then map[[] := 64] else Leaves(to, 1)
    case TArray(_, of) => Leaves(of, depth + 1)
    case TStruct(fields) => FieldLeaves(fields, |fields|, depth)
  }

  function FieldLeaves(fields: seq<IType>, n: nat, depth: nat): map<seq<nat>, nat>
    requires n <= |fields|
    decreases fields, 0, n
  {
    if n == 0 then map[] else
      var last := Leaves(fields[n - 1], depth);
      FieldLeaves(fields, n - 1, depth)
        + map tup: seq<nat> | tup in (set rest | rest in last :: [n - 1] + rest) && tup[1..] in last :: last[tup[1..]]
  }

  /* ---------- concrete values and states ---------- */

  /** By which rules a program runs.  The evaluator departs from the language in three operations: it
      takes the unsigned value of an index narrower than 64 bits, does not look for a negative sum out
      of range under `nsw`, and lets a signed division overflow.  A guarded machine keeps to the
      language, but stops with a reason of its own where the two would differ. */
  datatype Rules = ByLanguage | ByEvaluator | Guarded

  datatype CVal = CNum(width: nat, n: nat) | CAddr(a: Address)

  /** Contents of memory that was never written. */
  type Initial = (FnId, seq<Value>, nat) -> nat

  /** What a run depends on besides the program. */
  datatype Machine = Machine(init: Initial, rules: Rules)

  datatype CState = CState(
    globals: map<string, CVal>,
    locals: seq<map<string, CVal>>,
    mem: Cell -> CVal,
    alive: set<FnId>,
    accessed: set<string>)

  datatype Stop = Panic | Fault | Poison | IllFormed | OutOfFuel | NarrowIndex | NegativeWrap | DivisionOverflow

  datatype CRes = CDone(st: CState, val: Option<CVal>) | CStop(why: Stop)

  datatype Outcome<+T> = Good(value: T) | Bad(why: Stop) {
    predicate IsFailure() { Bad? }
    function PropagateFailure<U>(): Outcome<U> requires Bad? { Bad(why) }
    function Extract(): T requires Good? { value }
  }

  function CTop(cs: CState): map<string, CVal> {
    if cs.locals == [] then map[] else cs.locals[|cs.locals| - 1]
  }

  function CSet(cs: CState, dst: string, v: CVal): Outcome<CState> {
    if cs.locals == [] then Bad(IllFormed) else
      var n := |cs.locals| - 1;
      Good(cs.(locals := cs.locals[n := cs.locals[n][dst := v]]))
  }

  function COperand(cs: CState, x: Operand): Outcome<CVal> {
    match x
    case Local(name) => if name in CTop(cs) then Good(CTop(cs)[name]) else Bad(IllFormed)
    case Global(name) => if name in cs.globals then Good(cs.globals[name]) else Bad(IllFormed)
    case Int(v, w) => if v < Pow2(w) then Good(CNum(w, v)) else Bad(IllFormed)
  }

  function COperands(cs: CState, xs: seq<Operand>): Outcome<seq<CVal>> {
    if xs == [] then Good([]) else
      var v :- COperand(cs, xs[0]);
      var rest :- COperands(cs, xs[1..]);
      Good([v] + rest)
  }

  /** A signed sum that fits, as `nsw` promises. */
  predicate SignedSumFits(w: nat, x: nat, y: nat) {
    w > 0 ==> -(Pow2(w - 1) as int) <= Signed(w, x) + Signed(w, y) < Pow2(w - 1)
  }

  /** Signed division has one result that does not fit. */
  predicate QuotientOverflows(w: nat, x: nat, y: nat) { w > 0 && x == Pow2(w - 1) && Signed(w, y) == -1 }

  /** Whether an addition with a flag may go on. */
  function CheckSum(rules: Rules, w: nat, x: nat, y: nat): Option<Stop> {
    match rules
    case ByLanguage => if SignedSumFits(w, x, y) then None else Some(Fault)
    case ByEvaluator => if PredSem(AddNoOverflowS, w, x, y) then None else Some(Fault)
    case Guarded =>
      if SignedSumFits(w, x, y) then None else Some(if PredSem(AddNoOverflowS, w, x, y) then NegativeWrap else Fault)
  }

  /** Whether a signed division by something other than zero may go on. */
  function CheckQuotient(rules: Rules, w: nat, x: nat, y: nat): Option<Stop> {
    if !QuotientOverflows(w, x, y) || rules.ByEvaluator? then None
    else Some(if rules.Guarded? then DivisionOverflow else Fault)
  }

  function CBinary(rules: Rules, op: BvOp, x: CVal, y: CVal, nuw: bool, nsw: bool, exact: bool): Outcome<CVal> {
    if !x.CNum? || !y.CNum? || x.width != y.width || exact then Bad(IllFormed) else
    var w, a, b := x.width, x.n, y.n;
    if a >= Pow2(w) || b >= Pow2(w) || (!op.Add? && (nuw || nsw)) then Bad(IllFormed)
    else if nuw && !PredSem(AddNoOverflowU, w, a, b) then Bad(Fault)
    else if nsw && CheckSum(rules, w, a, b).Some? then Bad(CheckSum(rules, w, a, b).value)
    else if (op.UDiv? || op.SDiv? || op.URem? || op.SRem?) && b == 0 then Bad(Fault)
    else if (op.SDiv? || op.SRem?) && CheckQuotient(rules, w, a, b).Some? then Bad(CheckQuotient(rules, w, a, b).value)
    else if (op.Shl? || op.LShr? || op.AShr?) && b >= w then Bad(Poison)
    else Good(CNum(w, BvSem(op, w, a, b)))
  }

  function CBit(b: bool): CVal { CNum(1, if b then 1 else 0) }

  function CCompare(cmp: ICmp, x: CVal, y: CVal): Outcome<CVal> {
    if !x.CNum? || !y.CNum? || x.width != y.width then Bad(IllFormed) else
    match cmp
    case IEq => Good(CBit(x.n == y.n))
    case INe => Good(CBit(x.n != y.n))
    case IOrd(p) => Good(CBit(PredSem(p, x.width, x.n, y.n)))
  }

  function CConvert(cast: Cast, x: CVal, to: nat): Outcome<CVal> {
    if !x.CNum? then Bad(IllFormed) else
    match cast
    case Trunc => if x.width > to then Good(CNum(to, x.n % Pow2(to))) else Bad(IllFormed)
    case ZExt => if x.width < to then Good(CNum(to, x.n)) else Bad(IllFormed)
    case SExt => if x.width < to then Good(CNum(to, SignExtend(x.width, x.n, to))) else Bad(IllFormed)
  }

  function CSelect(c: CVal, a: CVal, b: CVal): Outcome<CVal> {
    if !c.CNum? || c.width != 1 then Bad(IllFormed) else Good(if c.n == 1 then a else b)
  }

  predicate WellSized(v: Value) { v.VBv? && v.width > 0 && v.n < Pow2(v.width) }

  /** An index that is narrower than 64 bits and negative. */
  predicate NarrowNegative(v: Value) { v.VBv? && 0 < v.width < 64 && v.n >= Pow2(v.width - 1) }

  function SignWiden(v: Value): (r: Value)
    ensures HasSort(r, SBv(64))
  {
    if v.VBv? && v.width < 64 then VBv(64, SignExtend(v.width, v.n, 64)) else WidenValue(v)
  }

  /** Moving a path by one gep, with sign-extended indices. */
  function SignStep(path: seq<Value>, idx: seq<Value>): seq<Value>
    requires |path| > 0 && |idx| > 0
  {
    var n := |path| - 1;
    path[..n] + [VBv(64, (Num(SignWiden(path[n])) + Num(SignWiden(idx[0]))) % W64)] + idx[1..]
  }

  /** Where adding two indices depends on how they are widened: one is narrow and negative, and they
      are not two such of 63 bits, whose errors cancel. */
  predicate Misread(v: Value, w: Value) {
    && (NarrowNegative(v) || NarrowNegative(w))
    && !(NarrowNegative(v) && NarrowNegative(w) && v.width == 63 && w.width == 63)
  }

  function CGetElement(rules: Rules, p: CVal, idx: seq<CVal>): Outcome<CVal> {
    if !p.CAddr? || idx == [] || (exists i :: 0 <= i < |idx| && !idx[i].CNum?) then Bad(IllFormed) else
    var vs := seq(|idx|, i requires 0 <= i < |idx| => assert idx[i].CNum?; VBv(idx[i].width, idx[i].n));
    var path := p.a.path;
    if path == [] || !WellSized(path[|path| - 1]) || !WellSized(vs[0]) then Bad(IllFormed)
    else if rules.Guarded? && Misread(path[|path| - 1], vs[0]) then Bad(NarrowIndex)
    else Good(CAddr(Address(p.a.ref, if rules.ByEvaluator? then Step(path, vs) else SignStep(path, vs))))
  }

  /** Whether an address may be read or written. */
  function CAccess(cs: CState, p: CVal): Outcome<Cell> {
    if !p.CAddr? then Bad(IllFormed) else
    match DecodeAddress(p.a)
    case Faulty => Bad(Fault)
    case Illtyped => Bad(IllFormed)
    case Found(_, _, t) => if t.TInt? && CellOf(p.a).fn in cs.alive then Good(CellOf(p.a)) else Bad(IllFormed)
  }

  function CWrite(mem: Cell -> CVal, c: Cell, v: CVal): Cell -> CVal {
    d => if d == c then v else mem(d)
  }

  function CAlloc(init: Initial, mem: Cell -> CVal, name: string, leaves: map<seq<nat>, nat>): Cell -> CVal {
    (c: Cell) =>
      if c.fn.obj == name && c.fn.fields in leaves
      then CNum(leaves[c.fn.fields], init(c.fn, c.idx, leaves[c.fn.fields]) % Pow2(leaves[c.fn.fields]))
      else mem(c)
  }

  function Bind<V>(params: seq<string>, args: seq<V>): map<string, V>
    requires |params| == |args|
  {
    if params == [] then map[]
      else Bind(params[..|params| - 1], args[..|args| - 1])[params[|params| - 1] := args[|args| - 1]]
  }

  /** The right-hand sides other than calls. */
  function CRhs(mc: Machine, cs: CState, pred: Option<string>, pos: Position, rhs: Rhs): Outcome<(CState, CVal)>
    requires !rhs.Call?
  {
    match rhs
    case Binary(op, a, b, nuw, nsw, exact) =>
      var x :- COperand(cs, a);
      var y :- COperand(cs, b);
      var v :- CBinary(mc.rules, op, x, y, nuw, nsw, exact);
      Good((cs, v))
    case Compare(cmp, a, b) =>
      var x :- COperand(cs, a);
      var y :- COperand(cs, b);
      var v :- CCompare(cmp, x, y);
      Good((cs, v))
    case Convert(cast, a, w) =>
      var x :- COperand(cs, a);
      var v :- CConvert(cast, x, w);
      Good((cs, v))
    case Select(c, a, b) =>
      var z :- COperand(cs, c);
      var x :- COperand(cs, a);
      var y :- COperand(cs, b);
      var v :- CSelect(z, x, y);
      Good((cs, v))
    case Load(p) =>
      var a :- COperand(cs, p);
      var c :- CAccess(cs, a);
      Good((cs.(accessed := cs.accessed + {c.fn.obj}), cs.mem(c)))
    case GetElement(p, idx) =>
      var a :- COperand(cs, p);
      var vs :- COperands(cs, idx);
      var v :- CGetElement(mc.rules, a, vs);
      Good((cs, v))
    case Alloca(t) =>
      var name := ObjectName(pos);
      var leaves := Leaves(t, 0);
      var cs' := cs.(alive := cs.alive + (set tup | tup in leaves :: FnId(name, tup)),
                     mem := CAlloc(mc.init, cs.mem, name, leaves));
      Good((cs', CAddr(Address(Reference(name, t), [ORIGIN_VALUE]))))
    case Phi(cases) =>
      if pred.None? || pred.value !in cases then Bad(IllFormed) else
        var v :- COperand(cs, cases[pred.value]);
        Good((cs, v))
  }

  function CStore(cs: CState, v: CVal, p: CVal): Outcome<CState> {
    var c :- CAccess(cs, p);
    if v.CNum? then Good(cs.(mem := CWrite(cs.mem, c, v), accessed := cs.accessed + {c.fn.obj})) else Bad(IllFormed)
  }

  /* ---------- concrete execution ---------- */

  function CBlock(P: Program, mc: Machine, fn: Function, here: string, pred: Option<string>, pos: Position, cs: CState,
                  fuel: nat): CRes
    decreases fuel, 4, 0
  {
    if fuel == 0 then CStop(OutOfFuel)
    else if here !in fn.blocks then CStop(IllFormed)
    else CInstrs(P, mc, fn, here, pred, pos, 0, fn.blocks[here], cs, fuel)
  }

  function CInstrs(P: Program, mc: Machine, fn: Function, here: string, pred: Option<string>, pos: Position, k: nat,
                   block: Block, cs: CState, fuel: nat): CRes
    requires fuel > 0 && k <= |block.instrs|
    decreases fuel, 3, |block.instrs| - k
  {
    if k == |block.instrs| then CTerminator(P, mc, fn, here, pos + [k], block.term, cs, fuel)
    else
      match CInstr(P, mc, pred, pos + [k], block.instrs[k], cs, fuel)
      case CDone(cs', _) => CInstrs(P, mc, fn, here, pred, pos, k + 1, block, cs', fuel)
      case CStop(why) => CStop(why)
  }

  function CInstr(P: Program, mc: Machine, pred: Option<string>, pos: Position, i: Instr, cs: CState, fuel: nat): CRes
    requires fuel > 0
    decreases fuel, 2, 0
  {
    match i
    case Assign(dst, Call(f, args)) =>
      (match CCall(P, mc, pos, f, args, cs, fuel)
       case CStop(why) => CStop(why)
       case CDone(cs', None) => CStop(IllFormed)
       case CDone(cs', Some(v)) => CFinish(CSet(cs', dst, v)))
    case Assign(dst, rhs) =>
      (match CRhs(mc, cs, pred, pos, rhs)
       case Bad(why) => CStop(why)
       case Good((cs', v)) => CFinish(CSet(cs', dst, v)))
    case CallVoid(f, args) => CCall(P, mc, pos, f, args, cs, fuel)
    case Store(x, p) =>
      var r := (var v :- COperand(cs, x); var a :- COperand(cs, p); CStore(cs, v, a));
      CFinish(r)
  }

  function CFinish(r: Outcome<CState>): CRes {
    match r case Good(cs) => CDone(cs, None) case Bad(why) => CStop(why)
  }

  function CCall(P: Program, mc: Machine, pos: Position, f: string, args: seq<Operand>, cs: CState, fuel: nat): CRes
    requires fuel > 0
    decreases fuel, 1, 0
  {
    match COperands(cs, args)
    case Bad(why) => CStop(why)
    case Good(vs) =>
      if f !in P || |P[f].params| != |vs| then CStop(IllFormed) else
      match CBlock(P, mc, P[f], P[f].entry, None, pos, cs.(locals := cs.locals + [Bind(P[f].params, vs)]), fuel - 1)
      case CStop(why) => CStop(why)
      case CDone(cs', v) => if cs'.locals == [] then CStop(IllFormed)
        else CDone(cs'.(locals := cs'.locals[..|cs'.locals| - 1]), v)
  }

  function CTerminator(P: Program, mc: Machine, fn: Function, here: string, pos: Position, t: Terminator, cs: CState,
                       fuel: nat): CRes
    requires fuel > 0
    decreases fuel, 2, 0
  {
    match t
    case Return(None) => CDone(cs, None)
    case Return(Some(x)) =>
      (match COperand(cs, x) case Bad(why) => CStop(why) case Good(v) => CDone(cs, Some(v)))
    case Jump(l) => CBlock(P, mc, fn, l, Some(here), pos, cs, fuel - 1)
    case Branch(c, l1, l2) =>
      (match COperand(cs, c)
       case Bad(why) => CStop(why)
       case Good(v) => CBranch(P, mc, fn, here, pos, v, Goto(l1), Goto(l2), cs, fuel))
    case Switch(x, default, cases) =>
      (match COperand(cs, x)
       case Bad(why) => CStop(why)
       case Good(v) => CTake(P, mc, fn, here, pos, Cases(x, default, cases), cs, fuel))
    case Unreachable => CStop(Panic)
  }

  /** Where control goes next: to a block, or on to the remaining cases of a switch. */
  datatype Target = Goto(dest: string) | Cases(x: Operand, default: string, cases: seq<(Operand, string)>)

  function TargetSize(t: Target): nat {
    match t case Goto(_) => 0 case Cases(_, _, cs) => 1 + 2 * |cs|
  }

  function Larger(a: nat, b: nat): nat { if a < b then b else a }

  function CBranch(P: Program, mc: Machine, fn: Function, here: string, pos: Position, c: CVal, t1: Target, t2: Target,
                   cs: CState, fuel: nat): CRes
    requires fuel > 0
    decreases fuel, 1, Larger(TargetSize(t1), TargetSize(t2)) + 1
  {
    if !c.CNum? || c.width != 1 then CStop(IllFormed)
    else if c.n == 1 then CTake(P, mc, fn, here, pos + [0], t1, cs, fuel)
    else CTake(P, mc, fn, here, pos + [1], t2, cs, fuel)
  }

  /** A switch compares with one case after the other and ends at the default. */
  function CTake(P: Program, mc: Machine, fn: Function, here: string, pos: Position, t: Target, cs: CState, fuel: nat)
    : CRes
    requires fuel > 0
    decreases fuel, 1, TargetSize(t)
  {
    match t
    case Goto(l) => CBlock(P, mc, fn, l, Some(here), pos, cs, fuel - 1)
    case Cases(x, default, cases) =>
      if cases == [] then CBlock(P, mc, fn, default, Some(here), pos, cs, fuel - 1) else
      var r := (var v :- COperand(cs, x); var w :- COperand(cs, cases[0].0); CCompare(IEq, v, w));
      match r
      case Bad(why) => CStop(why)
      case Good(b) => CBranch(P, mc, fn, here, pos, b, Goto(cases[0].1), Cases(x, default, cases[1..]), cs, fuel)
  }

  /** A number of the same width as another, and different from it. */
  predicate Differs(v: Outcome<CVal>, w: CVal) {
    v.Good? && v.value.CNum? && w.CNum? && v.value.width == w.width && v.value.n != w.n
  }

  /** A switch goes to the first case that is equal, and to the default if there is none. */
  lemma {:induction false} SwitchTakesFirst(P: Program, mc: Machine, fn: Function, here: string, pos: Position,
                                            x: Operand, default: string, cases: seq<(Operand, string)>, i: nat, v: CVal,
                                            cs: CState, fuel: nat)
    returns (pos': Position)
    requires fuel > 0 && i <= |cases| && COperand(cs, x) == Good(v) && v.CNum?
    requires forall j :: 0 <= j < i ==> Differs(COperand(cs, cases[j].0), v)
    requires i < |cases| ==> COperand(cs, cases[i].0) == Good(v)
    ensures pos <= pos'
    ensures CTake(P, mc, fn, here, pos, Cases(x, default, cases), cs, fuel)
         == CBlock(P, mc, fn, if i < |cases| then cases[i].1 else default, Some(here), pos', cs, fuel - 1)
    decreases i
  {
    hide CBlock, COperand;
    pos' := pos;
    if cases != [] {
      var rest := Cases(x, default, cases[1..]);
      if i > 0 {
        assert Differs(COperand(cs, cases[0].0), v);
        assert CBranch(P, mc, fn, here, pos, CBit(false), Goto(cases[0].1), rest, cs, fuel)
          == CTake(P, mc, fn, here, pos + [1], rest, cs, fuel);
        pos' := SwitchTakesFirst(P, mc, fn, here, pos + [1], x, default, cases[1..], i - 1, v, cs, fuel);
      } else {
        pos' := pos + [0];
        assert CBranch(P, mc, fn, here, pos, CBit(true), Goto(cases[0].1), rest, cs, fuel)
          == CTake(P, mc, fn, here, pos', Goto(cases[0].1), cs, fuel);
      }
    }
  }
}
