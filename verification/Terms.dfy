/** Solver terms, their meaning, and the term-level helpers of libirpy/util.py.

    A term is a first-order expression over booleans and bit-vectors, with free constants and with
    applications of the uninterpreted functions that stand for initial memory.  A model (valuation)
    gives those a value, and `Eval` computes the value of a term.  `Term` is the type of
    well-sorted terms: where the solver library would raise a sort error, the functions here return
    `None`.

    The solver itself is an oracle: a simplifier that preserves meaning and sort, and an entailment
    check that is sound but may fail to find a proof.
 */
module Terms {
  import opened Options
  import opened Words

  datatype Sort = SBool | SBv(width: nat)

  datatype Value = VBool(b: bool) | VBv(width: nat, n: nat)

  predicate HasSort(v: Value, s: Sort) {
    match s
    case SBool => v.VBool?
    case SBv(w) => v.VBv? && v.width == w && v.n < Pow2(w)
  }

  /** Bit-vector operators; `a / b` on signed operands truncates toward zero. */
  datatype BvOp = Add | Sub | Mul | UDiv | SDiv | URem | SRem | Shl | LShr | AShr | BAnd | BOr | BXor

  /** Bit-vector predicates; the last two are the no-overflow checks on addition. */
  datatype BvPred = Ult | Ule | Ugt | Uge | Slt | Sgt | Sge | AddNoOverflowU | AddNoOverflowS

  datatype BoolOp = LAnd | LOr | LXor

  /** The uninterpreted function holding one field of one memory object. */
  datatype FnId = FnId(obj: string, fields: seq<nat>)

  /** Declarations other than the conditional. */
  datatype Op =
    | Lookup(fn: FnId, width: nat)
    | Neg
    | Logic(lop: BoolOp)
    | AllOf
    | Eq
    | Bv(bop: BvOp)
    | Cmp(pred: BvPred)
    | Extract(width: nat)
    | ZeroExt(width: nat)
    | SignExt(width: nat)

  datatype RawTerm =
    | Lit(v: Value)
    | Sym(name: string, sort: Sort)
    | Ite(c: RawTerm, a: RawTerm, b: RawTerm)
    | Node(op: Op, args: seq<RawTerm>)

  predicate OpSorted(op: Op, ss: seq<Sort>) {
    match op
    case Lookup(_, _) => forall i :: 0 <= i < |ss| ==> ss[i] == SBv(64)
    case Neg => ss == [SBool]
    case Logic(_) => ss == [SBool, SBool]
    case AllOf => forall i :: 0 <= i < |ss| ==> ss[i] == SBool
    case Eq => |ss| == 2 && ss[0] == ss[1]
    case Bv(_) => |ss| == 2 && ss[0] == ss[1] && ss[0].SBv?
    case Cmp(_) => |ss| == 2 && ss[0] == ss[1] && ss[0].SBv?
    case Extract(w) => |ss| == 1 && ss[0].SBv? && w <= ss[0].width
    case ZeroExt(w) => |ss| == 1 && ss[0].SBv? && ss[0].width <= w
    case SignExt(w) => |ss| == 1 && ss[0].SBv? && ss[0].width <= w
  }

  function OpSort(op: Op, ss: seq<Sort>): Sort {
    match op
    case Lookup(_, w) => SBv(w)
    case Bv(_) => if |ss| == 2 then ss[0] else SBool
    case Extract(w) => SBv(w)
    case ZeroExt(w) => SBv(w)
    case SignExt(w) => SBv(w)
    case _ => SBool
  }

  function SortOf(t: RawTerm): Sort {
    match t
    case Lit(VBool(_)) => SBool
    case Lit(VBv(w, _)) => SBv(w)
    case Sym(_, s) => s
    case Ite(_, a, _) => SortOf(a)
    case Node(op, args) => OpSort(op, seq(|args|, i requires 0 <= i < |args| => SortOf(args[i])))
  }

  function Sorts(ts: seq<RawTerm>): seq<Sort> {
    seq(|ts|, i requires 0 <= i < |ts| => SortOf(ts[i]))
  }

  predicate WellSorted(t: RawTerm) {
    match t
    case Lit(v) => HasSort(v, SortOf(t))
    case Sym(_, _) => true
    case Ite(c, a, b) =>
      WellSorted(c) && WellSorted(a) && WellSorted(b) && SortOf(c) == SBool && SortOf(a) == SortOf(b)
    case Node(op, args) =>
      (forall i :: 0 <= i < |args| ==> WellSorted(args[i])) && OpSorted(op, Sorts(args))
  }

  type Term = t: RawTerm | WellSorted(t) witness Lit(VBool(true))

  const TRUE: Term := Lit(VBool(true))
  const FALSE: Term := Lit(VBool(false))

  function BvVal(n: nat, w: nat): (t: Term)
    ensures SortOf(t) == SBv(w)
  {
    Lit(VBv(w, n % Pow2(w)))
  }

  /* ---------- meaning ---------- */

  /** A valuation: values for the free constants and for the initial memory functions. */
  datatype Model = Model(consts: (string, Sort) -> Value, cells: (FnId, seq<Value>, nat) -> nat)

  function DefaultValue(s: Sort): (v: Value)
    ensures HasSort(v, s)
  {
    match s case SBool => VBool(false) case SBv(w) => VBv(w, 0)
  }

  function ConstValue(m: Model, name: string, s: Sort): (v: Value)
    ensures HasSort(v, s)
  {
    if HasSort(m.consts(name, s), s) then m.consts(name, s) else DefaultValue(s)
  }

  function CellValue(m: Model, fn: FnId, args: seq<Value>, w: nat): (v: Value)
    ensures HasSort(v, SBv(w))
  {
    VBv(w, m.cells(fn, args, w) % Pow2(w))
  }

  function Signed(w: nat, x: nat): int {
    if w > 0 && x >= Pow2(w - 1) then x - Pow2(w) else x
  }

  /** `x / y` rounded toward zero. */
  function TruncDiv(x: int, y: int): int
    requires y != 0
  {
    var q := (if x < 0 then -x else x) / (if y < 0 then -y else y);
    if (x < 0) == (y < 0) then q else -q
  }

  /** Division and remainder; a zero divisor gives what the solver's operators give. */
  function DivSem(op: BvOp, w: nat, x: nat, y: nat): int {
    match op
    case UDiv => if y == 0 then -1 else x / y
    case URem => if y == 0 then x else x % y
    case SDiv =>
      if Signed(w, y) == 0 then (if Signed(w, x) < 0 then 1 else -1)
      else TruncDiv(Signed(w, x), Signed(w, y))
    case _ =>
      if Signed(w, y) == 0 then x
      else Signed(w, x) - Signed(w, y) * TruncDiv(Signed(w, x), Signed(w, y))
  }

  function ShiftSem(op: BvOp, w: nat, x: nat, y: nat): int {
    match op
    case Shl => if y >= w then 0 else x * Pow2(y)
    case LShr => if y >= w then 0 else x / Pow2(y)
    case _ => if y >= w then (if Signed(w, x) < 0 then -1 else 0) else Signed(w, x) / Pow2(y)
  }

  function BvSem(op: BvOp, w: nat, x: nat, y: nat): (r: nat)
    ensures r < Pow2(w)
  {
    var r: int := match op
      case Add => x + y
      case Sub => x - y
      case Mul => x * y
      case UDiv => DivSem(op, w, x, y)
      case URem => DivSem(op, w, x, y)
      case SDiv => DivSem(op, w, x, y)
      case SRem => DivSem(op, w, x, y)
      case Shl => ShiftSem(op, w, x, y)
      case LShr => ShiftSem(op, w, x, y)
      case AShr => ShiftSem(op, w, x, y)
      case BAnd => And(x, y)
      case BOr => Or(x, y)
      case BXor => Xor(x, y);
    r % Pow2(w)
  }

  lemma {:induction false} AddMeaning(w: nat, x: nat, y: nat)
    ensures BvSem(Add, w, x, y) == (x + y) % Pow2(w)
  {
    hide DivSem, ShiftSem, And, Or, Xor;
  }

  /** The solver's no-overflow predicates for additions: the signed one is about two positive operands
      only; that two negative ones fit is another predicate, `bvadd_no_underflow`. */
  predicate PredSem(p: BvPred, w: nat, x: nat, y: nat) {
    match p
    case Ult => x < y
    case Ule => x <= y
    case Ugt => x > y
    case Uge => x >= y
    case Slt => Signed(w, x) < Signed(w, y)
    case Sgt => Signed(w, x) > Signed(w, y)
    case Sge => Signed(w, x) >= Signed(w, y)
    case AddNoOverflowU => x + y < Pow2(w)
    case AddNoOverflowS => Signed(w, x) > 0 && Signed(w, y) > 0 ==> Signed(w, (x + y) % Pow2(w)) > 0
  }

  predicate BoolSem(op: BoolOp, x: bool, y: bool) {
    match op case LAnd => x && y case LOr => x || y case LXor => x != y
  }

  function SignExtend(w: nat, x: nat, out: nat): (r: nat)
    ensures r < Pow2(out)
  {
    Signed(w, x) % Pow2(out)
  }

  function OpSem(op: Op, ss: seq<Sort>, vs: seq<Value>, m: Model): (v: Value)
    requires OpSorted(op, ss) && |vs| == |ss|
    requires forall i :: 0 <= i < |vs| ==> HasSort(vs[i], ss[i])
    ensures HasSort(v, OpSort(op, ss))
  {
    match op
    case Lookup(fn, w) => CellValue(m, fn, vs, w)
    case Neg => VBool(!Truth(vs[0]))
    case Logic(lop) => VBool(BoolSem(lop, Truth(vs[0]), Truth(vs[1])))
    case AllOf => VBool(forall i :: 0 <= i < |vs| ==> Truth(vs[i]))
    case Eq => VBool(vs[0] == vs[1])
    case Bv(bop) => VBv(ss[0].width, BvSem(bop, ss[0].width, Num(vs[0]), Num(vs[1])))
    case Cmp(p) => VBool(PredSem(p, ss[0].width, Num(vs[0]), Num(vs[1])))
    case Extract(w) => VBv(w, Num(vs[0]) % Pow2(w))
    case ZeroExt(w) =>
      Pow2Mono(ss[0].width, w);
      assert HasSort(vs[0], ss[0]);
      VBv(w, Num(vs[0]))
    case SignExt(w) => VBv(w, SignExtend(ss[0].width, Num(vs[0]), w))
  }

  predicate Truth(v: Value) { v == VBool(true) }

  function Num(v: Value): nat { if v.VBv? then v.n else 0 }

  function Eval(t: RawTerm, m: Model): (v: Value)
    requires WellSorted(t)
    ensures HasSort(v, SortOf(t))
  {
    match t
    case Lit(v) => v
    case Sym(name, s) => ConstValue(m, name, s)
    case Ite(c, a, b) => if Eval(c, m).b then Eval(a, m) else Eval(b, m)
    case Node(op, args) =>
      OpSem(op, Sorts(args), seq(|args|, i requires 0 <= i < |args| => Eval(args[i], m)), m)
  }

  function EvalAll(ts: seq<Term>, m: Model): (vs: seq<Value>)
    ensures |vs| == |ts|
    ensures forall i :: 0 <= i < |ts| ==> vs[i] == Eval(ts[i], m)
  {
    seq(|ts|, i requires 0 <= i < |ts| => Eval(ts[i], m))
  }

  lemma {:induction false} EvalNode(op: Op, args: seq<Term>, m: Model)
    requires OpSorted(op, Sorts(args))
    ensures WellSorted(Node(op, args))
    ensures Eval(Node(op, args), m) == OpSem(op, Sorts(args), EvalAll(args, m), m)
  {
    assert EvalAll(args, m) == seq(|args|, i requires 0 <= i < |args| => Eval(args[i], m));
  }

  /** `a == b`. */
  function Equal(a: Term, b: Term): (t: Term)
    requires SortOf(a) == SortOf(b)
    ensures SortOf(t) == SBool
    ensures forall m: Model :: Eval(t, m) == VBool(Eval(a, m) == Eval(b, m))
  {
    var t := Node(Eq, [a, b]);
    assert forall m: Model :: Eval(t, m) == VBool(Eval(a, m) == Eval(b, m)) by {
      forall m: Model { EvalNode(Eq, [a, b], m); }
    }
    t
  }

  /** `Not(a)`. */
  function Negate(a: Term): (t: Term)
    requires SortOf(a) == SBool
    ensures SortOf(t) == SBool
    ensures forall m: Model :: Eval(t, m) == VBool(Eval(a, m) != VBool(true))
  {
    var t := Node(Neg, [a]);
    assert forall m: Model :: Eval(t, m) == VBool(Eval(a, m) != VBool(true)) by {
      forall m: Model { EvalNode(Neg, [a], m); }
    }
    t
  }

  function BvTerm(op: BvOp, a: Term, b: Term): (t: Term)
    requires SortOf(a) == SortOf(b) && SortOf(a).SBv?
    ensures SortOf(t) == SortOf(a)
  {
    Node(Bv(op), [a, b])
  }

  function CmpTerm(p: BvPred, a: Term, b: Term): (t: Term)
    requires SortOf(a) == SortOf(b) && SortOf(a).SBv?
    ensures SortOf(t) == SBool
  {
    Node(Cmp(p), [a, b])
  }

  /** A bit-vector operator or predicate applied to two terms. */
  lemma {:induction false} BvNode(op: BvOp, a: Term, b: Term, m: Model)
    requires SortOf(a) == SortOf(b) && SortOf(a).SBv?
    ensures var w := SortOf(a).width;
            Eval(BvTerm(op, a, b), m) == VBv(w, BvSem(op, w, Num(Eval(a, m)), Num(Eval(b, m))))
  {
    hide BvSem;
    EvalNode(Bv(op), [a, b], m);
  }

  lemma {:induction false} CmpNode(p: BvPred, a: Term, b: Term, m: Model)
    requires SortOf(a) == SortOf(b) && SortOf(a).SBv?
    ensures Eval(CmpTerm(p, a, b), m) == VBool(PredSem(p, SortOf(a).width, Num(Eval(a, m)), Num(Eval(b, m))))
  {
    hide PredSem;
    EvalNode(Cmp(p), [a, b], m);
  }

  ghost predicate Holds(t: Term, m: Model) {
    Eval(t, m) == VBool(true)
  }

  /** The valuation satisfies the path condition. */
  ghost predicate Sat(pc: seq<Term>, m: Model) {
    forall i :: 0 <= i < |pc| ==> Holds(pc[i], m)
  }

  /* ---------- the solver ---------- */

  datatype Oracle = Oracle(simplify: Term -> Term, entails: (seq<Term>, Term) -> bool)

  ghost predicate Sound(o: Oracle) {
    && (forall t: Term {:trigger SortOf(o.simplify(t))} :: SortOf(o.simplify(t)) == SortOf(t))
    && (forall t: Term, m: Model {:trigger Eval(o.simplify(t), m)} :: Eval(o.simplify(t), m) == Eval(t, m))
    && (forall pc: seq<Term>, t: Term, m: Model :: o.entails(pc, t) && Sat(pc, m) ==> Holds(t, m))
  }

  /** `simplify` reduced the term to this literal. */
  predicate IsTrue(o: Oracle, t: Term) { o.simplify(t) == TRUE }
  predicate IsFalse(o: Oracle, t: Term) { o.simplify(t) == FALSE }

  /** The conservative equality test: `true` is a proof, `false` says nothing. */
  predicate DefinitelyEqual(o: Oracle, a: Term, b: Term) {
    a == b || (SortOf(a) == SortOf(b) && IsTrue(o, Equal(a, b)))
  }

  /** `path_condition_implies`; a non-boolean condition cannot be added to the solver. */
  predicate Implied(o: Oracle, pc: seq<Term>, c: Term) {
    SortOf(c) == SBool && o.entails(pc, c)
  }

  /** `util.If` on two solver terms. */
  function If(o: Oracle, cond: Term, a: Term, b: Term): Option<Term> {
    if SortOf(cond) != SBool then None else
    var c := o.simplify(cond);
    if IsTrue(o, c) then Some(a)
    else if IsFalse(o, c) then Some(b)
    else if SortOf(a) != SortOf(b) || SortOf(c) != SBool then None
    else if DefinitelyEqual(o, a, b) then Some(a)
    else Some(Ite(c, a, b))
  }

  /** `If` is the conditional under every valuation, whichever shortcut it took. */
  lemma {:induction false} IfMeaning(o: Oracle, cond: Term, a: Term, b: Term, m: Model)
    requires Sound(o) && If(o, cond, a, b).Some?
    ensures Eval(If(o, cond, a, b).value, m) == if Holds(cond, m) then Eval(a, m) else Eval(b, m)
    ensures SortOf(a) == SortOf(b) ==> SortOf(If(o, cond, a, b).value) == SortOf(a)
  {
    hide OpSem;
    var c := o.simplify(cond);
    assert Eval(c, m) == Eval(cond, m);
    assert Eval(o.simplify(c), m) == Eval(c, m);
    if SortOf(a) == SortOf(b) {
      var e := Equal(a, b);
      assert Eval(o.simplify(e), m) == Eval(e, m);
    }
  }

  /** Whatever the solver proves under the path condition holds in every valuation that meets it. */
  lemma {:induction false} ImpliedHolds(o: Oracle, pc: seq<Term>, c: Term, m: Model)
    requires Sound(o) && Implied(o, pc, c) && Sat(pc, m)
    ensures Holds(c, m)
  {
  }

  /* ---------- partial_eval ---------- */

  /** `partial_eval`: drop the side of each conditional that the path condition rules out. */
  function PartialEval(o: Oracle, pc: seq<Term>, t: Term): Option<Term>
    decreases t
  {
    match t
    case Ite(c, a, b) =>
      if Implied(o, pc, c) then PartialEval(o, pc, a)
      else if Implied(o, pc, Negate(c)) then PartialEval(o, pc, b)
      else
        var a' :- PartialEval(o, pc, a);
        var b' :- PartialEval(o, pc, b);
        If(o, c, a', b')
    case Lit(_) => Some(t)
    case Sym(_, _) => Some(t)
    case Node(op, args) =>
      var args' :- PartialEvalAll(o, pc, args);
      if OpSorted(op, Sorts(args')) then Some(Node(op, args')) else None
  }

  function PartialEvalAll(o: Oracle, pc: seq<Term>, ts: seq<Term>): Option<seq<Term>>
    decreases ts
  {
    if ts == [] then Some([]) else
      var t :- PartialEval(o, pc, ts[0]);
      var rest :- PartialEvalAll(o, pc, ts[1..]);
      Some([t] + rest)
  }

  /** Partial evaluation never fails on a well-sorted term, keeps its sort, and under every
      valuation of the path condition keeps its value, however deeply conditionals are nested. */
  lemma {:induction false} PartialEvalMeaning(o: Oracle, pc: seq<Term>, t: Term, m: Model)
    requires Sound(o)
    ensures var r := PartialEval(o, pc, t);
            && r.Some?
            && SortOf(r.value) == SortOf(t)
            && (Sat(pc, m) ==> Eval(r.value, m) == Eval(t, m))
    decreases t
  {
    hide OpSem, OpSorted, OpSort;
    match t
    case Ite(c, a, b) =>
      PartialEvalMeaning(o, pc, a, m);
      PartialEvalMeaning(o, pc, b, m);
      PartialEvalIte(o, pc, c, a, b, m);
    case Lit(_) =>
    case Sym(_, _) =>
    case Node(op, args) =>
      PartialEvalAllMeaning(o, pc, args, m);
      var args' := PartialEvalAll(o, pc, args).value;
      assert Sorts(args') == Sorts(args);
      EvalNode(op, args, m);
      EvalNode(op, args', m);
      assert Sat(pc, m) ==> EvalAll(args', m) == EvalAll(args, m);
  }

  lemma {:induction false} PartialEvalIte(o: Oracle, pc: seq<Term>, c: Term, a: Term, b: Term, m: Model)
    requires Sound(o) && SortOf(c) == SBool && SortOf(a) == SortOf(b)
    requires PartialEval(o, pc, a).Some? && PartialEval(o, pc, b).Some?
    requires SortOf(PartialEval(o, pc, a).value) == SortOf(a)
    requires SortOf(PartialEval(o, pc, b).value) == SortOf(b)
    requires Sat(pc, m) ==> Eval(PartialEval(o, pc, a).value, m) == Eval(a, m)
    requires Sat(pc, m) ==> Eval(PartialEval(o, pc, b).value, m) == Eval(b, m)
    ensures var r := PartialEval(o, pc, Ite(c, a, b));
            && r.Some?
            && SortOf(r.value) == SortOf(a)
            && (Sat(pc, m) ==> Eval(r.value, m) == if Holds(c, m) then Eval(a, m) else Eval(b, m))
  {
    hide OpSem, OpSorted, OpSort;
    var nc := Negate(c);
    var a', b' := PartialEval(o, pc, a).value, PartialEval(o, pc, b).value;
    assert SortOf(o.simplify(c)) == SortOf(c);
    if Implied(o, pc, c) {
      if Sat(pc, m) { ImpliedHolds(o, pc, c, m); }
    } else if Implied(o, pc, nc) {
      if Sat(pc, m) { ImpliedHolds(o, pc, nc, m); }
    } else {
      IfMeaning(o, c, a', b', m);
    }
  }

  lemma {:induction false} PartialEvalAllMeaning(o: Oracle, pc: seq<Term>, ts: seq<Term>, m: Model)
    requires Sound(o)
    ensures var r := PartialEvalAll(o, pc, ts);
            && r.Some? && |r.value| == |ts|
            && (forall i :: 0 <= i < |ts| ==> SortOf(r.value[i]) == SortOf(ts[i]))
            && (Sat(pc, m) ==> forall i :: 0 <= i < |ts| ==> Eval(r.value[i], m) == Eval(ts[i], m))
    decreases ts
  {
    hide OpSem, OpSorted, OpSort;
    if ts != [] {
      PartialEvalMeaning(o, pc, ts[0], m);
      PartialEvalAllMeaning(o, pc, ts[1..], m);
    }
  }
}
