/** The programs the symbolic evaluator is made for, as a static typing discipline.

    The evaluator keeps apart what the machine does not: a boolean and a one-bit number are different sorts to
    the solver, a struct field must be a literal, and an index narrower than 64 bits must be one.  A typing gives
    each local of a function one type; the type of a pointer says which of its indices are literals.
    Pointers are not chosen by a condition: `select` is for numbers, and functions return numbers.
 */
module Typing {
  import opened Options
  import opened Words
  import opened Terms
  import opened References
  import opened Programs

  /** An index that is a literal, or any 64-bit one. */
  datatype Index = Known(v: Value) | Open

  /** The type of a value; a pointer leads into an object along a path. */
  datatype Ty = TyBool | TyBv(width: nat) | TyPtr(obj: IType, path: seq<Index>)

  /** The types of the locals of a function and of its result. */
  datatype Sig = Sig(locals: map<string, Ty>, result: Option<Ty>)

  predicate IsNumber(t: Ty) { !t.TyPtr? }

  /* ---------- operands ---------- */

  function OperandTy(G: map<string, Ty>, L: map<string, Ty>, x: Operand): Option<Ty> {
    match x
    case Local(name) => if name in L then Some(L[name]) else None
    case Global(name) => if name in G then Some(G[name]) else None
    case Int(v, w) => if v >= Pow2(w) then None else if w == 1 then Some(TyBool) else Some(TyBv(w))
  }

  function IndexOf(G: map<string, Ty>, L: map<string, Ty>, x: Operand): Option<Index> {
    match x
    case Int(v, w) => if w != 1 && v < Pow2(w) then Some(Known(VBv(w, v))) else None
    case _ => if OperandTy(G, L, x) == Some(TyBv(64)) then Some(Open) else None
  }

  function IndicesOf(G: map<string, Ty>, L: map<string, Ty>, xs: seq<Operand>): (r: Option<seq<Index>>)
    ensures r.Some? ==> |r.value| == |xs|
  {
    if xs == [] then Some([]) else
      var i :- IndexOf(G, L, xs[0]);
      var rest :- IndicesOf(G, L, xs[1..]);
      Some([i] + rest)
  }

  /* ---------- pointers ---------- */

  function SumIndex(a: Index, b: Index): Index {
    if a.Known? && b.Known? then Known(VBv(64, (Num(WidenValue(a.v)) + Num(WidenValue(b.v))) % W64)) else Open
  }

  /** The path after one gep. */
  function StepPath(path: seq<Index>, idx: seq<Index>): seq<Index>
    requires path != [] && idx != []
  {
    var n := |path| - 1;
    path[..n] + [SumIndex(path[n], idx[0])] + idx[1..]
  }

  predicate Is64(i: Index) { i.Open? || (i.v.VBv? && i.v.width == 64) }

  /** The type of what a path leads to. */
  function Reach(t: IType, path: seq<Index>, leading: bool): Option<IType>
    decreases path
  {
    if path == [] then Some(t) else
    match t
    case TInt(_) => None
    case TArray(n, of) => if Is64(path[0]) && n < W64 then Reach(of, path[1..], false) else None
    case TPointer(to) => if leading && Is64(path[0]) then Reach(to, path[1..], false) else None
    case TStruct(fields) =>
      if path[0].Known? && path[0].v.VBv? && path[0].v.n < |fields|
      then Reach(fields[path[0].v.n], path[1..], false) else None
  }

  /** A pointer of this type leads to a number of `w` bits. */
  predicate LeadsTo(t: Ty, w: nat) { t.TyPtr? && Reach(t.obj, t.path, true) == Some(TInt(w)) }

  /** A literal 64-bit index may be forgotten. */
  predicate IndexBelow(i: Index, j: Index) { i == j || (j.Open? && i.v.VBv? && i.v.width == 64) }

  predicate Below(s: Ty, t: Ty) {
    || s == t
    || (s.TyPtr? && t.TyPtr? && s.obj == t.obj && |s.path| == |t.path|
        && forall i :: 0 <= i < |s.path| ==> IndexBelow(s.path[i], t.path[i]))
  }

  predicate BelowO(s: Option<Ty>, t: Ty) { s.Some? && Below(s.value, t) }

  /* ---------- instructions ---------- */

  /** A binary operator on two numbers of one type; the bitwise ones also work on booleans. */
  predicate BinaryOk(op: BvOp, a: Ty, b: Ty, t: Ty) {
    || (a.TyBv? && b == a && t == a)
    || ((op.BAnd? || op.BOr? || op.BXor?) && t == TyBool
        && ((a == TyBool && (b == TyBool || b == TyBv(1))) || (a == TyBv(1) && b == TyBool)))
  }

  predicate ConvertOk(cast: Cast, a: Ty, to: nat, t: Ty) {
    && t == TyBv(to)
    && match cast
       case Trunc => a.TyBv? && a.width > to
       case ZExt => (a == TyBool && to > 1) || (a.TyBv? && a.width < to)
       case SExt => a.TyBv? && a.width < to
  }

  predicate RhsOk(G: map<string, Ty>, L: map<string, Ty>, rhs: Rhs, t: Ty)
    requires !rhs.Call?
  {
    match rhs
    case Binary(op, a, b, _, _, _) =>
      var x, y := OperandTy(G, L, a), OperandTy(G, L, b);
      x.Some? && y.Some? && BinaryOk(op, x.value, y.value, t)
    case Compare(cmp, a, b) =>
      var x, y := OperandTy(G, L, a), OperandTy(G, L, b);
      t == TyBool && x.Some? && y == x && IsNumber(x.value) && (cmp.IOrd? ==> x.value.TyBv?)
    case Convert(cast, a, w) =>
      var x := OperandTy(G, L, a);
      x.Some? && ConvertOk(cast, x.value, w, t)
    case Select(c, a, b) =>
      OperandTy(G, L, c) == Some(TyBool) && IsNumber(t) && OperandTy(G, L, a) == OperandTy(G, L, b) == Some(t)
    case Load(p) =>
      var x := OperandTy(G, L, p);
      t.TyBv? && x.Some? && LeadsTo(x.value, t.width)
    case GetElement(p, idx) =>
      var x, ix := OperandTy(G, L, p), IndicesOf(G, L, idx);
      && x.Some? && x.value.TyPtr? && x.value.path != [] && ix.Some? && ix.value != []
      && Below(TyPtr(x.value.obj, StepPath(x.value.path, ix.value)), t)
    case Alloca(itype) => Below(TyPtr(itype, [Known(ORIGIN_VALUE)]), t)
    case Phi(cases) => forall l :: l in cases ==> BelowO(OperandTy(G, L, cases[l]), t)
  }

  /** The arguments of a call fit the parameters. */
  predicate ArgsOk(P: Program, S: map<string, Sig>, G: map<string, Ty>, L: map<string, Ty>, f: string,
                   args: seq<Operand>)
  {
    && f in P && f in S && |args| == |P[f].params|
    && forall i :: 0 <= i < |args| ==>
         P[f].params[i] in S[f].locals && BelowO(OperandTy(G, L, args[i]), S[f].locals[P[f].params[i]])
  }

  predicate InstrOk(P: Program, S: map<string, Sig>, G: map<string, Ty>, L: map<string, Ty>, i: Instr) {
    match i
    case Assign(dst, rhs) =>
      dst in L && if rhs.Call? then ArgsOk(P, S, G, L, rhs.fn, rhs.args) && S[rhs.fn].result == Some(L[dst])
                  else RhsOk(G, L, rhs, L[dst])
    case CallVoid(f, args) => ArgsOk(P, S, G, L, f, args)
    case Store(v, p) =>
      var x, y := OperandTy(G, L, v), OperandTy(G, L, p);
      x.Some? && x.value.TyBv? && y.Some? && LeadsTo(y.value, x.value.width)
  }

  /** The cases of a switch are of the type of what is switched on. */
  predicate CasesOk(G: map<string, Ty>, L: map<string, Ty>, x: Operand, cases: seq<(Operand, string)>) {
    && OperandTy(G, L, x).Some? && IsNumber(OperandTy(G, L, x).value)
    && forall i :: 0 <= i < |cases| ==> OperandTy(G, L, cases[i].0) == OperandTy(G, L, x)
  }

  predicate TermOk(G: map<string, Ty>, sig: Sig, t: Terminator) {
    match t
    case Return(None) => sig.result.None?
    case Return(Some(x)) => sig.result.Some? && OperandTy(G, sig.locals, x) == sig.result
    case Jump(_) => true
    case Branch(c, _, _) => OperandTy(G, sig.locals, c) == Some(TyBool)
    case Switch(x, _, cases) => CasesOk(G, sig.locals, x, cases)
    case Unreachable => true
  }

  predicate FunctionOk(P: Program, S: map<string, Sig>, G: map<string, Ty>, fn: Function, sig: Sig) {
    && (sig.result.Some? ==> IsNumber(sig.result.value))
    && forall l :: l in fn.blocks ==> BlockOk(P, S, G, fn.blocks[l], sig)
  }

  predicate BlockOk(P: Program, S: map<string, Sig>, G: map<string, Ty>, b: Block, sig: Sig) {
    TermOk(G, sig, b.term) && forall i :: 0 <= i < |b.instrs| ==> InstrOk(P, S, G, sig.locals, b.instrs[i])
  }

  predicate ProgramOk(P: Program, S: map<string, Sig>, G: map<string, Ty>) {
    forall f :: f in P ==> f in S && FunctionOk(P, S, G, P[f], S[f])
  }

  /** Where control goes next is typed. */
  predicate TargetOk(G: map<string, Ty>, L: map<string, Ty>, t: Target) {
    match t case Goto(_) => true case Cases(x, _, cases) => CasesOk(G, L, x, cases)
  }

  /* ---------- the objects of a run ---------- */

  /** The number of indices on the way to a field. */
  function Arity(t: IType, fields: seq<nat>): nat
    decreases t
  {
    match t
    case TInt(_) => 0
    case TPointer(to) => 1 + Arity(to, fields)
    case TArray(_, of) => 1 + Arity(of, fields)
    case TStruct(fs) => if fields == [] || fields[0] >= |fs| then 0 else Arity(fs[fields[0]], fields[1..])
  }

  /** The leaf at `tup` has `w` bits. */
  predicate HasLeaf(m: map<seq<nat>, nat>, tup: seq<nat>, w: nat) { tup in m && m[tup] == w }

  lemma {:induction false} FieldLeaf(fields: seq<IType>, n: nat, depth: nat, f: nat, tup: seq<nat>, w: nat)
    requires f < n <= |fields| && HasLeaf(Leaves(fields[f], depth), tup, w)
    ensures HasLeaf(FieldLeaves(fields, n, depth), [f] + tup, w)
    decreases n
  {
    hide Leaves, FieldLeaves, Prefixed, HasLeaf;
    var init, last := FieldLeaves(fields, n - 1, depth), Leaves(fields[n - 1], depth);
    if f < n - 1 { FieldLeaf(fields, n - 1, depth, f, tup, w); }
    PrefixedAt(n - 1, last, f, tup, w);
    LeafOfUnion(init, Prefixed(n - 1, last), [f] + tup, w);
    LastFields(fields, n, depth);
  }

  lemma {:induction false} LeafOfUnion(a: map<seq<nat>, nat>, b: map<seq<nat>, nat>, tup: seq<nat>, w: nat)
    requires HasLeaf(b, tup, w) || (tup !in b && HasLeaf(a, tup, w))
    ensures HasLeaf(a + b, tup, w)
  {
  }

  lemma {:induction false} PrefixedAt(n: nat, m: map<seq<nat>, nat>, f: nat, tup: seq<nat>, w: nat)
    ensures [f] + tup in Prefixed(n, m) ==> f == n
    ensures f == n && HasLeaf(m, tup, w) ==> HasLeaf(Prefixed(n, m), [f] + tup, w)
  {
    assert ([f] + tup)[0] == f && ([f] + tup)[1..] == tup;
  }

  /** The leaves of one field. */
  function Prefixed(f: nat, m: map<seq<nat>, nat>): map<seq<nat>, nat> {
    map tup: seq<nat> | tup in (set rest | rest in m :: [f] + rest) && tup[1..] in m :: m[tup[1..]]
  }

  lemma {:induction false} LastFields(fields: seq<IType>, n: nat, depth: nat)
    requires 0 < n <= |fields|
    ensures FieldLeaves(fields, n, depth)
      == FieldLeaves(fields, n - 1, depth) + Prefixed(n - 1, Leaves(fields[n - 1], depth))
  {
    hide Leaves;
  }

  /* ---------- names of objects ---------- */

  lemma {:induction false} NameEnds(pos: Position)
    ensures ObjectName(pos) != []
    ensures var s := ObjectName(pos); s[|s| - 1] == if pos == [] then 'a' else '.'
  {
    if pos != [] { UnaryEnds(pos[|pos| - 1]); }
  }

  lemma {:induction false} UnaryEnds(n: nat)
    ensures var s := Unary(n); |s| == n + 1 && s[n] == '.' && forall i :: 0 <= i < n ==> s[i] == 'i'
  {
    if n > 0 { UnaryEnds(n - 1); }
  }

  lemma {:induction false} SuffixesAgree(a: string, m: nat, b: string, n: nat)
    requires a != [] && b != [] && a[|a| - 1] != 'i' && b[|b| - 1] != 'i' && a + Unary(m) == b + Unary(n)
    ensures m == n && a == b
  {
    UnaryEnds(m);
    UnaryEnds(n);
    var s := a + Unary(m);
    assert s[|a| - 1] == a[|a| - 1] && s[|b| - 1] == b[|b| - 1];
    assert m == n;
    assert a == s[..|a|] && b == (b + Unary(n))[..|b|];
  }

  /** Objects allocated at different places have different names. */
  lemma {:induction false} NamesDiffer(p: Position, q: Position)
    requires ObjectName(p) == ObjectName(q)
    ensures p == q
    decreases |p|
  {
    NameEnds(p);
    NameEnds(q);
    if p != [] {
      var p1, q1 := p[..|p| - 1], q[..|q| - 1];
      NameEnds(p1);
      NameEnds(q1);
      SuffixesAgree(ObjectName(p1), p[|p| - 1], ObjectName(q1), q[|q| - 1]);
      NamesDiffer(p1, q1);
      assert p == p1 + [p[|p| - 1]] && q == q1 + [q[|q| - 1]];
    }
  }

  /** The name of an object that is allocated at this position or further along. */
  ghost predicate NamedFrom(pos: Position, name: string) {
    exists q: Position :: pos <= q && ObjectName(q) == name
  }

  lemma {:induction false} NamedBelow(pos: Position, pos': Position, name: string)
    requires pos <= pos' && NamedFrom(pos', name)
    ensures NamedFrom(pos, name)
  {
    var q: Position :| pos' <= q && ObjectName(q) == name;
    assert pos <= q;
  }

  lemma {:induction false} NamedApart(pos: Position, j: nat, k: nat, name: string)
    requires j != k && NamedFrom(pos + [j], name)
    ensures !NamedFrom(pos + [k], name)
  {
    var q: Position :| pos + [j] <= q && ObjectName(q) == name;
    if NamedFrom(pos + [k], name) {
      var r: Position :| pos + [k] <= r && ObjectName(r) == name;
      assert q[|pos|] == (pos + [j])[|pos|] && r[|pos|] == (pos + [k])[|pos|];
      NamesDiffer(q, r);
    }
  }
}
