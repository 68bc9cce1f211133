/** When the symbolic evaluator finishes: libirpy/z3eval.py and libirpy/util.py.

    Module Soundness says what a finished run means.  Here is when a run does finish: first for each operation,
    with what the solver must prove for it, then for whole runs.  With a solver that proves everything that is
    true, a typed program whose concrete run ends under every valuation of the path condition is evaluated to
    the end.
 */
module Completeness {
  import opened Options
  import opened Words
  import opened Terms
  import opened References
  import opened Programs
  import opened SymbolicExec
  import opened Soundness
  import opened Typing

  /* ---------- a solver that proves what is true ---------- */

  function AnyModel(): Model { Model((n, s) => DefaultValue(s), (f, a, w) => 0) }

  /** The term holds under every valuation of the path condition. */
  ghost predicate Follows(pc: seq<Term>, t: Term) { forall m: Model :: Sat(pc, m) ==> Holds(t, m) }

  ghost predicate AlwaysIs(t: Term, v: Value) { forall m: Model :: Eval(t, m) == v }

  /** Some valuation meets the path condition. */
  ghost predicate Live(pc: seq<Term>) { exists m: Model :: Sat(pc, m) }

  /** The solver proves everything that follows, and simplifies every constant to a literal. */
  ghost predicate Exact(o: Oracle) {
    && Sound(o)
    && (forall pc: seq<Term>, t: Term :: SortOf(t) == SBool && Follows(pc, t) ==> o.entails(pc, t))
    && (forall t: Term, v: Value :: AlwaysIs(t, v) ==> o.simplify(t) == Lit(v))
  }

  ghost function Ideal(t: Term): (r: Term)
    ensures r == t || exists v :: AlwaysIs(t, v) && r == Lit(v)
  {
    var v := Eval(t, AnyModel());
    assert HasSort(v, SortOf(t));
    if AlwaysIs(t, v) then Lit(v) else t
  }

  /** There can be such a solver. */
  lemma {:induction false} ExactExists()
    ensures exists o :: Exact(o)
  {
    var o := Oracle(t => Ideal(t), (pc: seq<Term>, t: Term) => Follows(pc, t));
    forall t: Term ensures SortOf(o.simplify(t)) == SortOf(t) {
      assert HasSort(Eval(t, AnyModel()), SortOf(t));
    }
    forall t: Term, v: Value | AlwaysIs(t, v) ensures o.simplify(t) == Lit(v) {
      assert Eval(t, AnyModel()) == v;
    }
    assert Exact(o);
  }

  /* ---------- joining two sides ---------- */

  /** Values that a conditional can choose between: terms of one sort, or two pointers. */
  predicate Alike(a: SVal, b: SVal) {
    match (a, b)
    case (STerm(x), STerm(y)) => SortOf(x) == SortOf(y)
    case (SPtr(_), SPtr(_)) => true
    case _ => false
  }

  predicate MapsAlike(m1: map<string, SVal>, m2: map<string, SVal>) {
    forall k :: k in m1 && k in m2 ==> Alike(m1[k], m2[k])
  }

  predicate FramesAlike(l1: seq<map<string, SVal>>, l2: seq<map<string, SVal>>) {
    |l1| == |l2| && forall i :: 0 <= i < |l1| ==> MapsAlike(l1[i], l2[i])
  }

  /** Two finished sides that can be joined: as many frames, common keys with values that a conditional can choose
      between, and two results or none. */
  predicate Joinable(r1: SRes, r2: SRes)
    requires r1.Done? && r2.Done?
  {
    && MapsAlike(r1.st.globals, r2.st.globals) && FramesAlike(r1.st.locals, r2.st.locals)
    && match (r1.val, r2.val)
       case (None, None) => true
       case (Some(a), Some(b)) => Alike(a, b)
       case _ => false
  }

  /** The solver knows which side a condition takes. */
  predicate Decided(o: Oracle, cond: Term) {
    IsTrue(o, o.simplify(cond)) || IsFalse(o, o.simplify(cond))
  }

  lemma {:induction false} IfExact(o: Oracle, cond: Term, a: Term, b: Term)
    requires Sound(o) && SortOf(cond) == SBool
    ensures If(o, cond, a, b).Some? <==> Decided(o, cond) || SortOf(a) == SortOf(b)
    ensures SortOf(a) == SortOf(b) ==> SortOf(If(o, cond, a, b).value) == SortOf(a)
  {
    hide Eval;
    assert SortOf(o.simplify(cond)) == SortOf(cond);
  }

  lemma {:induction false} IfValExact(o: Oracle, cond: Term, a: SVal, b: SVal)
    requires Sound(o) && SortOf(cond) == SBool
    ensures IfVal(o, cond, a, b).Some? <==> Decided(o, cond) || Alike(a, b)
    ensures Alike(a, b) ==> Alike(IfVal(o, cond, a, b).value, a)
  {
    hide Sound, If;
    match (a, b)
    case (STerm(x), STerm(y)) => IfExact(o, cond, x, y);
    case _ =>
  }

  lemma {:induction false} MergeValsExact(o: Oracle, cond: Term, m1: map<string, SVal>, m2: map<string, SVal>)
    requires Sound(o) && SortOf(cond) == SBool
    ensures MergeVals(o, cond, m1, m2).Some? <==> Decided(o, cond) || MapsAlike(m1, m2)
  {
    hide Sound, IfVal, Alike, Decided;
    forall k | k in m1 && k in m2
      ensures IfVal(o, cond, m1[k], m2[k]).Some? <==> Decided(o, cond) || Alike(m1[k], m2[k])
    {
      IfValExact(o, cond, m1[k], m2[k]);
    }
  }

  lemma {:induction false} MergeFramesExact(o: Oracle, cond: Term, l1: seq<map<string, SVal>>,
                                            l2: seq<map<string, SVal>>)
    requires Sound(o) && SortOf(cond) == SBool
    ensures MergeFrames(o, cond, l1, l2).Some? <==> |l1| == |l2| && (Decided(o, cond) || FramesAlike(l1, l2))
    decreases |l1|
  {
    hide Sound, MergeVals, MapsAlike, Decided;
    if |l1| == |l2| && l1 != [] {
      MergeValsExact(o, cond, l1[0], l2[0]);
      MergeFramesExact(o, cond, l1[1..], l2[1..]);
      FramesSplit(l1, l2);
    }
  }

  lemma {:induction false} FramesSplit(l1: seq<map<string, SVal>>, l2: seq<map<string, SVal>>)
    requires |l1| == |l2| > 0
    ensures FramesAlike(l1, l2) <==> MapsAlike(l1[0], l2[0]) && FramesAlike(l1[1..], l2[1..])
  {
    hide MapsAlike;
    if MapsAlike(l1[0], l2[0]) && FramesAlike(l1[1..], l2[1..]) {
      forall i | 0 <= i < |l1| ensures MapsAlike(l1[i], l2[i]) {
        if i > 0 { assert MapsAlike(l1[1..][i - 1], l2[1..][i - 1]); }
      }
    }
  }

  /** Memories can always be merged. */
  lemma {:induction false} MergeRefsFinishes(o: Oracle, cond: Term, r1: Refs, r2: Refs)
    requires SortOf(cond) == SBool
    ensures MergeRefs(o, cond, r1, r2).Some?
  {
    hide Eval;
  }

  lemma {:induction false} MergeExact(o: Oracle, cond: Term, s1: SymState, s2: SymState)
    requires Sound(o) && SortOf(cond) == SBool
    ensures Merge(o, cond, s1, s2).Some? <==>
            && |s1.locals| == |s2.locals|
            && (Decided(o, cond) || (MapsAlike(s1.globals, s2.globals) && FramesAlike(s1.locals, s2.locals)))
  {
    hide Sound, MergeVals, MergeFrames, MergeRefs, MapsAlike, Decided;
    MergeValsExact(o, cond, s1.globals, s2.globals);
    MergeFramesExact(o, cond, s1.locals, s2.locals);
    MergeRefsFinishes(o, cond, s1.refs, s2.refs);
  }

  /** Two finished sides are joined exactly if they can be, unless the solver decides the condition after all. */
  lemma {:induction false} CombineExact(o: Oracle, cond: Term, scond: Term, r1: SRes, r2: SRes)
    requires Sound(o) && SortOf(cond) == SBool && SortOf(scond) == SBool && r1.Done? && r2.Done?
    ensures Joinable(r1, r2) ==> Combine(o, cond, scond, r1, r2).Done?
    ensures !Decided(o, cond) && !Decided(o, scond) ==>
              (Combine(o, cond, scond, r1, r2).Done? <==> Joinable(r1, r2))
  {
    hide Sound, Merge, IfVal, MapsAlike, FramesAlike, Alike, Decided;
    MergeExact(o, scond, r1.st, r2.st);
    AlikeFrames(r1.st.locals, r2.st.locals);
    if r1.val.Some? && r2.val.Some? { IfValExact(o, cond, r1.val.value, r2.val.value); }
  }

  lemma {:induction false} AlikeFrames(l1: seq<map<string, SVal>>, l2: seq<map<string, SVal>>)
    ensures FramesAlike(l1, l2) ==> |l1| == |l2|
  {
  }

  /** The result of running one side of a branch. */
  function SideResult(o: Oracle, P: Program, fn: Function, here: string, pos: Position, side: Term, n: nat, t: Target,
                      pc: seq<Term>, st: SymState, fuel: nat): SRes
    requires fuel > 0
  {
    STake(o, P, fn, here, pos + [n], t, pc + [side], st, fuel)
  }

  /** A branch finishes if the sides that are not pruned do and can be joined; with one side pruned it ends as
      the other. */
  lemma {:induction false} BranchFinishes(o: Oracle, P: Program, fn: Function, here: string, pos: Position, cond: Term,
                                          s: Term, n: Term, t1: Target, t2: Target, pc: seq<Term>, st: SymState,
                                          fuel: nat)
    requires Sound(o) && fuel > 0 && SortOf(cond) == SBool && s == o.simplify(cond) && SortOf(s) == SBool
    requires n == Negate(s)
    requires var r1 := SideResult(o, P, fn, here, pos, s, 0, t1, pc, st, fuel);
             var r2 := SideResult(o, P, fn, here, pos, n, 1, t2, pc, st, fuel);
             && (CanBeTrue(o, pc, s) ==> r1.Done?) && (CanBeFalse(o, pc, s) ==> r2.Done?)
             && (CanBeTrue(o, pc, s) && CanBeFalse(o, pc, s) ==> Joinable(r1, r2))
    ensures var r := SBranch(o, P, fn, here, pos, cond, t1, t2, pc, st, fuel);
            && r.Done?
            && (!CanBeTrue(o, pc, s) ==> r == SideResult(o, P, fn, here, pos, n, 1, t2, pc, st, fuel))
            && (!CanBeFalse(o, pc, s) ==> r == SideResult(o, P, fn, here, pos, s, 0, t1, pc, st, fuel))
            && (CanBeTrue(o, pc, s) && CanBeFalse(o, pc, s) ==>
                  r == Combine(o, cond, s, SideResult(o, P, fn, here, pos, s, 0, t1, pc, st, fuel),
                               SideResult(o, P, fn, here, pos, n, 1, t2, pc, st, fuel)))
  {
    hide STake, Sound, Joinable, MergeResults, Implied;
    var r1 := SideResult(o, P, fn, here, pos, s, 0, t1, pc, st, fuel);
    var r2 := SideResult(o, P, fn, here, pos, n, 1, t2, pc, st, fuel);
    if CanBeTrue(o, pc, s) && CanBeFalse(o, pc, s) { CombineExact(o, cond, s, r1, r2); }
  }

  /* ---------- operators ---------- */

  lemma {:induction false} AsBoolFinishes(o: Oracle, t: Term)
    requires Sound(o) && (SortOf(t) == SBool || SortOf(t) == SBv(1))
    ensures AsBool(o, t).Some? && SortOf(AsBool(o, t).value) == SBool
  {
    hide Sound, If;
    if SortOf(t) == SBv(1) { IfExact(o, Equal(t, BvVal(1, 1)), TRUE, FALSE); }
  }

  /** The bitwise operators on booleans, with a one-bit number on one side if need be. */
  lemma {:induction false} LogicFinishes(o: Oracle, pc: seq<Term>, op: BvOp, a: Term, b: Term)
    requires Sound(o) && (op.BAnd? || op.BOr? || op.BXor?) && (SortOf(a) == SBool || SortOf(b) == SBool)
    requires (SortOf(a) == SBool || SortOf(a) == SBv(1)) && (SortOf(b) == SBool || SortOf(b) == SBv(1))
    ensures var t := SBinary(o, pc, op, a, b, false, false, false); t.Some? && SortOf(t.value) == SBool
  {
    hide Sound, AsBool;
    AsBoolFinishes(o, a);
    AsBoolFinishes(o, b);
  }

  /** What the solver must prove for a binary operator on two numbers. */
  predicate Checked(o: Oracle, pc: seq<Term>, op: BvOp, a: Term, b: Term, nuw: bool, nsw: bool)
    requires SortOf(a) == SortOf(b) && SortOf(a).SBv?
  {
    && (nuw ==> op.Add? && Implied(o, pc, CmpTerm(AddNoOverflowU, a, b)))
    && (nsw ==> op.Add? && Implied(o, pc, CmpTerm(AddNoOverflowS, a, b)))
    && (op.UDiv? || op.SDiv? || op.URem? || op.SRem? ==> Implied(o, pc, Negate(Equal(b, BvVal(0, SortOf(a).width)))))
  }

  /** On two numbers of one width an operator is evaluated exactly if the solver proves its checks. */
  lemma {:induction false} BinaryFinishes(o: Oracle, pc: seq<Term>, op: BvOp, a: Term, b: Term, nuw: bool, nsw: bool)
    requires Sound(o) && SortOf(a) == SortOf(b) && SortOf(a).SBv?
    ensures var t := SBinary(o, pc, op, a, b, nuw, nsw, false);
            && (t.Some? <==> Checked(o, pc, op, a, b, nuw, nsw))
            && (t.Some? ==> SortOf(t.value) == SortOf(a))
  {
    hide Sound, If, PartialEval, Implied, Eval;
    if op.Shl? || op.LShr? || op.AShr? {
      var w := SortOf(a).width;
      var c, r: Term, p: Term := CmpTerm(Ult, b, BvVal(w, w)), BvTerm(op, a, b), Sym("poison", SBv(w));
      IfExact(o, c, r, p);
      PartialEvalMeaning(o, pc, If(o, c, r, p).value, AnyModel());
    }
  }

  lemma {:induction false} CompareFinishes(cmp: ICmp, a: Term, b: Term)
    requires SortOf(a) == SortOf(b) && (cmp.IOrd? ==> SortOf(a).SBv?)
    ensures SCompare(cmp, a, b).Some? && SortOf(SCompare(cmp, a, b).value) == SBool
  {
    hide Eval;
  }

  /** A number is truncated to fewer bits, or extended to more; a boolean is extended with zeros. */
  lemma {:induction false} ConvertFinishes(o: Oracle, cast: Cast, a: Term, to: nat)
    requires Sound(o)
    requires match cast
             case Trunc => SortOf(a).SBv? && SortOf(a).width > to
             case ZExt => if SortOf(a) == SBool then to > 1 else SortOf(a).width < to
             case SExt => SortOf(a).SBv? && SortOf(a).width < to
    ensures SConvert(o, cast, a, to).Some? && SortOf(SConvert(o, cast, a, to).value) == SBv(to)
  {
    hide Sound, If, Eval;
    if cast.ZExt? && SortOf(a) == SBool { IfExact(o, a, BvVal(1, to), BvVal(0, to)); }
  }

  lemma {:induction false} AllocaFinishes(st: SymState, pos: Position, t: IType)
    ensures SAlloca(st, pos, t).Some? <==> ObjectName(pos) !in st.refs
  {
  }

  /* ---------- memory ---------- */

  predicate All64(ts: seq<Term>) { forall i :: 0 <= i < |ts| ==> SortOf(ts[i]) == SBv(64) }

  /** A memory function from `n` indices to numbers of `w` bits. */
  predicate FnFits(f: Fn, n: nat, w: nat) {
    match f
    case Base(_, width) => width == w
    case Updated(g, at, val) => FnFits(g, n, w) && |at| == n && All64(at) && SortOf(val) == SBv(w)
    case Choice(c, a, b) => SortOf(c) == SBool && FnFits(a, n, w) && FnFits(b, n, w)
  }

  lemma {:induction false} ApplyFinishes(o: Oracle, f: Fn, args: seq<Term>, w: nat)
    requires Sound(o) && FnFits(f, |args|, w) && All64(args)
    ensures Apply(o, f, args).Some? && SortOf(Apply(o, f, args).value) == SBv(w)
    decreases f
  {
    hide Sound, If, Eval;
    match f
    case Base(id, width) => assert forall i :: 0 <= i < |args| ==> Sorts(args)[i] == SBv(64);
    case Updated(g, at, val) =>
      ApplyFinishes(o, g, args, w);
      IfExact(o, AllEqual(at, args).value, val, Apply(o, g, args).value);
    case Choice(c, a, b) =>
      ApplyFinishes(o, a, args, w);
      ApplyFinishes(o, b, args, w);
      IfExact(o, c, Apply(o, a, args).value, Apply(o, b, args).value);
  }

  /** Each object has a function for each of its leaves. */
  ghost predicate MemFits(refs: Refs, objs: map<string, IType>) {
    && refs.Keys == objs.Keys
    && forall x :: x in refs ==> ObjectFits(refs[x], objs[x])
  }

  ghost predicate ObjectFits(d: map<seq<nat>, Fn>, t: IType) {
    && d.Keys == Leaves(t, 0).Keys
    && forall f :: f in d ==> FnFits(d[f], Arity(t, f), Leaves(t, 0)[f])
  }

  /* ---------- paths ---------- */

  /** A term for this index: a constant, or any 64-bit number. */
  ghost predicate IndexFits(t: Term, i: Index) {
    match i case Known(v) => v.VBv? && AlwaysIs(t, v) case Open => SortOf(t) == SBv(64)
  }

  ghost predicate PathFits(ts: seq<Term>, path: seq<Index>) {
    |ts| == |path| && forall i :: 0 <= i < |ts| ==> IndexFits(ts[i], path[i])
  }

  lemma {:induction false} KnownSort(t: Term, v: Value)
    requires AlwaysIs(t, v)
    ensures HasSort(v, SortOf(t))
  {
    assert Eval(t, AnyModel()) == v;
  }

  lemma {:induction false} WidenFinishes(o: Oracle, t: Term, i: Index)
    requires Exact(o) && IndexFits(t, i)
    ensures Widen(o, t).Some?
    ensures i.Known? ==> AlwaysIs(Widen(o, t).value, WidenValue(i.v))
  {
    hide Eval;
    if i.Known? {
      KnownSort(t, i.v);
      assert o.simplify(t) == Lit(i.v);
      forall m: Model ensures Eval(Widen(o, t).value, m) == WidenValue(i.v) {
        WidenMeaning(o, t, m);
        assert Eval(t, m) == i.v;
      }
    }
  }

  lemma {:induction false} SumFits(o: Oracle, a: Term, b: Term, i: Index, j: Index)
    requires Exact(o) && IndexFits(a, i) && IndexFits(b, j)
    ensures Widen(o, a).Some? && Widen(o, b).Some?
    ensures IndexFits(Plus(Widen(o, a).value, Widen(o, b).value), SumIndex(i, j))
  {
    hide Exact, Widen, WidenValue;
    WidenFinishes(o, a, i);
    WidenFinishes(o, b, j);
    var x, y := Widen(o, a).value, Widen(o, b).value;
    if i.Known? && j.Known? {
      forall m: Model ensures Eval(Plus(x, y), m) == SumIndex(i, j).v {
        PlusMeaning(x, y, m);
        assert Eval(x, m) == WidenValue(i.v) && Eval(y, m) == WidenValue(j.v);
      }
    }
  }

  /** A further gep on a path already composed is one more step. */
  lemma {:induction false} ComposeAppend(o: Oracle, path: seq<Term>, geps: seq<seq<Term>>, g: seq<Term>)
    requires |path| > 0 && g != [] && ComposeGeps(o, path, geps).Some?
    ensures ComposeGeps(o, path, geps).value != []
    ensures ComposeGeps(o, path, geps + [g]) == ComposeGeps(o, ComposeGeps(o, path, geps).value, [g])
    decreases geps
  {
    hide Widen, Plus;
    if geps == [] {
      assert [] + [g] == [g];
    } else {
      var n := |path| - 1;
      assert (geps + [g])[1..] == geps[1..] + [g] && (geps + [g])[0] == geps[0];
      ComposeAppend(o, path[..n] + [Plus(Widen(o, path[n]).value, Widen(o, geps[0][0]).value)] + geps[0][1..],
                    geps[1..], g);
    }
  }

  lemma {:induction false} ComposeOne(o: Oracle, path: seq<Term>, g: seq<Term>)
    requires |path| > 0 && g != []
    ensures var n := |path| - 1;
            Widen(o, path[n]).Some? && Widen(o, g[0]).Some? ==>
              ComposeGeps(o, path, [g])
                == Some(path[..n] + [Plus(Widen(o, path[n]).value, Widen(o, g[0]).value)] + g[1..])
  {
    hide Widen, Plus;
    var n := |path| - 1;
    if Widen(o, path[n]).Some? && Widen(o, g[0]).Some? {
      var path' := path[..n] + [Plus(Widen(o, path[n]).value, Widen(o, g[0]).value)] + g[1..];
      assert ComposeGeps(o, path', [g][1..]) == Some(path');
    }
  }

  /** A pointer into objects of type `t` along such a path: on both sides of every conditional. */
  ghost predicate PointerFits(o: Oracle, objs: map<string, IType>, p: Pointer, t: IType, path: seq<Index>) {
    match p
    case PBase(ref, geps) =>
      && ref.itype == t && ref.name in objs && objs[ref.name] == t
      && ComposeGeps(o, [ORIGIN], geps).Some? && PathFits(ComposeGeps(o, [ORIGIN], geps).value, path)
    case PIte(c, p1, p2) => SortOf(c) == SBool && PointerFits(o, objs, p1, t, path) && PointerFits(o, objs, p2, t, path)
  }

  /** Indexing a pointer steps its path. */
  lemma {:induction false} GepFits(o: Oracle, objs: map<string, IType>, p: Pointer, t: IType, path: seq<Index>,
                                   ts: seq<Term>, idx: seq<Index>)
    requires Exact(o) && PointerFits(o, objs, p, t, path) && path != [] && ts != [] && PathFits(ts, idx)
    ensures PointerFits(o, objs, Gep(p, ts), t, StepPath(path, idx))
    decreases p
  {
    hide Exact, Widen, IndexFits, SumIndex, ComposeGeps;
    match p
    case PBase(ref, geps) =>
      var old_ := ComposeGeps(o, [ORIGIN], geps).value;
      ComposeAppend(o, [ORIGIN], geps, ts);
      SumFits(o, old_[|old_| - 1], ts[0], path[|path| - 1], idx[0]);
      ComposeOne(o, old_, ts);
    case PIte(c, p1, p2) =>
      GepFits(o, objs, p1, t, path, ts, idx);
      GepFits(o, objs, p2, t, path, ts, idx);
  }

  /** Simplification keeps what a path is. */
  lemma {:induction false} SimplifyFits(o: Oracle, ts: seq<Term>, path: seq<Index>)
    requires Exact(o) && PathFits(ts, path)
    ensures PathFits(SimplifyAll(o, ts), path)
  {
    hide Eval;
    forall i | 0 <= i < |ts| ensures IndexFits(SimplifyAll(o, ts)[i], path[i]) {
      assert IndexFits(ts[i], path[i]);
      assert forall m: Model :: Eval(o.simplify(ts[i]), m) == Eval(ts[i], m);
    }
  }

  lemma {:induction false} IndexSort(t: Term, i: Index)
    requires IndexFits(t, i)
    ensures SortOf(t).SBv? && (Is64(i) ==> SortOf(t) == SBv(64))
  {
    if i.Known? { KnownSort(t, i.v); }
  }

  /** The path was decoded to a place of the type it leads to; a place of numbers has as many indices as its field
      asks for, and the width of its leaf. */
  ghost predicate Placed(r: Option<Place>, t: IType, path: seq<Index>, leading: bool, depth: nat) {
    && r.Some? && Reach(t, path, leading) == Some(r.value.itype) && All64(r.value.idx)
    && (r.value.itype.TInt? ==>
          |r.value.idx| == Arity(t, r.value.fields)
          && HasLeaf(Leaves(t, depth), r.value.fields, r.value.itype.width))
  }

  /** A path of a type that leads somewhere, and stays in bounds under every valuation of the path condition, is
      decoded. */
  lemma {:induction false} BuildPathFinishes(o: Oracle, pc: seq<Term>, t: IType, ts: seq<Term>, path: seq<Index>,
                                             leading: bool, depth: nat)
    requires Exact(o) && PathFits(ts, path) && Reach(t, path, leading).Some? && (leading ==> depth == 0)
    requires forall m: Model :: Sat(pc, m) ==> Decode(t, EvalAll(ts, m), leading).Found?
    ensures Placed(BuildPath(o, pc, t, ts, leading), t, path, leading, depth)
    decreases ts
  {
    hide Eval, Exact, Sat, AlwaysIs, Implied, BelowLength, Equal, Placed, BuildPath, Decode;
    if ts == [] {
      PlacedHere(o, pc, t, leading, depth);
    } else {
      IndexSort(ts[0], path[0]);
      TailFits(ts, path);
      match t
      case TArray(n, of) =>
        ArrayIndexProved(o, pc, n, of, ts, leading);
        BuildPathFinishes(o, pc, of, ts[1..], path[1..], false, depth + 1);
        PlacedInArray(o, pc, n, of, ts, path, leading, depth);
      case TPointer(to) =>
        PointerIndexProved(o, pc, to, ts);
        BuildPathFinishes(o, pc, to, ts[1..], path[1..], false, 1);
        PlacedBehind(o, pc, to, ts, path);
      case TStruct(fields) =>
        FieldKnown(o, pc, fields, ts, path, leading);
        BuildPathFinishes(o, pc, fields[path[0].v.n], ts[1..], path[1..], false, depth);
        PlacedInField(o, pc, fields, path[0].v.n, ts, path, leading, depth);
    }
  }

  lemma {:induction false} PlacedHere(o: Oracle, pc: seq<Term>, t: IType, leading: bool, depth: nat)
    ensures Placed(BuildPath(o, pc, t, [], leading), t, [], leading, depth)
  {
  }

  lemma {:induction false} PlacedInArray(o: Oracle, pc: seq<Term>, n: nat, of: IType, ts: seq<Term>, path: seq<Index>,
                                         leading: bool, depth: nat)
    requires ts != [] && path != [] && SortOf(ts[0]) == SBv(64) && Implied(o, pc, BelowLength(ts[0], n))
    requires Is64(path[0]) && n < W64
    requires Placed(BuildPath(o, pc, of, ts[1..], false), of, path[1..], false, depth + 1)
    ensures Placed(BuildPath(o, pc, TArray(n, of), ts, leading), TArray(n, of), path, leading, depth)
  {
    hide Implied, BelowLength, HasLeaf;
  }

  lemma {:induction false} PlacedBehind(o: Oracle, pc: seq<Term>, to: IType, ts: seq<Term>, path: seq<Index>)
    requires ts != [] && path != [] && SortOf(ts[0]) == SBv(64) && Implied(o, pc, Equal(ts[0], ORIGIN))
    requires Is64(path[0]) && Placed(BuildPath(o, pc, to, ts[1..], false), to, path[1..], false, 1)
    ensures Placed(BuildPath(o, pc, TPointer(to), ts, true), TPointer(to), path, true, 0)
  {
    hide Implied, Equal, HasLeaf;
  }

  lemma {:induction false} PlacedInField(o: Oracle, pc: seq<Term>, fields: seq<IType>, f: nat, ts: seq<Term>,
                                         path: seq<Index>, leading: bool, depth: nat)
    requires ts != [] && path != [] && f < |fields| && path[0].Known? && path[0].v.VBv? && path[0].v.n == f
    requires o.simplify(ts[0]) == Lit(path[0].v)
    requires Placed(BuildPath(o, pc, fields[f], ts[1..], false), fields[f], path[1..], false, depth)
    ensures Placed(BuildPath(o, pc, TStruct(fields), ts, leading), TStruct(fields), path, leading, depth)
  {
    hide HasLeaf, FieldLeaves;
    var rest := BuildPath(o, pc, fields[f], ts[1..], false).value;
    if rest.itype.TInt? { FieldLeaf(fields, |fields|, depth, f, rest.fields, rest.itype.width); }
    assert ([f] + rest.fields)[1..] == rest.fields;
  }

  lemma {:induction false} TailFits(ts: seq<Term>, path: seq<Index>)
    requires PathFits(ts, path) && ts != []
    ensures IndexFits(ts[0], path[0]) && PathFits(ts[1..], path[1..])
  {
    hide IndexFits;
  }

  lemma {:induction false} EvalTail(ts: seq<Term>, m: Model)
    requires ts != []
    ensures EvalAll(ts, m) != [] && EvalAll(ts, m)[0] == Eval(ts[0], m) && EvalAll(ts, m)[1..] == EvalAll(ts[1..], m)
  {
    hide Eval;
  }

  lemma {:induction false} ArrayIndexProved(o: Oracle, pc: seq<Term>, n: nat, of: IType, ts: seq<Term>, leading: bool)
    requires Exact(o) && ts != [] && SortOf(ts[0]) == SBv(64) && n < W64
    requires forall m: Model :: Sat(pc, m) ==> Decode(TArray(n, of), EvalAll(ts, m), leading).Found?
    ensures Implied(o, pc, BelowLength(ts[0], n))
    ensures forall m: Model :: Sat(pc, m) ==> Decode(of, EvalAll(ts[1..], m), false).Found?
  {
    hide Eval, Sat, BelowLength;
    forall m: Model | Sat(pc, m)
      ensures Holds(BelowLength(ts[0], n), m) && Decode(of, EvalAll(ts[1..], m), false).Found? {
      EvalTail(ts, m);
    }
    assert Follows(pc, BelowLength(ts[0], n));
  }

  lemma {:induction false} PointerIndexProved(o: Oracle, pc: seq<Term>, to: IType, ts: seq<Term>)
    requires Exact(o) && ts != [] && SortOf(ts[0]) == SBv(64)
    requires forall m: Model :: Sat(pc, m) ==> Decode(TPointer(to), EvalAll(ts, m), true).Found?
    ensures Implied(o, pc, Equal(ts[0], ORIGIN))
    ensures forall m: Model :: Sat(pc, m) ==> Decode(to, EvalAll(ts[1..], m), false).Found?
  {
    hide Sat, Equal;
    forall m: Model | Sat(pc, m)
      ensures Holds(Equal(ts[0], ORIGIN), m) && Decode(to, EvalAll(ts[1..], m), false).Found? {
      EvalTail(ts, m);
      DivModUnique(0, Pow2(64), 0, 0);
    }
    assert Follows(pc, Equal(ts[0], ORIGIN));
  }

  lemma {:induction false} FieldKnown(o: Oracle, pc: seq<Term>, fields: seq<IType>, ts: seq<Term>, path: seq<Index>,
                                      leading: bool)
    requires Exact(o) && ts != [] && path != [] && IndexFits(ts[0], path[0])
    requires Reach(TStruct(fields), path, leading).Some?
    requires forall m: Model :: Sat(pc, m) ==> Decode(TStruct(fields), EvalAll(ts, m), leading).Found?
    ensures path[0].Known? && path[0].v.VBv? && path[0].v.n < |fields| && o.simplify(ts[0]) == Lit(path[0].v)
    ensures forall m: Model :: Sat(pc, m) ==> Decode(fields[path[0].v.n], EvalAll(ts[1..], m), false).Found?
  {
    hide Sat, Eval;
    forall m: Model | Sat(pc, m) ensures Decode(fields[path[0].v.n], EvalAll(ts[1..], m), false).Found? {
      EvalTail(ts, m);
      assert Eval(ts[0], m) == path[0].v;
    }
  }

  lemma {:induction false} NumbersOnly(ts: seq<Term>, path: seq<Index>, m: Model)
    requires PathFits(ts, path)
    ensures EvalIndices(ts, m) == EvalAll(ts, m)
  {
    hide Eval, IndexFits;
    forall i | 0 <= i < |ts| ensures EvalIndices(ts, m)[i] == EvalAll(ts, m)[i] {
      IndexSort(ts[i], path[i]);
      assert HasSort(Eval(ts[i], m), SortOf(ts[i]));
    }
  }

  /** Every target of a pointer is in bounds under every valuation of the path condition, whether or not its
      condition selects it. */
  ghost predicate InBounds(p: Pointer, pc: seq<Term>) {
    match p
    case PBase(_, _) => forall m: Model :: Sat(pc, m) ==> DecodeAddress(EvalPointer(p, m)).Found?
    case PIte(_, p1, p2) => InBounds(p1, pc) && InBounds(p2, pc)
  }

  lemma {:induction false} LocateFinishes(o: Oracle, pc: seq<Term>, refs: Refs, objs: map<string, IType>,
                                          ref: Reference, geps: seq<seq<Term>>, path: seq<Index>, w: nat)
    requires Exact(o) && MemFits(refs, objs) && PointerFits(o, objs, PBase(ref, geps), ref.itype, path)
    requires Reach(ref.itype, path, true) == Some(TInt(w)) && InBounds(PBase(ref, geps), pc)
    ensures var r := LocateBase(o, pc, refs, ref, geps);
            && r.Some? && All64(r.value.idx) && FnFits(refs[ref.name][r.value.fields], |r.value.idx|, w)
            && |r.value.idx| == Arity(ref.itype, r.value.fields) && HasLeaf(Leaves(ref.itype, 0), r.value.fields, w)
  {
    hide Eval, Exact, Sat, BuildPath, Leaves, FnFits, ComposeGeps, IndexFits;
    var ts := ComposeGeps(o, [ORIGIN], geps).value;
    SimplifyFits(o, ts, path);
    var ts' := CanonicalPath(o, geps).value;
    forall m: Model | Sat(pc, m) ensures Decode(ref.itype, EvalAll(ts', m), true).Found? {
      CanonicalPathMeaning(o, geps, m) by { ExactIsSound(o); }
      NumbersOnly(ts', path, m);
      assert DecodeAddress(EvalPointer(PBase(ref, geps), m)).Found?;
    }
    BuildPathFinishes(o, pc, ref.itype, ts', path, true, 0);
    assert ObjectFits(refs[ref.name], ref.itype);
  }

  lemma {:induction false} ExactIsSound(o: Oracle)
    requires Exact(o)
    ensures Sound(o)
  {
  }

  /** A read through a pointer finishes exactly if all its targets are in bounds. */
  lemma {:induction false} ReadExact(o: Oracle, pc: seq<Term>, refs: Refs, objs: map<string, IType>, p: Pointer,
                                     t: IType, path: seq<Index>, w: nat)
    requires Exact(o) && MemFits(refs, objs) && PointerFits(o, objs, p, t, path)
    requires Reach(t, path, true) == Some(TInt(w))
    ensures Read(o, pc, refs, p).Some? <==> InBounds(p, pc)
    ensures Read(o, pc, refs, p).Some? ==> SortOf(Read(o, pc, refs, p).value) == SBv(w)
    decreases p
  {
    hide Exact, MemFits, Reach, LocateBase, Apply, If, Eval, Sat, FnFits;
    ExactIsSound(o);
    match p
    case PBase(ref, geps) =>
      if InBounds(p, pc) {
        LocateFinishes(o, pc, refs, objs, ref, geps, path, w);
        var place := LocateBase(o, pc, refs, ref, geps).value;
        ApplyFinishes(o, refs[ref.name][place.fields], place.idx, w);
      } else if Read(o, pc, refs, p).Some? {
        forall m: Model | Sat(pc, m) ensures DecodeAddress(EvalPointer(p, m)).Found? {
          LocateMeaning(o, pc, refs, ref, geps, m);
        }
        assert false;
      }
    case PIte(c, p1, p2) =>
      ReadExact(o, pc, refs, objs, p1, t, path, w);
      ReadExact(o, pc, refs, objs, p2, t, path, w);
      if Read(o, pc, refs, p1).Some? && Read(o, pc, refs, p2).Some? {
        IfExact(o, c, Read(o, pc, refs, p1).value, Read(o, pc, refs, p2).value);
      }
  }

  /** So does a write of a number of that width, and memory keeps its types. */
  lemma {:induction false} WriteExact(o: Oracle, pc: seq<Term>, refs: Refs, objs: map<string, IType>, p: Pointer,
                                      t: IType, path: seq<Index>, v: Term, w: nat)
    requires Exact(o) && MemFits(refs, objs) && PointerFits(o, objs, p, t, path)
    requires Reach(t, path, true) == Some(TInt(w))
    requires SortOf(v) == SBv(w)
    ensures Write(o, pc, refs, p, v).Some? <==> InBounds(p, pc)
    ensures Write(o, pc, refs, p, v).Some? ==> MemFits(Write(o, pc, refs, p, v).value, objs)
    decreases p
  {
    hide Exact, MemFits, Reach, LocateBase, If, Eval, Sat, FnFits, Read;
    ExactIsSound(o);
    match p
    case PBase(ref, geps) =>
      if InBounds(p, pc) {
        LocateFinishes(o, pc, refs, objs, ref, geps, path, w);
        var place := LocateBase(o, pc, refs, ref, geps).value;
        UpdateFits(refs, objs, ref.name, place.fields, place.idx, v, w);
      } else if Write(o, pc, refs, p, v).Some? {
        forall m: Model | Sat(pc, m) ensures DecodeAddress(EvalPointer(p, m)).Found? {
          LocateMeaning(o, pc, refs, ref, geps, m);
        }
        assert false;
      }
    case PIte(c, p1, p2) =>
      ReadExact(o, pc, refs, objs, p1, t, path, w);
      if Read(o, pc, refs, p1).Some? {
        var old1 := Read(o, pc, refs, p1).value;
        IfExact(o, c, v, old1);
        var v1 := If(o, c, v, old1).value;
        WriteExact(o, pc, refs, objs, p1, t, path, v1, w);
        var refs1 := Write(o, pc, refs, p1, v1).value;
        ReadExact(o, pc, refs1, objs, p2, t, path, w);
        if Read(o, pc, refs1, p2).Some? {
          var old2 := Read(o, pc, refs1, p2).value;
          IfExact(o, Negate(c), v, old2);
          WriteExact(o, pc, refs1, objs, p2, t, path, If(o, Negate(c), v, old2).value, w);
        }
      }
  }

  lemma {:induction false} UpdateFits(refs: Refs, objs: map<string, IType>, x: string, f: seq<nat>, idx: seq<Term>,
                                      v: Term, w: nat)
    requires MemFits(refs, objs) && x in refs && f in refs[x] && FnFits(refs[x][f], |idx|, w) && All64(idx)
    requires SortOf(v) == SBv(w) && HasLeaf(Leaves(objs[x], 0), f, w) && |idx| == Arity(objs[x], f)
    ensures MemFits(refs[x := refs[x][f := Updated(refs[x][f], idx, v)]], objs)
  {
    hide Leaves, Arity;
    assert ObjectFits(refs[x], objs[x]);
  }

  /* ---------- a read that is refused ---------- */

  const ARRAY_OF_ONE: Reference := Reference("a", TArray(1, TInt(8)))

  /** Element `i` of an array of one. */
  function Element(i: Term): Pointer { PBase(ARRAY_OF_ONE, [[i]]) }

  /** `i < 1 ? &a[i] : &a[0]`. */
  function GuardedElement(i: Term): Pointer
    requires SortOf(i) == SBv(64)
  {
    PIte(CmpTerm(Ult, i, BvVal(1, 64)), Element(i), Element(ORIGIN))
  }

  lemma {:induction false} ElementAt(i: Term, m: Model)
    requires SortOf(i) == SBv(64)
    ensures var n := Num(Eval(i, m));
            DecodeAddress(EvalPointer(Element(i), m)) == if n >= 1 then Faulty else Found([], [VBv(64, 0)], TInt(8))
  {
    assert HasSort(Eval(i, m), SBv(64));
    Pow2Values();
    hide Pow2;
    var v := Eval(i, m);
    DivModUnique(v.n, W64, 0, v.n);
    DivModUnique(0, W64, 0, 0);
    assert [[i]][1..] == [] && [i][1..] == [] && EvalIndices([i], m) == [v];
    assert Step([ORIGIN_VALUE], [v]) == [VBv(64, v.n)];
    assert StepAll([VBv(64, v.n)], [], m) == [VBv(64, v.n)];
    assert EvalPointer(Element(i), m).path == [VBv(64, v.n)];
    assert [VBv(64, v.n)][1..] == [];
  }

  /** A pointer chosen by its own bounds check is in bounds under every valuation; but a read through it reads both
      targets, each under the path condition alone, and is refused, since `i` may be 1. */
  lemma {:induction false} GuardedReadRefused(o: Oracle, refs: Refs)
    requires Sound(o)
    ensures var i: Term := Sym("i", SBv(64));
            && (forall m: Model :: DecodeAddress(EvalPointer(GuardedElement(i), m)).Found?)
            && Read(o, [], refs, GuardedElement(i)).None?
  {
    hide Read, If, Decode, Eval;
    var i: Term := Sym("i", SBv(64));
    forall m: Model ensures DecodeAddress(EvalPointer(GuardedElement(i), m)).Found? {
      ElementAt(i, m);
      ElementAt(ORIGIN, m);
      GuardIs(i, m);
    }
    var m1 := Model((n, s) => if s == SBv(64) then VBv(64, 1) else DefaultValue(s), (f, a, w) => 0);
    OneIs(m1);
    ElementAt(i, m1);
    RefusedSide(o, refs, i, m1);
  }

  lemma {:induction false} GuardIs(i: Term, m: Model)
    requires SortOf(i) == SBv(64)
    ensures Truth(Eval(CmpTerm(Ult, i, BvVal(1, 64)), m)) <==> Num(Eval(i, m)) < 1
    ensures Num(Eval(ORIGIN, m)) == 0
  {
    Pow2Values();
    CmpNode(Ult, i, BvVal(1, 64), m);
    hide Pow2;
    DivModUnique(1, W64, 0, 1);
    DivModUnique(0, W64, 0, 0);
  }

  lemma {:induction false} OneIs(m: Model)
    requires m.consts("i", SBv(64)) == VBv(64, 1)
    ensures Num(Eval(Sym("i", SBv(64)), m)) == 1
  {
    Pow2Values();
  }

  lemma {:induction false} RefusedSide(o: Oracle, refs: Refs, i: Term, m: Model)
    requires Sound(o) && SortOf(i) == SBv(64) && !DecodeAddress(EvalPointer(Element(i), m)).Found?
    ensures Read(o, [], refs, GuardedElement(i)).None?
  {
    hide If, Decode, Eval;
    if Read(o, [], refs, Element(i)).Some? { ReadMeaning(o, [], refs, Element(i), m); }
  }
}
