/** Typed states of the symbolic evaluator: what its contexts (libirpy/ctx.py) hold when it runs a typed program, and
    that operands are there and of their type.
 */
module TypedStates {
  import opened Options
  import opened Words
  import opened Terms
  import opened References
  import opened Programs
  import opened SymbolicExec
  import opened Soundness
  import opened Typing
  import opened Completeness

  /* ---------- typed states ---------- */

  ghost predicate ValFits(o: Oracle, objs: map<string, IType>, v: SVal, t: Ty) {
    match t
    case TyBool => v.STerm? && SortOf(v.t) == SBool
    case TyBv(w) => v.STerm? && SortOf(v.t) == SBv(w)
    case TyPtr(obj, path) => v.SPtr? && v.p.PBase? && path != [] && PointerFits(o, objs, v.p, obj, path)
  }

  /** What is left of the type of a local once two sides have been joined: nothing but its kind for a pointer. */
  predicate KindFits(v: SVal, t: Ty) {
    match t
    case TyBool => v.STerm? && SortOf(v.t) == SBool
    case TyBv(w) => v.STerm? && SortOf(v.t) == SBv(w)
    case TyPtr(_, _) => v.SPtr?
  }

  ghost predicate FrameFits(o: Oracle, objs: map<string, IType>, L: map<string, Ty>, fr: map<string, SVal>) {
    forall k :: k in fr ==> k in L && ValFits(o, objs, fr[k], L[k])
  }

  predicate FrameKinds(L: map<string, Ty>, fr: map<string, SVal>) {
    forall k :: k in fr ==> k in L && KindFits(fr[k], L[k])
  }

  /** Globals, the innermost frame and memory are typed. */
  ghost predicate StateFits(o: Oracle, objs: map<string, IType>, G: map<string, Ty>, L: map<string, Ty>, st: SymState) {
    && st.locals != [] && FrameFits(o, objs, L, STop(st)) && FrameFits(o, objs, G, st.globals)
    && MemFits(st.refs, objs)
  }

  /** Objects were added, named by positions from `pos` on. */
  ghost predicate Grows(objs: map<string, IType>, objs': map<string, IType>, pos: Position) {
    && (forall x :: x in objs ==> x in objs' && objs'[x] == objs[x])
    && (forall x :: x in objs' ==> x in objs || NamedFrom(pos, x))
  }

  /** No object has a name from this position on. */
  ghost predicate Unused(objs: map<string, IType>, pos: Position) { forall x :: x in objs ==> !NamedFrom(pos, x) }

  /** Nor one from a later instruction of the same block. */
  ghost predicate UnusedFrom(objs: map<string, IType>, pos: Position, k: nat) {
    forall j: nat :: k <= j ==> Unused(objs, pos + [j])
  }

  lemma {:induction false} GrowsTwice(objs: map<string, IType>, objs1: map<string, IType>, objs2: map<string, IType>,
                                      pos: Position, pos': Position)
    requires Grows(objs, objs1, pos') && Grows(objs1, objs2, pos') && pos <= pos'
    ensures Grows(objs, objs2, pos)
  {
    forall x | x in objs2 && x !in objs ensures NamedFrom(pos, x) {
      NamedBelow(pos, pos', x);
    }
  }

  lemma {:induction false} GrowsBelow(objs: map<string, IType>, objs': map<string, IType>, pos: Position,
                                      pos': Position)
    requires Grows(objs, objs', pos') && pos <= pos'
    ensures Grows(objs, objs', pos)
  {
    forall x | x in objs' && x !in objs ensures NamedFrom(pos, x) {
      NamedBelow(pos, pos', x);
    }
  }

  lemma {:induction false} UnusedBelow(objs: map<string, IType>, pos: Position, pos': Position)
    requires Unused(objs, pos) && pos <= pos'
    ensures Unused(objs, pos')
  {
    forall x | x in objs ensures !NamedFrom(pos', x) {
      if NamedFrom(pos', x) { NamedBelow(pos, pos', x); }
    }
  }

  lemma {:induction false} UnusedStart(objs: map<string, IType>, pos: Position)
    requires Unused(objs, pos)
    ensures UnusedFrom(objs, pos, 0)
  {
    forall j: nat ensures Unused(objs, pos + [j]) {
      UnusedBelow(objs, pos, pos + [j]);
    }
  }

  /** What instruction `k` has named, the later ones do not. */
  lemma {:induction false} UnusedNext(objs: map<string, IType>, objs': map<string, IType>, pos: Position, k: nat)
    requires UnusedFrom(objs, pos, k) && Grows(objs, objs', pos + [k])
    ensures UnusedFrom(objs', pos, k + 1)
  {
    forall j: nat | k + 1 <= j ensures Unused(objs', pos + [j]) {
      assert Unused(objs, pos + [j]);
      forall x | x in objs' ensures !NamedFrom(pos + [j], x) {
        if x !in objs { NamedApart(pos, k, j, x); }
      }
    }
  }

  lemma {:induction false} ValGrows(o: Oracle, objs: map<string, IType>, objs': map<string, IType>, pos: Position,
                                    v: SVal, t: Ty)
    requires ValFits(o, objs, v, t) && Grows(objs, objs', pos)
    ensures ValFits(o, objs', v, t)
  {
    hide PathFits, ComposeGeps;
  }

  lemma {:induction false} FrameGrows(o: Oracle, objs: map<string, IType>, objs': map<string, IType>, pos: Position,
                                      L: map<string, Ty>, fr: map<string, SVal>)
    requires FrameFits(o, objs, L, fr) && Grows(objs, objs', pos)
    ensures FrameFits(o, objs', L, fr)
  {
    hide ValFits, Grows;
    forall k | k in fr ensures k in L && ValFits(o, objs', fr[k], L[k]) {
      ValGrows(o, objs, objs', pos, fr[k], L[k]);
    }
  }

  lemma {:induction false} ValBelow(o: Oracle, objs: map<string, IType>, v: SVal, s: Ty, t: Ty)
    requires ValFits(o, objs, v, s) && Below(s, t)
    ensures ValFits(o, objs, v, t)
  {
    hide IndexFits, ComposeGeps;
    if s != t {
      var ts := ComposeGeps(o, [ORIGIN], v.p.geps).value;
      forall i | 0 <= i < |ts| ensures IndexFits(ts[i], t.path[i]) {
        assert IndexFits(ts[i], s.path[i]) && IndexBelow(s.path[i], t.path[i]);
        IndexForgotten(ts[i], s.path[i], t.path[i]);
      }
    }
  }

  lemma {:induction false} IndexForgotten(t: Term, i: Index, j: Index)
    requires IndexFits(t, i) && IndexBelow(i, j)
    ensures IndexFits(t, j)
  {
    if i != j { IndexSort(t, i); }
  }

  lemma {:induction false} KindOf(o: Oracle, objs: map<string, IType>, L: map<string, Ty>, fr: map<string, SVal>)
    requires FrameFits(o, objs, L, fr)
    ensures FrameKinds(L, fr)
  {
    hide PointerFits;
  }

  /* ---------- operands ---------- */

  lemma {:induction false} OperandFinishes(o: Oracle, objs: map<string, IType>, G: map<string, Ty>, L: map<string, Ty>,
                                           st: SymState, x: Operand, m: Model, cs: CState)
    requires StateFits(o, objs, G, L, st) && Rel(st, m, cs) && COperand(cs, x).Good? && OperandTy(G, L, x).Some?
    ensures SOperand(st, x).Some? && ValFits(o, objs, SOperand(st, x).value, OperandTy(G, L, x).value)
    ensures COperand(cs, x) == Good(Sem(SOperand(st, x).value, m))
  {
    hide ValFits, MemFits, MemRel;
    OperandSound(st, m, cs, x);
    match x
    case Local(_) =>
    case Global(_) =>
    case Int(v, w) => assert ValFits(o, objs, STerm(Constant(v, w)),
                                     OperandTy(G, L, x).value) by { ConstantFits(o, objs, v, w); }
  }

  lemma {:induction false} ConstantFits(o: Oracle, objs: map<string, IType>, v: nat, w: nat)
    ensures ValFits(o, objs, STerm(Constant(v, w)), if w == 1 then TyBool else TyBv(w))
  {
  }

  lemma {:induction false} IndexFinishes(o: Oracle, objs: map<string, IType>, G: map<string, Ty>, L: map<string, Ty>,
                                         st: SymState, x: Operand, m: Model, cs: CState)
    requires StateFits(o, objs, G, L, st) && Rel(st, m, cs) && COperand(cs, x).Good? && IndexOf(G, L, x).Some?
    ensures SOperand(st, x).Some? && SOperand(st, x).value.STerm?
    ensures IndexFits(SOperand(st, x).value.t, IndexOf(G, L, x).value)
  {
    hide StateFits, Rel;
    if !x.Int? { OperandFinishes(o, objs, G, L, st, x, m, cs); } else {
      DivModUnique(x.value, Pow2(x.width), 0, x.value);
    }
  }

  /** The indices of a gep. */
  lemma {:induction false} IndicesFinish(o: Oracle, objs: map<string, IType>, G: map<string, Ty>, L: map<string, Ty>,
                                         st: SymState, xs: seq<Operand>, m: Model, cs: CState)
    requires StateFits(o, objs, G, L, st) && Rel(st, m, cs) && COperands(cs, xs).Good? && IndicesOf(G, L, xs).Some?
    ensures SOperands(st, xs).Some? && STerms(SOperands(st, xs).value).Some?
    ensures PathFits(STerms(SOperands(st, xs).value).value, IndicesOf(G, L, xs).value)
    decreases xs
  {
    hide StateFits, Rel, IndexFits, SOperand, COperand, IndexOf;
    if xs != [] {
      IndexFinishes(o, objs, G, L, st, xs[0], m, cs);
      IndicesFinish(o, objs, G, L, st, xs[1..], m, cs);
      var v, rest := SOperand(st, xs[0]).value, SOperands(st, xs[1..]).value;
      assert ([v] + rest)[1..] == rest;
    }
  }

  /** The arguments of a call. */
  lemma {:induction false} ArgsFinish(o: Oracle, objs: map<string, IType>, G: map<string, Ty>, L: map<string, Ty>,
                                      st: SymState, xs: seq<Operand>, m: Model, cs: CState)
    requires StateFits(o, objs, G, L, st) && Rel(st, m, cs) && COperands(cs, xs).Good?
    requires forall i :: 0 <= i < |xs| ==> OperandTy(G, L, xs[i]).Some?
    ensures var vs := SOperands(st, xs);
            && vs.Some? && |vs.value| == |xs| == |COperands(cs, xs).value|
            && (forall i :: 0 <= i < |xs| ==> ValFits(o, objs, vs.value[i], OperandTy(G, L, xs[i]).value))
            && (forall i :: 0 <= i < |xs| ==> COperands(cs, xs).value[i] == Sem(vs.value[i], m))
    decreases xs
  {
    hide StateFits, Rel, ValFits, SOperand, COperand, OperandTy;
    if xs != [] {
      OperandFinishes(o, objs, G, L, st, xs[0], m, cs);
      ArgsFinish(o, objs, G, L, st, xs[1..], m, cs);
    }
  }

  lemma {:induction false} BindFits(o: Oracle, objs: map<string, IType>, L: map<string, Ty>, params: seq<string>,
                                    vs: seq<SVal>)
    requires |params| == |vs|
    requires forall i :: 0 <= i < |vs| ==> params[i] in L && ValFits(o, objs, vs[i], L[params[i]])
    ensures FrameFits(o, objs, L, Bind(params, vs))
    decreases |params|
  {
    hide ValFits;
    if params != [] { BindFits(o, objs, L, params[..|params| - 1], vs[..|vs| - 1]); }
  }
}
