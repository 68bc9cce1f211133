/** Joining finished runs: `util.merge` and the end of `branch` in libirpy/z3eval.py, on the states that the two sides
    of a branch of a typed program leave.
 */
module TypedJoins {
  import opened Options
  import opened Words
  import opened Terms
  import opened References
  import opened Programs
  import opened SymbolicExec
  import opened Soundness
  import opened Typing
  import opened Completeness
  import opened TypedStates

  /* ---------- joining finished runs ---------- */

  predicate ResultFits(v: Option<SVal>, t: Option<Ty>) {
    match (v, t) case (None, None) => true case (Some(x), Some(s)) => IsNumber(s) && KindFits(x, s) case _ => false
  }

  /** A run of the rest of a function: it ends with a result of the type of the function; globals and the frames below
      are as they were. */
  ghost predicate RunDone(objs: map<string, IType>, objs': map<string, IType>, L: map<string, Ty>, result: Option<Ty>,
                          st: SymState, pos: Position, r: SRes)
  {
    && r.Done? && r.st.globals == st.globals && |r.st.locals| == |st.locals| > 0
    && r.st.locals[..|st.locals| - 1] == st.locals[..|st.locals| - 1]
    && FrameKinds(L, STop(r.st)) && MemFits(r.st.refs, objs') && Grows(objs, objs', pos) && ResultFits(r.val, result)
  }

  lemma {:induction false} IfValSame(o: Oracle, cond: Term, a: SVal)
    requires Sound(o) && SortOf(cond) == SBool
    ensures IfVal(o, cond, a, a) == Some(a)
  {
    hide Eval;
    assert SortOf(o.simplify(cond)) == SortOf(cond);
  }

  lemma {:induction false} MergeValsSame(o: Oracle, cond: Term, m: map<string, SVal>)
    requires Sound(o) && SortOf(cond) == SBool
    ensures MergeVals(o, cond, m, m) == Some(m)
  {
    hide Sound, IfVal;
    forall k | k in m ensures IfVal(o, cond, m[k], m[k]) == Some(m[k]) {
      IfValSame(o, cond, m[k]);
    }
    var r := MergeVals(o, cond, m, m).value;
    assert r.Keys == m.Keys && forall k :: k in m ==> r[k] == m[k];
    assert r == m;
  }

  /** Values of one kind are joined to one of that kind. */
  lemma {:induction false} IfValKind(o: Oracle, cond: Term, a: SVal, b: SVal, t: Ty)
    requires Sound(o) && SortOf(cond) == SBool && KindFits(a, t) && KindFits(b, t)
    ensures Alike(a, b) && IfVal(o, cond, a, b).Some? && KindFits(IfVal(o, cond, a, b).value, t)
  {
    hide Sound, IfVal;
    IfValExact(o, cond, a, b);
  }

  lemma {:induction false} MergeValsKinds(o: Oracle, cond: Term, L: map<string, Ty>, m1: map<string, SVal>,
                                          m2: map<string, SVal>)
    requires Sound(o) && SortOf(cond) == SBool && FrameKinds(L, m1) && FrameKinds(L, m2)
    ensures MapsAlike(m1, m2) && MergeVals(o, cond, m1, m2).Some? && FrameKinds(L, MergeVals(o, cond, m1, m2).value)
  {
    hide Sound, IfVal, KindFits, Alike;
    forall k | k in m1 && k in m2
      ensures Alike(m1[k], m2[k]) && IfVal(o, cond, m1[k], m2[k]).Some?
      ensures KindFits(IfVal(o, cond, m1[k], m2[k]).value, L[k])
    {
      IfValKind(o, cond, m1[k], m2[k], L[k]);
    }
  }

  /** Frames that differ at the top only. */
  lemma {:induction false} MergeFramesTop(o: Oracle, cond: Term, l1: seq<map<string, SVal>>, l2: seq<map<string, SVal>>)
    requires Sound(o) && SortOf(cond) == SBool && |l1| == |l2| > 0 && l1[..|l1| - 1] == l2[..|l1| - 1]
    requires MergeVals(o, cond, l1[|l1| - 1], l2[|l1| - 1]).Some?
    ensures MergeFrames(o, cond, l1, l2)
         == Some(l1[..|l1| - 1] + [MergeVals(o, cond, l1[|l1| - 1], l2[|l1| - 1]).value])
    decreases |l1|
  {
    hide Sound, MergeVals;
    var n := |l1| - 1;
    if n == 0 {
      assert l1[1..] == [] && l2[1..] == [] && MergeFrames(o, cond, l1[1..], l2[1..]) == Some([]);
      var top := MergeVals(o, cond, l1[0], l2[0]).value;
      assert [top] + [] == l1[..0] + [top];
    } else {
      assert l1[0] == l1[..n][0] && l2[0] == l2[..n][0];
      MergeValsSame(o, cond, l1[0]);
      assert l1[1..][..n - 1] == l1[..n][1..] && l2[1..][..n - 1] == l2[..n][1..];
      MergeFramesTop(o, cond, l1[1..], l2[1..]);
      var top := MergeVals(o, cond, l1[n], l2[n]).value;
      assert l1[1..][n - 1] == l1[n] && l2[1..][n - 1] == l2[n];
      assert [l1[0]] + (l1[1..][..n - 1] + [top]) == l1[..n] + [top];
    }
  }

  lemma {:induction false} FramesAlikeTop(l1: seq<map<string, SVal>>, l2: seq<map<string, SVal>>)
    requires |l1| == |l2| > 0 && l1[..|l1| - 1] == l2[..|l1| - 1] && MapsAlike(l1[|l1| - 1], l2[|l1| - 1])
    ensures FramesAlike(l1, l2)
  {
    forall i | 0 <= i < |l1| ensures MapsAlike(l1[i], l2[i]) {
      if i < |l1| - 1 { assert l1[..|l1| - 1][i] == l2[..|l1| - 1][i]; }
    }
  }

  /** What the sides have allocated has different names. */
  lemma {:induction false} SidesApart(objs: map<string, IType>, objs1: map<string, IType>, objs2: map<string, IType>,
                                      pos: Position)
    requires Grows(objs, objs1, pos + [0]) && Grows(objs, objs2, pos + [1])
    ensures Grows(objs, objs1 + objs2, pos)
    ensures forall x :: x in objs1 && x in objs2 ==> objs1[x] == objs2[x]
  {
    forall x | x in objs1 && x in objs2 ensures x in objs {
      if x !in objs { NamedApart(pos, 0, 1, x); }
    }
    forall x | x in objs1 + objs2 && x !in objs ensures NamedFrom(pos, x) {
      if x in objs1 { NamedBelow(pos, pos + [0], x); } else { NamedBelow(pos, pos + [1], x); }
    }
  }

  lemma {:induction false} MergeRefsFits(o: Oracle, cond: Term, r1: Refs, r2: Refs, objs1: map<string, IType>,
                                         objs2: map<string, IType>)
    requires Sound(o) && SortOf(cond) == SBool && MemFits(r1, objs1) && MemFits(r2, objs2)
    requires forall x :: x in objs1 && x in objs2 ==> objs1[x] == objs2[x]
    ensures MergeRefs(o, cond, r1, r2).Some? && MemFits(MergeRefs(o, cond, r1, r2).value, objs1 + objs2)
  {
    hide Sound, MergeObject, ObjectFits;
    forall x | x in r1 && x in r2
      ensures MergeObject(o, cond, r1[x], r2[x]).Some?
      ensures ObjectFits(MergeObject(o, cond, r1[x], r2[x]).value, objs1[x])
    {
      MergeObjectFits(o, cond, r1[x], r2[x], objs1[x]);
    }
    var r, objs := MergeRefs(o, cond, r1, r2).value, objs1 + objs2;
    assert r.Keys == objs.Keys;
    forall x | x in r ensures ObjectFits(r[x], objs[x]) {
    }
  }

  lemma {:induction false} MergeObjectFits(o: Oracle, cond: Term, d1: map<seq<nat>, Fn>, d2: map<seq<nat>, Fn>,
                                           t: IType)
    requires Sound(o) && SortOf(cond) == SBool && ObjectFits(d1, t) && ObjectFits(d2, t)
    ensures MergeObject(o, cond, d1, d2).Some? && ObjectFits(MergeObject(o, cond, d1, d2).value, t)
  {
    hide Sound, IfFn, FnFits, Leaves, Arity;
    forall f | f in d1
      ensures IfFn(o, cond, d1[f], d2[f]).Some?
      ensures FnFits(IfFn(o, cond, d1[f], d2[f]).value, Arity(t, f), Leaves(t, 0)[f])
    {
      IfFnFits(o, cond, d1[f], d2[f], Arity(t, f), Leaves(t, 0)[f]);
    }
  }

  lemma {:induction false} IfFnFits(o: Oracle, cond: Term, a: Fn, b: Fn, n: nat, w: nat)
    requires Sound(o) && SortOf(cond) == SBool && FnFits(a, n, w) && FnFits(b, n, w)
    ensures IfFn(o, cond, a, b).Some? && FnFits(IfFn(o, cond, a, b).value, n, w)
  {
    hide Eval;
    assert SortOf(o.simplify(cond)) == SortOf(cond);
  }

  /** Two finished runs of the sides of a branch are joined to a finished run. */
  lemma {:induction false} JoinRuns(o: Oracle, objs: map<string, IType>, objs1: map<string, IType>,
                                    objs2: map<string, IType>, L: map<string, Ty>, result: Option<Ty>, st: SymState,
                                    pos: Position, cond: Term, s: Term, r1: SRes, r2: SRes)
    requires Sound(o) && SortOf(cond) == SBool && SortOf(s) == SBool
    requires RunDone(objs, objs1, L, result, st, pos + [0], r1) && RunDone(objs, objs2, L, result, st, pos + [1], r2)
    ensures Joinable(r1, r2)
    ensures RunDone(objs, objs1 + objs2, L, result, st, pos, Combine(o, cond, s, r1, r2))
  {
    hide Sound, IfVal, MergeVals, MergeFrames, MergeRefs, MapsAlike, FramesAlike, FrameKinds, MemFits, Grows, KindFits,
      Alike;
    MergeValsSame(o, s, st.globals);
    SameMaps(st.globals);
    JoinFrames(o, L, st, s, r1.st.locals, r2.st.locals);
    SidesApart(objs, objs1, objs2, pos);
    MergeRefsFits(o, s, r1.st.refs, r2.st.refs, objs1, objs2);
    JoinResults(o, cond, result, r1.val, r2.val);
  }

  lemma {:induction false} JoinFrames(o: Oracle, L: map<string, Ty>, st: SymState, s: Term, l1: seq<map<string, SVal>>,
                                      l2: seq<map<string, SVal>>)
    requires Sound(o) && SortOf(s) == SBool && |l1| == |l2| == |st.locals| > 0
    requires l1[..|l1| - 1] == l2[..|l1| - 1] == st.locals[..|l1| - 1]
    requires FrameKinds(L, l1[|l1| - 1]) && FrameKinds(L, l2[|l1| - 1])
    ensures FramesAlike(l1, l2)
    ensures var l := MergeFrames(o, s, l1, l2);
            && l.Some? && |l.value| == |st.locals| && l.value[..|l1| - 1] == st.locals[..|l1| - 1]
            && FrameKinds(L, l.value[|l1| - 1])
  {
    hide Sound, MergeVals, MergeFrames, MapsAlike, FramesAlike, FrameKinds;
    MergeValsKinds(o, s, L, l1[|l1| - 1], l2[|l1| - 1]);
    MergeFramesTop(o, s, l1, l2);
    FramesAlikeTop(l1, l2);
  }

  lemma {:induction false} JoinResults(o: Oracle, cond: Term, result: Option<Ty>, v1: Option<SVal>, v2: Option<SVal>)
    requires Sound(o) && SortOf(cond) == SBool && ResultFits(v1, result) && ResultFits(v2, result)
    ensures v1.Some? <==> v2.Some?
    ensures v1.Some? ==>
      var v := IfVal(o, cond, v1.value, v2.value); Alike(v1.value, v2.value) && v.Some? && ResultFits(v, result)
  {
    hide Sound, IfVal, KindFits, Alike;
    if result.Some? { IfValKind(o, cond, v1.value, v2.value, result.value); }
  }

  lemma {:induction false} SameMaps(m: map<string, SVal>)
    ensures MapsAlike(m, m)
  {
  }

  lemma {:induction false} RunBelow(objs: map<string, IType>, objs': map<string, IType>, L: map<string, Ty>,
                                    result: Option<Ty>, st: SymState, pos: Position, pos': Position, r: SRes)
    requires RunDone(objs, objs', L, result, st, pos', r) && pos <= pos'
    ensures RunDone(objs, objs', L, result, st, pos, r)
  {
    hide Grows, FrameKinds, MemFits, ResultFits;
    GrowsBelow(objs, objs', pos, pos');
  }
}
