/** The evaluator as it runs: a mutable context with a solver stack and a stack of snapshots
    (libirpy/ctx.py), and evaluation methods that update it (libirpy/z3eval.py).

    Each method is proved against its function in SymbolicExec: it returns that function's result
    for the context's state and path condition at the call, leaves the context in that function's
    state, and leaves the solver stack, the snapshots and the depth as they were, also when it
    raises an error.
 */
module Evaluator {
  import opened Options
  import opened Terms
  import opened References
  import opened Programs
  import opened SymbolicExec

  class Context {
    var globals: map<string, SVal>
    var locals: seq<map<string, SVal>>
    var refs: Refs
    var accessed: set<string>
    /** The solver's assertions, one list for each open scope. */
    var solver: seq<seq<Term>>
    /** The list kept beside the solver. */
    var pathCondition: seq<Term>
    var snapshots: seq<SymState>
    var depth: int

    constructor (st: SymState, assumptions: seq<Term>)
      ensures View() == st && solver == [assumptions] && pathCondition == assumptions
      ensures snapshots == [] && depth == 0
    {
      globals, locals, refs, accessed := st.globals, st.locals, st.refs, st.accessed;
      solver, pathCondition := [assumptions], assumptions;
      snapshots, depth := [], 0;
    }

    /** What `snapshot` copies. */
    function View(): SymState
      reads this
    {
      SymState(globals, locals, refs, accessed)
    }

    /** Everything the solver has been told. */
    function Assertions(): seq<Term>
      reads this
    {
      Flatten(solver)
    }

    method Restore(c: SymState)
      modifies this
      ensures View() == c
      ensures solver == old(solver) && pathCondition == old(pathCondition)
      ensures snapshots == old(snapshots) && depth == old(depth)
    {
      globals, locals, refs, accessed := c.globals, c.locals, c.refs, c.accessed;
    }

    /** `add_assumption`: the assertion belongs to the innermost scope. */
    method AddAssumption(t: Term)
      requires solver != []
      modifies this
      ensures View() == old(View()) && snapshots == old(snapshots) && depth == old(depth)
      ensures |solver| == |old(solver)| && solver[..|solver| - 1] == old(solver[..|solver| - 1])
      ensures Assertions() == old(Assertions()) + [t]
      ensures pathCondition == old(pathCondition) + [t]
    {
      var n := |solver| - 1;
      FlattenLast(solver[..n], solver[n]);
      FlattenLast(solver[..n], solver[n] + [t]);
      assert solver == solver[..n] + [solver[n]];
      assert solver[n := solver[n] + [t]] == solver[..n] + [solver[n] + [t]];
      solver := solver[n := solver[n] + [t]];
      pathCondition := pathCondition + [t];
    }

    method Push(cond: Term)
      modifies this
      ensures View() == old(View())
      ensures solver == old(solver) + [[cond]] && Assertions() == old(Assertions()) + [cond]
      ensures pathCondition == old(pathCondition) + [cond]
      ensures snapshots == old(snapshots) + [old(View())] && depth == old(depth) + 1
    {
      FlattenLast(solver, [cond]);
      snapshots := snapshots + [View()];
      solver := solver + [[cond]];
      pathCondition := pathCondition + [cond];
      depth := depth + 1;
    }

    /** `pop`: returns the state reached since the matching `push` and goes back to the state
        before it.  The innermost solver scope goes with all it holds; of the path condition list
        only the last entry goes. */
    method Pop() returns (reached: SymState)
      requires solver != [] && snapshots != [] && pathCondition != []
      modifies this
      ensures reached == old(View())
      ensures View() == old(snapshots[|snapshots| - 1])
      ensures snapshots == old(snapshots[..|snapshots| - 1]) && solver == old(solver[..|solver| - 1])
      ensures pathCondition == old(pathCondition[..|pathCondition| - 1])
      ensures depth == old(depth) - 1
    {
      depth := depth - 1;
      pathCondition := pathCondition[..|pathCondition| - 1];
      solver := solver[..|solver| - 1];
      reached := View();
      var c := snapshots[|snapshots| - 1];
      snapshots := snapshots[..|snapshots| - 1];
      Restore(c);
    }

    /** A scope in which `ts` are assumed.  The solver and the state are as before it, but the path
        condition list has kept the branch condition and lost the last assumption instead: it is as
        before exactly when none was made. */
    method Scope(cond: Term, ts: seq<Term>) returns (reached: SymState)
      modifies this
      ensures View() == old(View()) && reached == old(View()) && solver == old(solver)
      ensures Assertions() == old(Assertions())
      ensures snapshots == old(snapshots) && depth == old(depth)
      ensures pathCondition == old(pathCondition) <==> ts == []
      ensures ts != [] ==> pathCondition == old(pathCondition) + [cond] + ts[..|ts| - 1]
    {
      Push(cond);
      for k := 0 to |ts|
        invariant View() == old(View()) && |solver| == |old(solver)| + 1 && solver[..|solver| - 1] == old(solver)
        invariant pathCondition == old(pathCondition) + [cond] + ts[..k]
        invariant snapshots == old(snapshots) + [old(View())] && depth == old(depth) + 1
      {
        AddAssumption(ts[k]);
        assert ts[..k] + [ts[k]] == ts[..k + 1];
      }
      reached := Pop();
      assert ts != [] ==> |pathCondition| > |old(pathCondition)|;
    }

    /** `merge`; `ok` is false where it raises an error. */
    method Merge(o: Oracle, cond: Term, c1: SymState, c2: SymState) returns (ok: bool)
      modifies this
      ensures ok == SymbolicExec.Merge(o, cond, c1, c2).Some?
      ensures ok ==> View() == SymbolicExec.Merge(o, cond, c1, c2).value
      ensures solver == old(solver) && pathCondition == old(pathCondition)
      ensures snapshots == old(snapshots) && depth == old(depth)
    {
      var g := MergeDict(c1.globals, c2.globals, (a, b) => IfVal(o, cond, a, b));
      var l := MergeList(o, cond, c1.locals, c2.locals);
      var r := MergeDict(c1.refs, c2.refs, (a, b) => MergeObject(o, cond, a, b));
      if g.None? || l.None? || r.None? { return false; }
      globals, locals, refs, accessed := g.value, l.value, r.value, c1.accessed + c2.accessed;
      return true;
    }
  }

  function Flatten<T>(ss: seq<seq<T>>): seq<T> {
    if ss == [] then [] else Flatten(ss[..|ss| - 1]) + ss[|ss| - 1]
  }

  lemma {:induction false} FlattenLast<T>(ss: seq<seq<T>>, s: seq<T>)
    ensures Flatten(ss + [s]) == Flatten(ss) + s
  {
    assert (ss + [s])[..|ss|] == ss;
  }

  /** The dictionary case of `util.merge`. */
  method MergeDict<K, V>(m1: map<K, V>, m2: map<K, V>, f: (V, V) -> Option<V>) returns (r: Option<map<K, V>>)
    ensures r == MergeMap(m1, m2, f)
  {
    var keys, out := m1.Keys + m2.Keys, map[];
    while keys != {}
      invariant keys <= m1.Keys + m2.Keys && out.Keys == m1.Keys + m2.Keys - keys
      invariant forall k :: k in out && k in m1 && k in m2 ==> f(m1[k], m2[k]) == Some(out[k])
      invariant forall k :: k in out && k !in m2 ==> out[k] == m1[k]
      invariant forall k :: k in out && k !in m1 ==> out[k] == m2[k]
    {
      var k :| k in keys;
      keys := keys - {k};
      if k !in m1 {
        out := out[k := m2[k]];
      } else if k !in m2 {
        out := out[k := m1[k]];
      } else {
        var v := f(m1[k], m2[k]);
        if v.None? { return None; }
        out := out[k := v.value];
      }
    }
    r := Some(out);
    assert forall k :: k in m1 && k in m2 ==> f(m1[k], m2[k]).Some?;
    assert out == MergeMap(m1, m2, f).value;
  }

  /** The list case of `util.merge`, on the frames. */
  method MergeList(o: Oracle, cond: Term, l1: seq<map<string, SVal>>, l2: seq<map<string, SVal>>)
    returns (r: Option<seq<map<string, SVal>>>)
    ensures r == MergeFrames(o, cond, l1, l2)
  {
    if |l1| != |l2| { return None; }
    var out: seq<map<string, SVal>> := [];
    PrependNothing(MergeFrames(o, cond, l1, l2));
    assert l1[0..] == l1 && l2[0..] == l2;
    for i := 0 to |l1|
      invariant MergeFrames(o, cond, l1, l2) == Prepend(out, MergeFrames(o, cond, l1[i..], l2[i..]))
    {
      var d := MergeDict(l1[i], l2[i], (a, b) => IfVal(o, cond, a, b));
      if d.None? { return None; }
      PrependOne(out, d.value, MergeFrames(o, cond, l1[i..][1..], l2[i..][1..]));
      assert l1[i..][1..] == l1[i + 1..] && l2[i..][1..] == l2[i + 1..];
      out := out + [d.value];
    }
    assert out + [] == out;
    r := Some(out);
  }

  function Prepend<T>(xs: seq<T>, r: Option<seq<T>>): Option<seq<T>> {
    if r.None? then None else Some(xs + r.value)
  }

  lemma {:induction false} PrependNothing<T>(r: Option<seq<T>>)
    ensures Prepend([], r) == r
  {
    if r.Some? {
      assert [] + r.value == r.value;
    }
  }

  lemma {:induction false} PrependOne<T>(xs: seq<T>, x: T, r: Option<seq<T>>)
    ensures Prepend(xs + [x], r) == Prepend(xs, if r.None? then None else Some([x] + r.value))
  {
    if r.Some? {
      assert xs + [x] + r.value == xs + ([x] + r.value);
    }
  }

  /** How a call of the evaluator ends: a return, `UnreachableException`, another exception, or no
      fuel left. */
  datatype Ending = Returned(val: Option<SVal>) | RaisedUnreachable | RaisedError | OutOfSteps

  function ToRes(e: Ending, st: SymState): SRes {
    match e
    case Returned(v) => Done(st, v)
    case RaisedUnreachable => UnreachableReached
    case RaisedError => Refused
    case OutOfSteps => NoFuel
  }

  /** Everything of a context but the state that `View` shows. */
  datatype Frame = Frame(solver: seq<seq<Term>>, pathCondition: seq<Term>, snapshots: seq<SymState>, depth: int)

  function FrameOf(ctx: Context): Frame
    reads ctx
  {
    Frame(ctx.solver, ctx.pathCondition, ctx.snapshots, ctx.depth)
  }

  class Z3Eval {
    const o: Oracle
    const P: Program

    constructor (o: Oracle, P: Program)
      ensures this.o == o && this.P == P
    {
      this.o, this.P := o, P;
    }

    /** A basic block. */
    method Block(ctx: Context, fn: Function, here: string, pred: Option<string>, pos: Position, fuel: nat)
      returns (e: Ending)
      modifies ctx
      ensures FrameOf(ctx) == old(FrameOf(ctx))
      ensures ToRes(e, ctx.View()) == SBlock(o, P, fn, here, pred, pos, old(ctx.Assertions()), old(ctx.View()), fuel)
      decreases fuel, 4, 0
    {
      hide SInstrs, Flatten;
      if fuel == 0 { return OutOfSteps; }
      if here !in fn.blocks { return RaisedError; }
      e := Instrs(ctx, fn, here, pred, pos, fn.blocks[here], fuel);
    }

    method Instrs(ctx: Context, fn: Function, here: string, pred: Option<string>, pos: Position, block: Programs.Block,
                  fuel: nat)
      returns (e: Ending)
      requires fuel > 0
      modifies ctx
      ensures FrameOf(ctx) == old(FrameOf(ctx))
      ensures ToRes(e, ctx.View())
           == SInstrs(o, P, fn, here, pred, pos, 0, block, old(ctx.Assertions()), old(ctx.View()), fuel)
      decreases fuel, 3, 0
    {
      hide SInstr, STerminator, Flatten;
      for k := 0 to |block.instrs|
        invariant FrameOf(ctx) == old(FrameOf(ctx))
        invariant SInstrs(o, P, fn, here, pred, pos, 0, block, old(ctx.Assertions()), old(ctx.View()), fuel)
               == SInstrs(o, P, fn, here, pred, pos, k, block, ctx.Assertions(), ctx.View(), fuel)
      {
        var r := Step(ctx, pred, pos + [k], block.instrs[k], fuel);
        if !r.Returned? { return r; }
      }
      e := Terminate(ctx, fn, here, pos + [|block.instrs|], block.term, fuel);
    }

    method Step(ctx: Context, pred: Option<string>, pos: Position, i: Instr, fuel: nat) returns (e: Ending)
      requires fuel > 0
      modifies ctx
      ensures FrameOf(ctx) == old(FrameOf(ctx))
      ensures ToRes(e, ctx.View()) == SInstr(o, P, pred, pos, i, old(ctx.Assertions()), old(ctx.View()), fuel)
      decreases fuel, 2, 0
    {
      hide SRhs, Write, SOperand, Touched, SCall, Flatten;
      match i
      case Assign(dst, rhs) =>
        var v: SVal;
        if rhs.Call? {
          e := CallFunction(ctx, pos, rhs.fn, rhs.args, fuel);
          if !e.Returned? { return; }
          if e.val.None? { return RaisedError; }
          v := e.val.value;
        } else {
          var r := SRhs(o, ctx.Assertions(), ctx.View(), pred, pos, rhs);
          if r.None? { return RaisedError; }
          ctx.Restore(r.value.0);
          v := r.value.1;
        }
        if ctx.locals == [] { return RaisedError; }
        var n := |ctx.locals| - 1;
        ctx.locals := ctx.locals[n := ctx.locals[n][dst := v]];
        e := Returned(None);
      case CallVoid(f, args) =>
        e := CallFunction(ctx, pos, f, args, fuel);
      case Store(x, p) =>
        var v, a := SOperand(ctx.View(), x), SOperand(ctx.View(), p);
        if v.None? || a.None? || !a.value.SPtr? || !v.value.STerm? { return RaisedError; }
        var w := Write(o, ctx.Assertions(), ctx.refs, a.value.p, v.value.t);
        if w.None? { return RaisedError; }
        ctx.refs := w.value;
        ctx.accessed := ctx.accessed + Touched(a.value.p);
        e := Returned(None);
    }

    /** `call`: a fresh frame of locals around the body. */
    method CallFunction(ctx: Context, pos: Position, f: string, args: seq<Operand>, fuel: nat) returns (e: Ending)
      requires fuel > 0
      modifies ctx
      ensures FrameOf(ctx) == old(FrameOf(ctx))
      ensures ToRes(e, ctx.View()) == SCall(o, P, pos, f, args, old(ctx.Assertions()), old(ctx.View()), fuel)
      decreases fuel, 1, 0
    {
      var vs := SOperands(ctx.View(), args);
      if vs.None? { return RaisedError; }
      if f !in P || |P[f].params| != |vs.value| { return RaisedError; }
      ctx.locals := ctx.locals + [Bind(P[f].params, vs.value)];
      e := Block(ctx, P[f], P[f].entry, None, pos, fuel - 1);
      if ctx.locals == [] { return if e.Returned? then RaisedError else e; }
      ctx.locals := ctx.locals[..|ctx.locals| - 1];
    }

    method Terminate(ctx: Context, fn: Function, here: string, pos: Position, t: Terminator, fuel: nat)
      returns (e: Ending)
      requires fuel > 0
      modifies ctx
      ensures FrameOf(ctx) == old(FrameOf(ctx))
      ensures ToRes(e, ctx.View()) == STerminator(o, P, fn, here, pos, t, old(ctx.Assertions()), old(ctx.View()), fuel)
      decreases fuel, 2, 0
    {
      match t
      case Return(None) => e := Returned(None);
      case Return(Some(x)) =>
        var v := SOperand(ctx.View(), x);
        e := if v.None? then RaisedError else Returned(v);
      case Jump(l) => e := Block(ctx, fn, l, Some(here), pos, fuel - 1);
      case Branch(c, l1, l2) =>
        var v := SOperand(ctx.View(), c);
        if v.None? || v.value.SPtr? { return RaisedError; }
        e := BranchOn(ctx, fn, here, pos, v.value.t, Goto(l1), Goto(l2), fuel);
      case Switch(x, default, cases) =>
        if SOperand(ctx.View(), x).None? { return RaisedError; }
        e := Take(ctx, fn, here, pos, Cases(x, default, cases), fuel);
      case Unreachable => e := RaisedUnreachable;
    }

    /** One side of `branch`, between `push` and `pop`. */
    method Side(ctx: Context, fn: Function, here: string, pos: Position, cond: Term, t: Target, fuel: nat)
      returns (e: Ending, reached: SymState)
      requires fuel > 0
      modifies ctx
      ensures FrameOf(ctx) == old(FrameOf(ctx)) && ctx.View() == old(ctx.View())
      ensures ToRes(e, reached)
           == Settle(o, old(ctx.Assertions()) + [cond],
                     STake(o, P, fn, here, pos, t, old(ctx.Assertions()) + [cond], old(ctx.View()), fuel))
      decreases fuel, 1, TargetSize(t), 1
    {
      hide STake, Implied, Flatten;
      ctx.Push(cond);
      e := Take(ctx, fn, here, pos, t, fuel);
      if e == RaisedUnreachable && !Implied(o, ctx.Assertions(), FALSE) { e := RaisedError; }
      reached := ctx.Pop();
    }

    method BranchOn(ctx: Context, fn: Function, here: string, pos: Position, cond: Term, t1: Target, t2: Target,
                    fuel: nat)
      returns (e: Ending)
      requires fuel > 0
      modifies ctx
      ensures FrameOf(ctx) == old(FrameOf(ctx))
      ensures ToRes(e, ctx.View())
           == SBranch(o, P, fn, here, pos, cond, t1, t2, old(ctx.Assertions()), old(ctx.View()), fuel)
      decreases fuel, 1, Larger(TargetSize(t1), TargetSize(t2)) + 1, 0
    {
      var scond := o.simplify(cond);
      if SortOf(cond) != SBool || SortOf(scond) != SBool { return RaisedError; }
      var canBeTrue := CanBeTrue(o, ctx.Assertions(), scond);
      var canBeFalse := CanBeFalse(o, ctx.Assertions(), scond);
      var e1, e2 := RaisedUnreachable, RaisedUnreachable;
      var c1, c2 := ctx.View(), ctx.View();
      if canBeTrue { e1, c1 := Side(ctx, fn, here, pos + [0], scond, t1, fuel); }
      if canBeFalse { e2, c2 := Side(ctx, fn, here, pos + [1], Negate(scond), t2, fuel); }
      e := Join(ctx, cond, scond, e1, c1, e2, c2);
    }

    /** The end of `branch`: restore the only side left, or merge both. */
    method Join(ctx: Context, cond: Term, scond: Term, e1: Ending, c1: SymState, e2: Ending, c2: SymState)
      returns (e: Ending)
      modifies ctx
      ensures FrameOf(ctx) == old(FrameOf(ctx))
      ensures ToRes(e, ctx.View()) == Combine(o, cond, scond, ToRes(e1, c1), ToRes(e2, c2))
    {
      hide SymbolicExec.Merge, IfVal, Flatten;
      if e1 == RaisedError || e2 == RaisedError { return RaisedError; }
      if e1 == OutOfSteps || e2 == OutOfSteps { return OutOfSteps; }
      if e1 == RaisedUnreachable {
        ctx.Restore(c2);
        return e2;
      }
      if e2 == RaisedUnreachable {
        ctx.Restore(c1);
        return e1;
      }
      var ok := ctx.Merge(o, scond, c1, c2);
      if !ok { return RaisedError; }
      match (e1.val, e2.val)
      case (None, None) => e := Returned(None);
      case (Some(a), Some(b)) =>
        var v := IfVal(o, cond, a, b);
        e := if v.None? then RaisedError else Returned(v);
      case _ => e := RaisedError;
    }

    method Take(ctx: Context, fn: Function, here: string, pos: Position, t: Target, fuel: nat) returns (e: Ending)
      requires fuel > 0
      modifies ctx
      ensures FrameOf(ctx) == old(FrameOf(ctx))
      ensures ToRes(e, ctx.View()) == STake(o, P, fn, here, pos, t, old(ctx.Assertions()), old(ctx.View()), fuel)
      decreases fuel, 1, TargetSize(t), 0
    {
      match t
      case Goto(l) => e := Block(ctx, fn, l, Some(here), pos, fuel - 1);
      case Cases(x, default, cases) =>
        if cases == [] {
          e := Block(ctx, fn, default, Some(here), pos, fuel - 1);
        } else {
          var c := CaseCondition(ctx.View(), x, cases[0].0);
          if c.None? { return RaisedError; }
          e := BranchOn(ctx, fn, here, pos, c.value, Goto(cases[0].1), Cases(x, default, cases[1..]), fuel);
        }
    }
  }
}
