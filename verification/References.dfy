/** Typed references, pointers and symbolic memory: libirpy/datatypes.py with `util.partial_update`.

    A memory object is a family of functions, one for each tuple of struct fields, from index
    vectors to values.  A write wraps the old function, a merge of two memories chooses between two
    functions, and a read applies the function.  A pointer is a reference with a list of pending
    index lists (geps), or a conditional choice between two pointers.

    Beside every symbolic operation stands its meaning: the cell a pointer denotes under a
    valuation and the value a memory holds in a cell.
 */
module References {
  import opened Options
  import opened Words
  import opened Terms

  datatype IType =
    | TInt(width: nat)
    | TPointer(to: IType)
    | TArray(length: nat, of: IType)
    | TStruct(fields: seq<IType>)

  datatype Reference = Reference(name: string, itype: IType)

  datatype Pointer =
    | PBase(ref: Reference, geps: seq<seq<Term>>)
    | PIte(cond: Term, p1: Pointer, p2: Pointer)

  /** One memory function. */
  datatype Fn =
    | Base(id: FnId, width: nat)
    | Updated(old_: Fn, at: seq<Term>, val: Term)
    | Choice(cond: Term, a: Fn, b: Fn)

  type Refs = map<string, map<seq<nat>, Fn>>

  /** The concrete counterpart of a pointer: an object and a fully composed index path. */
  datatype Address = Address(ref: Reference, path: seq<Value>)

  /** One storage cell: a leaf field of an object at an index vector. */
  datatype Cell = Cell(fn: FnId, idx: seq<Value>)

  /* ---------- applying a memory function ---------- */

  /** The conjunction `a == b` over both index vectors, or `None` where the sorts clash. */
  function AllEqual(xs: seq<Term>, ys: seq<Term>): (r: Option<Term>)
    requires |xs| == |ys|
    ensures r.Some? ==> SortOf(r.value) == SBool
    ensures r.Some? ==> forall m: Model :: Holds(r.value, m) <==> EvalAll(xs, m) == EvalAll(ys, m)
  {
    if exists i :: 0 <= i < |xs| && SortOf(xs[i]) != SortOf(ys[i]) then None else
    var eqs: seq<Term> := seq(|xs|, i requires 0 <= i < |xs| => Equal(xs[i], ys[i]));
    var t := Node(AllOf, eqs);
    assert forall m: Model :: Holds(t, m) <==> EvalAll(xs, m) == EvalAll(ys, m) by {
      forall m: Model
        ensures Holds(t, m) <==> EvalAll(xs, m) == EvalAll(ys, m)
      {
        EvalNode(AllOf, eqs, m);
        assert forall i :: 0 <= i < |xs| ==>
          (EvalAll(eqs, m)[i] == VBool(true) <==> EvalAll(xs, m)[i] == EvalAll(ys, m)[i]);
      }
    }
    Some(t)
  }

  /** Calling a memory function on symbolic indices.  The library raises an error on a clash of
      sorts; index vectors of different lengths, which typed accesses never produce, are refused. */
  function Apply(o: Oracle, f: Fn, args: seq<Term>): Option<Term> {
    match f
    case Base(id, w) =>
      if OpSorted(Op.Lookup(id, w), Sorts(args)) then Some(Node(Op.Lookup(id, w), args)) else None
    case Updated(g, at, val) =>
      if |at| != |args| then None else
        var cond :- AllEqual(at, args);
        var rest :- Apply(o, g, args);
        If(o, cond, val, rest)
    case Choice(cond, a, b) =>
      var ta :- Apply(o, a, args);
      var tb :- Apply(o, b, args);
      If(o, cond, ta, tb)
  }

  /** The value a memory function gives to an index vector under a valuation. */
  function EvalFn(f: Fn, idx: seq<Value>, m: Model): Value {
    match f
    case Base(id, w) => CellValue(m, id, idx, w)
    case Updated(g, at, val) => if EvalAll(at, m) == idx then Eval(val, m) else EvalFn(g, idx, m)
    case Choice(cond, a, b) => if Truth(Eval(cond, m)) then EvalFn(a, idx, m) else EvalFn(b, idx, m)
  }

  /** Applying to terms and then evaluating is evaluating the indices and looking them up. */
  lemma {:induction false} ApplyMeaning(o: Oracle, f: Fn, args: seq<Term>, m: Model)
    requires Sound(o) && Apply(o, f, args).Some?
    ensures Eval(Apply(o, f, args).value, m) == EvalFn(f, EvalAll(args, m), m)
    decreases f
  {
    hide OpSem, OpSorted, OpSort, BvSem;
    match f
    case Base(id, w) =>
      ApplyBase(o, id, w, args, m);
    case Updated(g, at, val) =>
      ApplyMeaning(o, g, args, m);
      IfMeaning(o, AllEqual(at, args).value, val, Apply(o, g, args).value, m);
    case Choice(cond, a, b) =>
      ApplyMeaning(o, a, args, m);
      ApplyMeaning(o, b, args, m);
      IfMeaning(o, cond, Apply(o, a, args).value, Apply(o, b, args).value, m);
  }

  lemma {:induction false} ApplyBase(o: Oracle, id: FnId, w: nat, args: seq<Term>, m: Model)
    requires OpSorted(Op.Lookup(id, w), Sorts(args))
    ensures Eval(Node(Op.Lookup(id, w), args), m) == CellValue(m, id, EvalAll(args, m), w)
  {
    EvalNode(Op.Lookup(id, w), args, m);
  }

  /** `f` after the writes `ws`, oldest first. */
  function WriteAll(f: Fn, ws: seq<(seq<Term>, Term)>): Fn {
    if ws == [] then f else Updated(WriteAll(f, ws[..|ws| - 1]), ws[|ws| - 1].0, ws[|ws| - 1].1)
  }

  /** Read over write, for any number of writes: the last write to an equal index vector wins. */
  lemma {:induction false} LastWriteWins(f: Fn, ws: seq<(seq<Term>, Term)>, k: nat, idx: seq<Value>, m: Model)
    requires k < |ws| && EvalAll(ws[k].0, m) == idx
    requires forall j :: k < j < |ws| ==> EvalAll(ws[j].0, m) != idx
    ensures EvalFn(WriteAll(f, ws), idx, m) == Eval(ws[k].1, m)
    decreases |ws|
  {
    if k < |ws| - 1 {
      LastWriteWins(f, ws[..|ws| - 1], k, idx, m);
    }
  }

  /** Without a write to an equal index vector the original function answers. */
  lemma {:induction false} NoWriteKeeps(f: Fn, ws: seq<(seq<Term>, Term)>, idx: seq<Value>, m: Model)
    requires forall j :: 0 <= j < |ws| ==> EvalAll(ws[j].0, m) != idx
    ensures EvalFn(WriteAll(f, ws), idx, m) == EvalFn(f, idx, m)
    decreases |ws|
  {
    if ws != [] {
      NoWriteKeeps(f, ws[..|ws| - 1], idx, m);
    }
  }

  /* ---------- canonical paths ---------- */

  /** An index used in pointer arithmetic must have 64 bits; a narrower one must be a literal. */
  function Widen(o: Oracle, t: Term): (r: Option<Term>)
    ensures r.Some? ==> SortOf(r.value) == SBv(64)
  {
    if SortOf(t) == SBv(64) then Some(t)
    else match o.simplify(t)
      case Lit(VBv(_, n)) => Some(BvVal(n, 64))
      case _ => None
  }

  function WidenValue(v: Value): (r: Value)
    ensures HasSort(r, SBv(64))
  {
    Pow2Values();
    VBv(64, Num(v) % W64)
  }

  lemma {:induction false} WidenMeaning(o: Oracle, t: Term, m: Model)
    requires Sound(o) && Widen(o, t).Some?
    ensures Eval(t, m).VBv? && Eval(Widen(o, t).value, m) == WidenValue(Eval(t, m))
  {
    Pow2Values();
    var v := Eval(t, m);
    assert Eval(o.simplify(t), m) == v;
    assert HasSort(v, SortOf(t));
    if SortOf(t) == SBv(64) {
      DivModUnique(v.n, W64, 0, v.n);
    }
  }

  function Plus(a: Term, b: Term): (t: Term)
    requires SortOf(a) == SBv(64) && SortOf(b) == SBv(64)
    ensures SortOf(t) == SBv(64)
  {
    BvTerm(Add, a, b)
  }

  lemma {:induction false} PlusMeaning(a: Term, b: Term, m: Model)
    requires SortOf(a) == SBv(64) && SortOf(b) == SBv(64)
    ensures Eval(Plus(a, b), m) == VBv(64, (Num(Eval(a, m)) + Num(Eval(b, m))) % W64)
  {
    hide BvSem, OpSem, Pow2;
    BvNode(Add, a, b, m);
    Add64(Num(Eval(a, m)), Num(Eval(b, m)));
  }

  lemma {:induction false} Add64(x: nat, y: nat)
    ensures BvSem(Add, 64, x, y) == (x + y) % W64
  {
    hide BvSem;
    AddMeaning(64, x, y);
    Pow2Values();
  }

  /** `canonical_path`: the first index of each gep is added to the last index so far. */
  function ComposeGeps(o: Oracle, path: seq<Term>, geps: seq<seq<Term>>): Option<seq<Term>>
    requires |path| > 0
    decreases geps
  {
    if geps == [] then Some(path)
    else if geps[0] == [] then None
    else
      var n := |path| - 1;
      var last :- Widen(o, path[n]);
      var step :- Widen(o, geps[0][0]);
      ComposeGeps(o, path[..n] + [Plus(last, step)] + geps[0][1..], geps[1..])
  }

  function SimplifyAll(o: Oracle, ts: seq<Term>): (r: seq<Term>)
    ensures |r| == |ts|
  {
    seq<Term>(|ts|, i requires 0 <= i < |ts| => o.simplify(ts[i]))
  }

  const ORIGIN: Term := BvVal(0, 64)

  function CanonicalPath(o: Oracle, geps: seq<seq<Term>>): Option<seq<Term>> {
    var path :- ComposeGeps(o, [ORIGIN], geps);
    Some(SimplifyAll(o, path))
  }

  /** The loop of `canonical_path`, which grows one list. */
  method CanonicalPathLoop(o: Oracle, geps: seq<seq<Term>>) returns (r: Option<seq<Term>>)
    ensures r == CanonicalPath(o, geps)
  {
    var path: seq<Term> := [ORIGIN];
    for i := 0 to |geps|
      invariant |path| > 0
      invariant ComposeGeps(o, [ORIGIN], geps) == ComposeGeps(o, path, geps[i..])
    {
      var gep, n := geps[i], |path| - 1;
      if gep == [] { return None; }
      var last := Widen(o, path[n]);
      if last.None? { return None; }
      var step := Widen(o, gep[0]);
      if step.None? { return None; }
      path := path[..n] + [Plus(last.value, step.value)] + gep[1..];
    }
    r := Some(SimplifyAll(o, path));
  }

  /** Moving a concrete path by one gep. */
  function Step(path: seq<Value>, idx: seq<Value>): (r: seq<Value>)
    requires |path| > 0 && |idx| > 0
    ensures |r| > 0
  {
    var n := |path| - 1;
    path[..n] + [VBv(64, (Num(WidenValue(path[n])) + Num(WidenValue(idx[0]))) % W64)] + idx[1..]
  }

  /** An index as a bit vector: a boolean has one bit. */
  function IndexValue(v: Value): (r: Value)
    ensures r.VBv?
  {
    match v case VBool(b) => VBv(1, if b then 1 else 0) case VBv(_, _) => v
  }

  function EvalIndices(ts: seq<Term>, m: Model): (vs: seq<Value>)
    ensures |vs| == |ts|
    ensures forall i :: 0 <= i < |ts| ==> vs[i] == IndexValue(Eval(ts[i], m))
  {
    seq(|ts|, i requires 0 <= i < |ts| => IndexValue(Eval(ts[i], m)))
  }

  function StepAll(path: seq<Value>, geps: seq<seq<Term>>, m: Model): (r: seq<Value>)
    requires |path| > 0
    ensures |r| > 0
    decreases geps
  {
    if geps == [] then path
    else if geps[0] == [] then StepAll(path, geps[1..], m)
    else StepAll(Step(path, EvalIndices(geps[0], m)), geps[1..], m)
  }

  const ORIGIN_VALUE: Value := VBv(64, 0)

  lemma {:induction false} ComposeMeaning(o: Oracle, path: seq<Term>, geps: seq<seq<Term>>, m: Model)
    requires Sound(o) && |path| > 0 && ComposeGeps(o, path, geps).Some?
    ensures EvalIndices(ComposeGeps(o, path, geps).value, m) == StepAll(EvalIndices(path, m), geps, m)
    decreases geps
  {
    if geps != [] {
      var n := |path| - 1;
      ComposeStep(o, path, geps[0], m);
      var path' := path[..n] + [Plus(Widen(o, path[n]).value, Widen(o, geps[0][0]).value)] + geps[0][1..];
      ComposeMeaning(o, path', geps[1..], m);
    }
  }

  lemma {:induction false} ComposeStep(o: Oracle, path: seq<Term>, gep: seq<Term>, m: Model)
    requires Sound(o) && |path| > 0 && |gep| > 0
    requires Widen(o, path[|path| - 1]).Some? && Widen(o, gep[0]).Some?
    ensures var n := |path| - 1;
            var path' := path[..n] + [Plus(Widen(o, path[n]).value, Widen(o, gep[0]).value)] + gep[1..];
            EvalIndices(path', m) == Step(EvalIndices(path, m), EvalIndices(gep, m))
  {
    hide Sound, Widen, Plus, WidenValue, EvalIndices, Eval;
    var n := |path| - 1;
    WidenMeaning(o, path[n], m);
    WidenMeaning(o, gep[0], m);
    PlusMeaning(Widen(o, path[n]).value, Widen(o, gep[0]).value, m);
    EvalParts(path, Plus(Widen(o, path[n]).value, Widen(o, gep[0]).value), gep, m);
  }

  lemma {:induction false} EvalParts(path: seq<Term>, t: Term, gep: seq<Term>, m: Model)
    requires |path| > 0 && |gep| > 0
    ensures var n := |path| - 1;
            EvalIndices(path[..n] + [t] + gep[1..], m) ==
            EvalIndices(path, m)[..n] + [IndexValue(Eval(t, m))] + EvalIndices(gep, m)[1..]
  {
    hide Eval;
  }

  /** The canonical path denotes the composition of all geps, in order. */
  lemma {:induction false} CanonicalPathMeaning(o: Oracle, geps: seq<seq<Term>>, m: Model)
    requires Sound(o) && CanonicalPath(o, geps).Some?
    ensures EvalIndices(CanonicalPath(o, geps).value, m) == StepAll([ORIGIN_VALUE], geps, m)
  {
    ComposeMeaning(o, [ORIGIN], geps, m);
    var path := ComposeGeps(o, [ORIGIN], geps).value;
    assert EvalIndices([ORIGIN], m) == [ORIGIN_VALUE];
    assert forall i :: 0 <= i < |path| ==> Eval(o.simplify(path[i]), m) == Eval(path[i], m);
    assert EvalIndices(SimplifyAll(o, path), m) == EvalIndices(path, m);
  }

  /** A further gep on an already indexed path is one more step. */
  lemma {:induction false} StepAllAppend(path: seq<Value>, geps: seq<seq<Term>>, g: seq<Term>, m: Model)
    requires |path| > 0 && |g| > 0
    ensures StepAll(path, geps + [g], m) == Step(StepAll(path, geps, m), EvalIndices(g, m))
    decreases geps
  {
    if geps == [] {
      assert StepAll(Step(path, EvalIndices(g, m)), [], m) == Step(path, EvalIndices(g, m));
      assert (geps + [g])[1..] == [];
    } else {
      assert (geps + [g])[1..] == geps[1..] + [g];
      StepAllAppend(if geps[0] == [] then path else Step(path, EvalIndices(geps[0], m)), geps[1..], g, m);
    }
  }

  /* ---------- from a path to a field tuple and an index vector ---------- */

  datatype Place = Place(fields: seq<nat>, idx: seq<Term>, itype: IType)

  function BelowLength(t: Term, n: nat): (r: Term)
    requires SortOf(t) == SBv(64)
    ensures SortOf(r) == SBool
    ensures forall m: Model :: Eval(r, m) == VBool(Num(Eval(t, m)) < n % W64)
  {
    var r := CmpTerm(Ult, t, BvVal(n, 64));
    assert forall m: Model :: Eval(r, m) == VBool(Num(Eval(t, m)) < n % W64) by {
      Pow2Values();
      forall m: Model { EvalNode(Cmp(Ult), [t, BvVal(n, 64)], m); }
    }
    r
  }

  /** `build_field_tuple_and_path`: array indices must be provably in bounds, the leading pointer
      index provably zero, struct indices literal. */
  function BuildPath(o: Oracle, pc: seq<Term>, t: IType, path: seq<Term>, leading: bool): Option<Place>
    decreases path
  {
    if path == [] then Some(Place([], [], t)) else
    match t
    case TInt(_) => None
    case TArray(n, of) =>
      if SortOf(path[0]) != SBv(64) || !Implied(o, pc, BelowLength(path[0], n)) then None else
        var rest :- BuildPath(o, pc, of, path[1..], false);
        Some(rest.(idx := [path[0]] + rest.idx))
    case TPointer(to) =>
      if !leading || SortOf(path[0]) != SBv(64) || !Implied(o, pc, Equal(path[0], ORIGIN)) then None else
        var rest :- BuildPath(o, pc, to, path[1..], false);
        Some(rest.(idx := [path[0]] + rest.idx))
    case TStruct(fields) =>
      match o.simplify(path[0])
      case Lit(VBv(_, f)) =>
        if f >= |fields| then None else
          var rest :- BuildPath(o, pc, fields[f], path[1..], false);
          Some(rest.(fields := [f] + rest.fields))
      case _ => None
  }

  /** `place` continued after the fields and indices already collected. */
  function Continue(fields: seq<nat>, idx: seq<Term>, place: Option<Place>): Option<Place> {
    if place.None? then None
    else Some(Place(fields + place.value.fields, idx + place.value.idx, place.value.itype))
  }

  lemma {:induction false} ContinueEnds(place: Option<Place>)
    ensures Continue([], [], place) == place
    ensures forall fields, idx :: Continue(fields, idx, None) == None
  {
    if place.Some? {
      assert [] + place.value.fields == place.value.fields && [] + place.value.idx == place.value.idx;
    }
  }

  lemma {:induction false} ContinueDone(fields: seq<nat>, idx: seq<Term>, typ: IType)
    ensures Continue(fields, idx, Some(Place([], [], typ))) == Some(Place(fields, idx, typ))
  {
    assert fields + [] == fields && idx + [] == idx;
  }

  lemma {:induction false} ContinueIndex(fields: seq<nat>, idx: seq<Term>, head: Term, rest: Option<Place>)
    ensures Continue(fields, idx + [head], rest)
         == Continue(fields, idx, match rest case None => None case Some(p) => Some(p.(idx := [head] + p.idx)))
  {
    if rest.Some? {
      assert idx + [head] + rest.value.idx == idx + ([head] + rest.value.idx);
    }
  }

  lemma {:induction false} ContinueField(fields: seq<nat>, idx: seq<Term>, head: nat, rest: Option<Place>)
    ensures Continue(fields + [head], idx, rest)
         == Continue(fields, idx, match rest case None => None case Some(p) => Some(p.(fields := [head] + p.fields)))
  {
    if rest.Some? {
      assert fields + [head] + rest.value.fields == fields + ([head] + rest.value.fields);
    }
  }

  /** The loop of `build_field_tuple_and_path`, which collects fields and indices from the left. */
  method BuildFieldTupleAndPath(o: Oracle, pc: seq<Term>, itype: IType, path: seq<Term>) returns (r: Option<Place>)
    ensures r == BuildPath(o, pc, itype, path, true)
  {
    var typ, fields, newpath, rest := itype, [], [], path;
    var leading := true;
    hide Implied, BelowLength, Equal, Continue;
    ContinueEnds(BuildPath(o, pc, itype, path, true));
    while rest != []
      invariant BuildPath(o, pc, itype, path, true) == Continue(fields, newpath, BuildPath(o, pc, typ, rest, leading))
      decreases |rest|
    {
      var head := rest[0];
      match typ {
        case TInt(_) => return None;
        case TArray(n, of) =>
          if SortOf(head) != SBv(64) || !Implied(o, pc, BelowLength(head, n)) { return None; }
          ContinueIndex(fields, newpath, head, BuildPath(o, pc, of, rest[1..], false));
          typ, newpath := of, newpath + [head];
        case TPointer(to) =>
          if !leading || SortOf(head) != SBv(64) || !Implied(o, pc, Equal(head, ORIGIN)) { return None; }
          ContinueIndex(fields, newpath, head, BuildPath(o, pc, to, rest[1..], false));
          typ, newpath := to, newpath + [head];
        case TStruct(fs) =>
          match o.simplify(head)
          case Lit(VBv(_, f)) =>
            if f >= |fs| { return None; }
            ContinueField(fields, newpath, f, BuildPath(o, pc, fs[f], rest[1..], false));
            typ, fields := fs[f], fields + [f];
          case _ => return None;
      }
      rest, leading := rest[1..], false;
    }
    r := Some(Place(fields, newpath, typ));
    ContinueDone(fields, newpath, typ);
  }

  /** What decoding a concrete path can give.  `Faulty` is an access outside an array or past the
      object; `Illtyped` is an access no typed program makes. */
  datatype Decoded = Found(fields: seq<nat>, idx: seq<Value>, itype: IType) | Faulty | Illtyped {
    function AddIndex(v: Value): Decoded { if Found? then this.(idx := [v] + idx) else this }
    function AddField(f: nat): Decoded { if Found? then this.(fields := [f] + fields) else this }
  }

  function Decode(t: IType, path: seq<Value>, leading: bool): Decoded
    decreases path
  {
    if path == [] then Found([], [], t) else
    match (t, path[0])
    case (TArray(n, of), VBv(w, i)) =>
      if w != 64 then Illtyped
      else if i >= n then Faulty
      else Decode(of, path[1..], false).AddIndex(path[0])
    case (TPointer(to), VBv(w, i)) =>
      if w != 64 || !leading then Illtyped
      else if i != 0 then Faulty
      else Decode(to, path[1..], false).AddIndex(path[0])
    case (TStruct(fields), VBv(_, f)) =>
      if f >= |fields| then Illtyped else Decode(fields[f], path[1..], false).AddField(f)
    case _ => Illtyped
  }

  /** What the symbolic decoder accepts, the concrete one decodes to the same place: in bounds, and
      with the same field tuple and index vector, under every valuation of the path condition. */
  lemma {:induction false} BuildPathMeaning(o: Oracle, pc: seq<Term>, t: IType, path: seq<Term>, leading: bool,
                                            m: Model)
    requires Sound(o) && Sat(pc, m) && BuildPath(o, pc, t, path, leading).Some?
    ensures var p := BuildPath(o, pc, t, path, leading).value;
            Decode(t, EvalAll(path, m), leading) == Found(p.fields, EvalAll(p.idx, m), p.itype)
    decreases path
  {
    hide OpSem, OpSorted, OpSort;
    if path == [] {
      assert EvalAll([], m) == [];
    } else {
      var v := Eval(path[0], m);
      assert EvalAll(path, m)[1..] == EvalAll(path[1..], m);
      assert HasSort(v, SortOf(path[0]));
      match t
      case TArray(n, of) =>
        BuildPathMeaning(o, pc, of, path[1..], false, m);
        ImpliedHolds(o, pc, BelowLength(path[0], n), m);
        BuildPathIndex(o, pc, of, path, m);
      case TPointer(to) =>
        BuildPathMeaning(o, pc, to, path[1..], false, m);
        ImpliedHolds(o, pc, Equal(path[0], ORIGIN), m);
        BuildPathIndex(o, pc, to, path, m);
      case TStruct(fields) =>
        assert Eval(o.simplify(path[0]), m) == v;
        BuildPathMeaning(o, pc, fields[o.simplify(path[0]).v.n], path[1..], false, m);
    }
  }

  lemma {:induction false} BuildPathIndex(o: Oracle, pc: seq<Term>, t: IType, path: seq<Term>, m: Model)
    requires path != [] && BuildPath(o, pc, t, path[1..], false).Some?
    ensures var idx := BuildPath(o, pc, t, path[1..], false).value.idx;
            EvalAll([path[0]] + idx, m) == [Eval(path[0], m)] + EvalAll(idx, m)
  {
  }

  /** Different index paths of one type denote different cells: the field tuple and the index
      vector determine the path, up to the width of its literal field numbers. */
  lemma {:induction false} DecodeInjective(t: IType, p: seq<Value>, q: seq<Value>, leading: bool)
    requires Decode(t, p, leading).Found? && Decode(t, p, leading) == Decode(t, q, leading)
    requires Decode(t, p, leading).itype.TInt?
    ensures |p| == |q| && forall i :: 0 <= i < |p| ==> Num(p[i]) == Num(q[i])
    decreases p
  {
    if p == [] {
      assert t.TInt?;
      assert q != [] ==> Decode(t, q, leading) == Illtyped;
    } else {
      assert !t.TInt?;
      assert q != [];
      match t
      case TArray(n, of) =>
        DecodeInjectiveStep(Decode(of, p[1..], false), Decode(of, q[1..], false), p[0], q[0]);
        DecodeInjective(of, p[1..], q[1..], false);
      case TPointer(to) =>
        DecodeInjectiveStep(Decode(to, p[1..], false), Decode(to, q[1..], false), p[0], q[0]);
        DecodeInjective(to, p[1..], q[1..], false);
      case TStruct(fields) =>
        var d, e := Decode(fields[p[0].n], p[1..], false), Decode(fields[q[0].n], q[1..], false);
        assert d.AddField(p[0].n).fields[0] == e.AddField(q[0].n).fields[0];
        assert d.fields == d.AddField(p[0].n).fields[1..] && e.fields == e.AddField(q[0].n).fields[1..];
        DecodeInjective(fields[p[0].n], p[1..], q[1..], false);
    }
  }

  lemma {:induction false} DecodeInjectiveStep(d: Decoded, e: Decoded, v: Value, w: Value)
    requires d.AddIndex(v).Found? && d.AddIndex(v) == e.AddIndex(w)
    ensures d == e && v == w
  {
    assert d.AddIndex(v).idx[0] == e.AddIndex(w).idx[0];
    assert d.idx == d.AddIndex(v).idx[1..] && e.idx == e.AddIndex(w).idx[1..];
  }

  /* ---------- pointers ---------- */

  /** The address a pointer denotes. */
  function EvalPointer(p: Pointer, m: Model): Address {
    match p
    case PBase(ref, geps) => Address(ref, StepAll([ORIGIN_VALUE], geps, m))
    case PIte(c, p1, p2) => if Truth(Eval(c, m)) then EvalPointer(p1, m) else EvalPointer(p2, m)
  }

  function DecodeAddress(a: Address): Decoded { Decode(a.ref.itype, a.path, true) }

  /** The cell a decoded address names. */
  function CellOf(a: Address): Cell
    requires DecodeAddress(a).Found?
  {
    Cell(FnId(a.ref.name, DecodeAddress(a).fields), DecodeAddress(a).idx)
  }

  predicate Scalar(a: Address) {
    DecodeAddress(a).Found? && DecodeAddress(a).itype.TInt?
  }

  /** `getelementptr`: push the index list to every leaf of the conditional pointer. */
  function Gep(p: Pointer, idx: seq<Term>): Pointer {
    match p
    case PBase(ref, geps) => PBase(ref, geps + [idx])
    case PIte(c, p1, p2) => PIte(c, Gep(p1, idx), Gep(p2, idx))
  }

  /** Indexing a conditional pointer indexes the address it denotes. */
  lemma {:induction false} GepMeaning(p: Pointer, idx: seq<Term>, m: Model)
    requires idx != []
    ensures var a := EvalPointer(p, m);
            |a.path| > 0 && EvalPointer(Gep(p, idx), m) == Address(a.ref, Step(a.path, EvalIndices(idx, m)))
    decreases p
  {
    match p
    case PBase(ref, geps) => StepAllAppend([ORIGIN_VALUE], geps, idx, m);
    case PIte(c, p1, p2) => GepMeaning(p1, idx, m); GepMeaning(p2, idx, m);
  }

  /** An entry of the work stack: a pointer still to be indexed, or the condition of a conditional
      pointer whose two sides come before it. */
  datatype Work = Visit(p: Pointer) | Join(cond: Term)

  /** The result stack after the work stack (top last) has been emptied. */
  function Drain(work: seq<Work>, results: seq<Pointer>, idx: seq<Term>): Option<seq<Pointer>>
    decreases |work|
  {
    if work == [] then Some(results) else
    var n, r := |work| - 1, |results|;
    match work[n]
    case Visit(p) => Drain(work[..n], results + [Gep(p, idx)], idx)
    case Join(c) =>
      if r < 2 then None
      else Drain(work[..n], results[..r - 2] + [PIte(c, results[r - 1], results[r - 2])], idx)
  }

  function Size(p: Pointer): nat {
    match p case PBase(_, _) => 1 case PIte(_, p1, p2) => 2 + Size(p1) + Size(p2)
  }

  function WorkSize(work: seq<Work>): nat {
    if work == [] then 0
    else WorkSize(work[..|work| - 1]) + match work[|work| - 1] case Visit(p) => Size(p) case Join(_) => 1
  }

  lemma {:induction false} DrainConditional(work: seq<Work>, results: seq<Pointer>, c: Term, p1: Pointer, p2: Pointer,
                                            idx: seq<Term>)
    ensures Drain(work + [Join(c), Visit(p1), Visit(p2)], results, idx)
         == Drain(work + [Visit(PIte(c, p1, p2))], results, idx)
  {
    var w0, w1, w2 := work + [Join(c)], work + [Join(c), Visit(p1)], work + [Join(c), Visit(p1), Visit(p2)];
    var g1, g2 := Gep(p1, idx), Gep(p2, idx);
    assert w2[..|w2| - 1] == w1 && w1[..|w1| - 1] == w0 && w0[..|w0| - 1] == work;
    assert (results + [g2]) + [g1] == results + [g2, g1];
    assert (results + [g2, g1])[..|results|] == results;
    var wi := work + [Visit(PIte(c, p1, p2))];
    assert wi[..|wi| - 1] == work;
    assert Drain(w2, results, idx) == Drain(w1, results + [g2], idx) == Drain(w0, results + [g2, g1], idx)
        == Drain(work, results + [PIte(c, g1, g2)], idx);
  }

  lemma {:induction false} WorkSizeConditional(work: seq<Work>, c: Term, p1: Pointer, p2: Pointer)
    ensures WorkSize(work + [Join(c), Visit(p1), Visit(p2)]) < WorkSize(work + [Visit(PIte(c, p1, p2))])
  {
    var w0, w1, w2 := work + [Join(c)], work + [Join(c), Visit(p1)], work + [Join(c), Visit(p1), Visit(p2)];
    assert w2[..|w2| - 1] == w1 && w1[..|w1| - 1] == w0 && w0[..|w0| - 1] == work;
    var wi := work + [Visit(PIte(c, p1, p2))];
    assert wi[..|wi| - 1] == work;
    assert WorkSize(w2) == WorkSize(w1) + Size(p2) == WorkSize(w0) + Size(p1) + Size(p2);
    assert WorkSize(w0) == WorkSize(work) + 1;
    assert WorkSize(wi) == WorkSize(work) + Size(PIte(c, p1, p2));
  }

  /** The loop of `Pointer.getelementptr` over an explicit stack computes the recursive `Gep`. */
  method GetElementPtr(p: Pointer, idx: seq<Term>) returns (q: Pointer)
    ensures q == Gep(p, idx)
  {
    var work: seq<Work> := [Visit(p)];
    var results: seq<Pointer> := [];
    assert Drain(work, results, idx) == Some([Gep(p, idx)]) by {
      assert work[..0] == [];
      assert [] + [Gep(p, idx)] == [Gep(p, idx)];
      assert Drain([], [Gep(p, idx)], idx) == Some([Gep(p, idx)]);
    }
    while work != []
      invariant Drain(work, results, idx) == Some([Gep(p, idx)])
      decreases WorkSize(work)
    {
      var n := |work| - 1;
      var top := work[n];
      var below := work[..n];
      assert work == below + [top];
      match top
      case Visit(v) =>
        match v {
          case PIte(c, p1, p2) =>
            work := below + [Join(c)] + [Visit(p1)] + [Visit(p2)];
            assert work == below + [Join(c), Visit(p1), Visit(p2)];
            DrainConditional(below, results, c, p1, p2, idx);
            WorkSizeConditional(below, c, p1, p2);
          case PBase(ref, geps) =>
            work := below;
            results := results + [PBase(ref, geps + [idx])];
        }
      case Join(c) =>
        var r := |results|;
        work := below;
        results := results[..r - 2] + [PIte(c, results[r - 1], results[r - 2])];
    }
    q := results[|results| - 1];
  }

  /* ---------- reading and writing ---------- */

  predicate HasCell(refs: Refs, fn: FnId) {
    fn.obj in refs && fn.fields in refs[fn.obj]
  }

  /** The value memory holds in a cell. */
  function EvalCell(refs: Refs, c: Cell, m: Model): Value {
    if HasCell(refs, c.fn) then EvalFn(refs[c.fn.obj][c.fn.fields], c.idx, m) else VBool(false)
  }

  function LocateBase(o: Oracle, pc: seq<Term>, refs: Refs, ref: Reference, geps: seq<seq<Term>>): (r: Option<Place>)
    ensures r.Some? ==> HasCell(refs, FnId(ref.name, r.value.fields)) && r.value.itype.TInt?
  {
    var path :- CanonicalPath(o, geps);
    var place :- BuildPath(o, pc, ref.itype, path, true);
    if HasCell(refs, FnId(ref.name, place.fields)) && place.itype.TInt? then Some(place) else None
  }

  function Read(o: Oracle, pc: seq<Term>, refs: Refs, p: Pointer): Option<Term>
    decreases p
  {
    match p
    case PBase(ref, geps) =>
      var place :- LocateBase(o, pc, refs, ref, geps);
      Apply(o, refs[ref.name][place.fields], place.idx)
    case PIte(c, p1, p2) =>
      var a :- Read(o, pc, refs, p1);
      var b :- Read(o, pc, refs, p2);
      If(o, c, a, b)
  }

  /** Through a conditional pointer both targets are written, each with its old value where the
      condition selects the other. */
  function Write(o: Oracle, pc: seq<Term>, refs: Refs, p: Pointer, v: Term): Option<Refs>
    decreases p
  {
    match p
    case PBase(ref, geps) =>
      var place :- LocateBase(o, pc, refs, ref, geps);
      var f := refs[ref.name][place.fields];
      Some(refs[ref.name := refs[ref.name][place.fields := Updated(f, place.idx, v)]])
    case PIte(c, p1, p2) =>
      if SortOf(c) != SBool then None else
      var old1 :- Read(o, pc, refs, p1);
      var v1 :- If(o, c, v, old1);
      var refs1 :- Write(o, pc, refs, p1, v1);
      var old2 :- Read(o, pc, refs1, p2);
      var v2 :- If(o, Negate(c), v, old2);
      Write(o, pc, refs1, p2, v2)
  }

  lemma {:induction false} LocateMeaning(o: Oracle, pc: seq<Term>, refs: Refs, ref: Reference, geps: seq<seq<Term>>,
                                         m: Model)
    requires Sound(o) && Sat(pc, m) && LocateBase(o, pc, refs, ref, geps).Some?
    ensures var a := EvalPointer(PBase(ref, geps), m);
            var place := LocateBase(o, pc, refs, ref, geps).value;
            Scalar(a) && CellOf(a) == Cell(FnId(ref.name, place.fields), EvalAll(place.idx, m))
  {
    CanonicalPathMeaning(o, geps, m);
    BuildPathMeaning(o, pc, ref.itype, CanonicalPath(o, geps).value, true, m);
    PathOfNumbers(o, pc, ref.itype, CanonicalPath(o, geps).value, true, m);
  }

  /** A path that can be decoded has no booleans in it. */
  lemma {:induction false} PathOfNumbers(o: Oracle, pc: seq<Term>, t: IType, path: seq<Term>, leading: bool, m: Model)
    requires Sound(o) && BuildPath(o, pc, t, path, leading).Some?
    ensures EvalIndices(path, m) == EvalAll(path, m)
    decreases path
  {
    hide Eval, Implied;
    if path != [] {
      assert HasSort(Eval(path[0], m), SortOf(path[0]));
      match t
      case TArray(n, of) => PathOfNumbers(o, pc, of, path[1..], false, m);
      case TPointer(to) => PathOfNumbers(o, pc, to, path[1..], false, m);
      case TStruct(fields) =>
        assert SortOf(o.simplify(path[0])) == SortOf(path[0]);
        PathOfNumbers(o, pc, fields[o.simplify(path[0]).v.n], path[1..], false, m);
      FirstNumber(path, m);
    }
  }

  lemma {:induction false} FirstNumber(path: seq<Term>, m: Model)
    requires path != [] && Eval(path[0], m).VBv? && EvalIndices(path[1..], m) == EvalAll(path[1..], m)
    ensures EvalIndices(path, m) == EvalAll(path, m)
  {
    hide Eval;
    forall i | 0 <= i < |path| ensures EvalIndices(path, m)[i] == EvalAll(path, m)[i] {
      if i > 0 { assert EvalIndices(path[1..], m)[i - 1] == EvalAll(path[1..], m)[i - 1]; }
    }
  }

  /** A read that succeeds is in bounds, and yields what memory holds in the denoted cell. */
  lemma {:induction false} ReadMeaning(o: Oracle, pc: seq<Term>, refs: Refs, p: Pointer, m: Model)
    requires Sound(o) && Sat(pc, m) && Read(o, pc, refs, p).Some?
    ensures var a := EvalPointer(p, m);
            && Scalar(a) && HasCell(refs, CellOf(a).fn)
            && Eval(Read(o, pc, refs, p).value, m) == EvalCell(refs, CellOf(a), m)
    decreases p
  {
    match p
    case PBase(ref, geps) =>
      LocateMeaning(o, pc, refs, ref, geps, m);
      var place := LocateBase(o, pc, refs, ref, geps).value;
      ApplyMeaning(o, refs[ref.name][place.fields], place.idx, m);
    case PIte(c, p1, p2) =>
      ReadMeaning(o, pc, refs, p1, m);
      ReadMeaning(o, pc, refs, p2, m);
      IfMeaning(o, c, Read(o, pc, refs, p1).value, Read(o, pc, refs, p2).value, m);
  }

  /** `refs'` is `refs` with one cell changed. */
  ghost predicate OneCellChanged(refs: Refs, refs': Refs, c: Cell, v: Value, m: Model) {
    && HasCell(refs, c.fn)
    && (forall fn: FnId :: HasCell(refs', fn) <==> HasCell(refs, fn))
    && (forall d: Cell :: EvalCell(refs', d, m) == if d == c then v else EvalCell(refs, d, m))
  }

  /** A write changes exactly the cell its pointer denotes, for every valuation of the path
      condition: also through conditional pointers, and also when both targets are the same cell. */
  lemma {:induction false} WriteMeaning(o: Oracle, pc: seq<Term>, refs: Refs, p: Pointer, v: Term, m: Model)
    requires Sound(o) && Sat(pc, m) && Write(o, pc, refs, p, v).Some?
    ensures var a := EvalPointer(p, m);
            && Scalar(a)
            && OneCellChanged(refs, Write(o, pc, refs, p, v).value, CellOf(a), Eval(v, m), m)
    decreases p
  {
    match p
    case PBase(ref, geps) =>
      LocateMeaning(o, pc, refs, ref, geps, m);
    case PIte(c, p1, p2) =>
      var old1 := Read(o, pc, refs, p1).value;
      ReadMeaning(o, pc, refs, p1, m);
      IfMeaning(o, c, v, old1, m);
      var v1 := If(o, c, v, old1).value;
      WriteMeaning(o, pc, refs, p1, v1, m);
      var refs1 := Write(o, pc, refs, p1, v1).value;
      var old2 := Read(o, pc, refs1, p2).value;
      ReadMeaning(o, pc, refs1, p2, m);
      IfMeaning(o, Negate(c), v, old2, m);
      var v2 := If(o, Negate(c), v, old2).value;
      WriteMeaning(o, pc, refs1, p2, v2, m);
  }
}
