/** The lists of the mapping database as ordered forests: kernel/src/generic/mapping.cc.

    A list and the depths its nodes store are the preorder of a forest.  Here is what an insertion
    and a flush must do to keep that, and hence which runs of operations keep it.
 */
module MappingForests {
  import opened MapNodes
  import opened Forest
  import opened Mapping
  import opened PageSizes

  /** The depth-annotated list that a list of nodes stores. */
  function Depths(st: Store, c: seq<nat>): seq<Entry<nat>> {
    seq(|c|, i requires 0 <= i < |c| => Entry(c[i], if c[i] in st.maps then st.maps[c[i]].depth else 0))
  }

  /** The list of `h` is the preorder of a forest. */
  ghost predicate ForestOk(st: Store, sh: Shape, h: Slot)
    requires h in sh.chains && h in sh.level
  {
    && Nested(Depths(st, sh.chains[h]), sh.level[h].depth)
    && (h.MapSlot? && h.addr in st.maps ==> sh.level[h].depth == st.maps[h.addr].depth + 1)
  }

  ghost predicate ForestsOk(st: Store, sh: Shape) {
    forall h :: h in sh.chains ==> h in sh.level && ForestOk(st, sh, h)
  }

  /** Prepending a child to a node of the forest, or a tree to the forest. */
  lemma {:induction false} NestedInsert<T>(l: seq<Entry<T>>, d: nat, i: nat, x: T, dx: nat)
    requires Nested(l, d) && i <= |l| && dx == (if i == 0 then d else l[i - 1].depth + 1)
    ensures Nested(l[..i] + [Entry(x, dx)] + l[i..], d)
  {
    var l' := l[..i] + [Entry(x, dx)] + l[i..];
    forall j | 0 <= j < |l'|
      ensures l'[j].depth >= d && l'[j] == if j < i then l[j] else if j == i then Entry(x, dx) else l[j - 1] {
    }
    forall j, k | 0 <= j < k < |l'| && k == j + 1 ensures l'[k].depth <= l'[j].depth + 1 {
      if k < i { assert l[k].depth <= l[j].depth + 1; }
      if j > i { assert l[k - 1].depth <= l[j - 1].depth + 1; }
      if j == i && 0 < i { assert l[i].depth <= l[i - 1].depth + 1; }
    }
  }

  /** Cutting out a subtree, or all of it but its root. */
  lemma {:induction false} NestedCut<T>(l: seq<Entry<T>>, d: nat, k: nat, first: nat)
    requires Nested(l, d) && k < |l| && k <= first <= k + 1
    ensures Nested(Cut(l, first, SubtreeEnd(l, k)), d)
  {
    hide SubtreeEnd;
    var e := SubtreeEnd(l, k);
    var l' := Cut(l, first, e);
    assert forall j :: 0 <= j < |l'| ==> l'[j] == if j < first then l[j] else l[j - first + e];
    forall i, j | 0 <= i < j < |l'| && j == i + 1 ensures l'[j].depth <= l'[i].depth + 1 {
      if j < first { assert l[j].depth <= l[i].depth + 1; }
      if i >= first { assert l[j - first + e].depth <= l[i - first + e].depth + 1; }
      if j == first && i < k { assert l[k].depth <= l[i].depth + 1; }
    }
  }

  lemma {:induction false} DepthsSame(st: Store, st': Store, c: seq<nat>)
    requires DepthsKept(st, st') && forall i :: 0 <= i < |c| ==> c[i] in st.maps && c[i] in st'.maps
    ensures Depths(st', c) == Depths(st, c)
  {
  }

  lemma {:induction false} ForestKept(st: Store, st': Store, sh: Shape, sh': Shape, g: Slot)
    requires g in sh.chains && g in sh.level && ForestOk(st, sh, g) && DepthsKept(st, st')
    requires g in sh'.chains && sh'.chains[g] == sh.chains[g] && g in sh'.level && sh'.level[g] == sh.level[g]
    requires Exists(st, g) && forall i :: 0 <= i < |sh.chains[g]| ==>
      sh.chains[g][i] in st.maps && sh.chains[g][i] in st'.maps
    ensures ForestOk(st', sh', g)
  {
    DepthsSame(st, st', sh.chains[g]);
  }

  /** A child stored one deeper than the node it hangs off keeps every list the preorder of a forest. */
  lemma {:induction false} HookKeepsForests(st: Store, st': Store, sh: Shape, h: Slot, i: nat, x: nat, pgX: nat)
    requires Inv(st, sh) && ForestsOk(st, sh) && h in sh.chains && i <= |sh.chains[h]| && x !in st.maps
    requires DepthsKept(st, st') && st'.maps.Keys == st.maps.Keys + {x}
    requires st'.maps[x].depth == Below(st, sh.level[h], At(h, sh.chains[h], i))
    ensures ForestsOk(st', HookShape(sh, h, i, x, pgX))
  {
    hide Nested, LinksOk, AddressesOk, DualsOk, EntriesOk, ListsApart, NodesListed, DualsHeld;
    var sh' := HookShape(sh, h, i, x, pgX);
    forall g | g in sh'.chains ensures g in sh'.level && ForestOk(st', sh', g) {
      assert ForestOk(st, sh, g) && Exists(st, g);
      if g == h {
        var c := sh.chains[h];
        var l, d := Depths(st, c), st'.maps[x].depth;
        assert i > 0 ==> c[i - 1] in st.maps;
        assert d == if i == 0 then sh.level[h].depth else l[i - 1].depth + 1;
        NestedInsert(l, sh.level[h].depth, i, x, d);
        DepthsHooked(st, st', c, i, x);
      } else {
        ForestKept(st, st', sh, sh', g);
      }
    }
  }

  lemma {:induction false} DepthsHooked(st: Store, st': Store, c: seq<nat>, i: nat, x: nat)
    requires i <= |c| && DepthsKept(st, st') && x in st'.maps
    requires forall j :: 0 <= j < |c| ==> c[j] in st.maps && c[j] in st'.maps
    ensures var l := Depths(st, c);
            Depths(st', c[..i] + [x] + c[i..]) == l[..i] + [Entry(x, st'.maps[x].depth)] + l[i..]
  {
  }

  /** The same as an edit of the forest. */
  lemma {:induction false} HookAddsChild(st: Store, st': Store, c: seq<nat>, i: nat, x: nat, d: nat)
    requires 0 < i <= |c| && DepthsKept(st, st') && x in st'.maps
    requires forall j :: 0 <= j < |c| ==> c[j] in st.maps && c[j] in st'.maps
    requires Nested(Depths(st, c), d) && st'.maps[x].depth == st.maps[c[i - 1]].depth + 1
    ensures var f := Parse(Depths(st, c), d);
            i - 1 < Count(f) && Depths(st', c[..i] + [x] + c[i..]) == Preorder(AddChild(f, i - 1, x), d)
  {
    hide Nested, Parse, Preorder, Count, AddChild;
    var l := Depths(st, c);
    var f := Parse(l, d);
    PreorderParse(l, d);
    PreorderCount(f, d);
    DepthsHooked(st, st', c, i, x);
    InsertIsAddChild(f, d, i - 1, x);
  }

  /** A list from which the run of node `k` has been flushed. */
  lemma {:induction false} FlushKeepsForests(st: Store, st': Store, sh: Shape, sh': Shape, h: Slot, k: nat, first: nat)
    requires ForestsOk(st, sh) && ListsOk(st, sh) && h in sh.chains && k < |sh.chains[h]| && k <= first <= k + 1
    requires DepthsKept(st, st') && st'.maps.Keys <= st.maps.Keys && ListsOk(st', sh')
    requires sh'.level == sh.level
    requires var e := SubtreeEnd(Depths(st, sh.chains[h]), k);
             sh'.chains == sh.chains[h := sh.chains[h][..first] + sh.chains[h][e..]]
    ensures ForestsOk(st', sh')
  {
    hide Nested, ListsApart, SubtreeEnd;
    forall g | g in sh'.chains ensures g in sh'.level && ForestOk(st', sh', g) {
      assert ForestOk(st, sh, g);
      if g == h {
        NestedCut(Depths(st, sh.chains[h]), sh.level[h].depth, k, first);
        DepthsCut(st, st', sh.chains[h], first, SubtreeEnd(Depths(st, sh.chains[h]), k));
      } else {
        ForestKept(st, st', sh, sh', g);
      }
    }
  }

  lemma {:induction false} DepthsCut(st: Store, st': Store, c: seq<nat>, first: nat, e: nat)
    requires first <= e <= |c| && DepthsKept(st, st')
    requires forall j :: 0 <= j < |c| ==> c[j] in st.maps
    requires forall j :: 0 <= j < |c[..first] + c[e..]| ==> (c[..first] + c[e..])[j] in st'.maps
    ensures Depths(st', c[..first] + c[e..]) == Cut(Depths(st, c), first, e)
  {
    var c' := c[..first] + c[e..];
    assert forall j :: 0 <= j < |c'| ==> c'[j] == if j < first then c[j] else c[j - first + e];
  }

  /** The same as an edit of the forest: the node's subtree goes, or its strict descendants. */
  lemma {:induction false} FlushPrunes(st: Store, c: seq<nat>, k: nat, d: nat)
    requires k < |c| && Nested(Depths(st, c), d)
    ensures var l := Depths(st, c); var f := Parse(l, d);
            && k < Count(f)
            && Cut(l, k, SubtreeEnd(l, k)) == Preorder(RemoveTree(f, k), d)
            && Cut(l, k + 1, SubtreeEnd(l, k)) == Preorder(Prune(f, k), d)
  {
    hide Nested, Parse, Preorder, Count, RemoveTree, Prune, SubtreeEnd, Cut;
    var l := Depths(st, c);
    var f := Parse(l, d);
    PreorderParse(l, d);
    PreorderCount(f, d);
    SubtreeSpan(f, d, k);
  }

  /* ---------- operations as edits of forests ---------- */

  /** The forest hanging off a slot; none if the slot heads no list. */
  ghost function ForestOf(st: Store, sh: Shape, h: Slot): seq<Tree<nat>> {
    if h in sh.chains && h in sh.level then Parse(Depths(st, sh.chains[h]), sh.level[h].depth) else []
  }

  /** All forests but that of `h` are as before. */
  ghost predicate OtherForests(st: Store, sh: Shape, st': Store, sh': Shape, h: Slot) {
    forall g: Slot :: g != h ==> ForestOf(st', sh', g) == ForestOf(st, sh, g)
  }

  /** The forest of `h` has gained the leaf `x`: a first child of its `i`-th node, counted from one in
      preorder, or a first tree if `i` is zero. */
  ghost predicate LeafAdded(st: Store, sh: Shape, st': Store, sh': Shape, h: Slot, i: nat, x: nat) {
    var f := ForestOf(st, sh, h);
    && i <= Count(f)
    && ForestOf(st', sh', h) == (if i == 0 then [Node(x, [])] + f else AddChild(f, i - 1, x))
    && OtherForests(st, sh, st', sh', h)
  }

  lemma {:induction false} SameForest(st: Store, sh: Shape, st': Store, sh': Shape, g: Slot)
    requires ListsOk(st, sh) && ListsOk(st', sh') && DepthsKept(st, st')
    requires g in sh.chains && g in sh'.chains && sh'.chains[g] == sh.chains[g]
    requires g in sh.level && g in sh'.level && sh'.level[g].depth == sh.level[g].depth
    ensures ForestOf(st', sh', g) == ForestOf(st, sh, g)
  {
    hide HeadsOk, ListsApart;
    DepthsSame(st, st', sh.chains[g]);
  }

  lemma {:induction false} HookAddsLeaf(st: Store, st': Store, sh: Shape, h: Slot, i: nat, x: nat, pgX: nat)
    requires Inv(st, sh) && ForestsOk(st, sh) && h in sh.chains && i <= |sh.chains[h]| && x !in st.maps
    requires DepthsKept(st, st') && st'.maps.Keys == st.maps.Keys + {x} && ListsOk(st', HookShape(sh, h, i, x, pgX))
    requires st'.maps[x].depth == Below(st, sh.level[h], At(h, sh.chains[h], i))
    ensures LeafAdded(st, sh, st', HookShape(sh, h, i, x, pgX), h, i, x)
  {
    hide Nested, LinksOk, AddressesOk, DualsOk, EntriesOk, ListsApart, Depths, Parse, Count, AddChild, ListsOk,
      NodesListed, DualsHeld;
    InvParts(st, sh);
    var sh' := HookShape(sh, h, i, x, pgX);
    forall g | g != h ensures ForestOf(st', sh', g) == ForestOf(st, sh, g) {
      if g in sh.chains { SameForest(st, sh, st', sh', g); }
    }
    assert ForestOk(st, sh, h) && h in sh.level;
    var c, d := sh.chains[h], sh.level[h].depth;
    MembersStay(st, st', sh, h);
    if i == 0 {
      LeafFirst(st, st', c, x, d);
    } else {
      HookAddsChild(st, st', c, i, x, d);
      ParsePreorder(AddChild(Parse(Depths(st, c), d), i - 1, x), d);
    }
  }

  lemma {:induction false} MembersStay(st: Store, st': Store, sh: Shape, h: Slot)
    requires MembersOk(st, sh) && h in sh.chains && st.maps.Keys <= st'.maps.Keys
    ensures forall j :: 0 <= j < |sh.chains[h]| ==> sh.chains[h][j] in st.maps && sh.chains[h][j] in st'.maps
  {
  }

  /** A node of root depth at the head of the list is a tree of its own. */
  lemma {:induction false} LeafFirst(st: Store, st': Store, c: seq<nat>, x: nat, d: nat)
    requires Nested(Depths(st, c), d) && DepthsKept(st, st') && x in st'.maps && st'.maps[x].depth == d
    requires forall j :: 0 <= j < |c| ==> c[j] in st.maps && c[j] in st'.maps
    ensures Parse(Depths(st', c[..0] + [x] + c[0..]), d) == [Node(x, [])] + Parse(Depths(st, c), d)
  {
    hide Nested, Parse, Preorder, Depths;
    var f := Parse(Depths(st, c), d);
    DepthsHooked(st, st', c, 0, x);
    PreorderParse(Depths(st, c), d);
    PreorderCons(Node(x, []), f, d);
    PreorderNothing<nat>(d + 1);
    ParsePreorder([Node(x, [])] + f, d);
    var l := Depths(st, c);
    assert l[..0] + [Entry(x, d)] + l[0..] == [Entry(x, d)] + [] + l;
  }

  /** Growing by empty lists changes no forest. */
  lemma {:induction false} GrowSameForests(st0: Store, sh0: Shape, st: Store, sh: Shape, path: seq<Slot>)
    requires ListsOk(st0, sh0) && ListsOk(st, sh) && Grown(st0, sh0, st, sh, path)
    ensures forall g: Slot :: ForestOf(st, sh, g) == ForestOf(st0, sh0, g)
  {
    hide ListsOk, Depths, ForestOf;
    forall g: Slot ensures ForestOf(st, sh, g) == ForestOf(st0, sh0, g) {
      if g in sh0.chains {
        SameForest(st0, sh0, st, sh, g);
      } else {
        NoForest(st, sh, g);
        NoForest(st0, sh0, g);
      }
    }
  }

  lemma {:induction false} NoForest(st: Store, sh: Shape, g: Slot)
    requires g in sh.chains ==> sh.chains[g] == []
    ensures ForestOf(st, sh, g) == []
  {
  }

  /** A list's nodes are those of its forest. */
  lemma {:induction false} NodesInForest(st: Store, sh: Shape, h: Slot, k: nat)
    requires ForestsOk(st, sh) && h in sh.chains && k < |sh.chains[h]|
    ensures h in sh.level && k < Count(ForestOf(st, sh, h))
  {
    hide Nested, Parse, Preorder, Count;
    assert ForestOk(st, sh, h);
    PreorderParse(Depths(st, sh.chains[h]), sh.level[h].depth);
    PreorderCount(ForestOf(st, sh, h), sh.level[h].depth);
  }

  /** What a flush leaves of a forest: with all rights revoked, it loses the node's subtree, or its
      strict descendants only; otherwise it keeps its nodes. */
  ghost function FlushedForest(f: seq<Tree<nat>>, k: nat, all: bool, self: bool): seq<Tree<nat>> {
    if !all then f else if self then RemoveTree(f, k) else Prune(f, k)
  }

  lemma {:induction false} FlushForest(st: Store, sh: Shape, st': Store, sh': Shape, h: Slot, k: nat, self: bool)
    requires ForestsOk(st, sh) && ListsOk(st, sh) && h in sh.chains && k < |sh.chains[h]|
    requires DepthsKept(st, st') && ListsOk(st', sh') && sh'.level == sh.level && sh'.chains.Keys == sh.chains.Keys
    requires forall g :: g in sh.chains && g != h ==> sh'.chains[g] == sh.chains[g]
    requires var l := Depths(st, sh.chains[h]);
             k < |l| && Depths(st', sh'.chains[h]) == Cut(l, if self then k else k + 1, SubtreeEnd(l, k))
    ensures k < Count(ForestOf(st, sh, h)) && OtherForests(st, sh, st', sh', h)
    ensures ForestOf(st', sh', h) == FlushedForest(ForestOf(st, sh, h), k, true, self)
  {
    hide Nested, Depths, Parse, Count, RemoveTree, Prune, Cut, SubtreeEnd, ListsOk;
    assert ForestOk(st, sh, h);
    var d := sh.level[h].depth;
    var f := Parse(Depths(st, sh.chains[h]), d);
    FlushPrunes(st, sh.chains[h], k, d);
    ParsePreorder(RemoveTree(f, k), d);
    ParsePreorder(Prune(f, k), d);
    forall g | g != h ensures ForestOf(st', sh', g) == ForestOf(st, sh, g) {
      if g in sh.chains {
        assert ForestOk(st, sh, g);
        SameForest(st, sh, st', sh', g);
      }
    }
  }

  /** Attaching empty lists whose depth is right keeps the forests. */
  lemma {:induction false} GrowKeepsForests(st0: Store, sh0: Shape, st: Store, sh: Shape, path: seq<Slot>)
    requires ListsOk(st0, sh0) && ForestsOk(st0, sh0) && Grown(st0, sh0, st, sh, path)
    ensures ForestsOk(st, sh)
  {
    hide Nested, ListsApart;
    forall g | g in sh.chains ensures g in sh.level && ForestOk(st, sh, g) {
      if g in sh0.chains {
        assert ForestOk(st0, sh0, g);
        ForestKept(st0, st, sh0, sh, g);
      } else {
        NestedEmpty<nat>(sh.level[g].depth);
        assert Depths(st, []) == [];
      }
    }
  }

  lemma {:induction false} NestedEmpty<T>(d: nat)
    ensures Nested<T>([], d)
  {
  }

  /* ---------- the initial state ---------- */

  function InitStore(pgshifts: seq<nat>, sigma0: nat, dual: nat, base: nat, rwx: nat): Store
    requires |pgshifts| >= 2
  {
    Store(map[sigma0 := MapNode(SetBacklink(MapSlot(0), 0), 0, rwx, SetSpace(0), ToDual(dual))],
          EmptyRoots(ArrayAddrs(base, ArraySize(pgshifts, |pgshifts| - 2))),
          map[dual := Dual(0, base)])
  }

  function InitShape(pgshifts: seq<nat>, sigma0: nat, base: nat): Shape
    requires |pgshifts| >= 2
  {
    AttachShape(Shape(map[MapSlot(sigma0) := []], map[], map[MapSlot(sigma0) := Level(|pgshifts| - 1, 1)]),
                ArrayAddrs(base, ArraySize(pgshifts, |pgshifts| - 2)), Level(|pgshifts| - 2, 1))
  }

  /** Everything the initial state holds. */
  ghost predicate InitFacts(st: Store, sh: Shape, pgshifts: seq<nat>, sigma0: nat, base: nat, addrs: set<nat>) {
    && |pgshifts| >= 2 && base != 0 && sigma0 in st.maps && st.maps[sigma0].depth == 0 && sh.pg == map[]
    && (forall s :: Exists(st, s) <==> s == MapSlot(sigma0) || (s.RootSlot? && s.addr in addrs))
    && (forall s :: Exists(st, s) ==> MapOf(st, s) == 0 && RootOf(st, s) == if s == MapSlot(sigma0) then base else 0)
    && (forall g: Slot :: g in sh.chains <==> g == MapSlot(sigma0) || (g.RootSlot? && g.addr in addrs))
    && sh.level.Keys == sh.chains.Keys
    && (forall g :: g in sh.chains ==>
          sh.chains[g] == [] && sh.level[g] == if g == MapSlot(sigma0) then Level(|pgshifts| - 1, 1)
            else Level(|pgshifts| - 2, 1))
  }

  lemma {:induction false} InitOk(pgshifts: seq<nat>, sigma0: nat, dual: nat, base: nat, rwx: nat)
    requires |pgshifts| >= 2 && IsNode(sigma0) && IsNode(dual) && IsNode(base)
    requires forall a :: a in ArrayAddrs(base, ArraySize(pgshifts, |pgshifts| - 2)) ==> IsNode(a)
    ensures var st, sh := InitStore(pgshifts, sigma0, dual, base, rwx), InitShape(pgshifts, sigma0, base);
            Inv(st, sh) && ArraysOk(st, sh, pgshifts) && ForestsOk(st, sh)
  {
    hide ArrayAddrs, Target, SetBacklink, Nested, AttachShape, ArraySize, AddressesOk, DualsOk, ArraysOk, LinksOk,
      ListsOk, ForestsOk, InitFacts;
    var st, sh := InitStore(pgshifts, sigma0, dual, base, rwx), InitShape(pgshifts, sigma0, base);
    var addrs := ArrayAddrs(base, ArraySize(pgshifts, |pgshifts| - 2));
    InitHolds(pgshifts, sigma0, dual, base, rwx);
    InitDuals(pgshifts, sigma0, dual, base, rwx);
    InitLists(st, sh, pgshifts, sigma0, base, addrs);
    InitArrays(st, sh, pgshifts, sigma0, base);
    InitForests(st, sh, pgshifts, sigma0, base, addrs);
  }

  lemma {:induction false} InitHolds(pgshifts: seq<nat>, sigma0: nat, dual: nat, base: nat, rwx: nat)
    requires |pgshifts| >= 2 && IsNode(sigma0) && IsNode(dual) && IsNode(base)
    requires forall a :: a in ArrayAddrs(base, ArraySize(pgshifts, |pgshifts| - 2)) ==> IsNode(a)
    ensures InitFacts(InitStore(pgshifts, sigma0, dual, base, rwx), InitShape(pgshifts, sigma0, base), pgshifts, sigma0,
                      base,
                      ArrayAddrs(base, ArraySize(pgshifts, |pgshifts| - 2)))
  {
    hide ArrayAddrs, SetBacklink, AttachShape, ArraySize, InitStore, MapOf, RootOf, Exists, AddressesOk, DualsOk;
    var addrs := ArrayAddrs(base, ArraySize(pgshifts, |pgshifts| - 2));
    InitDuals(pgshifts, sigma0, dual, base, rwx);
    AttachShapeIs(Shape(map[MapSlot(sigma0) := []], map[], map[MapSlot(sigma0) := Level(|pgshifts| - 1, 1)]),
                  addrs, Level(|pgshifts| - 2, 1));
  }

  lemma {:induction false} InitDuals(pgshifts: seq<nat>, sigma0: nat, dual: nat, base: nat, rwx: nat)
    requires |pgshifts| >= 2 && IsNode(sigma0) && IsNode(dual) && IsNode(base)
    requires forall a :: a in ArrayAddrs(base, ArraySize(pgshifts, |pgshifts| - 2)) ==> IsNode(a)
    ensures var st, addrs := InitStore(pgshifts, sigma0, dual, base, rwx),
      ArrayAddrs(base, ArraySize(pgshifts, |pgshifts| - 2));
            && AddressesOk(st) && DualsOk(st) && sigma0 in st.maps && st.maps[sigma0].depth == 0
            && (forall s :: Exists(st, s) <==> s == MapSlot(sigma0) || (s.RootSlot? && s.addr in addrs))
            && (forall s :: Exists(st, s) ==> MapOf(st, s) == 0 && RootOf(st, s) == if s == MapSlot(sigma0) then base
                else 0)
  {
    hide ArrayAddrs, SetBacklink, ArraySize, SetSpace, DualsOk, MapOf, RootOf, ToDual, Exists;
    var st := InitStore(pgshifts, sigma0, dual, base, rwx);
    InitFields(pgshifts, sigma0, dual, base, rwx);
    InitLeads(st, sigma0, dual, base);
  }

  /** Where the slots lead, and why no two share a dual node. */
  lemma {:induction false} InitLeads(st: Store, sigma0: nat, dual: nat, base: nat)
    requires IsNode(dual) && IsNode(base) && st.duals == map[dual := Dual(0, base)] && Exists(st, MapSlot(sigma0))
    requires forall s :: Exists(st, s) ==> Field(st, s) == if s == MapSlot(sigma0) then ToDual(dual) else ToMap(0)
    ensures DualsOk(st)
    ensures forall s :: Exists(st, s) ==> MapOf(st, s) == 0 && RootOf(st, s) == if s == MapSlot(sigma0) then base else 0
  {
    hide Target, Field, Exists;
    TargetDecodes(dual);
    TargetDecodes(0);
    assert LeadsToDual(st, MapSlot(sigma0), dual);
  }

  lemma {:induction false} InitFields(pgshifts: seq<nat>, sigma0: nat, dual: nat, base: nat, rwx: nat)
    requires |pgshifts| >= 2
    ensures var st, addrs := InitStore(pgshifts, sigma0, dual, base, rwx),
      ArrayAddrs(base, ArraySize(pgshifts, |pgshifts| - 2));
            && (forall s :: Exists(st, s) <==> s == MapSlot(sigma0) || (s.RootSlot? && s.addr in addrs))
            && (forall s :: Exists(st, s) ==> Field(st, s) == if s == MapSlot(sigma0) then ToDual(dual) else ToMap(0))
  {
    hide ArrayAddrs, SetBacklink, ArraySize, SetSpace, ToDual, ToMap;
  }

  lemma {:induction false} InitLists(st: Store, sh: Shape, pgshifts: seq<nat>, sigma0: nat, base: nat, addrs: set<nat>)
    requires InitFacts(st, sh, pgshifts, sigma0, base, addrs)
    ensures ListsOk(st, sh) && LinksOk(st, sh) && EntriesOk(sh)
  {
    hide MapOf, RootOf, SetBacklink;
  }

  lemma {:induction false} InitArrays(st: Store, sh: Shape, pgshifts: seq<nat>, sigma0: nat, base: nat)
    requires |pgshifts| >= 2
    requires InitFacts(st, sh, pgshifts, sigma0, base, ArrayAddrs(base, ArraySize(pgshifts, |pgshifts| - 2)))
    ensures ArraysOk(st, sh, pgshifts)
  {
    hide MapOf, RootOf, ArrayAddrs, ArraySize;
  }

  lemma {:induction false} InitForests(st: Store, sh: Shape, pgshifts: seq<nat>, sigma0: nat, base: nat,
                                       addrs: set<nat>)
    requires InitFacts(st, sh, pgshifts, sigma0, base, addrs)
    ensures ForestsOk(st, sh)
  {
    hide Nested, MapOf, RootOf;
    forall g | g in sh.chains ensures ForestOk(st, sh, g) {
      NestedEmpty<nat>(sh.level[g].depth);
      assert Depths(st, []) == [];
    }
  }

  /** What the constructor sets up is the initial state. */
  lemma {:induction false} InitIs(pgshifts: seq<nat>, sigma0: nat, dual: nat, base: nat, rwx: nat, st: Store)
    requires |pgshifts| >= 2
    requires st.maps == map[sigma0 := MapNode(SetBacklink(MapSlot(0), 0), 0, rwx, SetSpace(0), ToDual(dual))]
    requires st.duals == map[dual := Dual(0, base)]
    requires st.roots == map[] + EmptyRoots(ArrayAddrs(base, ArraySize(pgshifts, |pgshifts| - 2)))
    ensures st == InitStore(pgshifts, sigma0, dual, base, rwx)
  {
    hide ArrayAddrs, ArraySize, EmptyRoots, SetBacklink;
    var roots := EmptyRoots(ArrayAddrs(base, ArraySize(pgshifts, |pgshifts| - 2)));
    assert map[] + roots == roots;
  }

  lemma {:induction false} InitHeads(pgshifts: seq<nat>, sigma0: nat, dual: nat, base: nat, rwx: nat)
    requires |pgshifts| >= 2
    ensures MapSlot(sigma0) in InitShape(pgshifts, sigma0, base).chains && InitShape(pgshifts, sigma0, base).pg == map[]
    ensures var st := InitStore(pgshifts, sigma0, dual, base, rwx);
            && st.maps.Keys == {sigma0} && st.duals.Keys == {dual}
            && st.roots.Keys == ArrayAddrs(base, ArraySize(pgshifts, |pgshifts| - 2))
  {
    hide ArrayAddrs, ArraySize;
  }
}
