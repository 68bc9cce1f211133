/** The mapping database: kernel/src/generic/mapping.cc.

    Every place that mappings can hang off (a root node of a page frame, or the node that owns the
    whole address space) heads a list of mapping nodes.  The nodes are linked forward by tagged
    next pointers and backward by compressed backlinks; a node or root node may in addition lead to
    an array of root nodes for the next smaller page size.

    The ghost `shape` records the lists, each node's page-table entry, and for each list its page
    size and the depth of its roots.  The invariant ties the packed nodes to it,
    and every operation says how it changes it.
 */
module Mapping {
  import opened Words
  import opened MapNodes
  import opened PageSizes

  /** The node memory. */
  datatype Store = Store(maps: map<nat, MapNode>, roots: map<nat, Next>, duals: map<nat, Dual>)

  /** The page size of a list's mappings, and the depth of those with no parent in the list. */
  datatype Level = Level(size: nat, depth: nat)

  datatype Shape = Shape(chains: map<Slot, seq<nat>>, pg: map<nat, nat>, level: map<Slot, Level>)

  /** What the database needs to know of a page-table entry. */
  datatype PageEntry = PageEntry(present: bool, writable: bool, refs: nat)

  predicate Exists(st: Store, s: Slot) {
    match s case MapSlot(a) => a in st.maps case RootSlot(a) => a in st.roots
  }

  function Field(st: Store, s: Slot): Next
    requires Exists(st, s)
  {
    match s case MapSlot(a) => st.maps[a].next case RootSlot(a) => st.roots[a]
  }

  function MapOf(st: Store, s: Slot): nat {
    if Exists(st, s) then NextMap(Field(st, s), st.duals) else 0
  }

  function RootOf(st: Store, s: Slot): nat {
    if Exists(st, s) then NextRoot(Field(st, s), st.duals) else 0
  }

  /** The slot before position `i` of the list `c` headed by `h`. */
  function At(h: Slot, c: seq<nat>, i: nat): Slot
    requires i <= |c|
  {
    if i == 0 then h else MapSlot(c[i - 1])
  }

  /* ---------- the invariant ---------- */

  ghost predicate AddressesOk(st: Store) {
    && (forall a :: a in st.maps ==> IsNode(a))
    && (forall a :: a in st.roots ==> IsNode(a))
    && (forall a :: a in st.duals ==> IsNode(a))
  }

  /** A slot tagged with both kinds leads to a dual node, and a root tag leads to an array. */
  ghost predicate DualOk(st: Store, s: Slot)
    requires Exists(st, s)
  {
    && (IsBoth(Field(st, s)) ==> Target(Field(st, s)) in st.duals)
    && (Field(st, s).isRoot ==> IsNode(RootOf(st, s)))
  }

  /** Two slots do not share a dual node. */
  ghost predicate DualsApart(st: Store, s: Slot, t: Slot)
    requires Exists(st, s) && Exists(st, t)
  {
    s != t && IsBoth(Field(st, s)) && IsBoth(Field(st, t)) ==> Target(Field(st, s)) != Target(Field(st, t))
  }

  ghost predicate LeadsToDual(st: Store, s: Slot, d: nat) {
    Exists(st, s) && IsBoth(Field(st, s)) && Target(Field(st, s)) == d
  }

  /** Every dual node is some slot's. */
  ghost predicate DualsHeld(st: Store) { forall d :: d in st.duals ==> exists s :: LeadsToDual(st, s, d) }

  ghost predicate DualsOk(st: Store) {
    && (forall s :: Exists(st, s) ==> DualOk(st, s))
    && (forall s, t :: Exists(st, s) && Exists(st, t) ==> DualsApart(st, s, t))
    && DualsHeld(st)
  }

  /** Every root node heads a list. */
  ghost predicate HeadsOk(st: Store, sh: Shape) {
    && (forall h :: h in sh.chains ==> Exists(st, h))
    && sh.level.Keys == sh.chains.Keys
    && (forall r :: r in st.roots ==> RootSlot(r) in sh.chains)
  }

  /** Lists hold nodes that have a page-table entry. */
  ghost predicate MembersOk(st: Store, sh: Shape) {
    && (forall n :: n in sh.pg ==> n in st.maps)
    && (forall h, i :: h in sh.chains && 0 <= i < |sh.chains[h]| ==>
          sh.chains[h][i] in st.maps && sh.chains[h][i] in sh.pg && MapSlot(sh.chains[h][i]) !in sh.chains)
  }

  /** No node is at two positions. */
  ghost predicate ListsApart(sh: Shape) {
    forall h, h', i, j :: h in sh.chains && h' in sh.chains && 0 <= i < |sh.chains[h]| && 0 <= j < |sh.chains[h']| ==>
      sh.chains[h][i] == sh.chains[h'][j] ==> h == h' && i == j
  }

  ghost predicate InList(sh: Shape, h: Slot, n: nat) { h in sh.chains && n in sh.chains[h] }

  /** Every node is in a list, or heads one. */
  ghost predicate NodesListed(st: Store, sh: Shape) {
    forall n :: n in st.maps ==> MapSlot(n) in sh.chains || exists h :: InList(sh, h, n)
  }

  ghost predicate ListsOk(st: Store, sh: Shape) {
    HeadsOk(st, sh) && MembersOk(st, sh) && ListsApart(sh) && NodesListed(st, sh)
  }

  ghost predicate EntriesOk(sh: Shape) {
    && (forall n :: n in sh.pg ==> IsEntry(sh.pg[n]))
    && (forall n, n' :: n in sh.pg && n' in sh.pg && sh.pg[n] == sh.pg[n'] ==> n == n')
  }

  /** At position `i` of the list of `h`, the next pointer leads to the next node and that node's
      backlink encodes this slot and its own page-table entry. */
  ghost predicate Linked(st: Store, sh: Shape, h: Slot, i: nat)
    requires h in sh.chains && i <= |sh.chains[h]|
  {
    var c := sh.chains[h];
    && MapOf(st, At(h, c, i)) == (if i < |c| then c[i] else 0)
    && (i < |c| ==> c[i] in st.maps && c[i] in sh.pg && st.maps[c[i]].back == SetBacklink(At(h, c, i), sh.pg[c[i]]))
  }

  ghost predicate LinksOk(st: Store, sh: Shape) {
    forall h, i :: h in sh.chains && 0 <= i <= |sh.chains[h]| ==> Linked(st, sh, h, i)
  }

  ghost predicate Inv(st: Store, sh: Shape) {
    AddressesOk(st) && DualsOk(st) && ListsOk(st, sh) && EntriesOk(sh) && LinksOk(st, sh)
  }

  /* ---------- hooking a node into a list ---------- */

  predicate Fresh(st: Store, a: nat) {
    IsNode(a) && a !in st.maps && a !in st.roots && a !in st.duals
  }

  /** `st'` is `st` with the node `x` linked in between `prev` and the node after it. */
  ghost predicate Hooked(st: Store, st': Store, prev: Slot, x: nat, next: nat, pgX: nat, pgNext: nat) {
    && x in st'.maps && x !in st.maps && st'.maps.Keys == st.maps.Keys + {x} && st'.roots.Keys == st.roots.Keys
    && MapOf(st', prev) == x && MapOf(st', MapSlot(x)) == next && RootOf(st', MapSlot(x)) == 0
    && (forall s :: Exists(st, s) ==> RootOf(st', s) == RootOf(st, s))
    && (forall s :: Exists(st, s) && s != prev ==> MapOf(st', s) == MapOf(st, s))
    && st'.maps[x].back == SetBacklink(prev, pgX)
    && (next != 0 ==> next in st.maps && st'.maps[next].back == SetBacklink(MapSlot(x), pgNext))
    && (forall n :: n in st.maps && (n != next || next == 0) ==> st'.maps[n].back == st.maps[n].back)
  }

  function HookShape(sh: Shape, h: Slot, i: nat, x: nat, pgX: nat): Shape
    requires h in sh.chains && i <= |sh.chains[h]|
  {
    sh.(chains := sh.chains[h := sh.chains[h][..i] + [x] + sh.chains[h][i..]], pg := sh.pg[x := pgX])
  }

  lemma {:induction false} HookKeepsInv(st: Store, st': Store, sh: Shape, h: Slot, i: nat, x: nat, pgX: nat)
    requires Inv(st, sh) && h in sh.chains && i <= |sh.chains[h]|
    requires AddressesOk(st') && DualsOk(st') && IsEntry(pgX) && pgX !in sh.pg.Values && MapSlot(x) !in sh.chains
    requires x !in sh.pg
    requires HookedAt(st, st', sh, h, i, x, pgX)
    ensures Inv(st', HookShape(sh, h, i, x, pgX))
  {
    hide AddressesOk, DualsOk, Linked, MapOf, RootOf, NodesListed, DualsHeld;
    var sh' := HookShape(sh, h, i, x, pgX);
    HookLists(st, st', sh, h, i, x, pgX);
    forall g, j | g in sh'.chains && 0 <= j <= |sh'.chains[g]| ensures Linked(st', sh', g, j) {
      if g != h {
        HookLinkedApart(st, st', sh, h, i, x, pgX, g, j);
      } else {
        HookLinkedHere(st, st', sh, h, i, x, pgX, j);
      }
    }
  }

  ghost predicate HookedAt(st: Store, st': Store, sh: Shape, h: Slot, i: nat, x: nat, pgX: nat)
    requires h in sh.chains && i <= |sh.chains[h]|
  {
    var c := sh.chains[h];
    var next := if i < |c| then c[i] else 0;
    Hooked(st, st', At(h, c, i), x, next, pgX, if next in sh.pg then sh.pg[next] else 0)
  }

  lemma {:induction false} HookLinkedApart(st: Store, st': Store, sh: Shape, h: Slot, i: nat, x: nat, pgX: nat, g: Slot,
                                           j: nat)
    requires Inv(st, sh) && h in sh.chains && i <= |sh.chains[h]| && HookedAt(st, st', sh, h, i, x, pgX)
    requires g in sh.chains && g != h && j <= |sh.chains[g]|
    ensures Linked(st', HookShape(sh, h, i, x, pgX), g, j)
  {
    hide NodesListed, DualsHeld;
    HookElsewhere(st, sh, h, i, g, j);
  }

  lemma {:induction false} HookLinkedHere(st: Store, st': Store, sh: Shape, h: Slot, i: nat, x: nat, pgX: nat, j: nat)
    requires Inv(st, sh) && h in sh.chains && i <= |sh.chains[h]| && HookedAt(st, st', sh, h, i, x, pgX)
    requires j <= |sh.chains[h]| + 1 && x !in sh.pg
    ensures Linked(st', HookShape(sh, h, i, x, pgX), h, j)
  {
    hide AddressesOk, DualsOk, ListsOk, LinksOk, EntriesOk, NodesListed, DualsHeld;
    var c := sh.chains[h];
    var c' := HookShape(sh, h, i, x, pgX).chains[h];
    assert c'[i] == x;
    if j < i {
      HookElsewhere(st, sh, h, i, h, j);
      assert c'[j] == c[j] && At(h, c', j) == At(h, c, j);
    } else if j == i {
      assert At(h, c', i) == At(h, c, i);
    } else if j == i + 1 {
      assert At(h, c', j) == MapSlot(x);
      HookHere(st, sh, h, i);
      if i < |c| { assert c'[j] == c[i]; }
    } else {
      HookElsewhere(st, sh, h, i, h, j - 1);
      assert At(h, c', j) == At(h, c, j - 1);
      if j < |c'| { assert c'[j] == c[j - 1]; }
    }
  }

  lemma {:induction false} HookHere(st: Store, sh: Shape, h: Slot, i: nat)
    requires Inv(st, sh) && h in sh.chains && i <= |sh.chains[h]|
    ensures Linked(st, sh, h, i) && (i < |sh.chains[h]| ==> sh.chains[h][i] != 0)
  {
  }

  /** Distinct positions have distinct slots, so linking in at one leaves the others alone. */
  lemma {:induction false} HookElsewhere(st: Store, sh: Shape, h: Slot, i: nat, g: Slot, j: nat)
    requires Inv(st, sh) && h in sh.chains && i <= |sh.chains[h]| && g in sh.chains && j <= |sh.chains[g]|
    requires g != h || j != i
    ensures Exists(st, At(g, sh.chains[g], j)) && At(g, sh.chains[g], j) != At(h, sh.chains[h], i)
    ensures j < |sh.chains[g]| ==>
      sh.chains[g][j] in st.maps && (i < |sh.chains[h]| ==> sh.chains[g][j] != sh.chains[h][i])
    ensures Linked(st, sh, g, j)
  {
    assert Linked(st, sh, g, j);
    if j > 0 { assert sh.chains[g][j - 1] in st.maps; }
    if i > 0 { assert sh.chains[h][i - 1] in st.maps; }
  }

  lemma {:induction false} HookLists(st: Store, st': Store, sh: Shape, h: Slot, i: nat, x: nat, pgX: nat)
    requires ListsOk(st, sh) && h in sh.chains && i <= |sh.chains[h]|
    requires x !in st.maps && st'.maps.Keys == st.maps.Keys + {x} && st'.roots.Keys == st.roots.Keys
    requires MapSlot(x) !in sh.chains
    ensures ListsOk(st', HookShape(sh, h, i, x, pgX))
  {
    hide ListsApart, MembersOk, NodesListed;
    var sh' := HookShape(sh, h, i, x, pgX);
    assert HeadsOk(st', sh');
    HookMembers(st, st', sh, h, i, x, pgX);
    HookApart(st, sh, h, i, x, pgX);
    HookListed(st, st', sh, h, i, x, pgX);
  }

  lemma {:induction false} HookListed(st: Store, st': Store, sh: Shape, h: Slot, i: nat, x: nat, pgX: nat)
    requires NodesListed(st, sh) && h in sh.chains && i <= |sh.chains[h]| && st'.maps.Keys == st.maps.Keys + {x}
    ensures NodesListed(st', HookShape(sh, h, i, x, pgX))
  {
    var c, sh' := sh.chains[h], HookShape(sh, h, i, x, pgX);
    assert c == c[..i] + c[i..];
    assert forall n :: n in sh'.chains[h] <==> n in c || n == x;
    forall n | n in st'.maps && MapSlot(n) !in sh'.chains ensures exists g :: InList(sh', g, n) {
      if n == x {
        assert InList(sh', h, x);
      } else {
        var g :| InList(sh, g, n);
        assert InList(sh', g, n);
      }
    }
  }

  lemma {:induction false} HookMembers(st: Store, st': Store, sh: Shape, h: Slot, i: nat, x: nat, pgX: nat)
    requires MembersOk(st, sh) && h in sh.chains && i <= |sh.chains[h]|
    requires st'.maps.Keys == st.maps.Keys + {x} && MapSlot(x) !in sh.chains
    ensures MembersOk(st', HookShape(sh, h, i, x, pgX))
  {
    HookedList(sh.chains[h], i, x);
  }

  lemma {:induction false} HookApart(st: Store, sh: Shape, h: Slot, i: nat, x: nat, pgX: nat)
    requires MembersOk(st, sh) && ListsApart(sh) && h in sh.chains && i <= |sh.chains[h]| && x !in st.maps
    ensures ListsApart(HookShape(sh, h, i, x, pgX))
  {
    HookedList(sh.chains[h], i, x);
    var sh' := HookShape(sh, h, i, x, pgX);
    assert forall g, j :: g in sh.chains && 0 <= j < |sh.chains[g]| ==> sh.chains[g][j] != x;
  }

  lemma {:induction false} HookedList(c: seq<nat>, i: nat, x: nat)
    requires i <= |c|
    ensures var c' := c[..i] + [x] + c[i..];
            forall j :: 0 <= j < |c'| ==> c'[j] == if j < i then c[j] else if j == i then x else c[j - 1]
  {
  }

  /* ---------- taking a node out of a list ---------- */

  ghost predicate Unhooked(st: Store, st': Store, prev: Slot, x: nat, next: nat, pgNext: nat) {
    && x in st.maps && st'.maps.Keys == st.maps.Keys - {x} && st'.roots.Keys == st.roots.Keys
    && MapOf(st', prev) == next
    && (forall s :: Exists(st', s) ==> RootOf(st', s) == RootOf(st, s))
    && (forall s :: Exists(st', s) && s != prev ==> MapOf(st', s) == MapOf(st, s))
    && (next != 0 ==> next in st'.maps && st'.maps[next].back == SetBacklink(prev, pgNext))
    && (forall n :: n in st'.maps && (n != next || next == 0) ==> st'.maps[n].back == st.maps[n].back)
  }

  function UnhookShape(sh: Shape, h: Slot, i: nat): Shape
    requires h in sh.chains && i < |sh.chains[h]|
  {
    sh.(chains := sh.chains[h := sh.chains[h][..i] + sh.chains[h][i + 1..]], pg := sh.pg - {sh.chains[h][i]})
  }

  ghost predicate UnhookedAt(st: Store, st': Store, sh: Shape, h: Slot, i: nat)
    requires h in sh.chains && i < |sh.chains[h]|
  {
    var c := sh.chains[h];
    var next := if i + 1 < |c| then c[i + 1] else 0;
    Unhooked(st, st', At(h, c, i), c[i], next, if next in sh.pg then sh.pg[next] else 0)
  }

  lemma {:induction false} UnhookKeepsInv(st: Store, st': Store, sh: Shape, h: Slot, i: nat)
    requires Inv(st, sh) && h in sh.chains && i < |sh.chains[h]|
    requires AddressesOk(st') && DualsOk(st')
    requires UnhookedAt(st, st', sh, h, i)
    ensures Inv(st', UnhookShape(sh, h, i))
  {
    hide AddressesOk, DualsOk, Linked, MapOf, RootOf, NodesListed, DualsHeld;
    var sh' := UnhookShape(sh, h, i);
    UnhookLists(st, st', sh, h, i);
    forall g, j | g in sh'.chains && 0 <= j <= |sh'.chains[g]| ensures Linked(st', sh', g, j) {
      if g != h {
        UnhookLinkedApart(st, st', sh, h, i, g, j);
      } else {
        UnhookLinkedHere(st, st', sh, h, i, j);
      }
    }
  }

  lemma {:induction false} UnhookLinkedApart(st: Store, st': Store, sh: Shape, h: Slot, i: nat, g: Slot, j: nat)
    requires Inv(st, sh) && h in sh.chains && i < |sh.chains[h]| && UnhookedAt(st, st', sh, h, i)
    requires g in sh.chains && g != h && j <= |sh.chains[g]|
    ensures Linked(st', UnhookShape(sh, h, i), g, j)
  {
    hide NodesListed, DualsHeld, MapOf, RootOf, SetBacklink, AddressesOk, DualsOk, LinksOk, EntriesOk, ListsOk;
    UnhookElsewhere(st, sh, h, i, g, j);
  }

  lemma {:induction false} UnhookLinkedHere(st: Store, st': Store, sh: Shape, h: Slot, i: nat, j: nat)
    requires Inv(st, sh) && h in sh.chains && i < |sh.chains[h]| && UnhookedAt(st, st', sh, h, i)
    requires j < |sh.chains[h]|
    ensures Linked(st', UnhookShape(sh, h, i), h, j)
  {
    hide AddressesOk, DualsOk, ListsOk, LinksOk, EntriesOk;
    var c := sh.chains[h];
    var c' := UnhookShape(sh, h, i).chains[h];
    if j < i {
      UnhookElsewhere(st, sh, h, i, h, j);
      assert c'[j] == c[j] && At(h, c', j) == At(h, c, j);
    } else if j == i {
      UnhookElsewhere(st, sh, h, i, h, i);
      assert At(h, c', i) == At(h, c, i);
      HookHere(st, sh, h, i + 1);
      if i + 1 < |c| {
        UnhookNext(st, sh, h, i);
        assert c'[i] == c[i + 1];
      }
    } else {
      UnhookElsewhere(st, sh, h, i, h, j + 1);
      assert At(h, c', j) == At(h, c, j + 1);
      if j < |c'| { assert c'[j] == c[j + 1]; }
    }
  }

  lemma {:induction false} UnhookNext(st: Store, sh: Shape, h: Slot, i: nat)
    requires Inv(st, sh) && h in sh.chains && i + 1 < |sh.chains[h]|
    ensures sh.chains[h][i + 1] != sh.chains[h][i]
  {
  }

  lemma {:induction false} UnhookElsewhere(st: Store, sh: Shape, h: Slot, i: nat, g: Slot, j: nat)
    requires Inv(st, sh) && h in sh.chains && i < |sh.chains[h]| && g in sh.chains && j <= |sh.chains[g]|
    requires g != h || j != i + 1
    ensures Exists(st, At(g, sh.chains[g], j)) && At(g, sh.chains[g], j) != MapSlot(sh.chains[h][i])
    ensures (g != h || j != i) ==> At(g, sh.chains[g], j) != At(h, sh.chains[h], i)
    ensures j < |sh.chains[g]| ==> sh.chains[g][j] in st.maps
    ensures j < |sh.chains[g]| && i + 1 < |sh.chains[h]| ==> sh.chains[g][j] != sh.chains[h][i + 1]
    ensures j < |sh.chains[g]| && (g != h || j != i) ==> sh.chains[g][j] != sh.chains[h][i]
    ensures Linked(st, sh, g, j)
  {
    assert Linked(st, sh, g, j);
    if j > 0 { assert sh.chains[g][j - 1] in st.maps; }
    if i > 0 { assert sh.chains[h][i - 1] in st.maps; }
  }

  lemma {:induction false} UnhookLists(st: Store, st': Store, sh: Shape, h: Slot, i: nat)
    requires ListsOk(st, sh) && h in sh.chains && i < |sh.chains[h]|
    requires st'.maps.Keys == st.maps.Keys - {sh.chains[h][i]} && st'.roots.Keys == st.roots.Keys
    ensures ListsOk(st', UnhookShape(sh, h, i))
  {
    hide HeadsOk, MembersOk, ListsApart, UnhookShape, NodesListed;
    UnhookHeads(st, st', sh, h, i);
    UnhookMembers(st, st', sh, h, i);
    UnhookApart(sh, h, i);
    UnhookListed(st, st', sh, h, i);
  }

  lemma {:induction false} UnhookListed(st: Store, st': Store, sh: Shape, h: Slot, i: nat)
    requires NodesListed(st, sh) && h in sh.chains && i < |sh.chains[h]|
    requires st'.maps.Keys == st.maps.Keys - {sh.chains[h][i]}
    ensures NodesListed(st', UnhookShape(sh, h, i))
  {
    var c, sh' := sh.chains[h], UnhookShape(sh, h, i);
    assert c == c[..i] + [c[i]] + c[i + 1..];
    assert forall n :: n in c && n != c[i] ==> n in sh'.chains[h];
    forall n | n in st'.maps && MapSlot(n) !in sh'.chains ensures exists g :: InList(sh', g, n) {
      var g :| InList(sh, g, n);
      assert InList(sh', g, n);
    }
  }

  lemma {:induction false} UnhookHeads(st: Store, st': Store, sh: Shape, h: Slot, i: nat)
    requires HeadsOk(st, sh) && MembersOk(st, sh) && h in sh.chains && i < |sh.chains[h]|
    requires st'.maps.Keys == st.maps.Keys - {sh.chains[h][i]} && st'.roots.Keys == st.roots.Keys
    ensures HeadsOk(st', UnhookShape(sh, h, i))
  {
    assert MapSlot(sh.chains[h][i]) !in sh.chains;
  }

  lemma {:induction false} UnhookMembers(st: Store, st': Store, sh: Shape, h: Slot, i: nat)
    requires MembersOk(st, sh) && ListsApart(sh) && h in sh.chains && i < |sh.chains[h]|
    requires st'.maps.Keys == st.maps.Keys - {sh.chains[h][i]}
    ensures MembersOk(st', UnhookShape(sh, h, i))
  {
    var c, sh' := sh.chains[h], UnhookShape(sh, h, i);
    forall g, j | g in sh'.chains && 0 <= j < |sh'.chains[g]|
      ensures sh'.chains[g][j] in st'.maps && sh'.chains[g][j] in sh'.pg && MapSlot(sh'.chains[g][j]) !in sh'.chains
    {
      var j' := if g == h && j >= i then j + 1 else j;
      assert sh'.chains[g][j] == sh.chains[g][j'] && (g != h || j' != i);
      assert sh.chains[g][j'] != c[i];
    }
  }

  lemma {:induction false} UnhookApart(sh: Shape, h: Slot, i: nat)
    requires ListsApart(sh) && h in sh.chains && i < |sh.chains[h]|
    ensures ListsApart(UnhookShape(sh, h, i))
  {
    var c := sh.chains[h];
    var c' := c[..i] + c[i + 1..];
    assert forall j :: 0 <= j < |c'| ==> c'[j] == if j < i then c[j] else c[j + 1];
  }

  /* ---------- arrays of root nodes ---------- */

  /** `mdb_get_index`. */
  function Index(pgshifts: seq<nat>, p: nat, addr: nat): nat
    requires p < |pgshifts|
  {
    And(Shr(addr, pgshifts[p]), ArraySize(pgshifts, p) - 1)
  }

  /** The addresses of `n` root nodes, eight bytes each, from `base` on. */
  function ArrayAddrs(base: nat, n: nat): set<nat> {
    set a | base <= a < base + 8 * n && OnStride(base, a)
  }

  predicate OnStride(base: nat, a: nat) { (a - base) % 8 == 0 }

  lemma {:induction false} IndexInArray(pgshifts: seq<nat>, p: nat, addr: nat)
    requires p < |pgshifts|
    ensures Index(pgshifts, p, addr) < ArraySize(pgshifts, p)
    ensures forall base: nat :: base + 8 * Index(pgshifts, p, addr) in ArrayAddrs(base, ArraySize(pgshifts, p))
  {
    hide Shr, ArrayAddrs;
    assert Index(pgshifts, p, addr) < ArraySize(pgshifts, p);
    hide Index, ArraySize;
    forall base: nat ensures base + 8 * Index(pgshifts, p, addr) in ArrayAddrs(base, ArraySize(pgshifts, p)) {
      ElementInArray(base, Index(pgshifts, p, addr), ArraySize(pgshifts, p));
    }
  }

  lemma {:induction false} ElementInArray(base: nat, i: nat, n: nat)
    requires i < n
    ensures base + 8 * i in ArrayAddrs(base, n)
  {
    assert OnStride(base, base + 8 * i);
  }

  /** The depth of mappings made from a slot into smaller pages. */
  function Below(st: Store, lv: Level, s: Slot): nat {
    if s.MapSlot? && s.addr in st.maps then st.maps[s.addr].depth + 1 else lv.depth
  }

  /** Nodes that stay keep their depth. */
  ghost predicate DepthsKept(st: Store, st': Store) {
    forall n :: n in st.maps && n in st'.maps ==> st'.maps[n].depth == st.maps[n].depth
  }

  /** With ascending shifts, the index is the digit of the address that counts pages of this size within
      a page of the next. */
  lemma {:induction false} IndexIsDigit(pgshifts: seq<nat>, p: nat, addr: nat)
    requires p + 1 < |pgshifts| && pgshifts[p] <= pgshifts[p + 1]
    ensures Index(pgshifts, p, addr) == addr / Pow2(pgshifts[p]) % Pow2(pgshifts[p + 1] - pgshifts[p])
  {
    hide Pow2, Shr, And;
    ShrIsDiv(addr, pgshifts[p]);
    AndLowMask(Shr(addr, pgshifts[p]), pgshifts[p + 1] - pgshifts[p]);
  }

  /** The array a slot of the list of `h` leads to has one list head per page of the next size. */
  ghost predicate ArrayOk(st: Store, sh: Shape, pgshifts: seq<nat>, h: Slot, i: nat)
    requires h in sh.chains && h in sh.level && i <= |sh.chains[h]|
  {
    var a, lv := RootOf(st, At(h, sh.chains[h], i)), sh.level[h];
    a != 0 ==> lv.size > 0 && forall b :: b in ArrayAddrs(a, ArraySize(pgshifts, lv.size - 1)) ==>
      RootSlot(b) in sh.chains && RootSlot(b) in sh.level
      && sh.level[RootSlot(b)] == Level(lv.size - 1, Below(st, lv, At(h, sh.chains[h], i)))
  }

  ghost predicate ArraysOk(st: Store, sh: Shape, pgshifts: seq<nat>) {
    forall h, i :: h in sh.chains && 0 <= i <= |sh.chains[h]| ==> h in sh.level && ArrayOk(st, sh, pgshifts, h, i)
  }

  lemma {:induction false} HookKeepsArrays(st: Store, st': Store, sh: Shape, pgshifts: seq<nat>, h: Slot, i: nat,
                                           x: nat, pgX: nat)
    requires Inv(st, sh) && ArraysOk(st, sh, pgshifts) && h in sh.chains && i <= |sh.chains[h]|
    requires x !in st.maps && (forall s :: Exists(st, s) ==> RootOf(st', s) == RootOf(st, s))
    requires RootOf(st', MapSlot(x)) == 0
    requires DepthsKept(st, st') && st.maps.Keys <= st'.maps.Keys && st.roots.Keys <= st'.roots.Keys
    ensures ArraysOk(st', HookShape(sh, h, i, x, pgX), pgshifts)
  {
    hide ArrayOk, AddressesOk, DualsOk, LinksOk, EntriesOk, NodesListed, DualsHeld;
    var sh' := HookShape(sh, h, i, x, pgX);
    forall g, j | g in sh'.chains && 0 <= j <= |sh'.chains[g]|
      ensures g in sh'.level && ArrayOk(st', sh', pgshifts, g, j)
    {
      var j' := if g == h && j > i then j - 1 else j;
      if g == h && j == i + 1 {
        ArrayAbsent(st', sh', pgshifts, g, j);
      } else {
        HookSlotExists(st, sh, g, j');
        ArrayKept(st, sh, st', sh', pgshifts, g, j', j);
      }
    }
  }

  lemma {:induction false} ArrayAbsent(st: Store, sh: Shape, pgshifts: seq<nat>, g: Slot, j: nat)
    requires g in sh.chains && g in sh.level && j <= |sh.chains[g]| && RootOf(st, At(g, sh.chains[g], j)) == 0
    ensures ArrayOk(st, sh, pgshifts, g, j)
  {
  }

  lemma {:induction false} ArrayKept(st: Store, sh: Shape, st': Store, sh': Shape, pgshifts: seq<nat>, g: Slot, j: nat,
                                     j': nat)
    requires g in sh.chains && g in sh.level && j <= |sh.chains[g]| && ArrayOk(st, sh, pgshifts, g, j)
    requires g in sh'.chains && j' <= |sh'.chains[g]| && sh.chains.Keys <= sh'.chains.Keys
    requires forall s :: s in sh.level ==> s in sh'.level && sh'.level[s] == sh.level[s]
    requires At(g, sh.chains[g], j) == At(g, sh'.chains[g], j')
    requires RootOf(st', At(g, sh.chains[g], j)) == RootOf(st, At(g, sh.chains[g], j))
    requires Exists(st, At(g, sh.chains[g], j)) && Exists(st', At(g, sh.chains[g], j)) && DepthsKept(st, st')
    ensures ArrayOk(st', sh', pgshifts, g, j')
  {
  }

  lemma {:induction false} HookSlotExists(st: Store, sh: Shape, h: Slot, i: nat)
    requires ListsOk(st, sh) && h in sh.chains && i <= |sh.chains[h]|
    ensures Exists(st, At(h, sh.chains[h], i))
  {
  }

  lemma {:induction false} UnhookKeepsArrays(st: Store, st': Store, sh: Shape, pgshifts: seq<nat>, h: Slot, i: nat)
    requires Inv(st, sh) && ArraysOk(st, sh, pgshifts) && h in sh.chains && i < |sh.chains[h]|
    requires ListsOk(st', UnhookShape(sh, h, i)) && (forall s :: Exists(st', s) ==> RootOf(st', s) == RootOf(st, s))
    requires DepthsKept(st, st') && st'.maps.Keys <= st.maps.Keys
    ensures ArraysOk(st', UnhookShape(sh, h, i), pgshifts)
  {
    hide ArrayOk, AddressesOk, DualsOk, LinksOk, EntriesOk, NodesListed, DualsHeld;
    var sh' := UnhookShape(sh, h, i);
    forall g, j | g in sh'.chains && 0 <= j <= |sh'.chains[g]|
      ensures g in sh'.level && ArrayOk(st', sh', pgshifts, g, j)
    {
      var j' := if g == h && j > i then j + 1 else j;
      HookSlotExists(st', sh', g, j);
      HookSlotExists(st, sh, g, j');
      ArrayKept(st, sh, st', sh', pgshifts, g, j', j);
    }
  }

  /* ---------- one next pointer at a time ---------- */

  /** Only the mapping that `prev` leads to has changed. */
  ghost predicate Relinked(st: Store, st': Store, prev: Slot, next: nat) {
    && st'.maps.Keys == st.maps.Keys && st'.roots.Keys == st.roots.Keys
    && MapOf(st', prev) == next
    && (forall s :: Exists(st, s) && s != prev ==> MapOf(st', s) == MapOf(st, s))
    && (forall s :: Exists(st, s) ==> RootOf(st', s) == RootOf(st, s))
    && (forall n :: n in st.maps ==> st'.maps[n] == st.maps[n].(next := st'.maps[n].next))
  }

  /** `set_next` and `set_ptr`. */
  function WithField(st: Store, s: Slot, n: Next): Store
    requires Exists(st, s)
  {
    match s
    case MapSlot(a) => st.(maps := st.maps[a := st.maps[a].(next := n)])
    case RootSlot(a) => st.(roots := st.roots[a := n])
  }

  lemma {:induction false} FieldAfter(st: Store, s: Slot, n: Next)
    requires Exists(st, s)
    ensures var st' := WithField(st, s, n);
            && st'.maps.Keys == st.maps.Keys && st'.roots.Keys == st.roots.Keys && st'.duals == st.duals
            && (forall t :: Exists(st', t) <==> Exists(st, t))
            && (forall t :: Exists(st, t) ==> Field(st', t) == if t == s then n else Field(st, t))
            && (forall m :: m in st.maps ==> st'.maps[m] == st.maps[m].(next := st'.maps[m].next))
  {
  }

  lemma {:induction false} RelinkedHeld(st: Store, st': Store, prev: Slot)
    requires DualsHeld(st) && st'.maps.Keys == st.maps.Keys && st'.roots.Keys == st.roots.Keys
    requires forall t :: Exists(st, t) && t != prev ==> Field(st', t) == Field(st, t)
    requires forall d :: d in st'.duals ==> LeadsToDual(st', prev, d) || (d in st.duals && !LeadsToDual(st, prev, d))
    ensures DualsHeld(st')
  {
    hide Field, Target;
    forall d | d in st'.duals ensures exists s :: LeadsToDual(st', s, d) {
      if !LeadsToDual(st', prev, d) {
        var s :| LeadsToDual(st, s, d);
        assert LeadsToDual(st', s, d);
      }
    }
  }

  /** A store whose slots lead where they did, except that `prev` leads to the mapping `next`.  The
      field of `prev` is `n` and its dual node, if it has one, is not another slot's. */
  lemma {:induction false} RelinkedBy(st: Store, st': Store, prev: Slot, next: nat)
    requires AddressesOk(st) && DualsOk(st) && Exists(st, prev)
    requires st'.maps.Keys == st.maps.Keys && st'.roots.Keys == st.roots.Keys
    requires forall a :: a in st'.duals ==> IsNode(a)
    requires forall m :: m in st.maps ==> st'.maps[m] == st.maps[m].(next := st'.maps[m].next)
    requires forall t :: Exists(st, t) && t != prev ==> Field(st', t) == Field(st, t)
    requires forall t :: Exists(st, t) && t != prev && IsBoth(Field(st, t)) ==>
               Target(Field(st, t)) in st'.duals && st'.duals[Target(Field(st, t))] == st.duals[Target(Field(st, t))]
    requires IsBoth(Field(st', prev)) ==> Target(Field(st', prev)) in st'.duals
    requires forall t :: Exists(st, t) && t != prev && IsBoth(Field(st, t)) && IsBoth(Field(st', prev)) ==>
               Target(Field(st, t)) != Target(Field(st', prev))
    requires MapOf(st', prev) == next && RootOf(st', prev) == RootOf(st, prev)
    requires Field(st', prev).isRoot ==> Field(st, prev).isRoot
    requires forall d :: d in st'.duals ==> LeadsToDual(st', prev, d) || (d in st.duals && !LeadsToDual(st, prev, d))
    ensures AddressesOk(st') && DualsOk(st') && Relinked(st, st', prev, next)
  {
    hide Target, LeadsToDual, DualsHeld, DualOk, DualsApart, MapOf, RootOf;
    RelinkedHeld(st, st', prev);
    assert forall t :: Exists(st', t) <==> Exists(st, t);
    forall t | Exists(st, t)
      ensures DualOk(st', t) && RootOf(st', t) == RootOf(st, t) && (t != prev ==> MapOf(st', t) == MapOf(st, t))
    {
      RelinkedAt(st, st', prev, t);
    }
    forall s, t | Exists(st', s) && Exists(st', t) ensures DualsApart(st', s, t) {
      RelinkedApart(st, st', prev, s, t);
    }
  }

  lemma {:induction false} RelinkedAt(st: Store, st': Store, prev: Slot, t: Slot)
    requires Exists(st, prev) && Exists(st, t) && Exists(st', t) && DualOk(st, t) && Exists(st', prev)
    requires t != prev ==> Field(st', t) == Field(st, t)
    requires t != prev && IsBoth(Field(st, t)) ==>
               Target(Field(st, t)) in st'.duals && st'.duals[Target(Field(st, t))] == st.duals[Target(Field(st, t))]
    requires IsBoth(Field(st', prev)) ==> Target(Field(st', prev)) in st'.duals
    requires RootOf(st', prev) == RootOf(st, prev) && (Field(st', prev).isRoot ==> Field(st, prev).isRoot)
    ensures DualOk(st', t) && RootOf(st', t) == RootOf(st, t) && (t != prev ==> MapOf(st', t) == MapOf(st, t))
  {
    hide Target, IsNode;
  }

  lemma {:induction false} RelinkedApart(st: Store, st': Store, prev: Slot, s: Slot, t: Slot)
    requires Exists(st, s) && Exists(st, t) && Exists(st', s) && Exists(st', t) && DualsApart(st, s, t)
    requires forall u :: Exists(st, u) && u != prev ==> Exists(st', u) && Field(st', u) == Field(st, u)
    requires Exists(st', prev)
    requires forall u :: Exists(st, u) && u != prev && IsBoth(Field(st, u)) && IsBoth(Field(st', prev)) ==>
               Target(Field(st, u)) != Target(Field(st', prev))
    ensures DualsApart(st', s, t)
  {
    hide Target, Field;
  }

  /** The fixup of the previous node's next pointer in `mdb_map`. */
  function LinkedTo(st: Store, prev: Slot, x: nat, dualbuf: nat): Store
    requires Exists(st, prev)
  {
    var n := Field(st, prev);
    if n.isRoot && !n.isMap then
      WithField(st.(duals := st.duals[dualbuf := Dual(x, NextRoot(n, st.duals))]), prev, ToDual(dualbuf))
    else if IsBoth(n) && Target(n) in st.duals then st.(duals := st.duals[Target(n) := st.duals[Target(n)].(map_ := x)])
    else WithField(st, prev, ToMap(x))
  }

  /** Hooking a node in below a slot that leads to an array only takes a dual node. */
  ghost predicate NeedsDual(st: Store, prev: Slot) {
    Exists(st, prev) && Field(st, prev).isRoot && !Field(st, prev).isMap
  }

  /** A buffer for a dual node, if one is needed. */
  predicate DualReady(st: Store, dualbuf: nat, needed: bool) {
    dualbuf < W64 && dualbuf % 4 == 0 && (needed ==> Fresh(st, dualbuf))
  }

  /** Dual nodes of other slots are others than that of `prev`. */
  lemma {:induction false} OtherDuals(st: Store, prev: Slot)
    requires DualsOk(st) && Exists(st, prev)
    ensures DualOk(st, prev)
    ensures forall t :: Exists(st, t) && t != prev && IsBoth(Field(st, t)) ==>
              Target(Field(st, t)) in st.duals
                && (IsBoth(Field(st, prev)) ==> Target(Field(st, t)) != Target(Field(st, prev)))
  {
    hide Target;
    forall t | Exists(st, t) && t != prev && IsBoth(Field(st, t))
      ensures Target(Field(st, t)) in st.duals
      ensures IsBoth(Field(st, prev)) ==> Target(Field(st, t)) != Target(Field(st, prev))
    {
      assert DualOk(st, t) && DualsApart(st, t, prev);
    }
  }

  /** A slot that leads to no array is made to lead to `v`. */
  lemma {:induction false} RelinkPlain(st: Store, prev: Slot, v: nat)
    requires AddressesOk(st) && DualsOk(st) && Exists(st, prev) && !Field(st, prev).isRoot && v < W64 && v % 4 == 0
    ensures var st' := WithField(st, prev, ToMap(v));
            AddressesOk(st') && DualsOk(st') && Relinked(st, st', prev, v) && st'.duals == st.duals
  {
    hide Target, DualsOk, DualOk, DualsApart;
    TargetDecodes(v);
    OtherDuals(st, prev);
    FieldAfter(st, prev, ToMap(v));
    RelinkedBy(st, WithField(st, prev, ToMap(v)), prev, v);
  }

  /** The mapping in a slot's dual node is overwritten. */
  lemma {:induction false} RelinkInDual(st: Store, prev: Slot, v: nat)
    requires AddressesOk(st) && DualsOk(st) && Exists(st, prev) && IsBoth(Field(st, prev))
    ensures var d := Target(Field(st, prev)); d in st.duals
    ensures var d := Target(Field(st, prev)); var st' := st.(duals := st.duals[d := st.duals[d].(map_ := v)]);
            AddressesOk(st') && DualsOk(st') && Relinked(st, st', prev, v) && st'.duals.Keys == st.duals.Keys
  {
    hide Target, DualsOk, DualsApart;
    OtherDuals(st, prev);
    var d := Target(Field(st, prev));
    var st' := st.(duals := st.duals[d := st.duals[d].(map_ := v)]);
    assert forall t :: Exists(st, t) ==> Field(st', t) == Field(st, t);
    RelinkedBy(st, st', prev, v);
  }

  /** A slot that leads to an array only gets a dual node. */
  lemma {:induction false} RelinkNewDual(st: Store, prev: Slot, v: nat, d: nat)
    requires AddressesOk(st) && DualsOk(st) && NeedsDual(st, prev) && Fresh(st, d)
    ensures var st' :=
      WithField(st.(duals := st.duals[d := Dual(v, NextRoot(Field(st, prev), st.duals))]), prev, ToDual(d));
            AddressesOk(st') && DualsOk(st') && Relinked(st, st', prev, v) && st'.duals.Keys == st.duals.Keys + {d}
  {
    hide Target, DualsOk, DualOk, DualsApart;
    TargetDecodes(d);
    OtherDuals(st, prev);
    var st1 := st.(duals := st.duals[d := Dual(v, NextRoot(Field(st, prev), st.duals))]);
    FieldAfter(st1, prev, ToDual(d));
    assert forall t :: Exists(st, t) ==> Exists(st1, t) && Field(st1, t) == Field(st, t);
    RelinkedBy(st, WithField(st1, prev, ToDual(d)), prev, v);
  }

  /** A dual node goes when its mapping does. */
  lemma {:induction false} RelinkCollapse(st: Store, prev: Slot)
    requires AddressesOk(st) && DualsOk(st) && Exists(st, prev) && IsBoth(Field(st, prev))
    ensures var d := Target(Field(st, prev)); d in st.duals
    ensures var d := Target(Field(st, prev));
            var st' := WithField(st.(duals := st.duals - {d}), prev, ToRoot(st.duals[d].root));
            AddressesOk(st') && DualsOk(st') && Relinked(st, st', prev, 0) && st'.duals.Keys == st.duals.Keys - {d}
  {
    hide Target, DualsOk, DualsApart;
    OtherDuals(st, prev);
    var d := Target(Field(st, prev));
    TargetDecodes(st.duals[d].root);
    var st1 := st.(duals := st.duals - {d});
    FieldAfter(st1, prev, ToRoot(st.duals[d].root));
    assert forall t :: Exists(st, t) ==> Exists(st1, t) && Field(st1, t) == Field(st, t);
    RelinkedBy(st, WithField(st1, prev, ToRoot(st.duals[d].root)), prev, 0);
  }

  lemma {:induction false} LinkedToRelinks(st: Store, prev: Slot, x: nat, dualbuf: nat)
    requires AddressesOk(st) && DualsOk(st) && Exists(st, prev)
    requires x < W64 && x % 4 == 0 && DualReady(st, dualbuf, NeedsDual(st, prev))
    ensures var st' := LinkedTo(st, prev, x, dualbuf);
            && AddressesOk(st') && DualsOk(st') && Relinked(st, st', prev, x)
            && st'.duals.Keys == st.duals.Keys + (if NeedsDual(st, prev) then {dualbuf} else {})
  {
    hide Target, DualsOk, AddressesOk, Relinked, WithField, ToMap, ToDual, NextRoot;
    if NeedsDual(st, prev) {
      RelinkNewDual(st, prev, x, dualbuf);
    } else if IsBoth(Field(st, prev)) {
      RelinkInDual(st, prev, x);
    } else {
      RelinkPlain(st, prev, x);
    }
  }

  /** The fixup in `remove_map`: without a mapping left, a dual node goes away again. */
  function UnlinkedTo(st: Store, prev: Slot, nmap: nat): Store
    requires Exists(st, prev)
  {
    var n := Field(st, prev);
    if !n.isRoot || Target(n) !in st.duals then WithField(st, prev, ToMap(nmap))
    else
      var dual := Target(n);
      if nmap != 0 then st.(duals := st.duals[dual := st.duals[dual].(map_ := nmap)])
      else WithField(st.(duals := st.duals - {dual}), prev, ToRoot(st.duals[dual].root))
  }

  /** The dual node that is left over when its only mapping goes. */
  ghost function LeftOver(st: Store, prev: Slot, nmap: nat): set<nat> {
    if Exists(st, prev) && IsBoth(Field(st, prev)) && nmap == 0 then {Target(Field(st, prev))} else {}
  }

  lemma {:induction false} UnlinkedToRelinks(st: Store, prev: Slot, nmap: nat)
    requires AddressesOk(st) && DualsOk(st) && Exists(st, prev) && Field(st, prev).isMap
    requires nmap < W64 && nmap % 4 == 0
    ensures var st' := UnlinkedTo(st, prev, nmap);
            && AddressesOk(st') && DualsOk(st') && Relinked(st, st', prev, nmap)
            && LeftOver(st, prev, nmap) <= st.duals.Keys && st'.duals.Keys == st.duals.Keys - LeftOver(st, prev, nmap)
  {
    hide Target, DualsOk, AddressesOk, Relinked, WithField, ToMap, ToRoot;
    if !Field(st, prev).isRoot {
      RelinkPlain(st, prev, nmap);
    } else if nmap != 0 {
      RelinkInDual(st, prev, nmap);
    } else {
      RelinkCollapse(st, prev);
    }
  }

  /* ---------- whole insertions and removals ---------- */

  /** Adding a node changes no slot that was there. */
  lemma {:induction false} AddNode(st: Store, x: nat, node: MapNode, nmap: nat)
    requires AddressesOk(st) && DualsOk(st) && Fresh(st, x) && node.next == ToMap(nmap) && nmap < W64 && nmap % 4 == 0
    ensures var st' := st.(maps := st.maps[x := node]);
            && AddressesOk(st') && DualsOk(st')
            && (forall s :: Exists(st, s) ==>
                Exists(st', s) && MapOf(st', s) == MapOf(st, s) && RootOf(st', s) == RootOf(st, s))
            && MapOf(st', MapSlot(x)) == nmap && RootOf(st', MapSlot(x)) == 0
  {
    hide Target, DualsOk;
    TargetDecodes(nmap);
    NodeDuals(st, x, node);
  }

  lemma {:induction false} NodeDuals(st: Store, x: nat, node: MapNode)
    requires DualsOk(st) && Fresh(st, x) && !node.next.isRoot
    ensures DualsOk(st.(maps := st.maps[x := node]))
  {
    hide Target;
    var st' := st.(maps := st.maps[x := node]);
    assert forall s :: Exists(st', s) <==> Exists(st, s) || s == MapSlot(x);
    forall s | Exists(st', s) ensures DualOk(st', s) {
      if s != MapSlot(x) { assert DualOk(st, s); }
    }
    forall s, t | Exists(st', s) && Exists(st', t) ensures DualsApart(st', s, t) {
      if s != MapSlot(x) && t != MapSlot(x) { assert DualsApart(st, s, t); }
    }
    forall d | d in st'.duals ensures exists s :: LeadsToDual(st', s, d) {
      var s :| LeadsToDual(st, s, d);
      assert LeadsToDual(st', s, d);
    }
  }

  /** Changing backlinks, or dropping nodes, changes no next pointer that stays. */
  lemma {:induction false} SameLinks(st: Store, st': Store)
    requires AddressesOk(st) && DualsOk(st)
    requires st'.maps.Keys <= st.maps.Keys && st'.roots == st.roots && st'.duals == st.duals
    requires forall n :: n in st'.maps ==> st'.maps[n].next == st.maps[n].next
    requires forall n :: n in st.maps && n !in st'.maps ==> !st.maps[n].next.isRoot
    ensures forall s :: Exists(st', s) ==>
      Exists(st, s) && MapOf(st', s) == MapOf(st, s) && RootOf(st', s) == RootOf(st, s)
    ensures DualsOk(st') && AddressesOk(st')
  {
    assert forall s :: Exists(st', s) ==> Exists(st, s) && Field(st', s) == Field(st, s);
    forall s | Exists(st', s) ensures DualOk(st', s) { assert DualOk(st, s); }
    forall s, t | Exists(st', s) && Exists(st', t) ensures DualsApart(st', s, t) { assert DualsApart(st, s, t); }
    forall d | d in st'.duals ensures exists s :: LeadsToDual(st', s, d) {
      var s :| LeadsToDual(st, s, d);
      assert LeadsToDual(st', s, d);
    }
  }

  function WithBack(st: Store, n: nat, b: Back): Store {
    if n in st.maps then st.(maps := st.maps[n := st.maps[n].(back := b)]) else st
  }

  /** The store after hooking in `x`, step by step as the code does it. */
  function HookStore(st: Store, prev: Slot, x: nat, node: MapNode, dualbuf: nat, nmap: nat): Store
    requires Exists(st, prev)
  {
    var st2 := LinkedTo(st.(maps := st.maps[x := node]), prev, x, dualbuf);
    if nmap != 0 && nmap in st2.maps
    then WithBack(st2, nmap, SetBacklink(MapSlot(x), GetPgent(st2.maps[nmap].back, prev.addr)))
    else st2
  }

  /** The store between the two fixups: next pointers are in place, backlinks are not. */
  ghost predicate HalfHooked(st: Store, st2: Store, prev: Slot, x: nat, nmap: nat, node: MapNode) {
    && x !in st.maps && st2.maps.Keys == st.maps.Keys + {x} && st2.roots.Keys == st.roots.Keys
    && MapOf(st2, prev) == x && MapOf(st2, MapSlot(x)) == nmap && RootOf(st2, MapSlot(x)) == 0
    && (forall s :: Exists(st, s) ==> RootOf(st2, s) == RootOf(st, s))
    && (forall s :: Exists(st, s) && s != prev ==> MapOf(st2, s) == MapOf(st, s))
    && (forall n :: n in st.maps ==> st2.maps[n] == st.maps[n].(next := st2.maps[n].next))
    && st2.maps[x] == node.(next := st2.maps[x].next)
  }

  lemma {:induction false} NodeBeside(st: Store, x: nat, node: MapNode, s: Slot, dualbuf: nat)
    requires Fresh(st, x) && Exists(st, s) && x != dualbuf && DualReady(st, dualbuf, NeedsDual(st, s))
    ensures var st1 := st.(maps := st.maps[x := node]);
            Exists(st1, s) && NeedsDual(st1, s) == NeedsDual(st, s) && DualReady(st1, dualbuf, NeedsDual(st1, s))
  {
    assert s != MapSlot(x);
  }

  lemma {:induction false} HookHalfway(st: Store, prev: Slot, x: nat, node: MapNode, dualbuf: nat, nmap: nat)
    requires AddressesOk(st) && DualsOk(st) && Exists(st, prev) && Fresh(st, x) && x != dualbuf
    requires DualReady(st, dualbuf, NeedsDual(st, prev))
    requires node.next == ToMap(nmap) && nmap < W64 && nmap % 4 == 0
    ensures var st1 := st.(maps := st.maps[x := node]);
            && Exists(st1, prev)
            && var st2 := LinkedTo(st1, prev, x, dualbuf);
            && AddressesOk(st2) && DualsOk(st2) && HalfHooked(st, st2, prev, x, nmap, node)
            && st2.duals.Keys == st.duals.Keys + (if NeedsDual(st, prev) then {dualbuf} else {})
  {
    hide AddressesOk, DualsOk, LinkedTo, MapOf, RootOf, Field, ToMap;
    AddNode(st, x, node, nmap);
    var st1 := st.(maps := st.maps[x := node]);
    NodeBeside(st, x, node, prev, dualbuf);
    IsNodeAddress(st, x);
    LinkedToRelinks(st1, prev, x, dualbuf);
    assert forall s :: Exists(st, s) ==> Exists(st1, s) && s != MapSlot(x);
    assert Exists(st1, MapSlot(x));
  }

  lemma {:induction false} HookStoreHooks(st: Store, prev: Slot, x: nat, node: MapNode, dualbuf: nat, nmap: nat,
                                          pgX: nat, pgNext: nat)
    requires AddressesOk(st) && DualsOk(st) && Exists(st, prev) && Fresh(st, x) && x != dualbuf
    requires DualReady(st, dualbuf, NeedsDual(st, prev))
    requires node.next == ToMap(nmap) && nmap < W64 && nmap % 4 == 0 && node.back == SetBacklink(prev, pgX)
    requires nmap != 0 ==> nmap in st.maps && st.maps[nmap].back == SetBacklink(prev, pgNext) && IsEntry(pgNext)
    ensures var st' := HookStore(st, prev, x, node, dualbuf, nmap);
            && AddressesOk(st') && DualsOk(st') && Hooked(st, st', prev, x, nmap, pgX, pgNext)
            && st'.duals.Keys == st.duals.Keys + (if NeedsDual(st, prev) then {dualbuf} else {})
            && (forall n :: n in st.maps ==>
                st'.maps[n] == st.maps[n].(next := st'.maps[n].next, back := st'.maps[n].back))
            && st'.maps[x] == node.(next := st'.maps[x].next)
  {
    hide AddressesOk, DualsOk, LinkedTo, SetBacklink, GetPgent, MapOf, RootOf, Field, ToMap, GetPrev, HalfHooked,
      Hooked;
    HookHalfway(st, prev, x, node, dualbuf, nmap);
    var st2 := LinkedTo(st.(maps := st.maps[x := node]), prev, x, dualbuf);
    if nmap != 0 {
      SlotAddress(st, prev);
      BacklinkDecodes(prev, pgNext);
      HalfHookedBack(st, st2, prev, x, nmap, node);
    }
    FinishHook(st, st2, prev, x, nmap, node, pgX, pgNext);
  }

  lemma {:induction false} HalfHookedBack(st: Store, st2: Store, prev: Slot, x: nat, nmap: nat, node: MapNode)
    requires HalfHooked(st, st2, prev, x, nmap, node) && nmap in st.maps
    ensures nmap in st2.maps && st2.maps[nmap].back == st.maps[nmap].back
  {
  }

  lemma {:induction false} FinishHook(st: Store, st2: Store, prev: Slot, x: nat, nmap: nat, node: MapNode, pgX: nat,
                                      pgNext: nat)
    requires HalfHooked(st, st2, prev, x, nmap, node) && AddressesOk(st2) && DualsOk(st2) && Exists(st, prev)
    requires node.back == SetBacklink(prev, pgX) && (nmap != 0 ==> nmap in st.maps)
    ensures var st' := if nmap != 0 then WithBack(st2, nmap, SetBacklink(MapSlot(x), pgNext)) else st2;
            && AddressesOk(st') && DualsOk(st') && Hooked(st, st', prev, x, nmap, pgX, pgNext) && st'.duals == st2.duals
            && (forall n :: n in st.maps ==>
                st'.maps[n] == st.maps[n].(next := st'.maps[n].next, back := st'.maps[n].back))
            && st'.maps[x] == node.(next := st'.maps[x].next)
  {
    hide AddressesOk, DualsOk, SetBacklink, MapOf, RootOf, Field;
    var st' := if nmap != 0 then WithBack(st2, nmap, SetBacklink(MapSlot(x), pgNext)) else st2;
    SameLinks(st2, st');
    assert forall s :: Exists(st, s) ==> Exists(st2, s) && Exists(st', s);
    assert Exists(st', MapSlot(x)) && Exists(st', prev);
  }

  lemma {:induction false} IsNodeAddress(st: Store, x: nat)
    requires Fresh(st, x)
    ensures x < W64 && x % 4 == 0
  {
  }

  lemma {:induction false} SlotAddress(st: Store, s: Slot)
    requires AddressesOk(st) && Exists(st, s)
    ensures s.addr < W64 && s.addr % 2 == 0
  {
  }

  /** The store after taking `x` out. */
  function UnhookStore(st: Store, prev: Slot, x: nat, nmap: nat): Store
    requires Exists(st, prev)
  {
    var st1 := UnlinkedTo(st, prev, nmap);
    var st2 := st1.(maps := st1.maps - {x});
    if nmap != 0 && nmap in st2.maps
    then WithBack(st2, nmap, SetBacklink(prev, GetPgent(st2.maps[nmap].back, x)))
    else st2
  }

  lemma {:induction false} UnhookStoreUnhooks(st: Store, prev: Slot, x: nat, nmap: nat, pgNext: nat)
    requires AddressesOk(st) && DualsOk(st) && Exists(st, prev) && Field(st, prev).isMap && x in st.maps
    requires prev != MapSlot(x) && RootOf(st, MapSlot(x)) == 0
    requires nmap < W64 && nmap % 4 == 0 && nmap != x
    requires nmap != 0 ==> nmap in st.maps && st.maps[nmap].back == SetBacklink(MapSlot(x), pgNext) && IsEntry(pgNext)
    ensures var st' := UnhookStore(st, prev, x, nmap);
            && AddressesOk(st') && DualsOk(st') && Unhooked(st, st', prev, x, nmap, pgNext)
            && LeftOver(st, prev, nmap) <= st.duals.Keys && st'.duals.Keys == st.duals.Keys - LeftOver(st, prev, nmap)
            && (forall n :: n in st'.maps ==>
                st'.maps[n] == st.maps[n].(next := st'.maps[n].next, back := st'.maps[n].back))
  {
    hide AddressesOk, DualsOk, UnlinkedTo, SetBacklink, GetPgent, MapOf, RootOf, Field, GetPrev, Relinked, Unhooked,
      LeftOver;
    UnlinkedToRelinks(st, prev, nmap);
    var st1 := UnlinkedTo(st, prev, nmap);
    if nmap != 0 {
      SlotAddress(st, MapSlot(x));
      BacklinkDecodes(MapSlot(x), pgNext);
      RelinkedBack(st, st1, prev, nmap, nmap);
    }
    RelinkedKeys(st, st1, prev, nmap);
    FinishUnhook(st, st1, prev, x, nmap, pgNext);
  }

  lemma {:induction false} NoArrayNoRoot(st: Store, x: nat)
    requires DualsOk(st) && x in st.maps && RootOf(st, MapSlot(x)) == 0
    ensures !st.maps[x].next.isRoot
  {
    assert DualOk(st, MapSlot(x));
  }

  lemma {:induction false} RelinkedBack(st: Store, st1: Store, prev: Slot, next: nat, n: nat)
    requires Relinked(st, st1, prev, next) && n in st.maps
    ensures n in st1.maps && st1.maps[n].back == st.maps[n].back
  {
    hide MapOf, RootOf;
  }

  lemma {:induction false} RelinkedKeys(st: Store, st1: Store, prev: Slot, next: nat)
    requires Relinked(st, st1, prev, next)
    ensures st1.maps.Keys == st.maps.Keys && st1.roots.Keys == st.roots.Keys
  {
  }

  /** Dropping the node and fixing the next backlink completes a removal. */
  lemma {:induction false} FinishUnhook(st: Store, st1: Store, prev: Slot, x: nat, nmap: nat, pgNext: nat)
    requires AddressesOk(st1) && DualsOk(st1) && Relinked(st, st1, prev, nmap) && Exists(st, prev) && x in st.maps
    requires RootOf(st, MapSlot(x)) == 0
    requires prev != MapSlot(x) && nmap != x && (nmap != 0 ==> nmap in st.maps)
    ensures var st2 := st1.(maps := st1.maps - {x});
            var st' := if nmap != 0 then WithBack(st2, nmap, SetBacklink(prev, pgNext)) else st2;
            && AddressesOk(st') && DualsOk(st') && Unhooked(st, st', prev, x, nmap, pgNext) && st'.duals == st1.duals
            && (forall n :: n in st'.maps ==>
                st'.maps[n] == st.maps[n].(next := st'.maps[n].next, back := st'.maps[n].back))
  {
    hide AddressesOk, DualsOk, SetBacklink, MapOf, RootOf, Field, NodesListed, DualsHeld;
    var st2 := st1.(maps := st1.maps - {x});
    var st' := if nmap != 0 then WithBack(st2, nmap, SetBacklink(prev, pgNext)) else st2;
    NodeDropped(st, st1, prev, x, nmap);
    NoArrayNoRoot(st1, x);
    SameLinks(st1, st');
    assert Exists(st', prev) && forall s :: Exists(st', s) ==> Exists(st1, s) && Exists(st, s);
  }

  lemma {:induction false} NodeDropped(st: Store, st1: Store, prev: Slot, x: nat, nmap: nat)
    requires Relinked(st, st1, prev, nmap) && x in st.maps && RootOf(st, MapSlot(x)) == 0
    ensures st1.maps.Keys == st.maps.Keys && RootOf(st1, MapSlot(x)) == 0
  {
    hide MapOf, RootOf;
    assert Exists(st, MapSlot(x));
  }

  /* ---------- attaching an array ---------- */

  function Heads(addrs: set<nat>): set<Slot> { set a | a in addrs :: RootSlot(a) }

  lemma {:induction false} HeadsAre(addrs: set<nat>)
    ensures forall s: Slot :: s in Heads(addrs) <==> s.RootSlot? && s.addr in addrs
  {
    forall s: Slot | s.RootSlot? && s.addr in addrs ensures s in Heads(addrs) { assert s == RootSlot(s.addr); }
  }

  function AttachShape(sh: Shape, addrs: set<nat>, p: Level): Shape {
    sh.(chains := sh.chains + (map s | s in Heads(addrs) :: []), level := sh.level + (map s | s in Heads(addrs) :: p))
  }

  lemma {:induction false} AttachShapeIs(sh: Shape, addrs: set<nat>, p: Level)
    requires sh.level.Keys == sh.chains.Keys && forall a :: a in addrs ==> RootSlot(a) !in sh.chains
    ensures var sh' := AttachShape(sh, addrs, p);
            && sh'.pg == sh.pg && sh'.level.Keys == sh'.chains.Keys
            && (forall g: Slot :: g in sh'.chains <==> g in sh.chains || (g.RootSlot? && g.addr in addrs))
            && (forall g :: g in sh.chains ==> sh'.chains[g] == sh.chains[g] && sh'.level[g] == sh.level[g])
            && (forall g :: g in sh'.chains && g !in sh.chains ==> sh'.chains[g] == [] && sh'.level[g] == p)
  {
    HeadsAre(addrs);
    hide Heads;
    assert forall g :: g in sh.chains ==> g !in Heads(addrs);
  }

  predicate FreshBlock(st: Store, addrs: set<nat>) {
    forall a :: a in addrs ==> Fresh(st, a)
  }

  function EmptyRoots(addrs: set<nat>): map<nat, Next> { map a | a in addrs :: ToMap(0) }

  /** `mdb_create_roots` and the fixup of the slot above. */
  function AttachStore(st: Store, s: Slot, base: nat, addrs: set<nat>, dualbuf: nat): Store
    requires Exists(st, s)
  {
    var nmap := MapOf(st, s);
    var st1 := st.(roots := st.roots + EmptyRoots(addrs));
    if nmap != 0 then WithField(st1.(duals := st1.duals[dualbuf := Dual(nmap, base)]), s, ToDual(dualbuf))
    else WithField(st1, s, ToRoot(base))
  }

  /** Attaching an array changes no mapping and no other slot's array, and adds empty root nodes. */
  ghost predicate Attached(st: Store, st': Store, s: Slot, base: nat, addrs: set<nat>) {
    && st'.maps.Keys == st.maps.Keys && st'.roots.Keys == st.roots.Keys + addrs
    && RootOf(st', s) == base
    && (forall t :: Exists(st, t) ==> MapOf(st', t) == MapOf(st, t))
    && (forall t :: Exists(st, t) && t != s ==> RootOf(st', t) == RootOf(st, t))
    && (forall a :: a in addrs ==> a !in st.roots && MapOf(st', RootSlot(a)) == 0 && RootOf(st', RootSlot(a)) == 0)
    && (forall m :: m in st.maps ==> st'.maps[m] == st.maps[m].(next := st'.maps[m].next))
  }

  /** The fields of the slots after attaching. */
  ghost predicate AttachedFields(st: Store, st': Store, s: Slot, n: Next, addrs: set<nat>)
    requires Exists(st, s)
  {
    && st'.maps.Keys == st.maps.Keys && st'.roots.Keys == st.roots.Keys + addrs
    && (forall a :: a in addrs ==> a !in st.roots && Field(st', RootSlot(a)) == ToMap(0))
    && (forall t :: Exists(st, t) ==> Field(st', t) == if t == s then n else Field(st, t))
    && (forall m :: m in st.maps ==> st'.maps[m] == st.maps[m].(next := st'.maps[m].next))
  }

  lemma {:induction false} AttachFields(st: Store, s: Slot, base: nat, addrs: set<nat>, dualbuf: nat)
    requires Exists(st, s) && FreshBlock(st, addrs)
    ensures var st' := AttachStore(st, s, base, addrs, dualbuf); var nmap := MapOf(st, s);
            && AttachedFields(st, st', s, if nmap != 0 then ToDual(dualbuf) else ToRoot(base), addrs)
            && st'.duals == (if nmap != 0 then st.duals[dualbuf := Dual(nmap, base)] else st.duals)
  {
    hide MapOf, ToDual, ToRoot, ToMap;
    assert forall a :: a in addrs ==> Fresh(st, a);
  }

  lemma {:induction false} AttachAttaches(st: Store, s: Slot, base: nat, addrs: set<nat>, dualbuf: nat)
    requires AddressesOk(st) && DualsOk(st) && Exists(st, s) && RootOf(st, s) == 0
    requires FreshBlock(st, addrs) && IsNode(base) && DualReady(st, dualbuf, MapOf(st, s) != 0)
    ensures var st' := AttachStore(st, s, base, addrs, dualbuf);
            && AddressesOk(st') && DualsOk(st') && Attached(st, st', s, base, addrs)
            && st'.duals.Keys == st.duals.Keys + (if MapOf(st, s) != 0 then {dualbuf} else {})
  {
    hide Target, AttachStore, MapOf, RootOf, Field, DualOk, DualsApart;
    var st' := AttachStore(st, s, base, addrs, dualbuf);
    AttachFields(st, s, base, addrs, dualbuf);
    assert forall a :: a in addrs ==> Fresh(st, a);
    forall t | Exists(st, t)
      ensures DualOk(st', t) && MapOf(st', t) == MapOf(st, t) && RootOf(st', t) == if t == s then base
        else RootOf(st, t)
    {
      AttachOld(st, st', s, base, addrs, dualbuf, t);
    }
    forall a | a in addrs
      ensures DualOk(st', RootSlot(a)) && MapOf(st', RootSlot(a)) == 0 && RootOf(st', RootSlot(a)) == 0
    {
      AttachNew(st, st', s, base, addrs, dualbuf, a);
    }
    forall t, u | Exists(st', t) && Exists(st', u) ensures DualsApart(st', t, u) {
      AttachApart(st, st', s, base, addrs, dualbuf, t, u);
    }
    assert forall t :: Exists(st', t) ==> Exists(st, t) || (t.RootSlot? && t.addr in addrs);
    AttachHeld(st, st', s, base, addrs, dualbuf);
  }

  lemma {:induction false} AttachHeld(st: Store, st': Store, s: Slot, base: nat, addrs: set<nat>, dualbuf: nat)
    requires AttachedFor(st, st', s, base, addrs, dualbuf)
    ensures DualsHeld(st')
  {
    hide Target, MapOf;
    TargetDecodes(dualbuf);
    assert DualOk(st, s);
    forall d | d in st'.duals ensures exists t :: LeadsToDual(st', t, d) {
      if MapOf(st, s) != 0 && d == dualbuf {
        assert LeadsToDual(st', s, d);
      } else {
        var t :| LeadsToDual(st, t, d);
        assert LeadsToDual(st', t, d);
      }
    }
  }

  ghost predicate AttachedFor(st: Store, st': Store, s: Slot, base: nat, addrs: set<nat>, dualbuf: nat) {
    && DualsOk(st) && Exists(st, s) && RootOf(st, s) == 0 && IsNode(base) && DualReady(st, dualbuf, MapOf(st, s) != 0)
    && AttachedFields(st, st', s, if MapOf(st, s) != 0 then ToDual(dualbuf) else ToRoot(base), addrs)
    && st'.duals == (if MapOf(st, s) != 0 then st.duals[dualbuf := Dual(MapOf(st, s), base)] else st.duals)
  }

  lemma {:induction false} AttachOld(st: Store, st': Store, s: Slot, base: nat, addrs: set<nat>, dualbuf: nat, t: Slot)
    requires AttachedFor(st, st', s, base, addrs, dualbuf) && Exists(st, t)
    ensures Exists(st', t) && DualOk(st', t)
    ensures MapOf(st', t) == MapOf(st, t) && RootOf(st', t) == if t == s then base else RootOf(st, t)
  {
    hide Target, NodesListed, DualsHeld;
    TargetDecodes(dualbuf);
    TargetDecodes(base);
    assert DualOk(st, t) && DualOk(st, s);
  }

  lemma {:induction false} AttachNew(st: Store, st': Store, s: Slot, base: nat, addrs: set<nat>, dualbuf: nat, a: nat)
    requires AttachedFor(st, st', s, base, addrs, dualbuf) && a in addrs
    ensures Exists(st', RootSlot(a)) && DualOk(st', RootSlot(a))
    ensures MapOf(st', RootSlot(a)) == 0 && RootOf(st', RootSlot(a)) == 0
  {
    hide Target;
    TargetDecodes(0);
  }

  lemma {:induction false} AttachApart(st: Store, st': Store, s: Slot, base: nat, addrs: set<nat>, dualbuf: nat,
                                       t: Slot, u: Slot)
    requires AttachedFor(st, st', s, base, addrs, dualbuf) && Exists(st', t) && Exists(st', u)
    ensures DualsApart(st', t, u)
  {
    hide Target, MapOf, RootOf, AttachedFields;
    TargetDecodes(dualbuf);
    AttachedField(st, st', s, base, addrs, dualbuf, t);
    AttachedField(st, st', s, base, addrs, dualbuf, u);
    if Exists(st, t) && Exists(st, u) {
      assert DualsApart(st, t, u) && DualOk(st, t) && DualOk(st, u);
    }
  }

  lemma {:induction false} AttachedField(st: Store, st': Store, s: Slot, base: nat, addrs: set<nat>, dualbuf: nat,
                                         t: Slot)
    requires AttachedFor(st, st', s, base, addrs, dualbuf) && Exists(st', t)
    ensures !Exists(st, t) ==> Field(st', t) == ToMap(0)
    ensures Exists(st, t) && t != s ==> Field(st', t) == Field(st, t)
    ensures t == s ==> Field(st', t) == if MapOf(st, s) != 0 then ToDual(dualbuf) else ToRoot(base)
  {
    hide Target, MapOf, RootOf, ToMap, ToDual, ToRoot;
  }

  lemma {:induction false} AttachKeepsInv(st: Store, st': Store, sh: Shape, pgshifts: seq<nat>, h: Slot, i: nat,
                                          base: nat, p: Level)
    requires Inv(st, sh) && ArraysOk(st, sh, pgshifts) && h in sh.chains && i <= |sh.chains[h]| && h in sh.level
    requires var addrs := ArrayAddrs(base, ArraySize(pgshifts, p.size));
             AddressesOk(st') && DualsOk(st') && Attached(st, st', At(h, sh.chains[h], i), base, addrs)
    requires sh.level[h].size == p.size + 1 && p.depth == Below(st, sh.level[h], At(h, sh.chains[h], i))
    ensures var sh' := AttachShape(sh, ArrayAddrs(base, ArraySize(pgshifts, p.size)), p);
            Inv(st', sh') && ArraysOk(st', sh', pgshifts)
  {
    hide AddressesOk, DualsOk, LinksOk, ListsOk, EntriesOk, Attached, ArraysOk, AttachShape, ArrayAddrs;
    var addrs := ArrayAddrs(base, ArraySize(pgshifts, p.size));
    var sh' := AttachShape(sh, addrs, p);
    AttachLists(st, st', sh, h, i, base, addrs, p);
    forall g, j | g in sh'.chains && 0 <= j <= |sh'.chains[g]|
      ensures Linked(st', sh', g, j) && g in sh'.level && ArrayOk(st', sh', pgshifts, g, j)
    {
      if g in sh.chains {
        AttachLinked(st, st', sh, h, i, base, addrs, p, g, j);
        AttachArrays(st, st', sh, sh', pgshifts, h, i, base, p, g, j);
      } else {
        AttachNewHead(st, st', sh, pgshifts, h, i, base, addrs, p, g, j);
      }
    }
    AttachConclude(st', sh', pgshifts);
  }

  lemma {:induction false} AttachConclude(st: Store, sh: Shape, pgshifts: seq<nat>)
    requires forall g, j :: g in sh.chains && 0 <= j <= |sh.chains[g]| ==>
               Linked(st, sh, g, j) && g in sh.level && ArrayOk(st, sh, pgshifts, g, j)
    ensures LinksOk(st, sh) && ArraysOk(st, sh, pgshifts)
  {
  }

  lemma {:induction false} AttachLists(st: Store, st': Store, sh: Shape, h: Slot, i: nat, base: nat, addrs: set<nat>,
                                       p: Level)
    requires Inv(st, sh) && h in sh.chains && i <= |sh.chains[h]|
    requires Attached(st, st', At(h, sh.chains[h], i), base, addrs)
    ensures var sh' := AttachShape(sh, addrs, p);
            && ListsOk(st', sh') && EntriesOk(sh')
            && (forall g :: g in sh.chains ==> g in sh'.chains && sh'.chains[g] == sh.chains[g])
            && (forall g :: g in sh.level ==> g in sh'.level && sh'.level[g] == sh.level[g])
            && (forall a :: a in addrs ==>
                RootSlot(a) in sh'.chains && RootSlot(a) in sh'.level && sh'.level[RootSlot(a)] == p)
  {
    hide Inv, HeadsOk, MembersOk, ListsApart, AttachShape, Attached, NodesListed;
    InvParts(st, sh);
    var sh' := AttachShape(sh, addrs, p);
    AttachHeads(st, st', sh, At(h, sh.chains[h], i), base, addrs, p);
    AttachMembers(st, st', sh, sh', addrs);
    AttachApartLists(sh, sh');
    ListedKept(st, st', sh, sh');
  }

  lemma {:induction false} InvParts(st: Store, sh: Shape)
    requires Inv(st, sh)
    ensures HeadsOk(st, sh) && MembersOk(st, sh) && ListsApart(sh) && EntriesOk(sh) && NodesListed(st, sh)
  {
  }

  /** Lists that only grow in number keep listing the nodes. */
  lemma {:induction false} ListedKept(st: Store, st': Store, sh: Shape, sh': Shape)
    requires NodesListed(st, sh) && st'.maps.Keys == st.maps.Keys
    requires forall g :: g in sh.chains ==> g in sh'.chains && sh'.chains[g] == sh.chains[g]
    ensures NodesListed(st', sh')
  {
    forall n | n in st'.maps && MapSlot(n) !in sh'.chains ensures exists g :: InList(sh', g, n) {
      var g :| InList(sh, g, n);
      assert InList(sh', g, n);
    }
  }

  lemma {:induction false} AttachHeads(st: Store, st': Store, sh: Shape, s: Slot, base: nat, addrs: set<nat>, p: Level)
    requires HeadsOk(st, sh) && EntriesOk(sh) && Attached(st, st', s, base, addrs)
    ensures var sh' := AttachShape(sh, addrs, p);
            && HeadsOk(st', sh') && EntriesOk(sh') && sh'.pg == sh.pg && st'.maps.Keys == st.maps.Keys
            && (forall g :: g in sh.chains ==> g in sh'.chains && sh'.chains[g] == sh.chains[g])
            && (forall g :: g in sh'.chains ==> g in sh.chains || g.RootSlot?)
            && (forall g :: g in sh'.chains ==> sh'.chains[g] == if g in sh.chains then sh.chains[g] else [])
            && (forall g :: g in sh.level ==> g in sh'.level && sh'.level[g] == sh.level[g])
            && (forall a :: a in addrs ==>
                RootSlot(a) in sh'.chains && RootSlot(a) in sh'.level && sh'.level[RootSlot(a)] == p)
  {
    hide AttachShape, Attached, HeadsOk, EntriesOk;
    NewRoots(st, st', sh, s, base, addrs);
    AttachShapeIs(sh, addrs, p);
    EntriesSame(sh, AttachShape(sh, addrs, p));
    HeadsGrown(st, st', sh, AttachShape(sh, addrs, p), addrs);
  }

  lemma {:induction false} NewRoots(st: Store, st': Store, sh: Shape, s: Slot, base: nat, addrs: set<nat>)
    requires HeadsOk(st, sh) && Attached(st, st', s, base, addrs)
    ensures st'.maps.Keys == st.maps.Keys && st'.roots.Keys == st.roots.Keys + addrs && sh.level.Keys == sh.chains.Keys
    ensures forall a :: a in addrs ==> RootSlot(a) !in sh.chains
  {
    hide MapOf, RootOf;
    assert forall a :: a in addrs ==> !Exists(st, RootSlot(a));
  }

  lemma {:induction false} HeadsGrown(st: Store, st': Store, sh: Shape, sh': Shape, addrs: set<nat>)
    requires HeadsOk(st, sh) && st'.maps.Keys == st.maps.Keys && st'.roots.Keys == st.roots.Keys + addrs
    requires sh'.level.Keys == sh'.chains.Keys
    requires forall g: Slot :: g in sh'.chains <==> g in sh.chains || (g.RootSlot? && g.addr in addrs)
    ensures HeadsOk(st', sh')
  {
  }

  lemma {:induction false} EntriesSame(sh: Shape, sh': Shape)
    requires EntriesOk(sh) && sh'.pg == sh.pg
    ensures EntriesOk(sh')
  {
  }

  lemma {:induction false} AttachMembers(st: Store, st': Store, sh: Shape, sh': Shape, addrs: set<nat>)
    requires MembersOk(st, sh) && st'.maps.Keys == st.maps.Keys && sh'.pg == sh.pg
    requires forall g :: g in sh'.chains ==> g in sh.chains || g.RootSlot?
    requires forall g :: g in sh'.chains ==> sh'.chains[g] == if g in sh.chains then sh.chains[g] else []
    ensures MembersOk(st', sh')
  {
  }

  lemma {:induction false} AttachApartLists(sh: Shape, sh': Shape)
    requires ListsApart(sh)
    requires forall g :: g in sh'.chains ==> sh'.chains[g] == if g in sh.chains then sh.chains[g] else []
    ensures ListsApart(sh')
  {
  }

  lemma {:induction false} AttachLinked(st: Store, st': Store, sh: Shape, h: Slot, i: nat, base: nat, addrs: set<nat>,
                                        p: Level, g: Slot, j: nat)
    requires Inv(st, sh) && h in sh.chains && i <= |sh.chains[h]|
    requires Attached(st, st', At(h, sh.chains[h], i), base, addrs)
    requires g in sh.chains && j <= |sh.chains[g]|
    requires var sh' := AttachShape(sh, addrs, p); g in sh'.chains && sh'.chains[g] == sh.chains[g]
    ensures Linked(st', AttachShape(sh, addrs, p), g, j)
  {
    HookHere(st, sh, g, j);
    HookSlotExists(st, sh, g, j);
  }

  lemma {:induction false} AttachArrays(st: Store, st': Store, sh: Shape, sh': Shape, pgshifts: seq<nat>, h: Slot,
                                        i: nat, base: nat, p: Level, g: Slot, j: nat)
    requires Inv(st, sh) && ArraysOk(st, sh, pgshifts) && h in sh.chains && i <= |sh.chains[h]| && h in sh.level
    requires sh.level[h].size == p.size + 1
    requires p.depth == Below(st, sh.level[h], At(h, sh.chains[h], i))
    requires Attached(st, st', At(h, sh.chains[h], i), base, ArrayAddrs(base, ArraySize(pgshifts, p.size)))
    requires g in sh.chains && j <= |sh.chains[g]|
    requires sh.chains.Keys <= sh'.chains.Keys && sh'.chains[g] == sh.chains[g]
    requires forall s :: s in sh.level ==> s in sh'.level && sh'.level[s] == sh.level[s]
    requires forall a :: a in ArrayAddrs(base, ArraySize(pgshifts, p.size)) ==>
               RootSlot(a) in sh'.chains && RootSlot(a) in sh'.level && sh'.level[RootSlot(a)] == p
    ensures g in sh'.level && ArrayOk(st', sh', pgshifts, g, j)
  {
    hide ArrayAddrs, AddressesOk, DualsOk, LinksOk, EntriesOk, ListsOk, ArraySize, MapOf, RootOf, Below, ArraysOk,
      Attached,
      ArrayOk;
    HookSlotExists(st, sh, g, j);
    LevelKeys(st, sh);
    if g == h && j == i {
      AttachedHere(st, st', sh, sh', pgshifts, h, i, base, p);
    } else {
      HookElsewhere(st, sh, h, i, g, j);
      AttachedElsewhere(st, st', At(h, sh.chains[h], i), base, ArrayAddrs(base, ArraySize(pgshifts, p.size)),
                        At(g, sh.chains[g], j));
      ArraysAt(st, sh, pgshifts, g, j);
      ArrayKept(st, sh, st', sh', pgshifts, g, j, j);
    }
  }

  lemma {:induction false} AttachedHere(st: Store, st': Store, sh: Shape, sh': Shape, pgshifts: seq<nat>, h: Slot,
                                        i: nat, base: nat, p: Level)
    requires h in sh.chains && i <= |sh.chains[h]| && h in sh.level && sh.level[h].size == p.size + 1
    requires p.depth == Below(st, sh.level[h], At(h, sh.chains[h], i))
    requires Attached(st, st', At(h, sh.chains[h], i), base, ArrayAddrs(base, ArraySize(pgshifts, p.size)))
    requires h in sh'.chains && sh'.chains[h] == sh.chains[h] && h in sh'.level && sh'.level[h] == sh.level[h]
    requires forall a :: a in ArrayAddrs(base, ArraySize(pgshifts, p.size)) ==>
               RootSlot(a) in sh'.chains && RootSlot(a) in sh'.level && sh'.level[RootSlot(a)] == p
    ensures ArrayOk(st', sh', pgshifts, h, i)
  {
    hide ArrayAddrs, ArraySize, MapOf, RootOf;
  }

  lemma {:induction false} AttachedElsewhere(st: Store, st': Store, s: Slot, base: nat, addrs: set<nat>, t: Slot)
    requires Attached(st, st', s, base, addrs) && Exists(st, t) && t != s
    ensures Exists(st', t) && RootOf(st', t) == RootOf(st, t) && DepthsKept(st, st')
  {
    hide MapOf, RootOf;
  }

  lemma {:induction false} AttachNewHead(st: Store, st': Store, sh: Shape, pgshifts: seq<nat>, h: Slot, i: nat,
                                         base: nat, addrs: set<nat>, p: Level, g: Slot, j: nat)
    requires h in sh.chains && i <= |sh.chains[h]|
    requires Attached(st, st', At(h, sh.chains[h], i), base, addrs)
    requires g !in sh.chains && var sh' := AttachShape(sh, addrs, p); g in sh'.chains && j <= |sh'.chains[g]|
    ensures var sh' := AttachShape(sh, addrs, p);
            Linked(st', sh', g, j) && g in sh'.level && ArrayOk(st', sh', pgshifts, g, j)
  {
    HeadsAre(addrs);
  }

  /** What the invariant says at the position of an insertion. */
  lemma {:induction false} HookPosition(st: Store, sh: Shape, h: Slot, i: nat, prev: Slot)
    requires Inv(st, sh) && h in sh.chains && i <= |sh.chains[h]| && prev == At(h, sh.chains[h], i)
    ensures AddressesOk(st) && DualsOk(st) && Exists(st, prev)
    ensures var nmap := MapOf(st, prev);
            && nmap == (if i < |sh.chains[h]| then sh.chains[h][i] else 0)
            && nmap < W64 && nmap % 4 == 0
            && (nmap != 0 ==> nmap in st.maps && nmap in sh.pg && IsEntry(sh.pg[nmap])
                              && st.maps[nmap].back == SetBacklink(prev, sh.pg[nmap]))
  {
    HookHere(st, sh, h, i);
    HookSlotExists(st, sh, h, i);
  }

  /** In every reachable state a node's backlink decodes, given its page-table entry, to its
      predecessor in its list, and given that predecessor to its page-table entry. */
  lemma {:induction false} BacklinksDecode(st: Store, sh: Shape, h: Slot, i: nat)
    requires Inv(st, sh) && h in sh.chains && i < |sh.chains[h]|
    ensures var n := sh.chains[h][i]; var prev := At(h, sh.chains[h], i);
            && GetPrev(st.maps[n].back, sh.pg[n]) == prev
            && GetPgent(st.maps[n].back, prev.addr) == sh.pg[n]
            && MapOf(st, prev) == n
  {
    hide Inv, SetBacklink, GetPrev, GetPgent;
    var n, prev := sh.chains[h][i], At(h, sh.chains[h], i);
    HookHere(st, sh, h, i);
    HookPosition(st, sh, h, i, prev);
    SlotAddress(st, prev);
    BacklinkDecodes(prev, sh.pg[n]);
  }

  lemma {:induction false} HookDone(st: Store, st': Store, sh: Shape, pgshifts: seq<nat>, h: Slot, i: nat, x: nat,
                                    pgX: nat)
    requires Inv(st, sh) && ArraysOk(st, sh, pgshifts) && h in sh.chains && i <= |sh.chains[h]|
    requires AddressesOk(st') && DualsOk(st') && IsEntry(pgX) && pgX !in sh.pg.Values && MapSlot(x) !in sh.chains
    requires x !in sh.pg
    requires HookedAt(st, st', sh, h, i, x, pgX) && DepthsKept(st, st')
    ensures Inv(st', HookShape(sh, h, i, x, pgX)) && ArraysOk(st', HookShape(sh, h, i, x, pgX), pgshifts)
  {
    hide Inv, ArraysOk;
    HookKeepsInv(st, st', sh, h, i, x, pgX);
    HookKeepsArrays(st, st', sh, pgshifts, h, i, x, pgX);
  }

  /** Hooking in a node at position `i`, as a whole. */
  lemma {:induction false} HookWhole(st: Store, sh: Shape, pgshifts: seq<nat>, h: Slot, i: nat, prev: Slot, x: nat,
                                     node: MapNode, dualbuf: nat, pgX: nat)
    requires Inv(st, sh) && ArraysOk(st, sh, pgshifts) && h in sh.chains && i <= |sh.chains[h]|
    requires prev == At(h, sh.chains[h], i)
    requires Fresh(st, x) && x != dualbuf && x !in sh.pg && MapSlot(x) !in sh.chains
    requires DualReady(st, dualbuf, NeedsDual(st, prev))
    requires IsEntry(pgX) && pgX !in sh.pg.Values
    requires node.back == SetBacklink(prev, pgX) && node.next == ToMap(MapOf(st, prev))
    ensures Exists(st, prev)
    ensures var st' := HookStore(st, prev, x, node, dualbuf, MapOf(st, prev));
            && Inv(st', HookShape(sh, h, i, x, pgX)) && ArraysOk(st', HookShape(sh, h, i, x, pgX), pgshifts)
            && x in st'.maps && st'.maps.Keys == st.maps.Keys + {x} && st'.roots.Keys == st.roots.Keys
            && st'.duals.Keys == st.duals.Keys + (if NeedsDual(st, prev) then {dualbuf} else {})
            && st'.maps[x] == node.(next := st'.maps[x].next)
            && (forall n :: n in st.maps ==>
                st'.maps[n] == st.maps[n].(next := st'.maps[n].next, back := st'.maps[n].back))
            && (forall s :: Exists(st, s) ==> RootOf(st', s) == RootOf(st, s)) && RootOf(st', MapSlot(x)) == 0
  {
    hide Inv, ArraysOk, AddressesOk, DualsOk, HookStore, Field, RootOf, MapOf, SetBacklink, HookShape;
    HookPosition(st, sh, h, i, prev);
    var nmap := MapOf(st, prev);
    HookStoreHooks(st, prev, x, node, dualbuf, nmap, pgX, if nmap in sh.pg then sh.pg[nmap] else 0);
    HookDone(st, HookStore(st, prev, x, node, dualbuf, nmap), sh, pgshifts, h, i, x, pgX);
  }

  lemma {:induction false} UnhookPosition(st: Store, sh: Shape, h: Slot, i: nat, prev: Slot)
    requires Inv(st, sh) && h in sh.chains && i < |sh.chains[h]| && prev == At(h, sh.chains[h], i)
    ensures AddressesOk(st) && DualsOk(st) && Exists(st, prev) && Field(st, prev).isMap
    ensures prev != MapSlot(sh.chains[h][i])
    ensures sh.chains[h][i] in st.maps
    ensures var x := sh.chains[h][i]; var nmap := MapOf(st, MapSlot(x));
            && nmap == (if i + 1 < |sh.chains[h]| then sh.chains[h][i + 1] else 0)
            && nmap < W64 && nmap % 4 == 0 && nmap != x
            && (nmap != 0 ==> nmap in st.maps && nmap in sh.pg && IsEntry(sh.pg[nmap])
                              && st.maps[nmap].back == SetBacklink(MapSlot(x), sh.pg[nmap]))
  {
    HookHere(st, sh, h, i);
    HookHere(st, sh, h, i + 1);
    HookSlotExists(st, sh, h, i);
    UnhookElsewhere(st, sh, h, i, h, i);
    if i + 1 < |sh.chains[h]| { UnhookNext(st, sh, h, i); }
  }

  lemma {:induction false} UnhookDone(st: Store, st': Store, sh: Shape, pgshifts: seq<nat>, h: Slot, i: nat)
    requires Inv(st, sh) && ArraysOk(st, sh, pgshifts) && h in sh.chains && i < |sh.chains[h]|
    requires AddressesOk(st') && DualsOk(st') && UnhookedAt(st, st', sh, h, i) && DepthsKept(st, st')
    ensures Inv(st', UnhookShape(sh, h, i)) && ArraysOk(st', UnhookShape(sh, h, i), pgshifts)
  {
    hide ArraysOk;
    UnhookKeepsInv(st, st', sh, h, i);
    UnhookKeepsArrays(st, st', sh, pgshifts, h, i);
  }

  /** Taking out the node at position `i`, as a whole. */
  lemma {:induction false} UnhookWhole(st: Store, sh: Shape, pgshifts: seq<nat>, h: Slot, i: nat, prev: Slot)
    requires Inv(st, sh) && ArraysOk(st, sh, pgshifts) && h in sh.chains && i < |sh.chains[h]|
    requires prev == At(h, sh.chains[h], i) && RootOf(st, MapSlot(sh.chains[h][i])) == 0
    ensures Exists(st, prev) && Field(st, prev).isMap && DualOk(st, prev) && sh.chains[h][i] in st.maps
    ensures var x := sh.chains[h][i]; var nmap := MapOf(st, MapSlot(x)); var st' := UnhookStore(st, prev, x, nmap);
            && Inv(st', UnhookShape(sh, h, i)) && ArraysOk(st', UnhookShape(sh, h, i), pgshifts)
            && st'.maps.Keys == st.maps.Keys - {x} && st'.roots.Keys == st.roots.Keys
            && LeftOver(st, prev, nmap) <= st.duals.Keys && st'.duals.Keys == st.duals.Keys - LeftOver(st, prev, nmap)
            && (forall n :: n in st'.maps ==>
                st'.maps[n] == st.maps[n].(next := st'.maps[n].next, back := st'.maps[n].back))
            && (forall s :: Exists(st', s) ==> RootOf(st', s) == RootOf(st, s))
  {
    hide Inv, ArraysOk, AddressesOk, DualsOk, UnhookStore, Field, RootOf, MapOf, SetBacklink, UnhookShape, LeftOver;
    UnhookPosition(st, sh, h, i, prev);
    PrevDual(st, prev);
    var x := sh.chains[h][i];
    var nmap := MapOf(st, MapSlot(x));
    UnhookStoreUnhooks(st, prev, x, nmap, if nmap in sh.pg then sh.pg[nmap] else 0);
    UnhookDone(st, UnhookStore(st, prev, x, nmap), sh, pgshifts, h, i);
  }

  lemma {:induction false} PrevDual(st: Store, prev: Slot)
    requires DualsOk(st) && Exists(st, prev)
    ensures DualOk(st, prev)
  {
  }

  lemma {:induction false} FreshSlot(st: Store, sh: Shape, x: nat)
    requires Inv(st, sh) && Fresh(st, x)
    ensures MapSlot(x) !in sh.chains && RootSlot(x) !in sh.chains && x !in sh.pg
  {
  }

  function GrantStore(st: Store, n: nat, b: Back, space: nat): Store {
    if n in st.maps then st.(maps := st.maps[n := st.maps[n].(back := b, space := space)]) else st
  }

  lemma {:induction false} GrantKeepsInv(st: Store, sh: Shape, pgshifts: seq<nat>, h: Slot, i: nat, pg: nat, space: nat)
    requires Inv(st, sh) && ArraysOk(st, sh, pgshifts) && h in sh.chains && i < |sh.chains[h]| && IsEntry(pg)
    requires pg !in sh.pg.Values
    ensures var n := sh.chains[h][i]; var sh' := sh.(pg := sh.pg[n := pg]);
            var st' := GrantStore(st, n, SetBacklink(At(h, sh.chains[h], i), pg), space);
            n in st.maps && Inv(st', sh') && ArraysOk(st', sh', pgshifts)
  {
    hide SetBacklink, AddressesOk, DualsOk, MapOf, RootOf, ArraysOk, LinksOk, Linked, ArrayOk, NodesListed, DualsHeld;
    var n := sh.chains[h][i];
    var sh' := sh.(pg := sh.pg[n := pg]);
    var st' := GrantStore(st, n, SetBacklink(At(h, sh.chains[h], i), pg), space);
    SameLinks(st, st');
    GrantLists(st, st', sh, sh', n);
    forall g, j | g in sh'.chains && 0 <= j <= |sh'.chains[g]|
      ensures Linked(st', sh', g, j) && g in sh'.level && ArrayOk(st', sh', pgshifts, g, j)
    {
      GrantAt(st, st', sh, sh', pgshifts, h, i, pg, g, j);
    }
    AttachConclude(st', sh', pgshifts);
  }

  lemma {:induction false} GrantAt(st: Store, st': Store, sh: Shape, sh': Shape, pgshifts: seq<nat>, h: Slot, i: nat,
                                   pg: nat, g: Slot, j: nat)
    requires Inv(st, sh) && ArraysOk(st, sh, pgshifts) && h in sh.chains && i < |sh.chains[h]| && ListsOk(st', sh')
    requires g in sh.chains && j <= |sh.chains[g]| && sh.chains[h][i] in st.maps
    requires var n := sh.chains[h][i];
             && sh' == sh.(pg := sh.pg[n := pg])
             && st'.maps.Keys == st.maps.Keys && st'.roots == st.roots && DepthsKept(st, st')
             && st'.maps[n].back == SetBacklink(At(h, sh.chains[h], i), pg)
             && (forall m :: m in st.maps && m != n ==> st'.maps[m].back == st.maps[m].back)
    requires forall s :: Exists(st', s) ==>
      Exists(st, s) && MapOf(st', s) == MapOf(st, s) && RootOf(st', s) == RootOf(st, s)
    ensures Linked(st', sh', g, j) && g in sh'.level && ArrayOk(st', sh', pgshifts, g, j)
  {
    hide SetBacklink, AddressesOk, DualsOk, MapOf, RootOf, NodesListed, DualsHeld;
    HookHere(st, sh, g, j);
    HookSlotExists(st, sh, g, j);
    HookSlotExists(st', sh', g, j);
    ArrayKept(st, sh, st', sh', pgshifts, g, j, j);
  }

  /** The backlink of a node that heads a list is no link of a list. */
  lemma {:induction false} GrantHeadKeepsInv(st: Store, sh: Shape, pgshifts: seq<nat>, n: nat, b: Back, space: nat)
    requires Inv(st, sh) && ArraysOk(st, sh, pgshifts) && MapSlot(n) in sh.chains && n in st.maps
    ensures Inv(GrantStore(st, n, b, space), sh) && ArraysOk(GrantStore(st, n, b, space), sh, pgshifts)
  {
    hide AddressesOk, DualsOk, ListsOk, EntriesOk, LinksOk, ArraysOk, RootOf, MapOf;
    var st' := GrantStore(st, n, b, space);
    SameLinks(st, st');
    SameLists(st, st', sh);
    RwxConclude(st, st', sh, pgshifts);
  }

  function WithRwx(st: Store, n: nat, rwx: nat): Store {
    if n in st.maps then st.(maps := st.maps[n := st.maps[n].(rwx := rwx)]) else st
  }

  lemma {:induction false} RwxKeepsInv(st: Store, sh: Shape, pgshifts: seq<nat>, n: nat, rwx: nat)
    requires Inv(st, sh) && ArraysOk(st, sh, pgshifts)
    ensures Inv(WithRwx(st, n, rwx), sh) && ArraysOk(WithRwx(st, n, rwx), sh, pgshifts)
    ensures forall s :: Exists(st, s) ==>
      Exists(WithRwx(st, n, rwx), s) && RootOf(WithRwx(st, n, rwx), s) == RootOf(st, s)
  {
    hide AddressesOk, DualsOk, ListsOk, EntriesOk, LinksOk, ArraysOk, RootOf, MapOf;
    var st' := WithRwx(st, n, rwx);
    SameLinks(st, st');
    SameLists(st, st', sh);
    assert forall s :: Exists(st, s) ==> Exists(st', s);
    RwxConclude(st, st', sh, pgshifts);
  }

  lemma {:induction false} RwxConclude(st: Store, st': Store, sh: Shape, pgshifts: seq<nat>)
    requires Inv(st, sh) && ArraysOk(st, sh, pgshifts)
    requires st'.maps.Keys == st.maps.Keys && st'.roots == st.roots && DepthsKept(st, st')
    requires forall n :: n in st.maps && MapSlot(n) !in sh.chains ==> st'.maps[n].back == st.maps[n].back
    requires forall s :: Exists(st', s) ==> MapOf(st', s) == MapOf(st, s) && RootOf(st', s) == RootOf(st, s)
    ensures LinksOk(st', sh) && ArraysOk(st', sh, pgshifts)
  {
    hide AddressesOk, DualsOk, ListsOk, EntriesOk, RootOf, MapOf, ArrayOk, Linked, Inv;
    forall g, j | g in sh.chains && 0 <= j <= |sh.chains[g]| ensures Linked(st', sh, g, j) {
      RwxLinked(st, st', sh, g, j);
    }
    LevelKeys(st, sh);
    forall g, j | g in sh.chains && 0 <= j <= |sh.chains[g]| ensures ArrayOk(st', sh, pgshifts, g, j) {
      RwxLinked(st, st', sh, g, j);
      ArraysAt(st, sh, pgshifts, g, j);
      ArrayKept(st, sh, st', sh, pgshifts, g, j, j);
    }
  }

  lemma {:induction false} LevelKeys(st: Store, sh: Shape)
    requires Inv(st, sh)
    ensures sh.level.Keys == sh.chains.Keys
  {
  }

  lemma {:induction false} ArraysAt(st: Store, sh: Shape, pgshifts: seq<nat>, g: Slot, j: nat)
    requires ArraysOk(st, sh, pgshifts) && g in sh.chains && j <= |sh.chains[g]|
    ensures g in sh.level && ArrayOk(st, sh, pgshifts, g, j)
  {
  }

  lemma {:induction false} SameLists(st: Store, st': Store, sh: Shape)
    requires ListsOk(st, sh) && st'.maps.Keys == st.maps.Keys && st'.roots == st.roots
    ensures ListsOk(st', sh)
  {
    hide ListsApart, NodesListed;
    ListedKept(st, st', sh, sh);
  }

  lemma {:induction false} RwxLinked(st: Store, st': Store, sh: Shape, g: Slot, j: nat)
    requires Inv(st, sh) && g in sh.chains && j <= |sh.chains[g]|
    requires st'.maps.Keys == st.maps.Keys && st'.roots == st.roots
    requires forall n :: n in st.maps && MapSlot(n) !in sh.chains ==> st'.maps[n].back == st.maps[n].back
    requires forall s :: Exists(st', s) ==> MapOf(st', s) == MapOf(st, s)
    ensures Linked(st', sh, g, j)
    ensures Exists(st, At(g, sh.chains[g], j)) && Exists(st', At(g, sh.chains[g], j))
  {
    hide RootOf, MapOf, SetBacklink;
    HookHere(st, sh, g, j);
    HookSlotExists(st, sh, g, j);
  }

  lemma {:induction false} GrantPosition(st: Store, sh: Shape, h: Slot, i: nat)
    requires Inv(st, sh) && h in sh.chains && i < |sh.chains[h]|
    ensures sh.chains[h][i] in st.maps && sh.chains[h][i] in sh.pg && Exists(st, At(h, sh.chains[h], i))
  {
    HookSlotExists(st, sh, h, i);
  }

  lemma {:induction false} GrantLists(st: Store, st': Store, sh: Shape, sh': Shape, n: nat)
    requires ListsOk(st, sh) && EntriesOk(sh) && n in sh.pg && st'.maps.Keys == st.maps.Keys && st'.roots == st.roots
    requires n in sh'.pg && sh' == sh.(pg := sh.pg[n := sh'.pg[n]]) && IsEntry(sh'.pg[n]) && sh'.pg[n] !in sh.pg.Values
    ensures ListsOk(st', sh') && EntriesOk(sh')
  {
    hide NodesListed;
    ListedKept(st, st', sh, sh');
    assert EntriesOk(sh') by { hide ListsOk; }
    assert ListsApart(sh') by { hide HeadsOk, MembersOk, EntriesOk; }
    assert HeadsOk(st', sh') by { hide MembersOk, EntriesOk, ListsApart; }
    assert MembersOk(st', sh') by { hide HeadsOk, EntriesOk, ListsApart; }
  }

  lemma {:induction false} ArrayGrows(roots: map<nat, Next>, base: nat, k: nat)
    ensures roots + EmptyRoots(ArrayAddrs(base, k + 1))
      == (roots + EmptyRoots(ArrayAddrs(base, k)))[base + 8 * k := ToMap(0)]
  {
    hide ToMap;
    assert OnStride(base, base + 8 * k);
    assert ArrayAddrs(base, k + 1) == ArrayAddrs(base, k) + {base + 8 * k};
  }

  lemma {:induction false} NoRoots(roots: map<nat, Next>, base: nat)
    ensures roots + EmptyRoots(ArrayAddrs(base, 0)) == roots
  {
  }

  lemma {:induction false} RootsKeepSlot(st: Store, st': Store, s: Slot)
    requires Exists(st, s) && st'.maps == st.maps && st.roots.Keys <= st'.roots.Keys
    ensures Exists(st', s)
  {
  }

  lemma {:induction false} FromExists(st: Store, sh: Shape, h: Slot, i: nat, f: nat)
    requires Inv(st, sh) && h in sh.chains && i <= |sh.chains[h]| && MapSlot(f) == At(h, sh.chains[h], i)
    ensures f in st.maps
  {
    HookSlotExists(st, sh, h, i);
  }

  lemma {:induction false} HeadLevel(st: Store, sh: Shape, h: Slot)
    requires Inv(st, sh) && h in sh.chains
    ensures h in sh.level
  {
  }

  /* ---------- descending through arrays ---------- */

  /** The slots on the way down from `f`, whose page size is `fp`: at each step the array entry that
      the bits of `addr` select. */
  ghost predicate Descent(st: Store, pgshifts: seq<nat>, f: Slot, fp: nat, addr: nat, path: seq<Slot>) {
    && 0 < |path| <= fp + 1 && fp <= |pgshifts| && path[0] == f
    && forall l :: 0 < l < |path| ==> Selected(st, pgshifts, path, fp, addr, l)
  }

  ghost predicate Selected(st: Store, pgshifts: seq<nat>, path: seq<Slot>, fp: nat, addr: nat, l: nat)
    requires 0 < l < |path| <= fp + 1 && fp <= |pgshifts|
  {
    RootOf(st, path[l - 1]) != 0 && path[l] == RootSlot(RootOf(st, path[l - 1]) + 8 * Index(pgshifts, fp - l, addr))
  }

  lemma {:induction false} DescentStart(st: Store, pgshifts: seq<nat>, f: Slot, fp: nat, addr: nat)
    requires fp <= |pgshifts|
    ensures Descent(st, pgshifts, f, fp, addr, [f])
  {
  }

  lemma {:induction false} DescentStep(st: Store, pgshifts: seq<nat>, f: Slot, fp: nat, addr: nat, path: seq<Slot>,
                                       p: nat)
    requires Descent(st, pgshifts, f, fp, addr, path) && p == fp - |path| && p < |pgshifts|
    requires RootOf(st, path[|path| - 1]) != 0
    ensures Descent(st, pgshifts, f, fp, addr,
                    path + [RootSlot(RootOf(st, path[|path| - 1]) + 8 * Index(pgshifts, p, addr))])
  {
    var path' := path + [RootSlot(RootOf(st, path[|path| - 1]) + 8 * Index(pgshifts, p, addr))];
    forall l | 0 < l < |path'| ensures Selected(st, pgshifts, path', fp, addr, l) {
      if l < |path| { assert Selected(st, pgshifts, path, fp, addr, l); }
    }
  }

  /** Attaching an array at the end of the way leaves the way as it is. */
  lemma {:induction false} DescentKept(st: Store, st': Store, pgshifts: seq<nat>, f: Slot, fp: nat, addr: nat,
                                       path: seq<Slot>, s: Slot, base: nat, addrs: set<nat>)
    requires Descent(st, pgshifts, f, fp, addr, path) && Attached(st, st', s, base, addrs) && RootOf(st, s) == 0
    ensures Descent(st', pgshifts, f, fp, addr, path)
  {
    forall l | 0 < l < |path| ensures Selected(st', pgshifts, path, fp, addr, l) {
      assert Selected(st, pgshifts, path, fp, addr, l);
      assert Exists(st, path[l - 1]) && path[l - 1] != s;
    }
  }

  lemma {:induction false} DescentSame(st: Store, st': Store, pgshifts: seq<nat>, f: Slot, fp: nat, addr: nat,
                                       path: seq<Slot>)
    requires Descent(st, pgshifts, f, fp, addr, path)
    requires forall s :: Exists(st, s) ==> RootOf(st', s) == RootOf(st, s)
    ensures Descent(st', pgshifts, f, fp, addr, path)
  {
    forall l | 0 < l < |path| ensures Selected(st', pgshifts, path, fp, addr, l) {
      assert Selected(st, pgshifts, path, fp, addr, l);
      assert Exists(st, path[l - 1]);
    }
  }

  /** The selected entry of a slot's array heads a list of the next smaller page size. */
  lemma {:induction false} NextSlot(st: Store, sh: Shape, pgshifts: seq<nat>, g: Slot, k: nat, p: nat, addr: nat)
    requires Inv(st, sh) && ArraysOk(st, sh, pgshifts) && g in sh.chains && k <= |sh.chains[g]| && g in sh.level
    requires sh.level[g].size == p + 1 && p < |pgshifts| && RootOf(st, At(g, sh.chains[g], k)) != 0
    ensures var s := RootSlot(RootOf(st, At(g, sh.chains[g], k)) + 8 * Index(pgshifts, p, addr));
            s in sh.chains && s in sh.level && At(s, sh.chains[s], 0) == s
            && sh.level[s] == Level(p, Below(st, sh.level[g], At(g, sh.chains[g], k)))
  {
    hide ArrayAddrs, Index, ArraySize, Inv;
    assert ArrayOk(st, sh, pgshifts, g, k);
    IndexInArray(pgshifts, p, addr);
  }

  /* ---------- growth ---------- */

  /** Between `st0` and `st` only empty arrays were attached, to slots of `path` that had none. */
  ghost predicate Grown(st0: Store, sh0: Shape, st: Store, sh: Shape, path: seq<Slot>) {
    NodesKept(st0, st) && RootsKept(st0, st, path) && ListsGrown(sh0, sh)
  }

  ghost predicate NodesKept(st0: Store, st: Store) {
    && st.maps.Keys == st0.maps.Keys && st0.roots.Keys <= st.roots.Keys
    && (forall n :: n in st0.maps ==> st.maps[n] == st0.maps[n].(next := st.maps[n].next))
  }

  ghost predicate RootsKept(st0: Store, st: Store, path: seq<Slot>) {
    forall s :: Exists(st0, s) && (s !in path || RootOf(st0, s) != 0) ==> RootOf(st, s) == RootOf(st0, s)
  }

  ghost predicate ListsGrown(sh0: Shape, sh: Shape) {
    && sh.pg == sh0.pg && sh0.chains.Keys <= sh.chains.Keys
    && sh.level.Keys == sh.chains.Keys && sh0.level.Keys == sh0.chains.Keys
    && (forall g :: g in sh0.chains ==> sh.chains[g] == sh0.chains[g] && sh.level[g] == sh0.level[g])
    && (forall g :: g in sh.chains && g !in sh0.chains ==> sh.chains[g] == [] && g.RootSlot?)
  }

  lemma {:induction false} RootsKeptAttach(st0: Store, st: Store, st': Store, path: seq<Slot>, s: Slot, base: nat,
                                           addrs: set<nat>)
    requires RootsKept(st0, st, path) && NodesKept(st0, st)
    requires Attached(st, st', s, base, addrs) && s in path && RootOf(st, s) == 0
    ensures RootsKept(st0, st', path) && NodesKept(st0, st')
  {
    hide RootOf, MapOf;
    forall t | Exists(st0, t) && (t !in path || RootOf(st0, t) != 0) ensures RootOf(st', t) == RootOf(st0, t) {
      assert Exists(st, t) && t != s;
    }
  }

  lemma {:induction false} GrownSelf(st: Store, sh: Shape, path: seq<Slot>)
    requires Inv(st, sh)
    ensures Grown(st, sh, st, sh, path)
  {
  }

  lemma {:induction false} GrownAttach(st0: Store, sh0: Shape, st: Store, sh: Shape, st': Store, sh': Shape,
                                       path: seq<Slot>, g: Slot, k: nat, base: nat, addrs: set<nat>, p: Level)
    requires Grown(st0, sh0, st, sh, path) && Inv(st, sh) && g in sh.chains && k <= |sh.chains[g]|
    requires At(g, sh.chains[g], k) in path
    requires RootOf(st, At(g, sh.chains[g], k)) == 0
    requires Attached(st, st', At(g, sh.chains[g], k), base, addrs) && sh' == AttachShape(sh, addrs, p)
    ensures Grown(st0, sh0, st', sh', path) && g in sh'.chains && sh'.chains[g] == sh.chains[g]
    ensures g in sh'.level && g in sh.level && sh'.level[g] == sh.level[g]
  {
    hide RootOf, MapOf, RootsKept, NodesKept, AttachShape, Attached, Inv;
    RootsKeptAttach(st0, st, st', path, At(g, sh.chains[g], k), base, addrs);
    AttachFresh(st, sh, st', At(g, sh.chains[g], k), base, addrs);
    AttachShapeIs(sh, addrs, p);
  }

  lemma {:induction false} AttachFresh(st: Store, sh: Shape, st': Store, s: Slot, base: nat, addrs: set<nat>)
    requires Inv(st, sh) && Attached(st, st', s, base, addrs)
    ensures sh.level.Keys == sh.chains.Keys && forall a :: a in addrs ==> RootSlot(a) !in sh.chains
  {
  }

  /* ---------- the descent of an insertion ---------- */

  /** Somewhere on the way down from the mapping `f` of page size `fp`: the last slot of `path` is
      position `k` of the list of `g`, whose page size is `p`. */
  ghost predicate OnTheWay(st0: Store, sh0: Shape, st: Store, sh: Shape, pgshifts: seq<nat>, f: nat, fp: nat, addr: nat,
                           path: seq<Slot>, g: Slot, k: nat, p: nat) {
    && f in st0.maps && Grown(st0, sh0, st, sh, path) && Descent(st, pgshifts, MapSlot(f), fp, addr, path)
    && p <= fp && |path| == fp - p + 1
    && g in sh.chains && k <= |sh.chains[g]| && path[|path| - 1] == At(g, sh.chains[g], k)
    && g in sh.level && sh.level[g].size == p
    && (p == fp ==> path == [MapSlot(f)])
    && (p < fp ==> g == path[|path| - 1] && k == 0 && g.RootSlot? && sh.level[g].depth == st0.maps[f].depth + 1)
  }

  lemma {:induction false} OnTheWayStart(st: Store, sh: Shape, pgshifts: seq<nat>, f: nat, fp: nat, addr: nat, g: Slot,
                                         k: nat)
    requires Inv(st, sh) && g in sh.chains && k <= |sh.chains[g]| && MapSlot(f) == At(g, sh.chains[g], k)
    requires g in sh.level && sh.level[g].size == fp && fp <= |pgshifts|
    ensures OnTheWay(st, sh, st, sh, pgshifts, f, fp, addr, [MapSlot(f)], g, k, fp)
  {
    hide Inv, Grown, Descent;
    FromExists(st, sh, g, k, f);
    GrownSelf(st, sh, [MapSlot(f)]);
    DescentStart(st, pgshifts, MapSlot(f), fp, addr);
  }

  lemma {:induction false} OnTheWayAttach(st0: Store, sh0: Shape, st: Store, sh: Shape, st': Store, sh': Shape,
                                          pgshifts: seq<nat>, f: nat, fp: nat, addr: nat, path: seq<Slot>, g: Slot,
                                          k: nat, p: nat, base: nat, addrs: set<nat>, lv: Level)
    requires OnTheWay(st0, sh0, st, sh, pgshifts, f, fp, addr, path, g, k, p) && Inv(st, sh)
    requires var s := path[|path| - 1];
      RootOf(st, s) == 0 && Attached(st, st', s, base, addrs) && sh' == AttachShape(sh, addrs, lv)
    ensures OnTheWay(st0, sh0, st', sh', pgshifts, f, fp, addr, path, g, k, p)
  {
    hide Inv, Grown, Descent, Attached, AttachShape, RootOf;
    GrownAttach(st0, sh0, st, sh, st', sh', path, g, k, base, addrs, lv);
    DescentKept(st, st', pgshifts, MapSlot(f), fp, addr, path, path[|path| - 1], base, addrs);
  }

  lemma {:induction false} OnTheWayStep(st0: Store, sh0: Shape, st: Store, sh: Shape, pgshifts: seq<nat>, f: nat,
                                        fp: nat, addr: nat, path: seq<Slot>, g: Slot, k: nat, p: nat)
    requires OnTheWay(st0, sh0, st, sh, pgshifts, f, fp, addr, path, g, k, p + 1) && Inv(st, sh)
    requires ArraysOk(st, sh, pgshifts)
    requires RootOf(st, path[|path| - 1]) != 0 && fp < |pgshifts|
    ensures var s := RootSlot(RootOf(st, path[|path| - 1]) + 8 * Index(pgshifts, p, addr));
            OnTheWay(st0, sh0, st, sh, pgshifts, f, fp, addr, path + [s], s, 0, p)
  {
    hide Inv, ArraysOk, Grown, Descent, Index, RootOf;
    var s := RootSlot(RootOf(st, path[|path| - 1]) + 8 * Index(pgshifts, p, addr));
    GrownDepth(st0, sh0, st, sh, path, f);
    NextSlot(st, sh, pgshifts, g, k, p, addr);
    DescentStep(st, pgshifts, MapSlot(f), fp, addr, path, p);
    GrownPath(st0, sh0, st, sh, path, s);
  }

  lemma {:induction false} GrownPath(st0: Store, sh0: Shape, st: Store, sh: Shape, path: seq<Slot>, s: Slot)
    requires Grown(st0, sh0, st, sh, path)
    ensures Grown(st0, sh0, st, sh, path + [s])
  {
    hide RootOf;
  }

  lemma {:induction false} GrownDepth(st0: Store, sh0: Shape, st: Store, sh: Shape, path: seq<Slot>, f: nat)
    requires Grown(st0, sh0, st, sh, path)
    ensures f in st.maps <==> f in st0.maps
    ensures f in st0.maps ==> st.maps[f].depth == st0.maps[f].depth
    ensures forall n :: n in st0.maps ==> n in st.maps && st.maps[n] == st0.maps[n].(next := st.maps[n].next)
    ensures st.maps.Keys == st0.maps.Keys && sh.pg == sh0.pg && DepthsKept(st0, st)
  {
  }
}
