/** Ordered forests and their depth-annotated preorder lists.

    The mapping database keeps a tree of page mappings as one list: each node carries its depth, and
    a node's descendants are the nodes after it up to the next one that is not deeper.  This module
    says which lists are such preorders, that a list and its forest determine each other, and that
    the three list edits of the database are tree edits.
 */
module Forest {
  import opened MapNodes

  datatype Tree<T> = Node(item: T, kids: seq<Tree<T>>)

  datatype Entry<T> = Entry(item: T, depth: nat)

  /** The depth-annotated preorder of a forest whose roots have depth `d`. */
  function Preorder<T>(f: seq<Tree<T>>, d: nat): seq<Entry<T>>
    decreases f
  {
    if f == [] then []
    else [Entry(f[0].item, d)] + Preorder(f[0].kids, d + 1) + Preorder(f[1..], d)
  }

  function Count<T>(f: seq<Tree<T>>): nat
    decreases f
  {
    if f == [] then 0 else 1 + Count(f[0].kids) + Count(f[1..])
  }

  /** Where the run of entries deeper than `d` that starts at `j` ends. */
  function DeeperEnd<T>(l: seq<Entry<T>>, j: nat, d: nat): (e: nat)
    requires j <= |l|
    ensures j <= e <= |l|
    ensures forall i :: j <= i < e ==> l[i].depth > d
    ensures e < |l| ==> l[e].depth <= d
    decreases |l| - j
  {
    if j < |l| && l[j].depth > d then DeeperEnd(l, j + 1, d) else j
  }

  /** The end of the subtree that starts at position `i`. */
  function SubtreeEnd<T>(l: seq<Entry<T>>, i: nat): (e: nat)
    requires i < |l|
    ensures i < e <= |l|
    ensures forall j :: i < j < e ==> l[j].depth > l[i].depth
    ensures e < |l| ==> l[e].depth <= l[i].depth
  {
    DeeperEnd(l, i + 1, l[i].depth)
  }

  /** Lists in which no entry is shallower than `d`, the first has depth `d`, and each is at most one
      deeper than the one before. */
  ghost predicate Nested<T>(l: seq<Entry<T>>, d: nat) {
    && (l != [] ==> l[0].depth == d)
    && (forall i :: 0 <= i < |l| ==> l[i].depth >= d)
    && (forall i, j :: 0 <= i < j < |l| && j == i + 1 ==> l[j].depth <= l[i].depth + 1)
  }

  /** The forest of a nested list. */
  function Parse<T>(l: seq<Entry<T>>, d: nat): seq<Tree<T>>
    decreases |l|
  {
    if l == [] then [] else
      var e := DeeperEnd(l, 1, d);
      [Node(l[0].item, Parse(l[1..e], d + 1))] + Parse(l[e..], d)
  }

  lemma {:induction false} PreorderCount<T>(f: seq<Tree<T>>, d: nat)
    ensures |Preorder(f, d)| == Count(f)
    decreases f
  {
    if f != [] {
      PreorderCount(f[0].kids, d + 1);
      PreorderCount(f[1..], d);
    }
  }

  /** Every preorder is a nested list. */
  lemma {:induction false} PreorderNested<T>(f: seq<Tree<T>>, d: nat)
    ensures Nested(Preorder(f, d), d)
    decreases f
  {
    if f != [] {
      PreorderNested(f[0].kids, d + 1);
      PreorderNested(f[1..], d);
    }
  }

  lemma {:induction false} DeeperEndIs<T>(l: seq<Entry<T>>, j: nat, d: nat, e: nat)
    requires j <= e <= |l|
    requires forall i :: j <= i < e ==> l[i].depth > d
    requires e < |l| ==> l[e].depth <= d
    ensures DeeperEnd(l, j, d) == e
    decreases e - j
  {
    if j < e {
      DeeperEndIs(l, j + 1, d, e);
    }
  }

  /** Parsing a preorder gives the forest back. */
  lemma {:induction false} ParsePreorder<T>(f: seq<Tree<T>>, d: nat)
    ensures Parse(Preorder(f, d), d) == f
    decreases f
  {
    if f != [] {
      var kids, rest := Preorder(f[0].kids, d + 1), Preorder(f[1..], d);
      var l := Preorder(f, d);
      PreorderNested(f[0].kids, d + 1);
      PreorderNested(f[1..], d);
      DeeperEndIs(l, 1, d, 1 + |kids|);
      assert l[1..1 + |kids|] == kids && l[1 + |kids|..] == rest;
      ParsePreorder(f[0].kids, d + 1);
      ParsePreorder(f[1..], d);
    }
  }

  /** Every nested list is the preorder of its forest. */
  lemma {:induction false} PreorderParse<T>(l: seq<Entry<T>>, d: nat)
    requires Nested(l, d)
    ensures Preorder(Parse(l, d), d) == l
    decreases |l|
  {
    if l == [] {
      PreorderNothing<T>(d);
    } else {
      hide Preorder, Nested, DeeperEnd;
      var e := DeeperEnd(l, 1, d);
      NestedParts(l, d, e);
      PreorderParse(l[1..e], d + 1);
      PreorderParse(l[e..], d);
      PreorderCons(Node(l[0].item, Parse(l[1..e], d + 1)), Parse(l[e..], d), d);
    }
  }

  lemma {:induction false} NestedParts<T>(l: seq<Entry<T>>, d: nat, e: nat)
    requires l != [] && Nested(l, d) && e == DeeperEnd(l, 1, d)
    ensures Nested(l[1..e], d + 1) && Nested(l[e..], d)
    ensures l == [Entry(l[0].item, d)] + l[1..e] + l[e..]
  {
  }

  lemma {:induction false} PreorderCons<T>(t: Tree<T>, rest: seq<Tree<T>>, d: nat)
    ensures Preorder([t] + rest, d) == [Entry(t.item, d)] + Preorder(t.kids, d + 1) + Preorder(rest, d)
  {
    assert ([t] + rest)[1..] == rest;
  }

  /* ---------- edits ---------- */

  /** The forest with a new first child `x` of the node at preorder position `i`. */
  function AddChild<T>(f: seq<Tree<T>>, i: nat, x: T): seq<Tree<T>>
    decreases f
  {
    if f == [] then []
    else if i == 0 then [Node(f[0].item, [Node(x, [])] + f[0].kids)] + f[1..]
    else if i <= Count(f[0].kids) then [Node(f[0].item, AddChild(f[0].kids, i - 1, x))] + f[1..]
    else [f[0]] + AddChild(f[1..], i - 1 - Count(f[0].kids), x)
  }

  /** The forest without the subtree at preorder position `i`. */
  function RemoveTree<T>(f: seq<Tree<T>>, i: nat): seq<Tree<T>>
    decreases f
  {
    if f == [] then []
    else if i == 0 then f[1..]
    else if i <= Count(f[0].kids) then [Node(f[0].item, RemoveTree(f[0].kids, i - 1))] + f[1..]
    else [f[0]] + RemoveTree(f[1..], i - 1 - Count(f[0].kids))
  }

  /** The forest with the node at preorder position `i` left childless. */
  function Prune<T>(f: seq<Tree<T>>, i: nat): seq<Tree<T>>
    decreases f
  {
    if f == [] then []
    else if i == 0 then [Node(f[0].item, [])] + f[1..]
    else if i <= Count(f[0].kids) then [Node(f[0].item, Prune(f[0].kids, i - 1))] + f[1..]
    else [f[0]] + Prune(f[1..], i - 1 - Count(f[0].kids))
  }

  function Insert<T>(l: seq<Entry<T>>, i: nat, x: T, depth: nat): seq<Entry<T>>
    requires i < |l|
  {
    l[..i + 1] + [Entry(x, depth)] + l[i + 1..]
  }

  /** The three parts of a preorder. */
  lemma {:induction false} PreorderParts<T>(f: seq<Tree<T>>, d: nat)
    requires f != []
    ensures Preorder(f, d) == [Entry(f[0].item, d)] + Preorder(f[0].kids, d + 1) + Preorder(f[1..], d)
    ensures |Preorder(f[0].kids, d + 1)| == Count(f[0].kids) && |Preorder(f[1..], d)| == Count(f[1..])
    ensures Count(f) == 1 + Count(f[0].kids) + Count(f[1..])
  {
    PreorderCount(f[0].kids, d + 1);
    PreorderCount(f[1..], d);
  }

  /** The list edit of an insertion, part by part. */
  lemma {:induction false} InsertInParts<T>(head: Entry<T>, kids: seq<Entry<T>>, rest: seq<Entry<T>>, i: nat, x: T,
                                            depth: nat)
    requires 0 < i <= |kids| + |rest|
    ensures 0 < i <= |kids|
            ==> Insert([head] + kids + rest, i, x, depth) == [head] + Insert(kids, i - 1, x, depth) + rest
    ensures i > |kids|
            ==> Insert([head] + kids + rest, i, x, depth) == [head] + kids + Insert(rest, i - 1 - |kids|, x, depth)
  {
  }

  /** Inserting right after a node, one deeper, adds a first child. */
  lemma {:induction false} InsertIsAddChild<T>(f: seq<Tree<T>>, d: nat, i: nat, x: T)
    requires i < Count(f)
    ensures |Preorder(f, d)| == Count(f)
    ensures Preorder(AddChild(f, i, x), d) == Insert(Preorder(f, d), i, x, Preorder(f, d)[i].depth + 1)
    decreases f
  {
    hide Preorder, Insert;
    PreorderParts(f, d);
    var k, kids, rest := Count(f[0].kids), Preorder(f[0].kids, d + 1), Preorder(f[1..], d);
    var head := Entry(f[0].item, d);
    if i == 0 {
      PreorderCons(Node(x, []), f[0].kids, d + 1);
      PreorderCons(Node(f[0].item, [Node(x, [])] + f[0].kids), f[1..], d);
      InsertAtHead(head, kids, rest, x, d);
    } else {
      InsertInParts(head, kids, rest, i, x, Preorder(f, d)[i].depth + 1);
      if i <= k {
        InsertIsAddChild(f[0].kids, d + 1, i - 1, x);
        PreorderCons(Node(f[0].item, AddChild(f[0].kids, i - 1, x)), f[1..], d);
      } else {
        InsertIsAddChild(f[1..], d, i - 1 - k, x);
        PreorderCons(f[0], AddChild(f[1..], i - 1 - k, x), d);
      }
    }
  }

  lemma {:induction false} InsertAtHead<T>(head: Entry<T>, kids: seq<Entry<T>>, rest: seq<Entry<T>>, x: T, d: nat)
    ensures Preorder<T>([], d + 2) == []
    ensures Insert([head] + kids + rest, 0, x, d + 1) == [head] + ([Entry(x, d + 1)] + [] + kids) + rest
  {
  }

  /** The run of deeper entries inside one part of a list ends where it ends in that part, when what
      follows is not deeper. */
  lemma {:induction false} SubtreeEndInParts<T>(pre: seq<Entry<T>>, part: seq<Entry<T>>, post: seq<Entry<T>>, i: nat)
    requires i < |part|
    requires post != [] ==> post[0].depth <= part[i].depth
    ensures SubtreeEnd(pre + part + post, |pre| + i) == |pre| + SubtreeEnd(part, i)
  {
    var l, e := pre + part + post, SubtreeEnd(part, i);
    assert forall j :: 0 <= j < |part| ==> l[|pre| + j] == part[j];
    assert post != [] ==> l[|pre| + |part|] == post[0];
    DeeperEndIs(l, |pre| + i + 1, part[i].depth, |pre| + e);
  }

  /** The list with its entries from `i` up to `e` cut out. */
  function Cut<T>(l: seq<Entry<T>>, i: nat, e: nat): seq<Entry<T>>
    requires i <= e <= |l|
  {
    l[..i] + l[e..]
  }

  lemma {:induction false} CutInParts<T>(pre: seq<Entry<T>>, part: seq<Entry<T>>, post: seq<Entry<T>>, i: nat, e: nat)
    requires i <= e <= |part|
    ensures Cut(pre + part + post, |pre| + i, |pre| + e) == pre + Cut(part, i, e) + post
  {
  }

  /** Cutting the run of the node at preorder position `i` out of the list removes its subtree, and
      keeping the node itself prunes it. */
  ghost predicate RunIsSubtree<T>(f: seq<Tree<T>>, d: nat, i: nat) {
    var l := Preorder(f, d);
    && i < |l| == Count(f)
    && Preorder(RemoveTree(f, i), d) == Cut(l, i, SubtreeEnd(l, i))
    && Preorder(Prune(f, i), d) == Cut(l, i + 1, SubtreeEnd(l, i))
  }

  /** A subtree is a run of the list, so its end is found by looking at depths only. */
  lemma {:induction false} SubtreeSpan<T>(f: seq<Tree<T>>, d: nat, i: nat)
    requires i < Count(f)
    ensures RunIsSubtree(f, d, i)
    decreases f
  {
    hide RunIsSubtree;
    var k := Count(f[0].kids);
    if i == 0 {
      SubtreeSpanAtRoot(f, d);
    } else if i <= k {
      SubtreeSpan(f[0].kids, d + 1, i - 1);
      SubtreeSpanInKids(f, d, i);
    } else {
      SubtreeSpan(f[1..], d, i - 1 - k);
      SubtreeSpanInRest(f, d, i);
    }
  }

  lemma {:induction false} SubtreeSpanAtRoot<T>(f: seq<Tree<T>>, d: nat)
    requires f != []
    ensures RunIsSubtree(f, d, 0)
  {
    hide Preorder, SubtreeEnd, Cut, Nested;
    PreorderParts(f, d);
    PreorderNested(f[0].kids, d + 1);
    PreorderNested(f[1..], d);
    SubtreeSpanRoot(f[0].item, d, Preorder(f[0].kids, d + 1), Preorder(f[1..], d));
    PreorderCons(Node(f[0].item, []), f[1..], d);
    PreorderNothing<T>(d + 1);
  }

  lemma {:induction false} SubtreeSpanInKids<T>(f: seq<Tree<T>>, d: nat, i: nat)
    requires f != [] && 0 < i <= Count(f[0].kids) && RunIsSubtree(f[0].kids, d + 1, i - 1)
    ensures RunIsSubtree(f, d, i)
  {
    hide Preorder, SubtreeEnd, Cut, Nested;
    PreorderParts(f, d);
    PreorderNested(f[0].kids, d + 1);
    PreorderNested(f[1..], d);
    SpanInKids([Entry(f[0].item, d)], Preorder(f[0].kids, d + 1), Preorder(f[1..], d), d, i - 1);
    PreorderCons(Node(f[0].item, RemoveTree(f[0].kids, i - 1)), f[1..], d);
    PreorderCons(Node(f[0].item, Prune(f[0].kids, i - 1)), f[1..], d);
  }

  lemma {:induction false} SubtreeSpanInRest<T>(f: seq<Tree<T>>, d: nat, i: nat)
    requires f != [] && Count(f[0].kids) < i < Count(f) && RunIsSubtree(f[1..], d, i - 1 - Count(f[0].kids))
    ensures RunIsSubtree(f, d, i)
  {
    hide Preorder, SubtreeEnd, Cut, Nested;
    PreorderParts(f, d);
    var j := i - 1 - Count(f[0].kids);
    SpanInRest([Entry(f[0].item, d)] + Preorder(f[0].kids, d + 1), Preorder(f[1..], d), j);
    PreorderCons(f[0], RemoveTree(f[1..], j), d);
    PreorderCons(f[0], Prune(f[1..], j), d);
  }

  lemma {:induction false} SpanInKids<T>(head: seq<Entry<T>>, kids: seq<Entry<T>>, rest: seq<Entry<T>>, d: nat, i: nat)
    requires |head| == 1 && i < |kids| && Nested(kids, d + 1) && Nested(rest, d)
    ensures var l := head + kids + rest; var e := SubtreeEnd(kids, i);
            && SubtreeEnd(l, i + 1) == e + 1
            && Cut(l, i + 1, e + 1) == head + Cut(kids, i, e) + rest
            && Cut(l, i + 2, e + 1) == head + Cut(kids, i + 1, e) + rest
  {
    hide SubtreeEnd, Cut;
    var e := SubtreeEnd(kids, i);
    SubtreeEndInParts(head, kids, rest, i);
    CutInParts(head, kids, rest, i, e);
    CutInParts(head, kids, rest, i + 1, e);
  }

  lemma {:induction false} SpanInRest<T>(pre: seq<Entry<T>>, rest: seq<Entry<T>>, j: nat)
    requires j < |rest|
    ensures var l := pre + rest; var e := SubtreeEnd(rest, j);
            && SubtreeEnd(l, |pre| + j) == |pre| + e
            && Cut(l, |pre| + j, |pre| + e) == pre + Cut(rest, j, e)
            && Cut(l, |pre| + j + 1, |pre| + e) == pre + Cut(rest, j + 1, e)
  {
    hide SubtreeEnd, Cut;
    var e := SubtreeEnd(rest, j);
    SubtreeEndInParts(pre, rest, [], j);
    CutInParts(pre, rest, [], j, e);
    CutInParts(pre, rest, [], j + 1, e);
    assert pre + rest + [] == pre + rest;
    assert pre + Cut(rest, j, e) + [] == pre + Cut(rest, j, e);
    assert pre + Cut(rest, j + 1, e) + [] == pre + Cut(rest, j + 1, e);
  }

  lemma {:induction false} PreorderNothing<T>(d: nat)
    ensures Preorder<T>([], d) == []
  {
  }

  lemma {:induction false} SubtreeSpanRoot<T>(item: T, d: nat, kids: seq<Entry<T>>, rest: seq<Entry<T>>)
    requires Nested(kids, d + 1) && Nested(rest, d)
    ensures var l := [Entry(item, d)] + kids + rest;
            && SubtreeEnd(l, 0) == 1 + |kids|
            && Cut(l, 0, 1 + |kids|) == rest
            && Cut(l, 1, 1 + |kids|) == [Entry(item, d)] + [] + rest
  {
    RootEnd(item, d, kids, rest);
    RootCut(Entry(item, d), kids, rest);
  }

  lemma {:induction false} RootEnd<T>(item: T, d: nat, kids: seq<Entry<T>>, rest: seq<Entry<T>>)
    requires Nested(kids, d + 1) && Nested(rest, d)
    ensures SubtreeEnd([Entry(item, d)] + kids + rest, 0) == 1 + |kids|
  {
    var l := [Entry(item, d)] + kids + rest;
    forall j | 1 <= j < 1 + |kids| ensures l[j].depth > d { assert l[j] == kids[j - 1]; }
    if rest != [] { assert l[1 + |kids|] == rest[0]; }
    DeeperEndIs(l, 1, d, 1 + |kids|);
  }

  lemma {:induction false} RootCut<T>(head: Entry<T>, kids: seq<Entry<T>>, rest: seq<Entry<T>>)
    ensures Cut([head] + kids + rest, 0, 1 + |kids|) == rest
    ensures Cut([head] + kids + rest, 1, 1 + |kids|) == [head] + [] + rest
  {
  }

  /* ---------- stored depths ---------- */

  /** With eight-bit depths, mapping below the node at position `i` adds a child exactly when that
      node is less than 255 deep. */
  lemma {:induction false} MapAddsChildIff<T>(f: seq<Tree<T>>, d: nat, i: nat, x: T)
    requires i < |Preorder(f, d)| && Preorder(f, d)[i].depth <= 255
    ensures var l := Preorder(f, d);
            i < Count(f)
            && (Insert(l, i, x, SetDepth(l[i].depth + 1)) == Preorder(AddChild(f, i, x), d) <==> l[i].depth < 255)
  {
    hide Preorder;
    PreorderCount(f, d);
    InsertIsAddChild(f, d, i, x);
    InsertDepth(Preorder(f, d), i, x, SetDepth(Preorder(f, d)[i].depth + 1));
    InsertDepth(Preorder(f, d), i, x, Preorder(f, d)[i].depth + 1);
  }

  lemma {:induction false} InsertDepth<T>(l: seq<Entry<T>>, i: nat, x: T, depth: nat)
    requires i < |l|
    ensures i + 1 < |Insert(l, i, x, depth)| && Insert(l, i, x, depth)[i + 1].depth == depth
  {
  }

  /** A child mapped below a node of depth 255 is not in its parent's run: flushing the parent ends
      right before it. */
  lemma {:induction false} DeepChildEscapes<T>(l: seq<Entry<T>>, i: nat, x: T)
    requires i < |l| && l[i].depth == 255
    ensures SubtreeEnd(Insert(l, i, x, SetDepth(256)), i) == i + 1
  {
  }
}
