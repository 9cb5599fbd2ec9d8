/**
 * The node store behind `mtftree.rs`. The tree's reference-counted nodes
 * become an arena: a node is an index into a sequence of nodes, and every
 * link (parent, left, right) is an index. Nodes that drop out of the tree
 * stay in the arena, as they stay in memory while something still points at
 * them. A `Shape` names the tree a node spans, so that the arena can be
 * related to the alphabet the tree stands for.
 */
module TreeArena {
  import opened Common
  import opened Sorting
  import opened MoveToFront

  /** `NodeData`: an inner node's two children, or a leaf's byte. */
  datatype Data = Inner(left: nat, right: nat) | Leaf(letter: byte)

  /** `Node`: the parent link, the `u16` leaf count and the data. */
  datatype Node = Node(parent: Option<nat>, subsize: nat, data: Data)

  // ---------------------------------------------------------------------
  // The tree a node spans
  // ---------------------------------------------------------------------

  /** A tree over arena indices: each node carries the index it lives at. */
  datatype Shape = SLeaf(at: nat, letter: byte) | SInner(at: nat, left: Shape, right: Shape)

  /** The leaves from left to right: the alphabet the tree stands for. */
  function Letters(s: Shape): (r: seq<byte>)
    ensures |r| >= 1
  {
    match s
    case SLeaf(_, b) => [b]
    case SInner(_, l, r) => Letters(l) + Letters(r)
  }

  function Indices(s: Shape): set<nat>
  {
    match s
    case SLeaf(at, _) => {at}
    case SInner(at, l, r) => {at} + Indices(l) + Indices(r)
  }

  /** Every node of `s` lives at its index, with the data linking it to its children. */
  ghost predicate Linked(ns: seq<Node>, s: Shape)
  {
    s.at < |ns|
    && match s
       case SLeaf(at, b) => ns[at].data == Leaf(b)
       case SInner(at, l, r) => ns[at].data == Inner(l.at, r.at) && Linked(ns, l) && Linked(ns, r)
  }

  /** Every node of `s` counts the leaves below it. */
  ghost predicate Sized(ns: seq<Node>, s: Shape)
  {
    s.at < |ns| && ns[s.at].subsize == |Letters(s)|
    && match s
       case SLeaf(_, _) => true
       case SInner(_, l, r) => Sized(ns, l) && Sized(ns, r)
  }

  /** Every child of `s` links back to its parent. */
  ghost predicate Parented(ns: seq<Node>, s: Shape)
  {
    match s
    case SLeaf(_, _) => true
    case SInner(at, l, r) =>
      l.at < |ns| && r.at < |ns| && ns[l.at].parent == Some(at) && ns[r.at].parent == Some(at)
      && Parented(ns, l) && Parented(ns, r)
  }

  /** No arena index occurs twice in `s`: it is a tree, not a graph. */
  ghost predicate Unique(s: Shape)
  {
    match s
    case SLeaf(_, _) => true
    case SInner(at, l, r) =>
      at !in Indices(l) && at !in Indices(r) && Indices(l) !! Indices(r) && Unique(l) && Unique(r)
  }

  /** The arena holds the tree `s`, linked both ways and counted. */
  ghost predicate Holds(ns: seq<Node>, s: Shape)
  {
    Linked(ns, s) && Sized(ns, s) && Parented(ns, s) && Unique(s)
  }

  /** The index of the leaf holding `b`. */
  function LeafOf(s: Shape, b: byte): (r: nat)
    requires b in Letters(s)
    ensures r in Indices(s)
  {
    match s
    case SLeaf(at, _) => at
    case SInner(_, l, r) => if b in Letters(l) then LeafOf(l, b) else LeafOf(r, b)
  }

  /** How many links lie between the leaf holding `b` and the top of `s`. */
  function Depth(s: Shape, b: byte): nat
    requires b in Letters(s)
  {
    match s
    case SLeaf(_, _) => 0
    case SInner(_, l, r) => 1 + if b in Letters(l) then Depth(l, b) else Depth(r, b)
  }

  /** Every inner node has the smaller half of its leaves, by at most one, on the left. */
  predicate Halves(s: Shape)
  {
    match s
    case SLeaf(_, _) => true
    case SInner(_, l, r) => |Letters(l)| <= |Letters(r)| <= |Letters(l)| + 1 && Halves(l) && Halves(r)
  }

  // ---------------------------------------------------------------------
  // Arithmetic and counting
  // ---------------------------------------------------------------------

  lemma SmallMod(n: nat)
    requires n < 0x1_0000
    ensures n % 0x1_0000 == n
  {
  }

  /** A set of indices below `n` has at most `n` members. */
  lemma {:induction false} BelowCard(s: set<nat>, n: nat)
    requires forall i :: i in s ==> i < n
    ensures |s| <= n
    decreases n
  {
    if n > 0 {
      BelowCard(s - {n - 1}, n - 1);
    } else {
      assert s == {};
    }
  }

  /** An alphabet without repetitions has at most 256 letters. */
  lemma {:induction false} DistinctBound(alpha: seq<byte>)
    requires Distinct(alpha)
    ensures |alpha| <= 256
  {
    NoDupCard(alpha);
    var e: set<nat> := set x: nat | x in alpha;
    assert e == Elems(alpha);
    BelowCard(e, 256);
  }

  lemma {:induction false} DistinctConcat(a: seq<byte>, b: seq<byte>)
    requires Distinct(a + b)
    ensures Distinct(a) && Distinct(b)
    ensures forall x :: x in a ==> x !in b
  {
    forall x | x in a
      ensures x !in b
    {
      var i :| 0 <= i < |a| && a[i] == x;
      assert (a + b)[i] == x;
      forall j | 0 <= j < |b|
        ensures b[j] != x
      {
        assert (a + b)[|a| + j] == b[j];
      }
    }
    assert forall i :: 0 <= i < |a| ==> (a + b)[i] == a[i];
    assert forall j :: 0 <= j < |b| ==> (a + b)[|a| + j] == b[j];
  }

  lemma Rejoin(bytes: seq<byte>, h: nat)
    requires h <= |bytes|
    ensures bytes[..h] + bytes[h..] == bytes
  {
  }

  // ---------------------------------------------------------------------
  // Facts about shapes
  // ---------------------------------------------------------------------

  lemma AtIn(s: Shape)
    ensures s.at in Indices(s)
  {
  }

  lemma {:induction false} UniqueCard(s: Shape)
    requires Unique(s)
    ensures s.SInner? ==> |Indices(s)| == 1 + |Indices(s.left)| + |Indices(s.right)|
  {
    if s.SInner? {
      assert Indices(s) == {s.at} + Indices(s.left) + Indices(s.right);
      assert ({s.at} + Indices(s.left)) !! Indices(s.right);
    }
  }

  /** The leaf holding `b` lies fewer links below the top than the tree has nodes. */
  lemma {:induction false} DepthBelow(s: Shape, b: byte)
    requires b in Letters(s) && Unique(s)
    ensures Depth(s, b) < |Indices(s)|
    decreases s
  {
    if s.SInner? {
      UniqueCard(s);
      if b in Letters(s.left) {
        DepthBelow(s.left, b);
      } else {
        DepthBelow(s.right, b);
      }
    }
  }

  /** The two halves of a node sit in disjoint index ranges below it. */
  lemma {:induction false} Apart(ls: Shape, rs: Shape, k: nat, top: nat)
    requires forall i :: i in Indices(ls) ==> i < k
    requires forall i :: i in Indices(rs) ==> k <= i < top
    ensures top !in Indices(ls) && top !in Indices(rs) && Indices(ls) !! Indices(rs)
  {
    forall i | i in Indices(ls)
      ensures i !in Indices(rs)
    {
    }
  }

  // ---------------------------------------------------------------------
  // Arenas holding shapes
  // ---------------------------------------------------------------------

  lemma {:induction false} LinkedBelow(ns: seq<Node>, s: Shape)
    requires Linked(ns, s)
    ensures forall i :: i in Indices(s) ==> i < |ns|
    decreases s
  {
    if s.SInner? {
      LinkedBelow(ns, s.left);
      LinkedBelow(ns, s.right);
    }
  }

  /** In a tree over distinct bytes, the leaf holding `b` is the one `LeafOf` finds. */
  lemma {:induction false} LeafOfUnique(ns: seq<Node>, s: Shape, i: nat, b: byte)
    requires Linked(ns, s) && Distinct(Letters(s))
    requires i in Indices(s) && i < |ns| && ns[i].data == Leaf(b)
    ensures b in Letters(s) && i == LeafOf(s, b)
    decreases s
  {
    if s.SInner? {
      DistinctConcat(Letters(s.left), Letters(s.right));
      if i == s.at {
        assert false;
      } else if i in Indices(s.left) {
        LeafOfUnique(ns, s.left, i, b);
      } else {
        LeafOfUnique(ns, s.right, i, b);
      }
    }
  }

  /** The leaf `LeafOf` finds holds its byte. */
  lemma {:induction false} LeafOfData(ns: seq<Node>, s: Shape, b: byte)
    requires Linked(ns, s) && b in Letters(s)
    ensures LeafOf(s, b) < |ns| && ns[LeafOf(s, b)].data == Leaf(b)
    decreases s
  {
    if s.SInner? {
      if b in Letters(s.left) {
        LeafOfData(ns, s.left, b);
      } else {
        LeafOfData(ns, s.right, b);
      }
    }
  }

  /** `Linked` only looks at the data of the shape's own nodes. */
  lemma {:induction false} LinkedFrame(ns: seq<Node>, ns': seq<Node>, s: Shape)
    requires Linked(ns, s)
    requires forall i :: i in Indices(s) ==> i < |ns| && i < |ns'| && ns'[i].data == ns[i].data
    ensures Linked(ns', s)
    decreases s
  {
    AtIn(s);
    if s.SInner? {
      LinkedFrame(ns, ns', s.left);
      LinkedFrame(ns, ns', s.right);
    }
  }

  /** `Sized` only looks at the leaf counts of the shape's own nodes. */
  lemma {:induction false} SizedFrame(ns: seq<Node>, ns': seq<Node>, s: Shape)
    requires Sized(ns, s)
    requires forall i :: i in Indices(s) ==> i < |ns| && i < |ns'| && ns'[i].subsize == ns[i].subsize
    ensures Sized(ns', s)
    decreases s
  {
    AtIn(s);
    if s.SInner? {
      SizedFrame(ns, ns', s.left);
      SizedFrame(ns, ns', s.right);
    }
  }

  /** `Parented` only looks at the parent links below the top of the shape. */
  lemma {:induction false} ParentedFrame(ns: seq<Node>, ns': seq<Node>, s: Shape)
    requires Parented(ns, s) && Unique(s)
    requires forall i :: i in Indices(s) && i != s.at ==> i < |ns| && i < |ns'| && ns'[i].parent == ns[i].parent
    ensures Parented(ns', s)
    decreases s
  {
    if s.SInner? {
      AtIn(s.left);
      AtIn(s.right);
      ParentedFrame(ns, ns', s.left);
      ParentedFrame(ns, ns', s.right);
    }
  }

  /** `ns'` starts with the nodes of `ns`. */
  ghost predicate Extends(ns: seq<Node>, ns': seq<Node>)
  {
    |ns| <= |ns'| && forall i :: 0 <= i < |ns| ==> ns'[i] == ns[i]
  }

  lemma AppendExtends(ns: seq<Node>, x: Node)
    ensures Extends(ns, ns + [x]) && |ns + [x]| == |ns| + 1 && (ns + [x])[|ns|] == x
  {
  }

  lemma ExtendsTrans(a: seq<Node>, b: seq<Node>, c: seq<Node>)
    requires Extends(a, b) && Extends(b, c)
    ensures Extends(a, c)
  {
  }

  /** Appending to the arena keeps every tree it already held. */
  lemma {:induction false} LinkedGrow(ns: seq<Node>, ns': seq<Node>, s: Shape)
    requires Linked(ns, s) && Extends(ns, ns')
    ensures Linked(ns', s)
    decreases s
  {
    if s.SInner? {
      LinkedGrow(ns, ns', s.left);
      LinkedGrow(ns, ns', s.right);
    }
  }

  lemma {:induction false} SizedGrow(ns: seq<Node>, ns': seq<Node>, s: Shape)
    requires Sized(ns, s) && Extends(ns, ns')
    ensures Sized(ns', s)
    decreases s
  {
    if s.SInner? {
      SizedGrow(ns, ns', s.left);
      SizedGrow(ns, ns', s.right);
    }
  }

  lemma {:induction false} ParentedGrow(ns: seq<Node>, ns': seq<Node>, s: Shape)
    requires Parented(ns, s) && Extends(ns, ns')
    ensures Parented(ns', s)
    decreases s
  {
    if s.SInner? {
      ParentedGrow(ns, ns', s.left);
      ParentedGrow(ns, ns', s.right);
    }
  }

  /** `node.parent = ..`: the arena with one parent link replaced. */
  function WithParent(ns: seq<Node>, i: nat, p: Option<nat>): (r: seq<Node>)
    requires i < |ns|
    ensures |r| == |ns| && r[i].parent == p
    ensures forall j :: 0 <= j < |ns| ==> r[j].subsize == ns[j].subsize && r[j].data == ns[j].data
    ensures forall j :: 0 <= j < |ns| && j != i ==> r[j] == ns[j]
  {
    ns[i := ns[i].(parent := p)]
  }

  /** `node.data = ..`: the arena with one node's data replaced. */
  function WithData(ns: seq<Node>, i: nat, d: Data): (r: seq<Node>)
    requires i < |ns|
    ensures |r| == |ns| && r[i].data == d
    ensures forall j :: 0 <= j < |ns| ==> r[j].subsize == ns[j].subsize && r[j].parent == ns[j].parent
    ensures forall j :: 0 <= j < |ns| && j != i ==> r[j] == ns[j]
  {
    ns[i := ns[i].(data := d)]
  }

  /** `node.subsize = ..`: the arena with one leaf count replaced. */
  function WithSubsize(ns: seq<Node>, i: nat, n: nat): (r: seq<Node>)
    requires i < |ns|
    ensures |r| == |ns| && r[i].subsize == n
    ensures forall j :: 0 <= j < |ns| ==> r[j].data == ns[j].data && r[j].parent == ns[j].parent
    ensures forall j :: 0 <= j < |ns| && j != i ==> r[j] == ns[j]
  {
    ns[i := ns[i].(subsize := n)]
  }
}
