/**
 * `insert_front` on a well-formed tree: walking down the left edge it adds
 * one leaf to every count, and at the leftmost leaf it hangs a new inner
 * node whose left child is a new leaf for the byte. `Front` is the tree
 * that results, whose alphabet starts with the new byte.
 */
module TreeFront {
  import opened Common
  import opened MoveToFront
  import opened TreeArena
  import opened TreeWalk

  /** The tree with a new leaf `n` for `b` and a new inner node `m` at its far left. */
  function Front(t: Shape, b: byte, n: nat, m: nat): (r: Shape)
  {
    match t
    case SLeaf(f, c) => SInner(m, SLeaf(n, b), SLeaf(f, c))
    case SInner(at, l, r) => SInner(at, Front(l, b, n, m), r)
  }

  /** How many links the far-left leaf lies below the top. */
  function Spine(t: Shape): nat
  {
    match t
    case SLeaf(_, _) => 0
    case SInner(_, l, _) => 1 + Spine(l)
  }

  /** The new byte comes first, everything else follows in order. */
  lemma {:induction false} FrontLetters(t: Shape, b: byte, n: nat, m: nat)
    ensures Letters(Front(t, b, n, m)) == [b] + Letters(t)
  {
    if t.SInner? {
      FrontLetters(t.left, b, n, m);
    }
  }

  lemma {:induction false} FrontIndices(t: Shape, b: byte, n: nat, m: nat)
    ensures Indices(Front(t, b, n, m)) == Indices(t) + {n, m}
    ensures Front(t, b, n, m).at == if t.SLeaf? then m else t.at
  {
    if t.SInner? {
      FrontIndices(t.left, b, n, m);
    }
  }

  lemma {:induction false} FrontUnique(t: Shape, b: byte, n: nat, m: nat)
    requires Unique(t) && n != m && n !in Indices(t) && m !in Indices(t)
    ensures Unique(Front(t, b, n, m))
  {
    if t.SInner? {
      FrontUnique(t.left, b, n, m);
      FrontIndices(t.left, b, n, m);
    }
  }

  /** The new leaf is the first leaf of `b`; every other byte keeps its leaf. */
  lemma {:induction false} FrontLeafOf(t: Shape, b: byte, n: nat, m: nat, x: byte)
    requires x == b || x in Letters(t)
    ensures x in Letters(Front(t, b, n, m))
    ensures LeafOf(Front(t, b, n, m), x) == if x == b then n else LeafOf(t, x)
  {
    FrontLetters(t, b, n, m);
    if t.SInner? {
      FrontLetters(t.left, b, n, m);
      if x == b || x in Letters(t.left) {
        FrontLeafOf(t.left, b, n, m, x);
      } else {
        assert x !in Letters(Front(t.left, b, n, m));
      }
    }
  }

  lemma {:induction false} SpineBelow(t: Shape)
    requires Unique(t)
    ensures Spine(t) < |Indices(t)|
  {
    if t.SInner? {
      UniqueCard(t);
      SpineBelow(t.left);
    }
  }

  // ---------------------------------------------------------------------
  // `insert_front` at a node whose left child is a leaf
  // ---------------------------------------------------------------------

  /** `insert_front` at `t`, whose left child is the leaf `f`, step by step. */
  lemma {:induction false} BaseUnfold(ns: seq<Node>, t: Shape, b: byte, fuel: nat, ns': seq<Node>)
    requires t.SInner? && t.left.SLeaf? && Holds(ns, t) && |Letters(t)| < 0xFFFF && fuel >= 2
    requires ns' == (var ns1 := WithSubsize(ns, t.at, ns[t.at].subsize + 1);
                     var grown := ns1 + [Node(None, 1, Leaf(b)), Node(Some(t.at), 2, Inner(|ns|, t.left.at))];
                     var linked := WithParent(WithParent(grown, t.left.at, Some(|ns| + 1)), |ns|, Some(|ns| + 1));
                     WithData(linked, t.at, Inner(|ns| + 1, ns1[t.at].data.right)))
    ensures Inserted(ns, t.at, b, fuel) == Some((ns', |ns|))
  {
    var f := t.left.at;
    assert Linked(ns, t) && Parented(ns, t) && Sized(ns, t) && Linked(ns, t.left);
    assert ns[t.at].data == Inner(f, t.right.at) && ns[f].parent == Some(t.at) && ns[f].data.Leaf?;
    var ns1 := WithSubsize(ns, t.at, ns[t.at].subsize + 1);
    AtIn(t.left);
    assert f != t.at;
    assert Inserted(ns, t.at, b, fuel) == Inserted(ns1, f, b, fuel - 1);
  }

  /** What the arena holds after `insert_front` at such a node. */
  lemma {:induction false} BaseHolds(ns: seq<Node>, t: Shape, b: byte, ns': seq<Node>)
    requires t.SInner? && t.left.SLeaf? && Holds(ns, t)
    requires forall i :: i in Indices(t) ==> i < |ns|
    requires |ns'| == |ns| + 2
    requires forall j :: 0 <= j < |ns| && j != t.at && j != t.left.at ==> ns'[j] == ns[j]
    requires ns'[t.at] == Node(ns[t.at].parent, |Letters(t)| + 1, Inner(|ns| + 1, t.right.at))
    requires ns'[t.left.at] == Node(Some(|ns| + 1), 1, Leaf(t.left.letter))
    requires ns'[|ns|] == Node(Some(|ns| + 1), 1, Leaf(b))
    requires ns'[|ns| + 1] == Node(Some(t.at), 2, Inner(|ns|, t.left.at))
    ensures Holds(ns', Front(t, b, |ns|, |ns| + 1))
  {
    var l, r := t.left, t.right;
    assert Holds(ns, r);
    AtIn(r);
    assert forall i :: i in Indices(r) ==> i in Indices(t) && i != t.at && i != l.at;
    assert forall i :: i in Indices(r) ==> i < |ns| && ns'[i] == ns[i];
    LinkedFrame(ns, ns', r);
    SizedFrame(ns, ns', r);
    ParentedFrame(ns, ns', r);
    FrontUnique(t, b, |ns|, |ns| + 1);
    FrontLetters(t, b, |ns|, |ns| + 1);
    assert ns'[r.at].parent == ns[r.at].parent == Some(t.at);
  }

  // ---------------------------------------------------------------------
  // `insert_front` on a well-formed tree
  // ---------------------------------------------------------------------

  /**
   * `insert_front` at the top of a tree with fewer than 65535 leaves, given
   * enough links, leaves an arena holding `Front` of the tree over two new
   * nodes at its end, and changes nothing outside the tree.
   */
  lemma {:induction false} InsertedFront(ns: seq<Node>, t: Shape, b: byte, fuel: nat)
    requires t.SInner? && Holds(ns, t) && |Letters(t)| < 0xFFFF && fuel > Spine(t)
    requires forall i :: i in Indices(t) ==> i < |ns|
    ensures Inserted(ns, t.at, b, fuel).Some?
    ensures Holds(Inserted(ns, t.at, b, fuel).value.0, Front(t, b, |ns|, |ns| + 1))
    ensures Inserted(ns, t.at, b, fuel).value.0[t.at].parent == ns[t.at].parent
    ensures forall j :: 0 <= j < |ns| && j !in Indices(t) ==> Inserted(ns, t.at, b, fuel).value.0[j] == ns[j]
    decreases t, 1
  {
    if t.left.SLeaf? {
      InsertedBase(ns, t, b, fuel);
    } else {
      InsertedStep(ns, t, b, fuel);
    }
  }

  lemma {:induction false} InsertedBase(ns: seq<Node>, t: Shape, b: byte, fuel: nat)
    requires t.SInner? && t.left.SLeaf? && Holds(ns, t) && |Letters(t)| < 0xFFFF && fuel > Spine(t)
    requires forall i :: i in Indices(t) ==> i < |ns|
    ensures Inserted(ns, t.at, b, fuel).Some?
    ensures Holds(Inserted(ns, t.at, b, fuel).value.0, Front(t, b, |ns|, |ns| + 1))
    ensures Inserted(ns, t.at, b, fuel).value.0[t.at].parent == ns[t.at].parent
    ensures forall j :: 0 <= j < |ns| && j !in Indices(t) ==> Inserted(ns, t.at, b, fuel).value.0[j] == ns[j]
    decreases t, 0
  {
    var f := t.left.at;
    AtIn(t.left);
    assert Linked(ns, t) && Sized(ns, t) && Linked(ns, t.left) && Sized(ns, t.left);
    assert ns[t.at].data == Inner(f, t.right.at) && ns[f].data == Leaf(t.left.letter);
    assert ns[f].subsize == 1 && ns[t.at].subsize == |Letters(t)| && f != t.at;
    assert Parented(ns, t) && ns[f].parent == Some(t.at);
    var ns1 := WithSubsize(ns, t.at, ns[t.at].subsize + 1);
    var grown := ns1 + [Node(None, 1, Leaf(b)), Node(Some(t.at), 2, Inner(|ns|, f))];
    var linked := WithParent(WithParent(grown, f, Some(|ns| + 1)), |ns|, Some(|ns| + 1));
    var ns' := WithData(linked, t.at, Inner(|ns| + 1, ns1[t.at].data.right));
    BaseUnfold(ns, t, b, fuel, ns');
    BaseHolds(ns, t, b, ns');
  }

  lemma {:induction false} InsertedStep(ns: seq<Node>, t: Shape, b: byte, fuel: nat)
    requires t.SInner? && t.left.SInner? && Holds(ns, t) && |Letters(t)| < 0xFFFF && fuel > Spine(t)
    requires forall i :: i in Indices(t) ==> i < |ns|
    ensures Inserted(ns, t.at, b, fuel).Some?
    ensures Holds(Inserted(ns, t.at, b, fuel).value.0, Front(t, b, |ns|, |ns| + 1))
    ensures Inserted(ns, t.at, b, fuel).value.0[t.at].parent == ns[t.at].parent
    ensures forall j :: 0 <= j < |ns| && j !in Indices(t) ==> Inserted(ns, t.at, b, fuel).value.0[j] == ns[j]
    decreases t, 0
  {
    var l, r := t.left, t.right;
    AtIn(l);
    AtIn(r);
    assert Linked(ns, t) && Sized(ns, t) && ns[t.at].data == Inner(l.at, r.at) && ns[t.at].subsize == |Letters(t)|;
    var ns1 := WithSubsize(ns, t.at, ns[t.at].subsize + 1);
    var f: nat := fuel - 1;
    assert Inserted(ns, t.at, b, fuel) == Inserted(ns1, l.at, b, f);
    assert Holds(ns, l) && t.at !in Indices(l);
    assert forall i :: i in Indices(l) ==> i in Indices(t) && i < |ns1| && ns1[i] == ns[i];
    LinkedFrame(ns, ns1, l);
    SizedFrame(ns, ns1, l);
    ParentedFrame(ns, ns1, l);
    assert |Letters(l)| < |Letters(t)| && f > Spine(l);
    InsertedFront(ns1, l, b, f);
    var ns' := Inserted(ns1, l.at, b, f).value.0;
    StepHolds(ns, ns1, ns', t, b);
  }

  /** The top of the tree after `insert_front` went on down its left edge. */
  lemma {:induction false} StepHolds(ns: seq<Node>, ns1: seq<Node>, ns': seq<Node>, t: Shape, b: byte)
    requires t.SInner? && t.left.SInner? && Holds(ns, t) && |Letters(t)| < 0xFFFF
    requires forall i :: i in Indices(t) ==> i < |ns|
    requires ns1 == WithSubsize(ns, t.at, ns[t.at].subsize + 1) && |ns'| == |ns| + 2
    requires Holds(ns', Front(t.left, b, |ns|, |ns| + 1)) && ns'[t.left.at].parent == ns1[t.left.at].parent
    requires forall j :: 0 <= j < |ns| && j !in Indices(t.left) ==> ns'[j] == ns1[j]
    ensures Holds(ns', Front(t, b, |ns|, |ns| + 1))
    ensures ns'[t.at].parent == ns[t.at].parent
    ensures forall j :: 0 <= j < |ns| && j !in Indices(t) ==> ns'[j] == ns[j]
  {
    var l, r := t.left, t.right;
    AtIn(l);
    AtIn(r);
    assert Holds(ns, r) && Parented(ns, t) && ns[r.at].parent == Some(t.at) && ns[l.at].parent == Some(t.at);
    assert forall i :: i in Indices(r) ==> i in Indices(t) && i !in Indices(l) && i != t.at;
    assert forall i :: i in Indices(r) ==> i < |ns| && ns'[i] == ns[i];
    LinkedFrame(ns, ns', r);
    SizedFrame(ns, ns', r);
    ParentedFrame(ns, ns', r);
    FrontIndices(l, b, |ns|, |ns| + 1);
    FrontUnique(t, b, |ns|, |ns| + 1);
    FrontLetters(t, b, |ns|, |ns| + 1);
    assert ns'[t.at] == ns1[t.at];
  }
}
