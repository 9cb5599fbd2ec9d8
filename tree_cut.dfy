/**
 * Removing a byte's leaf from a tree (`remove_node`, corrected): the leaf's
 * parent drops out, the leaf's sibling takes the parent's place below the
 * grandparent, and every node above loses one leaf. `Cut` is the tree that
 * results, and `CutHolds` says which arena holds it.
 */
module TreeCut {
  import opened Common
  import opened MoveToFront
  import opened TreeArena
  import opened TreeWalk
  import opened TreeRank

  /** The alphabet with position `p` taken out. */
  function Without(alpha: seq<byte>, p: nat): (r: seq<byte>)
    requires p < |alpha|
    ensures |r| == |alpha| - 1
  {
    alpha[..p] + alpha[p + 1..]
  }

  lemma PromoteWithout(alpha: seq<byte>, p: nat)
    requires p < |alpha|
    ensures Promote(alpha, p) == [alpha[p]] + Without(alpha, p)
  {
  }

  lemma {:induction false} WithoutLeft(a: seq<byte>, c: seq<byte>, whole: seq<byte>, i: nat)
    requires whole == a + c && i < |a|
    ensures Without(whole, i) == Without(a, i) + c
  {
    assert whole[..i] == a[..i];
    assert whole[i + 1..] == a[i + 1..] + c;
  }

  lemma {:induction false} WithoutRight(a: seq<byte>, c: seq<byte>, whole: seq<byte>, j: nat, i: nat)
    requires whole == a + c && j < |c| && i == |a| + j
    ensures Without(whole, i) == a + Without(c, j)
  {
    assert whole[..i] == a + c[..j];
    assert whole[i + 1..] == c[j + 1..];
  }

  // ---------------------------------------------------------------------
  // The way down to a leaf
  // ---------------------------------------------------------------------

  /** The child on the way down to the first leaf holding `b`. */
  function Toward(t: Shape, b: byte): Shape
    requires t.SInner? && b in Letters(t)
  {
    if b in Letters(t.left) then t.left else t.right
  }

  /** The other child. */
  function Away(t: Shape, b: byte): Shape
    requires t.SInner? && b in Letters(t)
  {
    if b in Letters(t.left) then t.right else t.left
  }

  /** The index of the leaf's parent. */
  function Above(t: Shape, b: byte): nat
    requires t.SInner? && b in Letters(t)
    decreases t
  {
    if Toward(t, b).SLeaf? then t.at else Above(Toward(t, b), b)
  }

  /** The index of the leaf's sibling. */
  function Sib(t: Shape, b: byte): nat
    requires t.SInner? && b in Letters(t)
    decreases t
  {
    if Toward(t, b).SLeaf? then Away(t, b).at else Sib(Toward(t, b), b)
  }

  /** The index of the leaf's grandparent, when the parent is not the top. */
  function Grand(t: Shape, b: byte): nat
    requires t.SInner? && b in Letters(t) && Toward(t, b).SInner?
    decreases t
  {
    var c := Toward(t, b);
    if Toward(c, b).SLeaf? then t.at else Grand(c, b)
  }

  /** The nodes from the top down to the grandparent: those that lose a leaf. */
  function Upper(t: Shape, b: byte): (r: seq<nat>)
    requires t.SInner? && b in Letters(t)
    decreases t
  {
    if Toward(t, b).SLeaf? then [] else [t.at] + Upper(Toward(t, b), b)
  }

  /** The tree without the first leaf holding `b`, the leaf's parent dropped. */
  function Cut(t: Shape, b: byte): (r: Shape)
    requires t.SInner? && b in Letters(t)
    decreases t
  {
    if Toward(t, b).SLeaf? then Away(t, b)
    else if b in Letters(t.left) then SInner(t.at, Cut(t.left, b), t.right)
    else SInner(t.at, t.left, Cut(t.right, b))
  }

  // ---------------------------------------------------------------------
  // What `Cut` does to the alphabet and the indices
  // ---------------------------------------------------------------------

  /** Cutting takes the byte out of the alphabet at its position. */
  lemma {:induction false} CutLetters(t: Shape, b: byte)
    requires t.SInner? && b in Letters(t)
    ensures Letters(Cut(t, b)) == Without(Letters(t), IndexOf(Letters(t), b))
    decreases t
  {
    if b in Letters(t.left) {
      if t.left.SInner? {
        CutLetters(t.left, b);
      }
      CutLettersLeft(t, b);
    } else {
      if t.right.SInner? {
        CutLetters(t.right, b);
      }
      CutLettersRight(t, b);
    }
  }

  /** `CutLetters` when the byte is on the left, given it for the left child. */
  lemma {:induction false} CutLettersLeft(t: Shape, b: byte)
    requires t.SInner? && b in Letters(t.left)
    requires t.left.SInner? ==> Letters(Cut(t.left, b)) == Without(Letters(t.left), IndexOf(Letters(t.left), b))
    ensures Letters(Cut(t, b)) == Without(Letters(t), IndexOf(Letters(t), b))
  {
    var l, r := Letters(t.left), Letters(t.right);
    var k := IndexOf(l, b);
    IndexOfLeft(l, r, b);
    WithoutLeft(l, r, Letters(t), IndexOf(Letters(t), b));
    if t.left.SLeaf? {
      assert Without(l, k) == [];
      assert [] + r == r;
    }
  }

  /** `CutLetters` when the byte is only on the right, given it for the right child. */
  lemma {:induction false} CutLettersRight(t: Shape, b: byte)
    requires t.SInner? && b in Letters(t) && b !in Letters(t.left)
    requires t.right.SInner? ==> Letters(Cut(t.right, b)) == Without(Letters(t.right), IndexOf(Letters(t.right), b))
    ensures Letters(Cut(t, b)) == Without(Letters(t), IndexOf(Letters(t), b))
  {
    var l, r := Letters(t.left), Letters(t.right);
    var k := IndexOf(r, b);
    IndexOfRight(l, r, b);
    WithoutRight(l, r, Letters(t), k, IndexOf(Letters(t), b));
    if t.right.SLeaf? {
      assert Without(r, k) == [];
      assert l + [] == l;
    }
  }

  lemma {:induction false} CutIndices(t: Shape, b: byte)
    requires t.SInner? && b in Letters(t)
    ensures forall i :: i in Indices(Cut(t, b)) ==> i in Indices(t)
    decreases t
  {
    var c := Toward(t, b);
    if c.SInner? {
      CutIndices(c, b);
    }
  }

  lemma {:induction false} CutUnique(t: Shape, b: byte)
    requires t.SInner? && b in Letters(t) && Unique(t)
    ensures Unique(Cut(t, b))
    decreases t
  {
    var c := Toward(t, b);
    if c.SInner? {
      CutUnique(c, b);
      CutIndices(c, b);
    }
  }

  /** Every other byte keeps its leaf. */
  lemma {:induction false} CutLeafOf(t: Shape, b: byte, x: byte)
    requires t.SInner? && b in Letters(t) && x in Letters(t) && x != b && Distinct(Letters(t))
    ensures x in Letters(Cut(t, b)) && LeafOf(Cut(t, b), x) == LeafOf(t, x)
    decreases t
  {
    var l, r := t.left, t.right;
    DistinctConcat(Letters(l), Letters(r));
    if Toward(t, b).SInner? {
      if b in Letters(l) {
        if x in Letters(l) {
          CutLeafOf(l, b, x);
        } else {
          CutLetters(l, b);
          assert x !in Letters(Cut(l, b)) by {
            assert forall y :: y in Without(Letters(l), IndexOf(Letters(l), b)) ==> y in Letters(l);
          }
        }
      } else {
        if x in Letters(r) {
          CutLeafOf(r, b, x);
        }
      }
    }
  }

  /** Where the way down runs: all of it inside the tree, the sibling below the top. */
  lemma {:induction false} WayIn(t: Shape, b: byte)
    requires t.SInner? && b in Letters(t) && Unique(t)
    ensures forall i :: i in Upper(t, b) ==> i in Indices(t)
    ensures Above(t, b) in Indices(t) && Sib(t, b) in Indices(t) && Sib(t, b) != t.at
    ensures Toward(t, b).SInner? ==> Grand(t, b) in Upper(t, b)
    ensures Toward(t, b).SInner? ==> Sib(t, b) in Indices(Toward(t, b)) && Sib(t, b) != Toward(t, b).at
    ensures Toward(t, b).SInner? ==> Cut(t, b).at == t.at
    ensures Toward(t, b).SLeaf? ==> Cut(t, b).at == Sib(t, b)
    ensures Sib(t, b) !in Upper(t, b)
    decreases t
  {
    var c := Toward(t, b);
    AtIn(t.left);
    AtIn(t.right);
    if c.SInner? {
      WayIn(c, b);
      assert Upper(t, b) == [t.at] + Upper(c, b);
    }
  }

  // ---------------------------------------------------------------------
  // The arena after the cut
  // ---------------------------------------------------------------------

  /**
   * What `remove_node`, corrected, changes inside `t`: the nodes of
   * `Upper` lose a leaf, the grandparent's link to the parent becomes a link
   * to the sibling, and the sibling's parent link is the grandparent.
   */
  ghost predicate CutArena(ns: seq<Node>, ns': seq<Node>, t: Shape, b: byte)
    requires t.SInner? && b in Letters(t)
  {
    (forall i :: i in Indices(t) ==> i < |ns| && i < |ns'|)
    && (forall i :: i in Indices(t) && i !in Upper(t, b) ==> ns'[i].data == ns[i].data && ns'[i].subsize == ns[i].subsize)
    && (forall i :: i in Indices(t) && i != t.at && i != Sib(t, b) ==> ns'[i].parent == ns[i].parent)
    && (forall i :: i in Upper(t, b) ==> i < |ns| && i < |ns'| && ns'[i].subsize + 1 == ns[i].subsize)
    && (Toward(t, b).SInner? ==>
          (forall i :: i in Upper(t, b) && i != Grand(t, b) ==> ns'[i].data == ns[i].data)
          && Grand(t, b) < |ns| && Grand(t, b) < |ns'| && Sib(t, b) < |ns'| && ns[Grand(t, b)].data.Inner?
          && ns'[Grand(t, b)].data == Replaced(ns[Grand(t, b)].data, Above(t, b), Sib(t, b))
          && ns'[Sib(t, b)].parent == Some(Grand(t, b)))
  }

  /** At the leaf's parent: the sibling's subtree is held as before. */
  lemma {:induction false} CutAtParent(ns: seq<Node>, ns': seq<Node>, t: Shape, b: byte)
    requires t.SInner? && b in Letters(t) && Toward(t, b).SLeaf? && Holds(ns, t)
    requires CutArena(ns, ns', t, b)
    ensures Holds(ns', Cut(t, b))
  {
    var a := Away(t, b);
    assert Holds(ns, a);
    AtIn(a);
    LinkedFrame(ns, ns', a);
    SizedFrame(ns, ns', a);
    ParentedFrame(ns, ns', a);
  }

  /** The conditions of `CutArena` hold for the child on the way down. */
  lemma {:induction false} CutArenaDown(ns: seq<Node>, ns': seq<Node>, t: Shape, b: byte)
    requires t.SInner? && b in Letters(t) && Toward(t, b).SInner? && Unique(t)
    requires CutArena(ns, ns', t, b)
    ensures CutArena(ns, ns', Toward(t, b), b)
  {
    var c := Toward(t, b);
    AtIn(t.left);
    AtIn(t.right);
    WayIn(c, b);
    assert Upper(t, b) == [t.at] + Upper(c, b);
    assert Sib(t, b) == Sib(c, b) && Above(t, b) == Above(c, b);
    assert Toward(c, b).SInner? ==> Grand(t, b) == Grand(c, b);
  }

  /** The subtree off the way down is held as before. */
  lemma {:induction false} CutAway(ns: seq<Node>, ns': seq<Node>, t: Shape, b: byte)
    requires t.SInner? && b in Letters(t) && Toward(t, b).SInner? && Holds(ns, t)
    requires CutArena(ns, ns', t, b)
    ensures Holds(ns', Away(t, b)) && ns'[Away(t, b).at].parent == Some(t.at)
  {
    var a, c := Away(t, b), Toward(t, b);
    assert Holds(ns, a);
    AtIn(a);
    WayIn(t, b);
    WayIn(c, b);
    assert Upper(t, b) == [t.at] + Upper(c, b);
    assert forall i :: i in Indices(a) ==> i !in Indices(c) && i != t.at;
    LinkedFrame(ns, ns', a);
    SizedFrame(ns, ns', a);
    ParentedFrame(ns, ns', a);
  }

  /** The top of the cut tree, above the parent. */
  lemma {:induction false} CutTop(ns: seq<Node>, ns': seq<Node>, t: Shape, b: byte)
    requires t.SInner? && b in Letters(t) && Toward(t, b).SInner? && Holds(ns, t)
    requires CutArena(ns, ns', t, b)
    ensures Cut(t, b).SInner? && Cut(t, b).at == t.at
    ensures ns'[t.at].subsize == |Letters(Cut(t, b))|
    ensures ns'[t.at].data == Inner(Cut(t, b).left.at, Cut(t, b).right.at)
    ensures Cut(Toward(t, b), b).at < |ns'| && ns'[Cut(Toward(t, b), b).at].parent == Some(t.at)
  {
    var c := Toward(t, b);
    WayIn(t, b);
    WayIn(c, b);
    AtIn(t.left);
    AtIn(t.right);
    CutLetters(t, b);
    assert Upper(t, b) == [t.at] + Upper(c, b);
    assert t.at in Upper(t, b);
    assert Linked(ns, t) && ns[t.at].data == Inner(t.left.at, t.right.at) && t.left.at != t.right.at;
    assert ns[t.at].subsize == |Letters(t)| && ns[c.at].parent == Some(t.at);
    if Toward(c, b).SLeaf? {
      assert Grand(t, b) == t.at && Above(t, b) == c.at && Cut(c, b).at == Sib(t, b);
    } else {
      assert Grand(t, b) == Grand(c, b) && Grand(t, b) != t.at;
      assert Cut(c, b).at == c.at && Sib(t, b) == Sib(c, b);
    }
  }

  /** The arena described by `CutArena` holds the cut tree. */
  lemma {:induction false} CutHolds(ns: seq<Node>, ns': seq<Node>, t: Shape, b: byte)
    requires t.SInner? && b in Letters(t) && Holds(ns, t)
    requires CutArena(ns, ns', t, b)
    ensures Holds(ns', Cut(t, b))
    decreases t
  {
    var c := Toward(t, b);
    if c.SLeaf? {
      CutAtParent(ns, ns', t, b);
    } else {
      assert Holds(ns, c);
      CutArenaDown(ns, ns', t, b);
      CutHolds(ns, ns', c, b);
      CutAway(ns, ns', t, b);
      CutTop(ns, ns', t, b);
      CutUnique(t, b);
      CutJoin(ns', t, b);
    }
  }

  /** Puts the top node and the two held subtrees of the cut tree together. */
  lemma CutJoin(ns': seq<Node>, t: Shape, b: byte)
    requires t.SInner? && b in Letters(t) && Toward(t, b).SInner? && t.at < |ns'|
    requires Holds(ns', Cut(Toward(t, b), b)) && Holds(ns', Away(t, b)) && Unique(Cut(t, b))
    requires Cut(t, b).SInner? && Cut(t, b).at == t.at
    requires ns'[t.at].subsize == |Letters(Cut(t, b))|
    requires ns'[t.at].data == Inner(Cut(t, b).left.at, Cut(t, b).right.at)
    requires ns'[Cut(Toward(t, b), b).at].parent == Some(t.at) && ns'[Away(t, b).at].parent == Some(t.at)
    ensures Holds(ns', Cut(t, b))
  {
  }
}
