/**
 * The corrected `remove_node` on a well-formed tree: it walks from the
 * byte's leaf up through the parent and grandparent, and the arena it
 * leaves behind holds `Cut` of the tree, rooted where `Cut` says.
 */
module TreeRemove {
  import opened Common
  import opened Sorting
  import opened TreeArena
  import opened TreeWalk
  import opened TreeCut

  // ---------------------------------------------------------------------
  // `recursive_decrement` along a chain of parent links
  // ---------------------------------------------------------------------

  /**
   * `path` runs down parent links from a node with no parent, visits no
   * node twice, and every node on it has a leaf to give up.
   */
  ghost predicate Chain(ns: seq<Node>, path: seq<nat>)
  {
    |path| >= 1 && NoDup(path)
    && (forall j :: 0 <= j < |path| ==> path[j] < |ns| && ns[path[j]].subsize >= 1)
    && ns[path[0]].parent == None
    && (forall j :: 1 <= j < |path| ==> ns[path[j]].parent == Some(path[j - 1]))
  }

  /** Lowering the last node first and then the rest is lowering them all. */
  lemma {:induction false} LoweredLast(ns: seq<Node>, path: seq<nat>, up: seq<nat>, last: nat, lw: seq<Node>)
    requires path == up + [last] && last < |ns| && last !in up && ns[last].subsize >= 1
    requires forall j :: 0 <= j < |path| && path[j] < |ns| ==> ns[path[j]].subsize >= 1
    requires lw == WithSubsize(ns, last, ns[last].subsize - 1)
    ensures forall j :: 0 <= j < |up| && up[j] < |lw| ==> lw[up[j]].subsize >= 1
    ensures Lowered(lw, up) == Lowered(ns, path)
  {
    assert forall j :: 0 <= j < |up| ==> up[j] == path[j] && up[j] != last;
    assert path[|up|] == last;
    var a := Lowered(lw, up);
    var c := Lowered(ns, path);
    forall i | 0 <= i < |ns|
      ensures a[i] == c[i]
    {
      assert i in path <==> i in up || i == last;
    }
  }

  /** A chain without its last node is still a chain, after that node is lowered. */
  lemma {:induction false} ChainUp(ns: seq<Node>, path: seq<nat>, up: seq<nat>, last: nat, lw: seq<Node>)
    requires Chain(ns, path) && |path| >= 2
    requires up == path[..|path| - 1] && last == path[|path| - 1]
    requires lw == WithSubsize(ns, last, ns[last].subsize - 1)
    ensures path == up + [last] && last !in up && Chain(lw, up)
    ensures last < |ns| && ns[last].subsize >= 1 && ns[last].parent == Some(up[|up| - 1])
    ensures forall j :: 0 <= j < |up| && up[j] < |ns| ==> ns[up[j]].subsize >= 1
  {
    assert forall j :: 0 <= j < |up| ==> up[j] == path[j] && up[j] != last;
    assert up[|up| - 1] == path[|path| - 2];
  }

  /** Decrementing from the bottom of a chain lowers every node on it. */
  lemma {:induction false} DecrementedChain(ns: seq<Node>, path: seq<nat>, fuel: nat)
    requires Chain(ns, path) && fuel >= |path|
    ensures Decremented(ns, path[|path| - 1], fuel) == Some(Lowered(ns, path))
    decreases |path|, 1
  {
    if |path| == 1 {
      DecrementedRoot(ns, path[0], fuel);
      assert path == [path[0]];
    } else {
      DecrementedLonger(ns, path, fuel);
    }
  }

  lemma {:induction false} DecrementedLonger(ns: seq<Node>, path: seq<nat>, fuel: nat)
    requires Chain(ns, path) && |path| >= 2 && fuel >= |path|
    ensures Decremented(ns, path[|path| - 1], fuel) == Some(Lowered(ns, path))
    decreases |path|, 0
  {
    var last := path[|path| - 1];
    var up := path[..|path| - 1];
    var lw := WithSubsize(ns, last, ns[last].subsize - 1);
    ChainUp(ns, path, up, last, lw);
    var f: nat := fuel - 1;
    DecrementedChain(lw, up, f);
    assert path == up + [last];
    DecrementedSnoc(ns, path, up, last, lw, fuel, f);
  }

  /** At a node with no parent, `recursive_decrement` lowers that node alone. */
  lemma {:induction false} DecrementedRoot(ns: seq<Node>, i: nat, fuel: nat)
    requires fuel >= 1 && i < |ns| && ns[i].subsize >= 1 && ns[i].parent == None
    ensures Decremented(ns, i, fuel) == Some(Lowered(ns, [i]))
  {
    var lw := WithSubsize(ns, i, ns[i].subsize - 1);
    LoweredLast(ns, [i], [], i, lw);
    assert Lowered(lw, []) == lw;
  }

  /** One step of `recursive_decrement` up from `last` to the bottom of `up`. */
  lemma {:induction false} DecrementedSnoc(ns: seq<Node>, path: seq<nat>, up: seq<nat>, last: nat, lw: seq<Node>, fuel: nat, f: nat)
    requires path == up + [last] && |up| >= 1 && last < |ns| && last !in up && ns[last].subsize >= 1
    requires forall j :: 0 <= j < |path| && path[j] < |ns| ==> ns[path[j]].subsize >= 1
    requires ns[last].parent == Some(up[|up| - 1])
    requires lw == WithSubsize(ns, last, ns[last].subsize - 1)
    requires forall j :: 0 <= j < |up| && up[j] < |lw| ==> lw[up[j]].subsize >= 1
    requires f + 1 == fuel && Decremented(lw, up[|up| - 1], f) == Some(Lowered(lw, up))
    ensures Decremented(ns, last, fuel) == Some(Lowered(ns, path))
  {
    LoweredLast(ns, path, up, last, lw);
    DecrementedStep(ns, last, up[|up| - 1], fuel, f, Lowered(ns, path));
  }

  /** One step of `recursive_decrement` up from `i` to its parent `p`. */
  lemma DecrementedStep(ns: seq<Node>, i: nat, p: nat, fuel: nat, f: nat, r: seq<Node>)
    requires f + 1 == fuel && i < |ns| && ns[i].subsize >= 1 && ns[i].parent == Some(p)
    requires Decremented(WithSubsize(ns, i, ns[i].subsize - 1), p, f) == Some(r)
    ensures Decremented(ns, i, fuel) == Some(r)
  {
  }

  /** The chain keeps its links when nothing on it changes its parent or count. */
  lemma ChainFrame(ns: seq<Node>, ns': seq<Node>, path: seq<nat>)
    requires Chain(ns, path) && |ns'| == |ns|
    requires forall j :: 0 <= j < |path| ==> ns'[path[j]].parent == ns[path[j]].parent && ns'[path[j]].subsize == ns[path[j]].subsize
    ensures Chain(ns', path)
  {
  }

  // ---------------------------------------------------------------------
  // The way down in the arena
  // ---------------------------------------------------------------------

  /** Every node of a counted tree has at least one leaf. */
  lemma {:induction false} SizedPositive(ns: seq<Node>, s: Shape)
    requires Sized(ns, s)
    ensures forall i :: i in Indices(s) ==> i < |ns| && ns[i].subsize >= 1
    decreases s
  {
    if s.SInner? {
      SizedPositive(ns, s.left);
      SizedPositive(ns, s.right);
    }
  }

  lemma {:induction false} UpperLength(t: Shape, b: byte)
    requires t.SInner? && b in Letters(t)
    ensures |Upper(t, b)| + 1 == Depth(t, b)
    decreases t
  {
    if Toward(t, b).SInner? {
      UpperLength(Toward(t, b), b);
    }
  }

  /** `Upper`, read from the top, follows parent links down to the grandparent. */
  lemma {:induction false} UpperChain(ns: seq<Node>, t: Shape, b: byte)
    requires t.SInner? && b in Letters(t) && Toward(t, b).SInner? && Holds(ns, t)
    ensures |Upper(t, b)| >= 1 && Upper(t, b)[0] == t.at && Upper(t, b)[|Upper(t, b)| - 1] == Grand(t, b)
    ensures NoDup(Upper(t, b))
    ensures forall j :: 0 <= j < |Upper(t, b)| ==> Upper(t, b)[j] < |ns|
    ensures forall j :: 1 <= j < |Upper(t, b)| ==> ns[Upper(t, b)[j]].parent == Some(Upper(t, b)[j - 1])
    decreases t
  {
    var c := Toward(t, b);
    var u := Upper(t, b);
    assert u == [t.at] + Upper(c, b);
    assert Holds(ns, c) && ns[c.at].parent == Some(t.at);
    WayIn(t, b);
    if Toward(c, b).SInner? {
      UpperChain(ns, c, b);
      WayIn(c, b);
      assert t.at !in Indices(c);
      assert forall j :: 1 <= j < |u| ==> u[j] == Upper(c, b)[j - 1];
    }
  }

  /** The first leaf holding `b` hangs below `Above`, next to `Sib`, under `Grand`. */
  lemma {:induction false} AboveFacts(ns: seq<Node>, t: Shape, b: byte)
    requires t.SInner? && b in Letters(t) && Holds(ns, t)
    ensures LeafOf(t, b) < |ns| && ns[LeafOf(t, b)].parent == Some(Above(t, b))
    ensures Above(t, b) < |ns| && ns[Above(t, b)].data.Inner?
    ensures Other(ns[Above(t, b)].data, LeafOf(t, b)) == Sib(t, b)
    ensures Toward(t, b).SLeaf? ==> Above(t, b) == t.at
    ensures Toward(t, b).SInner? ==> ns[Above(t, b)].parent == Some(Grand(t, b))
    ensures Toward(t, b).SInner? ==> Grand(t, b) < |ns| && ns[Grand(t, b)].data.Inner?
    decreases t
  {
    var c := Toward(t, b);
    AtIn(t.left);
    AtIn(t.right);
    assert Holds(ns, c) && ns[c.at].parent == Some(t.at);
    assert ns[t.at].data == Inner(t.left.at, t.right.at) && t.left.at != t.right.at;
    if c.SInner? {
      AboveFacts(ns, c, b);
      assert LeafOf(t, b) == LeafOf(c, b);
    }
  }

  // ---------------------------------------------------------------------
  // `remove_node`, corrected, on a well-formed tree
  // ---------------------------------------------------------------------

  /** When the leaf's parent is the root, the sibling becomes the root. */
  lemma {:induction false} RemovedTop(ns: seq<Node>, s: Shape, b: byte, fuel: nat)
    requires s.SInner? && b in Letters(s) && Toward(s, b).SLeaf? && Holds(ns, s) && ns[s.at].parent == None
    ensures Removed(ns, s.at, LeafOf(s, b), fuel).Some?
    ensures Removed(ns, s.at, LeafOf(s, b), fuel).value.1 == Cut(s, b).at
    ensures CutArena(ns, Removed(ns, s.at, LeafOf(s, b), fuel).value.0, s, b)
    ensures Removed(ns, s.at, LeafOf(s, b), fuel).value.0[Cut(s, b).at].parent == None
  {
    AboveFacts(ns, s, b);
    WayIn(s, b);
    LinkedBelow(ns, s);
    var sib := Sib(s, b);
    var ns' := WithParent(ns, sib, None);
    assert Removed(ns, s.at, LeafOf(s, b), fuel) == Some((ns', sib));
  }

  /** `remove_node`, corrected, when the leaf has a grandparent. */
  lemma RemovedUnfold(ns: seq<Node>, root: nat, i: nat, p: nat, g: nat, sib: nat, fuel: nat, lowered: seq<Node>)
    requires i < |ns| && ns[i].parent == Some(p) && p < |ns| && ns[p].data.Inner?
    requires sib == Other(ns[p].data, i) && sib < |ns| && ns[p].parent == Some(g) && g < |ns| && ns[g].data.Inner?
    requires Decremented(WithParent(WithData(ns, g, Replaced(ns[g].data, p, sib)), sib, Some(g)), g, fuel) == Some(lowered)
    ensures Removed(ns, root, i, fuel) == Some((lowered, root))
  {
  }

  /** The arena `remove_node` leaves when the leaf has a grandparent is the one `CutArena` describes. */
  lemma {:induction false} DeepArena(ns: seq<Node>, s: Shape, b: byte, relinked: seq<Node>, ns': seq<Node>)
    requires s.SInner? && b in Letters(s) && Toward(s, b).SInner? && Holds(ns, s)
    requires forall i :: i in Indices(s) ==> i < |ns|
    requires Grand(s, b) < |ns| && ns[Grand(s, b)].data.Inner? && Sib(s, b) < |ns|
    requires relinked == WithParent(WithData(ns, Grand(s, b), Replaced(ns[Grand(s, b)].data, Above(s, b), Sib(s, b))), Sib(s, b), Some(Grand(s, b)))
    requires forall j :: 0 <= j < |Upper(s, b)| && Upper(s, b)[j] < |relinked| ==> relinked[Upper(s, b)[j]].subsize >= 1
    requires ns' == Lowered(relinked, Upper(s, b))
    ensures CutArena(ns, ns', s, b)
  {
    WayIn(s, b);
  }

  /** Otherwise the grandparent adopts the sibling and every node above loses a leaf. */
  lemma {:induction false} RemovedDeep(ns: seq<Node>, s: Shape, b: byte, fuel: nat)
    requires s.SInner? && b in Letters(s) && Toward(s, b).SInner? && Holds(ns, s) && ns[s.at].parent == None
    requires fuel >= |ns|
    ensures Removed(ns, s.at, LeafOf(s, b), fuel).Some?
    ensures Removed(ns, s.at, LeafOf(s, b), fuel).value.1 == Cut(s, b).at
    ensures CutArena(ns, Removed(ns, s.at, LeafOf(s, b), fuel).value.0, s, b)
    ensures Removed(ns, s.at, LeafOf(s, b), fuel).value.0[Cut(s, b).at].parent == None
  {
    AboveFacts(ns, s, b);
    WayIn(s, b);
    LinkedBelow(ns, s);
    SizedPositive(ns, s);
    UpperChain(ns, s, b);
    var p, g, sib := Above(s, b), Grand(s, b), Sib(s, b);
    var up := Upper(s, b);
    var relinked := WithParent(WithData(ns, g, Replaced(ns[g].data, p, sib)), sib, Some(g));
    assert Chain(ns, up);
    ChainFrame(ns, relinked, up);
    UpperLength(s, b);
    DepthBelow(s, b);
    BelowCard(Indices(s), |ns|);
    DecrementedChain(relinked, up, fuel);
    var ns' := Lowered(relinked, up);
    RemovedUnfold(ns, s.at, LeafOf(s, b), p, g, sib, fuel, ns');
    DeepArena(ns, s, b, relinked, ns');
  }

  /**
   * The corrected `remove_node` on the first leaf holding `b` leaves an
   * arena holding the tree without that leaf, whose root has no parent.
   */
  lemma {:induction false} RemovedCut(ns: seq<Node>, s: Shape, b: byte, fuel: nat)
    requires s.SInner? && b in Letters(s) && Holds(ns, s) && ns[s.at].parent == None && fuel >= |ns|
    ensures Removed(ns, s.at, LeafOf(s, b), fuel).Some?
    ensures Removed(ns, s.at, LeafOf(s, b), fuel).value.1 == Cut(s, b).at
    ensures Holds(Removed(ns, s.at, LeafOf(s, b), fuel).value.0, Cut(s, b))
    ensures Removed(ns, s.at, LeafOf(s, b), fuel).value.0[Cut(s, b).at].parent == None
  {
    if Toward(s, b).SLeaf? {
      RemovedTop(ns, s, b, fuel);
    } else {
      RemovedDeep(ns, s, b, fuel);
    }
    CutHolds(ns, Removed(ns, s.at, LeafOf(s, b), fuel).value.0, s, b);
  }
}
