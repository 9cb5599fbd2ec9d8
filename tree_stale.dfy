/**
 * `move_to_front` over `remove_node` as written, on a well-formed tree
 * whose first three leaves are a leaf and a pair of sibling leaves, the
 * shape the 255-leaf tree of `new` starts with. Moving the middle byte
 * leaves the arena the corrected removal leaves, except that the
 * sibling's parent link still names the detached parent; from there the
 * sibling's rank is counted through the detached node and comes out one
 * too high.
 */
module TreeStale {
  import opened Common
  import opened MoveToFront
  import opened TreeArena
  import opened TreeWalk
  import opened TreeRank
  import opened TreeCut
  import opened TreeRemove
  import opened TreeFront
  import opened TreeStep

  // ---------------------------------------------------------------------
  // One parent link changed: what the walks over the arena still see
  // ---------------------------------------------------------------------

  /** `recursive_decrement` only lowers leaf counts, and lowers its own node's. */
  lemma {:induction false} DecrementedLower(ns: seq<Node>, i: nat, fuel: nat)
    requires Decremented(ns, i, fuel).Some?
    ensures i < |ns| && Decremented(ns, i, fuel).value[i].subsize < ns[i].subsize
    ensures forall j :: 0 <= j < |ns| ==> Decremented(ns, i, fuel).value[j].subsize <= ns[j].subsize
    decreases fuel
  {
    var lowered := WithSubsize(ns, i, ns[i].subsize - 1);
    match ns[i].parent
    case None =>
    case Some(p) =>
      DecrementedLower(lowered, p, fuel - 1);
  }

  /**
   * A walk of `recursive_decrement` that leaves the leaf count of `c`
   * alone never passes `c`, so it does the same whatever `c`'s parent link.
   */
  lemma {:induction false} DecrementedParentFrame(ns: seq<Node>, c: nat, v: Option<nat>, i: nat, fuel: nat)
    requires c < |ns| && Decremented(ns, i, fuel).Some?
    requires Decremented(ns, i, fuel).value[c].subsize == ns[c].subsize
    ensures Decremented(WithParent(ns, c, v), i, fuel) == Some(WithParent(Decremented(ns, i, fuel).value, c, v))
    decreases fuel
  {
    DecrementedLower(ns, i, fuel);
    assert i != c;
    var ns' := WithParent(ns, c, v);
    var lowered := WithSubsize(ns, i, ns[i].subsize - 1);
    assert WithSubsize(ns', i, ns'[i].subsize - 1) == WithParent(lowered, c, v);
    match ns[i].parent
    case None =>
    case Some(p) =>
      DecrementedParentFrame(lowered, c, v, p, fuel - 1);
  }

  /**
   * `insert_front` that does not split at `c` (the leaf it splits gets the
   * new inner node as its parent) does the same whatever `c`'s parent link.
   */
  lemma {:induction false} InsertedParentFrame(ns: seq<Node>, c: nat, v: Option<nat>, i: nat, b: byte, fuel: nat)
    requires c < |ns| && Inserted(ns, i, b, fuel).Some?
    requires Inserted(ns, i, b, fuel).value.0[c].parent == ns[c].parent != Some(|ns| + 1)
    ensures Inserted(WithParent(ns, c, v), i, b, fuel) == Some((WithParent(Inserted(ns, i, b, fuel).value.0, c, v), |ns|))
    decreases fuel
  {
    var ns' := WithParent(ns, c, v);
    match ns[i].data
    case Inner(l, _) =>
      var up := WithSubsize(ns, i, ns[i].subsize + 1);
      assert WithSubsize(ns', i, ns'[i].subsize + 1) == WithParent(up, c, v);
      InsertedParentFrame(up, c, v, l, b, fuel - 1);
    case Leaf(_) =>
      assert i != c;
      SplitParentFrame(ns, c, v, i, ns[i].parent.value, b);
  }

  /** The split at the leftmost leaf `i`, with `c`'s parent link changed beforehand or afterwards. */
  lemma {:induction false} SplitParentFrame(ns: seq<Node>, c: nat, v: Option<nat>, i: nat, q: nat, b: byte)
    requires c < |ns| && i < |ns| && q < |ns| && ns[q].data.Inner? && i != c
    ensures var grown := ns + [Node(None, 1, Leaf(b)), Node(Some(q), 2, Inner(|ns|, i))];
      var linked := WithParent(WithParent(grown, i, Some(|ns| + 1)), |ns|, Some(|ns| + 1));
      var ns' := WithParent(ns, c, v);
      var grown' := ns' + [Node(None, 1, Leaf(b)), Node(Some(q), 2, Inner(|ns|, i))];
      var linked' := WithParent(WithParent(grown', i, Some(|ns| + 1)), |ns|, Some(|ns| + 1));
      WithData(linked', q, Inner(|ns| + 1, ns'[q].data.right))
        == WithParent(WithData(linked, q, Inner(|ns| + 1, ns[q].data.right)), c, v)
  {
  }

  /** A walk of `count_index` from any node but the leaf `c` never reads `c`'s parent link. */
  lemma {:induction false} CountIndexParentFrame(ns: seq<Node>, c: nat, v: Option<nat>, i: nat, fuel: nat)
    requires c < |ns| && ns[c].data.Leaf? && i != c
    ensures CountIndex(WithParent(ns, c, v), i, fuel) == CountIndex(ns, i, fuel)
    decreases fuel
  {
    if fuel > 0 && i < |ns| && ns[i].parent.Some? {
      var p := ns[i].parent.value;
      if p < |ns| && ns[p].data.Inner? {
        CountIndexParentFrame(ns, c, v, p, fuel - 1);
      }
    }
  }

  // ---------------------------------------------------------------------
  // The far left of a tree
  // ---------------------------------------------------------------------

  /** `p` is `s`, or is reached from `s` by following left children. */
  ghost predicate DownLeft(s: Shape, p: Shape)
    decreases s
  {
    s == p || (s.SInner? && DownLeft(s.left, p))
  }

  /** A leaf, then an inner node over two leaves. */
  ghost predicate Triple(p: Shape)
  {
    p.SInner? && p.left.SLeaf? && p.right.SInner? && p.right.left.SLeaf? && p.right.right.SLeaf?
  }

  lemma {:induction false} DownLeftHolds(ns: seq<Node>, s: Shape, p: Shape)
    requires Holds(ns, s) && DownLeft(s, p)
    ensures Holds(ns, p)
    decreases s
  {
    if s != p {
      DownLeftHolds(ns, s.left, p);
    }
  }

  /** Both subtrees of a tree the arena holds are held too. */
  lemma HoldsChildren(ns: seq<Node>, t: Shape)
    requires Holds(ns, t) && t.SInner?
    ensures Holds(ns, t.left) && Holds(ns, t.right)
  {
  }

  /** The alphabet of `p` starts the alphabet of `s`, and its nodes are nodes of `s`. */
  lemma {:induction false} DownLeftLetters(s: Shape, p: Shape)
    requires DownLeft(s, p)
    ensures |Letters(p)| <= |Letters(s)| && Letters(s)[..|Letters(p)|] == Letters(p)
    ensures Indices(p) <= Indices(s)
    decreases s
  {
    if s != p {
      DownLeftLetters(s.left, p);
      assert Letters(s) == Letters(s.left) + Letters(s.right);
    }
  }

  lemma {:induction false} DownLeftFront(t: Shape, u: Shape, b: byte, n: nat, m: nat)
    requires DownLeft(t, u)
    ensures DownLeft(Front(t, b, n, m), Front(u, b, n, m))
    decreases t
  {
    if t != u {
      DownLeftFront(t.left, u, b, n, m);
    }
  }

  lemma TripleLetters(p: Shape)
    requires Triple(p)
    ensures Letters(p) == [p.left.letter, p.right.left.letter, p.right.right.letter]
  {
    assert Letters(p.right) == [p.right.left.letter, p.right.right.letter];
  }

  /** The byte of the first leaf of the pair, and the tree without it. */
  function Middle(p: Shape): byte
    requires Triple(p)
  {
    p.right.left.letter
  }

  function Pruned(p: Shape): Shape
    requires Triple(p)
  {
    SInner(p.at, p.left, p.right.right)
  }

  /**
   * Where the leaf of the middle byte hangs: below the pair's node, next
   * to the pair's other leaf, under the node of the triple.
   */
  lemma {:induction false} MiddleWay(s: Shape, p: Shape)
    requires DownLeft(s, p) && Triple(p) && Unique(s) && Distinct(Letters(s))
    ensures Middle(p) in Letters(s) && s.SInner? && Toward(s, Middle(p)).SInner?
    ensures LeafOf(s, Middle(p)) == p.right.left.at
    ensures Above(s, Middle(p)) == p.right.at && Sib(s, Middle(p)) == p.right.right.at
    ensures Grand(s, Middle(p)) == p.at
    decreases s
  {
    var x := Middle(p);
    DownLeftLetters(s, p);
    TripleLetters(p);
    assert Letters(s)[1] == x && Letters(s)[0] != x;
    if s == p {
      assert x !in Letters(p.left);
    } else {
      DownLeftLetters(s.left, p);
      assert Letters(s.left)[1] == x;
      DistinctConcat(Letters(s.left), Letters(s.right));
      MiddleWay(s.left, p);
    }
  }

  /**
   * The corrected removal of the middle byte leaves `Pruned(p)` at the far
   * left, drops the pair's node and the byte's leaf, and lowers only nodes
   * above the triple.
   */
  lemma {:induction false} MiddleCut(s: Shape, p: Shape)
    requires DownLeft(s, p) && Triple(p) && Unique(s) && Distinct(Letters(s))
    ensures Middle(p) in Letters(s) && s.SInner?
    ensures DownLeft(Cut(s, Middle(p)), Pruned(p))
    ensures p.right.at !in Indices(Cut(s, Middle(p))) && p.right.left.at !in Indices(Cut(s, Middle(p)))
    ensures p.right.at !in Upper(s, Middle(p)) && p.right.left.at !in Upper(s, Middle(p))
    decreases s
  {
    var x := Middle(p);
    MiddleWay(s, p);
    if s == p {
      assert x !in Letters(p.left);
      assert Cut(p.right, x) == p.right.right;
      assert Cut(s, x) == Pruned(p);
    } else {
      DownLeftLetters(s.left, p);
      TripleLetters(p);
      assert Letters(s.left)[1] == x;
      DistinctConcat(Letters(s.left), Letters(s.right));
      MiddleCut(s.left, p);
      assert Cut(s, x) == SInner(s.at, Cut(s.left, x), s.right);
      assert Upper(s, x) == [s.at] + Upper(s.left, x);
    }
  }

  // ---------------------------------------------------------------------
  // Moving the middle byte, as written and corrected
  // ---------------------------------------------------------------------

  /**
   * Below a grandparent, `remove_node` as written is the corrected removal
   * with the sibling's parent link left at the removed parent, as long as
   * the corrected walk up leaves the sibling's leaf count alone.
   */
  lemma {:induction false} WrittenRemoval(ns: seq<Node>, root: nat, i: nat, q: nat, c: nat, fuel: nat)
    requires i < |ns| && ns[i].parent == Some(q) && q < |ns| && ns[q].data.Inner? && c == Other(ns[q].data, i)
    requires c < |ns| && ns[c].parent == Some(q) && ns[q].parent.Some?
    requires Removed(ns, root, i, fuel).Some? && Removed(ns, root, i, fuel).value.1 == root
    requires Removed(ns, root, i, fuel).value.0[c].subsize == ns[c].subsize
    ensures RemovedAsWritten(ns, i, fuel) == Some(WithParent(Removed(ns, root, i, fuel).value.0, c, Some(q)))
  {
    var g := ns[q].parent.value;
    var written := WithData(ns, g, Replaced(ns[g].data, q, c));
    var relinked := WithParent(written, c, Some(g));
    var lowered := Removed(ns, root, i, fuel).value.0;
    assert Decremented(relinked, g, fuel) == Some(lowered);
    DecrementedParentFrame(relinked, c, Some(q), g, fuel);
    assert WithParent(relinked, c, Some(q)) == written;
  }

  /** The links around the middle byte's leaf, read off the arena. */
  lemma {:induction false} StaleLinks(st: State, s: Shape, p: Shape)
    requires ValidState(st, s) && DownLeft(s, p) && Triple(p)
    ensures Middle(p) in Letters(s) && s.SInner? && Toward(s, Middle(p)).SInner?
    ensures LeafOf(s, Middle(p)) == p.right.left.at && p.right.right.at < |st.nodes| && p.at < |st.nodes|
    ensures p.right.left.at < |st.nodes| && p.right.at < |st.nodes|
    ensures st.nodes[p.right.left.at].parent == Some(p.right.at)
    ensures st.nodes[p.right.at].data == Inner(p.right.left.at, p.right.right.at)
    ensures st.nodes[p.right.right.at].parent == Some(p.right.at) && st.nodes[p.right.at].parent == Some(p.at)
    ensures p.right.right.at in Indices(s) && p.right.right.at !in Upper(s, Middle(p))
    ensures p.right.at in Indices(s) && p.right.left.at in Indices(s)
    ensures Sib(s, Middle(p)) == p.right.right.at && Grand(s, Middle(p)) == p.at
    ensures p.right.at != s.at && p.right.left.at != s.at
    ensures p.right.at != p.right.right.at && p.right.left.at != p.right.right.at
  {
    var ns, x := st.nodes, Middle(p);
    var pa, qa, bb, c := p.at, p.right.at, p.right.left.at, p.right.right.at;
    MiddleWay(s, p);
    WayIn(s, x);
    DownLeftHolds(ns, s, p);
    DownLeftLetters(s, p);
    assert Holds(ns, p.right) && Holds(ns, p.right.right);
    assert Unique(p.right);
    AtIn(p.right);
    AtIn(p.right.left);
  }

  /** What the corrected removal keeps of the pair's node, the byte's leaf and the sibling. */
  lemma {:induction false} StaleLowered(ns: seq<Node>, lowered: seq<Node>, s: Shape, p: Shape)
    requires DownLeft(s, p) && Triple(p) && s.SInner? && Middle(p) in Letters(s) && Toward(s, Middle(p)).SInner?
    requires CutArena(ns, lowered, s, Middle(p))
    requires p.right.at in Indices(s) && p.right.left.at in Indices(s)
    requires p.right.at !in Upper(s, Middle(p)) && p.right.left.at !in Upper(s, Middle(p))
    requires Sib(s, Middle(p)) == p.right.right.at && Grand(s, Middle(p)) == p.at
    requires p.right.at != s.at && p.right.left.at != s.at
    requires p.right.at != p.right.right.at && p.right.left.at != p.right.right.at
    ensures p.right.right.at < |lowered| && lowered[p.right.right.at].parent == Some(p.at) && p.at < |lowered|
    ensures p.right.at < |lowered| && p.right.at < |ns| && lowered[p.right.at] == ns[p.right.at]
    ensures p.right.left.at < |lowered| && p.right.left.at < |ns| && lowered[p.right.left.at] == ns[p.right.left.at]
  {
  }

  /**
   * `remove_node` of the middle byte's leaf, as written and corrected: both
   * lower the same nodes, and only the sibling's parent link differs.
   */
  lemma {:induction false} StaleRemoved(st: State, s: Shape, p: Shape) returns (lowered: seq<Node>)
    requires ValidState(st, s) && DownLeft(s, p) && Triple(p)
    ensures Middle(p) in Letters(s) && s.SInner? && p.right.right.at < |lowered|
    ensures Removed(st.nodes, st.root, p.right.left.at, |st.nodes|) == Some((lowered, st.root))
    ensures RemovedAsWritten(st.nodes, p.right.left.at, |st.nodes|) == Some(WithParent(lowered, p.right.right.at, Some(p.right.at)))
    ensures Holds(lowered, Cut(s, Middle(p))) && Cut(s, Middle(p)).at == st.root && lowered[st.root].parent == None
    ensures lowered[p.right.right.at].parent == Some(p.at) && p.at < |lowered|
    ensures p.right.at < |lowered| && lowered[p.right.at] == st.nodes[p.right.at]
    ensures p.right.left.at < |lowered| && lowered[p.right.left.at] == st.nodes[p.right.left.at]
  {
    var ns, x, fuel := st.nodes, Middle(p), |st.nodes|;
    var qa, bb, c := p.right.at, p.right.left.at, p.right.right.at;
    StaleLinks(st, s, p);
    MiddleCut(s, p);
    RemovedDeep(ns, s, x, fuel);
    CutHolds(ns, Removed(ns, s.at, bb, fuel).value.0, s, x);
    lowered := Removed(ns, s.at, bb, fuel).value.0;
    AtIn(Cut(s, x));
    StaleLowered(ns, lowered, s, p);
    WrittenRemoval(ns, st.root, bb, qa, c, fuel);
  }

  /**
   * `move_to_front` of the middle byte: the written code leaves the arena
   * of the corrected code with the sibling's parent link at the detached
   * node, and the corrected arena has the new leaf and the old first leaf
   * paired at the far left, next to the sibling.
   */
  lemma {:induction false} StaleStep(st: State, s: Shape, p: Shape) returns (fixed: State)
    requires ValidState(st, s) && DownLeft(s, p) && Triple(p)
    ensures Middle(p) in Letters(s) && s.SInner? && p.right.right.at < |fixed.nodes|
    ensures Moved(st, Middle(p)) == Some((fixed, 1))
    ensures MovedAsWritten(st, Middle(p)) == Some((fixed.(nodes := WithParent(fixed.nodes, p.right.right.at, Some(p.right.at))), 1))
    ensures ValidState(fixed, Stepped(s, Middle(p), |st.nodes|)) && |fixed.nodes| == |st.nodes| + 2
    ensures DownLeft(Stepped(s, Middle(p), |st.nodes|), Paired(p, |st.nodes|))
    ensures p.right.at < |st.nodes| && fixed.nodes[p.right.at] == st.nodes[p.right.at]
    ensures p.right.left.at < |st.nodes| && fixed.nodes[p.right.left.at] == st.nodes[p.right.left.at]
  {
    var ns, x, fuel := st.nodes, Middle(p), |st.nodes|;
    var pa, qa, bb, c := p.at, p.right.at, p.right.left.at, p.right.right.at;
    var lowered := StaleRemoved(st, s, p);
    MiddleRank(st, s, p);
    var ins := MiddleInserted(lowered, s, p);
    MiddleCut(s, p);
    MovedUnfold(st, x, bb, 1, (lowered, st.root), ins);
    fixed := State(ins.0, st.root, st.nodeMap[x := fuel]);
    StepValid(st, s, x);
    MiddleFront(s, p, fuel);
    DownLeftHolds(ins.0, Stepped(s, x, fuel), Paired(p, fuel));
    HoldsChildren(ins.0, Paired(p, fuel));
    assert ins.0[c].parent == Some(pa);
    StaleWrittenMove(st, x, bb, c, qa, lowered, ins);
  }

  /**
   * `move_to_front` as written of a byte counted 1, when the written
   * removal is the corrected one with a stale link at `c` that the
   * insertion does not touch.
   */
  lemma {:induction false} StaleWrittenMove(st: State, x: byte, leaf: nat, c: nat, qa: nat,
                                            lowered: seq<Node>, ins: (seq<Node>, nat))
    requires x in st.nodeMap && st.nodeMap[x] == leaf && CountIndex(st.nodes, leaf, |st.nodes|) == Some(1)
    requires c < |lowered| == |st.nodes| && RemovedAsWritten(st.nodes, leaf, |st.nodes|) == Some(WithParent(lowered, c, Some(qa)))
    requires Inserted(lowered, st.root, x, |lowered|) == Some(ins) && ins.1 == |lowered|
    requires c < |ins.0| && ins.0[c].parent == lowered[c].parent != Some(|lowered| + 1)
    ensures MovedAsWritten(st, x) == Some((State(WithParent(ins.0, c, Some(qa)), st.root, st.nodeMap[x := ins.1]), 1))
  {
    InsertedParentFrame(lowered, c, Some(qa), st.root, x, |lowered|);
  }

  /** The tree of `Pruned(p)` after `insert_front`: the new leaf paired with the old first leaf. */
  function Paired(p: Shape, size: nat): Shape
    requires Triple(p)
  {
    SInner(p.at, SInner(size + 1, SLeaf(size, Middle(p)), p.left), p.right.right)
  }

  /** The middle byte's leaf counts 1 in a well-formed tree. */
  lemma {:induction false} MiddleRank(st: State, s: Shape, p: Shape)
    requires ValidState(st, s) && DownLeft(s, p) && Triple(p)
    ensures Middle(p) in Letters(s) && IndexOf(Letters(s), Middle(p)) == 1
    ensures Middle(p) in st.nodeMap && st.nodeMap[Middle(p)] == p.right.left.at
    ensures CountIndex(st.nodes, p.right.left.at, |st.nodes|) == Some(1)
  {
    var x := Middle(p);
    MiddleWay(s, p);
    DownLeftLetters(s, p);
    TripleLetters(p);
    assert Letters(s)[1] == x;
    IndexOfDistinct(Letters(s), 1);
    CountIndexRank(st.nodes, s, x, |st.nodes|);
  }

  /** `insert_front` of the middle byte at the top of the tree the removal left. */
  lemma {:induction false} MiddleInserted(lowered: seq<Node>, s: Shape, p: Shape) returns (ins: (seq<Node>, nat))
    requires Triple(p) && DownLeft(s, p) && Unique(s) && Distinct(Letters(s))
    requires |Letters(s)| >= 3 && Middle(p) in Letters(s) && s.SInner?
    requires Holds(lowered, Cut(s, Middle(p))) && lowered[Cut(s, Middle(p)).at].parent == None
    ensures Inserted(lowered, Cut(s, Middle(p)).at, Middle(p), |lowered|) == Some(ins)
    ensures ins.1 == |lowered| && |ins.0| == |lowered| + 2
    ensures forall j :: 0 <= j < |lowered| && j !in Indices(Cut(s, Middle(p))) ==> ins.0[j] == lowered[j]
  {
    var x := Middle(p);
    DistinctBound(Letters(s));
    CutLetters(s, x);
    ins := InsertedCut(lowered, Cut(s, x), x, |lowered|);
  }

  /** After the corrected move of the middle byte, `Paired(p)` sits at the far left. */
  lemma {:induction false} MiddleFront(s: Shape, p: Shape, size: nat)
    requires DownLeft(s, p) && Triple(p) && Unique(s) && Distinct(Letters(s))
    ensures Middle(p) in Letters(s) && s.SInner?
    ensures DownLeft(Stepped(s, Middle(p), size), Paired(p, size))
  {
    var x := Middle(p);
    MiddleWay(s, p);
    MiddleCut(s, p);
    DownLeftLetters(s, p);
    TripleLetters(p);
    assert Letters(s)[1] == x;
    IndexOfDistinct(Letters(s), 1);
    SteppedMoves(s, x, size);
    DownLeftFront(Cut(s, x), Pruned(p), x, size, size + 1);
    assert Front(Pruned(p), x, size, size + 1) == Paired(p, size);
  }

  /**
   * In that arena with the sibling's link at the detached pair node, the
   * sibling is counted through the pair node: one for the old leaf still
   * to its left there, two for the new pair in the node above, where the
   * list has it at position 2.
   */
  lemma {:induction false} StaleRank(ns: seq<Node>, t: Shape, qa: nat, bb: nat, fuel: nat)
    requires t.SInner? && t.left.SInner? && t.left.left.SLeaf? && t.left.right.SLeaf? && t.right.SLeaf?
    requires Holds(ns, t) && fuel >= 2 && CountIndex(ns, t.left.left.at, fuel) == Some(0)
    requires qa < |ns| && ns[qa] == Node(Some(t.at), 2, Inner(bb, t.right.at)) && qa != t.left.at
    requires bb < |ns| && ns[bb].subsize == 1 && bb != t.right.at
    ensures CountIndex(WithParent(ns, t.right.at, Some(qa)), t.right.at, fuel) == Some(3)
  {
    var pa, m, n, c := t.at, t.left.at, t.left.left.at, t.right.at;
    assert Holds(ns, t.left) && Holds(ns, t.right);
    assert ns[n].parent == Some(m) && ns[m].data.left == n && ns[m].parent == Some(pa);
    assert |Letters(t.left)| == 2;
    assert ns[pa].data == Inner(m, c) && ns[m].subsize == 2 && ns[c].data.Leaf?;
    assert CountIndex(ns, m, fuel - 1) == Some(0);
    assert CountIndex(ns, pa, fuel - 2) == Some(0);
    assert pa != c by {
      AtIn(t.right);
    }
    var ns' := WithParent(ns, c, Some(qa));
    CountIndexParentFrame(ns, c, Some(qa), pa, fuel - 2);
    assert CountIndex(ns', qa, fuel - 1) == Some(2);
  }

  // ---------------------------------------------------------------------
  // The trace: the middle byte three times, then the last byte
  // ---------------------------------------------------------------------

  /** The byte of the pair's second leaf. */
  function Last(p: Shape): byte
    requires Triple(p)
  {
    p.right.right.letter
  }

  /**
   * Moving the middle byte of the triple to the front three times, then
   * the last byte, with `move_to_front` as written: the ranks are 1, 0, 0,
   * and then `count_index` gives 3, so that the fourth call returns 3 if it
   * returns at all. The corrected code gives 2 there, the list rank.
   */
  lemma {:induction false} StaleTrace(st: State, s: Shape, p: Shape) returns (st1: State)
    requires ValidState(st, s) && DownLeft(s, p) && Triple(p)
    ensures MovedAsWritten(st, Middle(p)) == Some((st1, 1))
    ensures MovedAsWritten(st1, Middle(p)) == Some((st1, 0))
    ensures Last(p) in st1.nodeMap && CountIndex(st1.nodes, st1.nodeMap[Last(p)], |st1.nodes|) == Some(3)
    ensures MovedAsWritten(st1, Last(p)).Some? ==> MovedAsWritten(st1, Last(p)).value.1 == 3
    ensures Moved(st, Middle(p)).Some? && Moved(Moved(st, Middle(p)).value.0, Last(p)).Some?
    ensures Moved(Moved(st, Middle(p)).value.0, Last(p)).value.1 == 2
  {
    var fixed := StaleStep(st, s, p);
    st1 := fixed.(nodes := WithParent(fixed.nodes, p.right.right.at, Some(p.right.at)));
    StaleAfter(st, s, p, fixed);
  }

  /** The calls after the first, from the arena of the corrected first move. */
  lemma {:induction false} StaleAfter(st: State, s: Shape, p: Shape, fixed: State)
    requires ValidState(st, s) && DownLeft(s, p) && Triple(p)
    requires Middle(p) in Letters(s) && s.SInner? && p.right.right.at < |fixed.nodes|
    requires ValidState(fixed, Stepped(s, Middle(p), |st.nodes|)) && |fixed.nodes| == |st.nodes| + 2
    requires DownLeft(Stepped(s, Middle(p), |st.nodes|), Paired(p, |st.nodes|))
    requires p.right.at < |st.nodes| && fixed.nodes[p.right.at] == st.nodes[p.right.at]
    requires p.right.left.at < |st.nodes| && fixed.nodes[p.right.left.at] == st.nodes[p.right.left.at]
    ensures var st1 := fixed.(nodes := WithParent(fixed.nodes, p.right.right.at, Some(p.right.at)));
      && MovedAsWritten(st1, Middle(p)) == Some((st1, 0))
      && Last(p) in st1.nodeMap && CountIndex(st1.nodes, st1.nodeMap[Last(p)], |st1.nodes|) == Some(3)
      && (MovedAsWritten(st1, Last(p)).Some? ==> MovedAsWritten(st1, Last(p)).value.1 == 3)
    ensures Moved(fixed, Last(p)).Some? && Moved(fixed, Last(p)).value.1 == 2
  {
    var x, fuel := Middle(p), |st.nodes|;
    var s1 := Stepped(s, x, fuel);
    PairedLetters(st, s, p, fixed, s1);
    StaleAfterWritten(st, s, p, fixed, s1);
    StepValid(fixed, s1, Last(p));
  }

  /** The written calls after the first: the middle byte counts 0, and the last byte 3. */
  lemma {:induction false} StaleAfterWritten(st: State, s: Shape, p: Shape, fixed: State, s1: Shape)
    requires ValidState(st, s) && DownLeft(s, p) && Triple(p)
    requires Middle(p) in Letters(s) && s.SInner? && p.right.right.at < |fixed.nodes|
    requires s1 == Stepped(s, Middle(p), |st.nodes|) && ValidState(fixed, s1) && |fixed.nodes| == |st.nodes| + 2
    requires DownLeft(s1, Paired(p, |st.nodes|))
    requires p.right.at < |st.nodes| && fixed.nodes[p.right.at] == st.nodes[p.right.at]
    requires p.right.left.at < |st.nodes| && fixed.nodes[p.right.left.at] == st.nodes[p.right.left.at]
    requires Middle(p) in Letters(s1) && IndexOf(Letters(s1), Middle(p)) == 0
    requires Middle(p) in fixed.nodeMap && fixed.nodeMap[Middle(p)] == LeafOf(s1, Middle(p)) == |st.nodes|
    requires Last(p) in fixed.nodeMap && fixed.nodeMap[Last(p)] == p.right.right.at
    ensures var st1 := fixed.(nodes := WithParent(fixed.nodes, p.right.right.at, Some(p.right.at)));
      && MovedAsWritten(st1, Middle(p)) == Some((st1, 0))
      && CountIndex(st1.nodes, st1.nodeMap[Last(p)], |st1.nodes|) == Some(3)
      && (MovedAsWritten(st1, Last(p)).Some? ==> MovedAsWritten(st1, Last(p)).value.1 == 3)
  {
    var x, fuel := Middle(p), |st.nodes|;
    var qa, bb, c := p.right.at, p.right.left.at, p.right.right.at;
    var st1 := fixed.(nodes := WithParent(fixed.nodes, c, Some(qa)));
    DownLeftHolds(fixed.nodes, s1, Paired(p, fuel));
    HoldsChildren(fixed.nodes, Paired(p, fuel));
    assert fixed.nodes[c].data.Leaf? && c != fuel;
    CountIndexRank(fixed.nodes, s1, x, |fixed.nodes|);
    StaleFront(fixed, c, qa, x);
    StaleCounts(st, s, p, fixed);
    StaleRank(fixed.nodes, Paired(p, fuel), qa, bb, |fixed.nodes|);
    StaleLast(st1, Last(p));
  }

  /** A byte already at the front stays put, whatever the stale link of another leaf. */
  lemma {:induction false} StaleFront(fixed: State, c: nat, qa: nat, x: byte)
    requires c < |fixed.nodes| && fixed.nodes[c].data.Leaf? && x in fixed.nodeMap && c != fixed.nodeMap[x]
    requires CountIndex(fixed.nodes, fixed.nodeMap[x], |fixed.nodes|) == Some(0)
    ensures var st1 := fixed.(nodes := WithParent(fixed.nodes, c, Some(qa)));
      MovedAsWritten(st1, x) == Some((st1, 0))
  {
    CountIndexParentFrame(fixed.nodes, c, Some(qa), fixed.nodeMap[x], |fixed.nodes|);
  }

  /** Whatever `move_to_front` returns is the count of the byte's leaf. */
  lemma {:induction false} StaleLast(st: State, y: byte)
    requires y in st.nodeMap && CountIndex(st.nodes, st.nodeMap[y], |st.nodes|) == Some(3)
    ensures MovedAsWritten(st, y).Some? ==> MovedAsWritten(st, y).value.1 == 3
  {
  }

  /**
   * After the corrected move, the middle byte is first and the last byte
   * third in the alphabet, and the last byte's leaf is still the pair's.
   */
  lemma {:induction false} PairedLetters(st: State, s: Shape, p: Shape, fixed: State, s1: Shape)
    requires ValidState(st, s) && DownLeft(s, p) && Triple(p)
    requires Middle(p) in Letters(s) && s.SInner? && s1 == Stepped(s, Middle(p), |st.nodes|)
    requires ValidState(fixed, s1) && DownLeft(s1, Paired(p, |st.nodes|))
    ensures Middle(p) in Letters(s1) && IndexOf(Letters(s1), Middle(p)) == 0
    ensures Middle(p) in fixed.nodeMap && fixed.nodeMap[Middle(p)] == LeafOf(s1, Middle(p)) == |st.nodes|
    ensures Last(p) in Letters(s1) && IndexOf(Letters(s1), Last(p)) == 2
    ensures Last(p) in fixed.nodeMap && fixed.nodeMap[Last(p)] == p.right.right.at
  {
    MiddleRank(st, s, p);
    PairedOrder(s, p, |st.nodes|);
    PairedLeaves(fixed, s1, p, |st.nodes|);
  }

  /** The middle byte first and the last byte third in the alphabet after the move. */
  lemma {:induction false} PairedOrder(s: Shape, p: Shape, size: nat)
    requires DownLeft(s, p) && Triple(p) && Distinct(Letters(s))
    requires Middle(p) in Letters(s) && s.SInner? && IndexOf(Letters(s), Middle(p)) == 1
    ensures Middle(p) in Letters(Stepped(s, Middle(p), size)) && IndexOf(Letters(Stepped(s, Middle(p), size)), Middle(p)) == 0
    ensures Last(p) in Letters(Stepped(s, Middle(p), size)) && IndexOf(Letters(Stepped(s, Middle(p), size)), Last(p)) == 2
  {
    var x, y, s1 := Middle(p), Last(p), Stepped(s, Middle(p), size);
    DownLeftLetters(s, p);
    TripleLetters(p);
    SteppedLetters(s, x, size);
    var alpha := Letters(s);
    assert Letters(s1) == [alpha[1]] + alpha[..1] + alpha[2..];
    assert Letters(s1)[0] == x && Letters(s1)[2] == alpha[2] == y;
    IndexOfDistinct(Letters(s1), 0);
    IndexOfDistinct(Letters(s1), 2);
  }

  /** The leaves of the middle and the last byte after the move, as the map records them. */
  lemma {:induction false} PairedLeaves(fixed: State, s1: Shape, p: Shape, size: nat)
    requires Triple(p) && ValidState(fixed, s1) && DownLeft(s1, Paired(p, size))
    ensures Middle(p) in fixed.nodeMap && fixed.nodeMap[Middle(p)] == LeafOf(s1, Middle(p)) == size
    ensures Last(p) in fixed.nodeMap && fixed.nodeMap[Last(p)] == p.right.right.at
  {
    var q := Paired(p, size);
    DownLeftHolds(fixed.nodes, s1, q);
    DownLeftLetters(s1, q);
    HoldsChildren(fixed.nodes, q);
    HoldsChildren(fixed.nodes, q.left);
    AtIn(q.left.left);
    AtIn(q.right);
    LeafOfUnique(fixed.nodes, s1, size, Middle(p));
    LeafOfUnique(fixed.nodes, s1, p.right.right.at, Last(p));
  }

  /** The pair node and the middle byte's old leaf, untouched in the corrected arena. */
  lemma {:induction false} StaleCounts(st: State, s: Shape, p: Shape, fixed: State)
    requires ValidState(st, s) && DownLeft(s, p) && Triple(p)
    requires p.right.at < |st.nodes| && p.right.at < |fixed.nodes| && fixed.nodes[p.right.at] == st.nodes[p.right.at]
    requires p.right.left.at < |st.nodes| && p.right.left.at < |fixed.nodes|
    requires fixed.nodes[p.right.left.at] == st.nodes[p.right.left.at]
    ensures fixed.nodes[p.right.at] == Node(Some(p.at), 2, Inner(p.right.left.at, p.right.right.at))
    ensures fixed.nodes[p.right.left.at].subsize == 1 && p.right.left.at != p.right.right.at
  {
    DownLeftHolds(st.nodes, s, p);
    assert Holds(st.nodes, p.right) && Holds(st.nodes, p.right.left);
    assert |Letters(p.right)| == 2;
    AtIn(p.right.right);
  }

  /**
   * A tree split in halves over 2^k - 1 bytes, k from 2 to 8, starts with
   * a leaf and a pair of leaves: 255 leaves split 127 to the left, then 63,
   * 31, 15, 7 and 3, and 3 splits one to two.
   */
  lemma {:induction false} LeftTriple(s: Shape) returns (p: Shape)
    requires Halves(s) && |Letters(s)| in {3, 7, 15, 31, 63, 127, 255}
    ensures DownLeft(s, p) && Triple(p)
    decreases s
  {
    assert s.SInner?;
    var n, l := |Letters(s)|, |Letters(s.left)|;
    assert n == l + |Letters(s.right)|;
    if n == 3 {
      assert l == 1 && |Letters(s.right)| == 2;
      assert s.right.SInner?;
      assert |Letters(s.right.left)| == 1 && |Letters(s.right.right)| == 1;
      p := s;
    } else {
      assert l == (n - 1) / 2;
      p := LeftTriple(s.left);
    }
  }
}
