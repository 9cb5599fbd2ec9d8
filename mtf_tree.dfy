/**
 * `mtftree.rs`: move-to-front over a binary tree whose leaves, read left to
 * right, are the current alphabet. Every node knows its parent and how many
 * leaves lie below it, so the rank of a byte is found by walking from its
 * leaf up to the root, and a byte is moved to the front by unlinking its
 * leaf and hanging a new leaf at the far left.
 */
module MoveToFrontTree {
  import opened Common
  import opened Sorting
  import opened MoveToFront
  import opened TreeArena
  import opened TreeWalk
  import opened TreeStep

  /**
   * What `construct(parent, bytes, map)` leaves behind: the arena `lo` grew
   * into `ns`, and the nodes it appended hold a tree over `bytes`, split in
   * halves, whose top is the last node appended and links up to `parent`.
   */
  ghost predicate Built(lo: seq<Node>, ns: seq<Node>, s: Shape, parent: Option<nat>, bytes: seq<byte>)
  {
    Extends(lo, ns) && |ns| == |lo| + 2 * |bytes| - 1
    && s.at + 1 == |ns| && ns[s.at].parent == parent
    && Holds(ns, s) && Letters(s) == bytes && Halves(s)
    && (forall i :: i in Indices(s) ==> |lo| <= i < |ns|)
  }

  /** `map.insert(byte, leaf)` for every byte of `bytes`, later bytes winning. */
  ghost predicate MapsInto(m0: map<byte, nat>, m: map<byte, nat>, bytes: seq<byte>, s: Shape, ns: seq<Node>)
  {
    (forall x :: x in m <==> x in m0 || x in bytes)
    && (forall x :: x in m0 && x !in bytes ==> m[x] == m0[x])
    && (forall x :: x in bytes ==> m[x] in Indices(s) && m[x] < |ns| && ns[m[x]].data == Leaf(x))
  }

  /** The inner node appended over two trees built one after the other. */
  lemma {:induction false} JoinBuilt(lo: seq<Node>, mid: seq<Node>, hi: seq<Node>, fin: seq<Node>, ls: Shape, rs: Shape,
                  top: Node, parent: Option<nat>, bytes: seq<byte>, h: nat)
    requires 1 <= h < |bytes| && h == |bytes| / 2
    requires Built(lo, mid, ls, None, bytes[..h]) && Built(mid, hi, rs, None, bytes[h..])
    requires top == Node(parent, |bytes|, Inner(ls.at, rs.at)) && ls.at < |hi| && rs.at < |hi|
    requires fin == WithParent(WithParent(hi + [top], ls.at, Some(|hi|)), rs.at, Some(|hi|))
    ensures Built(lo, fin, SInner(|hi|, ls, rs), parent, bytes)
  {
    AppendExtends(hi, top);
    var s := SInner(|hi|, ls, rs);
    LinkedGrow(mid, hi, ls);
    SizedGrow(mid, hi, ls);
    ParentedGrow(mid, hi, ls);
    LinkedFrame(hi, fin, ls);
    LinkedFrame(hi, fin, rs);
    SizedFrame(hi, fin, ls);
    SizedFrame(hi, fin, rs);
    Apart(ls, rs, |mid|, |hi|);
    ParentedFrame(hi, fin, ls);
    ParentedFrame(hi, fin, rs);
    Rejoin(bytes, h);
    assert Letters(s) == bytes;
    assert Holds(fin, s);
  }

  /** A single byte becomes one leaf appended to the arena. */
  lemma {:induction false} LeafBuilt(lo: seq<Node>, ns: seq<Node>, parent: Option<nat>, bytes: seq<byte>,
                  m0: map<byte, nat>, m: map<byte, nat>)
    requires |bytes| == 1 && ns == lo + [Node(parent, 1, Leaf(bytes[0]))] && m == m0[bytes[0] := |lo|]
    ensures Built(lo, ns, SLeaf(|lo|, bytes[0]), parent, bytes)
    ensures MapsInto(m0, m, bytes, SLeaf(|lo|, bytes[0]), ns)
  {
    assert Letters(SLeaf(|lo|, bytes[0])) == bytes;
  }

  /** The map after both halves of `construct` inserted their leaves. */
  lemma {:induction false} JoinMaps(m0: map<byte, nat>, m1: map<byte, nat>, m2: map<byte, nat>, bytes: seq<byte>, h: nat,
                 s: Shape, mid: seq<Node>, hi: seq<Node>, fin: seq<Node>, top: Node)
    requires s.SInner? && h <= |bytes| && Extends(mid, hi) && s.left.at < |hi| && s.right.at < |hi|
    requires MapsInto(m0, m1, bytes[..h], s.left, mid) && MapsInto(m1, m2, bytes[h..], s.right, hi)
    requires fin == WithParent(WithParent(hi + [top], s.left.at, Some(|hi|)), s.right.at, Some(|hi|))
    ensures MapsInto(m0, m2, bytes, s, fin)
  {
    AppendExtends(hi, top);
    Rejoin(bytes, h);
    forall x | x in bytes
      ensures x in bytes[..h] || x in bytes[h..]
    {
      var i :| 0 <= i < |bytes| && bytes[i] == x;
      if i < h {
        assert bytes[..h][i] == x;
      } else {
        assert bytes[h..][i - h] == x;
      }
    }
    forall x | x in bytes[..h] || x in bytes[h..]
      ensures x in bytes
    {
    }
  }

  class Tree {
    /** Every node ever allocated; the tree is the part reachable from `root`. */
    var nodes: seq<Node>
    var root: nat
    /** `node_map`: the leaf of each byte. */
    var nodeMap: map<byte, nat>
    /** The tree `root` spans. */
    ghost var shape: Shape

    /** The fields, as one value. */
    function State(): State
      reads this
    {
      TreeWalk.State(nodes, root, nodeMap)
    }

    /**
     * The arena holds a tree over distinct bytes below a root with no parent,
     * and `nodeMap` sends each of its bytes to the leaf holding it.
     */
    ghost predicate Valid()
      reads this
    {
      ValidState(State(), shape)
    }

    /** The alphabet, front first, that the tree stands for. */
    ghost function Alphabet(): seq<byte>
      reads this
    {
      Letters(shape)
    }

    /**
     * `construct`: a leaf for a single byte, otherwise a tree over each half
     * and an inner node above them, whose children are then linked up to it.
     */
    method Construct(parent: Option<nat>, bytes: seq<byte>) returns (idx: nat, ghost s: Shape)
      requires bytes != [] && |bytes| < 0x1_0000
      modifies this`nodes, this`nodeMap
      ensures idx == s.at
      ensures Built(old(nodes), nodes, s, parent, bytes)
      ensures MapsInto(old(nodeMap), nodeMap, bytes, s, nodes)
      decreases |bytes|
    {
      if |bytes| == 1 {
        ghost var lo, m0 := nodes, nodeMap;
        nodes := nodes + [Node(parent, 1, Leaf(bytes[0]))];
        idx := |nodes| - 1;
        s := SLeaf(idx, bytes[0]);
        nodeMap := nodeMap[bytes[0] := idx];
        LeafBuilt(lo, nodes, parent, bytes, m0, nodeMap);
        return;
      }
      ghost var lo, m0 := nodes, nodeMap;
      var h := |bytes| / 2;
      var left, ls := Construct(None, bytes[..h]);
      ghost var mid, m1 := nodes, nodeMap;
      var right, rs := Construct(None, bytes[h..]);
      ghost var hi := nodes;
      SmallMod(|bytes|);
      ghost var top := Node(parent, |bytes| % 0x1_0000, Inner(left, right));
      nodes := nodes + [Node(parent, |bytes| % 0x1_0000, Inner(left, right))];
      idx := |nodes| - 1;
      ghost var b1 := nodes;
      nodes := WithParent(nodes, left, Some(idx));
      ghost var b2 := nodes;
      nodes := WithParent(nodes, right, Some(idx));
      s := SInner(idx, ls, rs);
      assert b1 == hi + [top] && idx == |hi|;
      assert nodes == WithParent(WithParent(hi + [top], ls.at, Some(|hi|)), rs.at, Some(|hi|));
      JoinBuilt(lo, mid, hi, nodes, ls, rs, top, parent, bytes, h);
      JoinMaps(m0, m1, nodeMap, bytes, h, s, mid, hi, nodes, top);
    }

    /** `new`: the tree over the bytes 0 to 254, ascending. */
    constructor ()
      ensures Valid() && Alphabet() == ShortAlphabet() && Halves(shape)
    {
      nodes := [];
      nodeMap := map[];
      new;
      var top;
      ghost var s;
      top, s := Construct(None, ShortAlphabet());
      root := top;
      shape := s;
      forall b | b in nodeMap
        ensures b in Letters(shape) && nodeMap[b] == LeafOf(shape, b)
      {
        LeafOfUnique(nodes, shape, nodeMap[b], b);
      }
      assert LeafMap(nodeMap, shape);
    }

    /**
     * `recursive_decrement(node)`: one leaf fewer at `node`, then the same
     * at its parent; `fuel` bounds the links followed.
     */
    method RecursiveDecrement(node: nat, ghost fuel: nat)
      requires Decremented(nodes, node, fuel).Some?
      modifies this`nodes
      ensures nodes == Decremented(old(nodes), node, fuel).value
      decreases fuel
    {
      nodes := WithSubsize(nodes, node, nodes[node].subsize - 1);
      match nodes[node].parent
      case None =>
      case Some(parent) =>
        RecursiveDecrement(parent, fuel - 1);
    }

    /** `remove_node(node)` as written. */
    method RemoveNode(node: nat, ghost fuel: nat)
      requires RemovedAsWritten(nodes, node, fuel).Some?
      modifies this`nodes
      ensures nodes == RemovedAsWritten(old(nodes), node, fuel).value
    {
      match nodes[node].parent
      case None =>
      case Some(parent) =>
        var data := nodes[parent].data;
        var other := if data.left == node then data.right else data.left;
        match nodes[parent].parent
        case None =>
        case Some(grand) =>
          var g := nodes[grand].data;
          nodes := WithData(nodes, grand, if g.left == parent then Inner(other, g.right) else Inner(g.left, other));
          RecursiveDecrement(grand, fuel);
    }

    /**
     * `remove_node(node)` with the sibling linked up to the grandparent, or
     * made the root when the parent was the root.
     */
    method RemoveNodeFixed(node: nat, ghost fuel: nat)
      requires Removed(nodes, root, node, fuel).Some?
      modifies this`nodes, this`root
      ensures (nodes, root) == Removed(old(nodes), old(root), node, fuel).value
    {
      match nodes[node].parent
      case None =>
      case Some(parent) =>
        var data := nodes[parent].data;
        var other := if data.left == node then data.right else data.left;
        match nodes[parent].parent
        case None =>
          nodes := WithParent(nodes, other, None);
          root := other;
        case Some(grand) =>
          var g := nodes[grand].data;
          nodes := WithData(nodes, grand, if g.left == parent then Inner(other, g.right) else Inner(g.left, other));
          nodes := WithParent(nodes, other, Some(grand));
          RecursiveDecrement(grand, fuel);
    }

    /**
     * `insert_front(node, byte)`: down the left edge counting one more leaf
     * at every node, then a new inner node in place of the leftmost leaf,
     * over a new leaf for `byte` and that leaf. Returns the new leaf.
     */
    method InsertFront(node: nat, byte: byte, ghost fuel: nat) returns (leaf: nat)
      requires Inserted(nodes, node, byte, fuel).Some?
      modifies this`nodes
      ensures (nodes, leaf) == Inserted(old(nodes), node, byte, fuel).value
      decreases fuel
    {
      match nodes[node].data
      case Inner(left, _) =>
        nodes := WithSubsize(nodes, node, nodes[node].subsize + 1);
        leaf := InsertFront(left, byte, fuel - 1);
      case Leaf(_) =>
        ghost var ns := nodes;
        var parent := nodes[node].parent.value;
        var newLeaf := |nodes|;
        nodes := nodes + [Node(None, 1, Leaf(byte))];
        var newInner := |nodes|;
        nodes := nodes + [Node(Some(parent), 2, Inner(newLeaf, node))];
        assert nodes == ns + [Node(None, 1, Leaf(byte)), Node(Some(parent), 2, Inner(newLeaf, node))];
        nodes := WithParent(nodes, node, Some(newInner));
        nodes := WithParent(nodes, newLeaf, Some(newInner));
        nodes := WithData(nodes, parent, Inner(newInner, nodes[parent].data.right));
        leaf := newLeaf;
    }

    /** `move_to_front(byte)` as written: the byte's rank, and the byte moved to the front. */
    method MoveToFront(byte: byte) returns (index: byte)
      requires MovedAsWritten(State(), byte).Some?
      modifies this`nodes, this`nodeMap
      ensures (State(), index) == MovedAsWritten(old(State()), byte).value
    {
      var node := nodeMap[byte];
      ghost var fuel := |nodes|;
      index := CountIndex(nodes, node, |nodes|).value;
      if index != 0 {
        RemoveNode(node, fuel);
        var newNode := InsertFront(root, byte, fuel);
        nodeMap := nodeMap[byte := newNode];
      }
    }

    /**
     * `move_to_front(byte)` over the corrected `remove_node`, on a
     * well-formed tree: the rank is the byte's position in the alphabet,
     * and the byte is then at the front of the alphabet.
     */
    method MoveToFrontFixed(byte: byte) returns (index: byte)
      requires Valid() && byte in nodeMap
      modifies this
      ensures Valid()
      ensures index == IndexOf(old(Alphabet()), byte)
      ensures Alphabet() == Promote(old(Alphabet()), index)
      ensures Moved(old(State()), byte) == Some((State(), index))
    {
      StepValid(State(), shape, byte);
      ghost var next := Stepped(shape, byte, |nodes|);
      var node := nodeMap[byte];
      ghost var fuel := |nodes|;
      index := CountIndex(nodes, node, |nodes|).value;
      if index != 0 {
        RemoveNodeFixed(node, fuel);
        var newNode := InsertFront(root, byte, fuel);
        nodeMap := nodeMap[byte := newNode];
      }
      shape := next;
    }
  }
}
