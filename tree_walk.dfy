/**
 * The operations of `mtftree.rs` on the node arena, one function each,
 * following the code link by link. `None` is a panic: a missing node, a
 * parent whose data is a leaf, a `u8`/`u16` overflow or underflow (debug
 * build), or a walk that does not reach a root within `fuel` links, which
 * the source would follow forever.
 */
module TreeWalk {
  import opened Common
  import opened TreeArena

  /** The byte a `u16` leaf count becomes under `as u8`. */
  function AsU8(n: nat): (r: byte)
    ensures n < 256 ==> r == n
  {
    n % 256
  }

  /**
   * `count_index(node)`: the leaves to the left of `node`'s subtree, found
   * by adding, at every step up, the left sibling's leaf count unless the
   * node is that left child.
   */
  function CountIndex(ns: seq<Node>, i: nat, fuel: nat): (r: Option<byte>)
    ensures r.Some? ==> i < |ns|
    decreases fuel
  {
    if fuel == 0 || i >= |ns| then None
    else match ns[i].parent
      case None => Some(0)
      case Some(p) =>
        if p >= |ns| || !ns[p].data.Inner? || ns[p].data.left >= |ns| then None
        else
          var add := if ns[p].data.left == i then 0 else AsU8(ns[ns[p].data.left].subsize);
          match CountIndex(ns, p, fuel - 1)
          case None => None
          case Some(k) => if add + k < 256 then Some(add + k) else None
  }

  /** The arena with the leaf count of every node in `path` one lower. */
  function Lowered(ns: seq<Node>, path: seq<nat>): (r: seq<Node>)
    requires forall j :: 0 <= j < |path| && path[j] < |ns| ==> ns[path[j]].subsize >= 1
    ensures |r| == |ns|
    ensures forall i :: 0 <= i < |ns| ==> r[i].parent == ns[i].parent && r[i].data == ns[i].data
    ensures forall i :: 0 <= i < |ns| ==> r[i].subsize == if i in path then ns[i].subsize - 1 else ns[i].subsize
  {
    seq(|ns|, i requires 0 <= i < |ns| => if i in path then ns[i].(subsize := ns[i].subsize - 1) else ns[i])
  }

  /** `recursive_decrement(node)`: one leaf fewer at `node` and at each node above it. */
  function Decremented(ns: seq<Node>, i: nat, fuel: nat): (r: Option<seq<Node>>)
    ensures r.Some? ==> |r.value| == |ns|
    decreases fuel
  {
    if fuel == 0 || i >= |ns| || ns[i].subsize == 0 then None
    else
      var lowered := WithSubsize(ns, i, ns[i].subsize - 1);
      match ns[i].parent
      case None => Some(lowered)
      case Some(p) => Decremented(lowered, p, fuel - 1)
  }

  /** The other child of `p`'s data, as `remove_node` picks it by identity. */
  function Other(d: Data, i: nat): nat
    requires d.Inner?
  {
    if d.left == i then d.right else d.left
  }

  /** The grandparent's data with the child `p` replaced by `o`. */
  function Replaced(d: Data, p: nat, o: nat): Data
    requires d.Inner?
  {
    if d.left == p then Inner(o, d.right) else Inner(d.left, o)
  }

  /**
   * `remove_node(node)` as written: the grandparent's link to the parent is
   * replaced by the sibling, and the leaf counts above are lowered. The
   * sibling keeps its old parent link, and nothing happens when the parent
   * is the root.
   */
  function RemovedAsWritten(ns: seq<Node>, i: nat, fuel: nat): (r: Option<seq<Node>>)
    ensures r.Some? ==> |r.value| == |ns|
  {
    if i >= |ns| then None
    else match ns[i].parent
      case None => Some(ns)
      case Some(p) =>
        if p >= |ns| || !ns[p].data.Inner? then None
        else
          var other := Other(ns[p].data, i);
          match ns[p].parent
          case None => Some(ns)
          case Some(g) =>
            if g >= |ns| || !ns[g].data.Inner? then None
            else Decremented(WithData(ns, g, Replaced(ns[g].data, p, other)), g, fuel)
  }

  /**
   * `remove_node` with the sibling linked up to the grandparent, and taking
   * the parent's place as the root when there is no grandparent. The result
   * holds the new arena and the new root.
   */
  function Removed(ns: seq<Node>, root: nat, i: nat, fuel: nat): (r: Option<(seq<Node>, nat)>)
    ensures r.Some? ==> |r.value.0| == |ns|
  {
    if i >= |ns| then None
    else match ns[i].parent
      case None => Some((ns, root))
      case Some(p) =>
        if p >= |ns| || !ns[p].data.Inner? || Other(ns[p].data, i) >= |ns| then None
        else
          var other := Other(ns[p].data, i);
          match ns[p].parent
          case None => Some((WithParent(ns, other, None), other))
          case Some(g) =>
            if g >= |ns| || !ns[g].data.Inner? then None
            else
              var relinked := WithParent(WithData(ns, g, Replaced(ns[g].data, p, other)), other, Some(g));
              match Decremented(relinked, g, fuel)
              case None => None
              case Some(lowered) => Some((lowered, root))
  }

  /**
   * `insert_front(node, byte)`: one more leaf at every node down the left
   * edge, and at the leftmost leaf a new inner node whose left child is a
   * new leaf for `byte` and whose right child is the old leaf. The result
   * holds the new arena and the new leaf.
   */
  function Inserted(ns: seq<Node>, i: nat, b: byte, fuel: nat): (r: Option<(seq<Node>, nat)>)
    ensures r.Some? ==> |r.value.0| == |ns| + 2 && r.value.1 == |ns|
    decreases fuel
  {
    if fuel == 0 || i >= |ns| then None
    else match ns[i].data
      case Inner(l, _) =>
        if ns[i].subsize + 1 >= 0x1_0000 then None
        else Inserted(WithSubsize(ns, i, ns[i].subsize + 1), l, b, fuel - 1)
      case Leaf(_) =>
        match ns[i].parent
        case None => None
        case Some(q) =>
          if q >= |ns| || !ns[q].data.Inner? then None
          else
            var leaf, inner := |ns|, |ns| + 1;
            var grown := ns + [Node(None, 1, Leaf(b)), Node(Some(q), 2, Inner(leaf, i))];
            var linked := WithParent(WithParent(grown, i, Some(inner)), leaf, Some(inner));
            Some((WithData(linked, q, Inner(inner, ns[q].data.right)), leaf))
  }

  /** The state `move_to_front` works on. */
  datatype State = State(nodes: seq<Node>, root: nat, nodeMap: map<byte, nat>)

  /**
   * `move_to_front(byte)` as written: the rank of the byte's leaf, and when
   * it is not 0 the leaf is removed and a new one inserted at the front.
   */
  function MovedAsWritten(st: State, b: byte): (r: Option<(State, byte)>)
  {
    if b !in st.nodeMap then None
    else
      var fuel := |st.nodes|;
      var leaf := st.nodeMap[b];
      match CountIndex(st.nodes, leaf, fuel)
      case None => None
      case Some(index) =>
        if index == 0 then Some((st, 0))
        else match RemovedAsWritten(st.nodes, leaf, fuel)
          case None => None
          case Some(removed) =>
            match Inserted(removed, st.root, b, fuel)
            case None => None
            case Some(ins) => Some((State(ins.0, st.root, st.nodeMap[b := ins.1]), index))
  }

  /** `move_to_front(byte)` over the corrected `remove_node`. */
  function Moved(st: State, b: byte): (r: Option<(State, byte)>)
  {
    if b !in st.nodeMap then None
    else
      var fuel := |st.nodes|;
      var leaf := st.nodeMap[b];
      match CountIndex(st.nodes, leaf, fuel)
      case None => None
      case Some(index) =>
        if index == 0 then Some((st, 0))
        else match Removed(st.nodes, st.root, leaf, fuel)
          case None => None
          case Some(rem) =>
            match Inserted(rem.0, rem.1, b, fuel)
            case None => None
            case Some(ins) => Some((State(ins.0, rem.1, st.nodeMap[b := ins.1]), index))
  }
}
