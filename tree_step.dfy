/**
 * One `move_to_front(byte)` on a well-formed tree, with the corrected
 * `remove_node`: it returns the byte's position in the alphabet the tree
 * stands for, and leaves a well-formed tree whose alphabet is the old one
 * with that byte moved to the front, the step of list move-to-front.
 */
module TreeStep {
  import opened Common
  import opened MoveToFront
  import opened TreeArena
  import opened TreeWalk
  import opened TreeRank
  import opened TreeCut
  import opened TreeRemove
  import opened TreeFront

  /**
   * The arena holds the tree `s` over at least three distinct bytes below a
   * root with no parent, and the map sends each of its bytes to its leaf.
   */
  ghost predicate ValidState(st: State, s: Shape)
  {
    Holds(st.nodes, s) && st.root == s.at && st.nodes[st.root].parent == None
    && Distinct(Letters(s)) && |Letters(s)| >= 3 && LeafMap(st.nodeMap, s)
  }

  /** The map's keys are the tree's bytes, and each goes to the byte's leaf. */
  ghost predicate LeafMap(m: map<byte, nat>, s: Shape)
  {
    (forall x :: x in m <==> x in Letters(s))
    && (forall x :: x in m ==> x in Letters(s) && m[x] == LeafOf(s, x))
  }

  /** The tree after moving `b` to the front of `s` in an arena of `size` nodes. */
  function Stepped(s: Shape, b: byte, size: nat): Shape
    requires b in Letters(s) && s.SInner?
  {
    if IndexOf(Letters(s), b) == 0 then s else Front(Cut(s, b), b, size, size + 1)
  }

  /** `move_to_front` put together from its three steps. */
  lemma MovedUnfold(st: State, b: byte, leaf: nat, k: nat, rem: (seq<Node>, nat), ins: (seq<Node>, nat))
    requires b in st.nodeMap && st.nodeMap[b] == leaf && 0 < k < 256
    requires CountIndex(st.nodes, leaf, |st.nodes|) == Some(k)
    requires Removed(st.nodes, st.root, leaf, |st.nodes|) == Some(rem)
    requires Inserted(rem.0, rem.1, b, |st.nodes|) == Some(ins)
    ensures Moved(st, b) == Some((State(ins.0, rem.1, st.nodeMap[b := ins.1]), k))
  {
  }

  /** The byte map after the move sends every byte to its leaf in the new tree. */
  lemma {:induction false} MapAfter(m: map<byte, nat>, s: Shape, b: byte, size: nat)
    requires s.SInner? && b in Letters(s) && Distinct(Letters(s)) && IndexOf(Letters(s), b) != 0
    requires LeafMap(m, s)
    ensures LeafMap(m[b := size], Stepped(s, b, size))
  {
    var c := Cut(s, b);
    var k := IndexOf(Letters(s), b);
    CutLetters(s, b);
    FrontLetters(c, b, size, size + 1);
    forall x | x in m[b := size]
      ensures x in Letters(Stepped(s, b, size)) && m[b := size][x] == LeafOf(Stepped(s, b, size), x)
    {
      if x == b {
        FrontLeafOf(c, b, size, size + 1, x);
      } else {
        CutLeafOf(s, b, x);
        FrontLeafOf(c, b, size, size + 1, x);
      }
    }
    forall x | x in Letters(Stepped(s, b, size))
      ensures x in m[b := size]
    {
      assert x in [b] + Letters(c);
      if x != b {
        assert x in Letters(s)[..k] || x in Letters(s)[k + 1..];
      }
    }
  }

  /** The alphabet after the move is the list move-to-front step. */
  lemma {:induction false} SteppedLetters(s: Shape, b: byte, size: nat)
    requires s.SInner? && b in Letters(s) && Distinct(Letters(s))
    ensures Letters(Stepped(s, b, size)) == Promote(Letters(s), IndexOf(Letters(s), b))
    ensures Distinct(Letters(Stepped(s, b, size)))
  {
    var alpha, k := Letters(s), IndexOf(Letters(s), b);
    PromoteDistinct(alpha, k);
    if k == 0 {
      assert Promote(alpha, 0) == alpha;
    } else {
      CutLetters(s, b);
      FrontLetters(Cut(s, b), b, size, size + 1);
      PromoteWithout(alpha, k);
    }
  }

  /**
   * `move_to_front(b)`, corrected, on a well-formed tree returns the
   * position of `b` in the tree's alphabet and leaves a well-formed tree
   * whose alphabet has `b` moved to the front.
   */
  lemma {:induction false} StepValid(st: State, s: Shape, b: byte)
    requires ValidState(st, s) && b in st.nodeMap
    ensures s.SInner? && b in Letters(s)
    ensures Moved(st, b).Some?
    ensures Moved(st, b).value.1 == IndexOf(Letters(s), b)
    ensures ValidState(Moved(st, b).value.0, Stepped(s, b, |st.nodes|))
    ensures Letters(Stepped(s, b, |st.nodes|)) == Promote(Letters(s), IndexOf(Letters(s), b))
  {
    assert s.SInner? && b in Letters(s) && st.nodeMap[b] == LeafOf(s, b);
    CountIndexRank(st.nodes, s, b, |st.nodes|);
    SteppedLetters(s, b, |st.nodes|);
    if IndexOf(Letters(s), b) != 0 {
      StepMoves(st, s, b);
    } else {
      StepInFront(st, s, b);
    }
  }

  /** The case where the byte is in front already: nothing changes. */
  lemma StepInFront(st: State, s: Shape, b: byte)
    requires ValidState(st, s) && b in st.nodeMap && s.SInner? && st.nodeMap[b] == LeafOf(s, b)
    requires b in Letters(s) && IndexOf(Letters(s), b) == 0
    requires CountIndex(st.nodes, LeafOf(s, b), |st.nodes|) == Some(0)
    ensures Moved(st, b) == Some((st, 0)) && Stepped(s, b, |st.nodes|) == s
  {
  }

  /** The case where the byte is not in front already. */
  lemma {:induction false} StepMoves(st: State, s: Shape, b: byte)
    requires ValidState(st, s) && b in st.nodeMap && s.SInner?
    requires IndexOf(Letters(s), b) != 0
    requires CountIndex(st.nodes, LeafOf(s, b), |st.nodes|) == Some(IndexOf(Letters(s), b))
    ensures Moved(st, b).Some?
    ensures Moved(st, b).value.1 == IndexOf(Letters(s), b)
    ensures ValidState(Moved(st, b).value.0, Stepped(s, b, |st.nodes|))
  {
    var ns, alpha, k := st.nodes, Letters(s), IndexOf(Letters(s), b);
    var fuel, leaf, c := |ns|, LeafOf(s, b), Cut(s, b);
    assert st.nodeMap[b] == leaf && st.root == s.at;
    RemovedCut(ns, s, b, fuel);
    var rem := Removed(ns, s.at, leaf, fuel).value;
    DistinctBound(alpha);
    CutLetters(s, b);
    assert |Letters(c)| == |alpha| - 1 && |rem.0| == fuel;
    var ins := InsertedCut(rem.0, c, b, fuel);
    MovedUnfold(st, b, leaf, k, rem, ins);
    MapAfter(st.nodeMap, s, b, fuel);
    SteppedLetters(s, b, fuel);
    FrontLetters(c, b, fuel, fuel + 1);
    SteppedMoves(s, b, fuel);
  }

  lemma SteppedMoves(s: Shape, b: byte, size: nat)
    requires b in Letters(s) && s.SInner? && IndexOf(Letters(s), b) != 0
    ensures Stepped(s, b, size) == Front(Cut(s, b), b, size, size + 1)
  {
  }

  /** `insert_front` at the top of the tree left by the removal. */
  lemma {:induction false} InsertedCut(ns: seq<Node>, c: Shape, b: byte, fuel: nat) returns (ins: (seq<Node>, nat))
    requires Holds(ns, c) && ns[c.at].parent == None && 2 <= |Letters(c)| < 256 && fuel == |ns|
    ensures Inserted(ns, c.at, b, fuel) == Some(ins)
    ensures Holds(ins.0, Front(c, b, fuel, fuel + 1)) && Front(c, b, fuel, fuel + 1).at == c.at
    ensures ins.0[c.at].parent == None && ins.1 == fuel
    ensures forall j :: 0 <= j < |ns| && j !in Indices(c) ==> ins.0[j] == ns[j]
  {
    assert c.SInner?;
    LinkedBelow(ns, c);
    SpineBelow(c);
    BelowCard(Indices(c), |ns|);
    InsertedFront(ns, c, b, fuel);
    FrontIndices(c, b, fuel, fuel + 1);
    ins := Inserted(ns, c.at, b, fuel).value;
  }

  /** The ranks of `input`, one `move_to_front` (corrected) after another. */
  function MovedAll(st: State, input: seq<byte>): Option<seq<byte>>
    decreases |input|
  {
    if input == [] then Some([])
    else
      match Moved(st, input[0])
      case None => None
      case Some(step) =>
        match MovedAll(step.0, input[1..])
        case None => None
        case Some(rest) => Some([step.1] + rest)
  }

  /**
   * Moving the bytes of `input` to the front of a well-formed tree one after
   * another gives the same ranks as list move-to-front over the tree's alphabet.
   */
  lemma {:induction false} MovedAllEncode(st: State, s: Shape, input: seq<byte>)
    requires ValidState(st, s)
    requires forall i :: 0 <= i < |input| ==> input[i] in Letters(s)
    ensures |Letters(s)| <= 256
    ensures MovedAll(st, input) == Encode(Letters(s), input)
    decreases |input|
  {
    DistinctBound(Letters(s));
    if input != [] {
      var b := input[0];
      assert b in Letters(s) && b in st.nodeMap;
      StepValid(st, s, b);
      var step := Moved(st, b).value;
      var k := IndexOf(Letters(s), b);
      var next := Stepped(s, b, |st.nodes|);
      PromoteMembers(Letters(s), k);
      forall i | 0 <= i < |input[1..]|
        ensures input[1..][i] in Letters(next)
      {
        assert input[1..][i] == input[i + 1];
      }
      MovedAllEncode(step.0, next, input[1..]);
    }
  }
}
