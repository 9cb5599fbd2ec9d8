/**
 * Small trees on which `move_to_front` over `remove_node` as written goes
 * wrong, next to what the corrected removal does on the same trees.
 */
module MoveToFrontTreeVectors {
  import opened Common
  import opened MoveToFront
  import opened TreeArena
  import opened TreeWalk
  import opened TreeStep

  // ---------------------------------------------------------------------
  // The sibling's parent link: bytes 0, 1, 2 with 1 and 2 below the root's
  // right child
  // ---------------------------------------------------------------------

  function Start(): State
  {
    State([Node(Some(4), 1, Leaf(0)), Node(Some(3), 1, Leaf(1)), Node(Some(3), 1, Leaf(2)),
           Node(Some(4), 2, Inner(1, 2)), Node(None, 3, Inner(0, 3))], 4, map[0 := 0, 1 := 1, 2 := 2])
  }

  function StartShape(): Shape
  {
    SInner(4, SLeaf(0, 0), SInner(3, SLeaf(1, 1), SLeaf(2, 2)))
  }

  lemma {:induction false} StartValid()
    ensures ValidState(Start(), StartShape()) && Letters(StartShape()) == [0, 1, 2]
  {
    var s := StartShape();
    assert Letters(s) == [0, 1, 2];
    assert Indices(s.right) == {3, 1, 2};
    assert Unique(s);
  }

  /** The arena after moving byte 1 to the front with `remove_node` as written. */
  function AfterOne(): seq<Node>
  {
    [Node(Some(6), 1, Leaf(0)), Node(Some(3), 1, Leaf(1)), Node(Some(3), 1, Leaf(2)),
     Node(Some(4), 2, Inner(1, 2)), Node(None, 3, Inner(6, 2)), Node(Some(6), 1, Leaf(1)), Node(Some(4), 2, Inner(5, 0))]
  }

  lemma {:induction false} FirstRank()
    ensures CountIndex(Start().nodes, 1, 5) == Some(1)
  {
    var ns := Start().nodes;
    assert CountIndex(ns, 4, 3) == Some(0);
    assert CountIndex(ns, 3, 4) == Some(1);
  }

  lemma {:induction false} FirstRemove()
    ensures RemovedAsWritten(Start().nodes, 1, 5) == Some(Start().nodes[4 := Node(None, 2, Inner(0, 2))])
  {
    var ns := Start().nodes;
    assert Other(ns[3].data, 1) == 2 && Replaced(ns[4].data, 3, 2) == Inner(0, 2);
    var ns1 := WithData(ns, 4, Inner(0, 2));
    assert Decremented(ns1, 4, 5) == Some(WithSubsize(ns1, 4, 2));
    assert WithSubsize(ns1, 4, 2) == ns[4 := Node(None, 2, Inner(0, 2))];
  }

  lemma {:induction false} FirstInsert()
    ensures Inserted(Start().nodes[4 := Node(None, 2, Inner(0, 2))], 4, 1, 5) == Some((AfterOne(), 5))
  {
    var ns := Start().nodes[4 := Node(None, 2, Inner(0, 2))];
    var ns1 := WithSubsize(ns, 4, 3);
    assert Inserted(ns, 4, 1, 5) == Inserted(ns1, 0, 1, 4);
    var grown := ns1 + [Node(None, 1, Leaf(1)), Node(Some(4), 2, Inner(5, 0))];
    var linked := WithParent(WithParent(grown, 0, Some(6)), 5, Some(6));
    assert WithData(linked, 4, Inner(6, 2)) == AfterOne();
  }

  /** Leaf 2 still names node 3 as its parent, which is no longer in the tree. */
  lemma {:induction false} SecondRank()
    ensures CountIndex(AfterOne(), 2, 7) == Some(3)
  {
    var ns := AfterOne();
    assert CountIndex(ns, 4, 5) == Some(0);
    assert CountIndex(ns, 3, 6) == Some(2);
  }

  /**
   * Moving 1 and then 2 to the front, as written: the first rank is 1, as in
   * list move-to-front, but the second is 3, where list move-to-front gives
   * 2, and 3 is past the end of a three-letter alphabet.
   */
  lemma {:induction false} StaleParent()
    ensures MovedAsWritten(Start(), 1) == Some((State(AfterOne(), 4, map[0 := 0, 1 := 5, 2 := 2]), 1))
    ensures var next := State(AfterOne(), 4, map[0 := 0, 1 := 5, 2 := 2]);
      MovedAsWritten(next, 2).Some? ==> MovedAsWritten(next, 2).value.1 == 3
    ensures Encode([0, 1, 2], [1, 2]) == Some([1, 2])
  {
    FirstRank();
    FirstRemove();
    FirstInsert();
    assert Start().nodeMap[1 := 5] == map[0 := 0, 1 := 5, 2 := 2];
    SecondRank();
    EncodeVector();
  }

  /** List move-to-front of 1, 2 over 0, 1, 2. */
  lemma {:induction false} EncodeVector()
    ensures Encode([0, 1, 2], [1, 2]) == Some([1, 2])
  {
    var a: seq<byte> := [0, 1, 2];
    var b: seq<byte> := [1, 0, 2];
    assert IndexOf(a, 1) == 1 by { assert a[1..] == [1, 2]; }
    assert Promote(a, 1) == b by { assert a[..1] == [0] && a[2..] == [2]; }
    assert IndexOf(b, 2) == 2 by { assert b[1..] == [0, 2]; assert b[1..][1..] == [2]; }
    var input: seq<byte> := [1, 2];
    assert input[1..] == [2];
    var only: seq<byte> := [2];
    assert only[0] in b && only[1..] == [];
    assert Encode(Promote(b, 2), only[1..]) == Some([]);
    assert IndexOf(b, only[0]) == 2;
    assert [2] + [] == only;
    assert Encode(b, only) == Some(only);
    assert input[1..] == only && IndexOf(a, input[0]) == 1;
    assert [1] + only == input;
    assert Encode(a, input) == Some(input);
  }

  /** The corrected removal gives the ranks of list move-to-front on the same input. */
  lemma {:induction false} StaleParentFixed()
    ensures MovedAll(Start(), [1, 2]) == Some([1, 2])
  {
    StartValid();
    MovedAllEncode(Start(), StartShape(), [1, 2]);
    EncodeVector();
  }

  // ---------------------------------------------------------------------
  // A leaf right below the root: bytes 0, 1, 2 with 2 the root's right child
  // ---------------------------------------------------------------------

  function Shallow(): State
  {
    State([Node(Some(3), 1, Leaf(0)), Node(Some(3), 1, Leaf(1)), Node(Some(4), 1, Leaf(2)),
           Node(Some(4), 2, Inner(0, 1)), Node(None, 3, Inner(3, 2))], 4, map[0 := 0, 1 := 1, 2 := 2])
  }

  function ShallowShape(): Shape
  {
    SInner(4, SInner(3, SLeaf(0, 0), SLeaf(1, 1)), SLeaf(2, 2))
  }

  lemma {:induction false} ShallowValid()
    ensures ValidState(Shallow(), ShallowShape()) && Letters(ShallowShape()) == [0, 1, 2]
  {
    var s := ShallowShape();
    assert Letters(s) == [0, 1, 2];
    assert Indices(s.left) == {3, 0, 1};
    assert Unique(s);
  }

  /** The arena after moving byte 2 to the front with `remove_node` as written. */
  function Doubled(): seq<Node>
  {
    [Node(Some(6), 1, Leaf(0)), Node(Some(3), 1, Leaf(1)), Node(Some(4), 1, Leaf(2)),
     Node(Some(4), 3, Inner(6, 1)), Node(None, 4, Inner(3, 2)), Node(Some(6), 1, Leaf(2)), Node(Some(3), 2, Inner(5, 0))]
  }

  function DoubledShape(): Shape
  {
    SInner(4, SInner(3, SInner(6, SLeaf(5, 2), SLeaf(0, 0)), SLeaf(1, 1)), SLeaf(2, 2))
  }

  lemma {:induction false} ShallowInsert()
    ensures Inserted(Shallow().nodes, 4, 2, 5) == Some((Doubled(), 5))
  {
    var ns := Shallow().nodes;
    var ns1 := WithSubsize(ns, 4, 4);
    var ns2 := WithSubsize(ns1, 3, 3);
    assert Inserted(ns, 4, 2, 5) == Inserted(ns1, 3, 2, 4);
    assert Inserted(ns1, 3, 2, 4) == Inserted(ns2, 0, 2, 3);
    var grown := ns2 + [Node(None, 1, Leaf(2)), Node(Some(3), 2, Inner(5, 0))];
    var linked := WithParent(WithParent(grown, 0, Some(6)), 5, Some(6));
    assert WithData(linked, 3, Inner(6, 1)) == Doubled();
  }

  /**
   * Moving 2 to the front, as written: the parent is the root, so nothing is
   * removed, and the tree afterwards holds byte 2 twice.
   */
  lemma {:induction false} RootChild()
    ensures MovedAsWritten(Shallow(), 2) == Some((State(Doubled(), 4, map[0 := 0, 1 := 1, 2 := 5]), 2))
    ensures Holds(Doubled(), DoubledShape()) && Letters(DoubledShape()) == [2, 0, 1, 2]
  {
    var ns := Shallow().nodes;
    assert CountIndex(ns, 4, 4) == Some(0);
    assert CountIndex(ns, 2, 5) == Some(2);
    assert RemovedAsWritten(ns, 2, 5) == Some(ns);
    ShallowInsert();
    assert Shallow().nodeMap[2 := 5] == map[0 := 0, 1 := 1, 2 := 5];
    var s := DoubledShape();
    assert Letters(s) == [2, 0, 1, 2];
    assert Indices(s.left.left) == {6, 5, 0};
    assert Indices(s.left) == {3, 6, 5, 0, 1};
    assert Unique(s);
  }

  lemma ThirdOfThree(a: seq<byte>)
    requires a == [0, 1, 2]
    ensures 2 in a && IndexOf(a, 2) == 2 && Promote(a, 2) == [2, 0, 1]
  {
    assert a[2] == 2 && a[0] != 2 && a[1] != 2;
    assert a[..2] == [0, 1] && a[3..] == [];
  }

  /** Moving the last of three letters to the front with the corrected removal. */
  lemma {:induction false} MoveLastOfThree(st: State, s: Shape)
    requires ValidState(st, s) && Letters(s) == [0, 1, 2] && 2 in st.nodeMap
    ensures Moved(st, 2).Some? && Moved(st, 2).value.1 == 2
    ensures ValidState(Moved(st, 2).value.0, Stepped(s, 2, |st.nodes|))
    ensures Letters(Stepped(s, 2, |st.nodes|)) == [2, 0, 1]
  {
    ThirdOfThree(Letters(s));
    StepValid(st, s, 2);
  }

  /** The corrected removal makes the sibling the root, and the byte is held once. */
  lemma {:induction false} RootChildFixed(st: State, s: Shape)
    requires st == Shallow() && s == ShallowShape()
    ensures Moved(st, 2).Some? && Moved(st, 2).value.1 == 2
    ensures ValidState(Moved(st, 2).value.0, Stepped(s, 2, 5))
    ensures Letters(Stepped(s, 2, 5)) == [2, 0, 1]
  {
    ShallowValid();
    assert 2 in st.nodeMap && |st.nodes| == 5;
    MoveLastOfThree(st, s);
  }
}
