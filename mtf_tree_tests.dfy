/**
 * The tests of `mtftree.rs` (lines 248-278), run on the tree built by
 * `new` and moved with the corrected removal, and `insert_front_test_1`
 * as far as the code as written gets.
 */
module MoveToFrontTreeTests {
  import opened Common
  import opened MoveToFront
  import opened TreeWalk
  import opened TreeRank
  import opened MoveToFrontTree
  import opened TreeArena
  import opened TreeStale

  /**
   * The alphabets the insert-front tests pass through: `x` to the front,
   * then `y`, then `x` again, where `x < y` both still sit at their own
   * positions.
   */
  lemma {:induction false} TwoByteTrace(alpha: seq<byte>, x: byte, y: byte) returns (a1: seq<byte>, a2: seq<byte>)
    requires Distinct(alpha) && x < y && (y as int) < |alpha| && alpha[x] == x && alpha[y] == y
    ensures x in alpha && IndexOf(alpha, x) == x as int
    ensures a1 == Promote(alpha, x as nat) && Distinct(a1) && x in a1 && IndexOf(a1, x) == 0 && Promote(a1, 0) == a1
    ensures y in a1 && IndexOf(a1, y) == y as int
    ensures a2 == Promote(a1, y as nat) && Distinct(a2) && y in a2 && IndexOf(a2, y) == 0 && Promote(a2, 0) == a2
    ensures x in a2 && IndexOf(a2, x) == 1
    ensures x in Promote(a2, 1) && IndexOf(Promote(a2, 1), x) == 0
  {
    IndexOfDistinct(alpha, x as nat);
    IndexOfDistinct(alpha, y as nat);
    a1 := Promote(alpha, x as nat);
    PromoteIndex(alpha, x as nat, x);
    PromoteIndex(alpha, x as nat, y);
    PromoteDistinct(alpha, x as nat);
    PromoteFront(a1);
    a2 := Promote(a1, y as nat);
    PromoteIndex(a1, y as nat, y);
    PromoteIndex(a1, y as nat, x);
    PromoteDistinct(a1, y as nat);
    PromoteFront(a2);
    PromoteIndex(a2, 1, x);
  }

  /** Moves `x, x, x, y, y, x, x` to the front of a fresh tree and returns the ranks. */
  method InsertFrontTrace(x: byte, y: byte) returns (ranks: seq<byte>)
    requires x < y < 255
    ensures ranks == [x, 0, 0, y, 0, 1, 0]
  {
    var t := new Tree();
    var a1, a2 := TwoByteTrace(t.Alphabet(), x, y);
    var r1 := t.MoveToFrontFixed(x);
    var r2 := t.MoveToFrontFixed(x);
    var r3 := t.MoveToFrontFixed(x);
    assert t.Alphabet() == a1;
    var r4 := t.MoveToFrontFixed(y);
    var r5 := t.MoveToFrontFixed(y);
    assert t.Alphabet() == a2;
    var r6 := t.MoveToFrontFixed(x);
    var r7 := t.MoveToFrontFixed(x);
    ranks := [r1, r2, r3, r4, r5, r6, r7];
  }

  /** `insert_front_test`: bytes 100 and 101. */
  method InsertFrontTest() returns (ranks: seq<byte>)
    ensures ranks == [100, 0, 0, 101, 0, 1, 0]
  {
    ranks := InsertFrontTrace(100, 101);
  }

  /** `insert_front_test_1`: bytes 1 and 2. */
  method InsertFrontTestOne() returns (ranks: seq<byte>)
    ensures ranks == [1, 0, 0, 2, 0, 1, 0]
  {
    ranks := InsertFrontTrace(1, 2);
  }

  /**
   * `insert_front_test_1` with `remove_node` as written: the first three
   * calls return 1, 0 and 0, as the test expects, but then byte 2's leaf
   * still names the detached parent of byte 1's old leaf, and the fourth
   * call counts 3 where the test expects 2.
   */
  method InsertFrontTestOneAsWritten() returns (ranks: seq<byte>, t: Tree)
    ensures ranks == [1, 0, 0]
    ensures 2 in t.nodeMap && CountIndex(t.nodes, t.nodeMap[2], |t.nodes|) == Some(3)
    ensures MovedAsWritten(t.State(), 2).Some? ==> MovedAsWritten(t.State(), 2).value.1 == 3
  {
    t := new Tree();
    ghost var p := LeftTriple(t.shape);
    ghost var st1 := StaleTrace(t.State(), t.shape, p);
    DownLeftLetters(t.shape, p);
    TripleLetters(p);
    assert Letters(p) == t.Alphabet()[..3] == [0, 1, 2];
    var r1 := t.MoveToFront(1);
    var r2 := t.MoveToFront(1);
    var r3 := t.MoveToFront(1);
    ranks := [r1, r2, r3];
  }

  /** `count_index_test`: in a fresh tree, the leaf of each byte `i` counts `i` bytes before it. */
  method CountIndexTest() returns (t: Tree)
    ensures forall i: byte :: i < 255 ==> i in t.nodeMap && CountIndex(t.nodes, t.nodeMap[i], |t.nodes|) == Some(i)
  {
    t := new Tree();
    forall i: byte | i < 255
      ensures i in t.nodeMap && CountIndex(t.nodes, t.nodeMap[i], |t.nodes|) == Some(i)
    {
      IndexOfDistinct(t.Alphabet(), i as nat);
      CountIndexRank(t.nodes, t.shape, i, |t.nodes|);
    }
  }
}
