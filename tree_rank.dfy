/**
 * `count_index` on a well-formed tree: walking up from a byte's leaf and
 * adding the left siblings' leaf counts gives the byte's position in the
 * alphabet the tree stands for.
 */
module TreeRank {
  import opened Common
  import opened MoveToFront
  import opened TreeArena
  import opened TreeWalk

  /** A byte found in the first part is found at the same place in the whole. */
  lemma {:induction false} IndexOfLeft(a: seq<byte>, c: seq<byte>, b: byte)
    requires b in a
    ensures IndexOf(a + c, b) == IndexOf(a, b)
  {
    var k := IndexOf(a, b);
    assert (a + c)[k] == b;
    assert forall j :: 0 <= j < k ==> (a + c)[j] == a[j];
  }

  /** A byte only in the second part is found that part's length further on. */
  lemma {:induction false} IndexOfRight(a: seq<byte>, c: seq<byte>, b: byte)
    requires b !in a && b in c
    ensures IndexOf(a + c, b) == |a| + IndexOf(c, b)
  {
    var k := IndexOf(c, b);
    assert (a + c)[|a| + k] == b;
    assert forall j :: 0 <= j < |a| ==> (a + c)[j] == a[j];
    assert forall j :: 0 <= j < k ==> (a + c)[|a| + j] == c[j];
  }

  /** More fuel does not change a walk that already reached the root. */
  lemma {:induction false} CountIndexFuel(ns: seq<Node>, i: nat, f: nat, f': nat)
    requires CountIndex(ns, i, f).Some? && f <= f'
    ensures CountIndex(ns, i, f') == CountIndex(ns, i, f)
    decreases f
  {
    if ns[i].parent.Some? {
      CountIndexFuel(ns, ns[i].parent.value, f - 1, f' - 1);
    }
  }

  /** One step of `count_index` up from `i` to its parent `p`. */
  lemma CountUp(ns: seq<Node>, i: nat, p: nat, g: nat, k: nat, add: nat)
    requires i < |ns| && ns[i].parent == Some(p) && p < |ns| && ns[p].data.Inner? && ns[p].data.left < |ns|
    requires add == if ns[p].data.left == i then 0 else AsU8(ns[ns[p].data.left].subsize)
    requires CountIndex(ns, p, g) == Some(k) && add + k < 256
    ensures CountIndex(ns, i, g + 1) == Some(add + k)
  {
  }

  /**
   * Below a node whose own count is `k`, the leaf of `b` counts `k` plus the
   * position of `b` among the node's leaves, `Depth` links further up. The
   * fuel `f` and the count `v` are named so that every level states its
   * result over the same two values.
   */
  lemma {:induction false} RankFrom(ns: seq<Node>, t: Shape, b: byte, g: nat, k: nat, f: nat, v: nat)
    requires Linked(ns, t) && Sized(ns, t) && Parented(ns, t) && Unique(t) && b in Letters(t) && g >= 1
    requires CountIndex(ns, t.at, g) == Some(k) && v == k + IndexOf(Letters(t), b) && v < 256
    requires f == g + Depth(t, b)
    ensures CountIndex(ns, LeafOf(t, b), f) == Some(v)
    decreases t, 1
  {
    if t.SInner? {
      if b in Letters(t.left) {
        RankLeft(ns, t, b, g, k, f, v);
      } else {
        RankRight(ns, t, b, g, k, f, v);
      }
    }
  }

  lemma {:induction false} RankLeft(ns: seq<Node>, t: Shape, b: byte, g: nat, k: nat, f: nat, v: nat)
    requires t.SInner? && b in Letters(t.left)
    requires Linked(ns, t) && Sized(ns, t) && Parented(ns, t) && Unique(t) && g >= 1
    requires CountIndex(ns, t.at, g) == Some(k) && v == k + IndexOf(Letters(t), b) && v < 256
    requires f == g + Depth(t, b)
    ensures CountIndex(ns, LeafOf(t, b), f) == Some(v)
    decreases t, 0
  {
    var l, r := t.left, t.right;
    assert Linked(ns, l) && Sized(ns, l) && Parented(ns, l) && Unique(l);
    assert ns[t.at].data == Inner(l.at, r.at) && ns[l.at].parent == Some(t.at);
    IndexOfLeft(Letters(l), Letters(r), b);
    CountUp(ns, l.at, t.at, g, k, 0);
    assert LeafOf(t, b) == LeafOf(l, b) && Depth(t, b) == 1 + Depth(l, b);
    RankFrom(ns, l, b, g + 1, k, f, v);
  }

  lemma {:induction false} RankRight(ns: seq<Node>, t: Shape, b: byte, g: nat, k: nat, f: nat, v: nat)
    requires t.SInner? && b !in Letters(t.left) && b in Letters(t.right)
    requires Linked(ns, t) && Sized(ns, t) && Parented(ns, t) && Unique(t) && g >= 1
    requires CountIndex(ns, t.at, g) == Some(k) && v == k + IndexOf(Letters(t), b) && v < 256
    requires f == g + Depth(t, b)
    ensures CountIndex(ns, LeafOf(t, b), f) == Some(v)
    decreases t, 0
  {
    var l, r := t.left, t.right;
    AtIn(l);
    AtIn(r);
    assert Linked(ns, r) && Sized(ns, r) && Parented(ns, r) && Unique(r);
    assert ns[t.at].data == Inner(l.at, r.at) && ns[r.at].parent == Some(t.at) && l.at != r.at;
    assert ns[l.at].subsize == |Letters(l)|;
    IndexOfRight(Letters(l), Letters(r), b);
    CountUp(ns, r.at, t.at, g, k, |Letters(l)|);
    assert LeafOf(t, b) == LeafOf(r, b) && Depth(t, b) == 1 + Depth(r, b);
    RankFrom(ns, r, b, g + 1, k + |Letters(l)|, f, v);
  }

  /**
   * `count_index` on the leaf of `b` in a tree over distinct bytes whose
   * root has no parent is the position of `b` in the tree's alphabet.
   */
  lemma {:induction false} CountIndexRank(ns: seq<Node>, s: Shape, b: byte, fuel: nat)
    requires Holds(ns, s) && ns[s.at].parent == None && Distinct(Letters(s))
    requires b in Letters(s) && fuel >= |ns|
    ensures CountIndex(ns, LeafOf(s, b), fuel) == Some(IndexOf(Letters(s), b))
  {
    DistinctBound(Letters(s));
    var f, v := 1 + Depth(s, b), IndexOf(Letters(s), b);
    assert CountIndex(ns, s.at, 1) == Some(0);
    RankFrom(ns, s, b, 1, 0, f, v);
    DepthBelow(s, b);
    LinkedBelow(ns, s);
    BelowCard(Indices(s), |ns|);
    CountIndexFuel(ns, LeafOf(s, b), f, fuel);
  }
}
