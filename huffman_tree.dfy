/**
 * Huffman code construction. `burrows-wheeler/src/huffman/encode.rs` and
 * the older `huffman/src/encode/mod.rs` hold the same three functions:
 * `count_frequency` counts the bytes, `build_codes` merges a priority queue
 * of subtrees into one tree, and `update_codes` reads the codes off the
 * tree (left = false, right = true).
 *
 * `HashMap` iteration order is unspecified; the model lets `KeyOrder` pick
 * any order, so everything proved here holds for every order. The
 * `priority_queue` crate's choice among equal priorities is also
 * unspecified; the model fixes it as the entry inserted first.
 */
module HuffmanTree {
  import opened Common
  import opened Sorting

  datatype Node = Leaf(letter: byte) | Inner(left: Node, right: Node)

  /** A `CodeDescriptor`: a letter and its code. */
  datatype Descriptor = Descriptor(code: seq<bool>, letter: byte)

  /** The letters at the leaves, left to right. */
  function Letters(node: Node): (r: seq<byte>)
    ensures |r| >= 1
  {
    match node
    case Leaf(x) => [x]
    case Inner(l, r) => Letters(l) + Letters(r)
  }

  /**
   * The leaves, left to right, each with its path from the root appended
   * to `prefix`: the descriptors `update_codes(.., node, prefix)` inserts.
   */
  function LeafList(node: Node, prefix: seq<bool>): (r: seq<Descriptor>)
    ensures |r| == |Letters(node)|
    ensures forall i :: 0 <= i < |r| ==> r[i].letter == Letters(node)[i]
  {
    match node
    case Leaf(x) => [Descriptor(prefix, x)]
    case Inner(l, r) => LeafList(l, prefix + [false]) + LeafList(r, prefix + [true])
  }

  // ---------------------------------------------------------------------
  // Codes of a tree: prefixes and left-to-right order.
  // ---------------------------------------------------------------------

  /** `a` is met before `b` in a left-to-right walk: where they first differ, `a` goes left and `b` right. */
  predicate Before(a: seq<bool>, b: seq<bool>)
  {
    |a| > 0 && |b| > 0 && (if a[0] == b[0] then Before(a[1..], b[1..]) else !a[0] && b[0])
  }

  lemma {:induction false} BeforeAt(a: seq<bool>, b: seq<bool>, k: nat)
    requires k < |a| && k < |b| && a[..k] == b[..k] && !a[k] && b[k]
    ensures Before(a, b)
  {
    if k > 0 {
      assert a[0] == a[..k][0] == b[..k][0] == b[0];
      assert a[1..][..k - 1] == a[..k][1..] == b[..k][1..] == b[1..][..k - 1];
      BeforeAt(a[1..], b[1..], k - 1);
    }
  }

  /** Codes in walk order are not prefixes of one another. */
  lemma {:induction false} BeforeNotPrefix(a: seq<bool>, b: seq<bool>)
    requires Before(a, b)
    ensures !(a <= b) && !(b <= a) && a != b
  {
    if a[0] == b[0] {
      BeforeNotPrefix(a[1..], b[1..]);
    }
  }

  /** Every code in the leaf list extends its prefix. */
  lemma {:induction false} LeafPrefix(node: Node, prefix: seq<bool>, i: nat)
    requires i < |LeafList(node, prefix)|
    ensures prefix <= LeafList(node, prefix)[i].code
    decreases node
  {
    match node
    case Leaf(_) =>
    case Inner(l, r) =>
      var nl := |LeafList(l, prefix + [false])|;
      var p := if i < nl then prefix + [false] else prefix + [true];
      var k := if i < nl then i else i - nl;
      if i < nl {
        LeafPrefix(l, p, k);
      } else {
        LeafPrefix(r, p, k);
      }
      var c := LeafList(node, prefix)[i].code;
      assert p <= c;
      assert c[..|prefix|] == c[..|p|][..|prefix|] == p[..|prefix|] == prefix;
  }

  /** The leaf list is in walk order. */
  lemma {:induction false} LeafOrder(node: Node, prefix: seq<bool>, i: nat, j: nat)
    requires i < j < |LeafList(node, prefix)|
    ensures Before(LeafList(node, prefix)[i].code, LeafList(node, prefix)[j].code)
    decreases node
  {
    match node
    case Leaf(_) =>
    case Inner(l, r) =>
      var left, right := LeafList(l, prefix + [false]), LeafList(r, prefix + [true]);
      var nl := |left|;
      if j < nl {
        LeafOrder(l, prefix + [false], i, j);
      } else if i >= nl {
        LeafOrder(r, prefix + [true], i - nl, j - nl);
      } else {
        var a, b := left[i].code, right[j - nl].code;
        LeafPrefix(l, prefix + [false], i);
        LeafPrefix(r, prefix + [true], j - nl);
        var n := |prefix|;
        assert a[..n] == (prefix + [false])[..n] == prefix;
        assert b[..n] == (prefix + [true])[..n] == prefix;
        assert a[n] == (prefix + [false])[n] == false;
        assert b[n] == (prefix + [true])[n] == true;
        BeforeAt(a, b, n);
      }
  }

  // ---------------------------------------------------------------------
  // `update_codes`: the code map of a tree.
  // ---------------------------------------------------------------------

  /** `codes` after inserting each descriptor in turn; a later one replaces an earlier one with the same letter. */
  function Insert(codes: map<byte, seq<bool>>, ds: seq<Descriptor>): map<byte, seq<bool>>
    decreases |ds|
  {
    if ds == [] then codes else Insert(codes[ds[0].letter := ds[0].code], ds[1..])
  }

  function LettersOf(ds: seq<Descriptor>): (r: seq<byte>)
    ensures |r| == |ds| && forall i :: 0 <= i < |ds| ==> r[i] == ds[i].letter
  {
    seq(|ds|, i requires 0 <= i < |ds| => ds[i].letter)
  }

  lemma {:induction false} InsertAppend(codes: map<byte, seq<bool>>, a: seq<Descriptor>, b: seq<Descriptor>)
    ensures Insert(codes, a + b) == Insert(Insert(codes, a), b)
    decreases |a|
  {
    if a == [] {
      assert a + b == b;
    } else {
      assert (a + b)[0] == a[0] && (a + b)[1..] == a[1..] + b;
      InsertAppend(codes[a[0].letter := a[0].code], a[1..], b);
    }
  }

  lemma {:induction false} InsertKeys(codes: map<byte, seq<bool>>, ds: seq<Descriptor>)
    ensures Insert(codes, ds).Keys == codes.Keys + Elems(LettersOf(ds))
    decreases |ds|
  {
    if ds != [] {
      InsertKeys(codes[ds[0].letter := ds[0].code], ds[1..]);
      assert Elems(LettersOf(ds)) == {ds[0].letter} + Elems(LettersOf(ds[1..])) by {
        assert LettersOf(ds) == [ds[0].letter] + LettersOf(ds[1..]);
      }
    }
  }

  /** A letter no descriptor mentions keeps its old code. */
  lemma {:induction false} InsertOutside(codes: map<byte, seq<bool>>, ds: seq<Descriptor>, x: byte)
    requires x in codes && x !in LettersOf(ds)
    ensures x in Insert(codes, ds) && Insert(codes, ds)[x] == codes[x]
    decreases |ds|
  {
    if ds != [] {
      assert x != LettersOf(ds)[0];
      assert forall k :: 0 <= k < |ds| - 1 ==> LettersOf(ds[1..])[k] == LettersOf(ds)[k + 1];
      InsertOutside(codes[ds[0].letter := ds[0].code], ds[1..], x);
    }
  }

  /** With distinct letters every descriptor's code is the one the map ends with. */
  lemma {:induction false} InsertLookup(codes: map<byte, seq<bool>>, ds: seq<Descriptor>, i: nat)
    requires NoDup(LettersOf(ds)) && i < |ds|
    ensures ds[i].letter in Insert(codes, ds) && Insert(codes, ds)[ds[i].letter] == ds[i].code
    decreases |ds|
  {
    var rest := ds[1..];
    assert forall k :: 0 <= k < |rest| ==> LettersOf(rest)[k] == LettersOf(ds)[k + 1];
    if i == 0 {
      assert ds[0].letter !in LettersOf(rest);
      InsertOutside(codes[ds[0].letter := ds[0].code], rest, ds[0].letter);
    } else {
      InsertLookup(codes[ds[0].letter := ds[0].code], rest, i - 1);
    }
  }

  /** The code map of a tree: `update_codes(codes, root, [])` on an empty map. */
  function Codes(root: Node): map<byte, seq<bool>>
  {
    Insert(map[], LeafList(root, []))
  }

  /** One `update_codes` call inserts the leaves of `node`, left subtree first. */
  method UpdateCodes(codes: map<byte, seq<bool>>, node: Node, code: seq<bool>) returns (r: map<byte, seq<bool>>)
    ensures r == Insert(codes, LeafList(node, code))
    decreases node
  {
    match node {
      case Leaf(letter) =>
        r := codes[letter := code];
      case Inner(left, right) =>
        var m := UpdateCodes(codes, left, code + [false]);
        r := UpdateCodes(m, right, code + [true]);
        InsertAppend(codes, LeafList(left, code + [false]), LeafList(right, code + [true]));
    }
  }

  /** A code map: no letter's code is a prefix of another letter's. */
  ghost predicate PrefixFree(codes: map<byte, seq<bool>>)
  {
    forall a, b :: a in codes && b in codes && a != b ==> !(codes[a] <= codes[b])
  }

  /**
   * A tree whose letters are distinct has one code per letter, each code
   * being the leaf's path, and no code is a prefix of another.
   */
  lemma {:induction false} TreeCodes(root: Node)
    requires NoDup(Letters(root))
    ensures Codes(root).Keys == Elems(Letters(root))
    ensures forall i :: 0 <= i < |LeafList(root, [])| ==>
              Codes(root)[LeafList(root, [])[i].letter] == LeafList(root, [])[i].code
    ensures PrefixFree(Codes(root))
  {
    var ds := LeafList(root, []);
    assert LettersOf(ds) == Letters(root);
    InsertKeys(map[], ds);
    forall i | 0 <= i < |ds| ensures Codes(root)[ds[i].letter] == ds[i].code {
      InsertLookup(map[], ds, i);
    }
    TreePrefixFree(root);
  }

  lemma {:induction false} TreePrefixFree(root: Node)
    requires NoDup(Letters(root))
    ensures PrefixFree(Codes(root))
  {
    var ds := LeafList(root, []);
    var codes := Codes(root);
    assert LettersOf(ds) == Letters(root);
    InsertKeys(map[], ds);
    forall a, b | a in codes && b in codes && a != b ensures !(codes[a] <= codes[b]) {
      var i :| 0 <= i < |ds| && Letters(root)[i] == a;
      var j :| 0 <= j < |ds| && Letters(root)[j] == b;
      InsertLookup(map[], ds, i);
      InsertLookup(map[], ds, j);
      if i < j {
        LeafOrder(root, [], i, j);
        BeforeNotPrefix(ds[i].code, ds[j].code);
      } else {
        LeafOrder(root, [], j, i);
        BeforeNotPrefix(ds[j].code, ds[i].code);
      }
    }
  }

  // ---------------------------------------------------------------------
  // `build_codes`: the priority queue and the merge loop.
  // ---------------------------------------------------------------------

  /**
   * A queue entry: a subtree and the total frequency of its leaves. The
   * source gives it the priority `-weight`, so the queue pops the least
   * weight first.
   */
  datatype Entry = Entry(node: Node, weight: nat)

  /** The entry `pop` takes: least weight, and among equal weights the one inserted first. */
  function PopIndex(q: seq<Entry>): (i: nat)
    requires |q| > 0
    ensures i < |q|
    ensures forall j :: 0 <= j < |q| ==> q[i].weight <= q[j].weight
    ensures forall j :: 0 <= j < i ==> q[i].weight < q[j].weight
  {
    if |q| == 1 then 0
    else
      var m := PopIndex(q[..|q| - 1]);
      if q[|q| - 1].weight < q[m].weight then |q| - 1 else m
  }

  function Remove(q: seq<Entry>, i: nat): (r: seq<Entry>)
    requires i < |q|
    ensures |r| == |q| - 1
  {
    q[..i] + q[i + 1..]
  }

  /** One round of the loop: pop `left`, pop `right`, push their parent with the summed weight. */
  function Merge(q: seq<Entry>): (r: seq<Entry>)
    requires |q| >= 2
    ensures |r| == |q| - 1
  {
    var i := PopIndex(q);
    var rest := Remove(q, i);
    var j := PopIndex(rest);
    Remove(rest, j) + [Entry(Inner(q[i].node, rest[j].node), q[i].weight + rest[j].weight)]
  }

  /** The root the loop ends with. */
  function BuildTree(q: seq<Entry>): Node
    requires |q| >= 1
    decreases |q|
  {
    if |q| == 1 then q[0].node else BuildTree(Merge(q))
  }

  /** One leaf per letter, pushed in the order the map is walked. */
  function InitialQueue(freq: map<byte, nat>, letters: seq<byte>): (q: seq<Entry>)
    requires forall i :: 0 <= i < |letters| ==> letters[i] in freq
    ensures |q| == |letters|
  {
    if letters == [] then []
    else
      var x := letters[|letters| - 1];
      InitialQueue(freq, letters[..|letters| - 1]) + [Entry(Leaf(x), freq[x])]
  }

  /** The letters of all queued subtrees, in queue order. */
  function AllLetters(q: seq<Entry>): seq<byte>
  {
    if q == [] then [] else AllLetters(q[..|q| - 1]) + Letters(q[|q| - 1].node)
  }

  lemma {:induction false} AllLettersAppend(a: seq<Entry>, b: seq<Entry>)
    ensures AllLetters(a + b) == AllLetters(a) + AllLetters(b)
    decreases |b|
  {
    if b == [] {
      assert a + b == a;
    } else {
      var init := b[..|b| - 1];
      assert (a + b)[..|a + b| - 1] == a + init;
      AllLettersAppend(a, init);
    }
  }

  lemma {:induction false} RemoveLetters(q: seq<Entry>, i: nat)
    requires i < |q|
    ensures multiset(AllLetters(q)) == multiset(AllLetters(Remove(q, i))) + multiset(Letters(q[i].node))
  {
    var a, e, b := q[..i], q[i], q[i + 1..];
    SplitAt(q, i);
    AllLettersAppend(a + [e], b);
    assert (a + [e])[..|a|] == a;
    assert AllLetters(a + [e]) == AllLetters(a) + Letters(e.node);
    AllLettersAppend(a, b);
    assert Remove(q, i) == a + b;
  }

  lemma {:induction false} MergeShape(q: seq<Entry>)
    requires |q| >= 2
    ensures var i := PopIndex(q); var rest := Remove(q, i); var j := PopIndex(rest);
      Merge(q) == Remove(rest, j) + [Entry(Inner(q[i].node, rest[j].node), q[i].weight + rest[j].weight)]
  {
  }

  lemma {:induction false} MergeLetters(q: seq<Entry>)
    requires |q| >= 2
    ensures multiset(AllLetters(Merge(q))) == multiset(AllLetters(q))
  {
    var i := PopIndex(q);
    var rest := Remove(q, i);
    var j := PopIndex(rest);
    var parent := Entry(Inner(q[i].node, rest[j].node), q[i].weight + rest[j].weight);
    var kept := Remove(rest, j);
    MergeShape(q);
    var a, b, c := multiset(AllLetters(kept)), multiset(Letters(q[i].node)), multiset(Letters(rest[j].node));
    RemoveLetters(q, i);
    RemoveLetters(rest, j);
    assert multiset(AllLetters(q)) == a + c + b;
    AllLettersAppend(kept, [parent]);
    assert AllLetters([parent]) == Letters(parent.node) by {
      assert [parent][..0] == [];
    }
    assert multiset(Letters(parent.node)) == b + c;
    assert multiset(AllLetters(Merge(q))) == a + (b + c);
  }

  /** Merging neither loses nor duplicates a leaf. */
  lemma {:induction false} BuildTreeLetters(q: seq<Entry>)
    requires |q| >= 1
    ensures multiset(Letters(BuildTree(q))) == multiset(AllLetters(q))
    decreases |q|
  {
    if |q| == 1 {
      assert q[..0] == [];
    } else {
      MergeLetters(q);
      BuildTreeLetters(Merge(q));
    }
  }

  lemma {:induction false} InitialLetters(freq: map<byte, nat>, letters: seq<byte>)
    requires forall i :: 0 <= i < |letters| ==> letters[i] in freq
    ensures AllLetters(InitialQueue(freq, letters)) == letters
  {
    if letters != [] {
      var init := letters[..|letters| - 1];
      var q := InitialQueue(freq, letters);
      assert q[..|q| - 1] == InitialQueue(freq, init);
      InitialLetters(freq, init);
      assert letters == init + [letters[|letters| - 1]];
    }
  }

  /** Two positions holding the same value put it twice in the multiset. */
  lemma {:induction false} NoDupCount(t: seq<byte>, x: byte)
    requires NoDup(t)
    ensures multiset(t)[x] <= 1
    decreases |t|
  {
    if t != [] {
      var rest := t[1..];
      assert t == [t[0]] + rest;
      assert NoDup(rest) by {
        forall i, j | 0 <= i < j < |rest| ensures rest[i] != rest[j] {
          assert rest[i] == t[i + 1] && rest[j] == t[j + 1];
        }
      }
      NoDupCount(rest, x);
      if x == t[0] {
        assert x !in rest by {
          forall k | 0 <= k < |rest| ensures rest[k] != x {
            assert rest[k] == t[k + 1];
          }
        }
      }
    }
  }

  lemma {:induction false} MultisetNoDup(s: seq<byte>, t: seq<byte>)
    requires multiset(s) == multiset(t) && NoDup(t)
    ensures NoDup(s)
  {
    forall i, j | 0 <= i < j < |s| ensures s[i] != s[j] {
      if s[i] == s[j] {
        var x := s[i];
        assert s == s[..j] + [x] + s[j + 1..];
        assert x in s[..j] by {
          assert s[..j][i] == x;
        }
        assert multiset(s)[x] >= 2 by {
          assert multiset(s) == multiset(s[..j]) + multiset{x} + multiset(s[j + 1..]);
        }
        NoDupCount(t, x);
        assert false;
      }
    }
  }

  lemma {:induction false} ElemsOfMultiset(s: seq<byte>, t: seq<byte>)
    requires multiset(s) == multiset(t)
    ensures Elems(s) == Elems(t)
  {
    forall x ensures x in Elems(s) <==> x in Elems(t) {
      assert x in s <==> x in multiset(s);
      assert x in t <==> x in multiset(t);
    }
  }

  /** An order in which a `HashMap` may yield its keys: each key once. */
  ghost predicate KeyOrderOf(letters: seq<byte>, keys: set<byte>)
  {
    NoDup(letters) && Elems(letters) == keys
  }

  lemma {:induction false} NoDupSnoc(keys: seq<byte>, k: byte)
    requires NoDup(keys) && k !in Elems(keys)
    ensures NoDup(keys + [k]) && Elems(keys + [k]) == Elems(keys) + {k}
  {
    var s := keys + [k];
    forall i, j | 0 <= i < j < |s| ensures s[i] != s[j] {
      if j == |keys| {
        assert s[i] == keys[i];
      } else {
        assert s[i] == keys[i] && s[j] == keys[j];
      }
    }
    forall x ensures x in Elems(s) <==> x in Elems(keys) || x == k {
      if x in Elems(s) {
        var i :| 0 <= i < |s| && s[i] == x;
        if i < |keys| {
          assert keys[i] == x;
        }
      }
      if x in Elems(keys) {
        var i :| 0 <= i < |keys| && keys[i] == x;
        assert s[i] == x;
      }
      if x == k {
        assert s[|keys|] == k;
      }
    }
  }

  /** Iterating a map: every key exactly once, in an order the model leaves open. */
  method KeyOrder<V>(m: map<byte, V>) returns (keys: seq<byte>)
    ensures KeyOrderOf(keys, m.Keys)
  {
    keys := [];
    var rest := m.Keys;
    while rest != {}
      invariant NoDup(keys) && Elems(keys) + rest == m.Keys && Elems(keys) !! rest
      decreases |rest|
    {
      var k :| k in rest;
      NoDupSnoc(keys, k);
      keys := keys + [k];
      rest := rest - {k};
    }
  }

  /**
   * `build_codes`: an empty map gives no codes; otherwise the codes of the
   * tree that merging the leaves, pushed in map order, ends with.
   */
  method BuildCodes(freq: map<byte, nat>) returns (codes: map<byte, seq<bool>>, ghost letters: seq<byte>)
    ensures KeyOrderOf(letters, freq.Keys)
    ensures freq == map[] <==> letters == []
    ensures freq == map[] ==> codes == map[]
    ensures freq != map[] ==> codes == Codes(BuildTree(InitialQueue(freq, letters)))
  {
    var order := KeyOrder(freq);
    letters := order;
    if freq != map[] {
      var x :| x in freq;
      assert x in Elems(order);
    }
    var queue := PushLeaves(freq, order);
    codes := map[];
    if |queue| == 0 {
      return;
    }
    var root := MergeAll(queue);
    codes := UpdateCodes(codes, root, []);
  }

  /** The first loop of `build_codes`: one leaf per key, pushed in map order. */
  method PushLeaves(freq: map<byte, nat>, order: seq<byte>) returns (queue: seq<Entry>)
    requires forall i :: 0 <= i < |order| ==> order[i] in freq
    ensures queue == InitialQueue(freq, order)
  {
    queue := [];
    for k := 0 to |order|
      invariant queue == InitialQueue(freq, order[..k])
    {
      assert order[..k + 1][..k] == order[..k];
      queue := queue + [Entry(Leaf(order[k]), freq[order[k]])];
    }
    assert order[..|order|] == order;
  }

  /** The merging loop of `build_codes`: pop the two lightest, push their parent, until one is left. */
  method MergeAll(q: seq<Entry>) returns (root: Node)
    requires |q| >= 1
    ensures root == BuildTree(q)
  {
    var queue := q;
    while |queue| != 1
      invariant |queue| >= 1
      invariant BuildTree(queue) == BuildTree(q)
      decreases |queue|
    {
      var i := PopIndex(queue);
      var left := queue[i];
      queue := Remove(queue, i);
      var j := PopIndex(queue);
      var right := queue[j];
      queue := Remove(queue, j);
      queue := queue + [Entry(Inner(left.node, right.node), left.weight + right.weight)];
    }
    root := queue[0].node;
  }

  /** The tree built from a frequency map has each key at exactly one leaf. */
  lemma {:induction false} HuffmanLetters(freq: map<byte, nat>, letters: seq<byte>)
    requires KeyOrderOf(letters, freq.Keys) && letters != []
    ensures NoDup(Letters(BuildTree(InitialQueue(freq, letters))))
    ensures Elems(Letters(BuildTree(InitialQueue(freq, letters)))) == freq.Keys
  {
    var root := BuildTree(InitialQueue(freq, letters));
    BuildTreeLetters(InitialQueue(freq, letters));
    InitialLetters(freq, letters);
    MultisetNoDup(Letters(root), letters);
    ElemsOfMultiset(Letters(root), letters);
  }

  /**
   * `build_codes` gives every frequency key one code and no other letter a
   * code, and the codes are prefix-free.
   */
  lemma {:induction false} HuffmanCodes(freq: map<byte, nat>, letters: seq<byte>)
    requires KeyOrderOf(letters, freq.Keys) && letters != []
    ensures Codes(BuildTree(InitialQueue(freq, letters))).Keys == freq.Keys
    ensures PrefixFree(Codes(BuildTree(InitialQueue(freq, letters))))
  {
    HuffmanLetters(freq, letters);
    TreeCodes(BuildTree(InitialQueue(freq, letters)));
  }

  /** With a single distinct byte the loop never runs, and the byte gets the empty code. */
  lemma {:induction false} SingleLetter(freq: map<byte, nat>, letters: seq<byte>, x: byte)
    requires KeyOrderOf(letters, freq.Keys) && freq.Keys == {x}
    ensures Codes(BuildTree(InitialQueue(freq, letters))) == map[x := []]
  {
    NoDupCard(letters);
    assert |letters| == 1;
    assert letters[0] in Elems(letters);
    assert letters == [x];
    var q := InitialQueue(freq, letters);
    assert q == [Entry(Leaf(x), freq[x])] by {
      assert letters[..0] == [];
    }
    assert BuildTree(q) == Leaf(x);
    var ds := LeafList(Leaf(x), []);
    assert ds == [Descriptor([], x)];
    assert Insert(map[], ds) == Insert(map[x := []], ds[1..]);
    assert ds[1..] == [];
  }

  /** With two or more distinct bytes every code is non-empty. */
  lemma {:induction false} InnerCodesNonEmpty(left: Node, right: Node, i: nat)
    requires i < |LeafList(Inner(left, right), [])|
    ensures |LeafList(Inner(left, right), [])[i].code| >= 1
  {
    assert [] + [false] == [false] && [] + [true] == [true];
    var l, r := LeafList(left, [false]), LeafList(right, [true]);
    assert LeafList(Inner(left, right), []) == l + r;
    if i < |l| {
      LeafPrefix(left, [false], i);
      assert |l[i].code| >= 1;
    } else {
      LeafPrefix(right, [true], i - |l|);
      assert |r[i - |l|].code| >= 1;
    }
  }

  /** `count_frequency`: the keys are the bytes that occur, each mapped to its number of occurrences. */
  method CountFrequency(input: seq<byte>) returns (freq: map<byte, nat>)
    ensures freq.Keys == Elems(input)
    ensures forall b :: b in freq ==> freq[b] == multiset(input)[b]
  {
    freq := map[];
    for i := 0 to |input|
      invariant freq.Keys == Elems(input[..i])
      invariant forall b :: b in freq ==> freq[b] == multiset(input[..i])[b]
    {
      var x := input[i];
      SliceSnoc(input, i + 1);
      assert multiset(input[..i + 1]) == multiset(input[..i]) + multiset{x};
      assert Elems(input[..i + 1]) == Elems(input[..i]) + {x};
      var count := if x in freq then freq[x] else 0;
      freq := freq[x := count + 1];
    }
    assert input[..|input|] == input;
  }

  /** Test vector of `count_frequency`: "abbcccdddd" has a once, b twice, c three and d four times. */
  method CountFrequencyVector() returns (freq: map<byte, nat>)
    ensures freq == map[97 := 1, 98 := 2, 99 := 3, 100 := 4]
  {
    var input: seq<byte> := [97, 98, 98, 99, 99, 99, 100, 100, 100, 100];
    freq := CountFrequency(input);
    VectorCounts(input);
    SameMap(freq, map[97 := 1, 98 := 2, 99 := 3, 100 := 4]);
  }

  lemma {:induction false} VectorCounts(input: seq<byte>)
    requires input == [97, 98, 98, 99, 99, 99, 100, 100, 100, 100]
    ensures Elems(input) == {97, 98, 99, 100}
    ensures multiset(input)[97] == 1 && multiset(input)[98] == 2
    ensures multiset(input)[99] == 3 && multiset(input)[100] == 4
  {
    VectorElems(input);
    var m := multiset(input);
    assert m == multiset{97, 98, 98, 99, 99, 99, 100, 100, 100, 100};
  }

  lemma {:induction false} VectorElems(input: seq<byte>)
    requires input == [97, 98, 98, 99, 99, 99, 100, 100, 100, 100]
    ensures Elems(input) == {97, 98, 99, 100}
  {
    assert input[0] == 97 && input[1] == 98 && input[3] == 99 && input[6] == 100;
    forall x | x in input ensures x in {97, 98, 99, 100} {
      var i :| 0 <= i < |input| && input[i] == x;
    }
  }

  lemma SameMap(m: map<byte, nat>, n: map<byte, nat>)
    requires m.Keys == n.Keys && forall k :: k in m ==> m[k] == n[k]
    ensures m == n
  {
  }

  /** The frequencies of the `build_codes` test: a:1, b:2, c:3, d:4. */
  function VectorFrequencies(): map<byte, nat>
  {
    map[97 := 1, 98 := 2, 99 := 3, 100 := 4]
  }

  /**
   * Test vector of `build_codes`: {a:1, b:2, c:3, d:4} gives a=110, b=111,
   * c=10, d=0, whatever order the map yields its keys in. It does depend on
   * the tie rule of the queue: the tie between c and the merged a+b, both of
   * weight 3, goes to c, which is older; were it to go to a+b, the codes
   * would be a=100, b=101, c=11.
   */
  lemma {:induction false} BuildCodesVector(freq: map<byte, nat>, letters: seq<byte>)
    requires freq == VectorFrequencies() && KeyOrderOf(letters, freq.Keys) && letters != []
    ensures Codes(BuildTree(InitialQueue(freq, letters)))
         == map[97 := [true, true, false], 98 := [true, true, true], 99 := [true, false], 100 := [false]]
  {
    var q0 := InitialQueue(freq, letters);
    var ab := Inner(Leaf(97), Leaf(98));
    var cab := Inner(Leaf(99), ab);
    var root := Inner(Leaf(100), cab);
    var q1 := VectorMergeOne(freq, letters);
    VectorMergeTwo(q1);
    var q2 := Merge(q1);
    VectorMergeThree(q2);
    assert BuildTree(q0) == BuildTree(q1) == BuildTree(q2) == BuildTree(Merge(q2)) == root;
    VectorCodes(root);
  }

  /** Entry `k` of the initial queue is the leaf of the `k`-th letter walked. */
  lemma {:induction false} InitialAt(freq: map<byte, nat>, letters: seq<byte>, k: nat)
    requires forall i :: 0 <= i < |letters| ==> letters[i] in freq
    requires k < |letters|
    ensures InitialQueue(freq, letters)[k] == Entry(Leaf(letters[k]), freq[letters[k]])
    decreases |letters|
  {
    var init := letters[..|letters| - 1];
    if k < |init| {
      InitialAt(freq, init, k);
    }
  }

  /** Popping entry `i` of the initial queue leaves the queue of the other letters. */
  lemma {:induction false} InitialRemove(freq: map<byte, nat>, letters: seq<byte>, i: nat) returns (rest: seq<byte>)
    requires forall k :: 0 <= k < |letters| ==> letters[k] in freq
    requires i < |letters|
    ensures rest == letters[..i] + letters[i + 1..]
    ensures forall k :: 0 <= k < |rest| ==> rest[k] in freq
    ensures Remove(InitialQueue(freq, letters), i) == InitialQueue(freq, rest)
  {
    rest := letters[..i] + letters[i + 1..];
    var q := InitialQueue(freq, letters);
    forall k | 0 <= k < |rest|
      ensures rest[k] in freq && Remove(q, i)[k] == InitialQueue(freq, rest)[k]
    {
      InitialAt(freq, rest, k);
      if k < i {
        InitialAt(freq, letters, k);
      } else {
        InitialAt(freq, letters, k + 1);
      }
    }
  }

  /** Dropping position `i` of a sequence without repetitions drops exactly its element. */
  lemma {:induction false} RemoveAtKeys(letters: seq<byte>, i: nat)
    requires NoDup(letters) && i < |letters|
    ensures NoDup(letters[..i] + letters[i + 1..])
    ensures Elems(letters[..i] + letters[i + 1..]) == Elems(letters) - {letters[i]}
  {
    var rest := letters[..i] + letters[i + 1..];
    assert forall k :: 0 <= k < |rest| ==> rest[k] == letters[if k < i then k else k + 1];
    forall x | x in Elems(letters) - {letters[i]} ensures x in Elems(rest) {
      var k :| 0 <= k < |letters| && letters[k] == x;
      assert rest[if k < i then k else k - 1] == x;
    }
  }

  /**
   * In a queue of distinct test leaves, `pop` takes the leaf of the least
   * frequency, since the test frequencies are distinct, and leaves the
   * queue of the other letters.
   */
  lemma {:induction false} PopLeast(freq: map<byte, nat>, letters: seq<byte>, x: byte) returns (rest: seq<byte>)
    requires freq == VectorFrequencies() && NoDup(letters)
    requires forall k :: 0 <= k < |letters| ==> letters[k] in freq
    requires x in letters && forall y :: y in letters ==> freq[x] <= freq[y]
    ensures |InitialQueue(freq, letters)| > 0
    ensures InitialQueue(freq, letters)[PopIndex(InitialQueue(freq, letters))] == Entry(Leaf(x), freq[x])
    ensures NoDup(rest) && Elems(rest) == Elems(letters) - {x}
    ensures forall k :: 0 <= k < |rest| ==> rest[k] in freq
    ensures Remove(InitialQueue(freq, letters), PopIndex(InitialQueue(freq, letters))) == InitialQueue(freq, rest)
  {
    var q := InitialQueue(freq, letters);
    var i := PopIndex(q);
    var k :| 0 <= k < |letters| && letters[k] == x;
    InitialAt(freq, letters, i);
    InitialAt(freq, letters, k);
    assert freq[letters[i]] <= freq[x] <= freq[letters[i]] by {
      assert letters[i] in letters;
    }
    VectorInjective(letters[i], x);
    rest := InitialRemove(freq, letters, i);
    RemoveAtKeys(letters, i);
  }

  /** The test frequencies are distinct. */
  lemma {:induction false} VectorInjective(x: byte, y: byte)
    requires x in VectorFrequencies() && y in VectorFrequencies()
    requires VectorFrequencies()[x] == VectorFrequencies()[y]
    ensures x == y
  {
  }

  /** Two distinct test letters c and d, in either order. */
  lemma {:induction false} PairQueue(freq: map<byte, nat>, letters: seq<byte>)
    requires freq == VectorFrequencies() && NoDup(letters) && Elems(letters) == {99, 100}
    requires forall k :: 0 <= k < |letters| ==> letters[k] in freq
    ensures InitialQueue(freq, letters) == [Entry(Leaf(99), 3), Entry(Leaf(100), 4)]
         || InitialQueue(freq, letters) == [Entry(Leaf(100), 4), Entry(Leaf(99), 3)]
  {
    NoDupCard(letters);
    assert letters[0] in Elems(letters) && letters[1] in Elems(letters);
    InitialAt(freq, letters, 0);
    InitialAt(freq, letters, 1);
  }

  /** The first two pops take a and then b, whatever the key order, and leave c and d. */
  lemma {:induction false} VectorPops(freq: map<byte, nat>, letters: seq<byte>) returns (l2: seq<byte>)
    requires freq == VectorFrequencies() && KeyOrderOf(letters, freq.Keys)
    ensures forall k :: 0 <= k < |letters| ==> letters[k] in freq
    ensures |InitialQueue(freq, letters)| >= 2
    ensures InitialQueue(freq, letters)[PopIndex(InitialQueue(freq, letters))] == Entry(Leaf(97), 1)
    ensures var rest := Remove(InitialQueue(freq, letters), PopIndex(InitialQueue(freq, letters)));
      rest[PopIndex(rest)] == Entry(Leaf(98), 2)
    ensures NoDup(l2) && Elems(l2) == {99, 100} && forall k :: 0 <= k < |l2| ==> l2[k] in freq
    ensures var rest := Remove(InitialQueue(freq, letters), PopIndex(InitialQueue(freq, letters)));
      Remove(rest, PopIndex(rest)) == InitialQueue(freq, l2)
  {
    var l1 := VectorPopA(freq, letters);
    l2 := VectorPopB(freq, l1);
  }

  /** The first pop takes a. */
  lemma {:induction false} VectorPopA(freq: map<byte, nat>, letters: seq<byte>) returns (l1: seq<byte>)
    requires freq == VectorFrequencies() && KeyOrderOf(letters, freq.Keys)
    ensures forall k :: 0 <= k < |letters| ==> letters[k] in freq
    ensures |InitialQueue(freq, letters)| > 0
    ensures InitialQueue(freq, letters)[PopIndex(InitialQueue(freq, letters))] == Entry(Leaf(97), 1)
    ensures NoDup(l1) && Elems(l1) == {98, 99, 100} && forall k :: 0 <= k < |l1| ==> l1[k] in freq
    ensures Remove(InitialQueue(freq, letters), PopIndex(InitialQueue(freq, letters))) == InitialQueue(freq, l1)
  {
    assert forall k :: 0 <= k < |letters| ==> letters[k] in Elems(letters);
    assert 97 in Elems(letters);
    forall y | y in letters ensures freq[97] <= freq[y] {
      assert y in Elems(letters);
    }
    l1 := PopLeast(freq, letters, 97);
  }

  /** The second pop takes b. */
  lemma {:induction false} VectorPopB(freq: map<byte, nat>, l1: seq<byte>) returns (l2: seq<byte>)
    requires freq == VectorFrequencies()
    requires NoDup(l1) && Elems(l1) == {98, 99, 100} && forall k :: 0 <= k < |l1| ==> l1[k] in freq
    ensures |InitialQueue(freq, l1)| > 0
    ensures InitialQueue(freq, l1)[PopIndex(InitialQueue(freq, l1))] == Entry(Leaf(98), 2)
    ensures NoDup(l2) && Elems(l2) == {99, 100} && forall k :: 0 <= k < |l2| ==> l2[k] in freq
    ensures Remove(InitialQueue(freq, l1), PopIndex(InitialQueue(freq, l1))) == InitialQueue(freq, l2)
  {
    assert 98 in Elems(l1);
    forall y | y in l1 ensures freq[98] <= freq[y] {
      assert y in Elems(l1);
    }
    l2 := PopLeast(freq, l1, 98);
  }

  /**
   * The first round pops a and then b, whatever the key order, and leaves c
   * and d in the order they were pushed, with a+b behind them.
   */
  lemma {:induction false} VectorMergeOne(freq: map<byte, nat>, letters: seq<byte>) returns (q1: seq<Entry>)
    requires freq == VectorFrequencies() && KeyOrderOf(letters, freq.Keys)
    ensures |InitialQueue(freq, letters)| >= 2 && q1 == Merge(InitialQueue(freq, letters))
    ensures q1 == [Entry(Leaf(99), 3), Entry(Leaf(100), 4), Entry(Inner(Leaf(97), Leaf(98)), 3)]
         || q1 == [Entry(Leaf(100), 4), Entry(Leaf(99), 3), Entry(Inner(Leaf(97), Leaf(98)), 3)]
  {
    var l2 := VectorPops(freq, letters);
    PairQueue(freq, l2);
    var q0 := InitialQueue(freq, letters);
    MergeShape(q0);
    q1 := Merge(q0);
  }

  /** The second round pops c, older than a+b at the same weight, and then a+b. */
  lemma {:induction false} VectorMergeTwo(q: seq<Entry>)
    requires q == [Entry(Leaf(99), 3), Entry(Leaf(100), 4), Entry(Inner(Leaf(97), Leaf(98)), 3)]
          || q == [Entry(Leaf(100), 4), Entry(Leaf(99), 3), Entry(Inner(Leaf(97), Leaf(98)), 3)]
    ensures Merge(q) == [Entry(Leaf(100), 4), Entry(Inner(Leaf(99), Inner(Leaf(97), Leaf(98))), 6)]
  {
    MergeShape(q);
    if q[0].weight == 3 {
      assert PopIndex(q) == 0;
      var rest := Remove(q, 0);
      assert rest == q[1..];
      assert PopIndex(rest) == 1;
      assert Remove(rest, 1) == rest[..1];
    } else {
      assert PopIndex(q) == 1;
      var rest := Remove(q, 1);
      assert rest == [q[0], q[2]];
      assert PopIndex(rest) == 1;
      assert Remove(rest, 1) == rest[..1];
    }
  }

  lemma {:induction false} VectorMergeThree(q: seq<Entry>)
    requires q == [Entry(Leaf(100), 4), Entry(Inner(Leaf(99), Inner(Leaf(97), Leaf(98))), 6)]
    ensures Merge(q) == [Entry(Inner(Leaf(100), Inner(Leaf(99), Inner(Leaf(97), Leaf(98)))), 10)]
  {
    MergeShape(q);
    assert PopIndex(q) == 0;
    var rest := Remove(q, 0);
    assert rest == q[1..];
    assert PopIndex(rest) == 0;
    assert Remove(rest, 0) == [];
  }

  lemma {:induction false} VectorCodes(root: Node)
    requires root == Inner(Leaf(100), Inner(Leaf(99), Inner(Leaf(97), Leaf(98))))
    ensures Codes(root) == map[97 := [true, true, false], 98 := [true, true, true], 99 := [true, false], 100 := [false]]
  {
    VectorLeafList(root);
    VectorInsert(LeafList(root, []));
  }

  lemma {:induction false} VectorLeafList(root: Node)
    requires root == Inner(Leaf(100), Inner(Leaf(99), Inner(Leaf(97), Leaf(98))))
    ensures LeafList(root, []) == [Descriptor([false], 100), Descriptor([true, false], 99),
                                   Descriptor([true, true, false], 97), Descriptor([true, true, true], 98)]
  {
    var ab := Inner(Leaf(97), Leaf(98));
    assert [true, true] + [false] == [true, true, false] && [true, true] + [true] == [true, true, true];
    var l3 := LeafList(ab, [true, true]);
    assert l3 == [Descriptor([true, true, false], 97), Descriptor([true, true, true], 98)];
    assert [true] + [false] == [true, false] && [true] + [true] == [true, true];
    var l2 := LeafList(Inner(Leaf(99), ab), [true]);
    assert l2 == [Descriptor([true, false], 99)] + l3;
    assert [] + [false] == [false] && [] + [true] == [true];
    assert LeafList(root, []) == [Descriptor([false], 100)] + l2;
  }

  lemma {:induction false} VectorInsert(ds: seq<Descriptor>)
    requires ds == [Descriptor([false], 100), Descriptor([true, false], 99),
                    Descriptor([true, true, false], 97), Descriptor([true, true, true], 98)]
    ensures Insert(map[], ds) == map[97 := [true, true, false], 98 := [true, true, true], 99 := [true, false], 100 := [false]]
  {
    var m1 := map[100 := [false]];
    var m2 := m1[99 := [true, false]];
    var m3 := m2[97 := [true, true, false]];
    var m4 := m3[98 := [true, true, true]];
    assert Insert(map[], ds) == Insert(m1, ds[1..]);
    assert Insert(m1, ds[1..]) == Insert(m2, ds[2..]) by {
      assert ds[1..][1..] == ds[2..];
    }
    assert Insert(m2, ds[2..]) == Insert(m3, ds[3..]) by {
      assert ds[2..][1..] == ds[3..];
    }
    assert Insert(m3, ds[3..]) == Insert(m4, []) by {
      assert ds[3..][1..] == [];
    }
    SameSeqMap(m4, map[97 := [true, true, false], 98 := [true, true, true], 99 := [true, false], 100 := [false]]);
  }

  lemma SameSeqMap(m: map<byte, seq<bool>>, n: map<byte, seq<bool>>)
    requires m.Keys == n.Keys && forall k :: k in m ==> m[k] == n[k]
    ensures m == n
  {
  }
}
