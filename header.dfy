/**
 * The bit-packed header of `burrows-wheeler/src/huffman/header.rs`.
 *
 * `Header::encode` writes `initial` (32 bits) and `bit_size` (64 bits),
 * each as big-endian bytes with the most significant bit first, then the
 * code table: the codes sorted in left-to-right leaf order, each written
 * as the zeros that extend the running prefix, a one, and the letter
 * (most significant bit first). `Header::decode` rebuilds the codes: after
 * each entry it drops the trailing ones and the last zero of the running
 * prefix and appends a one, and it stops after the first code made of
 * ones only.
 */
module HuffmanHeader {
  import opened Common
  import opened Sorting
  import opened HuffmanTree
  import opened BitStream

  /** `Index`, the type of `initial`. */
  type u32 = x: nat | x < 0x1_0000_0000

  datatype Header = Header(descriptors: seq<Descriptor>, bitSize: nat, initial: nat)

  // ---------------------------------------------------------------------
  // The comparator of the table sort.
  // ---------------------------------------------------------------------

  /** `Iterator::cmp` on two bit sequences, `false < true`, a proper prefix first. */
  function LexCompare(a: seq<bool>, b: seq<bool>): Ordering
    decreases |a|
  {
    if a == [] && b == [] then Equal
    else if a == [] then Less
    else if b == [] then Greater
    else if a[0] == b[0] then LexCompare(a[1..], b[1..])
    else if !a[0] then Less
    else Greater
  }

  /**
   * The `sort_by` comparator: bitwise on the common prefix; when one code
   * extends the other, the longer one goes first if it continues with a
   * zero and after if it continues with a one.
   */
  function CompareCodes(a: seq<bool>, b: seq<bool>): Ordering
  {
    var m := if |a| < |b| then |a| else |b|;
    match LexCompare(a[..m], b[..m])
    case Equal =>
      if |a| == |b| then Equal
      else if (|a| > |b| && !a[m]) || (|a| < |b| && b[m]) then Less
      else Greater
    case other => other
  }

  /** The comparator on table entries, which looks at the codes only. */
  function EntryOrder(): (Descriptor, Descriptor) -> Ordering
  {
    (x: Descriptor, y: Descriptor) => CompareCodes(x.code, y.code)
  }

  lemma {:induction false} LexSame(c: seq<bool>)
    ensures LexCompare(c, c) == Equal
    decreases |c|
  {
    if c != [] {
      LexSame(c[1..]);
    }
  }

  lemma {:induction false} LexBefore(a: seq<bool>, b: seq<bool>, m: nat)
    requires Before(a, b) && m <= |a| && m <= |b|
    requires exists k :: 0 <= k < m && a[..k] == b[..k] && !a[k] && b[k]
    ensures LexCompare(a[..m], b[..m]) == Less && LexCompare(b[..m], a[..m]) == Greater
    decreases m
  {
    var k :| 0 <= k < m && a[..k] == b[..k] && !a[k] && b[k];
    if k == 0 {
      assert a[..m][0] == a[0] && b[..m][0] == b[0];
    } else {
      assert a[0] == a[..k][0] == b[..k][0] == b[0];
      assert a[..m][0] == a[0] && b[..m][0] == b[0];
      assert a[..m][1..] == a[1..][..m - 1] && b[..m][1..] == b[1..][..m - 1];
      assert a[1..][..k - 1] == a[..k][1..] == b[..k][1..] == b[1..][..k - 1];
      assert a[1..][k - 1] == a[k] && b[1..][k - 1] == b[k];
      assert Before(a[1..], b[1..]);
      LexBefore(a[1..], b[1..], m - 1);
    }
  }

  /** Where `a` is before `b`, the first difference, within both codes. */
  lemma {:induction false} BeforeWitness(a: seq<bool>, b: seq<bool>) returns (k: nat)
    requires Before(a, b)
    ensures k < |a| && k < |b| && a[..k] == b[..k] && !a[k] && b[k]
    decreases |a|
  {
    if a[0] == b[0] {
      var k' := BeforeWitness(a[1..], b[1..]);
      k := k' + 1;
      assert a[..k] == [a[0]] + a[1..][..k'];
      assert b[..k] == [b[0]] + b[1..][..k'];
    } else {
      k := 0;
    }
  }

  /**
   * On codes in walk order the comparator agrees with the walk: `a` sorts
   * before `b` and `b` after `a`. For prefix-free codes this is plain
   * lexicographic order with `false < true`.
   */
  lemma {:induction false} CompareBefore(a: seq<bool>, b: seq<bool>)
    requires Before(a, b)
    ensures CompareCodes(a, b) == Less && CompareCodes(b, a) == Greater
  {
    var k := BeforeWitness(a, b);
    var m := if |a| < |b| then |a| else |b|;
    LexBefore(a, b, m);
    var m' := if |b| < |a| then |b| else |a|;
    assert m' == m;
  }

  lemma {:induction false} CompareSame(c: seq<bool>)
    ensures CompareCodes(c, c) == Equal
  {
    assert c[..|c|] == c;
    LexSame(c);
  }

  /** The comparator is a strict total order on the leaves of a tree. */
  lemma {:induction false} LeafListStrictOrder(root: Node)
    ensures StrictOrder(EntryOrder(), Elems(LeafList(root, [])))
    ensures StrictlySorted(EntryOrder(), LeafList(root, []))
  {
    var ds := LeafList(root, []);
    var cmp := EntryOrder();
    forall i, j | 0 <= i < |ds| && 0 <= j < |ds|
      ensures cmp(ds[i], ds[j]) == (if i < j then Less else if i == j then Equal else Greater)
    {
      if i < j {
        LeafOrder(root, [], i, j);
        CompareBefore(ds[i].code, ds[j].code);
      } else if j < i {
        LeafOrder(root, [], j, i);
        CompareBefore(ds[j].code, ds[i].code);
      } else {
        CompareSame(ds[i].code);
      }
    }
  }

  // ---------------------------------------------------------------------
  // The sorted table does not depend on the HashMap order.
  // ---------------------------------------------------------------------

  /** `codes.iter().collect()` in the order `keys`. */
  function Table(codes: map<byte, seq<bool>>, keys: seq<byte>): (r: seq<Descriptor>)
    requires Elems(keys) <= codes.Keys
    ensures |r| == |keys|
    ensures forall i :: 0 <= i < |keys| ==> r[i] == Descriptor(codes[keys[i]], keys[i])
  {
    seq(|keys|, i requires 0 <= i < |keys| => Descriptor(codes[keys[i]], keys[i]))
  }

  /** Whatever the iteration order of the code map, sorting its entries gives the leaves of the tree, left to right. */
  lemma {:induction false} SortedTable(root: Node, keys: seq<byte>)
    requires NoDup(Letters(root))
    requires KeyOrderOf(keys, Codes(root).Keys)
    ensures Sort(EntryOrder(), Table(Codes(root), keys)) == LeafList(root, [])
  {
    var ds := LeafList(root, []);
    TreeCodes(root);
    var t := Table(Codes(root), keys);
    TableElems(root, keys);
    TableNoDup(Codes(root), keys);
    LeafListNoDup(root);
    LeafListStrictOrder(root);
    SortStrictlySorted(EntryOrder(), t);
    SameElemsMultiset(t, ds);
    StrictlySortedUnique(EntryOrder(), ds, Sort(EntryOrder(), t));
  }

  lemma {:induction false} TableElems(root: Node, keys: seq<byte>)
    requires NoDup(Letters(root))
    requires KeyOrderOf(keys, Codes(root).Keys)
    ensures Elems(Table(Codes(root), keys)) == Elems(LeafList(root, []))
  {
    var codes, ds := Codes(root), LeafList(root, []);
    TreeCodes(root);
    var t := Table(codes, keys);
    forall e | e in t ensures e in ds {
      var i :| 0 <= i < |t| && t[i] == e;
      assert keys[i] in Elems(keys);
      assert keys[i] in Elems(Letters(root));
      var j :| 0 <= j < |ds| && Letters(root)[j] == keys[i];
      assert ds[j] == e;
    }
    forall e | e in ds ensures e in t {
      var j :| 0 <= j < |ds| && ds[j] == e;
      assert Letters(root)[j] in Elems(Letters(root));
      assert e.letter in Elems(keys);
      var i :| 0 <= i < |keys| && keys[i] == e.letter;
      assert t[i] == e;
    }
  }

  lemma {:induction false} TableNoDup(codes: map<byte, seq<bool>>, keys: seq<byte>)
    requires NoDup(keys) && Elems(keys) <= codes.Keys
    ensures NoDup(Table(codes, keys))
  {
    var t := Table(codes, keys);
    forall i, j | 0 <= i < j < |t| ensures t[i] != t[j] {
      assert t[i].letter == keys[i] && t[j].letter == keys[j];
    }
  }

  lemma {:induction false} LeafListNoDup(root: Node)
    requires NoDup(Letters(root))
    ensures NoDup(LeafList(root, []))
  {
    var ds := LeafList(root, []);
    forall i, j | 0 <= i < j < |ds| ensures ds[i] != ds[j] {
      assert ds[i].letter == Letters(root)[i] && ds[j].letter == Letters(root)[j];
    }
  }

  lemma {:induction false} SameElemsMultiset<T>(s: seq<T>, t: seq<T>)
    requires NoDup(s) && NoDup(t) && Elems(s) == Elems(t)
    ensures multiset(s) == multiset(t)
  {
    forall x ensures multiset(s)[x] == multiset(t)[x] {
      NoDupCount(s, x);
      NoDupCount(t, x);
      assert x in s <==> x in Elems(s);
      assert x in t <==> x in Elems(t);
    }
  }

  lemma {:induction false} NoDupCount<T>(s: seq<T>, x: T)
    requires NoDup(s)
    ensures multiset(s)[x] == if x in s then 1 else 0
    decreases |s|
  {
    if s != [] {
      assert s == [s[0]] + s[1..];
      assert NoDup(s[1..]) by {
        forall i, j | 0 <= i < j < |s[1..]| ensures s[1..][i] != s[1..][j] {
          assert s[1..][i] == s[i + 1] && s[1..][j] == s[j + 1];
        }
      }
      NoDupCount(s[1..], x);
      if s[0] == x {
        assert x !in s[1..] by {
          forall i | 0 <= i < |s[1..]| ensures s[1..][i] != x {
            assert s[1..][i] == s[i + 1];
          }
        }
      }
    }
  }

  // ---------------------------------------------------------------------
  // The running prefix.
  // ---------------------------------------------------------------------

  /** The number of trailing ones: `code.iter().rev().position(|x| !x)`, or the whole length. */
  function TrailingOnes(c: seq<bool>): (t: nat)
    ensures t <= |c|
    ensures forall i :: |c| - t <= i < |c| ==> c[i]
    ensures t < |c| ==> !c[|c| - t - 1]
    decreases |c|
  {
    if c == [] || !c[|c| - 1] then 0 else TrailingOnes(c[..|c| - 1]) + 1
  }

  lemma {:induction false} AllTrueTrailing(c: seq<bool>)
    ensures AllTrue(c) <==> TrailingOnes(c) == |c|
  {
    if !AllTrue(c) {
      var i :| 0 <= i < |c| && !c[i];
    }
  }

  /** The running prefix with its trailing ones and the zero before them dropped (`skip_while(|x| *x).skip(1)`). */
  function Strip(c: seq<bool>): seq<bool>
  {
    var t := TrailingOnes(c);
    if t < |c| then c[..|c| - t - 1] else []
  }

  /** The prefix the next code starts with: the stripped prefix and a one. */
  function Advance(c: seq<bool>): seq<bool>
  {
    Strip(c) + [true]
  }

  /**
   * `current_len` after writing `code` as `header.rs` evaluates it:
   * `code.len() - x` for `x` trailing ones before a zero, and otherwise
   * `unwrap_or(code.len() - 1)`, whose argument is evaluated in any case
   * and underflows on the empty code.
   */
  function CurrentLenAsWritten(c: seq<bool>): (r: Result<nat>)
    ensures r.Err? <==> c == []
  {
    if |c| == 0 then Err("attempt to subtract with overflow")
    else if TrailingOnes(c) < |c| then Ok(|c| - TrailingOnes(c))
    else Ok(|c| - 1)
  }

  /** `current_len` with the subtraction saturating at zero. */
  function CurrentLen(c: seq<bool>): (r: nat)
    ensures CurrentLenAsWritten(c).Ok? ==> r == CurrentLenAsWritten(c).value
  {
    if TrailingOnes(c) < |c| then |c| - TrailingOnes(c)
    else if |c| == 0 then 0 else |c| - 1
  }

  /** Below a code with a zero, `current_len` is the length of the decoder's next running prefix. */
  lemma {:induction false} CurrentLenAdvance(c: seq<bool>)
    requires !AllTrue(c)
    ensures CurrentLen(c) == |Advance(c)|
  {
    AllTrueTrailing(c);
  }

  /** A zero followed by ones is stripped away. */
  lemma {:induction false} StripShape(q: seq<bool>, k: nat)
    ensures TrailingOnes(q + [false] + Ones(k)) == k
    ensures Strip(q + [false] + Ones(k)) == q
    ensures !AllTrue(q + [false] + Ones(k))
  {
    var c := q + [false] + Ones(k);
    TrailingOnesShape(q, k);
    assert c[..|c| - k - 1] == q;
    assert !c[|q|];
  }

  lemma {:induction false} TrailingOnesShape(q: seq<bool>, k: nat)
    ensures TrailingOnes(q + [false] + Ones(k)) == k
    decreases k
  {
    var c := q + [false] + Ones(k);
    if k == 0 {
      assert c[|c| - 1] == false;
    } else {
      assert c[|c| - 1];
      assert c[..|c| - 1] == q + [false] + Ones(k - 1);
      TrailingOnesShape(q, k - 1);
    }
  }

  // ---------------------------------------------------------------------
  // The table as bits.
  // ---------------------------------------------------------------------

  /** `code` extends `current` with zeros only. */
  ghost predicate Starts(current: seq<bool>, code: seq<bool>)
  {
    |current| <= |code| && code == current + Zeros(|code| - |current|)
  }

  /**
   * A table the decoder can rebuild from `current`: each code extends the
   * running prefix with zeros, every code but the last contains a zero,
   * and the last is made of ones only.
   */
  ghost predicate Chained(ds: seq<Descriptor>, current: seq<bool>)
    decreases |ds|
  {
    && |ds| >= 1
    && Starts(current, ds[0].code)
    && (if |ds| == 1 then AllTrue(ds[0].code)
        else !AllTrue(ds[0].code) && Chained(ds[1..], Advance(ds[0].code)))
  }

  /** One table entry: the zeros from `current_len` up to the code's length, a one, the letter. */
  function EntryBits(currentLen: nat, d: Descriptor): seq<bool>
  {
    Zeros(if |d.code| > currentLen then |d.code| - currentLen else 0) + [true] + ByteBitsMsb(d.letter)
  }

  /** The table loop of `Header::encode`, starting from `current_len`. */
  function TableBits(ds: seq<Descriptor>, currentLen: nat): (r: seq<bool>)
    decreases |ds|
  {
    if ds == [] then [] else EntryBits(currentLen, ds[0]) + TableBits(ds[1..], CurrentLen(ds[0].code))
  }

  /** The whole header: `initial`, `bit_size`, then the table. */
  function HeaderBits(initial: nat, bitSize: nat, ds: seq<Descriptor>): (r: seq<bool>)
  {
    ToBitsMsb(initial, 32) + ToBitsMsb(bitSize, 64) + TableBits(ds, 0)
  }

  // ---------------------------------------------------------------------
  // What `Header::decode` reads.
  // ---------------------------------------------------------------------

  /** `while !next()? { current.push(false) }`: the zeros before the next one, appended to `current`. */
  function ReadZeros(bits: seq<bool>, current: seq<bool>): (r: Option<(seq<bool>, seq<bool>)>)
    ensures r.Some? ==> |r.value.1| < |bits|
    ensures r.Some? ==> Starts(current, r.value.0)
    ensures r.Some? ==> bits == Zeros(|r.value.0| - |current|) + [true] + r.value.1
    decreases |bits|
  {
    if bits == [] then None
    else if bits[0] then
      assert bits == Zeros(0) + [true] + bits[1..];
      assert current == current + Zeros(0);
      Some((current, bits[1..]))
    else
      var r := ReadZeros(bits[1..], current + [false]);
      if r.Some? then
        assert Zeros(|r.value.0| - |current|) == [false] + Zeros(|r.value.0| - |current| - 1);
        assert current + [false] + Zeros(|r.value.0| - |current| - 1) == current + Zeros(|r.value.0| - |current|);
        r
      else r
  }

  /** One entry of the table loop: the zeros and the one that end the code, then the letter. */
  function ReadEntryAt(bits: seq<bool>, current: seq<bool>): (r: Option<(Descriptor, seq<bool>)>)
    ensures r.Some? ==> |r.value.1| < |bits|
  {
    match ReadZeros(bits, current)
    case None => None
    case Some((code, afterOne)) =>
      if |afterOne| < 8 then None
      else Some((Descriptor(code, ByteOfBitsMsb(afterOne[..8])), afterOne[8..]))
  }

  /**
   * The table loop of `Header::decode` from the running prefix `current`:
   * the descriptors and the bits after the table, or `None` when the bits
   * run out.
   */
  function ReadTable(bits: seq<bool>, current: seq<bool>): (r: Option<(seq<Descriptor>, seq<bool>)>)
    ensures r.Some? ==> |r.value.0| >= 1 && |r.value.1| < |bits|
    decreases |bits|
  {
    match ReadEntryAt(bits, current)
    case None => None
    case Some((d, after)) =>
      if AllTrue(d.code) then Some(([d], after))
      else Preceded([d], ReadTable(after, Advance(d.code)))
  }

  /** The descriptors `ds` read before a partial result. */
  function Preceded(ds: seq<Descriptor>, r: Option<(seq<Descriptor>, seq<bool>)>): (p: Option<(seq<Descriptor>, seq<bool>)>)
    ensures p.Some? <==> r.Some?
    ensures p.Some? ==> p.value == (ds + r.value.0, r.value.1)
  {
    match r
    case None => None
    case Some((more, rest)) => Some((ds + more, rest))
  }

  lemma {:induction false} PrecededEmpty(r: Option<(seq<Descriptor>, seq<bool>)>)
    ensures Preceded([], r) == r
  {
    if r.Some? {
      assert [] + r.value.0 == r.value.0;
    }
  }

  lemma {:induction false} PrecededPreceded(a: seq<Descriptor>, b: seq<Descriptor>, r: Option<(seq<Descriptor>, seq<bool>)>)
    ensures Preceded(a, Preceded(b, r)) == Preceded(a + b, r)
  {
    if r.Some? {
      AppendAssoc(a, b, r.value.0);
    }
  }

  /** `Header::decode` on a bit stream: the header and the bits after it. */
  function ReadHeader(bits: seq<bool>): (r: Option<(Header, seq<bool>)>)
    ensures r.Some? ==> |r.value.0.descriptors| >= 1
  {
    if |bits| < 96 then None
    else
      match ReadTable(bits[96..], [])
      case None => None
      case Some((ds, rest)) => Some((Header(ds, FromBitsMsb(bits[32..96]), FromBitsMsb(bits[..32])), rest))
  }

  // ---------------------------------------------------------------------
  // Round trip.
  // ---------------------------------------------------------------------

  lemma {:induction false} ReadZerosOf(n: nat, current: seq<bool>, rest: seq<bool>)
    ensures ReadZeros(Zeros(n) + [true] + rest, current) == Some((current + Zeros(n), rest))
    decreases n
  {
    var bits := Zeros(n) + [true] + rest;
    if n == 0 {
      assert bits == [true] + rest;
      assert current + Zeros(0) == current;
    } else {
      assert bits[0] == false;
      assert bits[1..] == Zeros(n - 1) + [true] + rest;
      ReadZerosOf(n - 1, current + [false], rest);
      assert current + [false] + Zeros(n - 1) == current + Zeros(n);
    }
  }

  /** One entry read back: its code, given the running prefix, its letter, and the bits after it. */
  lemma {:induction false} ReadEntryOf(d: Descriptor, current: seq<bool>, rest: seq<bool>)
    requires Starts(current, d.code)
    ensures ReadEntryAt(EntryBits(|current|, d) + rest, current) == Some((d, rest))
  {
    var n := |d.code| - |current|;
    var afterOne := ByteBitsMsb(d.letter) + rest;
    assert EntryBits(|current|, d) + rest == Zeros(n) + [true] + afterOne;
    ReadZerosOf(n, current, afterOne);
    assert afterOne[..8] == ByteBitsMsb(d.letter) && afterOne[8..] == rest;
    FromToBitsMsb(d.letter, 8);
    Pow2Eight();
  }

  /** Whatever entry is read starts with the running prefix, and its bits are exactly those the encoder writes for it. */
  lemma {:induction false} ReadEntryBits(bits: seq<bool>, current: seq<bool>)
    requires ReadEntryAt(bits, current).Some?
    ensures Starts(current, ReadEntryAt(bits, current).value.0.code)
    ensures bits == EntryBits(|current|, ReadEntryAt(bits, current).value.0) + ReadEntryAt(bits, current).value.1
  {
    var z := ReadZeros(bits, current).value;
    var code, afterOne := z.0, z.1;
    var d := Descriptor(code, ByteOfBitsMsb(afterOne[..8]));
    ToFromBitsMsb(afterOne[..8]);
    assert afterOne == afterOne[..8] + afterOne[8..];
    var n := |code| - |current|;
    assert bits == Zeros(n) + [true] + (ByteBitsMsb(d.letter) + afterOne[8..]);
    AppendAssoc(Zeros(n) + [true], ByteBitsMsb(d.letter), afterOne[8..]);
  }

  /** Reading the table written from a chained list of descriptors gives the list back, and the bits after it untouched. */
  lemma {:induction false} ReadTableBits(ds: seq<Descriptor>, current: seq<bool>, rest: seq<bool>)
    requires Chained(ds, current)
    ensures ReadTable(TableBits(ds, |current|) + rest, current) == Some((ds, rest))
    decreases |ds|
  {
    var d := ds[0];
    var tail := TableBits(ds[1..], CurrentLen(d.code)) + rest;
    AppendAssoc(EntryBits(|current|, d), TableBits(ds[1..], CurrentLen(d.code)), rest);
    ReadEntryOf(d, current, tail);
    if |ds| == 1 {
      assert ds[1..] == [];
      assert tail == rest;
      assert AllTrue(d.code);
      assert ds == [d];
    } else {
      assert !AllTrue(d.code);
      CurrentLenAdvance(d.code);
      ReadTableBits(ds[1..], Advance(d.code), rest);
      assert [d] + ds[1..] == ds;
    }
  }

  /** What the decoder reads is always a chained table, written back bit for bit. */
  lemma {:induction false} ReadTableChained(bits: seq<bool>, current: seq<bool>)
    requires ReadTable(bits, current).Some?
    ensures Chained(ReadTable(bits, current).value.0, current)
    ensures bits == TableBits(ReadTable(bits, current).value.0, |current|) + ReadTable(bits, current).value.1
    decreases |bits|
  {
    var e := ReadEntryAt(bits, current).value;
    var d, after := e.0, e.1;
    ReadEntryBits(bits, current);
    var ds := ReadTable(bits, current).value.0;
    if AllTrue(d.code) {
      assert ds == [d];
      assert TableBits(ds, |current|) == EntryBits(|current|, d) + TableBits([], CurrentLen(d.code));
    } else {
      ReadTableChained(after, Advance(d.code));
      var more := ReadTable(after, Advance(d.code)).value;
      assert ds == [d] + more.0 && ds[1..] == more.0;
      CurrentLenAdvance(d.code);
      assert TableBits(ds, |current|) == EntryBits(|current|, d) + TableBits(more.0, CurrentLen(d.code));
      AppendAssoc(EntryBits(|current|, d), TableBits(more.0, CurrentLen(d.code)), more.1);
    }
  }

  /** The header round trip: decoding the bits of a chained table gives the header back, and the bits after it. */
  lemma {:induction false} ReadHeaderBits(initial: u32, bitSize: nat, ds: seq<Descriptor>, rest: seq<bool>)
    requires bitSize <= USIZE_MAX && Chained(ds, [])
    ensures ReadHeader(HeaderBits(initial, bitSize, ds) + rest) == Some((Header(ds, bitSize, initial), rest))
  {
    var bits := HeaderBits(initial, bitSize, ds) + rest;
    var a, b := ToBitsMsb(initial, 32), ToBitsMsb(bitSize, 64);
    AppendAssoc(a + b, TableBits(ds, 0), rest);
    ThreeParts(a, b, TableBits(ds, 0) + rest);
    ReadTableBits(ds, [], rest);
    UintBits32(initial);
    UintBits64(bitSize);
  }

  lemma {:induction false} UintBits32(x: u32)
    ensures FromBitsMsb(ToBitsMsb(x, 32)) == x
  {
    Pow2ThirtyTwo();
    FromToBitsMsb(x, 32);
  }

  lemma {:induction false} UintBits64(x: nat)
    requires x <= USIZE_MAX
    ensures FromBitsMsb(ToBitsMsb(x, 64)) == x
  {
    Pow2SixtyFour();
    FromToBitsMsb(x, 64);
  }

  // ---------------------------------------------------------------------
  // The leaves of a Huffman tree form a chained table.
  // ---------------------------------------------------------------------

  /** `Chained` position by position. */
  lemma {:induction false} ChainedOfSteps(ds: seq<Descriptor>, current: seq<bool>)
    requires |ds| >= 1 && Starts(current, ds[0].code)
    requires forall i :: 0 <= i < |ds| - 1 ==> !AllTrue(ds[i].code) && Starts(Advance(ds[i].code), ds[i + 1].code)
    requires AllTrue(ds[|ds| - 1].code)
    ensures Chained(ds, current)
    decreases |ds|
  {
    if |ds| > 1 {
      var tail := ds[1..];
      forall i | 0 <= i < |tail| - 1
        ensures !AllTrue(tail[i].code) && Starts(Advance(tail[i].code), tail[i + 1].code)
      {
        assert tail[i] == ds[i + 1] && tail[i + 1] == ds[i + 2];
      }
      assert tail[|tail| - 1] == ds[|ds| - 1];
      ChainedOfSteps(tail, Advance(ds[0].code));
    }
  }

  /** The leftmost leaf extends the prefix with zeros. */
  lemma {:induction false} LeafFirst(node: Node, prefix: seq<bool>) returns (k: nat)
    ensures LeafList(node, prefix)[0].code == prefix + Zeros(k)
    decreases node
  {
    match node
    case Leaf(_) =>
      k := 0;
      assert prefix + Zeros(0) == prefix;
    case Inner(l, r) =>
      var k' := LeafFirst(l, prefix + [false]);
      k := k' + 1;
      assert LeafList(node, prefix)[0] == LeafList(l, prefix + [false])[0];
      assert prefix + [false] + Zeros(k') == prefix + Zeros(k);
  }

  /** The rightmost leaf extends the prefix with ones. */
  lemma {:induction false} LeafLast(node: Node, prefix: seq<bool>) returns (k: nat)
    ensures LeafList(node, prefix)[|LeafList(node, prefix)| - 1].code == prefix + Ones(k)
    decreases node
  {
    match node
    case Leaf(_) =>
      k := 0;
      assert prefix + Ones(0) == prefix;
    case Inner(l, r) =>
      var k' := LeafLast(r, prefix + [true]);
      k := k' + 1;
      var right := LeafList(r, prefix + [true]);
      assert LeafList(node, prefix)[|LeafList(node, prefix)| - 1] == right[|right| - 1];
      assert prefix + [true] + Ones(k') == prefix + Ones(k);
  }

  /** A zero after position `n` is a zero after position `n - 1` too. */
  lemma {:induction false} NotAllTrueFrom(c: seq<bool>, n: nat)
    requires n < |c| && !AllTrue(c[n + 1..])
    ensures !AllTrue(c[n..])
  {
    var j :| 0 <= j < |c[n + 1..]| && !c[n + 1..][j];
    assert c[n..][j + 1] == c[n + 1..][j];
  }

  /**
   * Next to each other in a table, the decoder's running prefix after the
   * code at `i` is where the code at `i + 1` branches off, and the code at
   * `i` has a zero after its first `n` bits.
   */
  ghost predicate StepAt(ds: seq<Descriptor>, i: nat, n: nat)
    requires i + 1 < |ds|
  {
    Starts(Advance(ds[i].code), ds[i + 1].code) && n <= |ds[i].code| && !AllTrue(ds[i].code[n..])
  }

  /** A step inside the left part of a table is a step of the whole, one bit shallower. */
  lemma {:induction false} StepAtLeft(left: seq<Descriptor>, right: seq<Descriptor>, i: nat, n: nat)
    requires i + 1 < |left| && StepAt(left, i, n + 1)
    ensures StepAt(left + right, i, n)
  {
    var ds := left + right;
    assert ds[i] == left[i] && ds[i + 1] == left[i + 1];
    NotAllTrueFrom(ds[i].code, n);
  }

  /** A step inside the right part of a table is a step of the whole, one bit shallower. */
  lemma {:induction false} StepAtRight(left: seq<Descriptor>, right: seq<Descriptor>, i: nat, n: nat)
    requires |left| <= i && i + 1 < |left| + |right| && StepAt(right, i - |left|, n + 1)
    ensures StepAt(left + right, i, n)
  {
    var ds := left + right;
    assert ds[i] == right[i - |left|] && ds[i + 1] == right[i - |left| + 1];
    NotAllTrueFrom(ds[i].code, n);
  }

  /** The step from the left subtree's last code to the right subtree's first. */
  lemma {:induction false} StepAtJoin(left: seq<Descriptor>, right: seq<Descriptor>, prefix: seq<bool>, a: nat, b: nat)
    requires left != [] && right != []
    requires left[|left| - 1].code == prefix + [false] + Ones(a)
    requires right[0].code == prefix + [true] + Zeros(b)
    ensures StepAt(left + right, |left| - 1, |prefix|)
  {
    var ds := left + right;
    assert ds[|left| - 1] == left[|left| - 1] && ds[|left|] == right[0];
    JoinStep(prefix, a, b);
  }

  /** Where the left subtree's last code meets the right subtree's first. */
  lemma {:induction false} JoinStep(prefix: seq<bool>, a: nat, b: nat)
    ensures Starts(Advance(prefix + [false] + Ones(a)), prefix + [true] + Zeros(b))
    ensures |prefix| <= |prefix + [false] + Ones(a)|
    ensures !AllTrue((prefix + [false] + Ones(a))[|prefix|..])
  {
    var c := prefix + [false] + Ones(a);
    StripShape(prefix, a);
    assert Advance(c) == prefix + [true];
    assert c[|prefix|..][0] == false;
  }

  /** Every pair of neighbouring leaves of a tree is a step from its prefix. */
  lemma {:induction false} LeafStep(node: Node, prefix: seq<bool>, i: nat)
    requires i + 1 < |LeafList(node, prefix)|
    ensures StepAt(LeafList(node, prefix), i, |prefix|)
    decreases node
  {
    match node
    case Leaf(_) =>
    case Inner(l, r) =>
      var pl, pr := prefix + [false], prefix + [true];
      var left, right := LeafList(l, pl), LeafList(r, pr);
      assert LeafList(node, prefix) == left + right;
      if i + 1 < |left| {
        LeafStep(l, pl, i);
        StepAtLeft(left, right, i, |prefix|);
      } else if i >= |left| {
        LeafStep(r, pr, i - |left|);
        StepAtRight(left, right, i, |prefix|);
      } else {
        var a := LeafLast(l, pl);
        var b := LeafFirst(r, pr);
        StepAtJoin(left, right, prefix, a, b);
      }
  }

  /** The table of a tree is chained from the empty prefix. */
  lemma {:induction false} TreeChained(root: Node)
    ensures Chained(LeafList(root, []), [])
  {
    var ds := LeafList(root, []);
    var k := LeafFirst(root, []);
    assert [] + Zeros(k) == Zeros(k);
    var m := LeafLast(root, []);
    assert [] + Ones(m) == Ones(m);
    forall i | 0 <= i < |ds| - 1
      ensures !AllTrue(ds[i].code) && Starts(Advance(ds[i].code), ds[i + 1].code)
    {
      LeafStep(root, [], i);
      assert ds[i].code[0..] == ds[i].code;
    }
    ChainedOfSteps(ds, []);
  }

  // ---------------------------------------------------------------------
  // `bit_size`: the length of the payload.
  // ---------------------------------------------------------------------

  /** The sum of code length times frequency over `keys`. */
  function Weight(keys: seq<byte>, freq: map<byte, nat>, codes: map<byte, seq<bool>>): nat
    requires Elems(keys) <= freq.Keys && Elems(keys) <= codes.Keys
    decreases |keys|
  {
    if keys == [] then 0
    else
      var k := keys[|keys| - 1];
      assert Elems(keys[..|keys| - 1]) <= Elems(keys);
      Weight(keys[..|keys| - 1], freq, codes) + |codes[k]| * freq[k]
  }

  lemma {:induction false} WeightAppend(a: seq<byte>, b: seq<byte>, freq: map<byte, nat>, codes: map<byte, seq<bool>>)
    requires Elems(a + b) <= freq.Keys && Elems(a + b) <= codes.Keys
    ensures Elems(a) <= freq.Keys && Elems(a) <= codes.Keys && Elems(b) <= freq.Keys && Elems(b) <= codes.Keys
    ensures Weight(a + b, freq, codes) == Weight(a, freq, codes) + Weight(b, freq, codes)
    decreases |b|
  {
    assert Elems(a) <= Elems(a + b) && Elems(b) <= Elems(a + b);
    if b != [] {
      var b' := b[..|b| - 1];
      assert (a + b)[..|a + b| - 1] == a + b';
      assert Elems(a + b') <= Elems(a + b);
      WeightAppend(a, b', freq, codes);
    } else {
      assert a + b == a;
    }
  }

  /** Every prefix of the keys weighs at most as much as all of them. */
  lemma {:induction false} WeightPrefix(keys: seq<byte>, n: nat, freq: map<byte, nat>, codes: map<byte, seq<bool>>)
    requires n <= |keys| && Elems(keys) <= freq.Keys && Elems(keys) <= codes.Keys
    ensures Elems(keys[..n]) <= Elems(keys)
    ensures Weight(keys[..n], freq, codes) <= Weight(keys, freq, codes)
  {
    assert keys == keys[..n] + keys[n..];
    WeightAppend(keys[..n], keys[n..], freq, codes);
  }

  /** The weight does not depend on the order of the keys: a `HashMap` may yield them in any order. */
  lemma {:induction false} WeightPermutation(ks: seq<byte>, ts: seq<byte>, freq: map<byte, nat>, codes: map<byte, seq<bool>>)
    requires NoDup(ks) && NoDup(ts) && Elems(ks) == Elems(ts)
    requires Elems(ks) <= freq.Keys && Elems(ks) <= codes.Keys
    ensures Weight(ks, freq, codes) == Weight(ts, freq, codes)
    decreases |ks|
  {
    NoDupCard(ks);
    NoDupCard(ts);
    if ks != [] {
      var n := |ks| - 1;
      var x := ks[n];
      assert x in Elems(ts);
      var j :| 0 <= j < |ts| && ts[j] == x;
      WeightRemoveAt(ts, j, freq, codes);
      RemoveAtElems(ts, j);
      RemoveLastElems(ks);
      WeightPermutation(ks[..n], ts[..j] + ts[j + 1..], freq, codes);
    }
  }

  /** Taking one key out of the list takes its share out of the weight. */
  lemma {:induction false} WeightRemoveAt(ts: seq<byte>, j: nat, freq: map<byte, nat>, codes: map<byte, seq<bool>>)
    requires j < |ts| && Elems(ts) <= freq.Keys && Elems(ts) <= codes.Keys
    ensures Elems(ts[..j] + ts[j + 1..]) <= Elems(ts) && ts[j] in freq && ts[j] in codes
    ensures Weight(ts, freq, codes) == Weight(ts[..j] + ts[j + 1..], freq, codes) + |codes[ts[j]]| * freq[ts[j]]
  {
    var x := ts[j];
    assert ts == ts[..j] + [x] + ts[j + 1..];
    WeightAppend(ts[..j] + [x], ts[j + 1..], freq, codes);
    WeightAppend(ts[..j], [x], freq, codes);
    WeightAppend(ts[..j], ts[j + 1..], freq, codes);
    assert Weight([x], freq, codes) == |codes[x]| * freq[x] by {
      assert [x][..0] == [];
    }
  }

  lemma {:induction false} RemoveAtElems<T>(s: seq<T>, j: nat)
    requires NoDup(s) && j < |s|
    ensures NoDup(s[..j] + s[j + 1..])
    ensures Elems(s[..j] + s[j + 1..]) == Elems(s) - {s[j]}
  {
    var t := s[..j] + s[j + 1..];
    forall a, b | 0 <= a < b < |t| ensures t[a] != t[b] {
      var a' := if a < j then a else a + 1;
      var b' := if b < j then b else b + 1;
      assert t[a] == s[a'] && t[b] == s[b'];
    }
    forall y | y in Elems(t) ensures y in Elems(s) && y != s[j] {
      var i :| 0 <= i < |t| && t[i] == y;
      var i' := if i < j then i else i + 1;
      assert t[i] == s[i'];
    }
    forall y | y in Elems(s) && y != s[j] ensures y in Elems(t) {
      var i :| 0 <= i < |s| && s[i] == y;
      if i < j {
        assert t[i] == y;
      } else {
        assert t[i - 1] == y;
      }
    }
  }

  lemma {:induction false} RemoveLastElems<T>(s: seq<T>)
    requires NoDup(s) && s != []
    ensures NoDup(s[..|s| - 1])
    ensures Elems(s[..|s| - 1]) == Elems(s) - {s[|s| - 1]}
  {
    RemoveAtElems(s, |s| - 1);
    assert s[..|s| - 1] + s[|s|..] == s[..|s| - 1];
  }

  /** The payload fits: every key has a code and the weight fits in a `usize`. */
  ghost predicate Fits(keys: seq<byte>, freq: map<byte, nat>, codes: map<byte, seq<bool>>)
    requires Elems(keys) <= freq.Keys
  {
    Elems(keys) <= codes.Keys && Weight(keys, freq, codes) <= USIZE_MAX
  }

  /**
   * The `bit_size` loop over a frequency map: `codes[&k]` panics on a key
   * without a code, and `*` and `+=` panic on overflow in a debug build.
   */
  method BitSize(freq: map<byte, nat>, codes: map<byte, seq<bool>>) returns (r: Result<nat>, ghost keys: seq<byte>)
    ensures KeyOrderOf(keys, freq.Keys)
    ensures r.Ok? <==> Fits(keys, freq, codes)
    ensures r.Ok? ==> r.value == Weight(keys, freq, codes)
  {
    var order := KeyOrder(freq);
    keys := order;
    var sum := 0;
    for n := 0 to |order|
      invariant Elems(order[..n]) <= codes.Keys && Elems(order[..n]) <= freq.Keys
      invariant sum == Weight(order[..n], freq, codes) <= USIZE_MAX
    {
      var k := order[n];
      assert k in Elems(order);
      if k !in codes {
        r := Err("key not present in codes");
        return;
      }
      var product := |codes[k]| * freq[k];
      SnocElems(order, n);
      if product > USIZE_MAX {
        r := Err("attempt to multiply with overflow");
        if Elems(order) <= codes.Keys {
          WeightPrefix(order, n + 1, freq, codes);
        }
        return;
      }
      if sum + product > USIZE_MAX {
        r := Err("attempt to add with overflow");
        if Elems(order) <= codes.Keys {
          WeightPrefix(order, n + 1, freq, codes);
        }
        return;
      }
      sum := sum + product;
    }
    assert order[..|order|] == order;
    r := Ok(sum);
  }

  lemma {:induction false} SnocElems<T>(s: seq<T>, n: nat)
    requires n < |s|
    ensures s[..n + 1][..n] == s[..n] && s[..n + 1][n] == s[n]
    ensures Elems(s[..n + 1]) == Elems(s[..n]) + {s[n]}
  {
    assert s[..n + 1] == s[..n] + [s[n]];
  }

  // ---------------------------------------------------------------------
  // `Header::encode`.
  // ---------------------------------------------------------------------

  /** `add_byte`: the eight bits of `b`, most significant first. */
  method AddByte(bits: seq<bool>, b: byte) returns (r: seq<bool>)
    ensures r == bits + ByteBitsMsb(b)
  {
    r := bits;
    for j := 0 to 8
      invariant r == bits + ByteBitsMsb(b)[..j]
    {
      var i := 7 - j;
      ToBitsMsbAt(b, 8, i);
      SliceSnoc(ByteBitsMsb(b), j + 1);
      r := r + [BitAt(b, i)];
    }
    assert ByteBitsMsb(b)[..8] == ByteBitsMsb(b);
  }

  /** `add_bytes`: the bytes one after the other. */
  method AddBytes(bits: seq<bool>, bytes: seq<byte>) returns (r: seq<bool>)
    ensures r == bits + BytesBitsMsb(bytes)
  {
    r := bits;
    for n := 0 to |bytes|
      invariant r == bits + BytesBitsMsb(bytes[..n])
    {
      r := AddByte(r, bytes[n]);
      assert bytes[..n + 1] == bytes[..n] + [bytes[n]];
      BytesBitsMsbAppend(bytes[..n], [bytes[n]]);
      assert BytesBitsMsb([bytes[n]]) == ByteBitsMsb(bytes[n]) + BytesBitsMsb([]);
    }
    assert bytes[..|bytes|] == bytes;
  }

  /** Every code in the map is non-empty: `current_len` is computed without underflow. */
  ghost predicate NonEmptyCodes(codes: map<byte, seq<bool>>)
  {
    forall k :: k in codes ==> codes[k] != []
  }

  /** No descriptor has the empty code. */
  ghost predicate NonEmptyTable(ds: seq<Descriptor>)
  {
    forall i :: 0 <= i < |ds| ==> ds[i].code != []
  }

  /** An entry of a table sorted from `codes` has an empty code exactly when some key does. */
  lemma {:induction false} SortedTableCodes(codes: map<byte, seq<bool>>, keys: seq<byte>)
    requires KeyOrderOf(keys, codes.Keys)
    ensures NonEmptyCodes(codes) <==> NonEmptyTable(Sort(EntryOrder(), Table(codes, keys)))
  {
    var t := Table(codes, keys);
    var tree := Sort(EntryOrder(), t);
    assert forall d :: d in tree <==> d in t by {
      forall d ensures d in tree <==> d in t {
        assert d in tree <==> d in multiset(tree);
        assert d in t <==> d in multiset(t);
      }
    }
    if !NonEmptyCodes(codes) {
      var k :| k in codes && codes[k] == [];
      assert k in Elems(keys);
      var i :| 0 <= i < |keys| && keys[i] == k;
      assert t[i] in tree;
    }
    if exists i :: 0 <= i < |tree| && tree[i].code == [] {
      var i :| 0 <= i < |tree| && tree[i].code == [];
      assert tree[i] in t;
      var j :| 0 <= j < |t| && t[j] == tree[i];
      assert keys[j] in Elems(keys);
    }
  }

  /** `for _ in current_len..code.len() { push(false) }`: nothing when the code is not longer. */
  method AddZeros(bits: seq<bool>, currentLen: nat, len: nat) returns (r: seq<bool>)
    ensures r == bits + Zeros(if len > currentLen then len - currentLen else 0)
  {
    r := bits;
    var z := currentLen;
    while z < len
      invariant currentLen <= z && (z <= len || z == currentLen)
      invariant r == bits + Zeros(z - currentLen)
    {
      r := r + [false];
      z := z + 1;
    }
  }

  /** One table entry: the zeros that extend the running prefix, a one, the letter. */
  method AddEntry(bits: seq<bool>, currentLen: nat, d: Descriptor) returns (r: seq<bool>)
    ensures r == bits + EntryBits(currentLen, d)
  {
    var z := Zeros(if |d.code| > currentLen then |d.code| - currentLen else 0);
    r := AddZeros(bits, currentLen, |d.code|);
    r := r + [true];
    r := AddByte(r, d.letter);
    AppendAssoc(bits, z, [true]);
    AppendAssoc(bits, z + [true], ByteBitsMsb(d.letter));
  }

  /** The table loop of `Header::encode` over the sorted descriptors. */
  method AddTable(bits: seq<bool>, tree: seq<Descriptor>) returns (r: Result<seq<bool>>)
    ensures r.Ok? <==> NonEmptyTable(tree)
    ensures r.Ok? ==> r.value == bits + TableBits(tree, 0)
  {
    var result := bits;
    var currentLen := 0;
    for n := 0 to |tree|
      invariant result + TableBits(tree[n..], currentLen) == bits + TableBits(tree, 0)
      invariant forall i :: 0 <= i < n ==> tree[i].code != []
    {
      ghost var before := result;
      result := AddEntry(result, currentLen, tree[n]);
      TableBitsAt(tree, n, currentLen);
      AppendAssoc(before, EntryBits(currentLen, tree[n]), TableBits(tree[n + 1..], CurrentLen(tree[n].code)));
      match CurrentLenAsWritten(tree[n].code)
      case Err(msg) =>
        assert tree[n].code == [];
        r := Err(msg);
        return;
      case Ok(len) =>
        assert tree[n].code != [];
        currentLen := len;
    }
    r := Ok(result);
    assert tree[|tree|..] == [];
  }

  lemma {:induction false} TableBitsAt(tree: seq<Descriptor>, n: nat, currentLen: nat)
    requires n < |tree|
    ensures TableBits(tree[n..], currentLen) == EntryBits(currentLen, tree[n]) + TableBits(tree[n + 1..], CurrentLen(tree[n].code))
  {
    assert tree[n..][0] == tree[n];
    assert tree[n..][1..] == tree[n + 1..];
  }

  lemma {:induction false} UintsBits(initial: nat, size: nat, result: seq<bool>)
    requires result == [] + BytesBitsMsb(ToBeBytes(initial, 4)) + BytesBitsMsb(ToBeBytes(size, 8))
    ensures result == ToBitsMsb(initial, 32) + ToBitsMsb(size, 64)
  {
    BeBytesBits(initial, 4);
    BeBytesBits(size, 8);
    AppendEmpty(BytesBitsMsb(ToBeBytes(initial, 4)));
  }

  /** The code map collected in its iteration order, sorted, and written as the table. */
  method EncodeTable(bits: seq<bool>, codes: map<byte, seq<bool>>) returns (r: Result<seq<bool>>, ghost codeKeys: seq<byte>)
    ensures KeyOrderOf(codeKeys, codes.Keys)
    ensures r.Ok? <==> NonEmptyCodes(codes)
    ensures r.Ok? ==> r.value == bits + TableBits(Sort(EntryOrder(), Table(codes, codeKeys)), 0)
  {
    var order := KeyOrder(codes);
    codeKeys := order;
    var tree := Sort(EntryOrder(), Table(codes, order));
    SortedTableCodes(codes, order);
    r := AddTable(bits, tree);
  }

  /**
   * `Header::encode`: `initial`, `bit_size` over the frequency map in its
   * iteration order, then the table of the code map sorted by the
   * comparator. It fails where the source panics: a key without a code,
   * an overflowing `bit_size`, or an empty code in the table.
   */
  method Encode(freq: map<byte, nat>, codes: map<byte, seq<bool>>, initial: u32)
    returns (r: Result<seq<bool>>, ghost freqKeys: seq<byte>, ghost codeKeys: seq<byte>)
    ensures KeyOrderOf(freqKeys, freq.Keys) && KeyOrderOf(codeKeys, codes.Keys)
    ensures r.Ok? <==> Fits(freqKeys, freq, codes) && NonEmptyCodes(codes)
    ensures r.Ok? ==> r.value == HeaderBits(initial, Weight(freqKeys, freq, codes), Sort(EntryOrder(), Table(codes, codeKeys)))
  {
    var result := AddBytes([], ToBeBytes(initial, 4));
    var size;
    size, freqKeys := BitSize(freq, codes);
    if size.Err? {
      var order := KeyOrder(codes);
      codeKeys := order;
      r := Err(size.msg);
      return;
    }
    result := AddBytes(result, ToBeBytes(size.value, 8));
    UintsBits(initial, size.value, result);
    r, codeKeys := EncodeTable(result, codes);
  }

  // ---------------------------------------------------------------------
  // `Header::decode` on a `BitIterator`.
  // ---------------------------------------------------------------------

  /**
   * The iterator has moved forward: what it will yield and what it would
   * yield without a budget have both lost the same first bits.
   */
  ghost predicate Moved(v0: seq<bool>, r0: seq<bool>, v: seq<bool>, r: seq<bool>)
  {
    && |r| <= |r0| && r == r0[|r0| - |r|..]
    && |r0| - |r| <= |v0| && v == v0[|r0| - |r|..]
  }

  lemma {:induction false} MovedTrans(v0: seq<bool>, r0: seq<bool>, v1: seq<bool>, r1: seq<bool>, v2: seq<bool>, r2: seq<bool>)
    requires Moved(v0, r0, v1, r1) && Moved(v1, r1, v2, r2)
    ensures Moved(v0, r0, v2, r2)
  {
    var a, b := |r0| - |r1|, |r1| - |r2|;
    assert r0[a..][b..] == r0[a + b..];
    assert v0[a..][b..] == v0[a + b..];
  }

  lemma MovedAt(v0: seq<bool>, r0: seq<bool>, j: nat, v: seq<bool>, r: seq<bool>)
    requires j <= |r0| && j <= |v0| && r == r0[j..] && v == v0[j..]
    ensures Moved(v0, r0, v, r)
  {
  }

  /** `BitIterator::next` yielded a bit: both views moved by one. */
  lemma NextAt(v0: seq<bool>, r0: seq<bool>, j: nat, v1: seq<bool>, r1: seq<bool>, v: seq<bool>, r: seq<bool>)
    requires j <= |r0| && j <= |v0| && r1 == r0[j..] && v1 == v0[j..]
    requires r1 != [] && v1 != [] && r == r1[1..] && v == v1[1..]
    ensures j + 1 <= |r0| && j + 1 <= |v0| && r == r0[j + 1..] && v == v0[j + 1..] && r1[0] == r0[j]
  {
  }

  /** One more bit, most significant first. */
  lemma {:induction false} MsbStep(s: seq<bool>, j: nat, k: nat)
    requires j < |s|
    ensures FromBitsMsb(s[..j + 1]) * Pow2(k) == FromBitsMsb(s[..j]) * Pow2(k + 1) + (if s[j] then Pow2(k) else 0)
  {
    SliceSnoc(s, j + 1);
    assert FromBitsMsb(s[..j + 1]) == 2 * FromBitsMsb(s[..j]) + (if s[j] then 1 else 0);
    ShiftAdd(FromBitsMsb(s[..j]), if s[j] then 1 else 0, Pow2(k));
  }

  /** `value` after `j` rounds of `value |= (bit as T) << i`, for `i` from `width - 1` down. */
  function Accumulated(s: seq<bool>, j: nat, width: nat): nat
    requires j <= width && j <= |s|
  {
    if j == 0 then 0 else Accumulated(s, j - 1, width) + (if s[j - 1] then Pow2(width - j) else 0)
  }

  /** The accumulated value is the number the bits read so far spell, most significant first, shifted to the top. */
  lemma {:induction false} AccumulatedValue(s: seq<bool>, j: nat, width: nat)
    requires j <= width && j <= |s|
    ensures Accumulated(s, j, width) == FromBitsMsb(s[..j]) * Pow2(width - j)
    decreases j
  {
    if j > 0 {
      AccumulatedValue(s, j - 1, width);
      MsbStep(s, j - 1, width - j);
    }
  }

  lemma ShiftAdd(f: nat, b: nat, p: nat)
    ensures (2 * f + b) * p == f * (2 * p) + b * p
  {
  }

  /**
   * `for i in (0..width).rev() { value |= (next()? as T) << i }`: the next
   * `width` bits, most significant first, or `None` once the bits run out.
   * Bit `i` of `value` is still clear when it is set, so `|=` adds it.
   */
  method ReadUint(it: BitIterator, width: nat) returns (r: Option<nat>)
    requires it.Valid()
    modifies it
    ensures it.Valid()
    ensures Moved(old(it.Visible()), old(it.Remaining()), it.Visible(), it.Remaining())
    ensures r.None? <==> |old(it.Remaining())| < width
    ensures r.None? ==> it.Remaining() == []
    ensures r.Some? ==> r.value == FromBitsMsb(old(it.Remaining())[..width]) && it.Remaining() == old(it.Remaining())[width..]
  {
    ghost var v0, r0 := it.Visible(), it.Remaining();
    var value := 0;
    for j := 0 to width
      invariant it.Valid()
      invariant j <= |r0| && j <= |v0| && it.Remaining() == r0[j..] && it.Visible() == v0[j..]
      invariant value == Accumulated(r0, j, width)
    {
      ghost var v1, r1 := it.Visible(), it.Remaining();
      var bit := it.Next();
      if bit.None? {
        MovedAt(v0, r0, j, it.Visible(), it.Remaining());
        return None;
      }
      NextAt(v0, r0, j, v1, r1, it.Visible(), it.Remaining());
      value := value + (if bit.value then Pow2(width - 1 - j) else 0);
    }
    MovedAt(v0, r0, width, it.Visible(), it.Remaining());
    AccumulatedValue(r0, width, width);
    r := Some(value);
  }

  /** `while !next()? { current.push(false) }`. */
  method ReadZerosFrom(it: BitIterator, current: seq<bool>) returns (r: Option<seq<bool>>)
    requires it.Valid()
    modifies it
    ensures it.Valid()
    ensures Moved(old(it.Visible()), old(it.Remaining()), it.Visible(), it.Remaining())
    ensures r.None? <==> ReadZeros(old(it.Remaining()), current).None?
    ensures r.None? ==> it.Remaining() == []
    ensures r.Some? ==> (r.value, it.Remaining()) == ReadZeros(old(it.Remaining()), current).value
  {
    ghost var v0, r0 := it.Visible(), it.Remaining();
    var cur := current;
    ghost var j := 0;
    while true
      invariant it.Valid()
      invariant j <= |r0| && j <= |v0| && it.Remaining() == r0[j..] && it.Visible() == v0[j..]
      invariant ReadZeros(r0, current) == ReadZeros(it.Remaining(), cur)
      decreases |it.Remaining()|
    {
      ghost var v1, r1 := it.Visible(), it.Remaining();
      var bit := it.Next();
      if bit.None? {
        MovedAt(v0, r0, j, it.Visible(), it.Remaining());
        return None;
      }
      NextAt(v0, r0, j, v1, r1, it.Visible(), it.Remaining());
      j := j + 1;
      if bit.value {
        MovedAt(v0, r0, j, it.Visible(), it.Remaining());
        return Some(cur);
      }
      cur := cur + [false];
    }
  }

  /** One table entry: the code after the zeros and the one, then the letter. */
  method ReadEntry(it: BitIterator, current: seq<bool>) returns (r: Option<Descriptor>)
    requires it.Valid()
    modifies it
    ensures it.Valid()
    ensures Moved(old(it.Visible()), old(it.Remaining()), it.Visible(), it.Remaining())
    ensures r.None? <==> ReadEntryAt(old(it.Remaining()), current).None?
    ensures r.None? ==> it.Remaining() == []
    ensures r.Some? ==> (r.value, it.Remaining()) == ReadEntryAt(old(it.Remaining()), current).value
  {
    ghost var v0, r0 := it.Visible(), it.Remaining();
    var code := ReadZerosFrom(it, current);
    if code.None? {
      return None;
    }
    ghost var v1, r1 := it.Visible(), it.Remaining();
    var byte := ReadUint(it, 8);
    MovedTrans(v0, r0, v1, r1, it.Visible(), it.Remaining());
    if byte.None? {
      return None;
    }
    Pow2Eight();
    r := Some(Descriptor(code.value, byte.value));
  }

  /** The `while { … } {}` loop of `Header::decode`: table entries up to the first code of ones only. */
  method ReadTableFrom(it: BitIterator) returns (r: Option<seq<Descriptor>>)
    requires it.Valid()
    modifies it
    ensures it.Valid()
    ensures Moved(old(it.Visible()), old(it.Remaining()), it.Visible(), it.Remaining())
    ensures r.None? <==> ReadTable(old(it.Remaining()), []).None?
    ensures r.None? ==> it.Remaining() == []
    ensures r.Some? ==> (r.value, it.Remaining()) == ReadTable(old(it.Remaining()), []).value
  {
    ghost var v0, r0 := it.Visible(), it.Remaining();
    var ds: seq<Descriptor> := [];
    var current: seq<bool> := [];
    PrecededEmpty(ReadTable(r0, []));
    while true
      invariant it.Valid()
      invariant Moved(v0, r0, it.Visible(), it.Remaining())
      invariant Preceded(ds, ReadTable(it.Remaining(), current)) == ReadTable(r0, [])
      decreases |it.Remaining()|
    {
      ghost var v1, r1 := it.Visible(), it.Remaining();
      var d := ReadEntry(it, current);
      MovedTrans(v0, r0, v1, r1, it.Visible(), it.Remaining());
      if d.None? {
        return None;
      }
      ghost var prior := ds;
      ds := ds + [d.value];
      var condition := AllTrue(d.value.code);
      current := Advance(d.value.code);
      if condition {
        return Some(ds);
      }
      PrecededPreceded(prior, [d.value], ReadTable(it.Remaining(), current));
    }
  }

  /**
   * `Header::decode`: `initial` (32 bits), `bit_size` (64 bits), then the
   * table; `None` as soon as the iterator runs out.
   */
  method Decode(it: BitIterator) returns (h: Option<Header>)
    requires it.Valid()
    modifies it
    ensures it.Valid()
    ensures Moved(old(it.Visible()), old(it.Remaining()), it.Visible(), it.Remaining())
    ensures h.None? <==> ReadHeader(old(it.Remaining())).None?
    ensures h.None? ==> it.Remaining() == []
    ensures h.Some? ==> (h.value, it.Remaining()) == ReadHeader(old(it.Remaining())).value
  {
    ghost var v0, r0 := it.Visible(), it.Remaining();
    var initial := ReadUint(it, 32);
    if initial.None? {
      return None;
    }
    ghost var v1, r1 := it.Visible(), it.Remaining();
    var bitSize := ReadUint(it, 64);
    MovedTrans(v0, r0, v1, r1, it.Visible(), it.Remaining());
    if bitSize.None? {
      return None;
    }
    assert r0[32..][..64] == r0[32..96] && r0[32..][64..] == r0[96..];
    ghost var v2, r2 := it.Visible(), it.Remaining();
    var ds := ReadTableFrom(it);
    MovedTrans(v0, r0, v2, r2, it.Visible(), it.Remaining());
    if ds.None? {
      return None;
    }
    h := Some(Header(ds.value, bitSize.value, initial.value));
  }

  // ---------------------------------------------------------------------
  // The header of a Huffman tree.
  // ---------------------------------------------------------------------

  /** A tree of two or more leaves gives every letter a non-empty code, so `Header::encode` does not underflow. */
  lemma {:induction false} TreeCodesNonEmpty(root: Node)
    requires NoDup(Letters(root)) && root.Inner?
    ensures NonEmptyCodes(Codes(root))
  {
    TreeCodes(root);
    var ds := LeafList(root, []);
    forall k | k in Codes(root) ensures Codes(root)[k] != [] {
      var i :| 0 <= i < |Letters(root)| && Letters(root)[i] == k;
      InnerCodesNonEmpty(root.left, root.right, i);
    }
  }

  /**
   * With a single distinct byte the tree is a leaf whose code is empty, and
   * `current_len` underflows on it: `Header::encode` panics in a debug build.
   */
  lemma {:induction false} SingleByteUnderflow(freq: map<byte, nat>, letters: seq<byte>, x: byte)
    requires KeyOrderOf(letters, freq.Keys) && freq.Keys == {x}
    ensures var codes := Codes(BuildTree(InitialQueue(freq, letters)));
      x in codes && CurrentLenAsWritten(codes[x]).Err? && !NonEmptyCodes(codes)
  {
    SingleLetter(freq, letters, x);
  }

  /**
   * For the code map of a tree, decoding the header that `Header::encode`
   * writes gives the leaves left to right, whatever the order the map is
   * iterated in, and the bits after the header untouched; inserting the
   * decoded descriptors in turn rebuilds the code map.
   */
  lemma {:induction false} HeaderOfTree(root: Node, keys: seq<byte>, initial: u32, bitSize: nat, rest: seq<bool>)
    requires NoDup(Letters(root)) && KeyOrderOf(keys, Codes(root).Keys) && bitSize <= USIZE_MAX
    ensures ReadHeader(HeaderBits(initial, bitSize, Sort(EntryOrder(), Table(Codes(root), keys))) + rest)
              == Some((Header(LeafList(root, []), bitSize, initial), rest))
    ensures HuffmanTree.Insert(map[], LeafList(root, [])) == Codes(root)
  {
    SortedTable(root, keys);
    TreeChained(root);
    ReadHeaderBits(initial, bitSize, LeafList(root, []), rest);
  }

  /** What a `BitIterator` of budget `usize::MAX` over the packed header bits yields decodes to the tree's header. */
  lemma {:induction false} PackedHeader(root: Node, codeKeys: seq<byte>, initial: u32, bitSize: nat, bits: seq<bool>, bytes: seq<byte>)
    requires NoDup(Letters(root)) && KeyOrderOf(codeKeys, Codes(root).Keys) && bitSize <= USIZE_MAX
    requires bits == HeaderBits(initial, bitSize, Sort(EntryOrder(), Table(Codes(root), codeKeys)))
    requires bytes == PackLsb(bits) && |bits| + 8 <= USIZE_MAX
    ensures ReadHeader(Take(BytesBitsLsb(bytes), USIZE_MAX)).Some?
    ensures ReadHeader(Take(BytesBitsLsb(bytes), USIZE_MAX)).value.0 == Header(LeafList(root, []), bitSize, initial)
  {
    PackLsbBits(bits);
    var pad := Zeros(8 * |bytes| - |bits|);
    assert Take(BytesBitsLsb(bytes), USIZE_MAX) == bits + pad;
    HeaderOfTree(root, codeKeys, initial, bitSize, pad);
  }

  /**
   * `decode_encoded_test` for any tree of two or more leaves: the header
   * written by `Header::encode`, packed into bytes by `ByteIterator` and
   * read back by `Header::decode` through a `BitIterator` of budget
   * `usize::MAX`, gives the leaves in order, `bit_size` and `initial`.
   */
  method HeaderRoundTrip(root: Node, freq: map<byte, nat>, initial: u32)
    returns (encoded: Result<seq<bool>>, decoded: Option<Header>, ghost freqKeys: seq<byte>)
    requires NoDup(Letters(root)) && root.Inner?
    ensures KeyOrderOf(freqKeys, freq.Keys)
    ensures encoded.Ok? <==> Fits(freqKeys, freq, Codes(root))
    ensures encoded.Ok? ==> encoded.value == HeaderBits(initial, Weight(freqKeys, freq, Codes(root)), LeafList(root, []))
    ensures encoded.Ok? && |encoded.value| + 8 <= USIZE_MAX ==>
              decoded == Some(Header(LeafList(root, []), Weight(freqKeys, freq, Codes(root)), initial))
  {
    var codes := Codes(root);
    TreeCodesNonEmpty(root);
    ghost var codeKeys;
    encoded, freqKeys, codeKeys := Encode(freq, codes, initial);
    if encoded.Err? {
      decoded := None;
      return;
    }
    var bits := encoded.value;
    SortedTable(root, codeKeys);
    var packer := new ByteIterator([bits]);
    assert Flatten([bits]) == bits + Flatten([]);
    assert Flatten([bits]) == bits;
    var bytes := packer.Collect();
    var it := new BitIterator(bytes, USIZE_MAX);
    if |bits| + 8 <= USIZE_MAX {
      PackedHeader(root, codeKeys, initial, Weight(freqKeys, freq, codes), bits, bytes);
    }
    decoded := Decode(it);
  }
}
