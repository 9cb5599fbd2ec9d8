/**
 * The `encode_test` of `burrows-wheeler/src/huffman/encode.rs` as a proved
 * fact: the codes a = 110, b = 111, c = 10, d = 0, no frequencies, and the
 * input "abbcccddddddddd".
 */
module CodecVectors {
  import opened Common
  import opened Sorting
  import opened HuffmanTree
  import opened BitStream
  import opened HuffmanHeader
  import opened HuffmanCodec
  import HeaderVectors

  /** The tree whose leaves carry the test's codes. */
  function VectorTree(): Node
  {
    Inner(Leaf(100), Inner(Leaf(99), Inner(Leaf(97), Leaf(98))))
  }

  /** The descriptors of the tree, in the order `Header::encode` sorts them. */
  function VectorDescriptors(): seq<Descriptor>
  {
    [ Descriptor([false], 100), Descriptor([true, false], 99),
      Descriptor([true, true, false], 97), Descriptor([true, true, true], 98) ]
  }

  function VectorCodes(): map<byte, seq<bool>>
  {
    map[97 := [true, true, false], 98 := [true, true, true], 99 := [true, false], 100 := [false]]
  }

  /** "abbcccddddddddd". */
  function VectorInput(): seq<byte>
  {
    [97, 98, 98, 99, 99, 99, 100, 100, 100, 100, 100, 100, 100, 100, 100]
  }

  /** The table bits: four entries of 10, 10, 10 and 9 bits. */
  function VectorTableBits(): seq<bool>
  {
    [false, true, false, true, true, false, false, true, false, false, false, true, false, true, true, false, false, false, true, true, false, true, false, true, true, false, false, false, false, true, true, false, true, true, false, false, false, true, false]
  }

  /** The payload bits: 110, 111, 111, 10, 10, 10 and nine 0s. */
  function VectorPayloadBits(): seq<bool>
  {
    [true, true, false, true, true, true, true, true, true, true, false, true, false, true, false, false, false, false, false, false, false, false, false, false]
  }

  /** The `expected` bytes of the test. */
  function VectorBytes(): seq<byte>
  {
    [0x9A, 0x68, 0xAC, 0x61, 0xA3, 0xFD, 0x15, 0x00]
  }

  lemma {:induction false} VectorLeafList()
    ensures LeafList(VectorTree(), []) == VectorDescriptors()
  {
    var ab := Inner(Leaf(97), Leaf(98));
    assert [true, true] + [false] == [true, true, false] && [true, true] + [true] == [true, true, true];
    var l1 := LeafList(ab, [true, true]);
    assert l1 == [Descriptor([true, true, false], 97), Descriptor([true, true, true], 98)];
    assert [true] + [false] == [true, false] && [true] + [true] == [true, true];
    var l2 := LeafList(Inner(Leaf(99), ab), [true]);
    assert l2 == [Descriptor([true, false], 99)] + l1;
    assert [] + [false] == [false] && [] + [true] == [true];
    assert LeafList(VectorTree(), []) == [Descriptor([false], 100)] + l2;
  }

  lemma {:induction false} VectorLetters()
    ensures NoDup(Letters(VectorTree()))
  {
    assert Letters(Inner(Leaf(99), Inner(Leaf(97), Leaf(98)))) == [99, 97, 98];
    assert Letters(VectorTree()) == [100, 99, 97, 98];
  }

  lemma {:induction false} VectorInsert(ds: seq<Descriptor>)
    requires ds == VectorDescriptors()
    ensures HuffmanTree.Insert(map[], ds) == VectorCodes()
  {
    var m1 := map[100 := [false]];
    var m2 := m1[99 := [true, false]];
    var m3 := m2[97 := [true, true, false]];
    var m4 := m3[98 := [true, true, true]];
    assert HuffmanTree.Insert(map[], ds) == HuffmanTree.Insert(m1, ds[1..]);
    assert HuffmanTree.Insert(m1, ds[1..]) == HuffmanTree.Insert(m2, ds[2..]) by {
      assert ds[1..][1..] == ds[2..];
    }
    assert HuffmanTree.Insert(m2, ds[2..]) == HuffmanTree.Insert(m3, ds[3..]) by {
      assert ds[2..][1..] == ds[3..];
    }
    assert HuffmanTree.Insert(m3, ds[3..]) == m4 by {
      assert ds[3..][1..] == [];
    }
    assert m4 == VectorCodes();
  }

  lemma {:induction false} VectorTreeLeaves()
    ensures LeafList(VectorTree(), []) == VectorDescriptors()
    ensures NoDup(Letters(VectorTree()))
    ensures Codes(VectorTree()) == VectorCodes()
  {
    VectorLeafList();
    VectorLetters();
    VectorInsert(VectorDescriptors());
  }

  // Each table entry, from `current_len` before it.

  lemma {:induction false} EntryD()
    ensures EntryBits(0, VectorDescriptors()[0]) == [false, true, false, true, true, false, false, true, false, false]
  {
    HeaderVectors.LetterBitsD();
    assert Zeros(1) == [false];
  }

  lemma {:induction false} EntryC()
    ensures EntryBits(1, VectorDescriptors()[1]) == [false, true, false, true, true, false, false, false, true, true]
  {
    HeaderVectors.LetterBitsC();
    assert Zeros(1) == [false];
  }

  lemma {:induction false} EntryA()
    ensures EntryBits(2, VectorDescriptors()[2]) == [false, true, false, true, true, false, false, false, false, true]
  {
    HeaderVectors.LetterBitsA();
    assert Zeros(1) == [false];
  }

  lemma {:induction false} EntryB()
    ensures EntryBits(3, VectorDescriptors()[3]) == [true, false, true, true, false, false, false, true, false]
  {
    HeaderVectors.LetterBitsB();
    assert Zeros(0) == [];
  }

  lemma {:induction false} VectorCurrentLens()
    ensures CurrentLen([false]) == 1 && CurrentLen([true, false]) == 2 && CurrentLen([true, true, false]) == 3
  {
    assert [true, false][..1] == [true];
    assert [true, true, false][..2] == [true, true];
  }

  lemma VectorTableBitsSplit()
    ensures VectorTableBits() == [false, true, false, true, true, false, false, true, false, false]
      + ([false, true, false, true, true, false, false, false, true, true]
      + ([false, true, false, true, true, false, false, false, false, true]
      + [true, false, true, true, false, false, false, true, false]))
  {
  }

  lemma {:induction false} VectorTable()
    ensures TableBits(VectorDescriptors(), 0) == VectorTableBits()
  {
    var ds := VectorDescriptors();
    EntryD();
    EntryC();
    EntryA();
    EntryB();
    VectorCurrentLens();
    VectorTableBitsSplit();
    assert ds[1..][1..] == ds[2..] && ds[2..][1..] == ds[3..] && ds[3..][1..] == [];
    AppendEmpty(EntryBits(3, ds[3]));
    assert TableBits(ds[3..], 3) == EntryBits(3, ds[3]);
    assert TableBits(ds[2..], 2) == EntryBits(2, ds[2]) + TableBits(ds[3..], 3);
    assert TableBits(ds[1..], 1) == EntryBits(1, ds[1]) + TableBits(ds[2..], 2);
    assert TableBits(ds, 0) == EntryBits(0, ds[0]) + TableBits(ds[1..], 1);
  }

  lemma Byte0()
    ensures ByteBitsLsb(0x9A) == [false, true, false, true, true, false, false, true]
  {
  }

  lemma Byte1()
    ensures ByteBitsLsb(0x68) == [false, false, false, true, false, true, true, false]
  {
  }

  lemma Byte2()
    ensures ByteBitsLsb(0xAC) == [false, false, true, true, false, true, false, true]
  {
  }

  lemma Byte3()
    ensures ByteBitsLsb(0x61) == [true, false, false, false, false, true, true, false]
  {
  }

  lemma Byte4()
    ensures ByteBitsLsb(0xA3) == [true, true, false, false, false, true, false, true]
  {
  }

  lemma Byte5()
    ensures ByteBitsLsb(0xFD) == [true, false, true, true, true, true, true, true]
  {
  }

  lemma Byte6()
    ensures ByteBitsLsb(0x15) == [true, false, true, false, true, false, false, false]
  {
  }

  lemma Byte7()
    ensures ByteBitsLsb(0x00) == [false, false, false, false, false, false, false, false]
  {
  }

  /** The table bits, the payload bits and one padding zero, in two halves of four bytes. */
  lemma VectorBitsHalves()
    ensures VectorTableBits() + VectorPayloadBits() + [false] == [false, true, false, true, true, false, false, true, false, false, false, true, false, true, true, false, false, false, true, true, false, true, false, true, true, false, false, false, false, true, true, false]
      + [true, true, false, false, false, true, false, true, true, false, true, true, true, true, true, true, true, false, true, false, true, false, false, false, false, false, false, false, false, false, false, false]
  {
  }

  lemma VectorFirstHalf()
    ensures [false, true, false, true, true, false, false, true, false, false, false, true, false, true, true, false, false, false, true, true, false, true, false, true, true, false, false, false, false, true, true, false] == [false, true, false, true, true, false, false, true]
      + ([false, false, false, true, false, true, true, false]
      + ([false, false, true, true, false, true, false, true]
      + [true, false, false, false, false, true, true, false]))
  {
  }

  lemma VectorSecondHalf()
    ensures [true, true, false, false, false, true, false, true, true, false, true, true, true, true, true, true, true, false, true, false, true, false, false, false, false, false, false, false, false, false, false, false] == [true, true, false, false, false, true, false, true]
      + ([true, false, true, true, true, true, true, true]
      + ([true, false, true, false, true, false, false, false]
      + [false, false, false, false, false, false, false, false]))
  {
  }

  /** Four bytes, bit by bit. */
  lemma {:induction false} FourBytes(b: seq<byte>)
    requires |b| == 4
    ensures BytesBitsLsb(b) == ByteBitsLsb(b[0]) + (ByteBitsLsb(b[1]) + (ByteBitsLsb(b[2]) + ByteBitsLsb(b[3])))
  {
    assert b[1..][1..] == b[2..] && b[2..][1..] == b[3..] && b[3..][1..] == [];
    AppendEmpty(ByteBitsLsb(b[3]));
    assert BytesBitsLsb(b[3..]) == ByteBitsLsb(b[3]);
    assert BytesBitsLsb(b[2..]) == ByteBitsLsb(b[2]) + BytesBitsLsb(b[3..]);
    assert BytesBitsLsb(b[1..]) == ByteBitsLsb(b[1]) + BytesBitsLsb(b[2..]);
  }

  lemma {:induction false} FirstHalfBytes()
    ensures BytesBitsLsb(VectorBytes()[..4]) == [false, true, false, true, true, false, false, true, false, false, false, true, false, true, true, false, false, false, true, true, false, true, false, true, true, false, false, false, false, true, true, false]
  {
    var b := VectorBytes()[..4];
    assert b == [0x9A, 0x68, 0xAC, 0x61];
    FourBytes(b);
    Byte0();
    Byte1();
    Byte2();
    Byte3();
    VectorFirstHalf();
  }

  lemma {:induction false} SecondHalfBytes()
    ensures BytesBitsLsb(VectorBytes()[4..]) == [true, true, false, false, false, true, false, true, true, false, true, true, true, true, true, true, true, false, true, false, true, false, false, false, false, false, false, false, false, false, false, false]
  {
    var b := VectorBytes()[4..];
    assert b == [0xA3, 0xFD, 0x15, 0x00];
    FourBytes(b);
    Byte4();
    Byte5();
    Byte6();
    Byte7();
    VectorSecondHalf();
  }

  lemma {:induction false} VectorBytesBits()
    ensures BytesBitsLsb(VectorBytes()) == VectorTableBits() + VectorPayloadBits() + [false]
  {
    var b := VectorBytes();
    assert b == b[..4] + b[4..];
    BytesBitsLsbAppend(b[..4], b[4..]);
    FirstHalfBytes();
    SecondHalfBytes();
    VectorBitsHalves();
  }

  // The payload.

  /** A letter coded by a single zero, repeated, gives as many zeros. */
  lemma {:induction false} PayloadZeros(codes: map<byte, seq<bool>>, x: byte, n: nat)
    requires x in codes && codes[x] == [false]
    ensures Coded(codes, Repeat<byte>(x, n))
    ensures PayloadBits(codes, Repeat<byte>(x, n)) == Zeros(n)
  {
    var r := Repeat<byte>(x, n);
    if n > 0 {
      assert r[0] == x && r[1..] == Repeat<byte>(x, n - 1);
      PayloadZeros(codes, x, n - 1);
      assert [false] + Zeros(n - 1) == Zeros(n);
    } else {
      assert r == [];
    }
  }

  lemma {:induction false} PayloadHead(input: seq<byte>)
    requires input == [97, 98, 98, 99, 99, 99]
    ensures Coded(VectorCodes(), input)
    ensures PayloadBits(VectorCodes(), input) == [true, true, false, true, true, true, true, true, true, true, false, true, false, true, false]
  {
    var c := VectorCodes();
    assert input[1..][1..] == input[2..] && input[2..][1..] == input[3..] && input[3..][1..] == input[4..];
    assert input[4..][1..] == input[5..] && input[5..][1..] == [];
    AppendEmpty(c[99]);
    assert PayloadBits(c, input[5..]) == [true, false];
    assert PayloadBits(c, input[4..]) == [true, false] + [true, false];
    assert PayloadBits(c, input[3..]) == [true, false] + ([true, false] + [true, false]);
    assert PayloadBits(c, input[2..]) == [true, true, true] + PayloadBits(c, input[3..]);
    assert PayloadBits(c, input[1..]) == [true, true, true] + PayloadBits(c, input[2..]);
    assert PayloadBits(c, input) == [true, true, false] + PayloadBits(c, input[1..]);
  }

  lemma NineZeros()
    ensures Zeros(9) == [false, false, false, false, false, false, false, false, false]
  {
  }

  lemma {:induction false} PayloadLiteral()
    ensures [true, true, false, true, true, true, true, true, true, true, false, true, false, true, false] + Zeros(9)
            == VectorPayloadBits()
  {
    NineZeros();
  }

  lemma {:induction false} InputSplit(head: seq<byte>, tail: seq<byte>)
    requires head == [97, 98, 98, 99, 99, 99] && tail == Repeat<byte>(100, 9)
    ensures VectorInput() == head + tail
  {
    assert tail == [100, 100, 100, 100, 100, 100, 100, 100, 100];
  }

  lemma {:induction false} VectorPayload()
    ensures Coded(VectorCodes(), VectorInput())
    ensures PayloadBits(VectorCodes(), VectorInput()) == VectorPayloadBits()
  {
    var head: seq<byte> := [97, 98, 98, 99, 99, 99];
    var tail := Repeat<byte>(100, 9);
    InputSplit(head, tail);
    PayloadHead(head);
    PayloadZeros(VectorCodes(), 100, 9);
    PayloadAppend(VectorCodes(), head, tail);
    PayloadLiteral();
  }

  // Packing.

  lemma {:induction false} ByteBitsLsbInjective(a: byte, b: byte)
    requires ByteBitsLsb(a) == ByteBitsLsb(b)
    ensures a == b
  {
    Pow2Eight();
    FromToBitsLsb(a, 8);
    FromToBitsLsb(b, 8);
  }

  /** Bytes are determined by their bits. */
  lemma {:induction false} BytesBitsLsbInjective(a: seq<byte>, b: seq<byte>)
    requires BytesBitsLsb(a) == BytesBitsLsb(b)
    ensures a == b
    decreases |a|
  {
    if a != [] {
      var x, y := BytesBitsLsb(a), BytesBitsLsb(b);
      assert x[..8] == ByteBitsLsb(a[0]) && y[..8] == ByteBitsLsb(b[0]);
      ByteBitsLsbInjective(a[0], b[0]);
      assert x[8..] == BytesBitsLsb(a[1..]) && y[8..] == BytesBitsLsb(b[1..]);
      BytesBitsLsbInjective(a[1..], b[1..]);
      assert a == [a[0]] + a[1..] && b == [b[0]] + b[1..];
    }
  }

  /** A header with `initial` and `bit_size` zero is 96 zeros before the table. */
  lemma {:induction false} ZeroHeader(ds: seq<Descriptor>)
    ensures HeaderBits(0, 0, ds) == Zeros(96) + TableBits(ds, 0)
  {
    HeaderVectors.ZeroBitsMsb(32);
    HeaderVectors.ZeroBitsMsb(64);
    assert Zeros(32) + Zeros(64) == Zeros(96);
  }

  /** Skipping the twelve bytes that pack 96 leading bits leaves the packing of the rest. */
  lemma {:induction false} SkipTwelve(head: seq<bool>, rest: seq<bool>)
    requires |head| == 96
    ensures |PackLsb(head + rest)| == 12 + |PackLsb(rest)|
    ensures PackLsb(head + rest)[12..] == PackLsb(rest)
  {
    PackLsbAppend(head, rest);
  }

  /** Bits one short of whole bytes pack into the bytes whose bits they are, with the last bit clear. */
  lemma {:induction false} PackedOneShort(bits: seq<bool>, bytes: seq<byte>)
    requires BytesBitsLsb(bytes) == bits + [false]
    ensures PackLsb(bits) == bytes
  {
    PackLsbBits(bits);
    assert |PackLsb(bits)| == |bytes|;
    assert Zeros(1) == [false];
    BytesBitsLsbInjective(PackLsb(bits), bytes);
  }

  /** After the twelve bytes of `initial` and `bit_size`, the packed table and payload are the expected bytes. */
  lemma {:induction false} VectorPacked(ds: seq<Descriptor>, t: seq<bool>, p: seq<bool>)
    requires ds == VectorDescriptors() && t == VectorTableBits() && p == VectorPayloadBits()
    ensures |PackLsb(HeaderBits(0, 0, ds) + p)| == 20
    ensures PackLsb(HeaderBits(0, 0, ds) + p)[12..] == VectorBytes()
  {
    VectorTable();
    ZeroHeader(ds);
    AppendAssoc(Zeros(96), t, p);
    VectorBytesBits();
    PackedOneShort(t + p, VectorBytes());
    SkipTwelve(Zeros(96), t + p);
  }

  /** What `iter` promises, on the test's codes and input. */
  lemma {:induction false} VectorIter(freq: map<byte, nat>, input: seq<byte>, codes: map<byte, seq<bool>>,
                   r: Result<seq<byte>>, freqKeys: seq<byte>, codeKeys: seq<byte>)
    requires freq == map[] && input == VectorInput() && codes == VectorCodes()
    requires KeyOrderOf(freqKeys, freq.Keys) && KeyOrderOf(codeKeys, codes.Keys)
    requires r.Ok? <==> Fits(freqKeys, freq, codes) && NonEmptyCodes(codes) && Coded(codes, input)
    requires r.Ok? ==> r.value == PackLsb(HeaderBits(0, Weight(freqKeys, freq, codes),
                                                     Sort(EntryOrder(), Table(codes, codeKeys)))
                                          + PayloadBits(codes, input))
    ensures r.Ok? && |r.value| == 20 && r.value[12..] == VectorBytes()
  {
    VectorAccepted(freqKeys, codes, input);
    VectorSorted(codes, codeKeys);
    VectorPayload();
    VectorPacked(VectorDescriptors(), VectorTableBits(), VectorPayloadBits());
  }

  /** No frequencies weigh nothing, and the test's codes are non-empty and cover the input. */
  lemma {:induction false} VectorAccepted(freqKeys: seq<byte>, codes: map<byte, seq<bool>>, input: seq<byte>)
    requires KeyOrderOf(freqKeys, {}) && codes == VectorCodes() && input == VectorInput()
    ensures Weight(freqKeys, map[], codes) == 0 && Fits(freqKeys, map[], codes)
    ensures NonEmptyCodes(codes) && Coded(codes, input)
  {
    NoKeys(freqKeys);
    VectorTreeLeaves();
    TreeCodesNonEmpty(VectorTree());
    VectorPayload();
  }

  /** Whatever order the code map is walked in, `Header::encode` sorts it into d, c, a, b. */
  lemma {:induction false} VectorSorted(codes: map<byte, seq<bool>>, codeKeys: seq<byte>)
    requires codes == VectorCodes() && KeyOrderOf(codeKeys, codes.Keys)
    ensures Elems(codeKeys) <= codes.Keys
    ensures Sort(EntryOrder(), Table(codes, codeKeys)) == VectorDescriptors()
  {
    VectorTreeLeaves();
    SortedTable(VectorTree(), codeKeys);
  }

  /**
   * `encode_test`: `iter` over no frequencies, the input
   * "abbcccddddddddd" and the codes a = 110, b = 111, c = 10, d = 0 gives,
   * after its first twelve bytes, the eight expected bytes.
   */
  method EncodeVector() returns (encoded: Result<seq<byte>>)
    ensures encoded.Ok? && |encoded.value| == 20 && encoded.value[12..] == VectorBytes()
  {
    ghost var freqKeys, codeKeys;
    var input, codes := VectorInput(), VectorCodes();
    encoded, freqKeys, codeKeys := Iter(map[], input, codes, 0);
    VectorIter(map[], input, codes, encoded, freqKeys, codeKeys);
  }
}
