/**
 * The tests of `burrows-wheeler/src/huffman/header.rs` as proved facts:
 * the five codes a = 000, b = 001, c = 01, d = 10, e = 11 with
 * frequencies 1, 1, 4, 4, 4.
 */
module HeaderVectors {
  import opened Common
  import opened Sorting
  import opened HuffmanTree
  import opened BitStream
  import opened HuffmanHeader

  /** The tree whose leaves carry the test's codes. */
  function TestTree(): Node
  {
    Inner(Inner(Inner(Leaf(97), Leaf(98)), Leaf(99)), Inner(Leaf(100), Leaf(101)))
  }

  /** The `code_descriptors` the decoding tests expect. */
  function TestDescriptors(): seq<Descriptor>
  {
    [ Descriptor([false, false, false], 97), Descriptor([false, false, true], 98),
      Descriptor([false, true], 99), Descriptor([true, false], 100), Descriptor([true, true], 101) ]
  }

  function TestCodes(): map<byte, seq<bool>>
  {
    map[97 := [false, false, false], 98 := [false, false, true], 99 := [false, true],
        100 := [true, false], 101 := [true, true]]
  }

  function TestFrequencies(): map<byte, nat>
  {
    map[97 := 1, 98 := 1, 99 := 4, 100 := 4, 101 := 4]
  }

  /** The `expected` table bits of `encode_test`. */
  function TestTableBits(): seq<bool>
  {
    [ false, false, false, true, false, true, true, false, false, false, false, true,
      true, false, true, true, false, false, false, true, false,
      true, false, true, true, false, false, false, true, true,
      false, true, false, true, true, false, false, true, false, false,
      true, false, true, true, false, false, true, false, true ]
  }

  /** The seven table bytes of `decode_test`. */
  function TestTableBytes(): seq<byte>
  {
    [0x68, 0xD8, 0xA8, 0xB1, 0x26, 0x4D, 0x01]
  }

  lemma {:induction false} TestTreeLeaves()
    ensures LeafList(TestTree(), []) == TestDescriptors()
    ensures NoDup(Letters(TestTree()))
    ensures Codes(TestTree()) == TestCodes()
  {
    TestLeafList();
    TestLetters();
    TestInsert(TestDescriptors());
  }

  lemma {:induction false} TestLeafList()
    ensures LeafList(TestTree(), []) == TestDescriptors()
  {
    var ab := Inner(Leaf(97), Leaf(98));
    assert [false, false] + [false] == [false, false, false] && [false, false] + [true] == [false, false, true];
    var l1 := LeafList(ab, [false, false]);
    assert l1 == [Descriptor([false, false, false], 97), Descriptor([false, false, true], 98)];
    assert [false] + [false] == [false, false] && [false] + [true] == [false, true];
    var l2 := LeafList(Inner(ab, Leaf(99)), [false]);
    assert l2 == l1 + [Descriptor([false, true], 99)];
    assert [true] + [false] == [true, false] && [true] + [true] == [true, true];
    var l3 := LeafList(Inner(Leaf(100), Leaf(101)), [true]);
    assert l3 == [Descriptor([true, false], 100), Descriptor([true, true], 101)];
    assert [] + [false] == [false] && [] + [true] == [true];
    assert LeafList(TestTree(), []) == l2 + l3;
  }

  lemma {:induction false} TestLetters()
    ensures NoDup(Letters(TestTree()))
  {
    var ab := Inner(Leaf(97), Leaf(98));
    assert Letters(Inner(ab, Leaf(99))) == [97, 98, 99];
    assert Letters(TestTree()) == [97, 98, 99] + [100, 101];
    assert [97, 98, 99] + [100, 101] == [97, 98, 99, 100, 101];
  }

  lemma {:induction false} TestInsert(ds: seq<Descriptor>)
    requires ds == TestDescriptors()
    ensures HuffmanTree.Insert(map[], ds) == TestCodes()
  {
    var m1 := map[97 := [false, false, false]];
    var m2 := m1[98 := [false, false, true]];
    var m3 := m2[99 := [false, true]];
    var m4 := m3[100 := [true, false]];
    var m5 := m4[101 := [true, true]];
    assert HuffmanTree.Insert(map[], ds) == HuffmanTree.Insert(m1, ds[1..]);
    assert HuffmanTree.Insert(m1, ds[1..]) == HuffmanTree.Insert(m2, ds[2..]) by {
      assert ds[1..][1..] == ds[2..];
    }
    assert HuffmanTree.Insert(m2, ds[2..]) == HuffmanTree.Insert(m3, ds[3..]) by {
      assert ds[2..][1..] == ds[3..];
    }
    assert HuffmanTree.Insert(m3, ds[3..]) == HuffmanTree.Insert(m4, ds[4..]) by {
      assert ds[3..][1..] == ds[4..];
    }
    assert HuffmanTree.Insert(m4, ds[4..]) == m5 by {
      assert ds[4..][1..] == [];
    }
  }

  // The bits of each letter and of each table byte, one evaluation per lemma.

  lemma LetterBitsA()
    ensures ByteBitsMsb(97) == [false, true, true, false, false, false, false, true]
  {
  }

  lemma LetterBitsB()
    ensures ByteBitsMsb(98) == [false, true, true, false, false, false, true, false]
  {
  }

  lemma LetterBitsC()
    ensures ByteBitsMsb(99) == [false, true, true, false, false, false, true, true]
  {
  }

  lemma LetterBitsD()
    ensures ByteBitsMsb(100) == [false, true, true, false, false, true, false, false]
  {
  }

  lemma LetterBitsE()
    ensures ByteBitsMsb(101) == [false, true, true, false, false, true, false, true]
  {
  }

  lemma TableByte0()
    ensures ByteBitsLsb(0x68) == [false, false, false, true, false, true, true, false]
  {
  }

  lemma TableByte1()
    ensures ByteBitsLsb(0xD8) == [false, false, false, true, true, false, true, true]
  {
  }

  lemma TableByte2()
    ensures ByteBitsLsb(0xA8) == [false, false, false, true, false, true, false, true]
  {
  }

  lemma TableByte3()
    ensures ByteBitsLsb(0xB1) == [true, false, false, false, true, true, false, true]
  {
  }

  lemma TableByte4()
    ensures ByteBitsLsb(0x26) == [false, true, true, false, false, true, false, false]
  {
  }

  lemma TableByte5()
    ensures ByteBitsLsb(0x4D) == [true, false, true, true, false, false, true, false]
  {
  }

  lemma TableByte6()
    ensures ByteBitsLsb(0x01) == [true, false, false, false, false, false, false, false]
  {
  }

  // Each table entry of the test, from `current_len` before it.

  lemma {:induction false} EntryA()
    ensures EntryBits(0, TestDescriptors()[0]) == [false, false, false, true, false, true, true, false, false, false, false, true]
  {
    LetterBitsA();
    assert Zeros(3) == [false, false, false];
  }

  lemma {:induction false} EntryB()
    ensures EntryBits(3, TestDescriptors()[1]) == [true, false, true, true, false, false, false, true, false]
  {
    LetterBitsB();
    assert Zeros(0) == [];
  }

  lemma {:induction false} EntryC()
    ensures EntryBits(2, TestDescriptors()[2]) == [true, false, true, true, false, false, false, true, true]
  {
    LetterBitsC();
    assert Zeros(0) == [];
  }

  lemma {:induction false} EntryD()
    ensures EntryBits(1, TestDescriptors()[3]) == [false, true, false, true, true, false, false, true, false, false]
  {
    LetterBitsD();
    assert Zeros(1) == [false];
  }

  lemma {:induction false} EntryE()
    ensures EntryBits(2, TestDescriptors()[4]) == [true, false, true, true, false, false, true, false, true]
  {
    LetterBitsE();
    assert Zeros(0) == [];
  }

  /** The expected bits, entry by entry. */
  lemma TestTableBitsSplit()
    ensures TestTableBits() == [false, false, false, true, false, true, true, false, false, false, false, true]
      + ([true, false, true, true, false, false, false, true, false]
      + ([true, false, true, true, false, false, false, true, true]
      + ([false, true, false, true, true, false, false, true, false, false]
      + [true, false, true, true, false, false, true, false, true])))
  {
  }

  lemma {:induction false} TestCurrentLens()
    ensures CurrentLen([false, false, false]) == 3 && CurrentLen([false, false, true]) == 2
    ensures CurrentLen([false, true]) == 1 && CurrentLen([true, false]) == 2
  {
    assert [false, false, true][..2] == [false, false];
    assert [false, true][..1] == [false];
  }

  lemma {:induction false} TestTable()
    ensures TableBits(TestDescriptors(), 0) == TestTableBits()
  {
    var ds := TestDescriptors();
    EntryA();
    EntryB();
    EntryC();
    EntryD();
    EntryE();
    TestCurrentLens();
    TestTableBitsSplit();
    assert ds[1..][1..] == ds[2..] && ds[2..][1..] == ds[3..] && ds[3..][1..] == ds[4..] && ds[4..][1..] == [];
    AppendEmpty(EntryBits(2, ds[4]));
    assert TableBits(ds[4..], 2) == EntryBits(2, ds[4]);
    assert TableBits(ds[3..], 1) == EntryBits(1, ds[3]) + TableBits(ds[4..], 2);
    assert TableBits(ds[2..], 2) == EntryBits(2, ds[2]) + TableBits(ds[3..], 1);
    assert TableBits(ds[1..], 3) == EntryBits(3, ds[1]) + TableBits(ds[2..], 2);
    assert TableBits(ds, 0) == EntryBits(0, ds[0]) + TableBits(ds[1..], 3);
  }

  lemma {:induction false} WeightOne(k: byte, freq: map<byte, nat>, codes: map<byte, seq<bool>>)
    requires k in freq && k in codes
    ensures Weight([k], freq, codes) == |codes[k]| * freq[k]
  {
    assert [k][..0] == [];
  }

  /** The payload length of the test: 3 + 3 + 4·2·3 = 30 bits, in any key order. */
  lemma {:induction false} TestWeight(keys: seq<byte>)
    requires KeyOrderOf(keys, TestFrequencies().Keys)
    ensures Elems(keys) <= TestCodes().Keys
    ensures Weight(keys, TestFrequencies(), TestCodes()) == 30
  {
    var f, c := TestFrequencies(), TestCodes();
    var order: seq<byte> := [97, 98, 99, 100, 101];
    TestWeightInOrder(order);
    WeightPermutation(keys, order, f, c);
  }

  lemma {:induction false} TestWeightInOrder(order: seq<byte>)
    requires order == [97, 98, 99, 100, 101]
    ensures Elems(order) == TestFrequencies().Keys
    ensures Weight(order, TestFrequencies(), TestCodes()) == 30
  {
    var f, c := TestFrequencies(), TestCodes();
    assert Elems(order) == f.Keys by {
      assert order[0] == 97 && order[1] == 98 && order[2] == 99 && order[3] == 100 && order[4] == 101;
    }
    assert order[..4] == [97, 98, 99, 100] && order[..4][..3] == [97, 98, 99];
    assert order[..4][..3][..2] == [97, 98] && [97, 98][..1] == [97] && [97][..0] == [];
    assert Weight([97], f, c) == 3;
    assert Weight([97, 98], f, c) == 6;
    assert Weight([97, 98, 99], f, c) == 14;
    assert Weight([97, 98, 99, 100], f, c) == 22;
  }

  /** `encode_test`: after `initial` and `bit_size`, `Header::encode` writes the expected 49 table bits. */
  method EncodeTest() returns (encoded: Result<seq<bool>>)
    ensures encoded.Ok? && |encoded.value| == 96 + 49
    ensures encoded.value[..32] == ToBitsMsb(2, 32) && encoded.value[32..96] == ToBitsMsb(30, 64)
    ensures encoded.value[96..] == TestTableBits()
  {
    ghost var freqKeys, codeKeys;
    encoded, freqKeys, codeKeys := Encode(TestFrequencies(), TestCodes(), 2);
    TestTreeLeaves();
    TestWeight(freqKeys);
    TreeCodesNonEmpty(TestTree());
    SortedTable(TestTree(), codeKeys);
    TestTable();
    ThreeParts(ToBitsMsb(2, 32), ToBitsMsb(30, 64), TestTableBits());
  }

  lemma {:induction false} BytesBitsLsbCons(x: byte, rest: seq<byte>)
    ensures BytesBitsLsb([x] + rest) == ByteBitsLsb(x) + BytesBitsLsb(rest)
  {
    assert ([x] + rest)[1..] == rest;
  }

  /** The expected table bits and the seven padding zeros, byte by byte. */
  lemma {:induction false} TestTableBitsBytes()
    ensures TestTableBits() + Zeros(7) == [false, false, false, true, false, true, true, false]
      + ([false, false, false, true, true, false, true, true]
      + ([false, false, false, true, false, true, false, true]
      + ([true, false, false, false, true, true, false, true]
      + ([false, true, true, false, false, true, false, false]
      + ([true, false, true, true, false, false, true, false]
      + [true, false, false, false, false, false, false, false])))))
  {
    SevenZeros();
  }

  lemma SevenZeros()
    ensures Zeros(7) == [false, false, false, false, false, false, false]
  {
  }

  lemma {:induction false} TestTableBytesBits()
    ensures BytesBitsLsb(TestTableBytes()) == TestTableBits() + Zeros(7)
  {
    var b := TestTableBytes();
    TableByte0();
    TableByte1();
    TableByte2();
    TableByte3();
    TableByte4();
    TableByte5();
    TableByte6();
    TestTableBitsBytes();
    assert b[1..][1..] == b[2..] && b[2..][1..] == b[3..] && b[3..][1..] == b[4..];
    assert b[4..][1..] == b[5..] && b[5..][1..] == b[6..] && b[6..][1..] == [];
    AppendEmpty(ByteBitsLsb(b[6]));
    assert BytesBitsLsb(b[6..]) == ByteBitsLsb(b[6]);
    assert BytesBitsLsb(b[5..]) == ByteBitsLsb(b[5]) + BytesBitsLsb(b[6..]);
    assert BytesBitsLsb(b[4..]) == ByteBitsLsb(b[4]) + BytesBitsLsb(b[5..]);
    assert BytesBitsLsb(b[3..]) == ByteBitsLsb(b[3]) + BytesBitsLsb(b[4..]);
    assert BytesBitsLsb(b[2..]) == ByteBitsLsb(b[2]) + BytesBitsLsb(b[3..]);
    assert BytesBitsLsb(b[1..]) == ByteBitsLsb(b[1]) + BytesBitsLsb(b[2..]);
    assert BytesBitsLsb(b) == ByteBitsLsb(b[0]) + BytesBitsLsb(b[1..]);
  }

  lemma {:induction false} ZeroBitsLsb(width: nat)
    ensures ToBitsLsb(0, width) == Zeros(width)
  {
    if width > 0 {
      ZeroBitsLsb(width - 1);
      assert [false] + Zeros(width - 1) == Zeros(width);
    }
  }

  lemma {:induction false} ZeroBytesBits(n: nat)
    ensures BytesBitsLsb(Repeat<byte>(0, n)) == Zeros(8 * n)
  {
    var z := Repeat<byte>(0, n);
    if n > 0 {
      assert z[0] == 0 && z[1..] == Repeat<byte>(0, n - 1);
      ZeroBytesBits(n - 1);
      ZeroBitsLsb(8);
      assert ByteBitsLsb(z[0]) == Zeros(8);
      assert BytesBitsLsb(z) == Zeros(8) + Zeros(8 * (n - 1));
      assert Zeros(8) + Zeros(8 * (n - 1)) == Zeros(8 * n);
    } else {
      assert z == [];
    }
  }

  lemma {:induction false} ZeroBitsMsb(width: nat)
    ensures ToBitsMsb(0, width) == Zeros(width)
  {
    if width > 0 {
      ZeroBitsMsb(width - 1);
      assert Zeros(width - 1) + [false] == Zeros(width);
    }
  }

  /** Twelve zero bytes before a table are a header with `initial` and `bit_size` zero. */
  lemma {:induction false} ZeroPrefixedTable(table: seq<byte>, ds: seq<Descriptor>, pad: seq<bool>)
    requires BytesBitsLsb(table) == TableBits(ds, 0) + pad
    ensures BytesBitsLsb(Repeat<byte>(0, 12) + table) == HeaderBits(0, 0, ds) + pad
  {
    var t := TableBits(ds, 0);
    BytesBitsLsbAppend(Repeat<byte>(0, 12), table);
    ZeroBytesBits(12);
    ZeroBitsMsb(32);
    ZeroBitsMsb(64);
    assert Zeros(32) + Zeros(64) == Zeros(96);
    AppendAssoc(Zeros(96), t, pad);
  }

  /** The bits a `BitIterator` of budget `usize::MAX` yields over the input of `decode_test`. */
  lemma {:induction false} DecodeTestBits(bytes: seq<byte>)
    requires bytes == Repeat<byte>(0, 12) + TestTableBytes()
    ensures Take(BytesBitsLsb(bytes), USIZE_MAX) == HeaderBits(0, 0, TestDescriptors()) + Zeros(7)
  {
    TestTableBytesBits();
    TestTable();
    ZeroPrefixedTable(TestTableBytes(), TestDescriptors(), Zeros(7));
  }

  /** `decode_test`: twelve zero bytes and the seven table bytes decode to the five descriptors. */
  method DecodeTest() returns (decoded: Option<Header>)
    ensures decoded == Some(Header(TestDescriptors(), 0, 0))
  {
    var bytes := Repeat<byte>(0, 12) + TestTableBytes();
    var it := new BitIterator(bytes, USIZE_MAX);
    DecodeTestBits(bytes);
    TestTreeLeaves();
    TreeChained(TestTree());
    ReadHeaderBits(0, 0, TestDescriptors(), Zeros(7));
    decoded := Decode(it);
  }

  /** `decode_encoded_test`: the encoded test header, packed and read back, gives the five descriptors. */
  method DecodeEncodedTest() returns (decoded: Option<Header>)
    ensures decoded == Some(Header(TestDescriptors(), 30, 2))
  {
    TestTreeLeaves();
    var encoded;
    ghost var freqKeys;
    encoded, decoded, freqKeys := HeaderRoundTrip(TestTree(), TestFrequencies(), 2);
    TestWeight(freqKeys);
    TestTable();
    assert encoded.Ok? && |encoded.value| == 96 + 49;
  }
}
