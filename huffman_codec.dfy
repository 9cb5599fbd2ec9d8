/**
 * The Huffman coder of the `burrows-wheeler` crate around its header:
 * `encode` counts the input, builds the codes and writes the header
 * followed by every input byte's code, packed into bytes; `decode` reads
 * the header from the same bit stream, cuts the stream to `bit_size` bits
 * and hands them to a `DecoderIterator`, which turns them back into bytes
 * by shortest-prefix lookup.
 */
module HuffmanCodec {
  import opened Common
  import opened Sorting
  import opened HuffmanTree
  import opened BitStream
  import opened HuffmanHeader

  // ---------------------------------------------------------------------
  // The payload: each input byte's code, in input order.
  // ---------------------------------------------------------------------

  /** Every byte of `input` has a code. */
  ghost predicate Coded(codes: map<byte, seq<bool>>, input: seq<byte>)
  {
    forall i :: 0 <= i < |input| ==> input[i] in codes
  }

  /** The bits `EncodingIterator` yields, flattened: the codes of the input bytes one after another. */
  function PayloadBits(codes: map<byte, seq<bool>>, input: seq<byte>): (r: seq<bool>)
    requires Coded(codes, input)
  {
    if input == [] then [] else codes[input[0]] + PayloadBits(codes, input[1..])
  }

  /** The payload of a concatenation is the concatenation of the payloads. */
  lemma {:induction false} PayloadAppend(codes: map<byte, seq<bool>>, a: seq<byte>, b: seq<byte>)
    requires Coded(codes, a) && Coded(codes, b)
    ensures Coded(codes, a + b)
    ensures PayloadBits(codes, a + b) == PayloadBits(codes, a) + PayloadBits(codes, b)
    decreases |a|
  {
    assert forall i :: 0 <= i < |a + b| ==> (a + b)[i] == if i < |a| then a[i] else b[i - |a|];
    if a == [] {
      assert a + b == b;
    } else {
      assert (a + b)[1..] == a[1..] + b;
      PayloadAppend(codes, a[1..], b);
      AppendAssoc(codes[a[0]], PayloadBits(codes, a[1..]), PayloadBits(codes, b));
    }
  }

  lemma {:induction false} FlattenCons(chunk: seq<bool>, chunks: seq<seq<bool>>)
    ensures Flatten([chunk] + chunks) == chunk + Flatten(chunks)
  {
    assert ([chunk] + chunks)[1..] == chunks;
  }

  lemma {:induction false} FlattenSnoc(chunks: seq<seq<bool>>, chunk: seq<bool>)
    ensures Flatten(chunks + [chunk]) == Flatten(chunks) + chunk
    decreases |chunks|
  {
    if chunks == [] {
      assert chunks + [chunk] == [chunk];
      FlattenCons(chunk, []);
    } else {
      assert (chunks + [chunk])[1..] == chunks[1..] + [chunk];
      FlattenSnoc(chunks[1..], chunk);
      AppendAssoc(chunks[0], Flatten(chunks[1..]), chunk);
    }
  }

  // ---------------------------------------------------------------------
  // `EncodingIterator`: one code per input byte.
  // ---------------------------------------------------------------------

  class EncodingIterator {
    /** The input bytes not read yet. */
    var input: seq<byte>
    const codes: map<byte, seq<bool>>

    constructor (input: seq<byte>, codes: map<byte, seq<bool>>)
      ensures this.input == input && this.codes == codes
    {
      this.input, this.codes := input, codes;
    }

    /**
     * The code of the next input byte, `None` at the end of the input, and
     * `Err` for the `panic!` on a byte that has no code.
     */
    method Next() returns (r: Result<Option<seq<bool>>>)
      modifies this
      ensures old(input) == [] ==> r == Ok(None) && input == []
      ensures old(input) != [] ==> input == old(input)[1..]
      ensures old(input) != [] && old(input)[0] !in codes ==> r.Err?
      ensures old(input) != [] && old(input)[0] in codes ==> r == Ok(Some(codes[old(input)[0]]))
    {
      if input == [] {
        return Ok(None);
      }
      var byte := input[0];
      input := input[1..];
      if byte !in codes {
        return Err("Data changed invalidating header: unexpected letter");
      }
      r := Ok(Some(codes[byte]));
    }

    /** Every code the iterator yields, or `Err` if it reaches a byte without one. */
    method Collect() returns (r: Result<seq<seq<bool>>>)
      modifies this
      ensures r.Ok? <==> Coded(codes, old(input))
      ensures r.Ok? ==> |r.value| == |old(input)| && Flatten(r.value) == PayloadBits(codes, old(input))
    {
      var chunks: seq<seq<bool>> := [];
      ghost var done: seq<byte> := [];
      while true
        invariant done + input == old(input)
        invariant Coded(codes, done) && |chunks| == |done| && Flatten(chunks) == PayloadBits(codes, done)
        decreases |input|
      {
        ghost var rest := input;
        var next := Next();
        if next.Err? {
          assert old(input)[|done|] == rest[0] && rest[0] !in codes;
          return Err(next.msg);
        }
        if next.value.None? {
          assert done == old(input);
          return Ok(chunks);
        }
        assert rest == [rest[0]] + input;
        AppendAssoc(done, [rest[0]], input);
        PayloadAppend(codes, done, [rest[0]]);
        assert [rest[0]][1..] == [];
        AppendEmpty(codes[rest[0]]);
        FlattenSnoc(chunks, next.value.value);
        chunks := chunks + [next.value.value];
        done := done + [rest[0]];
      }
    }
  }

  /**
   * `encoded_iterator`: the payload alone, packed by `ByteIterator`; `Err`
   * where `EncodingIterator` panics.
   */
  method EncodedIterator(input: seq<byte>, codes: map<byte, seq<bool>>) returns (r: Result<seq<byte>>)
    ensures r.Ok? <==> Coded(codes, input)
    ensures r.Ok? ==> r.value == PackLsb(PayloadBits(codes, input))
  {
    var encoder := new EncodingIterator(input, codes);
    var chunks := encoder.Collect();
    if chunks.Err? {
      return Err(chunks.msg);
    }
    var packer := new ByteIterator(chunks.value);
    var bytes := packer.Collect();
    r := Ok(bytes);
  }

  /**
   * `iter`: the header, then the payload, as one bit stream packed into
   * bytes. It fails where `Header::encode` or `EncodingIterator` panics.
   */
  method Iter(freq: map<byte, nat>, input: seq<byte>, codes: map<byte, seq<bool>>, initial: u32)
    returns (r: Result<seq<byte>>, ghost freqKeys: seq<byte>, ghost codeKeys: seq<byte>)
    ensures KeyOrderOf(freqKeys, freq.Keys) && KeyOrderOf(codeKeys, codes.Keys)
    ensures r.Ok? <==> Fits(freqKeys, freq, codes) && NonEmptyCodes(codes) && Coded(codes, input)
    ensures r.Ok? ==> r.value == PackLsb(HeaderBits(initial, Weight(freqKeys, freq, codes),
                                                   Sort(EntryOrder(), Table(codes, codeKeys)))
                                         + PayloadBits(codes, input))
  {
    var header;
    header, freqKeys, codeKeys := HuffmanHeader.Encode(freq, codes, initial);
    if header.Err? {
      r := Err(header.msg);
      return;
    }
    var encoder := new EncodingIterator(input, codes);
    var chunks := encoder.Collect();
    if chunks.Err? {
      r := Err(chunks.msg);
      return;
    }
    FlattenCons(header.value, chunks.value);
    var packer := new ByteIterator([header.value] + chunks.value);
    var bytes := packer.Collect();
    r := Ok(bytes);
  }

  // ---------------------------------------------------------------------
  // The payload length is the header's `bit_size`.
  // ---------------------------------------------------------------------

  /** `Σ m[k]·|codes[k]|` over `keys`: the weight of a multiset of letters. */
  function CountWeight(keys: seq<byte>, m: multiset<byte>, codes: map<byte, seq<bool>>): nat
    requires Elems(keys) <= codes.Keys
    decreases |keys|
  {
    if keys == [] then 0
    else
      var k := keys[|keys| - 1];
      assert Elems(keys[..|keys| - 1]) <= Elems(keys);
      CountWeight(keys[..|keys| - 1], m, codes) + m[k] * |codes[k]|
  }

  lemma {:induction false} WeightIsCountWeight(keys: seq<byte>, freq: map<byte, nat>, codes: map<byte, seq<bool>>, m: multiset<byte>)
    requires Elems(keys) <= freq.Keys && Elems(keys) <= codes.Keys
    requires forall k :: k in freq ==> freq[k] == m[k]
    ensures Weight(keys, freq, codes) == CountWeight(keys, m, codes)
    decreases |keys|
  {
    if keys != [] {
      var init := keys[..|keys| - 1];
      assert Elems(init) <= Elems(keys);
      WeightIsCountWeight(init, freq, codes, m);
      assert keys[|keys| - 1] in Elems(keys);
    }
  }

  /** A letter outside `keys` adds nothing. */
  lemma {:induction false} CountWeightOutside(keys: seq<byte>, m: multiset<byte>, x: byte, codes: map<byte, seq<bool>>)
    requires Elems(keys) <= codes.Keys && x !in Elems(keys)
    ensures CountWeight(keys, m + multiset{x}, codes) == CountWeight(keys, m, codes)
    decreases |keys|
  {
    if keys != [] {
      var init := keys[..|keys| - 1];
      assert Elems(init) <= Elems(keys);
      CountWeightOutside(init, m, x, codes);
      assert keys[|keys| - 1] in Elems(keys);
    }
  }

  /** One more occurrence of a key adds its code length once. */
  lemma {:induction false} CountWeightAdd(keys: seq<byte>, m: multiset<byte>, x: byte, codes: map<byte, seq<bool>>)
    requires Elems(keys) <= codes.Keys && NoDup(keys) && x in Elems(keys)
    ensures CountWeight(keys, m + multiset{x}, codes) == CountWeight(keys, m, codes) + |codes[x]|
    decreases |keys|
  {
    var init, k := keys[..|keys| - 1], keys[|keys| - 1];
    assert Elems(init) <= Elems(keys);
    var m1 := m + multiset{x};
    if k == x {
      assert forall i :: 0 <= i < |init| ==> init[i] == keys[i] != x;
      assert x !in Elems(init);
      CountWeightOutside(init, m, x, codes);
      assert m1[k] * |codes[k]| == m[k] * |codes[k]| + |codes[x]|;
    } else {
      assert x in Elems(init) by {
        var i :| 0 <= i < |keys| && keys[i] == x;
        assert i < |keys| - 1 && init[i] == x;
      }
      assert NoDup(init);
      CountWeightAdd(init, m, x, codes);
      assert m1[k] == m[k];
    }
  }

  lemma {:induction false} PayloadCountWeight(codes: map<byte, seq<bool>>, input: seq<byte>, keys: seq<byte>)
    requires NoDup(keys) && Elems(input) <= Elems(keys) && Elems(keys) <= codes.Keys
    ensures Coded(codes, input)
    ensures |PayloadBits(codes, input)| == CountWeight(keys, multiset(input), codes)
    decreases |input|
  {
    assert forall i :: 0 <= i < |input| ==> input[i] in Elems(input);
    if input == [] {
      CountWeightZero(keys, codes);
    } else {
      var x, rest := input[0], input[1..];
      assert input == [x] + rest;
      assert Elems(rest) <= Elems(input);
      PayloadCountWeight(codes, rest, keys);
      assert multiset(input) == multiset(rest) + multiset{x};
      CountWeightAdd(keys, multiset(rest), x, codes);
    }
  }

  lemma {:induction false} CountWeightZero(keys: seq<byte>, codes: map<byte, seq<bool>>)
    requires Elems(keys) <= codes.Keys
    ensures CountWeight(keys, multiset{}, codes) == 0
    decreases |keys|
  {
    if keys != [] {
      assert Elems(keys[..|keys| - 1]) <= Elems(keys);
      CountWeightZero(keys[..|keys| - 1], codes);
    }
  }

  /**
   * With the frequencies `count_frequency` gives, the header's `bit_size`
   * is the length of the payload, whatever the order the map is walked in.
   */
  lemma {:induction false} PayloadWeight(codes: map<byte, seq<bool>>, input: seq<byte>, freq: map<byte, nat>, keys: seq<byte>)
    requires freq.Keys == Elems(input) && forall b :: b in freq ==> freq[b] == multiset(input)[b]
    requires KeyOrderOf(keys, freq.Keys) && Elems(input) <= codes.Keys
    ensures Coded(codes, input)
    ensures |PayloadBits(codes, input)| == Weight(keys, freq, codes)
  {
    PayloadCountWeight(codes, input, keys);
    WeightIsCountWeight(keys, freq, codes, multiset(input));
  }

  /** No payload is longer than the input times the longest code. */
  lemma {:induction false} PayloadBound(codes: map<byte, seq<bool>>, input: seq<byte>, longest: nat)
    requires Coded(codes, input) && forall x :: x in codes ==> |codes[x]| <= longest
    ensures |PayloadBits(codes, input)| <= |input| * longest
    decreases |input|
  {
    if input != [] {
      PayloadBound(codes, input[1..], longest);
      assert |input| * longest == longest + |input[1..]| * longest;
    }
  }

  // ---------------------------------------------------------------------
  // Decoding: the code map and what one `next` reads.
  // ---------------------------------------------------------------------

  /** The `HashMap<BitVec, u8>` collected from the descriptors: for a repeated code the later letter wins. */
  function CodeTable(ds: seq<Descriptor>): map<seq<bool>, byte>
    decreases |ds|
  {
    if ds == [] then map[] else CodeTable(ds[..|ds| - 1])[ds[|ds| - 1].code := ds[|ds| - 1].letter]
  }

  /** The table's keys are exactly the descriptors' codes. */
  lemma {:induction false} CodeTableKeys(ds: seq<Descriptor>)
    ensures CodeTable(ds).Keys == set i | 0 <= i < |ds| :: ds[i].code
    decreases |ds|
  {
    if ds != [] {
      var init := ds[..|ds| - 1];
      CodeTableKeys(init);
      assert forall i :: 0 <= i < |init| ==> init[i] == ds[i];
    }
  }

  /** A code that no later descriptor repeats maps to its own letter. */
  lemma {:induction false} CodeTableLookup(ds: seq<Descriptor>, i: nat)
    requires i < |ds| && forall j :: i < j < |ds| ==> ds[j].code != ds[i].code
    ensures ds[i].code in CodeTable(ds) && CodeTable(ds)[ds[i].code] == ds[i].letter
    decreases |ds|
  {
    if i < |ds| - 1 {
      var init := ds[..|ds| - 1];
      assert init[i] == ds[i];
      CodeTableLookup(init, i);
    }
  }

  /**
   * The least `j >= k` such that the first `j` bits are a key of the
   * table: where the accumulated `current` of `next` first matches.
   */
  function FirstMatch(table: map<seq<bool>, byte>, bits: seq<bool>, k: nat): (r: Option<nat>)
    requires 1 <= k <= |bits| + 1
    ensures r.Some? ==> k <= r.value <= |bits| && bits[..r.value] in table
    ensures r.Some? ==> forall j :: k <= j < r.value ==> bits[..j] !in table
    ensures r.None? ==> forall j :: k <= j <= |bits| ==> bits[..j] !in table
    decreases |bits| + 1 - k
  {
    if k > |bits| then None
    else if bits[..k] in table then Some(k)
    else FirstMatch(table, bits, k + 1)
  }

  /** The least matching prefix is the one `FirstMatch` finds. */
  lemma FirstMatchLeast(table: map<seq<bool>, byte>, bits: seq<bool>, j: nat)
    requires 1 <= j <= |bits| && bits[..j] in table
    requires forall i :: 1 <= i < j ==> bits[..i] !in table
    ensures FirstMatch(table, bits, 1) == Some(j)
  {
  }

  /**
   * One `DecoderIterator::next` on the remaining bits: `None` when none are
   * left, the letter of the shortest prefix that is a code, or
   * "Unexpected code word" after reading all the bits without a match.
   * The second component is what remains to be read.
   */
  function DecodeStep(table: map<seq<bool>, byte>, bits: seq<bool>): (r: Option<(Result<byte>, seq<bool>)>)
    ensures r.None? <==> bits == []
    ensures r.Some? ==> |r.value.1| < |bits| && r.value.1 == bits[|bits| - |r.value.1|..]
    ensures r.Some? && r.value.0.Ok? ==>
              bits[..|bits| - |r.value.1|] in table && table[bits[..|bits| - |r.value.1|]] == r.value.0.value
    ensures r.Some? && r.value.0.Err? ==> r.value.1 == [] && forall j :: 1 <= j <= |bits| ==> bits[..j] !in table
  {
    if bits == [] then None
    else
      match FirstMatch(table, bits, 1)
      case None => Some((Err("Unexpected code word"), []))
      case Some(j) => Some((Ok(table[bits[..j]]), bits[j..]))
  }

  /** `Ok(x)` put before a collected result; an error stays the error. */
  function PrependResult(x: byte, r: Result<seq<byte>>): Result<seq<byte>>
  {
    match r
    case Ok(xs) => Ok([x] + xs)
    case Err(m) => Err(m)
  }

  /** Everything before a collected result; an error stays the error. */
  function Collected(xs: seq<byte>, r: Result<seq<byte>>): Result<seq<byte>>
  {
    match r
    case Ok(ys) => Ok(xs + ys)
    case Err(m) => Err(m)
  }

  /** `collect::<Result<Vec<u8>>>()` of the decoder: the letters up to the end, or the first error. */
  function DecodeAll(table: map<seq<bool>, byte>, bits: seq<bool>): Result<seq<byte>>
    decreases |bits|
  {
    match DecodeStep(table, bits)
    case None => Ok([])
    case Some((Err(m), _)) => Err(m)
    case Some((Ok(x), rest)) => PrependResult(x, DecodeAll(table, rest))
  }

  /**
   * The table decodes the code map: every code is non-empty, maps back to
   * its letter, and no shorter prefix of it is a key.
   */
  ghost predicate Decodes(table: map<seq<bool>, byte>, codes: map<byte, seq<bool>>)
  {
    forall x :: x in codes ==>
      |codes[x]| >= 1 && codes[x] in table && table[codes[x]] == x &&
      forall j :: 1 <= j < |codes[x]| ==> codes[x][..j] !in table
  }

  /** A code followed by anything is read back as its letter. */
  lemma {:induction false} DecodeStepCode(table: map<seq<bool>, byte>, codes: map<byte, seq<bool>>, x: byte, rest: seq<bool>)
    requires Decodes(table, codes) && x in codes
    ensures DecodeStep(table, codes[x] + rest) == Some((Ok(x), rest))
  {
    var c, bits := codes[x], codes[x] + rest;
    assert bits[..|c|] == c;
    forall i | 1 <= i < |c| ensures bits[..i] !in table {
      assert bits[..i] == c[..i];
    }
    FirstMatchLeast(table, bits, |c|);
    assert bits[|c|..] == rest;
  }

  /** Decoding the payload of a decodable code map gives the input back. */
  lemma {:induction false} DecodePayload(table: map<seq<bool>, byte>, codes: map<byte, seq<bool>>, input: seq<byte>)
    requires Decodes(table, codes) && Coded(codes, input)
    ensures DecodeAll(table, PayloadBits(codes, input)) == Ok(input)
    decreases |input|
  {
    if input != [] {
      var rest := PayloadBits(codes, input[1..]);
      assert PayloadBits(codes, input) == codes[input[0]] + rest;
      DecodeStepCode(table, codes, input[0], rest);
      DecodePayload(table, codes, input[1..]);
      assert DecodeAll(table, PayloadBits(codes, input)) == PrependResult(input[0], DecodeAll(table, rest));
      assert [input[0]] + input[1..] == input;
    }
  }

  /** The code of one leaf is non-empty, maps back to its letter, and no shorter prefix of it is a key. */
  lemma {:induction false} LeafDecodes(root: Node, i: nat)
    requires NoDup(Letters(root)) && root.Inner? && i < |LeafList(root, [])|
    ensures var ds := LeafList(root, []);
      |ds[i].code| >= 1 && ds[i].code in CodeTable(ds) && CodeTable(ds)[ds[i].code] == ds[i].letter &&
      forall j :: 1 <= j < |ds[i].code| ==> ds[i].code[..j] !in CodeTable(ds)
  {
    var ds := LeafList(root, []);
    var c := ds[i].code;
    InnerCodesNonEmpty(root.left, root.right, i);
    forall j | i < j < |ds| ensures ds[j].code != c {
      LeafOrder(root, [], i, j);
      BeforeNotPrefix(c, ds[j].code);
    }
    CodeTableLookup(ds, i);
    CodeTableKeys(ds);
    forall j | 1 <= j < |c| ensures c[..j] !in CodeTable(ds) {
      forall m | 0 <= m < |ds| ensures ds[m].code != c[..j] {
        if m < i {
          LeafOrder(root, [], m, i);
          BeforeNotPrefix(ds[m].code, c);
        } else if m > i {
          LeafOrder(root, [], i, m);
          BeforeNotPrefix(c, ds[m].code);
          assert c[..j] <= c;
        }
      }
    }
  }

  /** The code map collected from a tree's leaves decodes the tree's codes. */
  lemma {:induction false} TreeDecodes(root: Node)
    requires NoDup(Letters(root)) && root.Inner?
    ensures Decodes(CodeTable(LeafList(root, [])), Codes(root))
  {
    var ds := LeafList(root, []);
    TreeCodes(root);
    forall x | x in Codes(root)
      ensures |Codes(root)[x]| >= 1 && Codes(root)[x] in CodeTable(ds) && CodeTable(ds)[Codes(root)[x]] == x
      ensures forall j :: 1 <= j < |Codes(root)[x]| ==> Codes(root)[x][..j] !in CodeTable(ds)
    {
      var i :| 0 <= i < |Letters(root)| && Letters(root)[i] == x;
      LeafDecodes(root, i);
    }
  }

  // ---------------------------------------------------------------------
  // DecoderIterator of the `decode` module.
  // ---------------------------------------------------------------------

  /** Collecting after a letter: the letter moves to the collected part. */
  lemma {:induction false} CollectedPrepend(out: seq<byte>, x: byte, r: Result<seq<byte>>)
    ensures Collected(out, PrependResult(x, r)) == Collected(out + [x], r)
  {
    if r.Ok? {
      assert out + ([x] + r.value) == (out + [x]) + r.value;
    }
  }

  /** One more bit read moves it from the remaining bits to `current`. */
  lemma PushBit(r0: seq<bool>, current: seq<bool>, rem: seq<bool>, b: bool)
    requires |current| <= |r0| && current == r0[..|current|] && rem == r0[|current|..] && rem != [] && b == rem[0]
    ensures |current| + 1 <= |r0| && current + [b] == r0[..|current| + 1] && rem[1..] == r0[|current| + 1..]
  {
  }

  lemma {:induction false} CollectedNothing(r: Result<seq<byte>>)
    ensures Collected([], r) == r
  {
    if r.Ok? {
      assert [] + r.value == r.value;
    }
  }

  class DecoderIterator {
    const codes: map<seq<bool>, byte>
    const bits: BitIterator

    /** `DecoderIterator::new`: the code map and the bit stream positioned at the payload. */
    constructor (codes: map<seq<bool>, byte>, bits: BitIterator)
      ensures this.codes == codes && this.bits == bits
    {
      this.codes := codes;
      this.bits := bits;
    }

    /**
     * `next`: push bits onto `current` until it is a key of the code map.
     * The result and the bits left are one `DecodeStep` of the bits that
     * remained. The bits come from the bit iterator's `next` as written,
     * whose stale prefetched byte never shows within the budget.
     */
    method Next() returns (r: Option<Result<byte>>)
      requires bits.Valid()
      modifies bits
      ensures bits.Valid()
      ensures r.None? <==> old(bits.Remaining()) == []
      ensures r.Some? ==> DecodeStep(codes, old(bits.Remaining())) == Some((r.value, bits.Remaining()))
    {
      var current: seq<bool> := [];
      var ended := true;
      ghost var r0 := bits.Remaining();
      while true
        invariant bits.Valid()
        invariant |current| <= |r0| && current == r0[..|current|] && bits.Remaining() == r0[|current|..]
        invariant ended <==> current == []
        invariant forall j :: 1 <= j <= |current| ==> r0[..j] !in codes
        decreases |bits.Remaining()|
      {
        ghost var before := bits.Remaining();
        var bit := bits.NextAsWritten();
        if bit.None? {
          if ended {
            return None;
          }
          assert current == r0;
          return Some(Err("Unexpected code word"));
        }
        ended := false;
        PushBit(r0, current, before, bit.value);
        current := current + [bit.value];
        if current in codes {
          FirstMatchLeast(codes, r0, |current|);
          return Some(Ok(codes[current]));
        }
      }
    }

    /** `map(|x| x.unwrap()).collect()` over the decoder: every letter, or the first error. */
    method Collect() returns (r: Result<seq<byte>>)
      requires bits.Valid()
      modifies bits
      ensures bits.Valid()
      ensures r == DecodeAll(codes, old(bits.Remaining()))
    {
      var out: seq<byte> := [];
      CollectedNothing(DecodeAll(codes, bits.Remaining()));
      while true
        invariant bits.Valid()
        invariant DecodeAll(codes, old(bits.Remaining())) == Collected(out, DecodeAll(codes, bits.Remaining()))
        decreases |bits.Remaining()|
      {
        var x := Next();
        match x {
          case None =>
            assert out + [] == out;
            return Ok(out);
          case Some(Err(m)) =>
            return Err(m);
          case Some(Ok(b)) =>
            CollectedPrepend(out, b, DecodeAll(codes, bits.Remaining()));
            out := out + [b];
        }
      }
    }
  }

  /** The header at the front of the bytes, read with an unlimited budget, and the bits after it. */
  function HeaderOf(input: seq<byte>): Option<(Header, seq<bool>)>
  {
    ReadHeader(Take(BytesBitsLsb(input), USIZE_MAX))
  }

  /** All the bits after the header, up to the end of the bytes. */
  function PayloadOf(input: seq<byte>): seq<bool>
    requires HeaderOf(input).Some?
  {
    var whole := BytesBitsLsb(input);
    var start := |Take(whole, USIZE_MAX)| - |HeaderOf(input).value.1|;
    if start <= |whole| then whole[start..] else []
  }

  /** Where the header read from the whole input ends, the payload starts. */
  lemma PayloadPosition(input: seq<byte>, r0: seq<bool>, h: Header, rest: seq<bool>)
    requires r0 == Take(BytesBitsLsb(input), USIZE_MAX) && ReadHeader(r0) == Some((h, rest)) && |rest| <= |r0|
    ensures HeaderOf(input) == Some((h, rest))
    ensures PayloadOf(input) == BytesBitsLsb(input)[|r0| - |rest|..]
  {
  }

  /** `initial` is read from 32 bits, so it fits its `u32`. */
  lemma {:induction false} HeaderInitial(bits: seq<bool>)
    requires ReadHeader(bits).Some?
    ensures ReadHeader(bits).value.0.initial < 0x1_0000_0000
  {
    Pow2ThirtyTwo();
    assert ReadHeader(bits).value.0.initial == FromBitsMsb(bits[..32]);
  }

  /**
   * `decode`: read the header from a budget-free bit stream, set the budget
   * to the header's `bit_size`, and hand the rest of the same stream to a
   * decoder over the collected code map, together with `initial`. The
   * `Option<Result<..>>` of the source is never `Err`, so the result here is
   * an `Option`.
   */
  method Decode(input: seq<byte>) returns (r: Option<(DecoderIterator, u32)>)
    ensures r.None? <==> HeaderOf(input).None?
    ensures r.Some? ==> fresh(r.value.0) && fresh(r.value.0.bits) && r.value.0.bits.Valid()
    ensures r.Some? ==> r.value.0.codes == CodeTable(HeaderOf(input).value.0.descriptors)
    ensures r.Some? ==> r.value.1 == HeaderOf(input).value.0.initial
    ensures r.Some? ==> r.value.0.bits.Remaining() == Take(PayloadOf(input), HeaderOf(input).value.0.bitSize)
  {
    var it := new BitIterator(input, USIZE_MAX);
    ghost var whole, r0 := it.Visible(), it.Remaining();
    assert whole == BytesBitsLsb(input) && r0 == Take(whole, USIZE_MAX);
    var header := HuffmanHeader.Decode(it);
    if header.None? {
      return None;
    }
    ghost var v, rest := it.Visible(), it.Remaining();
    assert v == whole[|r0| - |rest|..];
    it.SetBitSize(header.value.bitSize);
    assert it.Remaining() == Take(whole[|r0| - |rest|..], header.value.bitSize);
    PayloadPosition(input, r0, header.value, rest);
    HeaderInitial(r0);
    var iter := new DecoderIterator(CodeTable(header.value.descriptors), it);
    r := Some((iter, header.value.initial));
  }

  // ---------------------------------------------------------------------
  // DecoderIterator of the `decode/iterator` module.
  // ---------------------------------------------------------------------

  /**
   * The decoder of the `decode/iterator` module: the same `next` over the
   * Result-typed bit stream it builds itself from the bytes and a budget,
   * passing a bit-stream error through.
   */
  class StreamDecoderIterator {
    const codes: map<seq<bool>, byte>
    const bits: BitIterator

    /** `DecoderIterator::new(codes, input_iter, bit_size)`. */
    constructor (codes: map<seq<bool>, byte>, input: seq<byte>, bitSize: nat)
      ensures this.codes == codes && fresh(bits) && bits.Valid()
      ensures bits.Remaining() == Take(BytesBitsLsb(input), bitSize)
    {
      this.codes := codes;
      bits := new BitIterator(input, bitSize);
    }

    method Next() returns (r: Option<Result<byte>>)
      requires bits.Valid()
      modifies bits
      ensures bits.Valid()
      ensures r.None? <==> old(bits.Remaining()) == []
      ensures r.Some? ==> DecodeStep(codes, old(bits.Remaining())) == Some((r.value, bits.Remaining()))
    {
      var current: seq<bool> := [];
      var ended := true;
      ghost var r0 := bits.Remaining();
      while true
        invariant bits.Valid()
        invariant |current| <= |r0| && current == r0[..|current|] && bits.Remaining() == r0[|current|..]
        invariant ended <==> current == []
        invariant forall j :: 1 <= j <= |current| ==> r0[..j] !in codes
        decreases |bits.Remaining()|
      {
        ghost var before := bits.Remaining();
        var bit := bits.NextResult();
        if bit.None? {
          if ended {
            return None;
          }
          assert current == r0;
          return Some(Err("Unexpected code word"));
        }
        var b;
        match bit.value {
          case Err(m) =>
            // The bit stream never yields an error.
            assert false;
            return Some(Err(m));
          case Ok(x) =>
            b := x;
        }
        ended := false;
        PushBit(r0, current, before, b);
        current := current + [b];
        if current in codes {
          FirstMatchLeast(codes, r0, |current|);
          return Some(Ok(codes[current]));
        }
      }
    }
  }

  // ---------------------------------------------------------------------
  // `encode`, and `decode` after it.
  // ---------------------------------------------------------------------

  /** No code of a tree is longer than its number of leaves less one. */
  lemma {:induction false} LeafListCodeLength(node: Node, prefix: seq<bool>, i: nat)
    requires i < |LeafList(node, prefix)|
    ensures |LeafList(node, prefix)[i].code| <= |prefix| + |Letters(node)| - 1
    decreases node
  {
    match node
    case Leaf(_) =>
    case Inner(l, r) =>
      var nl := |LeafList(l, prefix + [false])|;
      assert LeafList(node, prefix) == LeafList(l, prefix + [false]) + LeafList(r, prefix + [true]);
      if i < nl {
        LeafListCodeLength(l, prefix + [false], i);
      } else {
        LeafListCodeLength(r, prefix + [true], i - nl);
      }
  }

  lemma {:induction false} ElemsCard<T>(s: seq<T>)
    ensures |Elems(s)| <= |s|
    decreases |s|
  {
    if s != [] {
      var init := s[..|s| - 1];
      ElemsCard(init);
      assert Elems(s) == Elems(init) + {s[|s| - 1]};
    }
  }

  /** Every code of a tree with distinct letters is shorter than the number of letters. */
  lemma {:induction false} TreeCodeLength(root: Node)
    requires NoDup(Letters(root))
    ensures forall x :: x in Codes(root) ==> |Codes(root)[x]| <= |Letters(root)| - 1
  {
    TreeCodes(root);
    forall x | x in Codes(root) ensures |Codes(root)[x]| <= |Letters(root)| - 1 {
      var i :| 0 <= i < |Letters(root)| && Letters(root)[i] == x;
      LeafListCodeLength(root, [], i);
    }
  }

  lemma MulSucc(k: nat, w: nat)
    ensures (k + 1) * w == w + k * w
  {
  }

  lemma MulLe(a: nat, b: nat, c: nat)
    requires a <= b
    ensures c * a <= c * b
  {
  }

  /** Fewer than 2^32 bytes, each coded in no more bits than there are bytes, fit a `usize` bit count. */
  lemma {:induction false} PayloadFits(n: nat, longest: nat, size: nat)
    requires n < 0x1_0000_0000 && longest <= n && size <= n * longest
    ensures size <= USIZE_MAX
  {
    var m := 0xFFFF_FFFF;
    MulLe(longest, n, n);
    MulLe(n, m, n);
    MulLe(n, m, m);
    assert n * m == m * n;
    assert m * m <= USIZE_MAX;
  }

  /** A leaf has one letter. */
  lemma {:induction false} LeafLetters(root: Node)
    ensures root.Leaf? ==> |Elems(Letters(root))| == 1
  {
    if root.Leaf? {
      assert Elems(Letters(root)) == {root.letter};
    }
  }

  /** An input with one distinct byte is made of its first byte. */
  lemma {:induction false} OneLetter(input: seq<byte>)
    requires |Elems(input)| == 1
    ensures input != [] && Elems(input) == {input[0]}
  {
    var x :| x in Elems(input);
    assert |Elems(input) - {x}| == 0;
    assert Elems(input) - {x} == {};
    assert Elems(input) == {x};
    assert input[0] in Elems(input);
  }

  /** The only key order of no keys is empty. */
  lemma {:induction false} NoKeys(keys: seq<byte>)
    requires KeyOrderOf(keys, {})
    ensures keys == []
  {
    NoDupCard(keys);
  }

  /** `encode` of the empty input: an empty table, a zero bit count and no payload. */
  lemma {:induction false} EncodeEmpty(freq: map<byte, nat>, codes: map<byte, seq<bool>>, freqKeys: seq<byte>, codeKeys: seq<byte>,
                    initial: u32, r: Result<seq<byte>>)
    requires freq == map[] && codes == map[] && KeyOrderOf(freqKeys, freq.Keys) && KeyOrderOf(codeKeys, codes.Keys)
    requires r.Ok? <==> Fits(freqKeys, freq, codes) && NonEmptyCodes(codes) && Coded(codes, [])
    requires r.Ok? ==> r.value == PackLsb(HeaderBits(initial, Weight(freqKeys, freq, codes),
                                                     Sort(EntryOrder(), Table(codes, codeKeys)))
                                          + PayloadBits(codes, []))
    ensures r == Ok(PackLsb(HeaderBits(initial, 0, [])))
  {
    NoKeys(codeKeys);
    NoKeys(freqKeys);
    assert Table(codes, codeKeys) == [];
    assert HeaderBits(initial, 0, []) + [] == HeaderBits(initial, 0, []);
  }

  /** `encode` of an input with two or more distinct bytes: the header of the Huffman tree, then the payload. */
  lemma {:induction false} EncodeMany(input: seq<byte>, freq: map<byte, nat>, letters: seq<byte>, codes: map<byte, seq<bool>>,
                   freqKeys: seq<byte>, codeKeys: seq<byte>, initial: u32, r: Result<seq<byte>>)
    requires |Elems(input)| >= 2
    requires freq.Keys == Elems(input) && forall b :: b in freq ==> freq[b] == multiset(input)[b]
    requires KeyOrderOf(letters, freq.Keys) && letters != []
    requires codes == Codes(BuildTree(InitialQueue(freq, letters)))
    requires KeyOrderOf(freqKeys, freq.Keys) && KeyOrderOf(codeKeys, codes.Keys)
    requires r.Ok? <==> Fits(freqKeys, freq, codes) && NonEmptyCodes(codes) && Coded(codes, input)
    requires r.Ok? ==> r.value == PackLsb(HeaderBits(initial, Weight(freqKeys, freq, codes),
                                                     Sort(EntryOrder(), Table(codes, codeKeys)))
                                          + PayloadBits(codes, input))
    ensures var root := BuildTree(InitialQueue(freq, letters));
      NoDup(Letters(root)) && root.Inner? && Elems(Letters(root)) == Elems(input) && Coded(codes, input) &&
      (r.Ok? <==> |PayloadBits(codes, input)| <= USIZE_MAX) &&
      (r.Ok? ==> r.value == PackLsb(HeaderBits(initial, |PayloadBits(codes, input)|, LeafList(root, []))
                                    + PayloadBits(codes, input)))
  {
    var root := BuildTree(InitialQueue(freq, letters));
    HuffmanLetters(freq, letters);
    HuffmanCodes(freq, letters);
    LeafLetters(root);
    TreeCodesNonEmpty(root);
    PayloadWeight(codes, input, freq, freqKeys);
    SortedTable(root, codeKeys);
  }

  /**
   * `encode`: count the frequencies, build the codes, and emit the header
   * and the payload. `root` is the Huffman tree `build_codes` builds.
   */
  method EncodeInput(input: seq<byte>, initial: u32) returns (r: Result<seq<byte>>, ghost root: Node)
    ensures input == [] ==> r == Ok(PackLsb(HeaderBits(initial, 0, [])))
    ensures |Elems(input)| == 1 ==> r.Err?
    ensures |Elems(input)| >= 2 ==>
              NoDup(Letters(root)) && root.Inner? && Elems(Letters(root)) == Elems(input) && Coded(Codes(root), input)
    ensures |Elems(input)| >= 2 ==> (r.Ok? <==> |PayloadBits(Codes(root), input)| <= USIZE_MAX)
    ensures |Elems(input)| >= 2 && r.Ok? ==>
              r.value == PackLsb(HeaderBits(initial, |PayloadBits(Codes(root), input)|, LeafList(root, []))
                                 + PayloadBits(Codes(root), input))
  {
    var freq := CountFrequency(input);
    var codes;
    ghost var letters;
    codes, letters := BuildCodes(freq);
    ghost var freqKeys, codeKeys;
    r, freqKeys, codeKeys := Iter(freq, input, codes, initial);
    root := Leaf(0);
    if input == [] {
      EncodeEmpty(freq, codes, freqKeys, codeKeys, initial, r);
    } else if |Elems(input)| == 1 {
      OneLetter(input);
      SingleLetter(freq, letters, input[0]);
      assert codes[input[0]] == [];
    } else {
      root := BuildTree(InitialQueue(freq, letters));
      EncodeMany(input, freq, letters, codes, freqKeys, codeKeys, initial, r);
    }
  }

  /** Fewer than 2^32 input bytes always fit the header's `usize` bit count. */
  lemma {:induction false} TreePayloadFits(root: Node, input: seq<byte>)
    requires NoDup(Letters(root)) && Elems(Letters(root)) == Elems(input) && Coded(Codes(root), input)
    requires |input| < 0x1_0000_0000
    ensures |PayloadBits(Codes(root), input)| <= USIZE_MAX
  {
    TreeCodeLength(root);
    NoDupCard(Letters(root));
    ElemsCard(input);
    PayloadBound(Codes(root), input, |Letters(root)| - 1);
    PayloadFits(|input|, |Letters(root)| - 1, |PayloadBits(Codes(root), input)|);
  }

  /** The 96 bits of a header without a table end before its first entry. */
  lemma {:induction false} EmptyHeaderUnreadable(initial: u32)
    ensures HeaderOf(PackLsb(HeaderBits(initial, 0, []))).None?
  {
    var bits := HeaderBits(initial, 0, []);
    assert |bits| == 96;
    PackLsbBits(bits);
    assert Zeros(0) == [];
    assert BytesBitsLsb(PackLsb(bits)) == bits + [] == bits;
    assert bits[96..] == [];
  }

  /**
   * Bytes that pack a tree's header and payload read back as that header,
   * followed by the payload within the header's bit count.
   */
  lemma {:induction false} PackedStream(root: Node, input: seq<byte>, initial: u32, bytes: seq<byte>)
    requires NoDup(Letters(root)) && Coded(Codes(root), input)
    requires |PayloadBits(Codes(root), input)| <= USIZE_MAX
    requires bytes == PackLsb(HeaderBits(initial, |PayloadBits(Codes(root), input)|, LeafList(root, []))
                              + PayloadBits(Codes(root), input))
    requires 8 * |bytes| <= USIZE_MAX
    ensures HeaderOf(bytes).Some?
    ensures HeaderOf(bytes).value.0 == Header(LeafList(root, []), |PayloadBits(Codes(root), input)|, initial)
    ensures Take(PayloadOf(bytes), |PayloadBits(Codes(root), input)|) == PayloadBits(Codes(root), input)
  {
    var p := PayloadBits(Codes(root), input);
    var h := HeaderBits(initial, |p|, LeafList(root, []));
    var z := Zeros(8 * |bytes| - |h + p|);
    PackLsbBits(h + p);
    var whole := BytesBitsLsb(bytes);
    assert whole == (h + p) + z;
    assert Take(whole, USIZE_MAX) == whole;
    AppendAssoc(h, p, z);
    TreeChained(root);
    ReadHeaderBits(initial, |p|, LeafList(root, []), p + z);
    assert HeaderOf(bytes) == Some((Header(LeafList(root, []), |p|, initial), p + z));
    assert PayloadOf(bytes) == p + z;
    assert (p + z)[..|p|] == p;
  }

  /** Each table entry takes at most the code's length, a one and eight letter bits. */
  lemma {:induction false} TableBitsLength(ds: seq<Descriptor>, currentLen: nat, longest: nat)
    requires forall i :: 0 <= i < |ds| ==> |ds[i].code| <= longest
    ensures |TableBits(ds, currentLen)| <= |ds| * (longest + 9)
    decreases |ds|
  {
    if ds != [] {
      var tail, w := ds[1..], longest + 9;
      assert forall i :: 0 <= i < |tail| ==> tail[i] == ds[i + 1];
      TableBitsLength(tail, CurrentLen(ds[0].code), longest);
      assert |EntryBits(currentLen, ds[0])| <= w;
      MulSucc(|tail|, w);
    }
  }

  lemma {:induction false} StreamFits(n: nat, longest: nat, table: nat, payload: nat)
    requires n < 0x4000_0000 && longest <= n && table <= n * (longest + 9) && payload <= n * longest
    ensures 96 + table + payload + 8 <= USIZE_MAX
  {
    var m := 0x4000_0000;
    MulLe(longest + 9, n + 9, n);
    MulLe(longest, n, n);
    assert n * (n + 9) == n * n + 9 * n;
    MulLe(n, m, n);
    MulLe(n, m, m);
    assert n * m == m * n;
    assert m * m == 0x1000_0000_0000_0000;
  }

  /** Fewer than 2^30 input bytes give a header and payload whose bytes a `usize` bit count covers. */
  lemma {:induction false} EncodedLength(root: Node, input: seq<byte>, initial: u32)
    requires NoDup(Letters(root)) && Elems(Letters(root)) == Elems(input) && Coded(Codes(root), input)
    requires |input| < 0x4000_0000
    ensures var p := PayloadBits(Codes(root), input);
      8 * |PackLsb(HeaderBits(initial, |p|, LeafList(root, [])) + p)| <= USIZE_MAX
  {
    var p := PayloadBits(Codes(root), input);
    var ds := LeafList(root, []);
    var n, longest := |input|, |Letters(root)| - 1;
    TreeCodeLength(root);
    NoDupCard(Letters(root));
    ElemsCard(input);
    PayloadBound(Codes(root), input, longest);
    forall i | 0 <= i < |ds| ensures |ds[i].code| <= longest {
      LeafListCodeLength(root, [], i);
    }
    TableBitsLength(ds, 0, longest);
    MulLe(|ds|, n, longest + 9);
    assert |ds| * (longest + 9) == (longest + 9) * |ds| && n * (longest + 9) == (longest + 9) * n;
    StreamFits(n, longest, |TableBits(ds, 0)|, |p|);
    var bits := HeaderBits(initial, |p|, ds) + p;
    assert |bits| == 96 + |TableBits(ds, 0)| + |p|;
    assert 8 * ((|bits| + 7) / 8) <= |bits| + 7;
  }

  /**
   * `decode(encode(x))`: a single distinct byte cannot be encoded, fewer
   * than 2^32 bytes otherwise always can, the empty input encodes to a
   * header that does not decode, and every other encoding decodes to the
   * input and its `initial`.
   */
  method RoundTrip(input: seq<byte>, initial: u32)
    returns (encoded: Result<seq<byte>>, decoded: Option<(Result<seq<byte>>, u32)>)
    ensures |Elems(input)| == 1 ==> encoded.Err?
    ensures |input| < 0x1_0000_0000 && |Elems(input)| != 1 ==> encoded.Ok?
    ensures input == [] ==> decoded == None
    ensures encoded.Ok? && input != [] && 8 * |encoded.value| <= USIZE_MAX ==> decoded == Some((Ok(input), initial))
    ensures input != [] && |Elems(input)| != 1 && |input| < 0x4000_0000 ==> decoded == Some((Ok(input), initial))
  {
    ghost var root;
    encoded, root := EncodeInput(input, initial);
    decoded := None;
    if input == [] {
      EmptyHeaderUnreadable(initial);
    } else {
      assert input[0] in Elems(input);
      if |Elems(input)| != 1 && |input| < 0x1_0000_0000 {
        TreePayloadFits(root, input);
        if |input| < 0x4000_0000 {
          EncodedLength(root, input, initial);
        }
      }
    }
    if encoded.Err? {
      return;
    }
    if input != [] && 8 * |encoded.value| <= USIZE_MAX {
      PackedStream(root, input, initial, encoded.value);
      TreeDecodes(root);
      DecodePayload(CodeTable(LeafList(root, [])), Codes(root), input);
    }
    var d := Decode(encoded.value);
    if d.None? {
      return;
    }
    var letters := d.value.0.Collect();
    decoded := Some((letters, d.value.1));
  }
}
