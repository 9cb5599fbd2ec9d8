/**
 * The older `huffman` crate. Its frequency counting, tree building and code
 * assignment are those of the `burrows-wheeler` coder (module HuffmanTree),
 * and its `bit_size` loop is `HuffmanHeader.BitSize`. What differs is
 * modelled here:
 *  - the `byte_size` / `last_byte_size` arithmetic and the code descriptors
 *    of its JSON header;
 *  - a `ByteIterator` and an `EncodingIterator` over `Result` items;
 *  - a `BitIterator` that looks one byte ahead to know which byte is the
 *    last, and yields only `last_byte_size` bits of that one.
 *
 * The byte sources are fields holding what they have not yielded yet; an
 * `Err` item is an error of the underlying reader.
 */
module LegacyHuffman {
  import opened Common
  import opened Sorting
  import opened HuffmanTree
  import opened HuffmanHeader
  import opened HuffmanCodec
  import BitStream

  // ---------------------------------------------------------------------
  // Result items.
  // ---------------------------------------------------------------------

  /** Every item is `Ok`. */
  predicate AllOk<T>(xs: seq<Result<T>>)
  {
    forall i :: 0 <= i < |xs| ==> xs[i].Ok?
  }

  /** The values of the `Ok` items, in order; `Err` items contribute nothing. */
  function Values<T>(xs: seq<Result<T>>): (r: seq<T>)
    ensures AllOk(xs) ==> |r| == |xs| && forall i :: 0 <= i < |xs| ==> r[i] == xs[i].value
    decreases |xs|
  {
    if xs == [] then [] else (if xs[0].Ok? then [xs[0].value] else []) + Values(xs[1..])
  }

  /** `map(&Ok)`. */
  function Wrap<T>(xs: seq<T>): (r: seq<Result<T>>)
    ensures |r| == |xs| && AllOk(r) && Values(r) == xs
  {
    var r := seq(|xs|, i requires 0 <= i < |xs| => Ok(xs[i]));
    assert Values(r) == xs;
    r
  }

  lemma WrapSnoc<T>(xs: seq<T>, x: T)
    ensures Wrap(xs + [x]) == Wrap(xs) + [Ok(x)]
  {
  }

  // ---------------------------------------------------------------------
  // The header's sizes and code descriptors.
  // ---------------------------------------------------------------------

  /**
   * `byte_size` and `last_byte_size` of `header_iter` for `bit_size` bits:
   * the number of payload bytes, and how many bits of the last one count,
   * a full last byte counting 8, never 0.
   */
  function Sizes(bitSize: nat): (r: (nat, nat))
    ensures 1 <= r.1 <= 8
    ensures r.1 == 8 <==> bitSize % 8 == 0
    ensures bitSize <= 8 * r.0 < bitSize + 8
    ensures bitSize > 0 ==> 8 * (r.0 - 1) + r.1 == bitSize
  {
    var last := bitSize % 8;
    if last == 0 then (bitSize / 8, 8) else (bitSize / 8 + 1, last)
  }

  /** `byte_size` is the number of bytes the packed payload takes. */
  lemma SizesPacked(bits: seq<bool>)
    ensures Sizes(|bits|).0 == |PackLsb(bits)|
  {
  }

  /**
   * The `code_descriptors` loop of `header_iter`: one descriptor per entry
   * of the code map, in the map's iteration order.
   */
  method CodeDescriptors(codes: map<byte, seq<bool>>) returns (ds: seq<Descriptor>, ghost keys: seq<byte>)
    ensures KeyOrderOf(keys, codes.Keys) && |ds| == |keys|
    ensures forall i :: 0 <= i < |ds| ==> ds[i] == Descriptor(codes[keys[i]], keys[i])
  {
    var order := KeyOrder(codes);
    keys := order;
    ds := [];
    for n := 0 to |order|
      invariant |ds| == n
      invariant forall i :: 0 <= i < n ==> ds[i] == Descriptor(codes[order[i]], order[i])
    {
      assert order[n] in Elems(order);
      ds := ds + [Descriptor(codes[order[n]], order[n])];
    }
  }

  /**
   * Collected into a `HashMap` in any order, the descriptors of a
   * prefix-free map of non-empty codes decode that map.
   */
  lemma {:induction false} DescriptorsDecode(codes: map<byte, seq<bool>>, keys: seq<byte>, ds: seq<Descriptor>)
    requires KeyOrderOf(keys, codes.Keys) && |ds| == |keys|
    requires forall i :: 0 <= i < |ds| ==> ds[i] == Descriptor(codes[keys[i]], keys[i])
    requires PrefixFree(codes) && NonEmptyCodes(codes)
    ensures Decodes(CodeTable(ds), codes)
  {
    var table := CodeTable(ds);
    CodeTableKeys(ds);
    forall x | x in codes
      ensures codes[x] in table && table[codes[x]] == x
      ensures forall j :: 1 <= j < |codes[x]| ==> codes[x][..j] !in table
    {
      assert x in Elems(keys);
      var i :| 0 <= i < |keys| && keys[i] == x;
      forall m | i < m < |ds| ensures ds[m].code != ds[i].code {
        assert keys[m] != x && keys[m] in Elems(keys);
      }
      CodeTableLookup(ds, i);
      forall j | 1 <= j < |codes[x]| ensures codes[x][..j] !in table {
        forall m | 0 <= m < |ds| ensures ds[m].code != codes[x][..j] {
          assert keys[m] in Elems(keys);
          if keys[m] != x {
            assert !(codes[keys[m]] <= codes[x]);
          }
        }
      }
    }
  }

  // ---------------------------------------------------------------------
  // Encoding: `EncodingIterator` and `ByteIterator` over `Result` items.
  // ---------------------------------------------------------------------

  /** What `EncodingIterator` yields for one input item. */
  function Chunk(codes: map<byte, seq<bool>>, item: Result<byte>): Result<seq<bool>>
  {
    match item
    case Err(e) => Err(e)
    case Ok(b) => if b in codes then Ok(codes[b]) else Err("Unexpected letter met")
  }

  /** What `EncodingIterator` yields for every item. */
  function Chunks(codes: map<byte, seq<bool>>, input: seq<Result<byte>>): (r: seq<Result<seq<bool>>>)
    ensures |r| == |input| && forall i :: 0 <= i < |input| ==> r[i] == Chunk(codes, input[i])
  {
    seq(|input|, i requires 0 <= i < |input| => Chunk(codes, input[i]))
  }

  /**
   * The bits `ByteIterator::new` keeps: `into_iter().flatten()` yields the
   * bits of the `Ok` chunks and nothing for an `Err` chunk.
   */
  function OkBits(chunks: seq<Result<seq<bool>>>): (r: seq<bool>)
    decreases |chunks|
  {
    if chunks == [] then [] else (if chunks[0].Ok? then chunks[0].value else []) + OkBits(chunks[1..])
  }

  lemma {:induction false} OkBitsSnoc(chunks: seq<Result<seq<bool>>>, c: Result<seq<bool>>)
    ensures OkBits(chunks + [c]) == OkBits(chunks) + (if c.Ok? then c.value else [])
    decreases |chunks|
  {
    if chunks == [] {
      assert [c][1..] == [];
      AppendEmpty(if c.Ok? then c.value else []);
    } else {
      assert (chunks + [c])[1..] == chunks[1..] + [c];
      OkBitsSnoc(chunks[1..], c);
      AppendAssoc(if chunks[0].Ok? then chunks[0].value else [], OkBits(chunks[1..]), if c.Ok? then c.value else []);
    }
  }

  /** On input without errors whose every byte has a code, the kept bits are the payload. */
  lemma {:induction false} ChunksPayload(codes: map<byte, seq<bool>>, input: seq<byte>)
    requires Coded(codes, input)
    ensures OkBits(Chunks(codes, Wrap(input))) == PayloadBits(codes, input)
    decreases |input|
  {
    if input != [] {
      assert Chunks(codes, Wrap(input))[1..] == Chunks(codes, Wrap(input[1..]));
      ChunksPayload(codes, input[1..]);
    }
  }

  class EncodingIterator {
    /** The input items not read yet. */
    var input: seq<Result<byte>>
    const codes: map<byte, seq<bool>>

    constructor (input: seq<Result<byte>>, codes: map<byte, seq<bool>>)
      ensures this.input == input && this.codes == codes
    {
      this.input, this.codes := input, codes;
    }

    /**
     * The code of the next input byte; an input error passes through, and
     * a byte without a code gives "Unexpected letter met".
     */
    method Next() returns (r: Option<Result<seq<bool>>>)
      modifies this
      ensures old(input) == [] ==> r.None? && input == []
      ensures old(input) != [] ==> input == old(input)[1..] && r == Some(Chunk(codes, old(input)[0]))
    {
      if input == [] {
        return None;
      }
      var item := input[0];
      input := input[1..];
      match item {
        case Err(e) =>
          r := Some(Err(e));
        case Ok(b) =>
          if b !in codes {
            return Some(Err("Unexpected letter met"));
          }
          r := Some(Ok(codes[b]));
      }
    }

    /** Every item the iterator yields. */
    method Collect() returns (chunks: seq<Result<seq<bool>>>)
      modifies this
      ensures chunks == Chunks(codes, old(input))
    {
      chunks := [];
      while true
        invariant |chunks| <= |old(input)| && input == old(input)[|chunks|..]
        invariant forall i :: 0 <= i < |chunks| ==> chunks[i] == Chunk(codes, old(input)[i])
        decreases |input|
      {
        var c := Next();
        if c.None? {
          return;
        }
        chunks := chunks + [c.value];
      }
    }
  }

  class ByteIterator {
    /** The flattened bit stream not consumed yet. */
    var input: seq<Result<bool>>

    /** `new` leaves only `Ok` bits. */
    ghost predicate Valid()
      reads this
    {
      AllOk(input)
    }

    /** `ByteIterator::new`: the kept bits, each wrapped in `Ok`. */
    constructor (chunks: seq<Result<seq<bool>>>)
      ensures Valid() && input == Wrap(OkBits(chunks))
    {
      input := Wrap(OkBits(chunks));
    }

    /**
     * One byte from the next eight bits, bit `i` going to `1 << i`; a
     * shorter last group gives a byte with its high bits clear, and an
     * exhausted stream gives `None`. The `Err` arm cannot be reached.
     */
    method Next() returns (r: Option<Result<byte>>)
      requires Valid()
      modifies this
      ensures Valid()
      ensures r.None? <==> old(input) == []
      ensures r.Some? ==> r.value.Ok? && PackLsb(Values(old(input))) == [r.value.value] + PackLsb(Values(input))
    {
      var value: nat := 0;
      var i := 0;
      ghost var taken: seq<bool> := [];
      while i < 8
        invariant 0 <= i <= 8 && |taken| == i && AllOk(input)
        invariant Values(old(input)) == taken + Values(input)
        invariant value == FromBitsLsb(taken)
      {
        if input == [] {
          if i == 0 {
            return None;
          }
          FromBitsLsbZeros(taken, 8 - i);
          AppendEmpty(taken);
          BitStream.PackShort(Values(old(input)), taken);
          r := Some(Ok(value));
          return;
        }
        match input[0] {
          case Err(e) =>
            assert false;
            return Some(Err(e));
          case Ok(bit) =>
            FromBitsLsbSnoc(taken, bit);
            value := value + (if bit then Pow2(i) else 0);
            AppendAssoc(taken, [bit], Values(input[1..]));
            taken := taken + [bit];
            input := input[1..];
            i := i + 1;
        }
      }
      BitStream.PackFull(Values(old(input)), taken, Values(input));
      r := Some(Ok(value));
    }

    /** Every byte the iterator yields: the kept bits packed, all `Ok`. */
    method Collect() returns (bytes: seq<Result<byte>>)
      requires Valid()
      modifies this
      ensures bytes == Wrap(PackLsb(Values(old(input))))
    {
      bytes := [];
      ghost var packed: seq<byte> := [];
      while true
        invariant Valid() && bytes == Wrap(packed)
        invariant packed + PackLsb(Values(input)) == PackLsb(Values(old(input)))
        decreases |input|
      {
        var r := Next();
        if r.None? {
          assert packed + [] == packed;
          return;
        }
        AppendAssoc(packed, [r.value.value], PackLsb(Values(input)));
        WrapSnoc(packed, r.value.value);
        packed := packed + [r.value.value];
        bytes := bytes + [r.value];
      }
    }
  }

  /**
   * `encoded_iterator` as written: the kept bits packed. Since `flatten`
   * drops `Err` chunks, it never yields an error, whatever its input.
   */
  method EncodedIterator(input: seq<Result<byte>>, codes: map<byte, seq<bool>>) returns (r: seq<Result<byte>>)
    ensures AllOk(r)
    ensures Values(r) == PackLsb(OkBits(Chunks(codes, input)))
    ensures AllOk(input) && Coded(codes, Values(input)) ==> Values(r) == PackLsb(PayloadBits(codes, Values(input)))
  {
    var encoder := new EncodingIterator(input, codes);
    var chunks := encoder.Collect();
    var packer := new ByteIterator(chunks);
    r := packer.Collect();
    if AllOk(input) && Coded(codes, Values(input)) {
      assert Wrap(Values(input)) == input;
      ChunksPayload(codes, Values(input));
    }
  }

  /** A byte without a code is skipped: "ab" with a code for `a` alone encodes to the one byte 0, and no error. */
  lemma {:induction false} LetterDropped()
    ensures var input, codes := [Ok(97), Ok(98)], map[97 := [false]];
      !Coded(codes, Values(input)) && PackLsb(OkBits(Chunks(codes, input))) == [0]
  {
    var input: seq<Result<byte>>, codes := [Ok(97), Ok(98)], map[97 := [false]];
    assert Values(input)[1] == 98;
    var chunks := Chunks(codes, input);
    assert chunks == [Ok([false]), Err("Unexpected letter met")];
    assert chunks[1..][1..] == [];
    assert OkBits(chunks[1..]) == [] + OkBits([]);
    assert OkBits(chunks) == [false] + OkBits(chunks[1..]);
    PackLsbBits([false]);
    var b := PackLsb([false])[0];
    assert ByteBitsLsb(b) == [false] + Zeros(7);
    FromToBitsLsb(b, 8);
    ToBitsZero(7);
    assert ByteBitsLsb(b) == ToBitsLsb(0, 8);
    ToBitsLsbInjective(b, 0);
  }

  lemma {:induction false} ToBitsZero(n: nat)
    ensures Zeros(n) == ToBitsLsb(0, n)
  {
    if n > 0 {
      ToBitsZero(n - 1);
      assert Zeros(n) == [false] + Zeros(n - 1);
    }
  }

  lemma {:induction false} ToBitsLsbInjective(a: byte, b: byte)
    requires ByteBitsLsb(a) == ByteBitsLsb(b)
    ensures a == b
  {
    Pow2Eight();
    FromToBitsLsb(a, 8);
    FromToBitsLsb(b, 8);
  }

  /** The first error among the chunks, if any. */
  function FirstErr(chunks: seq<Result<seq<bool>>>): (r: Option<string>)
    ensures r.None? <==> AllOk(chunks)
    decreases |chunks|
  {
    if chunks == [] then None
    else if chunks[0].Err? then Some(chunks[0].msg)
    else
      var r := FirstErr(chunks[1..]);
      assert AllOk(chunks) <==> AllOk(chunks[1..]) by {
        assert forall i :: 0 <= i < |chunks[1..]| ==> chunks[1..][i] == chunks[i + 1];
      }
      r
  }

  /**
   * `encoded_iterator` with errors kept: the first error of the input or
   * of the code lookup ends the stream, and otherwise the payload is packed.
   */
  method EncodedIteratorChecked(input: seq<Result<byte>>, codes: map<byte, seq<bool>>) returns (r: Result<seq<byte>>)
    ensures r.Ok? <==> AllOk(input) && Coded(codes, Values(input))
    ensures r.Ok? ==> r.value == PackLsb(PayloadBits(codes, Values(input)))
    ensures r.Err? ==> Some(r.msg) == FirstErr(Chunks(codes, input))
  {
    var encoder := new EncodingIterator(input, codes);
    var chunks := encoder.Collect();
    var err := FirstErr(chunks);
    if err.Some? {
      ChunksErr(codes, input);
      return Err(err.value);
    }
    ChunksErr(codes, input);
    var packer := new ByteIterator(chunks);
    var bytes := packer.Collect();
    assert Wrap(Values(input)) == input;
    ChunksPayload(codes, Values(input));
    r := Ok(Values(bytes));
  }

  /** The chunks hold no error exactly when the input holds none and every byte has a code. */
  lemma {:induction false} ChunksErr(codes: map<byte, seq<bool>>, input: seq<Result<byte>>)
    ensures AllOk(Chunks(codes, input)) <==> AllOk(input) && Coded(codes, Values(input))
  {
    var chunks := Chunks(codes, input);
    if AllOk(chunks) {
      assert forall i :: 0 <= i < |input| ==> chunks[i].Ok? && input[i].Ok?;
      assert forall i :: 0 <= i < |input| ==> Values(input)[i] in codes;
    }
    if AllOk(input) && Coded(codes, Values(input)) {
      assert forall i :: 0 <= i < |input| ==> Values(input)[i] == input[i].value;
    }
  }

  // ---------------------------------------------------------------------
  // Decoding: the lookahead `BitIterator` and `DecoderIterator`.
  // ---------------------------------------------------------------------

  /**
   * The bits the lookahead `BitIterator` yields from the bytes `bytes`:
   * all eight of every byte but the last, then the first `last` bits of
   * the last one.
   */
  function Unpacked(bytes: seq<byte>, last: nat): (r: seq<bool>)
    ensures bytes == [] ==> r == []
    ensures bytes != [] ==> |r| == 8 * (|bytes| - 1) + (if last < 8 then last else 8)
    decreases |bytes|
  {
    if bytes == [] then []
    else if |bytes| == 1 then Take(ByteBitsLsb(bytes[0]), last)
    else ByteBitsLsb(bytes[0]) + Unpacked(bytes[1..], last)
  }

  /** What the unpacker yields is a prefix of all the bytes' bits. */
  lemma {:induction false} UnpackedPrefix(bytes: seq<byte>, last: nat)
    ensures Unpacked(bytes, last) <= BytesBitsLsb(bytes)
    decreases |bytes|
  {
    if |bytes| >= 2 {
      UnpackedPrefix(bytes[1..], last);
    }
  }

  /** Unpacking the packed payload with the payload's `last_byte_size` gives back exactly the payload. */
  lemma {:induction false} UnpackPacked(bits: seq<bool>)
    ensures Unpacked(PackLsb(bits), Sizes(|bits|).1) == bits
    decreases |bits|
  {
    if |bits| <= 8 {
      UnpackPackedOne(bits);
    } else {
      var tail := bits[8..];
      UnpackPacked(tail);
      UnpackPackedStep(bits, tail);
    }
  }

  /** Up to eight bits pack into one byte, which unpacks to them. */
  lemma {:induction false} UnpackPackedOne(bits: seq<bool>)
    requires |bits| <= 8
    ensures Unpacked(PackLsb(bits), Sizes(|bits|).1) == bits
  {
    var last := Sizes(|bits|).1;
    if bits == [] {
    } else if |bits| < 8 {
      var full := bits + Zeros(8 - |bits|);
      assert PackLsb(bits) == [ByteOfBitsLsb(full)];
      assert last == |bits|;
      assert full[..|bits|] == bits;
    } else {
      assert bits[8..] == [] && bits[..8] == bits;
      assert PackLsb(bits) == [ByteOfBitsLsb(bits)];
    }
  }

  /** More than eight bits unpack to their first byte's bits, then the rest's. */
  lemma {:induction false} UnpackPackedStep(bits: seq<bool>, tail: seq<bool>)
    requires |bits| > 8 && tail == bits[8..]
    requires Unpacked(PackLsb(tail), Sizes(|tail|).1) == tail
    ensures Unpacked(PackLsb(bits), Sizes(|bits|).1) == bits
  {
    var first := ByteOfBitsLsb(bits[..8]);
    var rest := PackLsb(tail);
    assert PackLsb(bits) == [first] + rest;
    assert Sizes(|bits|).1 == Sizes(|tail|).1 by {
      assert |tail| % 8 == |bits| % 8;
    }
    UnpackedCons(first, rest, Sizes(|bits|).1);
    assert bits == bits[..8] + tail;
  }

  /** A byte followed by more bytes unpacks to all its bits, then theirs. */
  lemma {:induction false} UnpackedCons(b: byte, rest: seq<byte>, last: nat)
    requires rest != []
    ensures Unpacked([b] + rest, last) == ByteBitsLsb(b) + Unpacked(rest, last)
  {
    assert ([b] + rest)[1..] == rest;
  }

  /** Where the bits of a `current` byte end when no byte follows it. */
  function LastEnd(position: nat, last: nat): nat
  {
    if position <= last <= 8 then last else 8
  }

  class BitIterator {
    /** The items `input_iter` has not yielded yet. */
    var src: seq<Result<byte>>
    var current: byte
    /** `current_position`: the next bit of `current` to yield; 8 once it is used up. */
    var position: nat
    /** The byte read ahead, `None` when the source had no further byte. */
    var next: Option<byte>
    const lastByteSize: nat

    ghost predicate Valid()
      reads this
    {
      position <= 8 && (position < 8 && next.None? ==> src == [])
    }

    /** The bytes still to be unpacked after `current`. */
    ghost function Ahead(): seq<byte>
      reads this
    {
      (if next.Some? then [next.value] else []) + Values(src)
    }

    /** The bits still to come, as long as the source yields no error. */
    ghost function Remaining(): seq<bool>
      requires Valid()
      reads this
    {
      if position == 8 then Unpacked(Ahead(), lastByteSize)
      else if next.None? then ByteBitsLsb(current)[position..LastEnd(position, lastByteSize)]
      else ByteBitsLsb(current)[position..] + Unpacked(Ahead(), lastByteSize)
    }

    /** The state `DecoderIterator::new` gives it: no byte read yet. */
    constructor (input: seq<Result<byte>>, lastByteSize: nat)
      ensures Valid() && src == input && this.lastByteSize == lastByteSize
      ensures Remaining() == Unpacked(Values(input), lastByteSize)
    {
      src := input;
      current := 0;
      position := 8;
      next := None;
      this.lastByteSize := lastByteSize;
      new;
      assert Ahead() == Values(input);
    }

    /**
     * The `current_position == 8` block of `next`: take the read-ahead byte
     * (or read one) as `current`, then read the following one ahead. It
     * stops `next` with `None` when no byte is left, and with the reader's
     * error when a read fails; otherwise the bits to come are unchanged.
     */
    method Refill() returns (r: Option<Result<bool>>, refilled: bool)
      requires Valid() && position == 8
      modifies this
      ensures Valid()
      ensures |src| <= |old(src)| && src == old(src)[|old(src)| - |src|..]
      ensures refilled ==> position == 0 && Remaining() == old(Remaining())
      ensures !refilled && r.None? ==> old(Remaining()) == [] && Remaining() == []
      ensures !refilled && r.Some? ==>
                r.value.Err? && |src| < |old(src)| && old(src)[|old(src)| - |src| - 1] == Err(r.value.msg)
      ensures AllOk(old(src)) ==> AllOk(src) && (refilled || r.None?)
    {
      ghost var ahead := Ahead();
      ghost var src0 := src;
      var taken;
      r, taken := TakeCurrent();
      if !taken {
        return r, false;
      }
      ghost var src1 := src;
      r, refilled := ReadAhead(ahead);
      SuffixTrans(src0, src1, src);
      AllOkSuffix(src0, src1);
    }

    /**
     * The first half of the refill: `current` becomes the byte read ahead,
     * or a byte read now when there is none; `None` when no byte is left.
     */
    method TakeCurrent() returns (r: Option<Result<bool>>, taken: bool)
      requires Valid() && position == 8
      modifies this
      ensures position == 8 && Valid()
      ensures |src| <= |old(src)| && src == old(src)[|old(src)| - |src|..]
      ensures taken ==> old(Ahead()) == [current] + Values(src)
      ensures !taken && r.None? ==> old(Ahead()) == [] && Ahead() == []
      ensures !taken && r.Some? ==>
                r.value.Err? && |src| < |old(src)| && old(src)[|old(src)| - |src| - 1] == Err(r.value.msg)
      ensures AllOk(old(src)) ==> AllOk(src) && (taken || r.None?)
    {
      if next.Some? {
        current := next.value;
        return None, true;
      }
      if src == [] {
        return None, false;
      }
      match src[0] {
        case Err(e) =>
          src := src[1..];
          return Some(Err(e)), false;
        case Ok(b) =>
          current := b;
          src := src[1..];
          return None, true;
      }
    }

    /**
     * The second half of the refill: read the byte after `current` ahead;
     * the bits to come are then those of `ahead`.
     */
    method ReadAhead(ghost ahead: seq<byte>) returns (r: Option<Result<bool>>, refilled: bool)
      requires position == 8 && ahead == [current] + Values(src)
      modifies this
      ensures Valid()
      ensures |src| <= |old(src)| && src == old(src)[|old(src)| - |src|..]
      ensures refilled ==> position == 0 && Remaining() == Unpacked(ahead, lastByteSize)
      ensures !refilled ==>
                r.Some? && r.value.Err? && |src| < |old(src)| && old(src)[|old(src)| - |src| - 1] == Err(r.value.msg)
      ensures AllOk(old(src)) ==> AllOk(src) && refilled
    {
      if src == [] {
        next := None;
      } else {
        match src[0] {
          case Err(e) =>
            src := src[1..];
            return Some(Err(e)), false;
          case Ok(b) =>
            next := Some(b);
            src := src[1..];
        }
      }
      position := 0;
      r, refilled := None, true;
      Refilled(ahead, current, next, Values(src), lastByteSize);
    }

    /**
     * The next bit. Once `current` is used up it refills; with no byte read
     * ahead it stops after `last_byte_size` bits of `current`. A reader
     * error is passed through; on a source without errors it never yields
     * one.
     */
    method Next() returns (r: Option<Result<bool>>)
      requires Valid()
      modifies this
      ensures Valid()
      ensures |src| <= |old(src)| && src == old(src)[|old(src)| - |src|..]
      ensures r.None? ==> old(Remaining()) == [] && Remaining() == []
      ensures r.Some? && r.value.Ok? ==>
                old(Remaining()) != [] && r.value.value == old(Remaining())[0] && Remaining() == old(Remaining())[1..]
      ensures r.Some? && r.value.Err? ==> |src| < |old(src)| && old(src)[|old(src)| - |src| - 1] == Err(r.value.msg)
      ensures AllOk(old(src)) ==> AllOk(src) && (r.None? <==> old(Remaining()) == []) && (r.None? || r.value.Ok?)
    {
      if position == 8 {
        var refilled;
        r, refilled := Refill();
        if !refilled {
          return;
        }
      }
      r := Yield();
    }

    /** The rest of `next` once `current` holds bits: yield bit `position`, or stop after the last byte's bits. */
    method Yield() returns (r: Option<Result<bool>>)
      requires Valid() && position < 8
      modifies this
      ensures Valid() && src == old(src)
      ensures r.None? ==> old(Remaining()) == [] && Remaining() == []
      ensures r.Some? ==> r.value.Ok? && old(Remaining()) != [] && r.value.value == old(Remaining())[0] && Remaining() == old(Remaining())[1..]
    {
      if next.None? && lastByteSize == position {
        return None;
      }
      ToBitsLsbAt(current, 8, position);
      var bit := BitAt(current, position);
      ghost var bits := ByteBitsLsb(current);
      position := position + 1;
      r := Some(Ok(bit));
      StepBit(bits, position - 1, next.None?, lastByteSize, Unpacked(Ahead(), lastByteSize));
    }
  }

  /** After a refill `current` is the first byte ahead and the state yields what the old one did. */
  lemma {:induction false} Refilled(ahead: seq<byte>, current: byte, next: Option<byte>, rest: seq<byte>, last: nat)
    requires ahead == [current] + (if next.Some? then [next.value] else []) + rest
    requires next.None? ==> rest == []
    ensures next.None? ==> Unpacked(ahead, last) == ByteBitsLsb(current)[0..LastEnd(0, last)]
    ensures next.Some? ==>
              Unpacked(ahead, last) == ByteBitsLsb(current)[0..] + Unpacked((if next.Some? then [next.value] else []) + rest, last)
  {
    if next.None? {
      assert ahead == [current];
    } else {
      assert ahead[1..] == [next.value] + rest;
    }
  }

  /** Yielding bit `p` of the current byte leaves the bits after it. */
  lemma StepBit(bits: seq<bool>, p: nat, final: bool, last: nat, after: seq<bool>)
    requires |bits| == 8 && p < 8 && !(final && last == p)
    requires final ==> after == []
    ensures final ==>
              p < LastEnd(p, last) &&
              (bits[p..LastEnd(p, last)])[1..] == (if p + 1 == 8 then after else bits[p + 1..LastEnd(p + 1, last)])
    ensures !final ==> (bits[p..] + after)[1..] == (if p + 1 == 8 then after else bits[p + 1..] + after)
  {
  }

  /** Bits none of whose prefixes is a code end in "Unexpected code word". */
  lemma NoMatchStep(codes: map<seq<bool>, byte>, bits: seq<bool>)
    requires bits != [] && forall j :: 1 <= j <= |bits| ==> bits[..j] !in codes
    ensures DecodeStep(codes, bits) == Some((Err("Unexpected code word"), []))
  {
  }

  /** No prefix of length up to `n` is a code, prefix `n` included. */
  lemma NoPrefixLonger(codes: map<seq<bool>, byte>, bits: seq<bool>, n: nat)
    requires 1 <= n <= |bits| && bits[..n] !in codes
    requires forall j :: 1 <= j < n ==> bits[..j] !in codes
    ensures forall j :: 1 <= j <= n ==> bits[..j] !in codes
  {
  }

  /** A suffix of a suffix is a suffix. */
  lemma SuffixTrans<T>(s: seq<T>, a: seq<T>, b: seq<T>)
    requires |a| <= |s| && a == s[|s| - |a|..] && |b| <= |a| && b == a[|a| - |b|..]
    ensures b == s[|s| - |b|..]
  {
  }

  /** An item of a suffix of `s` is an item of `s`. */
  lemma {:induction false} ErrInSource<T>(s: seq<T>, a: seq<T>, b: seq<T>, x: T)
    requires |a| <= |s| && a == s[|s| - |a|..] && |b| < |a| && a[|a| - |b| - 1] == x
    ensures x in s
  {
    assert s[|s| - |b| - 1] == x;
  }

  /** A suffix of a source without errors has none. */
  lemma {:induction false} AllOkSuffix<T>(s: seq<Result<T>>, b: seq<Result<T>>)
    requires |b| <= |s| && b == s[|s| - |b|..]
    ensures AllOk(s) ==> AllOk(b)
  {
    if AllOk(s) {
      forall i | 0 <= i < |b|
        ensures b[i].Ok?
      {
        assert b[i] == s[|s| - |b| + i];
      }
    }
  }

  class DecoderIterator {
    const codes: map<seq<bool>, byte>
    const bits: BitIterator

    /** `DecoderIterator::new`: the code map and a `BitIterator` that has read nothing yet. */
    constructor (codes: map<seq<bool>, byte>, input: seq<Result<byte>>, lastByteSize: nat)
      ensures this.codes == codes && fresh(bits) && bits.Valid() && bits.src == input
      ensures bits.Remaining() == Unpacked(Values(input), lastByteSize)
    {
      this.codes := codes;
      bits := new BitIterator(input, lastByteSize);
    }

    /**
     * The loop of `next`: push bits onto `current` until it is a key of the
     * code map, the bits run out or the reader fails. `current` is read off
     * the bits that remained, and none of its shorter prefixes is a code.
     */
    method ReadCode(ghost r0: seq<bool>, ghost s0: seq<Result<byte>>) returns (current: seq<bool>, failure: Option<string>)
      requires bits.Valid() && r0 == bits.Remaining() && s0 == bits.src
      modifies bits
      ensures bits.Valid()
      ensures |current| <= |r0| && current == r0[..|current|]
      ensures forall j :: 1 <= j < |current| ==> r0[..j] !in codes
      ensures failure.None? ==> bits.Remaining() == r0[|current|..] && ((current != [] && current in codes) || bits.Remaining() == [])
      ensures failure.Some? ==> Err(failure.value) in s0
      ensures AllOk(s0) ==> AllOk(bits.src) && failure.None?
    {
      current := [];
      while true
        invariant Reading(r0, s0, current)
        decreases |bits.Remaining()|
      {
        var stop;
        current, stop, failure := Pull(r0, s0, current);
        if stop {
          return;
        }
      }
    }

    /** Where the loop of `next` stands: `current` read off `r0`, none of its prefixes a code. */
    ghost predicate Reading(r0: seq<bool>, s0: seq<Result<byte>>, current: seq<bool>)
      reads bits
    {
      bits.Valid() && |bits.src| <= |s0| && bits.src == s0[|s0| - |bits.src|..] &&
      |current| <= |r0| && current == r0[..|current|] && bits.Remaining() == r0[|current|..] &&
      forall j :: 1 <= j <= |current| ==> r0[..j] !in codes
    }

    /** The reader's next bit, with what it says about the source `s0` the reader started from. */
    method NextBit(ghost s0: seq<Result<byte>>) returns (bit: Option<Result<bool>>)
      requires bits.Valid() && |bits.src| <= |s0| && bits.src == s0[|s0| - |bits.src|..]
      modifies bits
      ensures bits.Valid() && |bits.src| <= |s0| && bits.src == s0[|s0| - |bits.src|..]
      ensures bit.None? ==> old(bits.Remaining()) == [] && bits.Remaining() == []
      ensures bit.Some? && bit.value.Ok? ==>
                old(bits.Remaining()) != [] && bit.value.value == old(bits.Remaining())[0] && bits.Remaining() == old(bits.Remaining())[1..]
      ensures bit.Some? && bit.value.Err? ==> Err(bit.value.msg) in s0
      ensures AllOk(s0) ==> AllOk(bits.src) && (bit.None? || bit.value.Ok?)
    {
      ghost var srcBefore := bits.src;
      bit := bits.Next();
      SuffixTrans(s0, srcBefore, bits.src);
      if bit.Some? && bit.value.Err? {
        ErrInSource(s0, srcBefore, bits.src, Err(bit.value.msg));
      }
    }

    /** One turn of the loop of `next`: one bit pushed onto `current`, or the loop ends. */
    method Pull(ghost r0: seq<bool>, ghost s0: seq<Result<byte>>, current: seq<bool>) returns (next: seq<bool>, stop: bool, failure: Option<string>)
      requires Reading(r0, s0, current)
      modifies bits
      ensures bits.Valid() && |bits.src| <= |s0| && bits.src == s0[|s0| - |bits.src|..]
      ensures |next| <= |r0| && next == r0[..|next|]
      ensures forall j :: 1 <= j < |next| ==> r0[..j] !in codes
      ensures !stop ==> Reading(r0, s0, next) && |bits.Remaining()| < old(|bits.Remaining()|)
      ensures stop && failure.None? ==> bits.Remaining() == r0[|next|..] && ((next != [] && next in codes) || bits.Remaining() == [])
      ensures failure.Some? ==> stop && Err(failure.value) in s0
      ensures AllOk(s0) ==> AllOk(bits.src) && failure.None?
    {
      ghost var before := bits.Remaining();
      var bit := NextBit(s0);
      match bit {
        case None =>
          return current, true, None;
        case Some(Err(e)) =>
          return current, true, Some(e);
        case Some(Ok(b)) =>
          PushBit(r0, current, before, b);
          next := current + [b];
          if next in codes {
            return next, true, None;
          }
          NoPrefixLonger(codes, r0, |next|);
          return next, false, None;
      }
    }

    /**
     * `next`: a letter is one `DecodeStep` of the bits that remained; a
     * reader error is passed through. On a source without reader errors it
     * is exactly `DecodeStep`.
     */
    method Next() returns (r: Option<Result<byte>>)
      requires bits.Valid()
      modifies bits
      ensures bits.Valid()
      ensures r.None? ==> old(bits.Remaining()) == []
      ensures r.Some? && r.value.Ok? ==> DecodeStep(codes, old(bits.Remaining())) == Some((r.value, bits.Remaining()))
      ensures r.Some? && r.value.Err? ==> r.value.msg == "Unexpected code word" || Err(r.value.msg) in old(bits.src)
      ensures AllOk(old(bits.src)) ==>
                AllOk(bits.src) &&
                DecodeStep(codes, old(bits.Remaining())) == (if r.None? then None else Some((r.value, bits.Remaining())))
    {
      ghost var r0 := bits.Remaining();
      var current, failure := ReadCode(r0, bits.src);
      match failure {
        case Some(e) =>
          return Some(Err(e));
        case None =>
      }
      if current == [] {
        return None;
      }
      if current in codes {
        FirstMatchLeast(codes, r0, |current|);
        return Some(Ok(codes[current]));
      }
      NoPrefixLonger(codes, r0, |current|);
      assert current == r0;
      NoMatchStep(codes, r0);
      return Some(Err("Unexpected code word"));
    }

    /** Every letter of the payload, or the first error. */
    method Collect() returns (r: Result<seq<byte>>)
      requires bits.Valid()
      modifies bits
      ensures bits.Valid()
      ensures AllOk(old(bits.src)) ==> r == DecodeAll(codes, old(bits.Remaining()))
    {
      var out: seq<byte> := [];
      ghost var s0 := bits.src;
      ghost var total := DecodeAll(codes, bits.Remaining());
      CollectedNothing(total);
      while true
        invariant bits.Valid()
        invariant AllOk(s0) ==> AllOk(bits.src) && total == Collected(out, DecodeAll(codes, bits.Remaining()))
        decreases |bits.Remaining()|
      {
        var x := Next();
        match x {
          case None =>
            assert out + [] == out;
            return Ok(out);
          case Some(Err(m)) =>
            return Err(m);
          case Some(Ok(b)) =>
            CollectedPrepend(out, b, DecodeAll(codes, bits.Remaining()));
            out := out + [b];
        }
      }
    }
  }

  // ---------------------------------------------------------------------
  // The crate end to end.
  // ---------------------------------------------------------------------

  /** Codes that are all empty give an empty payload. */
  lemma {:induction false} EmptyCodes(codes: map<byte, seq<bool>>, input: seq<byte>)
    requires Coded(codes, input) && forall i :: 0 <= i < |input| ==> codes[input[i]] == []
    ensures PayloadBits(codes, input) == []
    decreases |input|
  {
    if input != [] {
      EmptyCodes(codes, input[1..]);
    }
  }

  /**
   * Packed, unpacked with the header's `last_byte_size` and decoded with
   * the table of the descriptors, the payload of prefix-free non-empty
   * codes gives the input back.
   */
  lemma {:induction false} PayloadRoundTrip(input: seq<byte>, codes: map<byte, seq<bool>>, keys: seq<byte>, ds: seq<Descriptor>)
    requires Coded(codes, input) && PrefixFree(codes) && NonEmptyCodes(codes)
    requires KeyOrderOf(keys, codes.Keys) && |ds| == |keys|
    requires forall i :: 0 <= i < |ds| ==> ds[i] == Descriptor(codes[keys[i]], keys[i])
    ensures var p := PayloadBits(codes, input);
      DecodeAll(CodeTable(ds), Unpacked(Values(Wrap(PackLsb(p))), Sizes(|p|).1)) == Ok(input)
  {
    var p := PayloadBits(codes, input);
    UnpackPacked(p);
    DescriptorsDecode(codes, keys, ds);
    DecodePayload(CodeTable(ds), codes, input);
  }

  /**
   * `iter` on a code map, then a `DecoderIterator` on the payload it
   * writes: the `bit_size` loop and its sizes, the descriptors, the payload
   * through `encoded_iterator`, and the decoder over the descriptors' table
   * and `last_byte_size`. The JSON header that carries the descriptors and
   * sizes between the two is not modelled; they are handed over as values.
   */
  method Transmit(input: seq<byte>, freq: map<byte, nat>, codes: map<byte, seq<bool>>)
    returns (sizes: Result<(nat, nat)>, decoded: Result<seq<byte>>)
    requires freq.Keys == Elems(input) && forall b :: b in freq ==> freq[b] == multiset(input)[b]
    requires codes.Keys == freq.Keys && Coded(codes, input)
    ensures sizes.Ok? <==> |PayloadBits(codes, input)| <= BitStream.USIZE_MAX
    ensures sizes.Ok? ==> sizes.value == Sizes(|PayloadBits(codes, input)|)
    ensures sizes.Ok? && PrefixFree(codes) && NonEmptyCodes(codes) ==> decoded == Ok(input)
    ensures sizes.Ok? && PayloadBits(codes, input) == [] ==> decoded == Ok([])
  {
    var bitSize, keys := BitSize(freq, codes);
    PayloadWeight(codes, input, freq, keys);
    match bitSize {
      case Err(e) =>
        return Err(e), Err(e);
      case Ok(n) =>
    }
    var size := Sizes(bitSize.value);
    sizes := Ok(size);
    var ds, dkeys := CodeDescriptors(codes);
    var bytes := EncodedIterator(Wrap(input), codes);
    var decoder := new DecoderIterator(CodeTable(ds), bytes, size.1);
    decoded := decoder.Collect();
    ghost var p := PayloadBits(codes, input);
    if PrefixFree(codes) && NonEmptyCodes(codes) {
      PayloadRoundTrip(input, codes, dkeys, ds);
    }
  }

  /**
   * The crate end to end on the payload: `count_frequency`, `build_codes`,
   * then `Transmit`. Inputs below 2^32 bytes keep `bit_size` in a `usize`;
   * then an input with none or two or more distinct bytes comes back, and
   * one made of a single distinct byte comes back empty.
   */
  method RoundTrip(input: seq<byte>) returns (sizes: Result<(nat, nat)>, decoded: Result<seq<byte>>)
    ensures |input| < 0x1_0000_0000 ==> sizes.Ok?
    ensures sizes.Ok? && |Elems(input)| != 1 ==> decoded == Ok(input)
    ensures sizes.Ok? && |Elems(input)| == 1 ==> decoded == Ok([])
  {
    var freq := CountFrequency(input);
    var codes, letters := BuildCodes(freq);
    BuiltCodes(input, freq, letters, codes);
    sizes, decoded := Transmit(input, freq, codes);
  }

  /** What `Transmit` needs of the codes `build_codes` gives the frequencies of an input. */
  lemma {:induction false} BuiltCodes(input: seq<byte>, freq: map<byte, nat>, letters: seq<byte>, codes: map<byte, seq<bool>>)
    requires freq.Keys == Elems(input) && forall b :: b in freq ==> freq[b] == multiset(input)[b]
    requires KeyOrderOf(letters, freq.Keys)
    requires freq == map[] ==> codes == map[]
    requires freq != map[] ==> codes == Codes(BuildTree(InitialQueue(freq, letters)))
    ensures codes.Keys == freq.Keys && Coded(codes, input)
    ensures |input| < 0x1_0000_0000 ==> |PayloadBits(codes, input)| <= BitStream.USIZE_MAX
    ensures |Elems(input)| != 1 ==> PrefixFree(codes) && NonEmptyCodes(codes)
    ensures |Elems(input)| == 1 ==> PayloadBits(codes, input) == []
  {
    if input == [] {
      assert freq == map[];
    } else {
      assert input[0] in freq.Keys;
      var root := BuildTree(InitialQueue(freq, letters));
      HuffmanLetters(freq, letters);
      TreeInputCodes(input, root);
    }
  }

  /** The codes of a tree whose leaves are the distinct bytes of an input. */
  lemma {:induction false} TreeInputCodes(input: seq<byte>, root: Node)
    requires NoDup(Letters(root)) && Elems(Letters(root)) == Elems(input)
    ensures Codes(root).Keys == Elems(input) && Coded(Codes(root), input)
    ensures |input| < 0x1_0000_0000 ==> |PayloadBits(Codes(root), input)| <= BitStream.USIZE_MAX
    ensures |Elems(input)| != 1 ==> PrefixFree(Codes(root)) && NonEmptyCodes(Codes(root))
    ensures |Elems(input)| == 1 ==> PayloadBits(Codes(root), input) == []
  {
    var codes := Codes(root);
    TreeCodes(root);
    assert Coded(codes, input) by {
      forall i | 0 <= i < |input| ensures input[i] in codes {
        assert input[i] in Elems(input);
      }
    }
    if |input| < 0x1_0000_0000 {
      TreePayloadFits(root, input);
    }
    LeafLetters(root);
    if |Elems(input)| == 1 {
      OneLetter(input);
      LoneLeaf(root, input[0]);
      forall i | 0 <= i < |input| ensures codes[input[i]] == [] {
        assert input[i] in Elems(input);
      }
      EmptyCodes(codes, input);
    } else {
      TreeCodesNonEmpty(root);
    }
  }

  /** A tree with one distinct letter is that letter's leaf, with the empty code. */
  lemma {:induction false} LoneLeaf(root: Node, x: byte)
    requires NoDup(Letters(root)) && Elems(Letters(root)) == {x}
    ensures Codes(root) == map[x := []]
  {
    NoDupCard(Letters(root));
    assert |Letters(root)| == 1;
    assert root.Leaf? && root.letter in Elems(Letters(root));
    var ds := LeafList(root, []);
    assert ds == [Descriptor([], x)];
    assert HuffmanTree.Insert(map[], ds) == HuffmanTree.Insert(map[x := []], ds[1..]);
    assert ds[1..] == [];
  }

  /** "aaa" comes back empty: a lone letter's occurrences never reach the payload. */
  method SingleLetterLost() returns (decoded: Result<seq<byte>>)
    ensures decoded == Ok([]) && decoded != Ok([97, 97, 97])
  {
    var input: seq<byte> := [97, 97, 97];
    assert Elems(input) == {97};
    var sizes;
    sizes, decoded := RoundTrip(input);
  }

  /**
   * `build_codes` with the lone letter given the one-bit code `false`
   * instead of the empty code; every other frequency map gets the codes
   * `build_codes` gives it.
   */
  method BuildCodesFixed(freq: map<byte, nat>) returns (codes: map<byte, seq<bool>>, ghost letters: seq<byte>)
    ensures KeyOrderOf(letters, freq.Keys)
    ensures codes.Keys == freq.Keys && PrefixFree(codes) && NonEmptyCodes(codes)
    ensures |freq.Keys| >= 2 ==> codes == Codes(BuildTree(InitialQueue(freq, letters)))
    ensures forall x :: freq.Keys == {x} ==> codes == map[x := [false]]
  {
    codes, letters := BuildCodes(freq);
    if freq != map[] {
      var root := BuildTree(InitialQueue(freq, letters));
      HuffmanLetters(freq, letters);
      HuffmanCodes(freq, letters);
      LeafLetters(root);
      if root.Inner? {
        TreeCodesNonEmpty(root);
      }
    }
    if |codes| == 1 {
      var x :| x in codes;
      assert codes.Keys == {x} by {
        assert |codes.Keys - {x}| == 0;
      }
      codes := map[x := [false]];
    }
  }

  /** The corrected crate: every input below 2^32 bytes comes back. */
  method RoundTripFixed(input: seq<byte>) returns (sizes: Result<(nat, nat)>, decoded: Result<seq<byte>>)
    ensures |input| < 0x1_0000_0000 ==> sizes.Ok?
    ensures sizes.Ok? ==> decoded == Ok(input)
  {
    var freq := CountFrequency(input);
    var codes, letters := BuildCodesFixed(freq);
    FixedCodesFit(input, freq, letters, codes);
    sizes, decoded := Transmit(input, freq, codes);
  }

  /** The corrected codes of an input's frequencies cover it, and below 2^32 bytes its payload fits a `usize`. */
  lemma {:induction false} FixedCodesFit(input: seq<byte>, freq: map<byte, nat>, letters: seq<byte>, codes: map<byte, seq<bool>>)
    requires freq.Keys == Elems(input) && KeyOrderOf(letters, freq.Keys) && codes.Keys == freq.Keys
    requires |freq.Keys| >= 2 ==> codes == Codes(BuildTree(InitialQueue(freq, letters)))
    requires forall x :: freq.Keys == {x} ==> codes == map[x := [false]]
    ensures Coded(codes, input)
    ensures |input| < 0x1_0000_0000 ==> |PayloadBits(codes, input)| <= BitStream.USIZE_MAX
  {
    assert Coded(codes, input) by {
      forall i | 0 <= i < |input| ensures input[i] in codes {
        assert input[i] in Elems(input);
      }
    }
    if |freq.Keys| >= 2 {
      HuffmanLetters(freq, letters);
      TreeInputCodes(input, BuildTree(InitialQueue(freq, letters)));
    } else if input != [] {
      assert input[0] in freq.Keys;
      assert freq.Keys == {input[0]} by {
        assert |freq.Keys - {input[0]}| == 0;
      }
      PayloadBound(codes, input, 1);
    }
  }
}
