/**
 * `lib.rs` of the JPEG improver: the stages composed. `encode` puts the
 * block transform's primary index, as four big-endian bytes, in front of the
 * transformed block, then applies move-to-front, run-length coding and the
 * arithmetic coder; `decode` undoes the stages in the opposite order.
 *
 * `lib.rs` calls `burrows_wheeler::bwt::apply` for a block and a `u32`
 * index, and `bwt::reverse` with that index; the `bwt.rs` of this
 * repository has neither signature (it returns a transformation vector, and
 * its inverse is not written). So the block transform and its inverse are
 * parameters here, and the round trip assumes only that they invert each
 * other on the input at hand.
 */
module Pipeline {
  import opened Common
  import MoveToFront
  import Mtf
  import Rle
  import ArithEncode
  import ArithDecode
  import ArithRoundTrip

  /** A Rust `u32`. */
  type U32 = x: nat | x < 0x1_0000_0000

  /** `bwt::apply` as `lib.rs` calls it: the transformed block and its primary index. */
  type Forward = seq<byte> -> (seq<byte>, U32)

  /** `bwt::reverse` as `lib.rs` calls it, from a block and an index; `None` is a panic. */
  type Backward = (seq<byte>, U32) -> Option<seq<byte>>

  /** Lines 8-11: the index's four big-endian bytes, then the transformed block. */
  function Framed(data: seq<byte>, forward: Forward): (r: seq<byte>)
    ensures |r| == 4 + |forward(data).0| && r[4..] == forward(data).0
  {
    var (block, index) := forward(data);
    ToBeBytes(index, 4) + block
  }

  /** The ranks `mtf::apply` gives; it gives one for every byte. */
  function Ranks(data: seq<byte>): (r: seq<byte>)
    ensures MoveToFront.Encode(MoveToFront.FullAlphabet(), data) == Some(r)
  {
    MoveToFront.FullAlphabetTotal(data, []);
    MoveToFront.Encode(MoveToFront.FullAlphabet(), data).value
  }

  /** The bytes `mtf::reverse` gives for ranks; it gives one for every rank. */
  function Unranked(ranks: seq<byte>): (r: seq<byte>)
    ensures MoveToFront.Decode(MoveToFront.FullAlphabet(), ranks) == Some(r)
  {
    MoveToFront.FullAlphabetTotal([], ranks);
    MoveToFront.Decode(MoveToFront.FullAlphabet(), ranks).value
  }

  /** What `encode` hands the arithmetic coder (lines 8-13). */
  function Staged(data: seq<byte>, forward: Forward): seq<byte>
  {
    Rle.Encode(Ranks(Framed(data, forward)))
  }

  /** `encode` (lines 7-15): the bytes hold the arithmetic code of the staged block, zero-padded. */
  method Encode(data: seq<byte>, forward: Forward) returns (out: seq<byte>)
    ensures var bits := ArithEncode.Encoded(Staged(data, forward));
      |bits| <= 8 * |out| < |bits| + 8 && BytesBitsMsb(out) == bits + Zeros(8 * |out| - |bits|)
  {
    var (block, index) := forward(data);
    var framed := ToBeBytes(index, 4) + block;
    var ranks := Mtf.Apply(framed);
    var runs := Rle.Apply(ranks);
    out := ArithEncode.Encode(runs);
  }

  /**
   * What `decode` returns (lines 17-24): `None` when a stage panics — run
   * decoding on a malformed count, fewer than four bytes left for the index,
   * or the inverse transform — or when the arithmetic decoder has not met
   * the end symbol within `fuel` symbols.
   */
  function Decoded(data: seq<byte>, backward: Backward, fuel: nat): Option<seq<byte>>
  {
    var coded := ArithDecode.DecodeAll(BytesBitsMsb(data), fuel);
    if coded.None? then None
    else
      var runs := Rle.Decode(coded.value, None);
      if runs.None? then None
      else
        var framed := Unranked(runs.value);
        if |framed| < 4 then None
        else
          Pow2ThirtyTwo();
          backward(framed[4..], FromBeBytes(framed[..4]))
  }

  /** `decode` (lines 17-24), with the arithmetic decoder cut off after `fuel` symbols. */
  method Decode(data: seq<byte>, backward: Backward, fuel: nat) returns (r: Option<seq<byte>>)
    ensures r == Decoded(data, backward, fuel)
  {
    var coded := ArithDecode.Decode(data, fuel);
    if coded.None? {
      return None;
    }
    var runs := Rle.Reverse(coded.value);
    if runs.Err? {
      return None;
    }
    var framed := Mtf.Reverse(runs.value);
    if |framed| < 4 {
      return None;
    }
    var index := FromBeBytes(framed[..4]);
    Pow2ThirtyTwo();
    r := backward(framed[4..], index);
  }

  /** The index bytes read back give the index, and the block follows them. */
  lemma {:induction false} FramedSplits(data: seq<byte>, forward: Forward)
    ensures var f := Framed(data, forward);
      FromBeBytes(f[..4]) == forward(data).1 && f[4..] == forward(data).0
  {
    var (block, index) := forward(data);
    Pow2ThirtyTwo();
    assert Framed(data, forward)[..4] == ToBeBytes(index, 4);
    FromToBeBytes(index, 4);
  }

  /** `mtf::reverse` undoes `mtf::apply`. */
  lemma {:induction false} UnrankedRanks(data: seq<byte>)
    ensures Unranked(Ranks(data)) == data
  {
    Mtf.ReverseApply(data);
  }

  /**
   * Bytes that hold the arithmetic code of the staged block decode back to
   * the input, when the inverse transform inverts the transform on it and
   * every run the move-to-front ranks contain is at most 255 long.
   */
  lemma {:induction false} DecodedStaged(data: seq<byte>, forward: Forward, backward: Backward, out: seq<byte>, fuel: nat)
    requires backward(forward(data).0, forward(data).1) == Some(data)
    requires Rle.ShortRuns(Ranks(Framed(data, forward)))
    requires fuel > |Staged(data, forward)|
    requires var bits := ArithEncode.Encoded(Staged(data, forward));
      |bits| <= 8 * |out| && BytesBitsMsb(out) == bits + Zeros(8 * |out| - |bits|)
    ensures Decoded(out, backward, fuel) == Some(data)
  {
    var framed := Framed(data, forward);
    var ranks := Ranks(framed);
    ArithRoundTrip.DecodesBytes(Staged(data, forward), out, fuel);
    Rle.RoundTrip(ranks);
    UnrankedRanks(framed);
    FramedSplits(data, forward);
  }

  /**
   * The tests at lines 41-60, for every input whose staged ranks have no
   * run longer than 255: `decode(encode(data)) == data`.
   */
  method RoundTrip(data: seq<byte>, forward: Forward, backward: Backward) returns (r: Option<seq<byte>>)
    requires backward(forward(data).0, forward(data).1) == Some(data)
    requires Rle.ShortRuns(Ranks(Framed(data, forward)))
    ensures r == Some(data)
  {
    var out := Encode(data, forward);
    r := Decode(out, backward, |Staged(data, forward)| + 1);
    DecodedStaged(data, forward, backward, out, |Staged(data, forward)| + 1);
  }

  /**
   * The test at lines 31-39, for every input with no run longer than 255:
   * run-length coding and then the arithmetic coder round-trip.
   */
  method RunsRoundTrip(data: seq<byte>) returns (r: Result<seq<byte>>)
    requires Rle.ShortRuns(data)
    ensures r == Ok(data)
  {
    var runs := Rle.Apply(data);
    var out := ArithEncode.Encode(runs);
    var coded := ArithDecode.Decode(out, |runs| + 1);
    ArithRoundTrip.DecodesBytes(runs, out, |runs| + 1);
    Rle.RoundTrip(data);
    r := Rle.Reverse(coded.value);
  }
}
