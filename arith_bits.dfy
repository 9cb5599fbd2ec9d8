/**
 * The bit layer of the arithmetic coder: `BitWriter` in `arithmetic/encode.rs`
 * fills each byte from bit 7 down to bit 0, and `bit_iterator` in
 * `arithmetic/decode.rs` reads the bytes back in the same order.
 */
module ArithBits {
  import opened Common
  import opened ArithMath

  /** The value of `x | ((bit as u8) << k)`: bit `k` of `x` set when `bit` is. */
  function SetBit(x: nat, bit: bool, k: nat): nat
  {
    x + (if bit && (x / Pow2(k)) % 2 == 0 then Pow2(k) else 0)
  }

  /** `bit_iterator` over one more byte reads that byte's bits last. */
  lemma {:induction false} MsbBitsSnoc(data: seq<byte>, x: byte)
    ensures BytesBitsMsb(data + [x]) == BytesBitsMsb(data) + ByteBitsMsb(x)
  {
    BytesBitsMsbAppend(data, [x]);
    assert BytesBitsMsb([x]) == ByteBitsMsb(x) + BytesBitsMsb([]);
  }

  lemma {:induction false} ZeroBits(width: nat)
    ensures ToBitsMsb(0, width) == Zeros(width)
  {
    if width > 0 {
      ZeroBits(width - 1);
    }
  }

  /** Adding `2^k` to a number whose bit `k` is clear sets that bit and no other. */
  lemma {:induction false} AddBit(x: nat, width: nat, k: nat)
    requires k < width && x < Pow2(width) && !ToBitsMsb(x, width)[width - 1 - k]
    ensures (x / Pow2(k)) % 2 == 0 && x + Pow2(k) < Pow2(width)
    ensures ToBitsMsb(x + Pow2(k), width) == ToBitsMsb(x, width)[width - 1 - k := true]
    decreases width
  {
    var r := ToBitsMsb(x, width);
    assert r == ToBitsMsb(x / 2, width - 1) + [x % 2 == 1];
    assert Pow2(width) == 2 * Pow2(width - 1);
    if k == 0 {
      assert (x + 1) / 2 == x / 2;
    } else {
      assert Pow2(k) == 2 * Pow2(k - 1);
      assert (x + Pow2(k)) / 2 == x / 2 + Pow2(k - 1);
      assert (x + Pow2(k)) % 2 == x % 2;
      assert ToBitsMsb(x / 2, width - 1)[width - 2 - (k - 1)] == r[width - 1 - k];
      AddBit(x / 2, width - 1, k - 1);
      DivDiv(x, Pow2(k - 1));
    }
  }

  /** `x |= (bit as u8) << k` on a clear bit `k` puts `bit` there and changes nothing else. */
  lemma {:induction false} SetBitBits(x: byte, bit: bool, k: nat)
    requires k < 8 && !ByteBitsMsb(x)[7 - k]
    ensures SetBit(x, bit, k) < 256
    ensures ByteBitsMsb(SetBit(x, bit, k)) == ByteBitsMsb(x)[7 - k := bit]
  {
    if bit {
      Pow2Eight();
      AddBit(x, 8, k);
    } else {
      assert ByteBitsMsb(x)[7 - k := false] == ByteBitsMsb(x);
    }
  }

  /**
   * The writer's state holds the bits `written`: reading `data` back gives
   * them, then zeros up to the end of the last byte, and a new byte is begun
   * only for a bit that needs it; `bitIndex` is the next position to fill.
   */
  ghost predicate Holds(data: seq<byte>, bitIndex: int, written: seq<bool>)
  {
    Fits(data, bitIndex, written) && (|data| == 1 || bitIndex <= 6)
  }

  /** As `Holds`, but also allowing a last byte that was begun with no bit in it. */
  ghost predicate Fits(data: seq<byte>, bitIndex: int, written: seq<bool>)
  {
    |data| >= 1 && -1 <= bitIndex <= 7 && bitIndex == 8 * |data| - |written| - 1
    && BytesBitsMsb(data) == written + Zeros(bitIndex + 1)
  }

  /** After `n` writes the writer holds `max(1, ceil(n / 8))` bytes. */
  lemma HoldsLength(data: seq<byte>, bitIndex: int, written: seq<bool>)
    requires Holds(data, bitIndex, written)
    ensures |data| == if |written| == 0 then 1 else (|written| + 7) / 8
  {
  }

  /** Once a bit is written, the bytes hold the bits and fewer than eight zeros after them. */
  lemma HoldsPadding(data: seq<byte>, bitIndex: int, written: seq<bool>)
    requires Holds(data, bitIndex, written) && |written| >= 1
    ensures |written| <= 8 * |data| < |written| + 8
    ensures BytesBitsMsb(data) == written + Zeros(8 * |data| - |written|)
  {
  }

  lemma {:induction false} HoldsEmpty()
    ensures Holds([0], 7, [])
  {
    ZeroBits(8);
    assert BytesBitsMsb([0]) == ByteBitsMsb(0) + BytesBitsMsb([]);
  }

  /** A full last byte: a zero byte is appended, to be filled from bit 7. */
  lemma {:induction false} HoldsFresh(data: seq<byte>, written: seq<bool>)
    requires Holds(data, -1, written)
    ensures Fits(data + [0], 7, written)
  {
    MsbBitsSnoc(data, 0);
    ZeroBits(8);
    assert written + Zeros(0) == written;
  }

  /** `data[len - 1] |= (bit as u8) << bit_index` records `bit` and nothing else. */
  lemma {:induction false} HoldsWrite(data: seq<byte>, bitIndex: int, written: seq<bool>, bit: bool)
    requires Fits(data, bitIndex, written) && bitIndex >= 0
    ensures SetBit(data[|data| - 1], bit, bitIndex) < 256
    ensures Holds(data[|data| - 1 := SetBit(data[|data| - 1], bit, bitIndex)], bitIndex - 1, written + [bit])
  {
    var len := |data|;
    var front, last := data[..len - 1], data[len - 1];
    assert data == front + [last];
    MsbBitsSnoc(front, last);
    WriteFits(BytesBitsMsb(front), ByteBitsMsb(last), written, bitIndex);
    SetBitBits(last, bit, bitIndex);
    var x := SetBit(last, bit, bitIndex);
    assert data[len - 1 := x] == front + [x];
    MsbBitsSnoc(front, x);
    WriteFits2(BytesBitsMsb(front), ByteBitsMsb(last), written, bitIndex, bit);
  }

  /** `BitWriter`: the bytes written so far and the next bit position in the last byte (-1 once it is full). */
  class BitWriter {
    var data: seq<byte>
    var bitIndex: int
    /** The bits written so far. */
    ghost var written: seq<bool>

    ghost predicate Valid()
      reads this
    {
      Holds(data, bitIndex, written)
    }

    /** `new`: one zero byte, to be filled from bit 7. */
    constructor ()
      ensures Valid() && written == [] && data == [0]
    {
      data := [0];
      bitIndex := 7;
      written := [];
      HoldsEmpty();
    }

    /** `write(bit)`: the bit goes to the next position, in a new byte when the last is full. */
    method Write(bit: bool)
      requires Valid()
      modifies this
      ensures Valid() && written == old(written) + [bit]
    {
      if bitIndex == -1 {
        HoldsFresh(data, written);
        data := data + [0];
        bitIndex := 7;
      }
      var len := |data|;
      HoldsWrite(data, bitIndex, written, bit);
      data := data[len - 1 := SetBit(data[len - 1], bit, bitIndex)];
      bitIndex := bitIndex - 1;
      written := written + [bit];
    }
  }

  lemma {:induction false} WriteFits(f: seq<bool>, b: seq<bool>, w: seq<bool>, k: int)
    requires 0 <= k <= 7 && |b| == 8 && |f| == |w| - 7 + k
    requires f + b == w + Zeros(k + 1)
    ensures !b[7 - k]
  {
    assert (f + b)[|f| + 7 - k] == b[7 - k];
  }

  lemma {:induction false} WriteFits2(f: seq<bool>, b: seq<bool>, w: seq<bool>, k: int, bit: bool)
    requires 0 <= k <= 7 && |b| == 8 && |f| == |w| - 7 + k
    requires f + b == w + Zeros(k + 1)
    ensures f + b[7 - k := bit] == (w + [bit]) + Zeros(k)
  {
    var lhs, rhs := f + b[7 - k := bit], (w + [bit]) + Zeros(k);
    assert |lhs| == |rhs|;
    forall i | 0 <= i < |lhs|
      ensures lhs[i] == rhs[i]
    {
      if i < |w| {
        assert lhs[i] == (f + b)[i];
      } else if i > |w| {
        assert lhs[i] == (f + b)[i];
      }
    }
  }
}
