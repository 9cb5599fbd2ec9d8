/**
 * `arithmetic/encode.rs`: the encoder keeps an interval `[low, high]` of
 * 16-bit code values. Each symbol narrows the interval to the symbol's share
 * of it, in proportion to the adaptive counts, and the interval is then
 * doubled until it straddles the middle: when it lies in the lower or upper
 * half the leading bit is settled and written, and when it lies in the middle
 * half the bit is not settled yet and is counted as pending, to be written as
 * the complement of the next settled bit.
 */
module ArithEncode {
  import opened Common
  import opened ArithConstants
  import opened ArithMath
  import opened ArithFrequencies
  import opened ArithBits

  /** The state `encode_char` works on: the interval, `bits_to_follow`, and the bits written so far. */
  datatype Coder = Coder(low: nat, high: nat, pending: nat, out: seq<bool>)

  /** `encode_following_bit(bit)` with `pending` bits to follow: `bit`, then `pending` copies of `!bit`. */
  function Follow(bit: bool, pending: nat): (r: seq<bool>)
    ensures |r| == pending + 1 && r[0] == bit
    ensures forall i :: 1 <= i < |r| ==> r[i] == !bit
  {
    [bit] + Repeat(!bit, pending)
  }

  /** An interval of code values wide enough for any symbol's share of it. */
  predicate Ready(low: nat, high: nat)
  {
    low <= high <= CodeValueMax && high - low >= FirstQuarter
  }

  /** The renormalisation loop stops: the interval straddles the middle and not only the middle half. */
  predicate Settled(low: nat, high: nat)
  {
    low < Half <= high && !(FirstQuarter <= low && high < ThirdQuarter)
  }

  /** A settled interval is wide enough for the next symbol. */
  lemma SettledReady(low: nat, high: nat)
    requires Settled(low, high) && high <= CodeValueMax
    ensures Ready(low, high)
  {
  }

  /**
   * Lines 46-51: the part of `[low, high]` that belongs to the slice
   * `[charLow, charHigh)` of `[0, total)`. It is not empty and lies inside
   * the old interval whenever the interval is at least `total` wide.
   */
  function Narrowed(low: nat, high: nat, total: nat, charLow: nat, charHigh: nat): (r: (nat, nat))
    requires low <= high && 1 <= total <= high - low + 1 && charLow < charHigh <= total
    ensures low <= r.0 <= r.1 <= high
  {
    var range := high - low + 1;
    var a, b := range * charLow / total, range * charHigh / total;
    NarrowedBounds(range, total, charLow, charHigh, a, b);
    (low + a, low + b - 1)
  }

  lemma {:induction false} NarrowedBounds(range: nat, total: nat, charLow: nat, charHigh: nat, a: nat, b: nat)
    requires 1 <= total <= range && charLow < charHigh <= total
    requires a == range * charLow / total && b == range * charHigh / total
    ensures a + 1 <= b <= range
  {
    var x, y := range * charLow, range * charHigh;
    MulMono(range, charLow + 1, charHigh);
    assert range * (charLow + 1) == x + range;
    DivMono(x + total, y, total);
    DivPlus(x, total);
    MulMono(range, charHigh, total);
    DivMono(y, range * total, total);
    assert range * total == total * range;
    DivMulCancel(range, total);
  }

  /** The narrowed interval for symbol `s` of the table `t`. */
  function NarrowedFor(t: Table, low: nat, high: nat, s: nat): (r: (nat, nat))
    requires ValidTable(t) && Ready(low, high) && 1 <= s <= EofSymbol
    ensures low <= r.0 <= r.1 <= high
  {
    SliceWithin(t, s);
    Narrowed(low, high, t.cumulative[0], t.cumulative[s], t.cumulative[s - 1])
  }

  /**
   * One pass of the loop at lines 53-69 on an unsettled interval: a settled
   * leading bit is written with the pending bits after it, or a middle-half
   * interval adds a pending bit; then the interval is doubled.
   */
  function Shift(c: Coder): (r: Coder)
    requires c.low <= c.high <= CodeValueMax && !Settled(c.low, c.high)
    ensures r.low <= r.high <= CodeValueMax && r.high - r.low == 2 * (c.high - c.low) + 1
    ensures c.out <= r.out && |r.out| + r.pending == |c.out| + c.pending + 1
  {
    if c.high < Half then
      Coder(2 * c.low, 2 * c.high + 1, 0, c.out + Follow(false, c.pending))
    else if c.low >= Half then
      Coder(2 * (c.low - Half), 2 * (c.high - Half) + 1, 0, c.out + Follow(true, c.pending))
    else
      Coder(2 * (c.low - FirstQuarter), 2 * (c.high - FirstQuarter) + 1, c.pending + 1, c.out)
  }

  /**
   * The loop at lines 53-69: it stops, with a settled interval inside the
   * code range, having only appended to the bits written.
   */
  function Renorm(c: Coder): (r: Coder)
    requires c.low <= c.high <= CodeValueMax
    ensures Settled(r.low, r.high) && Ready(r.low, r.high)
    ensures c.out <= r.out && |c.out| + c.pending <= |r.out| + r.pending
    decreases CodeValueMax - (c.high - c.low)
  {
    if Settled(c.low, c.high) then SettledReady(c.low, c.high); c
    else Renorm(Shift(c))
  }

  /** `encode_char(s)`: narrow to the slice of symbol `s`, then renormalise. */
  function EncodeStep(t: Table, c: Coder, s: nat): (r: Coder)
    requires ValidTable(t) && Ready(c.low, c.high) && 1 <= s <= EofSymbol
    ensures Settled(r.low, r.high) && Ready(r.low, r.high)
    ensures c.out <= r.out && |c.out| + c.pending <= |r.out| + r.pending
  {
    var n := NarrowedFor(t, c.low, c.high, s);
    Renorm(Coder(n.0, n.1, c.pending, c.out))
  }

  /** The state `encode` starts from: the whole code range, nothing written. */
  function Start(): Coder
  {
    Coder(0, CodeValueMax, 0, [])
  }

  /**
   * The model and the coder after the loop at lines 79-90 has coded `data`:
   * each byte as the symbol `char_to_index` gives it, the model updated with
   * that symbol after it.
   */
  function EncodedPrefix(data: seq<byte>): (r: (Table, Coder))
    ensures ValidTable(r.0) && Ready(r.1.low, r.1.high)
    decreases |data|
  {
    if data == [] then
      InitialValid();
      (Initial(), Start())
    else
      var p := EncodedPrefix(data[..|data| - 1]);
      var s := p.0.charToIndex[data[|data| - 1]];
      UpdatedValid(p.0, s);
      (Updated(p.0, s), EncodeStep(p.0, p.1, s))
  }

  /** The coder after the end symbol (lines 92-99). */
  function Finished(data: seq<byte>): (r: Coder)
    ensures Settled(r.low, r.high) && Ready(r.low, r.high)
  {
    var p := EncodedPrefix(data);
    EncodeStep(p.0, p.1, EofSymbol)
  }

  /**
   * The bits `encode` writes: the coded bytes, the end symbol, and one more
   * settled bit, chosen by the quarter `low` lies in, with the pending bits
   * and one more after it (lines 100-106).
   */
  function Encoded(data: seq<byte>): (r: seq<bool>)
    ensures |r| >= 2
  {
    var e := Finished(data);
    e.out + Follow(e.low >= FirstQuarter, e.pending + 1)
  }

  /** `encode_following_bit`: writes `bit` and the pending bits, and clears them. */
  method EncodeFollowingBit(writer: BitWriter, pending: nat, bit: bool) returns (left: nat)
    requires writer.Valid()
    modifies writer
    ensures writer.Valid() && writer.written == old(writer.written) + Follow(bit, pending) && left == 0
  {
    writer.Write(bit);
    left := pending;
    while left > 0
      invariant writer.Valid() && left <= pending
      invariant writer.written == old(writer.written) + [bit] + Repeat(!bit, pending - left)
    {
      writer.Write(!bit);
      assert Repeat(!bit, pending - left) + [!bit] == Repeat(!bit, pending - left + 1);
      left := left - 1;
    }
  }

  /** `encode_char`, from the `EncodeStep` specification. */
  method EncodeChar(writer: BitWriter, freq: Frequencies, low0: nat, high0: nat, pending0: nat, s: nat)
    returns (low: nat, high: nat, pending: nat)
    requires writer.Valid() && freq.Valid() && Ready(low0, high0) && 1 <= s <= EofSymbol
    modifies writer
    ensures writer.Valid()
    ensures Coder(low, high, pending, writer.written)
      == EncodeStep(freq.Model(), Coder(low0, high0, pending0, old(writer.written)), s)
  {
    low, high := NarrowChar(freq, low0, high0, s);
    low, high, pending := RenormLoop(writer, low, high, pending0);
  }

  /** Lines 46-51 of `encode_char`. */
  method NarrowChar(freq: Frequencies, low0: nat, high0: nat, s: nat) returns (low: nat, high: nat)
    requires freq.Valid() && Ready(low0, high0) && 1 <= s <= EofSymbol
    ensures (low, high) == NarrowedFor(freq.Model(), low0, high0, s)
  {
    SliceWithin(freq.Model(), s);
    var range := high0 - low0 + 1;
    var total := freq.Total();
    var charLow := freq.Low(s);
    var charHigh := freq.High(s);
    assert total == freq.cumulative[0] && charLow == freq.cumulative[s] && charHigh == freq.cumulative[s - 1];
    low, high := NarrowInterval(low0, high0, range, total, charLow, charHigh);
  }

  /** The arithmetic of lines 46-51. */
  method NarrowInterval(low0: nat, high0: nat, range: nat, total: nat, charLow: nat, charHigh: nat)
    returns (low: nat, high: nat)
    requires low0 <= high0 && range == high0 - low0 + 1 && 1 <= total <= range && charLow < charHigh <= total
    ensures (low, high) == Narrowed(low0, high0, total, charLow, charHigh)
  {
    NarrowedBounds(range, total, charLow, charHigh, range * charLow / total, range * charHigh / total);
    high := low0 + range * charHigh / total - 1;
    low := low0 + range * charLow / total;
  }

  /** Lines 53-69 of `encode_char`, from the `Renorm` specification. */
  method RenormLoop(writer: BitWriter, low0: nat, high0: nat, pending0: nat)
    returns (low: nat, high: nat, pending: nat)
    requires writer.Valid() && low0 <= high0 <= CodeValueMax
    modifies writer
    ensures writer.Valid()
    ensures Coder(low, high, pending, writer.written) == Renorm(Coder(low0, high0, pending0, old(writer.written)))
  {
    low, high, pending := low0, high0, pending0;
    while true
      invariant writer.Valid() && low <= high <= CodeValueMax
      invariant Renorm(Coder(low, high, pending, writer.written)) == Renorm(Coder(low0, high0, pending0, old(writer.written)))
      decreases CodeValueMax - (high - low)
    {
      ghost var before := Coder(low, high, pending, writer.written);
      if high < Half {
        pending := EncodeFollowingBit(writer, pending, false);
      } else if low >= Half {
        pending := EncodeFollowingBit(writer, pending, true);
        low := low - Half;
        high := high - Half;
      } else if low >= FirstQuarter && high < ThirdQuarter {
        pending := pending + 1;
        low := low - FirstQuarter;
        high := high - FirstQuarter;
      } else {
        break;
      }
      low := 2 * low;
      high := 2 * high + 1;
      assert Coder(low, high, pending, writer.written) == Shift(before);
    }
  }

  /** One pass of the loop at lines 79-90: code `data[i]`, then update the model. */
  method EncodeByte(writer: BitWriter, freq: Frequencies, low0: nat, high0: nat, pending0: nat,
                    data: seq<byte>, i: nat)
    returns (low: nat, high: nat, pending: nat)
    requires writer.Valid() && freq.Valid() && i < |data|
    requires (freq.Model(), Coder(low0, high0, pending0, writer.written)) == EncodedPrefix(data[..i])
    modifies writer, freq
    ensures writer.Valid() && freq.Valid()
    ensures (freq.Model(), Coder(low, high, pending, writer.written)) == EncodedPrefix(data[..i + 1])
  {
    PrefixStep(data, i);
    var charIndex := freq.charToIndex[data[i]];
    low, high, pending := EncodeChar(writer, freq, low0, high0, pending0, charIndex);
    freq.Update(charIndex);
  }

  /** Coding one more byte of `data`. */
  lemma {:induction false} PrefixStep(data: seq<byte>, i: nat)
    requires i < |data|
    ensures var p := EncodedPrefix(data[..i]);
      var s := p.0.charToIndex[data[i]];
      1 <= s <= NumberOfChars && EncodedPrefix(data[..i + 1]) == (Updated(p.0, s), EncodeStep(p.0, p.1, s))
  {
    assert data[..i + 1][..i] == data[..i];
  }

  /**
   * `encode`: the bytes it returns hold the bits of `Encoded(data)`, most
   * significant bit first, padded with zeros to a whole byte.
   */
  method Encode(data: seq<byte>) returns (out: seq<byte>)
    ensures |Encoded(data)| <= 8 * |out| < |Encoded(data)| + 8
    ensures BytesBitsMsb(out) == Encoded(data) + Zeros(8 * |out| - |Encoded(data)|)
  {
    var writer := new BitWriter();
    var freq := new Frequencies();
    var low: nat, high: nat, pending: nat := 0, CodeValueMax, 0;
    for i := 0 to |data|
      invariant writer.Valid() && freq.Valid()
      invariant (freq.Model(), Coder(low, high, pending, writer.written)) == EncodedPrefix(data[..i])
    {
      low, high, pending := EncodeByte(writer, freq, low, high, pending, data, i);
    }
    assert data[..|data|] == data;
    Finish(writer, freq, low, high, pending, data);
    out := writer.data;
    HoldsPadding(writer.data, writer.bitIndex, writer.written);
  }

  /** Lines 92-106 of `encode`: the end symbol, then the final bit and its pending bits. */
  method Finish(writer: BitWriter, freq: Frequencies, low0: nat, high0: nat, pending0: nat, ghost data: seq<byte>)
    requires writer.Valid() && freq.Valid()
    requires (freq.Model(), Coder(low0, high0, pending0, writer.written)) == EncodedPrefix(data)
    modifies writer
    ensures writer.Valid() && writer.written == Encoded(data)
  {
    var low, high, pending := EncodeChar(writer, freq, low0, high0, pending0, EofSymbol);
    ghost var e := Coder(low, high, pending, writer.written);
    assert e == Finished(data);
    pending := pending + 1;
    pending := EncodeFollowingBit(writer, pending, low >= FirstQuarter);
    EncodedIs(data, e);
  }

  lemma EncodedIs(data: seq<byte>, e: Coder)
    requires e == Finished(data)
    ensures Encoded(data) == e.out + Follow(e.low >= FirstQuarter, e.pending + 1)
  {
  }
}
