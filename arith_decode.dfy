/**
 * `arithmetic/decode.rs`: the decoder keeps the encoder's interval
 * `[low, high]` and a 16-bit window `code_value` on the input bits. The
 * window's place in the interval picks the symbol, by the same proportions
 * the encoder narrowed by, and the decoder then narrows and doubles its
 * interval exactly as the encoder did, sliding one more input bit into the
 * window each time the interval is doubled.
 */
module ArithDecode {
  import opened Common
  import opened ArithConstants
  import opened ArithMath
  import opened ArithFrequencies
  import opened ArithEncode

  /** The decoder's state: the interval, `code_value`, and the number of bits slid in so far. */
  datatype Reader = Reader(low: nat, high: nat, code: nat, pos: nat)

  /** The interval is ready for the next symbol and the window lies inside it. */
  predicate InRange(d: Reader)
  {
    Ready(d.low, d.high) && d.low <= d.code <= d.high
  }

  /** The bit `slide` takes at position `pos`: `bit_iterator`'s bit, or 0 once the input is exhausted. */
  function InputBit(bits: seq<bool>, pos: nat): nat
  {
    if pos < |bits| && bits[pos] then 1 else 0
  }

  /** The number the first `n` bits `slide` takes form, most significant first. */
  function Window(bits: seq<bool>, n: nat): (r: nat)
    ensures r < Pow2(n)
  {
    if n == 0 then 0 else 2 * Window(bits, n - 1) + InputBit(bits, n - 1)
  }

  /** Inside the input, the window is the number the input's first `n` bits form. */
  lemma {:induction false} WindowPrefix(bits: seq<bool>, n: nat)
    requires n <= |bits|
    ensures Window(bits, n) == FromBitsMsb(bits[..n])
  {
    if n > 0 {
      WindowPrefix(bits, n - 1);
      assert bits[..n][..n - 1] == bits[..n - 1];
    }
  }

  /** `slide`: the window takes the next input bit, or a 0 once the input is exhausted. */
  method Slide(bits: seq<bool>, pos: nat, code: nat) returns (next: nat)
    ensures next == 2 * code + InputBit(bits, pos)
  {
    if pos < |bits| {
      next := 2 * code + (if bits[pos] then 1 else 0);
    } else {
      next := 2 * code;
    }
  }

  /** Lines 72-74 of `decode`: sixteen slides fill the window with the first sixteen bits. */
  method Prime(bits: seq<bool>) returns (code: nat)
    ensures code == Window(bits, CodeValueBits) && code <= CodeValueMax
  {
    code := 0;
    for i := 0 to CodeValueBits
      invariant code == Window(bits, i)
    {
      code := Slide(bits, i, code);
    }
    Pow2Sixteen();
  }

  /** The reader `decode` starts from. */
  function Primed(bits: seq<bool>): (r: Reader)
    ensures InRange(r)
  {
    Pow2Sixteen();
    Reader(0, CodeValueMax, Window(bits, CodeValueBits), CodeValueBits)
  }

  /** Line 35: where the window falls in `[0, total)`, scaled from the interval. */
  function Cum(low: nat, high: nat, code: nat, total: nat): (r: nat)
    requires low <= code <= high && total >= 1
  {
    MulMono(code - low + 1, 1, total);
    ((code - low + 1) * total - 1) / (high - low + 1)
  }

  /** With the window inside the interval, `cum` lies in `[0, total)`. */
  lemma {:induction false} CumBelow(low: nat, high: nat, code: nat, total: nat)
    requires low <= code <= high && total >= 1
    ensures Cum(low, high, code, total) < total
  {
    var range, v := high - low + 1, code - low;
    MulMono(v + 1, 1, total);
    var y := (v + 1) * total - 1;
    MulMono(total, v + 1, range);
    assert total * (v + 1) == (v + 1) * total;
    DivLeIff(total, y, range);
  }

  /**
   * Lines 35-41: `cum` falls in the slice `[charLow, charHigh)` exactly when
   * the window falls in the interval the encoder narrows to for that slice.
   */
  lemma {:induction false} CumSlice(low: nat, high: nat, code: nat, total: nat, charLow: nat, charHigh: nat)
    requires low <= code <= high && 1 <= total <= high - low + 1 && charLow < charHigh <= total
    ensures var n := Narrowed(low, high, total, charLow, charHigh);
      charLow <= Cum(low, high, code, total) < charHigh <==> n.0 <= code <= n.1
  {
    var range, v := high - low + 1, code - low;
    MulMono(v + 1, 1, total);
    var y := (v + 1) * total - 1;
    DivLeIff(charLow, y, range);
    DivLeIff(v + 1, range * charLow, total);
    assert charLow * range == range * charLow;
    DivLeIff(charHigh, y, range);
    DivLeIff(v + 1, range * charHigh, total);
    assert charHigh * range == range * charHigh;
  }

  /** The end symbol's slice ends at 0. */
  lemma EofEnds(t: Table)
    requires Shaped(t)
    ensures t.cumulative[EofSymbol] == 0
  {
  }

  /** The least symbol from `s` on whose slice begins at or below `cum`. */
  function SymbolFrom(t: Table, cum: nat, s: nat): (r: nat)
    requires Shaped(t) && 1 <= s <= EofSymbol
    ensures s <= r <= EofSymbol && t.cumulative[r] <= cum
    ensures forall j :: s <= j < r ==> t.cumulative[j] > cum
    decreases EofSymbol - s
  {
    EofEnds(t);
    if t.cumulative[s] <= cum || s == EofSymbol then s else SymbolFrom(t, cum, s + 1)
  }

  /** The symbol `get_symbol_index(cum)` returns: the least whose slice begins at or below `cum`. */
  function SymbolAt(t: Table, cum: nat): (r: nat)
    requires Shaped(t)
    ensures 1 <= r <= EofSymbol
  {
    SymbolFrom(t, cum, 1)
  }

  /**
   * For `cum` in `[0, total)`, `get_symbol_index` returns a symbol exactly
   * when `cum` lies in that symbol's slice.
   */
  lemma {:induction false} SymbolSlice(t: Table, cum: nat, s: nat)
    requires Shaped(t) && cum < t.cumulative[0] && 1 <= s <= EofSymbol
    ensures SymbolAt(t, cum) == s <==> t.cumulative[s] <= cum < t.cumulative[s - 1]
  {
    var r := SymbolAt(t, cum);
    if r == s {
      if s > 1 {
        assert t.cumulative[s - 1] > cum;
      }
    } else if r < s {
      if r < s - 1 {
        Falling(t, r, s - 1);
      }
      assert t.cumulative[s - 1] <= cum;
    } else {
      assert t.cumulative[s] > cum;
    }
  }

  /**
   * The decoder picks symbol `s` exactly when its window lies in the
   * interval the encoder narrows to for `s`: the step that makes decoding
   * invert encoding.
   */
  lemma {:induction false} SymbolIff(t: Table, d: Reader, s: nat)
    requires ValidTable(t) && InRange(d) && 1 <= s <= EofSymbol
    ensures var n := NarrowedFor(t, d.low, d.high, s);
      SymbolAt(t, Cum(d.low, d.high, d.code, t.cumulative[0])) == s <==> n.0 <= d.code <= n.1
  {
    SliceWithin(t, s);
    var total := t.cumulative[0];
    var cum := Cum(d.low, d.high, d.code, total);
    CumBelow(d.low, d.high, d.code, total);
    SymbolSlice(t, cum, s);
    CumSlice(d.low, d.high, d.code, total, t.cumulative[s], t.cumulative[s - 1]);
  }

  /** One pass of the loop at lines 43-59: the encoder's doubling, with one more bit slid into the window. */
  function DShift(d: Reader, bits: seq<bool>): (r: Reader)
    requires d.low <= d.code <= d.high <= CodeValueMax && !Settled(d.low, d.high)
    ensures r.low <= r.code <= r.high <= CodeValueMax && r.pos == d.pos + 1
    ensures r.high - r.low == 2 * (d.high - d.low) + 1
  {
    var bit := InputBit(bits, d.pos);
    if d.high < Half then
      Reader(2 * d.low, 2 * d.high + 1, 2 * d.code + bit, d.pos + 1)
    else if d.low >= Half then
      Reader(2 * (d.low - Half), 2 * (d.high - Half) + 1, 2 * (d.code - Half) + bit, d.pos + 1)
    else
      Reader(2 * (d.low - FirstQuarter), 2 * (d.high - FirstQuarter) + 1, 2 * (d.code - FirstQuarter) + bit, d.pos + 1)
  }

  /** The loop at lines 43-59: it stops with a settled interval that still holds the window. */
  function DRenorm(d: Reader, bits: seq<bool>): (r: Reader)
    requires d.low <= d.code <= d.high <= CodeValueMax
    ensures InRange(r) && Settled(r.low, r.high) && r.pos >= d.pos
    decreases CodeValueMax - (d.high - d.low)
  {
    if Settled(d.low, d.high) then SettledReady(d.low, d.high); d
    else DRenorm(DShift(d, bits), bits)
  }

  /**
   * `next_symbol_index`: the symbol the window picks, and the reader after
   * narrowing to that symbol and renormalising, with the window still inside
   * the interval, whatever the input.
   */
  function DecodeStep(t: Table, d: Reader, bits: seq<bool>): (r: (nat, Reader))
    requires ValidTable(t) && InRange(d)
    ensures 1 <= r.0 <= EofSymbol && InRange(r.1)
  {
    OnesBelow(t);
    var s := SymbolAt(t, Cum(d.low, d.high, d.code, t.cumulative[0]));
    var n := NarrowedFor(t, d.low, d.high, s);
    SymbolIff(t, d, s);
    (s, DRenorm(Reader(n.0, n.1, d.code, d.pos), bits))
  }

  /**
   * The loop at lines 76-91, given `fuel` passes at most: the bytes decoded
   * before the end symbol, or `None` when the fuel runs out first.
   */
  function DecodeFrom(t: Table, d: Reader, bits: seq<bool>, fuel: nat): Option<seq<byte>>
    requires ValidTable(t) && InRange(d)
    decreases fuel
  {
    if fuel == 0 then None
    else
      var step := DecodeStep(t, d, bits);
      if step.0 == EofSymbol then Some([])
      else
        UpdatedValid(t, step.0);
        Prepend([t.indexToChar[step.0]], DecodeFrom(Updated(t, step.0), step.1, bits, Spent(fuel)))
  }

  /** The fuel left after one pass. */
  function Spent(fuel: nat): (r: nat)
    requires fuel >= 1
    ensures r < fuel
  {
    fuel - 1
  }

  /** `decode` on the bits `bits`, with the loop cut off after `fuel` passes. */
  function DecodeAll(bits: seq<bool>, fuel: nat): Option<seq<byte>>
  {
    InitialValid();
    DecodeFrom(Initial(), Primed(bits), bits, fuel)
  }

  /** `get_symbol_index`, from the `SymbolAt` specification. */
  method GetSymbolIndex(freq: Frequencies, cum: nat) returns (s: nat)
    requires freq.Valid()
    ensures s == SymbolAt(freq.Model(), cum)
  {
    EofEnds(freq.Model());
    s := 1;
    while freq.Low(s) > cum
      invariant 1 <= s <= EofSymbol
      invariant SymbolFrom(freq.Model(), cum, s) == SymbolAt(freq.Model(), cum)
      decreases EofSymbol - s
    {
      s := s + 1;
    }
  }

  /** `next_symbol_index`, from the `DecodeStep` specification. */
  method NextSymbolIndex(bits: seq<bool>, freq: Frequencies, d: Reader) returns (s: nat, r: Reader)
    requires freq.Valid() && InRange(d)
    ensures (s, r) == DecodeStep(freq.Model(), d, bits)
  {
    OnesBelow(freq.Model());
    var range := d.high - d.low + 1;
    var total := freq.Total();
    var cum := CumOf(d.low, d.high, d.code, range, total);
    s := GetSymbolIndex(freq, cum);
    var low, high := NarrowChar(freq, d.low, d.high, s);
    SymbolIff(freq.Model(), d, s);
    r := DecodeRenormLoop(bits, Reader(low, high, d.code, d.pos));
  }

  /** The arithmetic of line 35. */
  method CumOf(low: nat, high: nat, code: nat, range: nat, total: nat) returns (cum: nat)
    requires low <= code <= high && range == high - low + 1 && total >= 1
    ensures cum == Cum(low, high, code, total)
  {
    MulMono(code - low + 1, 1, total);
    cum := ((code - low + 1) * total - 1) / range;
  }

  /** Lines 43-59 of `next_symbol_index`, from the `DRenorm` specification. */
  method DecodeRenormLoop(bits: seq<bool>, d: Reader) returns (r: Reader)
    requires d.low <= d.code <= d.high <= CodeValueMax
    ensures r == DRenorm(d, bits)
  {
    var low: nat, high: nat, code: nat, pos: nat := d.low, d.high, d.code, d.pos;
    while true
      invariant low <= code <= high <= CodeValueMax
      invariant DRenorm(Reader(low, high, code, pos), bits) == DRenorm(d, bits)
      decreases CodeValueMax - (high - low)
    {
      ghost var before := Reader(low, high, code, pos);
      if high < Half {
      } else if low >= Half {
        code := code - Half;
        low := low - Half;
        high := high - Half;
      } else if low >= FirstQuarter && high < ThirdQuarter {
        code := code - FirstQuarter;
        low := low - FirstQuarter;
        high := high - FirstQuarter;
      } else {
        break;
      }
      low := 2 * low;
      high := 2 * high + 1;
      code := Slide(bits, pos, code);
      pos := pos + 1;
      assert Reader(low, high, code, pos) == DShift(before, bits);
    }
    r := Reader(low, high, code, pos);
  }

  /**
   * `decode`, with the loop cut off after `fuel` passes, from the
   * `DecodeAll` specification on the bits of `data`.
   */
  method Decode(data: seq<byte>, fuel: nat) returns (r: Option<seq<byte>>)
    ensures r == DecodeAll(BytesBitsMsb(data), fuel)
  {
    var bits := BytesBitsMsb(data);
    var freq := new Frequencies();
    var code := Prime(bits);
    r := DecodeLoop(bits, freq, Reader(0, CodeValueMax, code, CodeValueBits), fuel);
  }

  /** Lines 76-91 of `decode`, cut off after `fuel` passes, from the `DecodeFrom` specification. */
  method DecodeLoop(bits: seq<bool>, freq: Frequencies, d0: Reader, fuel: nat) returns (r: Option<seq<byte>>)
    requires freq.Valid() && InRange(d0)
    modifies freq
    ensures r == DecodeFrom(old(freq.Model()), d0, bits, fuel)
  {
    var d := d0;
    var decoded: seq<byte> := [];
    var left: nat := fuel;
    ghost var goal := DecodeFrom(freq.Model(), d0, bits, fuel);
    r := None;
    while left > 0
      invariant freq.Valid() && InRange(d) && left <= fuel
      invariant Prepend(decoded, DecodeFrom(freq.Model(), d, bits, left)) == goal
      invariant r == None
    {
      var done;
      done, d, decoded := DecodePass(bits, freq, d, decoded, left);
      if done {
        r := Some(decoded);
        break;
      }
      left := Spent(left);
    }
  }

  /** One pass of the loop, stated as what it leaves of the decoding still to do. */
  method DecodePass(bits: seq<bool>, freq: Frequencies, d: Reader, decoded: seq<byte>, left: nat)
    returns (done: bool, next: Reader, longer: seq<byte>)
    requires freq.Valid() && InRange(d) && left >= 1
    modifies freq
    ensures freq.Valid() && InRange(next)
    ensures done ==> Prepend(decoded, DecodeFrom(old(freq.Model()), d, bits, left)) == Some(longer)
    ensures !done ==>
      Prepend(decoded, DecodeFrom(old(freq.Model()), d, bits, left)) == Prepend(longer, DecodeFrom(freq.Model(), next, bits, Spent(left)))
  {
    ghost var t := freq.Model();
    var s, c;
    s, next, c := DecodeOne(bits, freq, d);
    LoopStep(t, d, bits, left, s, next, c, decoded);
    done := s == EofSymbol;
    longer := if done then decoded else decoded + [c];
  }

  /** One pass of the loop at lines 76-91: the next symbol, and for a byte the byte, with the model updated. */
  method DecodeOne(bits: seq<bool>, freq: Frequencies, d: Reader) returns (s: nat, r: Reader, c: byte)
    requires freq.Valid() && InRange(d)
    modifies freq
    ensures freq.Valid() && (s, r) == DecodeStep(old(freq.Model()), d, bits)
    ensures s == EofSymbol ==> freq.Model() == old(freq.Model())
    ensures s != EofSymbol ==> c == old(freq.Model()).indexToChar[s] && freq.Model() == Updated(old(freq.Model()), s)
  {
    s, r := NextSymbolIndex(bits, freq, d);
    c := 0;
    if s != EofSymbol {
      c := freq.indexToChar[s];
      freq.Update(s);
    }
  }

  /** What one pass of the loop does to the decoded prefix and the rest of the decoding. */
  lemma {:induction false} LoopStep(t: Table, e: Reader, bits: seq<bool>, left: nat, s: nat, d: Reader, c: byte, decoded: seq<byte>)
    requires ValidTable(t) && InRange(e) && left >= 1
    requires (s, d) == DecodeStep(t, e, bits)
    requires s != EofSymbol ==> c == t.indexToChar[s]
    ensures s != EofSymbol ==> ValidTable(Updated(t, s))
    ensures s == EofSymbol ==> Prepend(decoded, DecodeFrom(t, e, bits, left)) == Some(decoded)
    ensures s != EofSymbol ==>
      Prepend(decoded, DecodeFrom(t, e, bits, left)) == Prepend(decoded + [c], DecodeFrom(Updated(t, s), d, bits, Spent(left)))
  {
    if s != EofSymbol {
      UpdatedValid(t, s);
      assert DecodeFrom(t, e, bits, left) == Prepend([c], DecodeFrom(Updated(t, s), d, bits, Spent(left)));
      PrependPrepend(decoded, [c], DecodeFrom(Updated(t, s), d, bits, Spent(left)));
    } else {
      assert DecodeFrom(t, e, bits, left) == Some([]);
      assert decoded + [] == decoded;
    }
  }

}
