/**
 * Why `arithmetic::decode(arithmetic::encode(data)) == data`, the property
 * the tests in `arithmetic/mod.rs` check on two strings.
 *
 * Every state of the encoder stands for an interval of numbers at a growing
 * binary precision: the bits written, then the pending (not yet settled)
 * bits, then the sixteen bits of `[low, high]`. Narrowing to a symbol's
 * share shrinks that interval and doubling only refines its precision, so
 * every later interval lies inside every earlier one, and the bits `encode`
 * writes at the end name a number inside the last interval. The decoder
 * mirrors the encoder's `low` and `high` step for step and its
 * `code_value` is that number, read to the current precision and with the
 * interval's offset taken off; so it lies in the share of the very symbol
 * the encoder coded, which is the symbol `get_symbol_index` picks.
 */
module ArithRoundTrip {
  import opened Common
  import opened ArithConstants
  import opened ArithMath
  import opened ArithFrequencies
  import opened ArithEncode
  import opened ArithDecode

  // ---------------------------------------------------------------------
  // The numbers bit strings stand for
  // ---------------------------------------------------------------------

  lemma {:induction false} FromBitsMsbAppend(a: seq<bool>, b: seq<bool>)
    ensures FromBitsMsb(a + b) == FromBitsMsb(a) * Pow2(|b|) + FromBitsMsb(b)
    decreases |b|
  {
    if b == [] {
      assert a + b == a;
    } else {
      var front, last := b[..|b| - 1], b[|b| - 1];
      SnocFront(a, b);
      FromBitsMsbAppend(a, front);
      MulPow2Succ(FromBitsMsb(a), |front|, |b|);
      var bit := if last then 1 else 0;
      assert FromBitsMsb(a + b) == 2 * FromBitsMsb(a + front) + bit;
      assert FromBitsMsb(b) == 2 * FromBitsMsb(front) + bit;
      Combine(FromBitsMsb(a + b), FromBitsMsb(a), FromBitsMsb(b), Pow2(|b|), Pow2(|front|), FromBitsMsb(front), bit);
    }
  }

  /** Dropping the last bit of `a + b` drops the last bit of `b`. */
  lemma SnocFront(a: seq<bool>, b: seq<bool>)
    requires b != []
    ensures (a + b)[..|a + b| - 1] == a + b[..|b| - 1] && (a + b)[|a + b| - 1] == b[|b| - 1]
  {
  }

  lemma Combine(z: int, x: int, y: int, big: int, p: int, f: int, bit: int)
    requires z == 2 * (x * p + f) + bit && y == 2 * f + bit && x * big == 2 * (x * p)
    ensures z == x * big + y
  {
  }

  lemma {:induction false} MulPow2Succ(x: nat, n: nat, m: nat)
    requires m == n + 1
    ensures x * Pow2(m) == 2 * (x * Pow2(n))
  {
    assert Pow2(m) == 2 * Pow2(n);
  }

  /** The number `[bit]` followed by `k` copies of `!bit` stands for. */
  lemma {:induction false} FollowValue(bit: bool, k: nat)
    ensures FromBitsMsb(Follow(bit, k)) == if bit then Pow2(k) else Pow2(k) - 1
  {
    var f := Follow(bit, k);
    if k == 0 {
      assert f[..0] == [];
    } else {
      assert f[..|f| - 1] == Follow(bit, k - 1);
      FollowValue(bit, k - 1);
    }
  }

  // ---------------------------------------------------------------------
  // The interval an encoder state stands for
  // ---------------------------------------------------------------------

  /** The precision of the state: sixteen bits, the bits written, and the pending bits. */
  function Depth(c: Coder): nat
  {
    CodeValueBits + |c.out| + c.pending
  }

  /** The bits written followed by `Follow(bit, p)`, less their last bit. */
  lemma FollowFront(out: seq<bool>, bit: bool, p: nat)
    requires p >= 1
    ensures var s := out + Follow(bit, p);
      s[..|s| - 1] == out + Follow(bit, p - 1) && s[|s| - 1] == !bit
  {
  }

  /** A 0 followed by ones stands for one less than a 1 followed by as many zeros. */
  lemma {:induction false} FollowPred(out: seq<bool>, p: nat)
    ensures FromBitsMsb(out + Follow(false, p)) + 1 == FromBitsMsb(out + Follow(true, p))
  {
    if p == 0 {
      SnocFront(out, Follow(false, 0));
      SnocFront(out, Follow(true, 0));
    } else {
      FollowFront(out, false, p);
      FollowFront(out, true, p);
      FollowPred(out, p - 1);
    }
  }

  /**
   * The number the written bits, then a 1, then `pending` zeros stand for;
   * one less is the number of the written bits, a 0 and `pending` ones.
   */
  function Mark(c: Coder): (r: nat)
    ensures r >= 1 && r - 1 == FromBitsMsb(c.out + Follow(false, c.pending))
  {
    FollowPred(c.out, c.pending);
    FromBitsMsb(c.out + Follow(true, c.pending))
  }

  /** Where `[low, high]` sits at the state's precision: the bits before it, times `2^15`. */
  function Offset(c: Coder): (r: nat)
    ensures r == Half * (Mark(c) - 1)
  {
    ConstantValues();
    0x8000 * (Mark(c) - 1)
  }

  /** The lower end of the interval, at the state's precision. */
  function Lo(c: Coder): nat
  {
    Offset(c) + c.low
  }

  /** One past the upper end of the interval, at the state's precision. */
  function Hi(c: Coder): nat
  {
    Offset(c) + c.high + 1
  }

  /** A settled bit moves the pending bits into the bits written; a middle-half step adds one. */
  lemma {:induction false} MarkShift(c: Coder)
    requires c.low <= c.high <= CodeValueMax && !Settled(c.low, c.high)
    ensures Mark(Shift(c)) == if c.high < Half then 2 * Mark(c) - 1
                              else if c.low >= Half then 2 * Mark(c) + 1
                              else 2 * Mark(c)
  {
    var c1 := Shift(c);
    if c.high < Half || c.low >= Half {
      var bit := c.high >= Half;
      var w := c.out + Follow(bit, c.pending);
      assert c1.out == w && c1.pending == 0;
      SnocFront(w, Follow(true, 0));
    } else {
      assert c1.out == c.out && c1.pending == c.pending + 1;
      FollowFront(c.out, true, c.pending + 1);
    }
  }

  /** `Offset` after one doubling: twice the old one, plus twice what the step took off `low`. */
  lemma {:induction false} OffsetShift(c: Coder)
    requires c.low <= c.high <= CodeValueMax && !Settled(c.low, c.high)
    ensures Offset(Shift(c)) == 2 * Offset(c) + 2 * (if c.high < Half then 0 else if c.low >= Half then Half else FirstQuarter)
  {
    MarkShift(c);
    ConstantValues();
  }

  /** Doubling leaves the interval where it is, one bit more precisely. */
  lemma {:induction false} ShiftScales(c: Coder)
    requires c.low <= c.high <= CodeValueMax && !Settled(c.low, c.high)
    ensures Depth(Shift(c)) == Depth(c) + 1
    ensures Lo(Shift(c)) == 2 * Lo(c) && Hi(Shift(c)) == 2 * Hi(c)
  {
    OffsetShift(c);
  }

  /** `x * 2^k`, written as `k` doublings so that proofs about it stay linear. */
  function Scaled(x: nat, k: nat): nat
  {
    if k == 0 then x else 2 * Scaled(x, k - 1)
  }

  lemma {:induction false} ScaledDouble(x: nat, y: nat, k: nat, k1: nat)
    requires y == 2 * x && k1 == k + 1
    ensures Scaled(y, k) == Scaled(x, k1)
  {
    if k > 0 {
      ScaledDouble(x, y, k - 1, k);
    }
  }

  lemma {:induction false} ScaledMono(a: nat, b: nat, k: nat)
    requires a <= b
    ensures Scaled(a, k) <= Scaled(b, k)
  {
    if k > 0 {
      ScaledMono(a, b, k - 1);
    }
  }

  lemma {:induction false} ScaledIsProduct(x: nat, k: nat)
    ensures Scaled(x, k) == x * Pow2(k)
  {
    if k > 0 {
      ScaledIsProduct(x, k - 1);
      MulPow2Succ(x, k - 1, k);
    }
  }

  /** The interval of `c`, at precision `n`, holds the `n`-bit number `x`. */
  ghost predicate Contains(c: Coder, x: nat, n: nat)
  {
    Depth(c) <= n && Scaled(Lo(c), n - Depth(c)) <= x < Scaled(Hi(c), n - Depth(c))
  }

  lemma {:induction false} ContainsShift(c: Coder, x: nat, n: nat)
    requires c.low <= c.high <= CodeValueMax && !Settled(c.low, c.high)
    requires Contains(Shift(c), x, n)
    ensures Contains(c, x, n)
  {
    var c1 := Shift(c);
    ShiftScales(c);
    ScaledDouble(Lo(c), Lo(c1), n - Depth(c1), n - Depth(c));
    ScaledDouble(Hi(c), Hi(c1), n - Depth(c1), n - Depth(c));
  }

  /** What the renormalisation loop ends with holds only numbers the interval it began with holds. */
  lemma {:induction false} ContainsRenorm(c: Coder, x: nat, n: nat)
    requires c.low <= c.high <= CodeValueMax && Contains(Renorm(c), x, n)
    ensures Contains(c, x, n)
    decreases CodeValueMax - (c.high - c.low)
  {
    if !Settled(c.low, c.high) {
      ContainsRenorm(Shift(c), x, n);
      ContainsShift(c, x, n);
    }
  }

  /** The state after narrowing to the share of symbol `s`, before renormalising. */
  function NarrowedCoder(t: Table, c: Coder, s: nat): (r: Coder)
    requires ValidTable(t) && Ready(c.low, c.high) && 1 <= s <= EofSymbol
    ensures r.pending == c.pending && r.out == c.out && c.low <= r.low <= r.high <= c.high
    ensures EncodeStep(t, c, s) == Renorm(r)
  {
    var n := NarrowedFor(t, c.low, c.high, s);
    Coder(n.0, n.1, c.pending, c.out)
  }

  /**
   * A number the state after `encode_char(s)` holds is held by the
   * narrowed interval, and so by the interval before the symbol.
   */
  lemma {:induction false} ContainsStep(t: Table, c: Coder, s: nat, x: nat, n: nat)
    requires ValidTable(t) && Ready(c.low, c.high) && 1 <= s <= EofSymbol
    requires Contains(EncodeStep(t, c, s), x, n)
    ensures Contains(NarrowedCoder(t, c, s), x, n) && Contains(c, x, n)
  {
    var m := NarrowedCoder(t, c, s);
    ContainsRenorm(m, x, n);
    ScaledMono(Lo(c), Lo(m), n - Depth(c));
    ScaledMono(Hi(m), Hi(c), n - Depth(c));
  }

  // ---------------------------------------------------------------------
  // The decoder's window
  // ---------------------------------------------------------------------

  lemma WindowSucc(bits: seq<bool>, n: nat, m: nat)
    requires m == n + 1
    ensures Window(bits, m) == 2 * Window(bits, n) + InputBit(bits, n)
  {
  }

  /** Bounds on the window `k` bits further on bound the window here. */
  lemma {:induction false} WindowWithin(bits: seq<bool>, d: nat, k: nat, lo: nat, hi: nat)
    requires Scaled(lo, k) <= Window(bits, d + k) < Scaled(hi, k)
    ensures lo <= Window(bits, d) < hi
  {
    if k > 0 {
      WindowSucc(bits, d + k - 1, d + k);
      WindowWithin(bits, d, k - 1, lo, hi);
    }
  }

  /** A state whose interval holds the `n`-bit window holds the window at its own precision. */
  lemma {:induction false} ContainsWindow(c: Coder, bits: seq<bool>, n: nat)
    requires Contains(c, Window(bits, n), n)
    ensures Lo(c) <= Window(bits, Depth(c)) < Hi(c)
  {
    var k := n - Depth(c);
    assert Depth(c) + k == n;
    WindowWithin(bits, Depth(c), k, Lo(c), Hi(c));
  }

  /** Zeros after the input change no window: `slide` shifts in zeros past the end anyway. */
  lemma {:induction false} WindowPad(bits: seq<bool>, k: nat, n: nat)
    ensures Window(bits + Zeros(k), n) == Window(bits, n)
  {
    if n > 0 {
      WindowPad(bits, k, n - 1);
      assert InputBit(bits + Zeros(k), n - 1) == InputBit(bits, n - 1);
    }
  }

  /** Past the end of the input, each further bit doubles the window. */
  lemma {:induction false} WindowBeyond(bits: seq<bool>, k: nat)
    ensures Window(bits, |bits| + k) == Scaled(FromBitsMsb(bits), k)
  {
    if k == 0 {
      WindowPrefix(bits, |bits|);
      assert bits[..|bits|] == bits;
    } else {
      WindowSucc(bits, |bits| + k - 1, |bits| + k);
      WindowBeyond(bits, k - 1);
    }
  }

  // ---------------------------------------------------------------------
  // The decoder tracks the encoder
  // ---------------------------------------------------------------------

  /**
   * The decoder's state `d` mirrors the encoder's state `c`: the same
   * interval, as many bits read as `c` stands for, and `code_value` the
   * window of that many input bits less the interval's offset.
   */
  ghost predicate Agree(d: Reader, c: Coder, bits: seq<bool>)
  {
    d.low == c.low && d.high == c.high && d.pos == Depth(c) && Offset(c) + d.code == Window(bits, d.pos)
  }

  /** One doubling of the decoder mirrors one doubling of the encoder. */
  lemma {:induction false} AgreeShift(d: Reader, c: Coder, bits: seq<bool>)
    requires d.low <= d.code <= d.high <= CodeValueMax && !Settled(d.low, d.high)
    requires Agree(d, c, bits)
    ensures Agree(DShift(d, bits), Shift(c), bits)
  {
    OffsetShift(c);
    WindowSucc(bits, d.pos, d.pos + 1);
    ConstantValues();
  }

  /** The renormalisation loops of `decode` and `encode` stay in step. */
  lemma {:induction false} AgreeRenorm(d: Reader, c: Coder, bits: seq<bool>)
    requires d.low <= d.code <= d.high <= CodeValueMax && Agree(d, c, bits)
    ensures Agree(DRenorm(d, bits), Renorm(c), bits)
    decreases CodeValueMax - (d.high - d.low)
  {
    if !Settled(d.low, d.high) {
      AgreeShift(d, c, bits);
      AgreeRenorm(DShift(d, bits), Shift(c), bits);
    }
  }

  /**
   * When the encoder, from a state the decoder mirrors, coded a symbol `s`
   * whose interval holds the window that determines the input, the decoder
   * picks `s` and mirrors the encoder again.
   */
  lemma {:induction false} DecodeStepAgrees(t: Table, c: Coder, d: Reader, s: nat, bits: seq<bool>, n: nat)
    requires ValidTable(t) && InRange(d) && 1 <= s <= EofSymbol && Agree(d, c, bits)
    requires Ready(c.low, c.high) && Contains(EncodeStep(t, c, s), Window(bits, n), n)
    ensures DecodeStep(t, d, bits).0 == s && Agree(DecodeStep(t, d, bits).1, EncodeStep(t, c, s), bits)
  {
    var m := NarrowedCoder(t, c, s);
    ContainsStep(t, c, s, Window(bits, n), n);
    ContainsWindow(m, bits, n);
    SymbolIff(t, d, s);
    var e := Reader(m.low, m.high, d.code, d.pos);
    assert Agree(e, m, bits);
    AgreeRenorm(e, m, bits);
  }

  // ---------------------------------------------------------------------
  // The round trip
  // ---------------------------------------------------------------------

  lemma {:induction false} ScaledFourteen(x: nat)
    ensures Scaled(x, 14) == 16384 * x
  {
    ScaledIsProduct(x, 14);
    assert Pow2(14) == 16384;
  }

  /**
   * The bits `encode` ends with, from a settled state: the bits written,
   * then the quarter point `low` lies above (`01` or `10`) with the pending
   * bits in between. They name a number inside the state's interval.
   */
  lemma {:induction false} FinalBitsInside(e: Coder)
    requires Settled(e.low, e.high) && e.high <= CodeValueMax
    ensures var bits := e.out + Follow(e.low >= FirstQuarter, e.pending + 1);
      Contains(e, Window(bits, Depth(e)), Depth(e))
  {
    var bit := e.low >= FirstQuarter;
    var bits := e.out + Follow(bit, e.pending + 1);
    assert Depth(e) == |bits| + 14;
    WindowBeyond(bits, 14);
    FollowFront(e.out, bit, e.pending + 1);
    var x := FromBitsMsb(bits);
    assert x == 2 * FromBitsMsb(e.out + Follow(bit, e.pending)) + (if bit then 0 else 1);
    ScaledFourteen(x);
    ConstantValues();
  }

  /** The bits `encode` writes name a number inside the interval left after the end symbol. */
  lemma {:induction false} FinalContains(data: seq<byte>)
    ensures Contains(Finished(data), Window(Encoded(data), Depth(Finished(data))), Depth(Finished(data)))
  {
    FinalBitsInside(Finished(data));
    EncodedIs(data, Finished(data));
  }

  /** Every state the encoder passes through holds what the final state holds. */
  lemma {:induction false} ContainsPrefix(data: seq<byte>, i: nat, x: nat, n: nat)
    requires i <= |data| && Contains(Finished(data), x, n)
    ensures Contains(EncodedPrefix(data[..i]).1, x, n)
    decreases |data| - i
  {
    var p := EncodedPrefix(data[..i]);
    if i == |data| {
      assert data[..i] == data;
      ContainsStep(p.0, p.1, EofSymbol, x, n);
    } else {
      ContainsPrefix(data, i + 1, x, n);
      PrefixStep(data, i);
      ContainsStep(p.0, p.1, p.0.charToIndex[data[i]], x, n);
    }
  }

  /**
   * A decoder that mirrors the encoder after `data[..i]`, reading bits that
   * name a number inside the final interval, decodes the rest of `data` and
   * stops at the end symbol.
   */
  lemma {:induction false} DecodesRest(data: seq<byte>, i: nat, d: Reader, bits: seq<bool>, fuel: nat, n: nat)
    requires i <= |data| && fuel > |data| - i && InRange(d)
    requires Agree(d, EncodedPrefix(data[..i]).1, bits) && Contains(Finished(data), Window(bits, n), n)
    ensures DecodeFrom(EncodedPrefix(data[..i]).0, d, bits, fuel) == Some(data[i..])
    decreases |data| - i
  {
    if i == |data| {
      DecodesEnd(data, i, d, bits, fuel, n);
    } else {
      var t := EncodedPrefix(data[..i]).0;
      var s, next := DecodesByte(data, i, d, bits, n);
      DecodesRest(data, i + 1, next, bits, Spent(fuel), n);
      DecodesConsed(data, i, t, d, bits, fuel, s, next);
    }
  }

  /**
   * From a state mirroring the encoder after `data[..i]`, one pass of the
   * decoder yields the symbol of `data[i]` and a state mirroring the
   * encoder after `data[..i + 1]`.
   */
  lemma {:induction false} DecodesByte(data: seq<byte>, i: nat, d: Reader, bits: seq<bool>, n: nat) returns (s: nat, next: Reader)
    requires i < |data| && InRange(d)
    requires Agree(d, EncodedPrefix(data[..i]).1, bits) && Contains(Finished(data), Window(bits, n), n)
    ensures var t := EncodedPrefix(data[..i]).0;
      1 <= s <= NumberOfChars && s == DecodeStep(t, d, bits).0 && next == DecodeStep(t, d, bits).1
      && InRange(next) && t.indexToChar[s] == data[i]
      && EncodedPrefix(data[..i + 1]).0 == Updated(t, s) && Agree(next, EncodedPrefix(data[..i + 1]).1, bits)
  {
    var p := EncodedPrefix(data[..i]);
    s := p.0.charToIndex[data[i]];
    PrefixStep(data, i);
    ContainsPrefix(data, i + 1, Window(bits, n), n);
    DecodeStepAgrees(p.0, p.1, d, s, bits, n);
    next := DecodeStep(p.0, d, bits).1;
  }

  /** The byte decoded, then what decoding the rest gives. */
  lemma {:induction false} DecodesConsed(data: seq<byte>, i: nat, t: Table, d: Reader, bits: seq<bool>, fuel: nat, s: nat, next: Reader)
    requires i < |data| && ValidTable(t) && InRange(d) && fuel >= 1 && 1 <= s <= NumberOfChars
    requires s == DecodeStep(t, d, bits).0 && next == DecodeStep(t, d, bits).1 && t.indexToChar[s] == data[i]
    requires var u := Updated(t, s); ValidTable(u) && DecodeFrom(u, next, bits, Spent(fuel)) == Some(data[i + 1..])
    ensures DecodeFrom(t, d, bits, fuel) == Some(data[i..])
  {
    DecodeOneMore(t, d, bits, fuel, s, next);
    ConsRest(data, i);
  }

  /** After the whole input, the decoder reads the end symbol and stops. */
  lemma {:induction false} DecodesEnd(data: seq<byte>, i: nat, d: Reader, bits: seq<bool>, fuel: nat, n: nat)
    requires i == |data| && fuel >= 1 && InRange(d)
    requires Agree(d, EncodedPrefix(data[..i]).1, bits) && Contains(Finished(data), Window(bits, n), n)
    ensures DecodeFrom(EncodedPrefix(data[..i]).0, d, bits, fuel) == Some(data[i..])
  {
    assert data[..i] == data && data[i..] == [];
    var p := EncodedPrefix(data);
    EndAgrees(p.0, p.1, d, bits, fuel, n);
  }

  /** A decoder in step with the encoder, whose window lies in the end symbol's interval, stops there. */
  lemma {:induction false} EndAgrees(t: Table, c: Coder, d: Reader, bits: seq<bool>, fuel: nat, n: nat)
    requires ValidTable(t) && Ready(c.low, c.high) && InRange(d) && fuel >= 1 && Agree(d, c, bits)
    requires Contains(EncodeStep(t, c, EofSymbol), Window(bits, n), n)
    ensures DecodeFrom(t, d, bits, fuel) == Some([])
  {
    DecodeStepAgrees(t, c, d, EofSymbol, bits, n);
    DecodeAtEnd(t, d, bits, fuel);
  }

  /** `decode` stops at the end symbol, with nothing more decoded. */
  lemma DecodeAtEnd(t: Table, d: Reader, bits: seq<bool>, fuel: nat)
    requires ValidTable(t) && InRange(d) && fuel >= 1 && DecodeStep(t, d, bits).0 == EofSymbol
    ensures DecodeFrom(t, d, bits, fuel) == Some([])
  {
  }

  /** A byte symbol is decoded, then the rest with the model updated. */
  lemma {:induction false} DecodeOneMore(t: Table, d: Reader, bits: seq<bool>, fuel: nat, s: nat, next: Reader)
    requires ValidTable(t) && InRange(d) && fuel >= 1
    requires s == DecodeStep(t, d, bits).0 && next == DecodeStep(t, d, bits).1 && 1 <= s <= NumberOfChars
    ensures ValidTable(Updated(t, s))
    ensures DecodeFrom(t, d, bits, fuel) == Prepend([t.indexToChar[s]], DecodeFrom(Updated(t, s), next, bits, Spent(fuel)))
  {
    UpdatedValid(t, s);
  }

  lemma ConsRest(data: seq<byte>, i: nat)
    requires i < |data|
    ensures [data[i]] + data[i + 1..] == data[i..]
  {
  }

  /** The decoder from its start mirrors the encoder from its start. */
  lemma {:induction false} StartAgrees(bits: seq<bool>)
    ensures Agree(Primed(bits), Start(), bits)
  {
    assert [] + Follow(false, 0) == [false];
    assert [false][..0] == [];
  }

  /**
   * `decode` given the bits `encode` writes, with any number of zeros after
   * them, returns the input, having stopped at the end symbol after at most
   * `|data| + 1` symbols.
   */
  lemma {:induction false} DecodesEncoded(data: seq<byte>, k: nat, fuel: nat)
    requires fuel > |data|
    ensures DecodeAll(Encoded(data) + Zeros(k), fuel) == Some(data)
  {
    var bits := Encoded(data) + Zeros(k);
    var n := Depth(Finished(data));
    FinalContains(data);
    WindowPad(Encoded(data), k, n);
    StartAgrees(bits);
    assert data[..0] == [];
    InitialValid();
    DecodesRest(data, 0, Primed(bits), bits, fuel, n);
    assert data[0..] == data;
  }

  /** The tests of `arithmetic/mod.rs`: `decode(encode(data)) == data`, for every input. */
  method RoundTrip(data: seq<byte>) returns (r: Option<seq<byte>>)
    ensures r == Some(data)
  {
    var out := Encode(data);
    DecodesBytes(data, out, |data| + 1);
    r := Decode(out, |data| + 1);
  }

  /** Bytes holding the bits `encode` writes, and zeros after them, decode to its input. */
  lemma {:induction false} DecodesBytes(data: seq<byte>, out: seq<byte>, fuel: nat)
    requires fuel > |data| && |Encoded(data)| <= 8 * |out|
    requires BytesBitsMsb(out) == Encoded(data) + Zeros(8 * |out| - |Encoded(data)|)
    ensures DecodeAll(BytesBitsMsb(out), fuel) == Some(data)
  {
    DecodesEncoded(data, 8 * |out| - |Encoded(data)|, fuel);
  }
}
