/**
 * Shared vocabulary of the model: bytes and fixed-width unsigned integers,
 * the Option/Result wrappers used for Rust's `Option` and for panics and
 * `Err` values, and the bit-order conversions the encoders rely on.
 */
module Common {

  /** A Rust `u8`. */
  type byte = x: int | 0 <= x < 256

  datatype Option<T> = None | Some(value: T)

  /**
   * `Err` stands both for a Rust `Err(String)` and for a panic (index out of
   * bounds, `unwrap` on `None`, integer underflow in a debug build).
   */
  datatype Result<T> = Ok(value: T) | Err(msg: string)

  /** `prefix` in front of a result that may be missing. */
  function Prepend(prefix: seq<byte>, o: Option<seq<byte>>): (r: Option<seq<byte>>)
    ensures r.Some? <==> o.Some?
    ensures o.Some? ==> r.value == prefix + o.value
    ensures prefix == [] ==> r == o
  {
    match o
    case None => None
    case Some(rest) => assert [] + rest == rest; Some(prefix + rest)
  }

  lemma {:induction false} PrependPrepend(a: seq<byte>, b: seq<byte>, o: Option<seq<byte>>)
    ensures Prepend(a, Prepend(b, o)) == Prepend(a + b, o)
  {
    if o.Some? {
      assert a + (b + o.value) == (a + b) + o.value;
    }
  }

  function Pow2(n: nat): (r: nat)
    ensures r >= 1
  {
    if n == 0 then 1 else 2 * Pow2(n - 1)
  }

  lemma {:induction false} Pow2Add(a: nat, b: nat)
    ensures Pow2(a + b) == Pow2(a) * Pow2(b)
  {
    if a > 0 {
      Pow2Add(a - 1, b);
    }
  }

  lemma {:induction false} Pow2Eight()
    ensures Pow2(8) == 256
  {
    assert Pow2(2) == 4 && Pow2(4) == 16 && Pow2(6) == 64;
  }

  lemma {:induction false} Pow2Sixteen()
    ensures Pow2(16) == 0x1_0000
  {
    Pow2Eight();
    Pow2Add(8, 8);
  }

  lemma {:induction false} Pow2ThirtyTwo()
    ensures Pow2(32) == 0x1_0000_0000
  {
    Pow2Sixteen();
    Pow2Add(16, 16);
  }

  lemma {:induction false} Pow2SixtyFour()
    ensures Pow2(64) == 0x1_0000_0000_0000_0000
  {
    Pow2ThirtyTwo();
    Pow2Add(32, 32);
  }

  /** `count` copies of `x`. */
  function Repeat<T>(x: T, count: nat): (r: seq<T>)
    ensures |r| == count
    ensures forall i :: 0 <= i < count ==> r[i] == x
  {
    seq(count, _ => x)
  }

  lemma AppendAssoc<T>(a: seq<T>, b: seq<T>, c: seq<T>)
    ensures (a + b) + c == a + (b + c)
  {
  }

  lemma AppendEmpty<T>(a: seq<T>)
    ensures a + [] == a && [] + a == a
  {
  }

  lemma SliceSnoc<T>(s: seq<T>, i: nat)
    requires 0 < i <= |s|
    ensures s[..i] == s[..i - 1] + [s[i - 1]]
  {
  }

  lemma ThreeParts<T>(a: seq<T>, b: seq<T>, c: seq<T>)
    ensures (a + b + c)[..|a|] == a
    ensures (a + b + c)[|a|..|a| + |b|] == b
    ensures (a + b + c)[|a| + |b|..] == c
  {
  }

  lemma SplitAt<T>(s: seq<T>, i: nat)
    requires i < |s|
    ensures s == (s[..i] + [s[i]]) + s[i + 1..]
  {
  }

  /** The first `n` elements of `s`, or all of them when there are fewer. */
  function Take<T>(s: seq<T>, n: nat): (r: seq<T>)
    ensures |r| == if n < |s| then n else |s|
    ensures r <= s
  {
    if n < |s| then s[..n] else s
  }

  /** Rust's `flatten` on an iterator of bit vectors. */
  function Flatten(chunks: seq<seq<bool>>): (r: seq<bool>)
  {
    if chunks == [] then [] else chunks[0] + Flatten(chunks[1..])
  }

  function Zeros(count: nat): seq<bool> { Repeat(false, count) }

  function Ones(count: nat): seq<bool> { Repeat(true, count) }

  /** `[0, 1, …, n - 1]`, the value of Rust's `(0..n).collect()`. */
  function Range(n: nat): (r: seq<nat>)
    ensures |r| == n
    ensures forall i :: 0 <= i < n ==> r[i] == i
  {
    seq(n, i => i)
  }

  predicate AllTrue(bits: seq<bool>) { forall i :: 0 <= i < |bits| ==> bits[i] }

  predicate AllFalse(bits: seq<bool>) { forall i :: 0 <= i < |bits| ==> !bits[i] }

  // ---------------------------------------------------------------------
  // Most significant bit first: `(x >> i) & 1` for i = w-1 down to 0.
  // ---------------------------------------------------------------------

  /** The `width` low bits of `x`, most significant first. */
  function ToBitsMsb(x: nat, width: nat): (r: seq<bool>)
    ensures |r| == width
  {
    if width == 0 then [] else ToBitsMsb(x / 2, width - 1) + [x % 2 == 1]
  }

  /** The number whose binary digits, most significant first, are `bits`. */
  function FromBitsMsb(bits: seq<bool>): (r: nat)
    ensures r < Pow2(|bits|)
  {
    if bits == [] then 0
    else 2 * FromBitsMsb(bits[..|bits| - 1]) + (if bits[|bits| - 1] then 1 else 0)
  }

  lemma {:induction false} FromToBitsMsb(x: nat, width: nat)
    requires x < Pow2(width)
    ensures FromBitsMsb(ToBitsMsb(x, width)) == x
  {
    if width > 0 {
      var r := ToBitsMsb(x, width);
      assert r[..|r| - 1] == ToBitsMsb(x / 2, width - 1);
      FromToBitsMsb(x / 2, width - 1);
    }
  }

  lemma {:induction false} ToFromBitsMsb(bits: seq<bool>)
    ensures ToBitsMsb(FromBitsMsb(bits), |bits|) == bits
  {
    if bits != [] {
      var init := bits[..|bits| - 1];
      ToFromBitsMsb(init);
      assert bits == init + [bits[|bits| - 1]];
    }
  }

  /** The `width` low bits of `x`, least significant first. */
  function ToBitsLsb(x: nat, width: nat): (r: seq<bool>)
    ensures |r| == width
  {
    if width == 0 then [] else [x % 2 == 1] + ToBitsLsb(x / 2, width - 1)
  }

  /** The number whose binary digits, least significant first, are `bits`. */
  function FromBitsLsb(bits: seq<bool>): (r: nat)
    ensures r < Pow2(|bits|)
  {
    if bits == [] then 0 else (if bits[0] then 1 else 0) + 2 * FromBitsLsb(bits[1..])
  }

  lemma {:induction false} FromToBitsLsb(x: nat, width: nat)
    requires x < Pow2(width)
    ensures FromBitsLsb(ToBitsLsb(x, width)) == x
  {
    if width > 0 {
      var r := ToBitsLsb(x, width);
      assert r[1..] == ToBitsLsb(x / 2, width - 1);
      FromToBitsLsb(x / 2, width - 1);
    }
  }

  lemma {:induction false} ToFromBitsLsb(bits: seq<bool>)
    ensures ToBitsLsb(FromBitsLsb(bits), |bits|) == bits
  {
    if bits != [] {
      ToFromBitsLsb(bits[1..]);
      assert bits == [bits[0]] + bits[1..];
    }
  }

  lemma {:induction false} FromBitsLsbSnoc(bits: seq<bool>, b: bool)
    ensures FromBitsLsb(bits + [b]) == FromBitsLsb(bits) + (if b then Pow2(|bits|) else 0)
  {
    if bits != [] {
      assert (bits + [b])[1..] == bits[1..] + [b];
      FromBitsLsbSnoc(bits[1..], b);
    } else {
      assert [] + [b] == [b];
      assert [b][1..] == [];
    }
  }

  /** High zero bits do not change a number. */
  lemma {:induction false} FromBitsLsbZeros(bits: seq<bool>, count: nat)
    ensures FromBitsLsb(bits + Zeros(count)) == FromBitsLsb(bits)
    decreases count
  {
    if count > 0 {
      assert bits + Zeros(count) == (bits + [false]) + Zeros(count - 1);
      FromBitsLsbZeros(bits + [false], count - 1);
      FromBitsLsbSnoc(bits, false);
    } else {
      assert bits + Zeros(0) == bits;
    }
  }

  /** `x >> i`. */
  function Shr(x: nat, i: nat): nat { if i == 0 then x else Shr(x / 2, i - 1) }

  /** `(x >> i) & 1 == 1`, i.e. bit `i` of `x`. */
  function BitAt(x: nat, i: nat): bool { Shr(x, i) % 2 == 1 }

  lemma {:induction false} ToBitsLsbAt(x: nat, width: nat, i: nat)
    requires i < width
    ensures ToBitsLsb(x, width)[i] == BitAt(x, i)
  {
    if i > 0 {
      ToBitsLsbAt(x / 2, width - 1, i - 1);
    }
  }

  lemma {:induction false} ToBitsMsbAt(x: nat, width: nat, i: nat)
    requires i < width
    ensures ToBitsMsb(x, width)[width - 1 - i] == BitAt(x, i)
  {
    if i > 0 {
      ToBitsMsbAt(x / 2, width - 1, i - 1);
    }
  }

  // ---------------------------------------------------------------------
  // Bytes.
  // ---------------------------------------------------------------------

  /** The eight bits of `b`, most significant first (`add_byte` in the header). */
  function ByteBitsMsb(b: byte): (r: seq<bool>)
    ensures |r| == 8
  {
    ToBitsMsb(b, 8)
  }

  /** The eight bits of `b`, least significant first (`(byte >> i) & 1`, i = 0..8). */
  function ByteBitsLsb(b: byte): (r: seq<bool>)
    ensures |r| == 8
  {
    ToBitsLsb(b, 8)
  }

  /** Concatenation of the bits of every byte, most significant bit first. */
  function BytesBitsMsb(bytes: seq<byte>): (r: seq<bool>)
    ensures |r| == 8 * |bytes|
  {
    if bytes == [] then [] else ByteBitsMsb(bytes[0]) + BytesBitsMsb(bytes[1..])
  }

  /** Concatenation of the bits of every byte, least significant bit first. */
  function BytesBitsLsb(bytes: seq<byte>): (r: seq<bool>)
    ensures |r| == 8 * |bytes|
  {
    if bytes == [] then [] else ByteBitsLsb(bytes[0]) + BytesBitsLsb(bytes[1..])
  }

  lemma {:induction false} BytesBitsLsbAppend(a: seq<byte>, b: seq<byte>)
    ensures BytesBitsLsb(a + b) == BytesBitsLsb(a) + BytesBitsLsb(b)
  {
    if a == [] {
      assert a + b == b;
    } else {
      assert (a + b)[0] == a[0] && (a + b)[1..] == a[1..] + b;
      BytesBitsLsbAppend(a[1..], b);
      calc {
        BytesBitsLsb(a + b);
        ByteBitsLsb(a[0]) + BytesBitsLsb(a[1..] + b);
        ByteBitsLsb(a[0]) + (BytesBitsLsb(a[1..]) + BytesBitsLsb(b));
      }
    }
  }

  lemma {:induction false} BytesBitsMsbAppend(a: seq<byte>, b: seq<byte>)
    ensures BytesBitsMsb(a + b) == BytesBitsMsb(a) + BytesBitsMsb(b)
  {
    if a == [] {
      assert a + b == b;
    } else {
      assert (a + b)[0] == a[0] && (a + b)[1..] == a[1..] + b;
      BytesBitsMsbAppend(a[1..], b);
      calc {
        BytesBitsMsb(a + b);
        ByteBitsMsb(a[0]) + BytesBitsMsb(a[1..] + b);
        ByteBitsMsb(a[0]) + (BytesBitsMsb(a[1..]) + BytesBitsMsb(b));
      }
    }
  }

  /** The byte whose bits, most significant first, are `bits`. */
  function ByteOfBitsMsb(bits: seq<bool>): (b: byte)
    requires |bits| == 8
    ensures ByteBitsMsb(b) == bits
  {
    Pow2Eight();
    ToFromBitsMsb(bits);
    FromBitsMsb(bits)
  }

  /**
   * Bits, most significant first, cut into bytes; a last group of fewer than
   * eight bits is completed with zeros on its right.
   */
  function PackMsb(bits: seq<bool>): (r: seq<byte>)
    ensures |bits| <= 8 * |r| < |bits| + 8
    decreases |bits|
  {
    if bits == [] then []
    else if |bits| < 8 then [ByteOfBitsMsb(bits + Zeros(8 - |bits|))]
    else [ByteOfBitsMsb(bits[..8])] + PackMsb(bits[8..])
  }

  lemma {:induction false} PackMsbBits(bits: seq<bool>)
    ensures BytesBitsMsb(PackMsb(bits)) == bits + Zeros(8 * |PackMsb(bits)| - |bits|)
    decreases |bits|
  {
    if bits == [] {
      assert Zeros(0) == [];
    } else if |bits| < 8 {
      var full := bits + Zeros(8 - |bits|);
      calc {
        BytesBitsMsb(PackMsb(bits));
        BytesBitsMsb([ByteOfBitsMsb(full)]);
        ByteBitsMsb(ByteOfBitsMsb(full)) + BytesBitsMsb([]);
        full;
      }
    } else {
      var head, tail := bits[..8], bits[8..];
      PackMsbBits(tail);
      var pad := Zeros(8 * |PackMsb(bits)| - |bits|);
      assert pad == Zeros(8 * |PackMsb(tail)| - |tail|);
      calc {
        BytesBitsMsb(PackMsb(bits));
        BytesBitsMsb([ByteOfBitsMsb(head)] + PackMsb(tail));
        { assert ([ByteOfBitsMsb(head)] + PackMsb(tail))[1..] == PackMsb(tail); }
        ByteBitsMsb(ByteOfBitsMsb(head)) + BytesBitsMsb(PackMsb(tail));
        head + (tail + pad);
        { assert bits == head + tail; }
        bits + pad;
      }
    }
  }

  /** The byte whose bits, least significant first, are `bits`. */
  function ByteOfBitsLsb(bits: seq<bool>): (b: byte)
    requires |bits| == 8
    ensures ByteBitsLsb(b) == bits
  {
    Pow2Eight();
    ToFromBitsLsb(bits);
    FromBitsLsb(bits)
  }

  /**
   * Bits, least significant first, cut into bytes; a last group of fewer
   * than eight bits leaves the high bits of its byte clear. There are
   * ceil(|bits| / 8) bytes.
   */
  function PackLsb(bits: seq<bool>): (r: seq<byte>)
    ensures |r| == (|bits| + 7) / 8
    decreases |bits|
  {
    if bits == [] then []
    else if |bits| < 8 then [ByteOfBitsLsb(bits + Zeros(8 - |bits|))]
    else [ByteOfBitsLsb(bits[..8])] + PackLsb(bits[8..])
  }

  lemma {:induction false} PackLsbBits(bits: seq<bool>)
    ensures BytesBitsLsb(PackLsb(bits)) == bits + Zeros(8 * |PackLsb(bits)| - |bits|)
    decreases |bits|
  {
    if bits == [] {
      assert Zeros(0) == [];
    } else if |bits| < 8 {
      var full := bits + Zeros(8 - |bits|);
      calc {
        BytesBitsLsb(PackLsb(bits));
        BytesBitsLsb([ByteOfBitsLsb(full)]);
        ByteBitsLsb(ByteOfBitsLsb(full)) + BytesBitsLsb([]);
        full;
      }
    } else {
      var head, tail := bits[..8], bits[8..];
      PackLsbBits(tail);
      var pad := Zeros(8 * |PackLsb(bits)| - |bits|);
      assert pad == Zeros(8 * |PackLsb(tail)| - |tail|);
      calc {
        BytesBitsLsb(PackLsb(bits));
        BytesBitsLsb([ByteOfBitsLsb(head)] + PackLsb(tail));
        { assert ([ByteOfBitsLsb(head)] + PackLsb(tail))[1..] == PackLsb(tail); }
        ByteBitsLsb(ByteOfBitsLsb(head)) + BytesBitsLsb(PackLsb(tail));
        head + (tail + pad);
        { assert bits == head + tail; }
        bits + pad;
      }
    }
  }

  /** Packing a whole number of bytes' worth of bits and then more packs the two parts apart. */
  lemma {:induction false} PackLsbAppend(a: seq<bool>, b: seq<bool>)
    requires |a| % 8 == 0
    ensures PackLsb(a + b) == PackLsb(a) + PackLsb(b)
    decreases |a|
  {
    if a == [] {
      assert a + b == b;
    } else {
      assert |a| >= 8 && |a[8..]| % 8 == 0;
      var head := ByteOfBitsLsb(a[..8]);
      assert (a + b)[..8] == a[..8] && (a + b)[8..] == a[8..] + b;
      assert PackLsb(a + b) == [head] + PackLsb(a[8..] + b);
      assert PackLsb(a) == [head] + PackLsb(a[8..]);
      PackLsbAppend(a[8..], b);
    }
  }

  /** Rust's `to_be_bytes` on an `n`-byte unsigned integer `x < 2^(8n)`. */
  function ToBeBytes(x: nat, n: nat): (r: seq<byte>)
    ensures |r| == n
  {
    PackMsb(ToBitsMsb(x, 8 * n))
  }

  /** Rust's `from_be_bytes`. */
  function FromBeBytes(bytes: seq<byte>): (r: nat)
    ensures r < Pow2(8 * |bytes|)
  {
    FromBitsMsb(BytesBitsMsb(bytes))
  }

  /**
   * Writing the big-endian bytes of `x` one after the other, each most
   * significant bit first, writes the `8 n` bits of `x` most significant first.
   */
  lemma {:induction false} BeBytesBits(x: nat, n: nat)
    ensures BytesBitsMsb(ToBeBytes(x, n)) == ToBitsMsb(x, 8 * n)
  {
    var bits := ToBitsMsb(x, 8 * n);
    PackMsbBits(bits);
    assert |PackMsb(bits)| == n;
    assert Zeros(0) == [];
  }

  lemma {:induction false} FromToBeBytes(x: nat, n: nat)
    requires x < Pow2(8 * n)
    ensures FromBeBytes(ToBeBytes(x, n)) == x
  {
    BeBytesBits(x, n);
    FromToBitsMsb(x, 8 * n);
  }
}
