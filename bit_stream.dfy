/**
 * The bit packers of the Huffman coder in the `burrows-wheeler` crate:
 * `ByteIterator` packs a stream of bits into bytes, least significant bit
 * first, and `BitIterator` unpacks bytes into bits, again least significant
 * first, yielding no more than a budget of `bit_size` bits.
 *
 * Both are iterators whose fields change on every `next()`, so both are
 * classes here. The byte source behind a `BitIterator` is a field `src`
 * holding the bytes it has not pulled yet.
 */
module BitStream {
  import opened Common

  /** `usize::MAX`, the budget the decoder starts the header with. */
  const USIZE_MAX: nat := 0xFFFF_FFFF_FFFF_FFFF

  // ---------------------------------------------------------------------
  // ByteIterator: bits to bytes.
  // ---------------------------------------------------------------------

  class ByteIterator {
    /** The flattened bit stream not consumed yet. */
    var input: seq<bool>

    /** `ByteIterator::new`: the input bit vectors are flattened, their boundaries forgotten. */
    constructor (chunks: seq<seq<bool>>)
      ensures input == Flatten(chunks)
    {
      input := Flatten(chunks);
    }

    /**
     * One byte from the next eight bits, bit `i` of the group going to
     * `1 << i`; a shorter last group gives a byte with its high bits clear,
     * and an exhausted stream gives `None`.
     */
    method Next() returns (r: Option<byte>)
      modifies this
      ensures old(input) == [] <==> r.None?
      ensures r.None? ==> input == []
      ensures r.Some? ==> PackLsb(old(input)) == [r.value] + PackLsb(input)
      ensures r.Some? ==> input == old(input)[if |old(input)| < 8 then |old(input)| else 8..]
    {
      var value: nat := 0;
      var i := 0;
      ghost var taken: seq<bool> := [];
      while i < 8
        invariant 0 <= i <= 8 && |taken| == i
        invariant old(input) == taken + input
        invariant value == FromBitsLsb(taken)
      {
        if input == [] {
          if i == 0 {
            return None;
          }
          FromBitsLsbZeros(taken, 8 - i);
          PackShort(old(input), taken);
          r := Some(value);
          return;
        }
        var bit := input[0];
        FromBitsLsbSnoc(taken, bit);
        value := value + (if bit then Pow2(i) else 0);
        SplitHead(input);
        AppendAssoc(taken, [bit], input[1..]);
        taken := taken + [bit];
        input := input[1..];
        i := i + 1;
      }
      PackFull(old(input), taken, input);
      r := Some(value);
    }

    /** Every byte the iterator yields: the whole input packed. */
    method Collect() returns (bytes: seq<byte>)
      modifies this
      ensures bytes == PackLsb(old(input))
      ensures input == []
    {
      bytes := [];
      while true
        invariant bytes + PackLsb(input) == PackLsb(old(input))
        decreases |input|
      {
        var r := Next();
        if r.None? {
          assert bytes + [] == bytes;
          return;
        }
        AppendAssoc(bytes, [r.value], PackLsb(input));
        bytes := bytes + [r.value];
      }
    }
  }

  // ---------------------------------------------------------------------
  // BitIterator: bytes to bits under a budget.
  // ---------------------------------------------------------------------

  class BitIterator {
    /** The bytes the source has not handed out yet. */
    var src: seq<byte>
    var current: byte
    /** Bits of `current` already yielded; 8 means a new byte is needed. */
    var currentPosition: nat
    /** The byte prefetched from `src`, if any. */
    var next: Option<byte>
    /** Bits still allowed. */
    var bitSize: nat

    predicate Valid()
      reads this
    {
      currentPosition <= 8
    }

    /** The bits of `current` not yielded yet. */
    function Pending(): (r: seq<bool>)
      reads this
      requires Valid()
      ensures |r| == 8 - currentPosition
    {
      ByteBitsLsb(current)[currentPosition..]
    }

    /** The bytes the iterator will read after `current`: `next`, then the source. */
    function Ahead(): seq<byte>
      reads this
    {
      (if next.Some? then [next.value] else []) + src
    }

    /** The bits the iterator would yield with an unlimited budget. */
    function Visible(): seq<bool>
      reads this
      requires Valid()
    {
      Pending() + BytesBitsLsb(Ahead())
    }

    /** The bits the iterator will yield: the visible ones, cut to the budget. */
    function Remaining(): (r: seq<bool>)
      reads this
      requires Valid()
      ensures |r| <= bitSize
    {
      Take(Visible(), bitSize)
    }

    /** `BitIterator::new`: no current byte, nothing prefetched. */
    constructor (input: seq<byte>, bitSize: nat)
      ensures Valid()
      ensures src == input && currentPosition == 8 && next == None && this.bitSize == bitSize
      ensures Visible() == BytesBitsLsb(input)
    {
      src, current, currentPosition, next, this.bitSize := input, 0, 8, None, bitSize;
      new;
      assert Ahead() == input;
    }

    /** The `bit_size` setter. */
    method SetBitSize(bitSize: nat)
      requires Valid()
      modifies this
      ensures Valid()
      ensures this.bitSize == bitSize
      ensures src == old(src) && current == old(current) && currentPosition == old(currentPosition)
      ensures next == old(next)
      ensures Visible() == old(Visible())
      ensures Remaining() == Take(old(Visible()), bitSize)
    {
      this.bitSize := bitSize;
    }

    /**
     * `next()` as written. At a byte boundary `current` is taken from
     * `next` when it holds a byte, but `next` is only refilled while more
     * than eight bits of budget remain: when it is not, `next` keeps the
     * byte just moved into `current`.
     *
     * The bits yielded are always the remaining ones, one at a time. The
     * visible stream advances by one bit too, except at a boundary where
     * the prefetched byte is used and not refilled: there the byte is
     * still in `next`, and shows up twice in `Visible()`.
     */
    method NextAsWritten() returns (r: Option<bool>)
      requires Valid()
      modifies this
      ensures Valid()
      ensures r.None? <==> old(Remaining()) == []
      ensures r.None? ==> src == old(src) && current == old(current) && next == old(next)
      ensures r.None? ==> currentPosition == old(currentPosition) && bitSize == old(bitSize)
      ensures r.Some? ==> r.value == old(Remaining())[0] && Remaining() == old(Remaining())[1..]
      ensures r.Some? ==> bitSize == old(bitSize) - 1
      ensures r.Some? && old(currentPosition) < 8 ==>
                src == old(src) && current == old(current) && next == old(next) &&
                currentPosition == old(currentPosition) + 1
      ensures r.Some? && old(currentPosition) == 8 ==>
                currentPosition == 1 && current == Ahead0(old(next), old(src)) &&
                (old(bitSize) > 8 ==> next == Head(Tail0(old(next), old(src))) && src == Drop1(Tail0(old(next), old(src)))) &&
                (old(bitSize) <= 8 ==> next == old(next) && src == Tail0(old(next), old(src)))
      ensures r.Some? && !(old(currentPosition) == 8 && old(next).Some? && old(bitSize) <= 8) ==>
                Visible() == old(Visible())[1..]
    {
      if bitSize == 0 {
        return None;
      }
      if currentPosition == 8 {
        AtBoundary();
        if next.None? && src == [] {
          return None;
        }
        RefillAsWritten();
      }
      // The source checks `bit_size == 0` once more here; nothing changed it since the first check.
      var bit := Step();
      r := Some(bit);
    }

    /**
     * `next()` with the prefetched byte taken out of `next` when it becomes
     * `current` (`self.next.take()`), so the visible stream always advances
     * by exactly one bit.
     */
    method Next() returns (r: Option<bool>)
      requires Valid()
      modifies this
      ensures Valid()
      ensures r.None? <==> old(Remaining()) == []
      ensures r.None? ==> Visible() == old(Visible()) && bitSize == old(bitSize)
      ensures r.Some? ==> r.value == old(Remaining())[0] && Remaining() == old(Remaining())[1..]
      ensures r.Some? ==> Visible() == old(Visible())[1..] && bitSize == old(bitSize) - 1
    {
      if bitSize == 0 {
        return None;
      }
      if currentPosition == 8 {
        AtBoundary();
        if next.None? && src == [] {
          return None;
        }
        Refill();
      }
      var bit := Step();
      r := Some(bit);
    }

    /** At a byte boundary nothing of `current` is left to read. */
    lemma {:induction false} AtBoundary()
      requires Valid() && currentPosition == 8
      ensures Visible() == BytesBitsLsb(Ahead())
      ensures next.None? && src == [] ==> Visible() == []
    {
      AppendEmpty(BytesBitsLsb(Ahead()));
      if next.None? && src == [] {
        assert Ahead() == [];
      }
    }

    /** The byte boundary of `NextAsWritten`: `next` is consumed but only refilled above eight bits of budget. */
    method RefillAsWritten()
      requires Valid() && currentPosition == 8 && bitSize > 0 && Ahead() != []
      modifies this
      ensures Valid() && currentPosition == 0 && bitSize == old(bitSize)
      ensures current == Ahead0(old(next), old(src))
      ensures old(bitSize) > 8 ==> next == Head(Tail0(old(next), old(src))) && src == Drop1(Tail0(old(next), old(src)))
      ensures old(bitSize) <= 8 ==> next == old(next) && src == Tail0(old(next), old(src))
      ensures Take(Visible(), bitSize) == Take(old(Visible()), bitSize)
      ensures bitSize > 8 || old(next).None? ==> Visible() == old(Visible())
    {
      AtBoundary();
      ghost var visible := Visible();
      if next.Some? {
        current := next.value;
      } else {
        current := src[0];
        src := src[1..];
      }
      ghost var rest := src;
      if bitSize > 8 {
        if src == [] {
          next := None;
        } else {
          next := Some(src[0]);
          src := src[1..];
        }
      }
      currentPosition := 0;
      RefillVisible(visible, old(next), old(src), current, rest, next, src, bitSize);
    }

    /** The byte boundary with `next.take()`. */
    method Refill()
      requires Valid() && currentPosition == 8 && Ahead() != []
      modifies this
      ensures Valid() && currentPosition == 0 && bitSize == old(bitSize)
      ensures Visible() == old(Visible())
    {
      AtBoundary();
      ghost var visible := Visible();
      ghost var oldNext, oldSrc := next, src;
      if next.Some? {
        current := next.value;
        next := None;
      } else {
        current := src[0];
        src := src[1..];
      }
      ghost var rest := src;
      if bitSize > 8 {
        if src == [] {
          next := None;
        } else {
          next := Some(src[0]);
          src := src[1..];
        }
      }
      currentPosition := 0;
      TakeVisible(visible, oldNext, oldSrc, current, rest, next, src);
    }

    /** Bit `current_position` of `current`, least significant first, against the budget. */
    method Step() returns (bit: bool)
      requires Valid() && currentPosition < 8 && bitSize > 0
      modifies this
      ensures Valid()
      ensures src == old(src) && current == old(current) && next == old(next)
      ensures currentPosition == old(currentPosition) + 1 && bitSize == old(bitSize) - 1
      ensures old(Visible()) == [bit] + Visible()
      ensures old(Remaining()) != [] && bit == old(Remaining())[0] && Remaining() == old(Remaining())[1..]
    {
      ghost var visible := Visible();
      bit := BitAt(current, currentPosition);
      ToBitsLsbAt(current, 8, currentPosition);
      StepPending(current, currentPosition, BytesBitsLsb(Ahead()));
      currentPosition := currentPosition + 1;
      bitSize := bitSize - 1;
      TakeTail(Visible(), bit, bitSize, visible);
    }

    /** Every bit the iterator yields (corrected `next`). */
    method Collect() returns (bits: seq<bool>)
      requires Valid()
      modifies this
      ensures Valid()
      ensures bits == old(Remaining())
      ensures Visible() == old(Visible())[|bits|..]
    {
      bits := [];
      while true
        invariant Valid()
        invariant bits + Remaining() == old(Remaining())
        invariant bits + Visible() == old(Visible())
        decreases |Remaining()|
      {
        ghost var remaining, visible := Remaining(), Visible();
        var r := Next();
        if r.None? {
          assert bits + [] == bits;
          assert old(Visible())[|bits|..] == Visible();
          return;
        }
        SplitHead(remaining);
        SplitHead(visible);
        AppendAssoc(bits, [r.value], Remaining());
        AppendAssoc(bits, [r.value], Visible());
        bits := bits + [r.value];
      }
    }

    /**
     * The Result-typed `BitIterator` of the `decode/iterator` module: the
     * same steps, each bit wrapped in `Ok`, so it never yields `Err`.
     */
    method NextResult() returns (r: Option<Result<bool>>)
      requires Valid()
      modifies this
      ensures Valid()
      ensures r.None? <==> old(Remaining()) == []
      ensures r.None? ==> Remaining() == []
      ensures r.Some? ==> r.value == Ok(old(Remaining())[0]) && Remaining() == old(Remaining())[1..]
    {
      var bit := NextAsWritten();
      if bit.None? {
        return None;
      }
      r := Some(Ok(bit.value));
    }
  }

  // ---------------------------------------------------------------------
  // Helpers on the state at a byte boundary.
  // ---------------------------------------------------------------------

  /** The byte that becomes `current` at a boundary. */
  function Ahead0(next: Option<byte>, src: seq<byte>): byte
  {
    if next.Some? then next.value else if src != [] then src[0] else 0
  }

  /** What is left of the source once `current` is filled without consuming `next`. */
  function Tail0(next: Option<byte>, src: seq<byte>): seq<byte>
  {
    if next.Some? || src == [] then src else src[1..]
  }

  function Head(s: seq<byte>): Option<byte> { if s == [] then None else Some(s[0]) }

  function Drop1(s: seq<byte>): seq<byte> { if s == [] then [] else s[1..] }

  lemma {:induction false} PackShort(bits: seq<bool>, taken: seq<bool>)
    requires bits == taken + [] && 0 < |taken| < 8
    ensures PackLsb(bits) == [ByteOfBitsLsb(taken + Zeros(8 - |taken|))] + PackLsb([])
  {
    assert bits == taken;
    assert PackLsb(bits) == [ByteOfBitsLsb(bits + Zeros(8 - |bits|))];
  }

  lemma {:induction false} PackFull(bits: seq<bool>, taken: seq<bool>, rest: seq<bool>)
    requires bits == taken + rest && |taken| == 8
    ensures PackLsb(bits) == [ByteOfBitsLsb(taken)] + PackLsb(rest)
    ensures rest == bits[8..]
  {
    assert bits[..8] == taken && bits[8..] == rest;
  }

  lemma SplitHead<T>(s: seq<T>)
    requires s != []
    ensures s == [s[0]] + s[1..]
  {
  }

  lemma StepPending(current: byte, position: nat, ahead: seq<bool>)
    requires position < 8
    ensures ByteBitsLsb(current)[position..] + ahead ==
            [ByteBitsLsb(current)[position]] + (ByteBitsLsb(current)[position + 1..] + ahead)
  {
  }

  /** `rest` was `[first] + rest`, cut to a budget of one more. */
  lemma TakeTail(rest: seq<bool>, first: bool, budget: nat, whole: seq<bool>)
    requires whole == [first] + rest
    ensures [first] + Take(rest, budget) == Take(whole, budget + 1)
    ensures Take(whole, budget + 1)[0] == first
    ensures Take(rest, budget) == Take(whole, budget + 1)[1..]
  {
  }

  /** At a boundary of `Next`, the byte moved into `current` leaves the visible stream unchanged. */
  lemma {:induction false} TakeVisible(visible: seq<bool>, oldNext: Option<byte>, oldSrc: seq<byte>, current: byte,
                    rest: seq<byte>, next: Option<byte>, src: seq<byte>)
    requires visible == BytesBitsLsb((if oldNext.Some? then [oldNext.value] else []) + oldSrc)
    requires oldNext.Some? ==> current == oldNext.value && rest == oldSrc
    requires oldNext.None? ==> oldSrc != [] && current == oldSrc[0] && rest == oldSrc[1..]
    requires (if next.Some? then [next.value] else []) + src == rest
    ensures visible == ByteBitsLsb(current)[0..] + BytesBitsLsb((if next.Some? then [next.value] else []) + src)
  {
    var oldAhead := (if oldNext.Some? then [oldNext.value] else []) + oldSrc;
    assert oldAhead == [current] + rest;
    assert ByteBitsLsb(current)[0..] == ByteBitsLsb(current);
  }

  /**
   * At a boundary of `NextAsWritten`: with the budget above eight the
   * visible stream is unchanged; with a budget of at most eight, the
   * bits within the budget are.
   */
  lemma {:induction false} RefillVisible(visible: seq<bool>, oldNext: Option<byte>, oldSrc: seq<byte>, current: byte,
                      rest: seq<byte>, next: Option<byte>, src: seq<byte>, budget: nat)
    requires 0 < budget
    requires visible == BytesBitsLsb((if oldNext.Some? then [oldNext.value] else []) + oldSrc)
    requires oldNext.Some? ==> current == oldNext.value && rest == oldSrc
    requires oldNext.None? ==> oldSrc != [] && current == oldSrc[0] && rest == oldSrc[1..]
    requires budget > 8 ==> (if next.Some? then [next.value] else []) + src == rest
    requires budget <= 8 ==> next == oldNext && src == rest
    ensures budget > 8 || oldNext.None? ==>
              visible == ByteBitsLsb(current)[0..] + BytesBitsLsb((if next.Some? then [next.value] else []) + src)
    ensures Take(visible, budget) ==
              Take(ByteBitsLsb(current)[0..] + BytesBitsLsb((if next.Some? then [next.value] else []) + src), budget)
  {
    var oldAhead := (if oldNext.Some? then [oldNext.value] else []) + oldSrc;
    assert oldAhead == [current] + rest;
    assert ByteBitsLsb(current)[0..] == ByteBitsLsb(current);
    var after := ByteBitsLsb(current) + BytesBitsLsb((if next.Some? then [next.value] else []) + src);
    assert visible == ByteBitsLsb(current) + BytesBitsLsb(rest);
    if budget <= 8 {
      assert Take(visible, budget) == ByteBitsLsb(current)[..budget];
      assert Take(after, budget) == ByteBitsLsb(current)[..budget];
    }
  }

  // ---------------------------------------------------------------------
  // Properties.
  // ---------------------------------------------------------------------

  /**
   * Unpacking what `ByteIterator` packed, with the bit count as budget,
   * gives back the bits: the padding of the last byte is never read.
   */
  method Unpack(bits: seq<bool>) returns (out: seq<bool>)
    ensures out == bits
  {
    var packer := new ByteIterator([bits]);
    assert Flatten([bits]) == bits + Flatten([]);
    assert Flatten([bits]) == bits;
    var bytes := packer.Collect();
    var it := new BitIterator(bytes, |bits|);
    PackLsbBits(bits);
    out := it.Collect();
  }

  /** Sixteen bits of `NextAsWritten` over the bytes 0, 1, 2: byte 1 is both `current` and `next`. */
  method SixteenBits(it: BitIterator)
    requires it.Valid() && it.src == [0, 1, 2] && it.bitSize == 16 && it.currentPosition == 8 && it.next == None
    modifies it
    ensures it.Valid() && it.bitSize == 0 && it.current == 1 && it.next == Some(1) && it.src == [2] && it.currentPosition == 8
  {
    var i := 0;
    while i < 16
      invariant 0 <= i <= 16 && it.Valid() && it.bitSize == 16 - i
      invariant 0 < i <= 8 ==> it.current == 0 && it.next == Some(1) && it.src == [2] && it.currentPosition == i
      invariant 8 < i ==> it.current == 1 && it.next == Some(1) && it.src == [2] && it.currentPosition == i - 8
      invariant i == 0 ==> it.src == [0, 1, 2] && it.currentPosition == 8 && it.next == None
    {
      assert it.Visible() != [] by {
        if i == 0 {
          assert it.Ahead() == [0, 1, 2];
        }
      }
      var bit := it.NextAsWritten();
      i := i + 1;
    }
  }

  /** Every bit `NextAsWritten` yields until it stops: the bits that remained. */
  method Drain(it: BitIterator) returns (drained: seq<bool>)
    requires it.Valid()
    modifies it
    ensures drained == old(it.Remaining())
  {
    drained := [];
    while true
      invariant it.Valid()
      invariant drained + it.Remaining() == old(it.Remaining())
      decreases |it.Remaining()|
    {
      ghost var remaining := it.Remaining();
      var bit := it.NextAsWritten();
      if bit.None? {
        break;
      }
      SplitHead(remaining);
      AppendAssoc(drained, [bit.value], it.Remaining());
      drained := drained + [bit.value];
    }
  }

  /**
   * The stale prefetch of `NextAsWritten`: over the bytes 0, 1, 2 with a
   * budget of 16, the sixteenth bit leaves byte 1 both in `current` and in
   * `next`. Raising the budget to 8 afterwards replays byte 1 instead of
   * yielding byte 2, the next byte of the source.
   */
  method ReplayAfterReset() returns (input: seq<byte>, replayed: seq<bool>)
    ensures input == [0, 1, 2]
    ensures replayed == ByteBitsLsb(1)
    ensures BytesBitsLsb(input)[16..] == ByteBitsLsb(2) && ByteBitsLsb(2) != replayed
  {
    input := [0, 1, 2];
    var it := new BitIterator(input, 16);
    SixteenBits(it);
    it.SetBitSize(8);
    assert it.Ahead() == [1, 2];
    assert BytesBitsLsb([1, 2]) == ByteBitsLsb(1) + BytesBitsLsb([2]);
    assert it.Visible() == [] + BytesBitsLsb([1, 2]);
    replayed := Drain(it);
    assert BytesBitsLsb(input) == ByteBitsLsb(0) + (ByteBitsLsb(1) + (ByteBitsLsb(2) + []));
    assert ByteBitsLsb(1)[0] && !ByteBitsLsb(2)[0];
  }
}
