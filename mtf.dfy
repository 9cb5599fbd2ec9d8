/**
 * `mtf.rs`: move-to-front over a linked list holding all 256 bytes. The list
 * is a sequence; the cursor walk that finds a byte, or that steps over `i`
 * entries, is the loop it is in the source.
 */
module Mtf {
  import opened Common
  import opened MoveToFront

  /**
   * The cursor walk of `apply` (lines 8-14): from the head of the list,
   * step until the cursor is on `i`, counting the steps in a `u8`.
   */
  method Locate(alphabet: seq<byte>, i: byte) returns (index: byte)
    requires |alphabet| <= 256 && i in alphabet
    ensures index == IndexOf(alphabet, i)
  {
    index := 0;
    while alphabet[index] != i
      invariant index < |alphabet|
      invariant i in alphabet[index..]
      invariant forall j :: 0 <= j < index ==> alphabet[j] != i
      decreases |alphabet| - index
    {
      index := index + 1;
    }
  }

  /** `apply`: the rank of every byte, by the full-alphabet move-to-front transform. */
  method Apply(buffer: seq<byte>) returns (output: seq<byte>)
    ensures Encode(FullAlphabet(), buffer) == Some(output)
  {
    var alphabet := FullAlphabet();
    output := [];
    var k := 0;
    FullAlphabetTotal(buffer, []);
    while k < |buffer|
      invariant k <= |buffer|
      invariant |alphabet| == 256 && HasEveryByte(alphabet)
      invariant Encode(alphabet, buffer[k..]).Some?
      invariant Encode(FullAlphabet(), buffer).value == output + Encode(alphabet, buffer[k..]).value
    {
      var i := buffer[k];
      assert i in alphabet;
      var index := Locate(alphabet, i);
      EncodeUnfold(alphabet, buffer, k);
      output := output + [index];
      PromoteKeepsEveryByte(alphabet, index);
      alphabet := Promote(alphabet, index);
      k := k + 1;
      EncodeTotal(alphabet, buffer[k..]);
    }
    assert buffer[k..] == [];
    assert Encode(alphabet, buffer[k..]) == Some([]);
    assert output + [] == output;
  }

  /** `reverse`: the byte every rank stands for. */
  method Reverse(buffer: seq<byte>) returns (output: seq<byte>)
    ensures Decode(FullAlphabet(), buffer) == Some(output)
  {
    var alphabet := FullAlphabet();
    output := [];
    var k := 0;
    FullAlphabetTotal([], buffer);
    while k < |buffer|
      invariant k <= |buffer|
      invariant |alphabet| == 256
      invariant Decode(alphabet, buffer[k..]).Some?
      invariant Decode(FullAlphabet(), buffer).value == output + Decode(alphabet, buffer[k..]).value
    {
      var i := buffer[k];
      var cursor := 0;
      for step := 0 to i
        invariant cursor == step
      {
        cursor := cursor + 1;
      }
      var letter := alphabet[cursor];
      DecodeUnfold(alphabet, buffer, k);
      output := output + [letter];
      alphabet := Promote(alphabet, cursor);
      k := k + 1;
    }
    assert buffer[k..] == [];
    assert Decode(alphabet, buffer[k..]) == Some([]);
    assert output + [] == output;
  }

  /** The test at lines 57-61 of `mtf.rs`, for every input: reverse undoes apply. */
  lemma {:induction false} ReverseApply(buffer: seq<byte>)
    ensures Encode(FullAlphabet(), buffer).Some?
    ensures Decode(FullAlphabet(), Encode(FullAlphabet(), buffer).value) == Some(buffer)
  {
    FullAlphabetTotal(buffer, []);
    DecodeEncode(FullAlphabet(), buffer);
  }

  /** And apply undoes reverse: the transform is a bijection on byte strings. */
  lemma {:induction false} ApplyReverse(ranks: seq<byte>)
    ensures Decode(FullAlphabet(), ranks).Some?
    ensures Encode(FullAlphabet(), Decode(FullAlphabet(), ranks).value) == Some(ranks)
  {
    FullAlphabetTotal([], ranks);
    FullAlphabetDistinct();
    EncodeDecode(FullAlphabet(), ranks);
  }
}
