/**
 * The move-to-front test vector shared by `bwt.rs` and `mtf.rs`:
 * "aaaabbbbeeeeeddddda" has the ranks
 * 97 0 0 0 98 0 0 0 101 0 0 0 0 101 0 0 0 0 3, whether the alphabet starts
 * as the 255 bytes of `bwt.rs` or the 256 of `mtf.rs`.
 */
module MoveToFrontVectors {
  import opened Common
  import opened MoveToFront

  /** The first step of `Encode`: the rank of the first byte, then the rest over the promoted alphabet. */
  lemma EncodeHead(alpha: seq<byte>, input: seq<byte>)
    requires |alpha| <= 256 && input != [] && input[0] in alpha
    ensures Encode(alpha, input)
         == Prepend([IndexOf(alpha, input[0])], Encode(Promote(alpha, IndexOf(alpha, input[0])), input[1..]))
  {
  }

  /** Copies of the front byte have rank 0 and leave the alphabet as it is. */
  lemma {:induction false} EncodeFront(alpha: seq<byte>, k: nat, rest: seq<byte>)
    requires 0 < |alpha| <= 256
    ensures Encode(alpha, Repeat(alpha[0], k) + rest) == Prepend(Repeat(0, k), Encode(alpha, rest))
    decreases k
  {
    if k == 0 {
      assert Repeat(alpha[0], k) + rest == rest;
    } else {
      var input := Repeat(alpha[0], k) + rest;
      assert input[0] == alpha[0] && input[1..] == Repeat(alpha[0], k - 1) + rest;
      assert IndexOf(alpha, alpha[0]) == 0;
      EncodeHead(alpha, input);
      PromoteFront(alpha);
      EncodeFront(alpha, k - 1, rest);
      var zero: seq<byte> := [0];
      assert Repeat<byte>(0, k) == zero + Repeat<byte>(0, k - 1);
      assert Encode(alpha, input) == Prepend(zero, Encode(alpha, input[1..]));
      PrependPrepend(zero, Repeat(0, k - 1), Encode(alpha, rest));
    }
  }

  /** A run of `k + 1` copies of `b`: the rank of `b`, then `k` zeros, and `b` at the front. */
  lemma {:induction false} EncodeRun(alpha: seq<byte>, b: byte, k: nat, rest: seq<byte>)
    requires |alpha| <= 256 && b in alpha
    ensures Encode(alpha, Repeat(b, k + 1) + rest)
         == Prepend([IndexOf(alpha, b) as byte] + Repeat<byte>(0, k), Encode(Promote(alpha, IndexOf(alpha, b)), rest))
  {
    var p := IndexOf(alpha, b);
    var a := Promote(alpha, p);
    var input := Repeat(b, k + 1) + rest;
    assert input[0] == b && input[1..] == Repeat(a[0], k) + rest;
    var head: seq<byte> := [p];
    EncodeHead(alpha, input);
    assert Encode(alpha, input) == Prepend(head, Encode(a, input[1..]));
    EncodeFront(a, k, rest);
    PrependPrepend(head, Repeat(0, k), Encode(a, rest));
    assert head + Repeat<byte>(0, k) == [IndexOf(alpha, b) as byte] + Repeat<byte>(0, k);
  }

  /** `EncodeRun` with the rank and the rest's ranks known. */
  lemma RunRanks(alpha: seq<byte>, b: byte, k: nat, rest: seq<byte>, p: byte, tail: seq<byte>)
    requires |alpha| <= 256 && b in alpha && IndexOf(alpha, b) == p
    requires Encode(Promote(alpha, p), rest) == Some(tail)
    ensures Encode(alpha, Repeat(b, k + 1) + rest) == Some([p] + Repeat(0, k) + tail)
  {
    EncodeRun(alpha, b, k, rest);
  }

  /** An alphabet that starts with the bytes 0 to 101 in order, without repetitions. */
  ghost predicate Ascending(alpha: seq<byte>)
  {
    102 <= |alpha| <= 256 && Distinct(alpha) && forall i :: 0 <= i < |alpha| ==> alpha[i] == i
  }

  lemma AscendingIndex(alpha: seq<byte>, x: byte)
    requires Ascending(alpha) && x < |alpha|
    ensures x in alpha && IndexOf(alpha, x) == x
  {
    IndexOfDistinct(alpha, x);
  }

  /** "aaaabbbbeeeeeddddda", as the bytes the tests pass. */
  function VectorInput(): seq<byte>
  {
    [97, 97, 97, 97, 98, 98, 98, 98, 101, 101, 101, 101, 101, 100, 100, 100, 100, 100, 97]
  }

  /** The ranks both tests expect. */
  function VectorRanks(): seq<byte>
  {
    [97, 0, 0, 0, 98, 0, 0, 0, 101, 0, 0, 0, 0, 101, 0, 0, 0, 0, 3]
  }

  /** The first run moves 97 to the front of an ascending alphabet. */
  lemma {:induction false} FirstAlphabet(alpha: seq<byte>) returns (a1: seq<byte>)
    requires Ascending(alpha)
    ensures 97 in alpha && IndexOf(alpha, 97) == 97 && a1 == Promote(alpha, 97)
    ensures Distinct(a1) && |a1| <= 256
    ensures 97 in a1 && IndexOf(a1, 97) == 0 && 98 in a1 && IndexOf(a1, 98) == 98
    ensures 100 in a1 && IndexOf(a1, 100) == 100 && 101 in a1 && IndexOf(a1, 101) == 101
  {
    AscendingIndex(alpha, 97);
    AscendingIndex(alpha, 98);
    AscendingIndex(alpha, 100);
    AscendingIndex(alpha, 101);
    a1 := Promote(alpha, 97);
    PromoteIndex(alpha, 97, 97);
    PromoteIndex(alpha, 97, 98);
    PromoteIndex(alpha, 97, 100);
    PromoteIndex(alpha, 97, 101);
    PromoteDistinct(alpha, 97);
  }

  /** The second run moves 98 to the front; 97 falls behind it. */
  lemma {:induction false} SecondAlphabet(a1: seq<byte>) returns (a2: seq<byte>)
    requires Distinct(a1) && |a1| <= 256
    requires 97 in a1 && IndexOf(a1, 97) == 0 && 98 in a1 && IndexOf(a1, 98) == 98
    requires 100 in a1 && IndexOf(a1, 100) == 100 && 101 in a1 && IndexOf(a1, 101) == 101
    ensures a2 == Promote(a1, 98) && Distinct(a2) && |a2| <= 256
    ensures 97 in a2 && IndexOf(a2, 97) == 1
    ensures 100 in a2 && IndexOf(a2, 100) == 100 && 101 in a2 && IndexOf(a2, 101) == 101
  {
    a2 := Promote(a1, 98);
    PromoteIndex(a1, 98, 97);
    PromoteIndex(a1, 98, 100);
    PromoteIndex(a1, 98, 101);
    PromoteDistinct(a1, 98);
  }

  /** The third run moves 101 to the front; 97 and 100 fall behind it. */
  lemma {:induction false} ThirdAlphabet(a2: seq<byte>) returns (a3: seq<byte>)
    requires Distinct(a2) && |a2| <= 256
    requires 97 in a2 && IndexOf(a2, 97) == 1
    requires 100 in a2 && IndexOf(a2, 100) == 100 && 101 in a2 && IndexOf(a2, 101) == 101
    ensures a3 == Promote(a2, 101) && Distinct(a3) && |a3| <= 256
    ensures 97 in a3 && IndexOf(a3, 97) == 2 && 100 in a3 && IndexOf(a3, 100) == 101
  {
    a3 := Promote(a2, 101);
    PromoteIndex(a2, 101, 97);
    PromoteIndex(a2, 101, 100);
    PromoteDistinct(a2, 101);
  }

  /** The fourth run moves 100 to the front; 97 falls to 3. */
  lemma {:induction false} FourthAlphabet(a3: seq<byte>) returns (a4: seq<byte>)
    requires Distinct(a3) && |a3| <= 256
    requires 97 in a3 && IndexOf(a3, 97) == 2 && 100 in a3 && IndexOf(a3, 100) == 101
    ensures a4 == Promote(a3, 101) && |a4| <= 256
    ensures 97 in a4 && IndexOf(a4, 97) == 3
  {
    a4 := Promote(a3, 101);
    PromoteIndex(a3, 101, 97);
  }

  lemma VectorInputRuns()
    ensures VectorInput() == Repeat<byte>(97, 4) + (Repeat<byte>(98, 4) + (Repeat<byte>(101, 5) + (Repeat<byte>(100, 5) + (Repeat<byte>(97, 1) + []))))
  {
  }

  lemma VectorRanksRuns()
    ensures [97 as byte] + Repeat<byte>(0, 3) + [98, 0, 0, 0, 101, 0, 0, 0, 0, 101, 0, 0, 0, 0, 3] == VectorRanks()
  {
  }

  /** The last run, "a", over the fourth alphabet. */
  lemma FifthRun(a4: seq<byte>)
    requires |a4| <= 256 && 97 in a4 && IndexOf(a4, 97) == 3
    ensures Encode(a4, Repeat<byte>(97, 1) + []) == Some([3])
  {
    assert Encode(Promote(a4, 3), []) == Some([]);
    RunRanks(a4, 97, 0, [], 3, []);
    assert [3 as byte] + Repeat<byte>(0, 0) + [] == [3];
  }

  /** "ddddd" and what follows, over the third alphabet. */
  lemma FourthRun(a3: seq<byte>, rest: seq<byte>)
    requires |a3| <= 256 && 100 in a3 && IndexOf(a3, 100) == 101
    requires Encode(Promote(a3, 101), rest) == Some([3])
    ensures Encode(a3, Repeat<byte>(100, 5) + rest) == Some([101, 0, 0, 0, 0, 3])
  {
    RunRanks(a3, 100, 4, rest, 101, [3]);
    assert [101 as byte] + Repeat<byte>(0, 4) + [3] == [101, 0, 0, 0, 0, 3];
  }

  /** "eeeee" and what follows, over the second alphabet. */
  lemma ThirdRun(a2: seq<byte>, rest: seq<byte>)
    requires |a2| <= 256 && 101 in a2 && IndexOf(a2, 101) == 101
    requires Encode(Promote(a2, 101), rest) == Some([101, 0, 0, 0, 0, 3])
    ensures Encode(a2, Repeat<byte>(101, 5) + rest) == Some([101, 0, 0, 0, 0, 101, 0, 0, 0, 0, 3])
  {
    RunRanks(a2, 101, 4, rest, 101, [101, 0, 0, 0, 0, 3]);
    assert [101 as byte] + Repeat<byte>(0, 4) + [101, 0, 0, 0, 0, 3] == [101, 0, 0, 0, 0, 101, 0, 0, 0, 0, 3];
  }

  /** "bbbb" and what follows, over the first alphabet. */
  lemma SecondRun(a1: seq<byte>, rest: seq<byte>)
    requires |a1| <= 256 && 98 in a1 && IndexOf(a1, 98) == 98
    requires Encode(Promote(a1, 98), rest) == Some([101, 0, 0, 0, 0, 101, 0, 0, 0, 0, 3])
    ensures Encode(a1, Repeat<byte>(98, 4) + rest) == Some([98, 0, 0, 0, 101, 0, 0, 0, 0, 101, 0, 0, 0, 0, 3])
  {
    RunRanks(a1, 98, 3, rest, 98, [101, 0, 0, 0, 0, 101, 0, 0, 0, 0, 3]);
    assert [98 as byte] + Repeat<byte>(0, 3) + [101, 0, 0, 0, 0, 101, 0, 0, 0, 0, 3]
        == [98, 0, 0, 0, 101, 0, 0, 0, 0, 101, 0, 0, 0, 0, 3];
  }

  /** "aaaa" and what follows, over the starting alphabet: all the ranks. */
  lemma FirstRun(alpha: seq<byte>, rest: seq<byte>)
    requires |alpha| <= 256 && 97 in alpha && IndexOf(alpha, 97) == 97
    requires Encode(Promote(alpha, 97), rest) == Some([98, 0, 0, 0, 101, 0, 0, 0, 0, 101, 0, 0, 0, 0, 3])
    ensures Encode(alpha, Repeat<byte>(97, 4) + rest) == Some(VectorRanks())
  {
    RunRanks(alpha, 97, 3, rest, 97, [98, 0, 0, 0, 101, 0, 0, 0, 0, 101, 0, 0, 0, 0, 3]);
    VectorRanksRuns();
  }

  /**
   * The test vector over any alphabet that starts 0, 1, …, 101: a moves to
   * the front from 97, b from 98, e from 101, d from 101 (e went ahead of
   * it) and a last from 3 (behind d, e and b).
   */
  lemma {:induction false} VectorOver(alpha: seq<byte>)
    requires Ascending(alpha)
    ensures Encode(alpha, VectorInput()) == Some(VectorRanks())
  {
    var a1 := FirstAlphabet(alpha);
    var a2 := SecondAlphabet(a1);
    var a3 := ThirdAlphabet(a2);
    var a4 := FourthAlphabet(a3);
    var r5 := Repeat<byte>(97, 1) + [];
    var r4 := Repeat<byte>(100, 5) + r5;
    var r3 := Repeat<byte>(101, 5) + r4;
    var r2 := Repeat<byte>(98, 4) + r3;
    FifthRun(a4);
    FourthRun(a3, r5);
    ThirdRun(a2, r4);
    SecondRun(a1, r3);
    FirstRun(alpha, r2);
    VectorInputRuns();
  }

  /** The test of lines 95-102 of `bwt.rs`, over its alphabet of the bytes 0 to 254. */
  lemma ShortVector()
    ensures Encode(ShortAlphabet(), VectorInput()) == Some(VectorRanks())
  {
    VectorOver(ShortAlphabet());
  }

  /** The test of lines 48-55 of `mtf.rs`, over all 256 bytes. */
  lemma FullVector()
    ensures Encode(FullAlphabet(), VectorInput()) == Some(VectorRanks())
  {
    FullAlphabetDistinct();
    VectorOver(FullAlphabet());
  }
}
