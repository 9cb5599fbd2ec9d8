/**
 * The move-to-front transform, parameterised by its starting alphabet.
 * Each input byte is replaced by its current position in the alphabet, and
 * the byte is then moved to the front. `mtf.rs` and `mtftree.rs` start from
 * all 256 bytes in ascending order; `bwt.rs` starts from `0..255`, which
 * lacks 255.
 */
module MoveToFront {
  import opened Common

  /** `(0..=255).collect()`: all 256 bytes, ascending. */
  function FullAlphabet(): (r: seq<byte>)
    ensures |r| == 256
    ensures forall i :: 0 <= i < 256 ==> r[i] == i
  {
    seq(256, i requires 0 <= i < 256 => i)
  }

  /** `(0..255).collect()`: the bytes 0 to 254, ascending. */
  function ShortAlphabet(): (r: seq<byte>)
    ensures |r| == 255
    ensures forall i :: 0 <= i < 255 ==> r[i] == i
  {
    seq(255, i requires 0 <= i < 255 => i)
  }

  ghost predicate Distinct(alpha: seq<byte>)
  {
    forall i, j :: 0 <= i < j < |alpha| ==> alpha[i] != alpha[j]
  }

  /** The first position of `b` in `alpha` (`iter().position(..).unwrap()`). */
  function IndexOf(alpha: seq<byte>, b: byte): (r: nat)
    requires b in alpha
    ensures r < |alpha| && alpha[r] == b
    ensures forall j :: 0 <= j < r ==> alpha[j] != b
  {
    if alpha[0] == b then 0 else 1 + IndexOf(alpha[1..], b)
  }

  /** `remove(p)` followed by `insert(0, ..)` of the removed byte. */
  function Promote(alpha: seq<byte>, p: nat): (r: seq<byte>)
    requires p < |alpha|
    ensures |r| == |alpha| && r[0] == alpha[p]
  {
    [alpha[p]] + alpha[..p] + alpha[p + 1..]
  }

  /** Moving a byte to the front rearranges the alphabet and loses nothing. */
  lemma {:induction false} PromoteMembers(alpha: seq<byte>, p: nat)
    requires p < |alpha|
    ensures multiset(Promote(alpha, p)) == multiset(alpha)
    ensures forall b :: b in Promote(alpha, p) <==> b in alpha
  {
    assert alpha == alpha[..p] + [alpha[p]] + alpha[p + 1..];
    forall b ensures b in Promote(alpha, p) <==> b in alpha {
      assert b in alpha <==> b in multiset(alpha);
      assert b in Promote(alpha, p) <==> b in multiset(Promote(alpha, p));
    }
  }

  /** The ranks of `input`; `None` when some byte is missing from the alphabet. */
  function Encode(alpha: seq<byte>, input: seq<byte>): (r: Option<seq<byte>>)
    requires |alpha| <= 256
    ensures r.Some? ==> |r.value| == |input|
    ensures r.Some? ==> forall i :: 0 <= i < |input| ==> r.value[i] < |alpha|
    decreases |input|
  {
    if input == [] then Some([])
    else if input[0] !in alpha then None
    else
      var p := IndexOf(alpha, input[0]);
      match Encode(Promote(alpha, p), input[1..])
      case None => None
      case Some(rest) => Some([p] + rest)
  }

  /** The bytes the ranks stand for; `None` when a rank is past the alphabet's end. */
  function Decode(alpha: seq<byte>, ranks: seq<byte>): (r: Option<seq<byte>>)
    ensures r.Some? ==> |r.value| == |ranks|
    decreases |ranks|
  {
    if ranks == [] then Some([])
    else if ranks[0] >= |alpha| then None
    else
      match Decode(Promote(alpha, ranks[0]), ranks[1..])
      case None => None
      case Some(rest) => Some([alpha[ranks[0]]] + rest)
  }

  /**
   * The alphabet after every byte of `input` has been moved to the front in
   * turn (a byte missing from the alphabet leaves it as it is).
   */
  function After(alpha: seq<byte>, input: seq<byte>): (r: seq<byte>)
    ensures |r| == |alpha|
    decreases |input|
  {
    if input == [] then alpha
    else if input[0] !in alpha then After(alpha, input[1..])
    else After(Promote(alpha, IndexOf(alpha, input[0])), input[1..])
  }

  lemma {:induction false} EncodeDefinedIff(alpha: seq<byte>, input: seq<byte>)
    requires |alpha| <= 256
    ensures Encode(alpha, input).Some? <==> forall i :: 0 <= i < |input| ==> input[i] in alpha
    decreases |input|
  {
    if input != [] && input[0] in alpha {
      var a := Promote(alpha, IndexOf(alpha, input[0]));
      EncodeDefinedIff(a, input[1..]);
      PromoteMembers(alpha, IndexOf(alpha, input[0]));
      assert forall i :: 1 <= i < |input| ==> input[i] == input[1..][i - 1];
    }
  }

  /** Decoding the ranks gives back the input. */
  lemma {:induction false} DecodeEncode(alpha: seq<byte>, input: seq<byte>)
    requires |alpha| <= 256
    requires Encode(alpha, input).Some?
    ensures Decode(alpha, Encode(alpha, input).value) == Some(input)
    decreases |input|
  {
    if input != [] {
      var p := IndexOf(alpha, input[0]);
      var a := Promote(alpha, p);
      DecodeEncode(a, input[1..]);
      var ranks := Encode(alpha, input).value;
      assert ranks[0] == p && ranks[1..] == Encode(a, input[1..]).value;
      assert input == [input[0]] + input[1..];
    }
  }

  lemma {:induction false} PromoteDistinct(alpha: seq<byte>, p: nat)
    requires p < |alpha| && Distinct(alpha)
    ensures Distinct(Promote(alpha, p))
  {
    var r := Promote(alpha, p);
    forall i, j | 0 <= i < j < |r| ensures r[i] != r[j] {
      var oi := if i == 0 then p else if i <= p then i - 1 else i;
      var oj := if j == 0 then p else if j <= p then j - 1 else j;
      assert r[i] == alpha[oi] && r[j] == alpha[oj] && oi != oj;
    }
  }

  /** Over an alphabet without repetitions, encoding the decoded bytes gives back the ranks. */
  lemma {:induction false} EncodeDecode(alpha: seq<byte>, ranks: seq<byte>)
    requires |alpha| <= 256 && Distinct(alpha)
    requires Decode(alpha, ranks).Some?
    ensures Encode(alpha, Decode(alpha, ranks).value) == Some(ranks)
    decreases |ranks|
  {
    if ranks != [] {
      var p := ranks[0];
      var a := Promote(alpha, p);
      PromoteDistinct(alpha, p);
      var rest := Decode(a, ranks[1..]).value;
      EncodeDecode(a, ranks[1..]);
      var out := [alpha[p]] + rest;
      assert Decode(alpha, ranks).value == out;
      IndexOfDistinct(alpha, p);
      assert out[0] in alpha && out[1..] == rest;
      assert Encode(a, out[1..]) == Some(ranks[1..]);
      assert ranks == [p] + ranks[1..];
    }
  }

  lemma IndexOfDistinct(alpha: seq<byte>, p: nat)
    requires p < |alpha| && Distinct(alpha)
    ensures IndexOf(alpha, alpha[p]) == p
  {
  }

  /** Moving the front byte to the front changes nothing. */
  lemma PromoteFront(alpha: seq<byte>)
    requires |alpha| > 0
    ensures Promote(alpha, 0) == alpha
  {
    assert [alpha[0]] + alpha[..0] + alpha[1..] == alpha;
  }

  /**
   * Where every byte of an alphabet without repetitions sits once the byte
   * at `p` has moved to the front: that byte first, the bytes before it one
   * place further on, the bytes after it where they were.
   */
  lemma {:induction false} PromoteIndex(alpha: seq<byte>, p: nat, x: byte)
    requires p < |alpha| && Distinct(alpha) && x in alpha
    ensures x in Promote(alpha, p)
    ensures IndexOf(Promote(alpha, p), x)
         == if x == alpha[p] then 0
            else if IndexOf(alpha, x) < p then IndexOf(alpha, x) + 1
            else IndexOf(alpha, x)
  {
    var r := Promote(alpha, p);
    var q := IndexOf(alpha, x);
    PromoteDistinct(alpha, p);
    var k := if x == alpha[p] then 0 else if q < p then q + 1 else q;
    assert r[k] == x;
    IndexOfDistinct(r, k);
  }

  lemma {:induction false} AfterContains(alpha: seq<byte>, input: seq<byte>, b: byte)
    requires b in alpha
    ensures b in After(alpha, input)
    decreases |input|
  {
    if input != [] && input[0] in alpha {
      PromoteMembers(alpha, IndexOf(alpha, input[0]));
      AfterContains(Promote(alpha, IndexOf(alpha, input[0])), input[1..], b);
    } else if input != [] {
      AfterContains(alpha, input[1..], b);
    }
  }

  /**
   * The rank of `input[k]` is its position in the alphabet as left by the
   * bytes before it.
   */
  lemma {:induction false} EncodeAt(alpha: seq<byte>, input: seq<byte>, k: nat)
    requires |alpha| <= 256
    requires forall i :: 0 <= i < |input| ==> input[i] in alpha
    requires k < |input|
    ensures Encode(alpha, input).Some?
    ensures input[k] in After(alpha, input[..k])
    ensures Encode(alpha, input).value[k] == IndexOf(After(alpha, input[..k]), input[k])
    decreases k
  {
    EncodeDefinedIff(alpha, input);
    AfterContains(alpha, input[..k], input[k]);
    if k > 0 {
      var a := EncodeStep(alpha, input, k);
      EncodeAt(a, input[1..], k - 1);
    }
  }

  /** One step of `Encode` and of `After`: the first byte moves to the front. */
  lemma {:induction false} EncodeStep(alpha: seq<byte>, input: seq<byte>, k: nat) returns (a: seq<byte>)
    requires |alpha| <= 256
    requires forall i :: 0 <= i < |input| ==> input[i] in alpha
    requires 0 < k < |input|
    ensures a == Promote(alpha, IndexOf(alpha, input[0]))
    ensures forall i :: 0 <= i < |input[1..]| ==> input[1..][i] in a
    ensures Encode(alpha, input).Some? && Encode(a, input[1..]).Some?
    ensures Encode(alpha, input).value[k] == Encode(a, input[1..]).value[k - 1]
    ensures After(alpha, input[..k]) == After(a, input[1..][..k - 1])
  {
    a := Promote(alpha, IndexOf(alpha, input[0]));
    EncodeDefinedIff(alpha, input);
    PromoteMembers(alpha, IndexOf(alpha, input[0]));
    forall i | 0 <= i < |input[1..]| ensures input[1..][i] in a {
      assert input[1..][i] == input[i + 1];
    }
    var pre := input[..k];
    assert pre[0] == input[0] && pre[1..] == input[1..][..k - 1];
  }

  /** After a byte has been moved to the front it is the alphabet's first byte. */
  lemma {:induction false} AfterFront(alpha: seq<byte>, input: seq<byte>)
    requires forall i :: 0 <= i < |input| ==> input[i] in alpha
    requires input != []
    ensures After(alpha, input)[0] == input[|input| - 1]
    decreases |input|
  {
    if |input| > 1 {
      var a := Promote(alpha, IndexOf(alpha, input[0]));
      PromoteMembers(alpha, IndexOf(alpha, input[0]));
      forall i | 0 <= i < |input[1..]| ensures input[1..][i] in a {
        assert input[1..][i] == input[i + 1];
      }
      AfterFront(a, input[1..]);
    }
  }

  /** A byte equal to the one before it has rank 0. */
  lemma {:induction false} RepeatHasRankZero(alpha: seq<byte>, input: seq<byte>, k: nat)
    requires |alpha| <= 256
    requires Encode(alpha, input).Some? && 0 < k < |input| && input[k] == input[k - 1]
    ensures Encode(alpha, input).value[k] == 0
  {
    EncodeDefinedIff(alpha, input);
    EncodeAt(alpha, input, k);
    var pre := input[..k];
    assert forall i :: 0 <= i < |pre| ==> pre[i] in alpha by {
      forall i | 0 <= i < |pre| ensures pre[i] in alpha {
        assert pre[i] == input[i];
      }
    }
    AfterFront(alpha, pre);
    assert pre[|pre| - 1] == input[k];
  }

  /** The first rank is the first byte's position in the starting alphabet. */
  lemma FirstRank(alpha: seq<byte>, input: seq<byte>)
    requires |alpha| <= 256
    requires Encode(alpha, input).Some? && input != []
    ensures Encode(alpha, input).value[0] == IndexOf(alpha, input[0])
  {
  }

  ghost predicate HasEveryByte(alpha: seq<byte>) { forall b: byte :: b in alpha }

  lemma {:induction false} PromoteKeepsEveryByte(alpha: seq<byte>, p: nat)
    requires p < |alpha| && HasEveryByte(alpha)
    ensures HasEveryByte(Promote(alpha, p))
  {
    PromoteMembers(alpha, p);
  }

  /** An alphabet holding every byte can encode every input. */
  lemma {:induction false} EncodeTotal(alpha: seq<byte>, input: seq<byte>)
    requires |alpha| <= 256 && HasEveryByte(alpha)
    ensures Encode(alpha, input).Some?
  {
    EncodeDefinedIff(alpha, input);
  }

  /** The first step of `Encode` on `input[k..]`. */
  lemma {:induction false} EncodeUnfold(alpha: seq<byte>, input: seq<byte>, k: nat)
    requires |alpha| <= 256 && k < |input| && input[k] in alpha
    requires Encode(alpha, input[k..]).Some?
    ensures Encode(Promote(alpha, IndexOf(alpha, input[k])), input[k + 1..]).Some?
    ensures Encode(alpha, input[k..]).value
         == [IndexOf(alpha, input[k])] + Encode(Promote(alpha, IndexOf(alpha, input[k])), input[k + 1..]).value
  {
    assert input[k..][0] == input[k] && input[k..][1..] == input[k + 1..];
  }

  /** The first step of `Decode` on `ranks[k..]`. */
  lemma {:induction false} DecodeUnfold(alpha: seq<byte>, ranks: seq<byte>, k: nat)
    requires |alpha| == 256 && k < |ranks|
    ensures Decode(alpha, ranks[k..]).Some?
    ensures Decode(Promote(alpha, ranks[k]), ranks[k + 1..]).Some?
    ensures Decode(alpha, ranks[k..]).value
         == [alpha[ranks[k]]] + Decode(Promote(alpha, ranks[k]), ranks[k + 1..]).value
  {
    assert ranks[k..][0] == ranks[k] && ranks[k..][1..] == ranks[k + 1..];
    DecodeFullTotal(Promote(alpha, ranks[k]), ranks[k + 1..]);
  }

  /** The first step of `Encode` on `input[k..]`, whether or not it succeeds. */
  lemma {:induction false} EncodeFirst(alpha: seq<byte>, input: seq<byte>, k: nat)
    requires |alpha| <= 256 && k < |input|
    ensures input[k] !in alpha ==> Encode(alpha, input[k..]) == None
    ensures input[k] in alpha ==>
      Encode(alpha, input[k..]) == Prepend([IndexOf(alpha, input[k])], Encode(Promote(alpha, IndexOf(alpha, input[k])), input[k + 1..]))
  {
    assert input[k..][0] == input[k] && input[k..][1..] == input[k + 1..];
  }

  /** The first step of `Decode` on `ranks[k..]`, whether or not it succeeds. */
  lemma {:induction false} DecodeFirst(alpha: seq<byte>, ranks: seq<byte>, k: nat)
    requires k < |ranks|
    ensures ranks[k] >= |alpha| ==> Decode(alpha, ranks[k..]) == None
    ensures ranks[k] < |alpha| ==>
      Decode(alpha, ranks[k..]) == Prepend([alpha[ranks[k]]], Decode(Promote(alpha, ranks[k]), ranks[k + 1..]))
  {
    assert ranks[k..][0] == ranks[k] && ranks[k..][1..] == ranks[k + 1..];
  }

  /** Over all 256 bytes every input can be encoded and every rank sequence decoded. */
  lemma {:induction false} FullAlphabetTotal(input: seq<byte>, ranks: seq<byte>)
    ensures Encode(FullAlphabet(), input).Some?
    ensures Decode(FullAlphabet(), ranks).Some?
    ensures HasEveryByte(FullAlphabet())
  {
    forall b: byte ensures b in FullAlphabet() {
      assert FullAlphabet()[b] == b;
    }
    EncodeTotal(FullAlphabet(), input);
    DecodeFullTotal(FullAlphabet(), ranks);
  }

  lemma {:induction false} DecodeFullTotal(alpha: seq<byte>, ranks: seq<byte>)
    requires |alpha| == 256
    ensures Decode(alpha, ranks).Some?
    decreases |ranks|
  {
    if ranks != [] {
      DecodeFullTotal(Promote(alpha, ranks[0]), ranks[1..]);
    }
  }

  lemma FullAlphabetDistinct()
    ensures Distinct(FullAlphabet())
  {
  }
}
