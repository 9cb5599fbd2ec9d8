/**
 * `bwt.rs`: the Burrows-Wheeler step. The offsets of `buffer` are sorted
 * by the cyclic shift (rotation) that starts there. The step outputs the
 * last symbol of every sorted rotation, and for every row the row of the
 * rotation that starts one byte later (the "transformation").
 */
module Bwt {
  import opened Common
  import opened Sorting
  import opened MoveToFront
  import Mtf

  /** `a % n` for `0 <= a < 2 n`, which is all the source ever reduces (see `WrapIsMod`). */
  function Wrap(a: nat, n: nat): (r: nat)
    requires 0 < n && a < 2 * n
    ensures r < n
  {
    if a < n then a else a - n
  }

  lemma WrapIsMod(a: nat, n: nat)
    requires 0 < n && a < 2 * n
    ensures Wrap(a, n) == a % n
  {
  }

  /** The rotation of `buffer` that starts at offset `x`. */
  function Rotation(buffer: seq<byte>, x: nat): (r: seq<byte>)
    requires x < |buffer|
    ensures |r| == |buffer|
  {
    buffer[x..] + buffer[..x]
  }

  lemma RotationAt(buffer: seq<byte>, x: nat, t: nat)
    requires x < |buffer| && t < |buffer|
    ensures Rotation(buffer, x)[t] == buffer[Wrap(x + t, |buffer|)]
  {
  }

  /** Lexicographic order of two byte strings of the same length. */
  function LexCompare(a: seq<byte>, b: seq<byte>): Ordering
    requires |a| == |b|
  {
    if a == [] then Equal
    else if a[0] < b[0] then Less
    else if a[0] > b[0] then Greater
    else LexCompare(a[1..], b[1..])
  }

  lemma {:induction false} LexEqualIff(a: seq<byte>, b: seq<byte>)
    requires |a| == |b|
    ensures LexCompare(a, b) == Equal <==> a == b
  {
    if a != [] {
      LexEqualIff(a[1..], b[1..]);
      if a[0] == b[0] && a[1..] == b[1..] {
        assert a == [a[0]] + a[1..] && b == [b[0]] + b[1..];
      }
    }
  }

  lemma {:induction false} LexFlip(a: seq<byte>, b: seq<byte>)
    requires |a| == |b|
    ensures LexCompare(a, b) == Less <==> LexCompare(b, a) == Greater
  {
    if a != [] {
      LexFlip(a[1..], b[1..]);
    }
  }

  lemma {:induction false} LexTransitive(a: seq<byte>, b: seq<byte>, c: seq<byte>)
    requires |a| == |b| == |c|
    requires LexCompare(a, b) != Greater && LexCompare(b, c) != Greater
    ensures LexCompare(a, c) != Greater
  {
    if a != [] && a[0] == b[0] && b[0] == c[0] {
      LexTransitive(a[1..], b[1..], c[1..]);
    }
  }

  /** The order `sort_by` is given: rotations compared lexicographically. */
  function RotationOrder(buffer: seq<byte>): (nat, nat) -> Ordering
  {
    (x: nat, y: nat) =>
      if x < |buffer| && y < |buffer| then LexCompare(Rotation(buffer, x), Rotation(buffer, y)) else Equal
  }

  /**
   * The comparator closure of `sort_cyclic_shifts` (lines 9-22): walk both
   * rotations while their bytes agree, at most `len` steps, then compare the
   * bytes reached.
   */
  method CompareRotations(buffer: seq<byte>, x: nat, y: nat) returns (o: Ordering)
    requires x < |buffer| && y < |buffer|
    ensures o == LexCompare(Rotation(buffer, x), Rotation(buffer, y))
  {
    var len := |buffer|;
    var i, j, count := x, y, 0;
    ghost var rx, ry := Rotation(buffer, x), Rotation(buffer, y);
    while buffer[i] == buffer[j] && count < len
      invariant count <= len
      invariant i == Wrap(x + count, len) && j == Wrap(y + count, len)
      invariant LexCompare(rx, ry) == LexCompare(rx[count..], ry[count..])
      invariant count > 0 ==> buffer[x] == buffer[y]
    {
      RotationAt(buffer, x, count);
      RotationAt(buffer, y, count);
      assert rx[count..][1..] == rx[count + 1..] && ry[count..][1..] == ry[count + 1..];
      i := Wrap(i + 1, len);
      j := Wrap(j + 1, len);
      count := count + 1;
    }
    if count < len {
      RotationAt(buffer, x, count);
      RotationAt(buffer, y, count);
    }
    o := if buffer[i] < buffer[j] then Less else if buffer[i] > buffer[j] then Greater else Equal;
  }

  lemma {:induction false} RotationOrderIsPreorder(buffer: seq<byte>)
    ensures TotalPreorder(RotationOrder(buffer), Elems(Range(|buffer|)))
  {
    var cmp := RotationOrder(buffer);
    var elems := Elems(Range(|buffer|));
    forall a, b | a in elems && b in elems ensures cmp(a, b) == Less <==> cmp(b, a) == Greater {
      LexFlip(Rotation(buffer, a), Rotation(buffer, b));
    }
    forall a, b, c | a in elems && b in elems && c in elems && cmp(a, b) != Greater && cmp(b, c) != Greater
      ensures cmp(a, c) != Greater
    {
      LexTransitive(Rotation(buffer, a), Rotation(buffer, b), Rotation(buffer, c));
    }
  }

  /** `(0..buffer.len()).collect()` sorted by `sort_by` with the comparator above. */
  function SortedRotations(buffer: seq<byte>): (rows: seq<nat>)
    ensures |rows| == |buffer|
    ensures multiset(rows) == multiset(Range(|buffer|))
  {
    Sort(RotationOrder(buffer), Range(|buffer|))
  }

  /**
   * Rows are in increasing order of their rotations, and equal rotations
   * (a periodic buffer) are in increasing order of offset: the sort is stable.
   */
  ghost predicate RowsOrdered(buffer: seq<byte>, rows: seq<nat>)
  {
    StrictlySorted(TieBreak(RotationOrder(buffer)), rows)
  }

  lemma {:induction false} SortedRotationsOrdered(buffer: seq<byte>)
    ensures RowsOrdered(buffer, SortedRotations(buffer))
  {
    var n := |buffer|;
    var cmp := RotationOrder(buffer);
    StableIsTieBreak(cmp, Range(n));
    RotationOrderIsPreorder(buffer);
    TieBreakStrict(cmp, Elems(Range(n)));
    SortStrictlySorted(TieBreak(cmp), Range(n));
  }

  /** The sorted rows are the only ordered arrangement of the offsets. */
  lemma {:induction false} SortedRotationsUnique(buffer: seq<byte>, rows: seq<nat>)
    requires multiset(rows) == multiset(Range(|buffer|))
    requires RowsOrdered(buffer, rows)
    ensures rows == SortedRotations(buffer)
  {
    var n := |buffer|;
    var cmp := RotationOrder(buffer);
    SortedRotationsOrdered(buffer);
    RotationOrderIsPreorder(buffer);
    TieBreakStrict(cmp, Elems(Range(n)));
    assert Elems(rows) == Elems(Range(n)) by {
      forall e ensures e in Elems(rows) <==> e in Elems(Range(n)) {
        assert e in rows <==> e in multiset(rows);
        assert e in Range(n) <==> e in multiset(Range(n));
      }
    }
    StrictlySortedUnique(TieBreak(cmp), rows, SortedRotations(buffer));
  }

  // -----------------------------------------------------------------------
  // Permutations of 0..n.
  // -----------------------------------------------------------------------

  ghost predicate IsPermutation(p: seq<nat>) { multiset(p) == multiset(Range(|p|)) }

  lemma {:induction false} RangeCountAtMostOne(n: nat, v: nat)
    ensures multiset(Range(n))[v] <= 1
    ensures v < n ==> multiset(Range(n))[v] == 1
    ensures v >= n ==> multiset(Range(n))[v] == 0
  {
    if n > 0 {
      RangeCountAtMostOne(n - 1, v);
      assert Range(n) == Range(n - 1) + [n - 1];
    }
  }

  lemma {:induction false} PermutationBounded(p: seq<nat>)
    requires IsPermutation(p)
    ensures forall k :: 0 <= k < |p| ==> p[k] < |p|
    ensures forall i :: 0 <= i < |p| ==> i in p
  {
    var n := |p|;
    forall k | 0 <= k < n ensures p[k] < n {
      assert p[k] in multiset(Range(n));
      RangeCountAtMostOne(n, p[k]);
    }
    forall i | 0 <= i < n ensures i in p {
      RangeCountAtMostOne(n, i);
      assert i in multiset(p);
    }
  }

  lemma {:induction false} PermutationInjective(p: seq<nat>, k: nat, l: nat)
    requires IsPermutation(p) && k < |p| && l < |p| && k != l
    ensures p[k] != p[l]
  {
    if p[k] == p[l] {
      var lo, hi := if k < l then k else l, if k < l then l else k;
      var rest := p[..lo] + p[lo + 1..];
      MultisetRemove(p, lo);
      assert rest[hi - 1] == p[hi];
      assert p[hi] in multiset(rest);
      RangeCountAtMostOne(|p|, p[k]);
    }
  }

  /** The row holding offset `i`. */
  function RowOf(rows: seq<nat>, i: nat): (k: nat)
    requires i in rows
    ensures k < |rows| && rows[k] == i
  {
    if rows[0] == i then 0 else 1 + RowOf(rows[1..], i)
  }

  lemma {:induction false} RowOfUnique(rows: seq<nat>, k: nat)
    requires IsPermutation(rows) && k < |rows|
    ensures RowOf(rows, rows[k]) == k
  {
    var m := RowOf(rows, rows[k]);
    if m != k {
      PermutationInjective(rows, m, k);
    }
  }

  /**
   * The loop at lines 24-27, `origins[*i] = index` for every row: `origins`
   * is the inverse permutation, the row of each offset.
   */
  method Origins(indices: seq<nat>) returns (origins: seq<nat>)
    requires IsPermutation(indices)
    ensures |origins| == |indices|
    ensures forall i :: 0 <= i < |indices| ==> i in indices && origins[i] == RowOf(indices, i)
  {
    PermutationBounded(indices);
    var a := new nat[|indices|](_ => 0);
    for index := 0 to |indices|
      invariant forall k :: 0 <= k < index ==> a[indices[k]] == k
    {
      forall k | 0 <= k < index ensures indices[k] != indices[index] {
        PermutationInjective(indices, k, index);
      }
      a[indices[index]] := index;
    }
    origins := a[..];
    forall i | 0 <= i < |indices| ensures origins[i] == RowOf(indices, i) {
      RowOfUnique(indices, RowOf(indices, i));
    }
  }

  lemma {:induction false} SortedRotationsBounded(buffer: seq<byte>)
    ensures IsPermutation(SortedRotations(buffer))
    ensures forall k :: 0 <= k < |buffer| ==> SortedRotations(buffer)[k] < |buffer|
  {
    PermutationBounded(SortedRotations(buffer));
  }

  /** The last byte of every rotation, the rotations taken in the order `rows`. */
  function LastColumnOf(buffer: seq<byte>, rows: seq<nat>): (r: seq<byte>)
    requires |rows| == |buffer| && forall k :: 0 <= k < |rows| ==> rows[k] < |buffer|
    ensures |r| == |buffer|
  {
    var n := |buffer|;
    seq(n, k requires 0 <= k < n => Rotation(buffer, rows[k])[n - 1])
  }

  lemma {:induction false} LastColumnOfAt(buffer: seq<byte>, rows: seq<nat>, k: nat)
    requires |rows| == |buffer| && forall k :: 0 <= k < |rows| ==> rows[k] < |buffer|
    requires k < |rows|
    ensures LastColumnOf(buffer, rows)[k] == buffer[Wrap(rows[k] + |buffer| - 1, |buffer|)]
  {
    RotationAt(buffer, rows[k], |buffer| - 1);
  }

  /** For every row of `rows`, the row of the rotation that starts one byte further on. */
  function TransformationOf(rows: seq<nat>): (t: seq<nat>)
    requires IsPermutation(rows)
    ensures |t| == |rows|
    ensures forall k :: 0 <= k < |rows| ==> t[k] < |rows|
  {
    var n := |rows|;
    PermutationBounded(rows);
    seq(n, k requires 0 <= k < n => RowOf(rows, Wrap(rows[k] + 1, n)))
  }

  /** The last byte of every sorted rotation. */
  function LastColumn(buffer: seq<byte>): (r: seq<byte>)
    ensures |r| == |buffer|
  {
    SortedRotationsBounded(buffer);
    LastColumnOf(buffer, SortedRotations(buffer))
  }

  /** For every sorted row, the row of the rotation that starts one byte further on. */
  function Transformation(buffer: seq<byte>): (t: seq<nat>)
    ensures |t| == |buffer|
    ensures forall k :: 0 <= k < |buffer| ==> t[k] < |buffer|
  {
    SortedRotationsBounded(buffer);
    TransformationOf(SortedRotations(buffer))
  }

  lemma {:induction false} TransformationOfNext(rows: seq<nat>, k: nat)
    requires IsPermutation(rows) && k < |rows|
    ensures rows[k] < |rows|
    ensures rows[TransformationOf(rows)[k]] == Wrap(rows[k] + 1, |rows|)
  {
    PermutationBounded(rows);
  }

  /** `t[k]` is the only row that starts one offset after row `k`. */
  lemma {:induction false} TransformationOfIs(rows: seq<nat>, k: nat, m: nat)
    requires IsPermutation(rows) && k < |rows| && m < |rows|
    requires rows[k] < |rows| && rows[m] == Wrap(rows[k] + 1, |rows|)
    ensures TransformationOf(rows)[k] == m
  {
    TransformationOfNext(rows, k);
    if TransformationOf(rows)[k] != m {
      PermutationInjective(rows, TransformationOf(rows)[k], m);
    }
  }

  /** Row `t[k]` starts one offset after row `k`, cyclically. */
  lemma {:induction false} TransformationNext(buffer: seq<byte>, k: nat)
    requires k < |buffer|
    ensures SortedRotations(buffer)[k] < |buffer|
    ensures SortedRotations(buffer)[Transformation(buffer)[k]] == (SortedRotations(buffer)[k] + 1) % |buffer|
  {
    SortedRotationsBounded(buffer);
    TransformationOfNext(SortedRotations(buffer), k);
    WrapIsMod(SortedRotations(buffer)[k] + 1, |buffer|);
  }

  /** `sort_cyclic_shifts`. */
  method SortCyclicShifts(buffer: seq<byte>) returns (lastSymbols: seq<byte>, transformation: seq<nat>)
    ensures lastSymbols == LastColumn(buffer)
    ensures transformation == Transformation(buffer)
  {
    var n := |buffer|;
    var indices := SortedRotations(buffer);
    SortedRotationsBounded(buffer);
    var origins := Origins(indices);
    transformation := seq(n, i requires 0 <= i < n => origins[Wrap(indices[i] + 1, n)]);
    lastSymbols := seq(n, i requires 0 <= i < n => buffer[Wrap(n + indices[i] - 1, n)]);
    forall k | 0 <= k < n ensures lastSymbols[k] == LastColumnOf(buffer, indices)[k] {
      RotationAt(buffer, indices[k], n - 1);
    }
    assert transformation == TransformationOf(indices);
  }

  /**
   * `apply`, with the full-alphabet move-to-front transform of `mtf.rs` in
   * place of the 255-byte one of this file (see `MoveToFrontShort`).
   */
  method Apply(buffer: seq<byte>) returns (moved: seq<byte>, transformation: seq<nat>)
    ensures Encode(FullAlphabet(), LastColumn(buffer)) == Some(moved)
    ensures transformation == Transformation(buffer)
  {
    var lastSymbols;
    lastSymbols, transformation := SortCyclicShifts(buffer);
    moved := Mtf.Apply(lastSymbols);
  }

  /**
   * `apply` as written: the last column goes through this file's
   * `move_to_front` over the bytes 0..255, which panics exactly when the
   * block holds byte 255.
   */
  method ApplyAsWritten(buffer: seq<byte>) returns (r: Result<(seq<byte>, seq<nat>)>)
    ensures r.Ok? <==> 255 !in buffer
    ensures r.Ok? ==> Encode(ShortAlphabet(), LastColumn(buffer)) == Some(r.value.0)
    ensures r.Ok? ==> r.value.1 == Transformation(buffer)
  {
    var lastSymbols, transformation := SortCyclicShifts(buffer);
    var moved := MoveToFrontShort(lastSymbols);
    ShortEncodable(buffer);
    if moved.Err? {
      return Err(moved.msg);
    }
    return Ok((moved.value, transformation));
  }

  /** The last column can be encoded over 0..255 exactly when the block has no byte 255. */
  lemma {:induction false} ShortEncodable(buffer: seq<byte>)
    ensures Encode(ShortAlphabet(), LastColumn(buffer)).Some? <==> 255 !in buffer
  {
    var last := LastColumn(buffer);
    LastColumnPermutes(buffer);
    EncodeDefinedIff(ShortAlphabet(), last);
    if 255 in buffer {
      assert 255 in multiset(last);
      var i :| 0 <= i < |last| && last[i] == 255;
      assert last[i] !in ShortAlphabet();
    } else {
      forall i | 0 <= i < |last|
        ensures last[i] in ShortAlphabet()
      {
        assert last[i] in multiset(buffer);
        assert ShortAlphabet()[last[i]] == last[i];
      }
    }
  }

  // -----------------------------------------------------------------------
  // What the outputs mean.
  // -----------------------------------------------------------------------

  /** Offset `i` of `buffer` rotated right by one. */
  function RightRotated(buffer: seq<byte>): nat -> byte
  {
    i => if 0 < i < |buffer| then buffer[i - 1] else if |buffer| > 0 then buffer[|buffer| - 1] else 0
  }

  /** The last column reads `buffer` rotated right by one at the row offsets. */
  lemma {:induction false} LastColumnOfMaps(buffer: seq<byte>, rows: seq<nat>)
    requires |rows| == |buffer| && forall k :: 0 <= k < |rows| ==> rows[k] < |buffer|
    ensures LastColumnOf(buffer, rows) == Map(RightRotated(buffer), rows)
  {
    var n := |buffer|;
    forall k | 0 <= k < n ensures LastColumnOf(buffer, rows)[k] == Map(RightRotated(buffer), rows)[k] {
      RotationAt(buffer, rows[k], n - 1);
      MapAt(RightRotated(buffer), rows, k);
    }
  }

  lemma {:induction false} RightRotatedPermutes(buffer: seq<byte>)
    ensures multiset(Map(RightRotated(buffer), Range(|buffer|))) == multiset(buffer)
  {
    var n := |buffer|;
    if n > 0 {
      var shifted := [buffer[n - 1]] + buffer[..n - 1];
      forall k | 0 <= k < n ensures Map(RightRotated(buffer), Range(n))[k] == shifted[k] {
        MapAt(RightRotated(buffer), Range(n), k);
      }
      assert Map(RightRotated(buffer), Range(n)) == shifted;
      assert buffer == buffer[..n - 1] + [buffer[n - 1]];
    }
  }

  /** The last column is a rearrangement of the input. */
  lemma {:induction false} LastColumnPermutes(buffer: seq<byte>)
    ensures multiset(LastColumn(buffer)) == multiset(buffer)
  {
    SortedRotationsBounded(buffer);
    LastColumnOfMaps(buffer, SortedRotations(buffer));
    MapSort(RightRotated(buffer), RotationOrder(buffer), Range(|buffer|));
    RightRotatedPermutes(buffer);
  }

  lemma {:induction false} TransformationOfInjective(rows: seq<nat>, k: nat, l: nat)
    requires IsPermutation(rows) && k < |rows| && l < |rows| && k != l
    ensures TransformationOf(rows)[k] != TransformationOf(rows)[l]
  {
    TransformationOfNext(rows, k);
    TransformationOfNext(rows, l);
    PermutationInjective(rows, k, l);
  }

  /** The transformation is a permutation of the rows. */
  lemma {:induction false} TransformationPermutes(buffer: seq<byte>)
    ensures forall k :: 0 <= k < |buffer| ==> Transformation(buffer)[k] < |buffer|
    ensures forall k, l :: 0 <= k < l < |buffer| ==> Transformation(buffer)[k] != Transformation(buffer)[l]
  {
    SortedRotationsBounded(buffer);
    forall k, l | 0 <= k < l < |buffer| ensures Transformation(buffer)[k] != Transformation(buffer)[l] {
      TransformationOfInjective(SortedRotations(buffer), k, l);
    }
  }

  /** The last symbol of row `t[k]` is the first symbol of row `k`. */
  lemma {:induction false} LastOfNextIsFirst(buffer: seq<byte>, k: nat)
    requires k < |buffer|
    ensures SortedRotations(buffer)[k] < |buffer|
    ensures LastColumn(buffer)[Transformation(buffer)[k]] == Rotation(buffer, SortedRotations(buffer)[k])[0]
  {
    var n, rows := |buffer|, SortedRotations(buffer);
    SortedRotationsBounded(buffer);
    TransformationOfNext(rows, k);
    var next := TransformationOf(rows)[k];
    RotationAt(buffer, rows[next], n - 1);
    RotationAt(buffer, rows[k], 0);
  }

  /** `j` steps along the transformation from row `r`. */
  function Walk(t: seq<nat>, r: nat, j: nat): (row: nat)
    requires r < |t| && forall k :: 0 <= k < |t| ==> t[k] < |t|
    ensures row < |t|
  {
    if j == 0 then r else t[Walk(t, r, j - 1)]
  }

  /** From the row of offset 0, `j` steps reach the row of offset `j` (and `n` steps return). */
  lemma {:induction false} WalkFromStart(rows: seq<nat>, j: nat)
    requires IsPermutation(rows) && 0 < |rows| && j <= |rows|
    ensures 0 in rows
    ensures rows[Walk(TransformationOf(rows), RowOf(rows, 0), j)] == Wrap(j, |rows|)
  {
    PermutationBounded(rows);
    if j > 0 {
      WalkFromStart(rows, j - 1);
      TransformationOfNext(rows, Walk(TransformationOf(rows), RowOf(rows, 0), j - 1));
    }
  }

  lemma {:induction false} WalkSpellsInputOf(buffer: seq<byte>, rows: seq<nat>, j: nat)
    requires IsPermutation(rows) && |rows| == |buffer| && j < |buffer|
    requires forall k :: 0 <= k < |rows| ==> rows[k] < |buffer|
    requires 0 in rows
    ensures LastColumnOf(buffer, rows)[Walk(TransformationOf(rows), RowOf(rows, 0), j + 1)] == buffer[j]
  {
    var row := Walk(TransformationOf(rows), RowOf(rows, 0), j + 1);
    WalkFromStart(rows, j + 1);
    LastColumnOfAt(buffer, rows, row);
    if j + 1 < |buffer| {
      assert rows[row] == j + 1 && Wrap(j + |buffer|, |buffer|) == j;
    } else {
      assert rows[row] == 0 && Wrap(|buffer| - 1, |buffer|) == j;
    }
  }

  /**
   * Following the transformation from the row of offset 0 and reading each
   * row's last symbol spells out the input: the transform can be inverted.
   */
  lemma {:induction false} WalkSpellsInput(buffer: seq<byte>, j: nat)
    requires j < |buffer|
    ensures 0 in SortedRotations(buffer)
    ensures LastColumn(buffer)[Walk(Transformation(buffer), RowOf(SortedRotations(buffer), 0), j + 1)] == buffer[j]
  {
    SortedRotationsBounded(buffer);
    WalkFromStart(SortedRotations(buffer), 0);
    WalkSpellsInputOf(buffer, SortedRotations(buffer), j);
  }

  // -----------------------------------------------------------------------
  // The move-to-front of this file, over `(0..255)`.
  // -----------------------------------------------------------------------

  /**
   * `move_to_front` (lines 41-54): its alphabet `(0..255)` holds 0 to 254, so
   * `position(..).unwrap()` panics on the byte 255.
   */
  method MoveToFrontShort(buffer: seq<byte>) returns (r: Result<seq<byte>>)
    ensures r.Ok? <==> Encode(ShortAlphabet(), buffer).Some?
    ensures r.Ok? ==> Encode(ShortAlphabet(), buffer) == Some(r.value)
  {
    var alphabet := ShortAlphabet();
    var output: seq<byte> := [];
    var k := 0;
    assert buffer[k..] == buffer;
    while k < |buffer|
      invariant k <= |buffer| && |alphabet| == 255
      invariant Encode(ShortAlphabet(), buffer) == Prepend(output, Encode(alphabet, buffer[k..]))
    {
      var i := buffer[k];
      EncodeFirst(alphabet, buffer, k);
      if i !in alphabet {
        return Err("called `Option::unwrap()` on a `None` value");
      }
      var position := IndexOf(alphabet, i);
      PrependPrepend(output, [position], Encode(Promote(alphabet, position), buffer[k + 1..]));
      output := output + [position];
      alphabet := Promote(alphabet, position);
      k := k + 1;
    }
    assert buffer[k..] == [];
    assert output + [] == output;
    return Ok(output);
  }

  /** `reverse_move_to_front` (lines 61-76): `alphabet[index]` panics for index 255. */
  method ReverseMoveToFrontShort(buffer: seq<byte>) returns (r: Result<seq<byte>>)
    ensures r.Ok? <==> Decode(ShortAlphabet(), buffer).Some?
    ensures r.Ok? ==> Decode(ShortAlphabet(), buffer) == Some(r.value)
  {
    var alphabet := ShortAlphabet();
    var output: seq<byte> := [];
    var k := 0;
    assert buffer[k..] == buffer;
    while k < |buffer|
      invariant k <= |buffer| && |alphabet| == 255
      invariant Decode(ShortAlphabet(), buffer) == Prepend(output, Decode(alphabet, buffer[k..]))
    {
      var index := buffer[k];
      DecodeFirst(alphabet, buffer, k);
      if index >= |alphabet| {
        return Err("index out of bounds: the len is 255 but the index is 255");
      }
      var letter := alphabet[index];
      PrependPrepend(output, [letter], Decode(Promote(alphabet, index), buffer[k + 1..]));
      output := output + [letter];
      alphabet := Promote(alphabet, index);
      k := k + 1;
    }
    assert buffer[k..] == [];
    assert output + [] == output;
    return Ok(output);
  }

  /**
   * `reverse` (lines 56-59): after the move-to-front step it calls
   * `reverse_sort_cyclic_shifts`, whose body is `todo!()`, so it always panics.
   */
  method Reverse(buffer: seq<byte>, transformation: seq<nat>) returns (r: Result<seq<byte>>)
    ensures r.Err?
  {
    var moved := ReverseMoveToFrontShort(buffer);
    if moved.Err? {
      return Err(moved.msg);
    }
    return Err("not yet implemented");
  }

  /** The byte 255 has no rank in this file's alphabet, and the rank 255 no byte. */
  lemma {:induction false} ShortAlphabetRejects255()
    ensures Encode(ShortAlphabet(), [255]) == None
    ensures Decode(ShortAlphabet(), [255]) == None
    ensures Encode(FullAlphabet(), [255]) == Some([255])
  {
    assert 255 !in ShortAlphabet();
    assert FullAlphabet()[255] == 255;
    assert IndexOf(FullAlphabet(), 255) == 255;
    EncodeFirst(FullAlphabet(), [255], 0);
    assert [255][0..] == [255] && [255][1..] == [];
    assert Encode(Promote(FullAlphabet(), 255), []) == Some([]);
    assert [255] + [] == [255];
  }

  // -----------------------------------------------------------------------
  // The test of lines 86-93.
  // -----------------------------------------------------------------------

  lemma {:induction false} AdjacentOrdered(buffer: seq<byte>, rows: seq<nat>)
    requires forall k :: 0 <= k < |rows| ==> rows[k] < |buffer|
    requires forall k :: 0 <= k < |rows| - 1 ==> TieBreak(RotationOrder(buffer))(rows[k], rows[k + 1]) == Less
    ensures RowsOrdered(buffer, rows)
  {
    var cmp := TieBreak(RotationOrder(buffer));
    RotationOrderIsPreorder(buffer);
    TieBreakStrict(RotationOrder(buffer), Elems(Range(|buffer|)));
    forall k, l | 0 <= k < l < |rows| ensures cmp(rows[k], rows[l]) == Less {
      AdjacentChain(buffer, rows, k, l);
    }
  }

  lemma {:induction false} AdjacentChain(buffer: seq<byte>, rows: seq<nat>, k: nat, l: nat)
    requires forall k :: 0 <= k < |rows| ==> rows[k] < |buffer|
    requires forall k :: 0 <= k < |rows| - 1 ==> TieBreak(RotationOrder(buffer))(rows[k], rows[k + 1]) == Less
    requires StrictOrder(TieBreak(RotationOrder(buffer)), Elems(Range(|buffer|)))
    requires k < l < |rows|
    ensures TieBreak(RotationOrder(buffer))(rows[k], rows[l]) == Less
    decreases l - k
  {
    if l > k + 1 {
      AdjacentChain(buffer, rows, k + 1, l);
      assert Range(|buffer|)[rows[k]] == rows[k] && Range(|buffer|)[rows[k + 1]] == rows[k + 1];
      assert Range(|buffer|)[rows[l]] == rows[l];
    }
  }

  /** The sorted rotations of "DRDOBBS" start at offsets 4, 5, 2, 0, 3, 1, 6. */
  lemma {:induction false} DrDobbsRotations(buffer: seq<byte>)
    requires buffer == [68, 82, 68, 79, 66, 66, 83]
    ensures RotationOrder(buffer)(4, 5) == Less && RotationOrder(buffer)(5, 2) == Less
    ensures RotationOrder(buffer)(2, 0) == Less && RotationOrder(buffer)(0, 3) == Less
    ensures RotationOrder(buffer)(3, 1) == Less && RotationOrder(buffer)(1, 6) == Less
  {
    assert Rotation(buffer, 4) == [66, 66, 83, 68, 82, 68, 79];
    assert Rotation(buffer, 5) == [66, 83, 68, 82, 68, 79, 66];
    assert Rotation(buffer, 2) == [68, 79, 66, 66, 83, 68, 82];
    assert Rotation(buffer, 0) == [68, 82, 68, 79, 66, 66, 83];
    assert Rotation(buffer, 3) == [79, 66, 66, 83, 68, 82, 68];
    assert Rotation(buffer, 1) == [82, 68, 79, 66, 66, 83, 68];
    assert Rotation(buffer, 6) == [83, 68, 82, 68, 79, 66, 66];
    assert LexCompare(Rotation(buffer, 4)[1..], Rotation(buffer, 5)[1..]) == Less;
    assert LexCompare(Rotation(buffer, 2)[1..], Rotation(buffer, 0)[1..]) == Less;
  }

  lemma {:induction false} DrDobbsRows(buffer: seq<byte>, rows: seq<nat>)
    requires buffer == [68, 82, 68, 79, 66, 66, 83] && rows == [4, 5, 2, 0, 3, 1, 6]
    ensures SortedRotations(buffer) == rows
  {
    DrDobbsRotations(buffer);
    AdjacentOrdered(buffer, rows);
    DrDobbsPermutation(rows);
    SortedRotationsUnique(buffer, rows);
  }

  lemma {:induction false} DrDobbsPermutation(rows: seq<nat>)
    requires rows == [4, 5, 2, 0, 3, 1, 6]
    ensures IsPermutation(rows)
  {
    assert Range(7) == [0, 1, 2, 3, 4, 5, 6];
    assert multiset(rows) == multiset{0, 1, 2, 3, 4, 5, 6};
  }

  lemma {:induction false} DrDobbsLast(buffer: seq<byte>, rows: seq<nat>)
    requires buffer == [68, 82, 68, 79, 66, 66, 83] && rows == [4, 5, 2, 0, 3, 1, 6]
    ensures LastColumnOf(buffer, rows) == [79, 66, 82, 83, 68, 68, 66]
  {
    var last := LastColumnOf(buffer, rows);
    assert last[0] == 79 && last[1] == 66 && last[2] == 82 && last[3] == 83;
    assert last[4] == 68 && last[5] == 68 && last[6] == 66;
  }

  lemma {:induction false} DrDobbsNext(rows: seq<nat>)
    requires rows == [4, 5, 2, 0, 3, 1, 6]
    ensures IsPermutation(rows)
    ensures |TransformationOf(rows)| == 7
    ensures TransformationOf(rows)[0] == 1 && TransformationOf(rows)[1] == 6 && TransformationOf(rows)[2] == 4
    ensures TransformationOf(rows)[3] == 5 && TransformationOf(rows)[4] == 0 && TransformationOf(rows)[5] == 2
    ensures TransformationOf(rows)[6] == 3
  {
    DrDobbsPermutation(rows);
    TransformationOfIs(rows, 0, 1);
    TransformationOfIs(rows, 1, 6);
    TransformationOfIs(rows, 2, 4);
    TransformationOfIs(rows, 3, 5);
    TransformationOfIs(rows, 4, 0);
    TransformationOfIs(rows, 5, 2);
    TransformationOfIs(rows, 6, 3);
  }

  /** "DRDOBBS" gives "OBRSDDB" and [1, 6, 4, 5, 0, 2, 3] (lines 86-93). */
  lemma {:induction false} DrDobbs(buffer: seq<byte>)
    requires buffer == [68, 82, 68, 79, 66, 66, 83]
    ensures LastColumn(buffer) == [79, 66, 82, 83, 68, 68, 66]
    ensures Transformation(buffer) == [1, 6, 4, 5, 0, 2, 3]
  {
    var rows := SortedRotations(buffer);
    DrDobbsRows(buffer, [4, 5, 2, 0, 3, 1, 6]);
    DrDobbsLast(buffer, rows);
    DrDobbsTransformation(rows);
  }

  lemma {:induction false} DrDobbsTransformation(rows: seq<nat>)
    requires rows == [4, 5, 2, 0, 3, 1, 6]
    ensures IsPermutation(rows)
    ensures TransformationOf(rows) == [1, 6, 4, 5, 0, 2, 3]
  {
    DrDobbsNext(rows);
    var t := TransformationOf(rows);
    assert t == [1, 6, 4, 5, 0, 2, 3];
  }
}
