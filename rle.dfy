/**
 * `rle.rs` of the JPEG improver: run-length coding of bytes. A lone byte
 * stands for itself; a run of two or more equal bytes is written as the byte
 * twice and then the length of the run, so the decoder knows a count follows
 * whenever a byte repeats the one before it.
 */
module Rle {
  import opened Common

  /** `MAX_SEQUENCE_SIZE`: the largest count one byte can carry. */
  const MaxSequence: nat := 255

  /** A maximal stretch of `count` copies of `value`. */
  datatype Run = Run(value: byte, count: nat)

  /** The maximal runs of `data`. */
  function Runs(data: seq<byte>): seq<Run> { RunsUpTo(data, |data|) }

  /** The maximal runs of the first `i` bytes, gathered from the front as `apply` meets them. */
  function RunsUpTo(data: seq<byte>, i: nat): (rs: seq<Run>)
    requires i <= |data|
    ensures |rs| == 0 <==> i == 0
    ensures i > 0 ==> rs[|rs| - 1].value == data[i - 1]
  {
    if i == 0 then [] else Absorb(RunsUpTo(data, i - 1), data[i - 1])
  }

  /** One more byte: it lengthens the last run when it repeats that run's byte. */
  function Absorb(rs: seq<Run>, x: byte): (r: seq<Run>)
    ensures |r| > 0 && r[|r| - 1].value == x
  {
    if rs != [] && rs[|rs| - 1].value == x then
      rs[..|rs| - 1] + [Run(x, rs[|rs| - 1].count + 1)]
    else
      rs + [Run(x, 1)]
  }

  /** The code of every run, one after the other. */
  function Emit(code: Run -> seq<byte>, rs: seq<Run>): seq<byte>
  {
    if rs == [] then [] else Emit(code, rs[..|rs| - 1]) + code(rs[|rs| - 1])
  }

  function Copies(run: Run): seq<byte> { Repeat(run.value, run.count) }

  /** The bytes a sequence of runs stands for. */
  function Expand(rs: seq<Run>): seq<byte> { Emit(Copies, rs) }

  /** No run is empty and neighbouring runs hold different bytes. */
  ghost predicate Maximal(rs: seq<Run>)
  {
    (forall j :: 0 <= j < |rs| ==> rs[j].count >= 1) &&
    (forall j :: 0 <= j < |rs| - 1 ==> rs[j].value != rs[j + 1].value)
  }

  lemma {:induction false} EmitSnoc(code: Run -> seq<byte>, rs: seq<Run>, r: Run)
    ensures Emit(code, rs + [r]) == Emit(code, rs) + code(r)
  {
    assert (rs + [r])[..|rs|] == rs;
  }

  lemma {:induction false} EmitCons(code: Run -> seq<byte>, r: Run, rs: seq<Run>)
    ensures Emit(code, [r] + rs) == code(r) + Emit(code, rs)
    decreases |rs|
  {
    if rs == [] {
      EmitSnoc(code, [], r);
      assert [r] + rs == [] + [r];
    } else {
      var init := rs[..|rs| - 1];
      var last := rs[|rs| - 1];
      assert rs == init + [last];
      assert [r] + rs == ([r] + init) + [last];
      EmitSnoc(code, [r] + init, last);
      EmitCons(code, r, init);
      EmitSnoc(code, init, last);
    }
  }

  /** `Runs` cuts `data` into maximal runs that spell `data` again. */
  lemma {:induction false} RunsSplit(data: seq<byte>)
    ensures Maximal(Runs(data)) && Expand(Runs(data)) == data
  {
    RunsSplitUpTo(data, |data|);
    assert data[..|data|] == data;
  }

  lemma {:induction false} RunsSplitUpTo(data: seq<byte>, i: nat)
    requires i <= |data|
    ensures Maximal(RunsUpTo(data, i)) && Expand(RunsUpTo(data, i)) == data[..i]
  {
    if i > 0 {
      RunsSplitUpTo(data, i - 1);
      AbsorbSplits(RunsUpTo(data, i - 1), data[i - 1]);
      SliceSnoc(data, i);
    }
  }

  /** Absorbing a byte keeps the runs maximal and spells one byte more. */
  lemma {:induction false} AbsorbSplits(rs: seq<Run>, x: byte)
    requires Maximal(rs)
    ensures Maximal(Absorb(rs, x)) && Expand(Absorb(rs, x)) == Expand(rs) + [x]
  {
    if rs != [] && rs[|rs| - 1].value == x {
      RunsStepSame(rs, x);
    } else {
      RunsStepNew(rs, x);
    }
  }

  lemma {:induction false} RunsStepSame(rs: seq<Run>, x: byte)
    requires Maximal(rs) && rs != [] && rs[|rs| - 1].value == x
    ensures Maximal(rs[..|rs| - 1] + [Run(x, rs[|rs| - 1].count + 1)])
    ensures Expand(rs[..|rs| - 1] + [Run(x, rs[|rs| - 1].count + 1)]) == Expand(rs) + [x]
  {
    var last := rs[|rs| - 1];
    MaximalReplaceLast(rs, last.count + 1);
    assert rs == rs[..|rs| - 1] + [last];
    ExpandExtend(rs[..|rs| - 1], last);
  }

  lemma {:induction false} RunsStepNew(rs: seq<Run>, x: byte)
    requires Maximal(rs) && (rs != [] ==> rs[|rs| - 1].value != x)
    ensures Maximal(rs + [Run(x, 1)]) && Expand(rs + [Run(x, 1)]) == Expand(rs) + [x]
  {
    MaximalSnoc(rs, Run(x, 1));
    EmitSnoc(Copies, rs, Run(x, 1));
    assert Repeat(x, 1) == [x];
  }

  lemma {:induction false} MaximalReplaceLast(rs: seq<Run>, count: nat)
    requires Maximal(rs) && rs != [] && count >= 1
    ensures Maximal(rs[..|rs| - 1] + [Run(rs[|rs| - 1].value, count)])
  {
    var rs' := rs[..|rs| - 1] + [Run(rs[|rs| - 1].value, count)];
    forall j | 0 <= j < |rs'| - 1 ensures rs'[j].value != rs'[j + 1].value {
      assert rs'[j] == rs[j] && rs'[j + 1].value == rs[j + 1].value;
    }
  }

  lemma {:induction false} MaximalSnoc(rs: seq<Run>, r: Run)
    requires Maximal(rs) && r.count >= 1
    requires rs != [] ==> rs[|rs| - 1].value != r.value
    ensures Maximal(rs + [r])
  {
    var rs' := rs + [r];
    forall j | 0 <= j < |rs'| - 1 ensures rs'[j].value != rs'[j + 1].value {
      assert rs'[j] == rs[j];
    }
  }

  lemma {:induction false} ExpandExtend(front: seq<Run>, last: Run)
    ensures Expand(front + [Run(last.value, last.count + 1)]) == Expand(front + [last]) + [last.value]
  {
    EmitSnoc(Copies, front, last);
    EmitSnoc(Copies, front, Run(last.value, last.count + 1));
    assert Repeat(last.value, last.count + 1) == Repeat(last.value, last.count) + [last.value];
  }

  lemma {:induction false} RunsRepeat(b: byte, k: nat, j: nat)
    requires 1 <= j <= k
    ensures RunsUpTo(Repeat(b, k), j) == [Run(b, j)]
  {
    if j > 1 {
      RunsRepeat(b, k, j - 1);
    }
  }

  /**
   * What `apply` writes for a run once its first byte is out, with `r`
   * further copies: every 254 copies fill a count of 255 and are written
   * as `[b, 255]` on the spot, and a remainder of `r` copies is written as
   * `[b, r + 1]` when the run ends.
   */
  function Continuation(b: byte, r: nat): seq<byte>
  {
    if r == 0 then [] else if r < 254 then [b, r + 1] else [b, 255] + Continuation(b, r - 254)
  }

  /** The bytes `apply` writes for one run. */
  function RunCode(run: Run): seq<byte>
  {
    if run.count == 0 then [] else [run.value] + Continuation(run.value, run.count - 1)
  }

  /** The output of `apply`. */
  function Encode(data: seq<byte>): seq<byte> { Emit(RunCode, Runs(data)) }

  /** A run of at most 255 bytes: itself when alone, else the byte twice and the count. */
  function ShortCode(b: byte, c: nat): (r: seq<byte>)
    requires c <= MaxSequence
  {
    if c == 0 then [] else if c == 1 then [b] else [b, b, c]
  }

  /** Runs of up to 255 bytes are written as the design says, with a count in 2..255. */
  lemma {:induction false} RunCodeShort(run: Run)
    requires run.count <= MaxSequence
    ensures RunCode(run) == ShortCode(run.value, run.count)
    ensures run.count >= 2 ==> RunCode(run) == [run.value, run.value, run.count]
  {
    var b := run.value;
    if run.count == MaxSequence {
      assert Continuation(b, 254) == [b, 255] + Continuation(b, 0);
    } else if run.count >= 2 {
      assert Continuation(b, run.count - 1) == [b, run.count];
    }
  }

  /**
   * Every byte after the first in the code of a run is, in turn, the run's
   * byte and then a count between 2 and 255.
   */
  lemma {:induction false} ContinuationPairs(b: byte, r: nat)
    ensures |Continuation(b, r)| % 2 == 0
    ensures forall j :: 0 <= j < |Continuation(b, r)| ==>
      (j % 2 == 0 ==> Continuation(b, r)[j] == b) && (j % 2 == 1 ==> Continuation(b, r)[j] >= 2)
    decreases r
  {
    if r >= 254 {
      ContinuationPairs(b, r - 254);
      var tail := Continuation(b, r - 254);
      assert Continuation(b, r) == [b, 255] + tail;
      forall j | 0 <= j < |Continuation(b, r)|
        ensures (j % 2 == 0 ==> Continuation(b, r)[j] == b) && (j % 2 == 1 ==> Continuation(b, r)[j] >= 2)
      {
        if j >= 2 {
          assert Continuation(b, r)[j] == tail[j - 2];
          assert j % 2 == (j - 2) % 2;
        }
      }
    }
  }

  /** Input with no byte equal to its neighbour passes through unchanged. */
  lemma {:induction false} EncodeNoRepeats(data: seq<byte>)
    requires forall j :: 0 <= j < |data| - 1 ==> data[j] != data[j + 1]
    ensures Encode(data) == data
  {
    EncodeNoRepeatsUpTo(data, |data|);
    assert data[..|data|] == data;
  }

  lemma {:induction false} EncodeNoRepeatsUpTo(data: seq<byte>, i: nat)
    requires i <= |data|
    requires forall j :: 0 <= j < |data| - 1 ==> data[j] != data[j + 1]
    ensures Emit(RunCode, RunsUpTo(data, i)) == data[..i]
  {
    if i > 0 {
      EncodeNoRepeatsUpTo(data, i - 1);
      EmitSnoc(RunCode, RunsUpTo(data, i - 1), Run(data[i - 1], 1));
      SliceSnoc(data, i);
    }
  }

  /** `count` copies of 255-byte pieces `[b, 255]`, as `apply` flushes them. */
  function Flushes(b: byte, q: nat): seq<byte>
  {
    if q == 0 then [] else Flushes(b, q - 1) + [b, 255]
  }

  lemma {:induction false} FlushesFront(b: byte, q: nat)
    requires q > 0
    ensures Flushes(b, q) == [b, 255] + Flushes(b, q - 1)
  {
    if q > 1 {
      FlushesFront(b, q - 1);
    }
  }

  lemma {:induction false} ContinuationSplit(b: byte, q: nat, p: nat)
    requires p < 254
    ensures Continuation(b, 254 * q + p) == Flushes(b, q) + Continuation(b, p)
  {
    if q > 0 {
      ContinuationSplit(b, q - 1, p);
      FlushesFront(b, q);
    }
  }

  /** The count `apply` writes when a run ends with `c` copies not yet counted. */
  function Pending(b: byte, c: nat): seq<byte>
    requires c <= MaxSequence
  {
    if c >= 2 then [b, c] else []
  }

  /**
   * Closing a run: with the run's first byte and `q` full counts out, a run of
   * `254 * q + c` copies is complete once the pending count is written.
   */
  lemma {:induction false} CloseRun(run: Run, closed: seq<Run>, q: nat, c: nat, before: seq<byte>)
    requires 1 <= c < MaxSequence && run.count == 254 * q + c
    requires before == Emit(RunCode, closed) + [run.value] + Flushes(run.value, q)
    ensures before + Pending(run.value, c) == Emit(RunCode, closed + [run])
  {
    EmitSnoc(RunCode, closed, run);
    RunCodeSplit(run.value, q, c);
  }

  lemma {:induction false} RunCodeSplit(b: byte, q: nat, c: nat)
    requires 1 <= c < MaxSequence
    ensures RunCode(Run(b, 254 * q + c)) == [b] + (Flushes(b, q) + Pending(b, c))
  {
    ContinuationSplit(b, q, c - 1);
    assert Continuation(b, c - 1) == Pending(b, c);
  }

  /** What `apply` has written with the runs `closed` done, and `q` full counts of an open run of `b`. */
  function Written(closed: seq<Run>, b: byte, q: nat): seq<byte>
  {
    Emit(RunCode, closed) + [b] + Flushes(b, q)
  }

  lemma WrittenStart(x: byte)
    ensures Written([], x, 0) == [x]
  {
  }

  lemma {:induction false} WrittenFlush(closed: seq<Run>, b: byte, q: nat)
    ensures Written(closed, b, q) + [b, 255] == Written(closed, b, q + 1)
  {
    AppendAssoc(Emit(RunCode, closed) + [b], Flushes(b, q), [b, 255]);
  }

  /** The open run ends with `c` copies uncounted, and a run of `x` opens. */
  lemma {:induction false} WrittenOpen(closed: seq<Run>, last: Run, q: nat, c: nat, x: byte)
    requires 1 <= c < MaxSequence && last.count == 254 * q + c
    ensures Written(closed, last.value, q) + Pending(last.value, c) + [x] == Written(closed + [last], x, 0)
  {
    CloseRun(last, closed, q, c, Written(closed, last.value, q));
    AppendEmpty(Emit(RunCode, closed + [last]) + [x]);
  }

  lemma {:induction false} RunsExtend(data: seq<byte>, i: nat, closed: seq<Run>, last: Run)
    requires i < |data| && data[i] == last.value
    requires RunsUpTo(data, i) == closed + [last]
    ensures RunsUpTo(data, i + 1) == closed + [Run(last.value, last.count + 1)]
  {
    assert (closed + [last])[..|closed|] == closed;
  }

  lemma RunsStart(data: seq<byte>, i: nat, runs: seq<Run>)
    requires i < |data| && RunsUpTo(data, i) == runs
    requires i > 0 ==> data[i] != data[i - 1]
    ensures RunsUpTo(data, i + 1) == runs + [Run(data[i], 1)]
  {
  }

  /**
   * `apply` (lines 3-34): a single pass that counts the current run in a
   * byte and writes the byte and the count whenever the run ends or the
   * count reaches 255.
   */
  method Apply(data: seq<byte>) returns (result: seq<byte>)
    ensures result == Encode(data)
  {
    result := [];
    var previous: Option<byte> := None;
    var current: nat := 0;
    ghost var closed: seq<Run> := [];
    ghost var last := Run(0, 0);
    ghost var flushes: nat := 0;
    for i := 0 to |data|
      invariant i == 0 ==> previous == None && current == 0 && result == [] && closed == []
      invariant i > 0 ==> previous == Some(last.value) && 1 <= current < MaxSequence
      invariant i > 0 ==> RunsUpTo(data, i) == closed + [last] && last.value == data[i - 1]
      invariant i > 0 ==> last.count == 254 * flushes + current
      invariant i > 0 ==> result == Written(closed, last.value, flushes)
    {
      var x := data[i];
      if previous == Some(x) {
        current := current + 1;
        RunsExtend(data, i, closed, last);
        last := Run(x, last.count + 1);
      } else {
        ghost var before := result;
        if current >= 2 {
          result := result + [previous.value, current];
        }
        AppendEmpty(before);
        if i > 0 {
          assert result == before + Pending(last.value, current);
          WrittenOpen(closed, last, flushes, current, x);
          RunsStart(data, i, closed + [last]);
          closed := closed + [last];
        } else {
          WrittenStart(x);
          RunsStart(data, i, []);
        }
        last := Run(x, 1);
        flushes := 0;
        result := result + [x];
        current := 1;
      }
      if current == MaxSequence {
        WrittenFlush(closed, x, flushes);
        result := result + [x, current];
        current := 1;
        flushes := flushes + 1;
      }
      previous := Some(x);
    }
    ghost var before := result;
    if current >= 2 {
      result := result + [previous.value, current];
    }
    AppendEmpty(before);
    if |data| > 0 {
      assert result == before + Pending(last.value, current);
      CloseRun(last, closed, flushes, current, before);
    }
  }

  /**
   * What `reverse` makes of `data` when `previous` is the byte it wrote
   * last and no count has been read since: a byte equal to `previous` is
   * followed by a count of at least 2, and the count says how many copies
   * the run has in all. A missing count, or one below 2, is a panic of the
   * source (an index out of bounds, a `u8` subtraction that overflows).
   */
  function Decode(data: seq<byte>, previous: Option<byte>): Option<seq<byte>>
    decreases |data|
  {
    if data == [] then Some([])
    else if previous == Some(data[0]) then
      if |data| < 2 || data[1] < 2 then None
      else Prepend([data[0]] + Repeat(data[0], data[1] - 2), Decode(data[2..], None))
    else Prepend([data[0]], Decode(data[1..], Some(data[0])))
  }

  lemma {:induction false} DecodeAt(data: seq<byte>, i: nat, previous: Option<byte>)
    requires i < |data|
    ensures Decode(data[i..], previous) ==
      if previous == Some(data[i]) then
        if i + 1 >= |data| || data[i + 1] < 2 then None
        else Prepend([data[i]] + Repeat(data[i], data[i + 1] - 2), Decode(data[i + 2..], None))
      else Prepend([data[i]], Decode(data[i + 1..], Some(data[i])))
  {
    assert data[i..][1..] == data[i + 1..];
    if i + 1 < |data| {
      assert data[i..][2..] == data[i + 2..];
    }
  }

  /** `reverse` (lines 36-59). */
  method Reverse(data: seq<byte>) returns (r: Result<seq<byte>>)
    ensures r.Ok? <==> Decode(data, None).Some?
    ensures r.Ok? ==> Decode(data, None) == Some(r.value)
  {
    var result: seq<byte> := [];
    var previous: Option<byte> := None;
    var i := 0;
    assert data[0..] == data;
    while i < |data|
      invariant i <= |data|
      invariant Decode(data, None) == Prepend(result, Decode(data[i..], previous))
    {
      DecodeAt(data, i, previous);
      ghost var before := result;
      result := result + [data[i]];
      if previous == Some(data[i]) {
        i := i + 1;
        if i >= |data| {
          return Err("index out of bounds");
        }
        var count := data[i];
        if count < 2 {
          return Err("attempt to subtract with overflow");
        }
        for j := 0 to count - 2
          invariant result == before + [data[i - 1]] + Repeat(data[i - 1], j)
        {
          result := result + [data[i - 1]];
        }
        PrependPrepend(before, [data[i - 1]] + Repeat(data[i - 1], count - 2), Decode(data[i + 1..], None));
        assert result == before + ([data[i - 1]] + Repeat(data[i - 1], count - 2));
        previous := None;
      } else {
        PrependPrepend(before, [data[i]], Decode(data[i + 1..], Some(data[i])));
        previous := Some(data[i]);
      }
      i := i + 1;
    }
    assert data[i..] == [];
    assert result + [] == result;
    return Ok(result);
  }

  /** All runs of `data` fit in one count. */
  ghost predicate ShortRuns(data: seq<byte>)
  {
    forall j :: 0 <= j < |Runs(data)| ==> Runs(data)[j].count <= MaxSequence
  }

  /**
   * The corrected run code: a run longer than 255 is cut into pieces of
   * 255, each written `[b, b, 255]`, and the rest is written as a run of its
   * own. This is what `apply` writes once it forgets the previous byte after
   * writing a full count.
   */
  function FixedRunCode(run: Run): seq<byte>
    decreases run.count
  {
    if run.count <= MaxSequence then RunCode(run)
    else [run.value, run.value, 255] + FixedRunCode(Run(run.value, run.count - MaxSequence))
  }

  /** The output of the corrected `apply`. */
  function FixedEncode(data: seq<byte>): seq<byte> { Emit(FixedRunCode, Runs(data)) }

  /** On runs of at most 255 bytes the corrected coder writes what `apply` writes. */
  lemma {:induction false} FixedEncodeAgrees(data: seq<byte>)
    requires ShortRuns(data)
    ensures FixedEncode(data) == Encode(data)
  {
    EmitAgree(Runs(data));
  }

  lemma {:induction false} EmitAgree(rs: seq<Run>)
    requires forall j :: 0 <= j < |rs| ==> rs[j].count <= MaxSequence
    ensures Emit(FixedRunCode, rs) == Emit(RunCode, rs)
    decreases |rs|
  {
    if rs != [] {
      EmitAgree(rs[..|rs| - 1]);
    }
  }

  /** `count` pieces `[b, b, 255]`. */
  function Chunks(b: byte, q: nat): seq<byte>
  {
    if q == 0 then [] else Chunks(b, q - 1) + [b, b, 255]
  }

  lemma {:induction false} ChunksFront(b: byte, q: nat)
    requires q > 0
    ensures Chunks(b, q) == [b, b, 255] + Chunks(b, q - 1)
  {
    if q > 1 {
      ChunksFront(b, q - 1);
    }
  }

  /** The first byte of a run not yet closed by a full count, once it is out. */
  function Lead(b: byte, c: nat): seq<byte>
  {
    if c == 0 then [] else [b]
  }

  /** The corrected code of a run whose count so far is `255 * q + c`. */
  lemma {:induction false} FixedRunClose(b: byte, q: nat, c: nat)
    requires c < MaxSequence && 255 * q + c >= 1
    ensures FixedRunCode(Run(b, 255 * q + c)) == Chunks(b, q) + ShortCode(b, c)
  {
    if q == 0 {
      RunCodeShort(Run(b, c));
    } else if q == 1 && c == 0 {
      RunCodeShort(Run(b, 255));
    } else {
      FixedRunClose(b, q - 1, c);
      ChunksFront(b, q);
    }
  }

  lemma {:induction false} CloseFixedRun(run: Run, closed: seq<Run>, q: nat, c: nat, before: seq<byte>)
    requires c < MaxSequence && run.count == 255 * q + c && run.count >= 1
    requires before == Emit(FixedRunCode, closed) + Chunks(run.value, q) + Lead(run.value, c)
    ensures before + Pending(run.value, c) == Emit(FixedRunCode, closed + [run])
  {
    EmitSnoc(FixedRunCode, closed, run);
    FixedRunClose(run.value, q, c);
    ShortCodeParts(run.value, c);
  }

  /** What the corrected `apply` has written with the runs `closed` done. */
  function FixedWritten(closed: seq<Run>, b: byte, q: nat, c: nat): seq<byte>
  {
    Emit(FixedRunCode, closed) + Chunks(b, q) + Lead(b, c)
  }

  lemma FixedWrittenStart(x: byte)
    ensures FixedWritten([], x, 0, 1) == [x]
  {
  }

  lemma FixedWrittenGrow(closed: seq<Run>, b: byte, q: nat, c: nat)
    requires c >= 1
    ensures FixedWritten(closed, b, q, c + 1) == FixedWritten(closed, b, q, c)
  {
  }

  lemma {:induction false} FixedWrittenResume(closed: seq<Run>, b: byte, q: nat)
    ensures FixedWritten(closed, b, q, 0) + [b] == FixedWritten(closed, b, q, 1)
  {
    AppendEmpty(Emit(FixedRunCode, closed) + Chunks(b, q));
  }

  lemma {:induction false} FixedWrittenFlush(closed: seq<Run>, b: byte, q: nat)
    ensures FixedWritten(closed, b, q, MaxSequence) + [b, MaxSequence] == FixedWritten(closed, b, q + 1, 0)
  {
    AppendAssoc(Emit(FixedRunCode, closed) + Chunks(b, q), [b], [b, 255]);
    AppendEmpty(Emit(FixedRunCode, closed) + Chunks(b, q + 1));
  }

  lemma {:induction false} FixedWrittenOpen(closed: seq<Run>, last: Run, q: nat, c: nat, x: byte)
    requires c < MaxSequence && last.count == 255 * q + c && last.count >= 1
    ensures FixedWritten(closed, last.value, q, c) + Pending(last.value, c) + [x] ==
      FixedWritten(closed + [last], x, 0, 1)
  {
    CloseFixedRun(last, closed, q, c, FixedWritten(closed, last.value, q, c));
    AppendEmpty(Emit(FixedRunCode, closed + [last]));
  }

  lemma ShortCodeParts(b: byte, c: nat)
    requires c < MaxSequence
    ensures ShortCode(b, c) == Lead(b, c) + Pending(b, c)
  {
  }

  /** The state of the corrected `apply` after the first `i` bytes of `data`. */
  ghost predicate FixedState(data: seq<byte>, i: nat, result: seq<byte>, previous: Option<byte>, current: nat,
                             closed: seq<Run>, last: Run, chunks: nat)
  {
    i <= |data| &&
    (i == 0 ==> previous == None && current == 0 && result == [] && closed == []) &&
    (i > 0 ==>
      current < MaxSequence && last.count == 255 * chunks + current && last.count >= 1 &&
      (previous == None <==> current == 0) && (previous != None ==> previous == Some(last.value)) &&
      RunsUpTo(data, i) == closed + [last] && last.value == data[i - 1] &&
      result == FixedWritten(closed, last.value, chunks, current))
  }

  /** One pass of the corrected loop: byte `data[i]` joins the open run or opens a new one. */
  method FixedStep(data: seq<byte>, i: nat, result0: seq<byte>, previous0: Option<byte>, current0: nat,
                   ghost closed0: seq<Run>, ghost last0: Run, ghost chunks0: nat)
    returns (result: seq<byte>, previous: Option<byte>, current: nat,
             ghost closed: seq<Run>, ghost last: Run, ghost chunks: nat)
    requires i < |data| && FixedState(data, i, result0, previous0, current0, closed0, last0, chunks0)
    ensures FixedState(data, i + 1, result, previous, current, closed, last, chunks)
  {
    result, previous, current, closed, last, chunks := result0, previous0, current0, closed0, last0, chunks0;
    var x := data[i];
    if previous == Some(x) {
      FixedWrittenGrow(closed, x, chunks, current);
      current := current + 1;
      RunsExtend(data, i, closed, last);
      last := Run(x, last.count + 1);
    } else {
      ghost var before := result;
      if current >= 2 {
        result := result + [previous.value, current];
      }
      AppendEmpty(before);
      if i == 0 {
        FixedWrittenStart(x);
        RunsStart(data, i, []);
        last := Run(x, 1);
        chunks := 0;
      } else if x == data[i - 1] {
        FixedWrittenResume(closed, x, chunks);
        RunsExtend(data, i, closed, last);
        last := Run(x, last.count + 1);
      } else {
        assert result == before + Pending(last.value, current);
        FixedWrittenOpen(closed, last, chunks, current, x);
        RunsStart(data, i, closed + [last]);
        closed := closed + [last];
        last := Run(x, 1);
        chunks := 0;
      }
      result := result + [x];
      current := 1;
    }
    if current == MaxSequence {
      FixedWrittenFlush(closed, x, chunks);
      result := result + [x, current];
      current := 0;
      chunks := chunks + 1;
      previous := None;
    } else {
      previous := Some(x);
    }
  }

  /**
   * The corrected `apply`: after writing a full count of 255 it forgets the
   * previous byte, so that the next copy opens a run of its own.
   */
  method ApplyFixed(data: seq<byte>) returns (result: seq<byte>)
    ensures result == FixedEncode(data)
  {
    result := [];
    var previous: Option<byte> := None;
    var current: nat := 0;
    ghost var closed: seq<Run> := [];
    ghost var last := Run(0, 0);
    ghost var chunks: nat := 0;
    for i := 0 to |data|
      invariant FixedState(data, i, result, previous, current, closed, last, chunks)
    {
      result, previous, current, closed, last, chunks := FixedStep(data, i, result, previous, current, closed, last, chunks);
    }
    ghost var before := result;
    if current >= 2 {
      result := result + [previous.value, current];
    }
    AppendEmpty(before);
    if |data| > 0 {
      assert result == before + Pending(last.value, current);
      CloseFixedRun(last, closed, chunks, current, before);
    }
  }

  /** Where the decoder stands after the corrected code of a run. */
  function FixedEnd(run: Run): (r: Option<byte>)
    decreases run.count
    ensures r == None || r == Some(run.value)
  {
    if run.count <= MaxSequence then (if run.count == 1 then Some(run.value) else None)
    else FixedEnd(Run(run.value, run.count - MaxSequence))
  }

  lemma {:induction false} DecodeShort(b: byte, c: nat, rest: seq<byte>, previous: Option<byte>)
    requires 1 <= c <= MaxSequence && previous != Some(b)
    ensures Decode(ShortCode(b, c) + rest, previous) ==
      Prepend(Repeat(b, c), Decode(rest, if c == 1 then Some(b) else None))
  {
    var code := ShortCode(b, c) + rest;
    if c == 1 {
      assert code[1..] == rest;
      assert Repeat(b, 1) == [b];
    } else {
      assert code[1..] == [b, c] + rest;
      assert code[1..][2..] == rest;
      PrependPrepend([b], [b] + Repeat(b, c - 2), Decode(rest, None));
      assert [b] + ([b] + Repeat(b, c - 2)) == Repeat(b, c);
    }
  }

  /** The decoder turns the corrected code of one run back into the run. */
  lemma {:induction false} DecodeFixedRunCode(run: Run, rest: seq<byte>, previous: Option<byte>)
    requires run.count >= 1 && previous != Some(run.value)
    ensures Decode(FixedRunCode(run) + rest, previous) ==
      Prepend(Copies(run), Decode(rest, FixedEnd(run)))
    decreases run.count
  {
    var b := run.value;
    if run.count <= MaxSequence {
      RunCodeShort(run);
      DecodeShort(b, run.count, rest, previous);
    } else {
      var tail := Run(b, run.count - MaxSequence);
      var more := FixedRunCode(tail) + rest;
      assert FixedRunCode(run) + rest == ShortCode(b, 255) + more;
      DecodeShort(b, 255, more, previous);
      DecodeFixedRunCode(tail, rest, None);
      PrependPrepend(Repeat(b, 255), Copies(tail), Decode(rest, FixedEnd(tail)));
      assert Repeat(b, 255) + Copies(tail) == Copies(run);
    }
  }

  lemma {:induction false} DecodeFixedRuns(rs: seq<Run>, previous: Option<byte>)
    requires Maximal(rs)
    requires rs != [] ==> previous != Some(rs[0].value)
    ensures Decode(Emit(FixedRunCode, rs), previous) == Some(Expand(rs))
    decreases |rs|
  {
    if rs != [] {
      var tail := rs[1..];
      assert rs == [rs[0]] + tail;
      assert Maximal(tail) by {
        forall j | 0 <= j < |tail| - 1 ensures tail[j].value != tail[j + 1].value {
          assert tail[j] == rs[j + 1] && tail[j + 1] == rs[j + 2];
        }
      }
      EmitCons(FixedRunCode, rs[0], tail);
      EmitCons(Copies, rs[0], tail);
      DecodeFixedRunCode(rs[0], Emit(FixedRunCode, tail), previous);
      if tail != [] {
        assert tail[0] == rs[1];
      }
      DecodeFixedRuns(tail, FixedEnd(rs[0]));
    }
  }

  /** The corrected round trip: `reverse` undoes the corrected `apply` on every input. */
  lemma {:induction false} RoundTripFixed(data: seq<byte>)
    ensures Decode(FixedEncode(data), None) == Some(data)
  {
    RunsSplit(data);
    DecodeFixedRuns(Runs(data), None);
  }

  /**
   * The tests at lines 77-96 for every input whose runs are at most 255
   * bytes long: `reverse` undoes `apply`.
   */
  lemma {:induction false} RoundTrip(data: seq<byte>)
    requires ShortRuns(data)
    ensures Decode(Encode(data), None) == Some(data)
  {
    FixedEncodeAgrees(data);
    RoundTripFixed(data);
  }

  /**
   * A run of 256 copies of a byte other than 2 comes back from `reverse`
   * with a stray byte 2: the count flushed at 255 leaves `apply` believing
   * the run goes on, so the next copy is written with no literal in front.
   */
  lemma {:induction false} LongRunCounterexample(b: byte)
    requires b != 2
    ensures Encode(Repeat(b, 256)) == [b, b, 255, b, 2]
    ensures Decode([b, b, 255, b, 2], None) == Some(Repeat(b, 256) + [2])
  {
    RunsRepeat(b, 256, 256);
    EmitSnoc(RunCode, [], Run(b, 256));
    assert [Run(b, 256)] == [] + [Run(b, 256)];
    assert Continuation(b, 1) == [b, 2];
    assert Continuation(b, 255) == [b, 255] + [b, 2];
    assert RunCode(Run(b, 256)) == [b, b, 255, b, 2];
    var code: seq<byte> := [b, b, 255, b, 2];
    assert [2][1..] == [];
    assert Decode([], Some(2)) == Some([]);
    assert Decode([2], Some(b)) == Prepend([2], Decode([], Some(2)));
    AppendEmpty([2]);
    assert Decode([2], Some(b)) == Some([2]);
    assert [b, 2][1..] == [2];
    assert Decode([b, 2], None) == Prepend([b], Decode([2], Some(b)));
    assert [b] + [2] == [b, 2];
    assert Decode([b, 2], None) == Some([b, 2]);
    assert code[1..][2..] == [b, 2];
    assert Decode(code[1..], Some(b)) == Some([b] + Repeat(b, 253) + [b, 2]);
    assert code[1..] == [b, 255, b, 2];
    assert Repeat(b, 256) + [2] == [b] + ([b] + Repeat(b, 253) + [b, 2]);
  }
}
