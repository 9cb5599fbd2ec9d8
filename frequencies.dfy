/**
 * `arithmetic/frequencies.rs`: the adaptive model of the arithmetic coder.
 * Symbols are numbered 1 to 257 (257 is the end symbol, 0 is unused);
 * `frequencies[i]` counts symbol `i`, and `cumulative[i]` is the sum of the
 * counts of the symbols above `i`, so that symbol `i` owns the slice
 * `[cumulative[i], cumulative[i - 1])` of `[0, cumulative[0])`. Symbols are
 * kept in order of non-increasing count, and the two maps between bytes and
 * symbol numbers follow every reordering.
 */
module ArithFrequencies {
  import opened ArithConstants

  /** The four vectors of `Frequencies`, as one value. */
  datatype Table = Table(charToIndex: seq<nat>, indexToChar: seq<int>, frequencies: seq<nat>, cumulative: seq<nat>)

  /** The length of `index_to_char`, `frequencies` and `cumulative`. */
  const Size: nat := NumberOfSymbols + 1

  /** The counts from position `i` on. */
  function SumFrom(f: seq<nat>, i: nat): nat
    decreases |f| - i
  {
    if i >= |f| then 0 else f[i] + SumFrom(f, i + 1)
  }

  /** Every cumulative entry is the sum of the counts above it. */
  ghost predicate Counted(f: seq<nat>, c: seq<nat>)
  {
    |c| == |f| && forall i :: 0 <= i < |f| ==> c[i] == SumFrom(f, i + 1)
  }

  /** The unused symbol 0 has count 0, every real symbol at least 1. */
  ghost predicate Positive(f: seq<nat>)
  {
    |f| >= 1 && f[0] == 0 && forall i :: 1 <= i < |f| ==> f[i] >= 1
  }

  /** The counts of the symbols 1, 2, … do not increase. */
  ghost predicate Ordered(f: seq<nat>)
  {
    forall i :: 1 <= i < |f| - 1 ==> f[i] >= f[i + 1]
  }

  /**
   * `char_to_index` and `index_to_char` are inverse between the bytes and the
   * symbols 1 to 256; symbol 0 stands for no byte and the end symbol for 256.
   */
  ghost predicate Inverse(t: Table)
  {
    |t.charToIndex| == NumberOfChars && |t.indexToChar| == Size
    && (forall c :: 0 <= c < NumberOfChars ==>
          1 <= t.charToIndex[c] <= NumberOfChars && t.indexToChar[t.charToIndex[c]] == c)
    && (forall i :: 1 <= i <= NumberOfChars ==>
          0 <= t.indexToChar[i] < NumberOfChars && t.charToIndex[t.indexToChar[i]] == i)
    && t.indexToChar[0] == -1 && t.indexToChar[EofSymbol] == NumberOfChars as int
  }

  /** Everything but the ceiling on the total. */
  ghost predicate Shaped(t: Table)
  {
    |t.frequencies| == Size && Positive(t.frequencies) && Ordered(t.frequencies)
    && Counted(t.frequencies, t.cumulative) && Inverse(t)
  }

  /** The invariant of the model: shaped, with a total of at most `MAX_FREQUENCY`. */
  ghost predicate ValidTable(t: Table)
  {
    Shaped(t) && t.cumulative[0] <= MaxFrequency
  }

  /** How often the model has counted byte `c`. */
  ghost function Count(t: Table, c: nat): nat
    requires Inverse(t) && |t.frequencies| == Size && c < NumberOfChars
  {
    t.frequencies[t.charToIndex[c]]
  }

  // ---------------------------------------------------------------------
  // The specification of `new` and `update`
  // ---------------------------------------------------------------------

  /** `new`: byte `c` is symbol `c + 1`, and every symbol has count 1. */
  function Initial(): Table
  {
    Table(seq(NumberOfChars, c => c + 1), seq(Size, i => i - 1),
          seq(Size, _ => 1)[0 := 0], seq(Size, i => NumberOfSymbols - i))
  }

  /** Every count halved, rounding up. */
  function Halved(f: seq<nat>): seq<nat>
  {
    seq(|f|, i requires 0 <= i < |f| => (f[i] + 1) / 2)
  }

  /** The cumulative vector of the counts `f`. */
  function Cumulate(f: seq<nat>): seq<nat>
  {
    seq(|f|, i requires 0 <= i < |f| => SumFrom(f, i + 1))
  }

  /** The model after the halving step, when the total has reached the ceiling. */
  function Rescaled(t: Table): Table
    requires |t.cumulative| >= 1
  {
    if t.cumulative[0] == MaxFrequency then
      t.(frequencies := Halved(t.frequencies), cumulative := Cumulate(Halved(t.frequencies)))
    else t
  }

  /** The lowest symbol at or below `s` in the run of symbols with the count of `s`. */
  function Lowest(f: seq<nat>, s: nat): (r: nat)
    requires Positive(f) && 1 <= s < |f|
    ensures 1 <= r <= s && f[r - 1] != f[r]
    ensures forall k :: r <= k <= s ==> f[k] == f[s]
    decreases s
  {
    if f[s] == f[s - 1] then Lowest(f, s - 1) else s
  }

  /** The bytes at symbols `n` and `s` trade places. */
  function Swapped(t: Table, n: nat, s: nat): Table
    requires Inverse(t) && 1 <= n <= s <= NumberOfChars
  {
    if n < s then
      var newChar, oldChar := t.indexToChar[n], t.indexToChar[s];
      t.(indexToChar := t.indexToChar[n := oldChar][s := newChar],
         charToIndex := t.charToIndex[newChar := s][oldChar := n])
    else t
  }

  /** One more for symbol `n`, and so one more in every cumulative entry below it. */
  function Bumped(t: Table, n: nat): Table
    requires n < |t.frequencies| && |t.cumulative| == |t.frequencies|
  {
    t.(frequencies := t.frequencies[n := t.frequencies[n] + 1],
       cumulative := seq(|t.cumulative|, i requires 0 <= i < |t.cumulative| =>
                           if i < n then t.cumulative[i] + 1 else t.cumulative[i]))
  }

  /** `update(s)`: halve at the ceiling, move `s` to the front of its run, count it. */
  function Updated(t: Table, s: nat): Table
    requires ValidTable(t) && 1 <= s <= NumberOfChars
  {
    RescaledShaped(t);
    var h := Rescaled(t);
    var n := Lowest(h.frequencies, s);
    Bumped(Swapped(h, n, s), n)
  }

  // ---------------------------------------------------------------------
  // What `new` and `update` keep
  // ---------------------------------------------------------------------

  lemma {:induction false} OnesSum(f: seq<nat>, j: nat)
    requires forall k :: 1 <= k < |f| ==> f[k] == 1
    requires 1 <= j <= |f|
    ensures SumFrom(f, j) == |f| - j
    decreases |f| - j
  {
    if j < |f| {
      OnesSum(f, j + 1);
    }
  }

  /** The model `new` builds is valid, and every byte has count 1. */
  lemma {:induction false} InitialValid()
    ensures ValidTable(Initial())
    ensures forall c :: 0 <= c < NumberOfChars ==> Count(Initial(), c) == 1
  {
    var t := Initial();
    InitialCounted(t.frequencies, t.cumulative);
    InitialInverse(t.charToIndex, t.indexToChar);
    assert Inverse(t);
  }

  lemma {:induction false} InitialCounted(f: seq<nat>, c: seq<nat>)
    requires f == Initial().frequencies && c == Initial().cumulative
    ensures |f| == Size && Positive(f) && Ordered(f) && Counted(f, c) && c[0] <= MaxFrequency
  {
    forall i | 0 <= i < Size
      ensures c[i] == SumFrom(f, i + 1)
    {
      OnesSum(f, i + 1);
    }
  }

  lemma InitialInverse(toIndex: seq<nat>, toChar: seq<int>)
    requires toIndex == Initial().charToIndex && toChar == Initial().indexToChar
    ensures Inverse(Table(toIndex, toChar, [], []))
  {
  }

  /** Halving all counts at most halves the total, give or take one per symbol. */
  lemma {:induction false} HalvedSum(f: seq<nat>, i: nat)
    requires i <= |f|
    ensures 2 * SumFrom(Halved(f), i) <= SumFrom(f, i) + (|f| - i)
    decreases |f| - i
  {
    if i < |f| {
      HalvedSum(f, i + 1);
    }
  }

  /** The table after the halving step is shaped, with room below the ceiling. */
  lemma {:induction false} RescaledShaped(t: Table)
    requires ValidTable(t)
    ensures Shaped(Rescaled(t)) && Rescaled(t).cumulative[0] < MaxFrequency
    ensures Rescaled(t).charToIndex == t.charToIndex && Rescaled(t).indexToChar == t.indexToChar
    ensures forall i :: 0 <= i < Size ==>
      Rescaled(t).frequencies[i] == if t.cumulative[0] == MaxFrequency then (t.frequencies[i] + 1) / 2 else t.frequencies[i]
  {
    if t.cumulative[0] == MaxFrequency {
      HalvedSum(t.frequencies, 1);
    }
  }

  /** Trading the bytes of two symbols with equal counts keeps the model shaped and every byte's count. */
  lemma {:induction false} SwappedShaped(h: Table, n: nat, s: nat)
    requires Shaped(h) && 1 <= n <= s <= NumberOfChars && h.frequencies[n] == h.frequencies[s]
    ensures Shaped(Swapped(h, n, s))
    ensures Swapped(h, n, s).frequencies == h.frequencies && Swapped(h, n, s).cumulative == h.cumulative
    ensures Swapped(h, n, s).charToIndex[h.indexToChar[s]] == n
    ensures forall c :: 0 <= c < NumberOfChars ==> Count(Swapped(h, n, s), c) == Count(h, c)
  {
    if n < s {
      var w := Swapped(h, n, s);
      var newChar, oldChar := h.indexToChar[n], h.indexToChar[s];
      assert newChar != oldChar by {
        assert h.charToIndex[newChar] == n && h.charToIndex[oldChar] == s;
      }
      forall c | 0 <= c < NumberOfChars
        ensures 1 <= w.charToIndex[c] <= NumberOfChars && w.indexToChar[w.charToIndex[c]] == c
        ensures w.frequencies[w.charToIndex[c]] == h.frequencies[h.charToIndex[c]]
      {
        if c != newChar && c != oldChar {
          assert h.charToIndex[c] != n && h.charToIndex[c] != s;
        }
      }
    }
  }

  /** One more count on symbol `n`, when `n` heads its run, keeps the model valid. */
  lemma {:induction false} BumpedValid(w: Table, n: nat)
    requires Shaped(w) && w.cumulative[0] < MaxFrequency
    requires 1 <= n <= NumberOfChars && w.frequencies[n - 1] != w.frequencies[n]
    ensures ValidTable(Bumped(w, n)) && Bumped(w, n).cumulative[0] == w.cumulative[0] + 1
    ensures Bumped(w, n).charToIndex == w.charToIndex && Bumped(w, n).indexToChar == w.indexToChar
  {
    var b := Bumped(w, n);
    forall i | 0 <= i < Size
      ensures b.cumulative[i] == SumFrom(b.frequencies, i + 1)
    {
      SumBumped(w.frequencies, n, i + 1);
    }
  }

  /** The sums after one more count on symbol `n`. */
  lemma {:induction false} SumBumped(f: seq<nat>, n: nat, j: nat)
    requires n < |f|
    ensures SumFrom(f[n := f[n] + 1], j) == SumFrom(f, j) + (if j <= n then 1 else 0)
    decreases |f| - j
  {
    if j < |f| {
      SumBumped(f, n, j + 1);
    }
  }

  /** `update(s)` keeps the model valid and adds one to the total left by the halving step. */
  lemma {:induction false} UpdatedValid(t: Table, s: nat)
    requires ValidTable(t) && 1 <= s <= NumberOfChars
    ensures ValidTable(Updated(t, s))
    ensures Updated(t, s).cumulative[0] == Rescaled(t).cumulative[0] + 1
  {
    RescaledShaped(t);
    var h := Rescaled(t);
    var n := Lowest(h.frequencies, s);
    SwappedShaped(h, n, s);
    BumpedValid(Swapped(h, n, s), n);
  }

  /**
   * `update(s)` counts the byte at symbol `s` once more; every other byte
   * keeps its count, halved when the total had reached the ceiling, and so
   * does the end symbol.
   */
  lemma {:induction false} UpdatedCounts(t: Table, s: nat)
    requires ValidTable(t) && 1 <= s <= NumberOfChars
    ensures ValidTable(Updated(t, s))
    ensures forall c :: 0 <= c < NumberOfChars ==>
      Count(Updated(t, s), c) == Scale(t, Count(t, c)) + (if c == t.indexToChar[s] then 1 else 0)
    ensures Updated(t, s).frequencies[EofSymbol] == Scale(t, t.frequencies[EofSymbol])
  {
    UpdatedValid(t, s);
    RescaledShaped(t);
    var h := Rescaled(t);
    var n := Lowest(h.frequencies, s);
    SwappedShaped(h, n, s);
    var w := Swapped(h, n, s);
    assert Bumped(w, n) == Updated(t, s);
    forall c | 0 <= c < NumberOfChars
      ensures Count(Bumped(w, n), c) == Scale(t, Count(t, c)) + (if c == t.indexToChar[s] then 1 else 0)
    {
      BumpedCount(w, n, c);
      if c != t.indexToChar[s] {
        assert w.indexToChar[n] == t.indexToChar[s];
      }
    }
  }

  /** One more count on symbol `n` is one more for the byte there and for no other byte. */
  lemma BumpedCount(w: Table, n: nat, c: nat)
    requires Inverse(w) && |w.frequencies| == Size && |w.cumulative| == Size && 1 <= n <= NumberOfChars && c < NumberOfChars
    ensures Inverse(Bumped(w, n))
    ensures Count(Bumped(w, n), c) == Count(w, c) + (if w.charToIndex[c] == n then 1 else 0)
  {
  }

  /** A count after the halving step, if there is one. */
  function Scale(t: Table, x: nat): nat
    requires |t.cumulative| >= 1
  {
    if t.cumulative[0] == MaxFrequency then (x + 1) / 2 else x
  }

  /** Symbol `s` owns the non-empty slice between `cumulative[s]` and `cumulative[s - 1]`. */
  lemma Span(t: Table, s: nat)
    requires Shaped(t) && 1 <= s <= EofSymbol
    ensures t.cumulative[s - 1] == t.cumulative[s] + t.frequencies[s] > t.cumulative[s]
  {
  }

  /** The cumulative entries fall strictly from 1 to 257: the slices do not overlap. */
  lemma {:induction false} Falling(t: Table, i: nat, j: nat)
    requires Shaped(t) && i < j <= EofSymbol
    ensures t.cumulative[i] > t.cumulative[j]
    decreases j - i
  {
    Span(t, j);
    if i + 1 < j {
      Falling(t, i, j - 1);
    }
  }

  // ---------------------------------------------------------------------
  // The model as an object, updated in place
  // ---------------------------------------------------------------------

  class Frequencies {
    var charToIndex: seq<nat>
    var indexToChar: seq<int>
    var frequencies: seq<nat>
    var cumulative: seq<nat>

    function Model(): Table
      reads this
    {
      Table(charToIndex, indexToChar, frequencies, cumulative)
    }

    ghost predicate Valid()
      reads this
    {
      ValidTable(Model())
    }

    /** `new`. */
    constructor ()
      ensures Model() == Initial() && Valid()
    {
      charToIndex := seq(NumberOfChars, c => c + 1);
      indexToChar := seq(Size, i => i - 1);
      frequencies := seq(Size, _ => 1);
      cumulative := seq(Size, i => NumberOfSymbols - i);
      new;
      frequencies := frequencies[0 := 0];
      InitialValid();
    }

    /** `total`: the sum of all counts. */
    function Total(): (r: nat)
      reads this
      requires |cumulative| >= 1
      ensures Valid() ==> r == SumFrom(frequencies, 1) && 1 <= r <= MaxFrequency
    {
      OnesBelow(Model()); cumulative[0]
    }

    /** `low(s)`: where the slice of symbol `s` begins. */
    function Low(s: nat): (r: nat)
      reads this
      requires s < |cumulative|
      ensures Valid() ==> r == SumFrom(frequencies, s + 1)
    {
      cumulative[s]
    }

    /** `high(s)`: where the slice of symbol `s` ends. */
    function High(s: nat): (r: nat)
      reads this
      requires 1 <= s <= |cumulative|
      ensures Valid() && s <= EofSymbol ==> r == Low(s) + frequencies[s] && r > Low(s)
    {
      SpanIf(Model(), s); cumulative[s - 1]
    }

    /** `update(s)`, from the `Updated` specification above. */
    method Update(s: nat)
      requires Valid() && 1 <= s <= NumberOfChars
      modifies this
      ensures Model() == Updated(old(Model()), s)
      ensures Valid()
    {
      ghost var t := Model();
      RescaledShaped(t);
      Halve();
      var n := RunStart(s);
      Swap(n, s);
      Bump(n);
      UpdatedValid(t, s);
    }

    /** Lines 38-45 of `update`: halve every count once the total is at the ceiling. */
    method Halve()
      requires |frequencies| == |cumulative| == Size
      modifies this`frequencies, this`cumulative
      ensures Model() == Rescaled(old(Model()))
    {
      if cumulative[0] == MaxFrequency {
        ghost var f := frequencies;
        ghost var half := Halved(f);
        var cum := 0;
        var i := Size;
        while i > 0
          invariant 0 <= i <= Size && |frequencies| == |cumulative| == Size
          invariant forall k :: 0 <= k < i ==> frequencies[k] == f[k]
          invariant forall k :: i <= k < Size ==> frequencies[k] == half[k] && cumulative[k] == SumFrom(half, k + 1)
          invariant cum == SumFrom(half, i)
        {
          i := i - 1;
          frequencies := frequencies[i := (frequencies[i] + 1) / 2];
          cumulative := cumulative[i := cum];
          cum := cum + frequencies[i];
        }
        assert frequencies == half && cumulative == Cumulate(half);
      }
    }

    /** Lines 48-51 of `update`: walk down from `s` while the count below is the same. */
    method RunStart(s: nat) returns (n: nat)
      requires Positive(frequencies) && 1 <= s < |frequencies|
      ensures n == Lowest(frequencies, s)
    {
      n := s;
      while frequencies[n] == frequencies[n - 1]
        invariant 1 <= n <= s
        invariant forall k :: n <= k <= s ==> frequencies[k] == frequencies[s]
        decreases n
      {
        n := n - 1;
      }
      LowestIs(frequencies, s, n);
    }

    /** Lines 53-62 of `update`: the bytes at symbols `n` and `s` trade places. */
    method Swap(n: nat, s: nat)
      requires Inverse(Model()) && 1 <= n <= s <= NumberOfChars
      modifies this`charToIndex, this`indexToChar
      ensures Model() == Swapped(old(Model()), n, s)
    {
      if n < s {
        var newChar := indexToChar[n];
        var oldChar := indexToChar[s];
        indexToChar := indexToChar[n := oldChar];
        indexToChar := indexToChar[s := newChar];
        charToIndex := charToIndex[newChar := s];
        charToIndex := charToIndex[oldChar := n];
      }
    }

    /** Lines 65-70 of `update`: one more for symbol `n`, and for every cumulative entry below it. */
    method Bump(n: nat)
      requires n < |frequencies| == |cumulative|
      modifies this`frequencies, this`cumulative
      ensures Model() == Bumped(old(Model()), n)
    {
      frequencies := frequencies[n := frequencies[n] + 1];
      var j := n;
      while j > 0
        invariant 0 <= j <= n && |cumulative| == |old(cumulative)|
        invariant forall k :: 0 <= k < |cumulative| ==> cumulative[k] == old(cumulative)[k] + (if j <= k < n then 1 else 0)
        invariant frequencies == old(frequencies)[n := old(frequencies)[n] + 1]
      {
        j := j - 1;
        cumulative := cumulative[j := cumulative[j] + 1];
      }
    }
  }

  /** The walk down the run of equal counts in `update` ends where `Lowest` says. */
  lemma {:induction false} LowestIs(f: seq<nat>, s: nat, n: nat)
    requires Positive(f) && 1 <= n <= s < |f| && f[n] != f[n - 1]
    requires forall k :: n <= k <= s ==> f[k] == f[s]
    ensures Lowest(f, s) == n
    decreases s
  {
    if s > n {
      LowestIs(f, s - 1, n);
    }
  }

  /** Under the invariant the total is the sum of the counts of the real symbols, at least one each. */
  lemma {:induction false} OnesBelow(t: Table)
    ensures ValidTable(t) ==> t.cumulative[0] == SumFrom(t.frequencies, 1) >= 1
  {
    if ValidTable(t) {
      Span(t, 1);
    }
  }

  lemma {:induction false} SpanIf(t: Table, s: nat)
    ensures ValidTable(t) && 1 <= s <= EofSymbol ==> t.cumulative[s - 1] == t.cumulative[s] + t.frequencies[s] > t.cumulative[s]
  {
    if ValidTable(t) && 1 <= s <= EofSymbol {
      Span(t, s);
    }
  }

  /** A symbol's slice is a non-empty part of `[0, total)`, and the total is below the ceiling. */
  lemma {:induction false} SliceWithin(t: Table, s: nat)
    requires ValidTable(t) && 1 <= s <= EofSymbol
    ensures t.cumulative[s] < t.cumulative[s - 1] <= t.cumulative[0] <= MaxFrequency
  {
    Span(t, s);
    if s > 1 {
      Falling(t, 0, s - 1);
    }
  }
}
