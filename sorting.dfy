/**
 * Rust's `slice::sort_by` with a comparator: a stable sort. It is modelled
 * as a functional insertion sort, which is stable, and characterised by
 * three facts: the result is a permutation of the input; under a strict
 * total order it is strictly increasing; and a strictly increasing
 * permutation is unique, so any stable sort gives the same result.
 */
module Sorting {

  datatype Ordering = Less | Equal | Greater

  /** Inserts `x` after every element it is not less than. */
  function Insert<T>(cmp: (T, T) -> Ordering, s: seq<T>, x: T): (r: seq<T>)
    ensures multiset(r) == multiset(s) + multiset{x}
    ensures |r| == |s| + 1
  {
    if s == [] then [x]
    else if cmp(x, s[0]) == Less then [x] + s
    else
      assert s == [s[0]] + s[1..];
      [s[0]] + Insert(cmp, s[1..], x)
  }

  /** Stable sort: elements that compare `Equal` keep their input order. */
  function Sort<T>(cmp: (T, T) -> Ordering, xs: seq<T>): (r: seq<T>)
    ensures multiset(r) == multiset(xs)
    ensures |r| == |xs|
  {
    if xs == [] then []
    else
      assert xs == xs[..|xs| - 1] + [xs[|xs| - 1]];
      Insert(cmp, Sort(cmp, xs[..|xs| - 1]), xs[|xs| - 1])
  }

  function Elems<T(==)>(s: seq<T>): set<T> { set x | x in s }

  predicate NoDup<T(==)>(s: seq<T>) { forall i, j :: 0 <= i < j < |s| ==> s[i] != s[j] }

  /** A sequence without repetitions has as many distinct elements as positions. */
  lemma {:induction false} NoDupCard<T>(s: seq<T>)
    requires NoDup(s)
    ensures |Elems(s)| == |s|
  {
    if s != [] {
      var t := s[1..];
      assert NoDup(t) by {
        forall i, j | 0 <= i < j < |t| ensures t[i] != t[j] {
          assert t[i] == s[i + 1] && t[j] == s[j + 1];
        }
      }
      NoDupCard(t);
      assert s[0] !in Elems(t) by {
        forall i | 0 <= i < |t| ensures t[i] != s[0] {
          assert t[i] == s[i + 1];
        }
      }
      assert Elems(s) == {s[0]} + Elems(t) by {
        assert s == [s[0]] + t;
      }
    }
  }

  /** `cmp` is a strict total order on `elems`. */
  ghost predicate StrictOrder<T>(cmp: (T, T) -> Ordering, elems: set<T>)
  {
    && (forall a, b :: a in elems && b in elems ==> (cmp(a, b) == Less <==> cmp(b, a) == Greater))
    && (forall a, b :: a in elems && b in elems && cmp(a, b) == Equal ==> a == b)
    && (forall a, b, c :: a in elems && b in elems && c in elems && cmp(a, b) == Less && cmp(b, c) == Less ==>
          cmp(a, c) == Less)
  }

  /** `cmp` is a total preorder on `elems`. */
  ghost predicate TotalPreorder<T>(cmp: (T, T) -> Ordering, elems: set<T>)
  {
    && (forall a, b :: a in elems && b in elems ==> (cmp(a, b) == Less <==> cmp(b, a) == Greater))
    && (forall a, b, c :: a in elems && b in elems && c in elems && cmp(a, b) != Greater && cmp(b, c) != Greater ==>
          cmp(a, c) != Greater)
  }

  ghost predicate StrictlySorted<T>(cmp: (T, T) -> Ordering, s: seq<T>)
  {
    forall i, j :: 0 <= i < j < |s| ==> cmp(s[i], s[j]) == Less
  }

  lemma {:induction false} InsertStrictlySorted<T>(cmp: (T, T) -> Ordering, s: seq<T>, x: T)
    requires StrictOrder(cmp, Elems(s) + {x})
    requires StrictlySorted(cmp, s) && x !in s
    ensures StrictlySorted(cmp, Insert(cmp, s, x))
  {
    if s == [] {
    } else if cmp(x, s[0]) == Less {
      var r := [x] + s;
      forall j | 1 < j < |r| ensures cmp(x, r[j]) == Less {
        assert cmp(s[0], s[j - 1]) == Less;
      }
    } else {
      assert Elems(s[1..]) + {x} <= Elems(s) + {x};
      InsertStrictlySorted(cmp, s[1..], x);
      InsertAfterHead(cmp, s, x);
    }
  }

  lemma {:induction false} InsertAfterHead<T>(cmp: (T, T) -> Ordering, s: seq<T>, x: T)
    requires StrictOrder(cmp, Elems(s) + {x})
    requires StrictlySorted(cmp, s) && x !in s
    requires s != [] && cmp(x, s[0]) != Less
    requires StrictlySorted(cmp, Insert(cmp, s[1..], x))
    ensures StrictlySorted(cmp, Insert(cmp, s, x))
  {
    var tail := Insert(cmp, s[1..], x);
    assert cmp(s[0], x) == Less;
    forall j | 0 <= j < |tail| ensures cmp(s[0], tail[j]) == Less {
      assert tail[j] in multiset(tail);
      if tail[j] != x {
        assert tail[j] in multiset(s[1..]);
        var k :| 0 <= k < |s[1..]| && s[1..][k] == tail[j];
        assert s[k + 1] == tail[j];
      }
    }
    assert Insert(cmp, s, x) == [s[0]] + tail;
  }

  lemma {:induction false} SortStrictlySorted<T>(cmp: (T, T) -> Ordering, xs: seq<T>)
    requires StrictOrder(cmp, Elems(xs))
    requires NoDup(xs)
    ensures StrictlySorted(cmp, Sort(cmp, xs))
  {
    if xs != [] {
      var init, last := xs[..|xs| - 1], xs[|xs| - 1];
      SortLastElems(cmp, xs);
      SortStrictlySorted(cmp, init);
      InsertStrictlySorted(cmp, Sort(cmp, init), last);
    }
  }

  lemma {:induction false} SortLastElems<T>(cmp: (T, T) -> Ordering, xs: seq<T>)
    requires NoDup(xs) && xs != []
    ensures NoDup(xs[..|xs| - 1]) && Elems(xs[..|xs| - 1]) <= Elems(xs)
    ensures xs[|xs| - 1] !in Sort(cmp, xs[..|xs| - 1])
    ensures Elems(Sort(cmp, xs[..|xs| - 1])) + {xs[|xs| - 1]} == Elems(xs)
  {
    var init, last := xs[..|xs| - 1], xs[|xs| - 1];
    assert xs == init + [last];
    var s := Sort(cmp, init);
    assert last !in multiset(init);
    assert last !in s;
    assert Elems(s) + {last} == Elems(xs) by {
      forall e ensures e in Elems(s) <==> e in multiset(init) {
      }
    }
  }

  lemma {:induction false} MultisetTail<T>(s: seq<T>)
    requires s != []
    ensures multiset(s[1..]) == multiset(s) - multiset{s[0]}
  {
    assert s == [s[0]] + s[1..];
  }

  lemma {:induction false} MultisetRemove<T>(s: seq<T>, j: nat)
    requires j < |s|
    ensures multiset(s[..j] + s[j + 1..]) == multiset(s) - multiset{s[j]}
  {
    assert s == s[..j] + [s[j]] + s[j + 1..];
  }

  lemma {:induction false} SortedHeadsAgree<T>(cmp: (T, T) -> Ordering, s: seq<T>, t: seq<T>)
    requires StrictOrder(cmp, Elems(s))
    requires StrictlySorted(cmp, s) && StrictlySorted(cmp, t)
    requires multiset(s) == multiset(t) && s != []
    ensures t != [] && s[0] == t[0]
  {
    assert s[0] in multiset(t) && t[0] in multiset(s);
    var i :| 0 <= i < |t| && t[i] == s[0];
    var j :| 0 <= j < |s| && s[j] == t[0];
    if i != 0 {
      assert false;
    }
  }

  /**
   * Two strictly increasing arrangements of the same elements are equal:
   * a sort's result does not depend on the order it was given its input.
   */
  lemma {:induction false} StrictlySortedUnique<T>(cmp: (T, T) -> Ordering, s: seq<T>, t: seq<T>)
    requires StrictOrder(cmp, Elems(s))
    requires StrictlySorted(cmp, s) && StrictlySorted(cmp, t)
    requires multiset(s) == multiset(t)
    ensures s == t
  {
    if s != [] {
      SortedHeadsAgree(cmp, s, t);
      assert s == [s[0]] + s[1..] && t == [t[0]] + t[1..];
      MultisetTail(s);
      MultisetTail(t);
      assert Elems(s[1..]) <= Elems(s);
      StrictlySortedUnique(cmp, s[1..], t[1..]);
    }
  }

  // -----------------------------------------------------------------------
  // Sorting then reading through `f` gives the same values as reading
  // through `f` in the original order, rearranged.
  // -----------------------------------------------------------------------

  function Map<T, U>(f: T -> U, xs: seq<T>): (r: seq<U>)
    ensures |r| == |xs|
  {
    if xs == [] then [] else [f(xs[0])] + Map(f, xs[1..])
  }

  lemma {:induction false} MapAt<T, U>(f: T -> U, xs: seq<T>, k: nat)
    requires k < |xs|
    ensures Map(f, xs)[k] == f(xs[k])
  {
    if k > 0 {
      MapAt(f, xs[1..], k - 1);
    }
  }

  lemma {:induction false} MapAppend<T, U>(f: T -> U, xs: seq<T>, ys: seq<T>)
    ensures Map(f, xs + ys) == Map(f, xs) + Map(f, ys)
  {
    if xs == [] {
      assert xs + ys == ys;
    } else {
      assert (xs + ys)[0] == xs[0] && (xs + ys)[1..] == xs[1..] + ys;
      MapAppend(f, xs[1..], ys);
      calc {
        Map(f, xs + ys);
        [f(xs[0])] + Map(f, xs[1..] + ys);
        [f(xs[0])] + (Map(f, xs[1..]) + Map(f, ys));
      }
    }
  }

  lemma {:induction false} MapInsert<T, U>(f: T -> U, cmp: (T, T) -> Ordering, s: seq<T>, x: T)
    ensures multiset(Map(f, Insert(cmp, s, x))) == multiset(Map(f, s)) + multiset{f(x)}
  {
    if s != [] && cmp(x, s[0]) != Less {
      MapInsert(f, cmp, s[1..], x);
      assert Map(f, Insert(cmp, s, x)) == [f(s[0])] + Map(f, Insert(cmp, s[1..], x));
    }
  }

  lemma {:induction false} MapSort<T, U>(f: T -> U, cmp: (T, T) -> Ordering, xs: seq<T>)
    ensures multiset(Map(f, Sort(cmp, xs))) == multiset(Map(f, xs))
  {
    if xs != [] {
      var init, last := xs[..|xs| - 1], xs[|xs| - 1];
      MapSort(f, cmp, init);
      MapInsert(f, cmp, Sort(cmp, init), last);
      assert xs == init + [last];
      MapAppend(f, init, [last]);
      assert Map(f, [last]) == [f(last)];
    }
  }

  // -----------------------------------------------------------------------
  // Stability on offsets: sorting `0, 1, …, n-1` stably by `cmp` is sorting
  // it by `cmp` with ties broken by the offset.
  // -----------------------------------------------------------------------

  function TieBreak(cmp: (nat, nat) -> Ordering): (nat, nat) -> Ordering
  {
    (a: nat, b: nat) =>
      if cmp(a, b) != Equal then cmp(a, b)
      else if a < b then Less
      else if a == b then Equal
      else Greater
  }

  predicate Increasing(xs: seq<nat>) { forall i, j :: 0 <= i < j < |xs| ==> xs[i] < xs[j] }

  lemma {:induction false} InsertTieBreak(cmp: (nat, nat) -> Ordering, s: seq<nat>, x: nat)
    requires forall i :: 0 <= i < |s| ==> s[i] < x
    ensures Insert(cmp, s, x) == Insert(TieBreak(cmp), s, x)
  {
    if s != [] {
      InsertTieBreak(cmp, s[1..], x);
    }
  }

  lemma {:induction false} StableIsTieBreak(cmp: (nat, nat) -> Ordering, xs: seq<nat>)
    requires Increasing(xs)
    ensures Sort(cmp, xs) == Sort(TieBreak(cmp), xs)
  {
    if xs != [] {
      var init, last := xs[..|xs| - 1], xs[|xs| - 1];
      StableIsTieBreak(cmp, init);
      var s := Sort(cmp, init);
      forall i | 0 <= i < |s| ensures s[i] < last {
        assert s[i] in multiset(init);
        var k :| 0 <= k < |init| && init[k] == s[i];
        assert xs[k] == init[k];
      }
      InsertTieBreak(cmp, s, last);
    }
  }

  lemma {:induction false} TieBreakStrict(cmp: (nat, nat) -> Ordering, elems: set<nat>)
    requires TotalPreorder(cmp, elems)
    ensures StrictOrder(TieBreak(cmp), elems)
  {
    var t := TieBreak(cmp);
    forall a, b | a in elems && b in elems ensures t(a, b) == Less <==> t(b, a) == Greater {
      assert cmp(a, b) == Less <==> cmp(b, a) == Greater;
      assert cmp(b, a) == Less <==> cmp(a, b) == Greater;
    }
    forall a, b, c | a in elems && b in elems && c in elems && t(a, b) == Less && t(b, c) == Less
      ensures t(a, c) == Less
    {
      assert cmp(a, b) != Greater && cmp(b, c) != Greater;
      assert cmp(a, c) != Greater;
      if cmp(a, c) == Equal {
        assert cmp(c, a) == Equal by {
          assert cmp(a, c) == Less <==> cmp(c, a) == Greater;
          assert cmp(c, a) == Less <==> cmp(a, c) == Greater;
        }
        assert cmp(b, c) != Greater && cmp(c, a) != Greater;
        assert cmp(b, a) != Greater;
        assert cmp(a, b) == Less <==> cmp(b, a) == Greater;
        assert cmp(a, b) == Equal;
        assert cmp(b, a) == Less <==> cmp(a, b) == Greater;
        assert cmp(b, a) == Equal;
        assert cmp(c, b) != Greater by {
          assert cmp(c, a) != Greater && cmp(a, b) != Greater;
        }
        assert cmp(b, c) == Less <==> cmp(c, b) == Greater;
        assert cmp(b, c) == Equal;
      }
    }
  }
}
