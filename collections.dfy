/**
  The list routines of the Java and Kotlin libraries that the presenters call on
  their note list, modelled as functions on sequences:
  - `SortBy`: `Collections.sort` / `MutableList.sortWith`, a stable sort driven by a comparator;
  - `Filter`: `Iterable.filter`;
  - `IndexOf`: `ArrayList.indexOf`;
  - `Remove`: `ArrayList.remove(Object)`, which drops the first equal element.
  A comparator is modelled as its "less than or equal" relation `le`.
 */
module Collections {

  /** `le` is total and transitive: the contract a `Comparator` must honour. */
  ghost predicate TotalPreorder<T(!new)>(le: (T, T) -> bool) {
    && (forall x, y :: le(x, y) || le(y, x))
    && (forall x, y, z :: le(x, y) && le(y, z) ==> le(x, z))
  }

  ghost predicate Sorted<T>(le: (T, T) -> bool, s: seq<T>) {
    forall i, j :: 0 <= i < j < |s| ==> le(s[i], s[j])
  }

  /** `r` can be obtained from `s` by deleting elements, keeping the order of the rest. */
  ghost predicate Subsequence<T>(r: seq<T>, s: seq<T>)
    decreases |s|
  {
    if r == [] then true
    else if s == [] then false
    else (r[0] == s[0] && Subsequence(r[1..], s[1..])) || Subsequence(r, s[1..])
  }

  /** The elements equivalent to `x` under `le` (neither sorts strictly before the other). */
  function EquivalentTo<T>(le: (T, T) -> bool, x: T): T -> bool {
    y => le(x, y) && le(y, x)
  }

  // ---------------------------------------------------------------------------
  // Sorting

  /** Inserts `x` into sorted `s` after every element that is not strictly greater than `x`. */
  function Insert<T>(le: (T, T) -> bool, x: T, s: seq<T>): (r: seq<T>)
    ensures multiset(r) == multiset(s) + multiset{x}
  {
    if s == [] || le(s[|s| - 1], x) then s + [x]
    else
      assert s == s[..|s| - 1] + [s[|s| - 1]];
      Insert(le, x, s[..|s| - 1]) + [s[|s| - 1]]
  }

  /** The stable sort of `s` by `le`: what `Collections.sort(list, comparator)` leaves in `list`. */
  function SortBy<T>(le: (T, T) -> bool, s: seq<T>): (r: seq<T>)
    ensures multiset(r) == multiset(s)
    ensures |r| == |s|
  {
    if s == [] then []
    else
      assert s == s[..|s| - 1] + [s[|s| - 1]];
      Insert(le, s[|s| - 1], SortBy(le, s[..|s| - 1]))
  }

  lemma {:induction false} InsertSorted<T(!new)>(le: (T, T) -> bool, x: T, s: seq<T>)
    requires TotalPreorder(le) && Sorted(le, s)
    ensures Sorted(le, Insert(le, x, s))
  {
    if s == [] {
    } else if le(s[|s| - 1], x) {
      var r := s + [x];
      forall i, j | 0 <= i < j < |r| ensures le(r[i], r[j]) {
        if j == |s| && i < |s| - 1 {
          assert le(s[i], s[|s| - 1]);
        }
      }
    } else {
      var init, last := s[..|s| - 1], s[|s| - 1];
      InsertSorted(le, x, init);
      var r' := Insert(le, x, init);
      assert le(x, last);
      forall i | 0 <= i < |r'| ensures le(r'[i], last) {
        assert r'[i] in multiset(r');
        if r'[i] != x {
          assert r'[i] in multiset(init);
          var j :| 0 <= j < |init| && init[j] == r'[i];
          assert le(s[j], s[|s| - 1]);
        }
      }
      var r := r' + [last];
      forall i, j | 0 <= i < j < |r| ensures le(r[i], r[j]) {
        if j < |r'| {
          assert le(r'[i], r'[j]);
        }
      }
    }
  }

  /** The result of `SortBy` is ordered by the comparator. */
  lemma {:induction false} SortBySorted<T(!new)>(le: (T, T) -> bool, s: seq<T>)
    requires TotalPreorder(le)
    ensures Sorted(le, SortBy(le, s))
  {
    if s != [] {
      SortBySorted(le, s[..|s| - 1]);
      InsertSorted(le, s[|s| - 1], SortBy(le, s[..|s| - 1]));
    }
  }

  /** Sorting a list that is already in order changes nothing. */
  lemma {:induction false} SortByOfSorted<T(!new)>(le: (T, T) -> bool, s: seq<T>)
    requires Sorted(le, s)
    ensures SortBy(le, s) == s
  {
    if s != [] {
      var init := s[..|s| - 1];
      assert Sorted(le, init);
      SortByOfSorted(le, init);
      if |init| > 0 {
        assert le(init[|init| - 1], s[|s| - 1]);
      }
      assert init + [s[|s| - 1]] == s;
    }
  }

  lemma {:induction false} InsertStable<T(!new)>(le: (T, T) -> bool, x: T, s: seq<T>, z: T)
    requires TotalPreorder(le) && Sorted(le, s)
    ensures Filter(EquivalentTo(le, z), Insert(le, x, s))
         == Filter(EquivalentTo(le, z), s) + Filter(EquivalentTo(le, z), [x])
  {
    var p := EquivalentTo(le, z);
    if s == [] || le(s[|s| - 1], x) {
      FilterConcat(p, s, [x]);
    } else {
      var init, last := s[..|s| - 1], s[|s| - 1];
      assert Sorted(le, init);
      InsertStable(le, x, init, z);
      FilterConcat(p, Insert(le, x, init), [last]);
      FilterConcat(p, init, [last]);
      assert init + [last] == s;
      // x sorts strictly before last, so they cannot both be equivalent to z
      assert !(p(x) && p(last));
    }
  }

  /**
    `SortBy` is stable: the notes that compare equal to any given `z` appear in the
    result in the order they had in the input.
   */
  lemma {:induction false} SortByStable<T(!new)>(le: (T, T) -> bool, s: seq<T>, z: T)
    requires TotalPreorder(le)
    ensures Filter(EquivalentTo(le, z), SortBy(le, s)) == Filter(EquivalentTo(le, z), s)
  {
    if s != [] {
      var init, last := s[..|s| - 1], s[|s| - 1];
      SortByStable(le, init, z);
      SortBySorted(le, init);
      InsertStable(le, last, SortBy(le, init), z);
      FilterConcat(EquivalentTo(le, z), init, [last]);
      assert init + [last] == s;
    }
  }

  // ---------------------------------------------------------------------------
  // Filtering

  /** The elements of `s` that satisfy `p`, in their order in `s`. */
  function Filter<T>(p: T -> bool, s: seq<T>): (r: seq<T>)
    ensures |r| <= |s|
    ensures forall i :: 0 <= i < |r| ==> p(r[i])
  {
    if s == [] then []
    else if p(s[0]) then [s[0]] + Filter(p, s[1..])
    else Filter(p, s[1..])
  }

  lemma {:induction false} FilterConcat<T>(p: T -> bool, a: seq<T>, b: seq<T>)
    ensures Filter(p, a + b) == Filter(p, a) + Filter(p, b)
  {
    if a != [] {
      assert (a + b)[1..] == a[1..] + b;
      FilterConcat(p, a[1..], b);
    } else {
      assert a + b == b;
    }
  }

  /** `Filter` keeps every element satisfying `p`, as often as it occurs, and nothing else. */
  lemma {:induction false} FilterCount<T>(p: T -> bool, s: seq<T>, x: T)
    ensures multiset(Filter(p, s))[x] == if p(x) then multiset(s)[x] else 0
  {
    if s != [] {
      FilterCount(p, s[1..], x);
      assert s == [s[0]] + s[1..];
    }
  }

  /** Every sequence is a subsequence of itself. */
  lemma {:induction false} SubsequenceOfItself<T>(s: seq<T>)
    ensures Subsequence(s, s)
  {
    if s != [] {
      SubsequenceOfItself(s[1..]);
    }
  }

  /** `Filter` keeps the relative order of the elements it keeps. */
  lemma {:induction false} FilterSubsequence<T>(p: T -> bool, s: seq<T>)
    ensures Subsequence(Filter(p, s), s)
  {
    if s != [] {
      FilterSubsequence(p, s[1..]);
      var r := Filter(p, s);
      if p(s[0]) {
        assert r[0] == s[0] && r[1..] == Filter(p, s[1..]);
      }
    }
  }

  // ---------------------------------------------------------------------------
  // Searching and removing by equality

  /** `ArrayList.indexOf`: the first position holding `x`, or -1. */
  function IndexOf<T(==)>(s: seq<T>, x: T): (i: int)
    ensures -1 <= i < |s|
    ensures i == -1 <==> x !in s
    ensures 0 <= i ==> s[i] == x && x !in s[..i]
  {
    if s == [] then -1
    else if s[0] == x then 0
    else
      var j := IndexOf(s[1..], x);
      assert s[1..][..j + 1] == s[1..j + 2] by { }
      if j == -1 then -1 else j + 1
  }

  /** `ArrayList.remove(Object)`: drops the first element equal to `x`, if there is one. */
  function Remove<T(==)>(s: seq<T>, x: T): (r: seq<T>)
    ensures x !in s ==> r == s
    ensures x in s ==> r == s[..IndexOf(s, x)] + s[IndexOf(s, x) + 1..]
  {
    if s == [] then []
    else if s[0] == x then s[1..]
    else [s[0]] + Remove(s[1..], x)
  }

  /** Removing the element at a position its value does not occur before removes that position. */
  lemma RemoveFirstOccurrence<T>(s: seq<T>, p: int)
    requires 0 <= p < |s| && s[p] !in s[..p]
    ensures Remove(s, s[p]) == s[..p] + s[p + 1..]
  {
  }

  /** When no value occurs twice, no value occurs before its own position. */
  lemma NoDuplicatesBefore<T>(s: seq<T>, p: int)
    requires forall x :: multiset(s)[x] <= 1
    requires 0 <= p < |s|
    ensures s[p] !in s[..p]
  {
    assert s == s[..p] + s[p..];
    assert multiset(s) == multiset(s[..p]) + multiset(s[p..]);
    assert s[p..][0] == s[p];
    assert s[p] in multiset(s[p..]);
    assert multiset(s)[s[p]] <= 1;
    assert multiset(s[..p])[s[p]] == 0;
  }

  /** Deleting one position removes one occurrence of its element. */
  lemma MultisetRemoveAt<T>(s: seq<T>, p: int)
    requires 0 <= p < |s|
    ensures multiset(s[..p] + s[p + 1..]) == multiset(s) - multiset{s[p]}
  {
    assert s == s[..p] + [s[p]] + s[p + 1..];
  }

  /** Deleting one position keeps the remaining elements ordered. */
  lemma SortedRemoveAt<T>(le: (T, T) -> bool, s: seq<T>, p: int)
    requires Sorted(le, s) && 0 <= p < |s|
    ensures Sorted(le, s[..p] + s[p + 1..])
  {
    var r := s[..p] + s[p + 1..];
    forall i, j | 0 <= i < j < |r| ensures le(r[i], r[j]) {
      var i', j' := if i < p then i else i + 1, if j < p then j else j + 1;
      assert r[i] == s[i'] && r[j] == s[j'];
    }
  }
}
