/** The `(overlap, index)` pairs of the keyword selector and Python's
    `list.sort(reverse=True)` on them: lexicographic order on the pair,
    largest first. */
module Ranking {

  datatype Score = Score(overlap: nat, index: nat)

  /** `x >= y` on Python tuples `(overlap, index)`. */
  predicate AtLeast(x: Score, y: Score) {
    x.overlap > y.overlap || (x.overlap == y.overlap && x.index >= y.index)
  }

  /** Sorted as `sort(reverse=True)` leaves a list: no later element is
      greater than an earlier one. */
  predicate Descending(s: seq<Score>) {
    forall i, j :: 0 <= i < j < |s| ==> AtLeast(s[i], s[j])
  }

  /** The chunk indices of a list of scores, in list order. */
  function Indices(rs: seq<Score>): (r: seq<nat>)
    ensures |r| == |rs|
    ensures forall j :: 0 <= j < |rs| ==> r[j] == rs[j].index
  {
    seq(|rs|, j requires 0 <= j < |rs| => rs[j].index)
  }

  lemma AtLeastTotalOrder(x: Score, y: Score, z: Score)
    ensures AtLeast(x, x)
    ensures AtLeast(x, y) || AtLeast(y, x)
    ensures AtLeast(x, y) && AtLeast(y, x) ==> x == y
    ensures AtLeast(x, y) && AtLeast(y, z) ==> AtLeast(x, z)
  {
  }

  // ---------------------------------------------------------------------
  // Reference definition: insertion sort as a function

  /** `x` placed into `s` before the first element it is at least as large
      as. */
  function Insert(x: Score, s: seq<Score>): seq<Score> {
    if s == [] then [x]
    else if AtLeast(x, s[0]) then [x] + s
    else [s[0]] + Insert(x, s[1..])
  }

  /** The list `scores` sorted largest first. */
  function SortDesc(s: seq<Score>): seq<Score> {
    if s == [] then [] else Insert(s[0], SortDesc(s[1..]))
  }

  lemma {:induction false} InsertPermutes(x: Score, s: seq<Score>)
    ensures multiset(Insert(x, s)) == multiset(s) + multiset{x}
  {
    if s != [] && !AtLeast(x, s[0]) {
      InsertPermutes(x, s[1..]);
      assert s == [s[0]] + s[1..];
    }
  }

  /** Every element of `Insert(x, s)` is `x` or an element of `s`. */
  lemma InsertElements(x: Score, s: seq<Score>)
    ensures forall e :: e in Insert(x, s) ==> e == x || e in s
  {
    InsertPermutes(x, s);
    forall e | e in Insert(x, s) ensures e == x || e in s {
      assert e in multiset(Insert(x, s));
    }
  }

  lemma {:induction false} InsertSorted(x: Score, s: seq<Score>)
    requires Descending(s)
    ensures Descending(Insert(x, s))
  {
    if s != [] && !AtLeast(x, s[0]) {
      var t := Insert(x, s[1..]);
      InsertSorted(x, s[1..]);
      InsertElements(x, s[1..]);
      forall j | 0 <= j < |t| ensures AtLeast(s[0], t[j]) {
        assert t[j] in t;
        if t[j] != x {
          var k :| 0 <= k < |s[1..]| && s[1..][k] == t[j];
          assert s[k + 1] == t[j];
        }
      }
      var r := [s[0]] + t;
      assert forall i :: 1 <= i < |r| ==> r[i] == t[i - 1];
    }
  }

  /** The reference sort is a sorted permutation of its input. */
  lemma {:induction false} SortDescCorrect(s: seq<Score>)
    ensures multiset(SortDesc(s)) == multiset(s)
    ensures Descending(SortDesc(s))
  {
    if s != [] {
      SortDescCorrect(s[1..]);
      InsertPermutes(s[0], SortDesc(s[1..]));
      InsertSorted(s[0], SortDesc(s[1..]));
      assert s == [s[0]] + s[1..];
    }
  }

  /** A descending order of a given multiset of scores is unique, so any
      correct sort produces exactly `SortDesc`. */
  lemma {:induction false} DescendingUnique(a: seq<Score>, b: seq<Score>)
    requires Descending(a) && Descending(b)
    requires multiset(a) == multiset(b)
    ensures a == b
    decreases |a|
  {
    if a != [] {
      assert b != [] by { assert a[0] in multiset(b); }
      HeadIsGreatest(a, b[0]);
      HeadIsGreatest(b, a[0]);
      assert a[0] == b[0];
      TailMultiset(a);
      TailMultiset(b);
      DescendingTail(a);
      DescendingTail(b);
      DescendingUnique(a[1..], b[1..]);
    }
  }

  /** The head of a descending sequence is at least every element of it. */
  lemma HeadIsGreatest(s: seq<Score>, e: Score)
    requires Descending(s) && e in multiset(s)
    ensures AtLeast(s[0], e)
  {
    var i :| 0 <= i < |s| && s[i] == e;
    assert i == 0 || AtLeast(s[0], s[i]);
  }

  lemma TailMultiset(s: seq<Score>)
    requires s != []
    ensures multiset(s[1..]) == multiset(s) - multiset{s[0]}
  {
    assert s == [s[0]] + s[1..];
  }

  lemma DescendingTail(s: seq<Score>)
    requires Descending(s) && s != []
    ensures Descending(s[1..])
  {
    forall i, j | 0 <= i < j < |s| - 1 ensures AtLeast(s[1..][i], s[1..][j]) {
      assert s[1..][i] == s[i + 1] && s[1..][j] == s[j + 1];
    }
  }

  // ---------------------------------------------------------------------
  // The in-place sort

  /** `scores.sort(reverse=True)`: an insertion sort in place. */
  method SortInPlace(a: array<Score>)
    modifies a
    ensures Descending(a[..])
    ensures multiset(a[..]) == multiset(old(a[..]))
    ensures a[..] == SortDesc(old(a[..]))
  {
    for i := 0 to a.Length
      invariant Descending(a[..i])
      invariant multiset(a[..]) == multiset(old(a[..]))
    {
      InsertInPlace(a, i);
    }
    assert a[..a.Length] == a[..];
    SortDescCorrect(old(a[..]));
    DescendingUnique(a[..], SortDesc(old(a[..])));
  }

  /** One outer step of the insertion sort: `a[i]` sinks leftwards into the
      sorted prefix `a[..i]`. */
  method InsertInPlace(a: array<Score>, i: nat)
    requires i < a.Length
    requires Descending(a[..i])
    modifies a
    ensures Descending(a[..i + 1])
    ensures multiset(a[..]) == multiset(old(a[..]))
    ensures a[i + 1..] == old(a[i + 1..])
  {
    var j := i;
    SinkStart(a[..], i);
    while j > 0 && !AtLeast(a[j - 1], a[j])
      invariant 0 <= j <= i < a.Length
      invariant multiset(a[..]) == multiset(old(a[..]))
      invariant SinkingAt(a[..], i, j)
      invariant a[i + 1..] == old(a[i + 1..])
    {
      ghost var s := a[..];
      SwapPermutes(s, j - 1, j);
      SwapKeepsTail(s, j - 1, j, i + 1);
      SinkStep(s, i, j);
      a[j - 1], a[j] := a[j], a[j - 1];
      assert a[..] == s[j - 1 := s[j]][j := s[j - 1]];
      j := j - 1;
    }
    SinkDone(a[..], i, j);
  }

  /** The state of the inner loop: `s[..i+1]` is descending except at the
      sinking element `s[j]`, which is at least everything after it. */
  predicate SinkingAt(s: seq<Score>, i: nat, j: nat)
    requires j <= i < |s|
  {
    && (forall p, q :: 0 <= p < q <= i && p != j && q != j ==> AtLeast(s[p], s[q]))
    && (forall q :: j < q <= i ==> AtLeast(s[j], s[q]))
  }

  lemma SinkStart(s: seq<Score>, i: nat)
    requires i < |s| && Descending(s[..i])
    ensures SinkingAt(s, i, i)
  {
    assert forall p :: 0 <= p < i ==> s[..i][p] == s[p];
  }

  lemma SinkStep(s: seq<Score>, i: nat, j: nat)
    requires 0 < j <= i < |s| && SinkingAt(s, i, j)
    requires !AtLeast(s[j - 1], s[j])
    ensures SinkingAt(s[j - 1 := s[j]][j := s[j - 1]], i, j - 1)
  {
    var t := s[j - 1 := s[j]][j := s[j - 1]];
    forall q | j - 1 < q <= i ensures AtLeast(t[j - 1], t[q]) {
      if q > j {
        AtLeastTotalOrder(s[j], s[j - 1], s[q]);
      }
    }
  }

  lemma SinkDone(s: seq<Score>, i: nat, j: nat)
    requires j <= i < |s| && SinkingAt(s, i, j)
    requires j == 0 || AtLeast(s[j - 1], s[j])
    ensures Descending(s[..i + 1])
  {
    forall p, q | 0 <= p < q <= i ensures AtLeast(s[p], s[q]) {
      if q == j && p < j - 1 {
        AtLeastTotalOrder(s[p], s[j - 1], s[j]);
      }
    }
  }

  lemma SwapPermutes(s: seq<Score>, i: nat, j: nat)
    requires i < j < |s|
    ensures multiset(s[i := s[j]][j := s[i]]) == multiset(s)
  {
  }

  lemma SwapKeepsTail(s: seq<Score>, i: nat, j: nat, n: nat)
    requires i < j < n <= |s|
    ensures s[i := s[j]][j := s[i]][n..] == s[n..]
  {
  }

  // ---------------------------------------------------------------------
  // Counting occurrences

  /** A value at two positions of a sequence occurs in it at least twice. */
  lemma RepeatedCount<T>(s: seq<T>, i: nat, j: nat)
    requires i < j < |s|
    ensures s[i] == s[j] ==> multiset(s)[s[i]] >= 2
  {
    assert s == s[..j] + s[j..];
    assert s[i] in s[..j];
    assert s[j] in s[j..];
  }

  /** In a sequence without repeats every value occurs at most once. */
  lemma {:induction false} DistinctCount<T>(s: seq<T>, x: T)
    requires forall i, j :: 0 <= i < j < |s| ==> s[i] != s[j]
    ensures multiset(s)[x] <= 1
  {
    if s != [] {
      assert s == [s[0]] + s[1..];
      assert forall i, j :: 0 <= i < j < |s[1..]| ==> s[1..][i] == s[i + 1] && s[1..][j] == s[j + 1];
      DistinctCount(s[1..], x);
      if s[0] == x {
        assert x !in s[1..];
      }
    }
  }
}
