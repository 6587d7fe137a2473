/**
 * Knot vectors as non-decreasing sequences of reals, and the sequence
 * algorithms the curve-splitting code relies on: repeating a parameter,
 * the multiset difference of two sorted ranges (as `std::set_difference`
 * computes it), the sorted merge that knot insertion produces, and the
 * linear search of `std::find`.
 */
module KnotSeq {

  /** Entries never decrease. */
  predicate NonDecreasing(s: seq<real>)
  {
    forall i, j :: 0 <= i <= j < |s| ==> s[i] <= s[j]
  }

  /** Entries strictly increase. */
  predicate Increasing(s: seq<real>)
  {
    forall i, j :: 0 <= i < j < |s| ==> s[i] < s[j]
  }

  /** `k` copies of `x`. */
  function Repeat(x: real, k: nat): (r: seq<real>)
    ensures |r| == k && forall j :: 0 <= j < k ==> r[j] == x
  {
    seq(k, _ => x)
  }

  lemma {:induction false} RepeatCount(x: real, k: nat)
    ensures multiset(Repeat(x, k))[x] == k
    ensures forall y :: y != x ==> multiset(Repeat(x, k))[y] == 0
    decreases k
  {
    if k > 0 {
      assert Repeat(x, k) == [x] + Repeat(x, k - 1);
      RepeatCount(x, k - 1);
    }
  }

  /** `k` copies of each parameter in turn. */
  function RepeatEach(ps: seq<real>, k: nat): (r: seq<real>)
    ensures |r| == |ps| * k
  {
    if |ps| == 0 then [] else Repeat(ps[0], k) + RepeatEach(ps[1..], k)
  }

  /** Every parameter occurs at least `k` times among the repeated ones. */
  lemma {:induction false} RepeatEachCount(ps: seq<real>, k: nat, i: nat)
    requires i < |ps|
    ensures multiset(RepeatEach(ps, k))[ps[i]] >= k
    decreases |ps|
  {
    RepeatCount(ps[0], k);
    if i > 0 {
      RepeatEachCount(ps[1..], k, i - 1);
    }
  }

  /** Repeating the entries of a sorted sequence keeps it sorted. */
  lemma {:induction false} RepeatEachSorted(ps: seq<real>, k: nat)
    requires NonDecreasing(ps)
    ensures NonDecreasing(RepeatEach(ps, k))
    ensures forall x :: x in RepeatEach(ps, k) ==> x in ps
    decreases |ps|
  {
    if |ps| > 0 {
      RepeatEachSorted(ps[1..], k);
      var r := RepeatEach(ps, k);
      forall i, j | 0 <= i <= j < |r|
        ensures r[i] <= r[j]
      {
        if j >= k {
          assert r[j] == RepeatEach(ps[1..], k)[j - k];
          assert r[j] in ps[1..];
        }
      }
    }
  }

  /** The sorted merge of two sorted sequences. */
  function Merge(a: seq<real>, b: seq<real>): (r: seq<real>)
    ensures |r| == |a| + |b|
    ensures multiset(r) == multiset(a) + multiset(b)
    ensures |r| > 0 ==> (|a| > 0 && r[0] == a[0]) || (|b| > 0 && r[0] == b[0])
    decreases |a| + |b|
  {
    if |a| == 0 then b
    else if |b| == 0 then a
    else if a[0] <= b[0] then
      assert a == [a[0]] + a[1..];
      [a[0]] + Merge(a[1..], b)
    else
      assert b == [b[0]] + b[1..];
      [b[0]] + Merge(a, b[1..])
  }

  lemma {:induction false} MergeSorted(a: seq<real>, b: seq<real>)
    requires NonDecreasing(a) && NonDecreasing(b)
    ensures NonDecreasing(Merge(a, b))
    decreases |a| + |b|
  {
    if |a| > 0 && |b| > 0 {
      if a[0] <= b[0] {
        MergeSorted(a[1..], b);
        HeadBound(Merge(a[1..], b), a[0]);
      } else {
        MergeSorted(a, b[1..]);
        HeadBound(Merge(a, b[1..]), b[0]);
      }
    }
  }

  /** A sorted sequence whose head is at least `x` stays sorted with `x` in front. */
  lemma HeadBound(s: seq<real>, x: real)
    requires NonDecreasing(s) && (|s| > 0 ==> x <= s[0])
    ensures NonDecreasing([x] + s)
  {
  }

  /**
   * When the first `m` entries of `a` lie below every entry of `b`, the
   * merge starts with them.
   */
  lemma {:induction false} MergeKeepsPrefix(a: seq<real>, b: seq<real>, m: nat)
    requires m <= |a| && NonDecreasing(a)
    requires forall y :: y in b ==> m == 0 || a[m - 1] < y
    ensures Merge(a, b)[..m] == a[..m]
    decreases m
  {
    if m > 0 && |b| > 0 {
      assert b[0] in b;
      MergeKeepsPrefix(a[1..], b, m - 1);
    }
  }

  /**
   * When every entry of `b` lies below `a[m]`, the merge places `a[m]`
   * after all of `b`.
   */
  lemma {:induction false} MergeKeepsAt(a: seq<real>, b: seq<real>, m: nat)
    requires m < |a|
    requires forall j :: 0 <= j < |b| ==> b[j] < a[m]
    ensures Merge(a, b)[|b| + m] == a[m]
    decreases |a| + |b|
  {
    if |b| > 0 {
      if a[0] <= b[0] {
        assert m > 0;
        assert a[1..][m - 1] == a[m];
        MergeKeepsAt(a[1..], b, m - 1);
        assert Merge(a, b) == [a[0]] + Merge(a[1..], b);
      } else {
        MergeKeepsAt(a, b[1..], m);
        assert Merge(a, b) == [b[0]] + Merge(a, b[1..]);
      }
    }
  }

  /**
   * `std::set_difference` of two sorted ranges: entries of `a` not matched
   * one-for-one by equal entries of `b`.
   */
  function Difference(a: seq<real>, b: seq<real>): (r: seq<real>)
    ensures forall x :: x in r ==> x in a
    decreases |a| + |b|
  {
    if |a| == 0 then []
    else if |b| == 0 then a
    else if a[0] < b[0] then
      var d := Difference(a[1..], b);
      assert forall x :: x in d ==> x in a[1..];
      [a[0]] + d
    else if b[0] < a[0] then Difference(a, b[1..])
    else
      var d := Difference(a[1..], b[1..]);
      assert forall x :: x in d ==> x in a[1..];
      d
  }

  /**
   * On sorted input the difference is the multiset difference: each `x`
   * occurs `max(0, count(x, a) - count(x, b))` times.
   */
  lemma {:induction false} DifferenceCounts(a: seq<real>, b: seq<real>)
    requires NonDecreasing(a) && NonDecreasing(b)
    ensures multiset(Difference(a, b)) == multiset(a) - multiset(b)
    decreases |a| + |b|
  {
    if |a| > 0 && |b| > 0 {
      if a[0] < b[0] {
        DifferenceCounts(a[1..], b);
        DropSmallerHead(a, b);
      } else if b[0] < a[0] {
        DifferenceCounts(a, b[1..]);
        SkipSmallerHead(b, a);
      } else {
        DifferenceCounts(a[1..], b[1..]);
        DropCommonHead(a, b);
      }
    }
  }

  /** A head of `b` below every entry of the sorted `a` takes nothing away from `a`. */
  lemma SkipSmallerHead(b: seq<real>, a: seq<real>)
    requires NonDecreasing(a) && |a| > 0 && |b| > 0 && b[0] < a[0]
    ensures multiset(a) - multiset(b) == multiset(a) - multiset(b[1..])
  {
    DropSmallerHead(b, a);
    assert b == [b[0]] + b[1..];
  }

  /** Equal heads cancel. */
  lemma DropCommonHead(a: seq<real>, b: seq<real>)
    requires |a| > 0 && |b| > 0 && a[0] == b[0]
    ensures multiset(a) - multiset(b) == multiset(a[1..]) - multiset(b[1..])
  {
    assert a == [a[0]] + a[1..];
    assert b == [b[0]] + b[1..];
  }

  /** A head below every entry of the other sorted sequence is not in it. */
  lemma DropSmallerHead(a: seq<real>, b: seq<real>)
    requires NonDecreasing(b) && |a| > 0 && |b| > 0 && a[0] < b[0]
    ensures a[0] !in multiset(b)
    ensures multiset(a) - multiset(b) == multiset{a[0]} + (multiset(a[1..]) - multiset(b))
  {
    assert a == [a[0]] + a[1..];
    assert a[0] !in b;
  }

  /** On sorted input the difference is sorted. */
  lemma {:induction false} DifferenceSorted(a: seq<real>, b: seq<real>)
    requires NonDecreasing(a)
    ensures NonDecreasing(Difference(a, b))
    decreases |a| + |b|
  {
    if |a| > 0 && |b| > 0 {
      if a[0] < b[0] {
        DifferenceSorted(a[1..], b);
        var d := Difference(a[1..], b);
        if |d| > 0 {
          assert d[0] in a[1..];
          var k :| 0 <= k < |a| - 1 && a[1..][k] == d[0];
          assert a[0] <= a[k + 1];
        }
        HeadBound(d, a[0]);
      } else if b[0] < a[0] {
        DifferenceSorted(a, b[1..]);
      } else {
        DifferenceSorted(a[1..], b[1..]);
      }
    }
  }

  /**
   * Inserting the difference between the wanted knots and the existing ones
   * gives every wanted value at least its wanted multiplicity.
   */
  lemma InsertionReachesMultiplicity(basis: seq<real>, want: seq<real>, x: real)
    requires NonDecreasing(basis) && NonDecreasing(want)
    ensures multiset(Merge(basis, Difference(want, basis)))[x] >= multiset(want)[x]
    ensures NonDecreasing(Merge(basis, Difference(want, basis)))
  {
    DifferenceCounts(want, basis);
    DifferenceSorted(want, basis);
    MergeSorted(basis, Difference(want, basis));
  }

  /** `std::find` from position `from`: the first later index holding `x`, or `|s|`. */
  function Find(s: seq<real>, from: nat, x: real): (i: nat)
    requires from <= |s|
    ensures from <= i <= |s|
    ensures i < |s| ==> s[i] == x
    ensures forall j :: from <= j < i ==> s[j] != x
    ensures x in s[from..] ==> i < |s|
    decreases |s| - from
  {
    if from == |s| then |s|
    else if s[from] == x then from
    else
      assert s[from..] == [s[from]] + s[from + 1..];
      Find(s, from + 1, x)
  }

  /** The index after the run of `x` that starts at `i`. */
  function RunEnd(s: seq<real>, i: nat, x: real): (e: nat)
    requires i <= |s|
    ensures i <= e <= |s|
    ensures forall j :: i <= j < e ==> s[j] == x
    ensures e < |s| ==> s[e] != x
    decreases |s| - i
  {
    if i == |s| || s[i] != x then i else RunEnd(s, i + 1, x)
  }

  lemma {:induction false} ConstantCount(t: seq<real>, x: real)
    requires forall j :: 0 <= j < |t| ==> t[j] == x
    ensures multiset(t)[x] == |t|
    decreases |t|
  {
    if |t| > 0 {
      assert t == [t[0]] + t[1..];
      ConstantCount(t[1..], x);
    }
  }

  /**
   * In a sorted sequence holding `x` at least `m` times, the `m` copies sit
   * side by side from the first occurrence of `x` on.
   */
  lemma RunAtFirst(s: seq<real>, x: real, m: nat)
    requires NonDecreasing(s) && multiset(s)[x] >= m
    ensures Find(s, 0, x) + m <= |s|
    ensures forall j :: Find(s, 0, x) <= j < Find(s, 0, x) + m ==> s[j] == x
  {
    if m > 0 {
      var i := Find(s, 0, x);
      var e := RunEnd(s, i, x);
      RunCount(s, x, i, e);
    }
  }

  /** The run from the first occurrence holds every copy of `x`. */
  lemma RunCount(s: seq<real>, x: real, i: nat, e: nat)
    requires NonDecreasing(s) && x in multiset(s)
    requires i == Find(s, 0, x) && e == RunEnd(s, i, x)
    ensures multiset(s)[x] == e - i
  {
    assert s[0..] == s;
    CountThreeParts(s, i, e, x);
    assert x !in s[..i];
    NoneAfterRun(s, x, i, e);
    ConstantCount(s[i..e], x);
  }

  /** Counts add up over three consecutive slices. */
  lemma CountThreeParts(s: seq<real>, i: nat, e: nat, x: real)
    requires i <= e <= |s|
    ensures multiset(s)[x] == multiset(s[..i])[x] + multiset(s[i..e])[x] + multiset(s[e..])[x]
  {
    assert s == s[..i] + s[i..e] + s[e..];
  }

  lemma NoneAfterRun(s: seq<real>, x: real, i: nat, e: nat)
    requires NonDecreasing(s) && i < |s| && s[i] == x
    requires i <= e <= |s| && (forall j :: i <= j < e ==> s[j] == x) && (e < |s| ==> s[e] != x)
    ensures x !in s[e..]
  {
    forall j | e <= j < |s|
      ensures s[j] != x
    {
      assert e > i;
      assert s[e - 1] <= s[e] <= s[j];
    }
  }

  /**
   * In a sorted sequence, searching for `y` from just past a run of at least
   * `m` copies of a smaller `x` that starts at the first `x` finds the first
   * `y` of the whole sequence.
   */
  lemma FindPastRun(s: seq<real>, x: real, y: real, m: nat)
    requires NonDecreasing(s) && x < y && multiset(s)[x] >= m
    requires multiset(s)[x] > 0
    ensures Find(s, 0, x) + m <= |s|
    ensures Find(s, Find(s, 0, x) + m, y) == Find(s, 0, y)
  {
    RunAtFirst(s, x, m);
    var i := Find(s, 0, x);
    assert x in s[0..];
    assert forall j :: 0 <= j < i + m ==> s[j] != y by {
      forall j | 0 <= j < i + m
        ensures s[j] != y
      {
        if j < i {
          assert s[j] <= s[i];
        }
      }
    }
    FindSkipsAbsent(s, i + m, y);
  }

  /** Searching from `from` agrees with searching from 0 when nothing before `from` matches. */
  lemma FindSkipsAbsent(s: seq<real>, from: nat, y: real)
    requires from <= |s| && forall j :: 0 <= j < from ==> s[j] != y
    ensures Find(s, from, y) == Find(s, 0, y)
  {
    var a := Find(s, 0, y);
    var b := Find(s, from, y);
    if b < |s| {
      assert y in s[0..] by {
        assert s[0..][b] == y;
      }
    }
    if a < |s| {
      assert y in s[from..] by {
        assert s[from..][a - from] == y;
      }
    }
  }

  /** Insertion sort; `std::sort` is specified by its result alone. */
  function Sort(s: seq<real>): (r: seq<real>)
    ensures NonDecreasing(r) && multiset(r) == multiset(s)
  {
    if |s| == 0 then []
    else
      assert s == [s[0]] + s[1..];
      Insert(s[0], Sort(s[1..]))
  }

  function Insert(x: real, s: seq<real>): (r: seq<real>)
    requires NonDecreasing(s)
    ensures NonDecreasing(r) && multiset(r) == multiset{x} + multiset(s)
    ensures |r| > 0 && (r[0] == x || (|s| > 0 && r[0] == s[0]))
  {
    if |s| == 0 || x <= s[0] then [x] + s
    else
      assert s == [s[0]] + s[1..];
      var t := Insert(x, s[1..]);
      HeadBound(t, s[0]);
      [s[0]] + t
  }

  /** A sorted sequence without repetitions is increasing. */
  lemma DistinctSortedIncreasing(s: seq<real>)
    requires NonDecreasing(s)
    requires forall i, j :: 0 <= i < j < |s| ==> s[i] != s[j]
    ensures Increasing(s)
  {
  }

  /** Sorting keeps the entries distinct. */
  lemma {:induction false} SortDistinct(s: seq<real>)
    requires forall i, j :: 0 <= i < j < |s| ==> s[i] != s[j]
    ensures Increasing(Sort(s))
  {
    var r := Sort(s);
    forall i, j | 0 <= i < j < |r|
      ensures r[i] != r[j]
    {
      if r[i] == r[j] {
        assert r == r[..j] + [r[j]] + r[j + 1..];
        assert r[i] in r[..j];
        assert multiset(r)[r[i]] >= 2;
        DistinctCount(s, r[i]);
      }
    }
    DistinctSortedIncreasing(r);
  }

  lemma {:induction false} DistinctCount(s: seq<real>, x: real)
    requires forall i, j :: 0 <= i < j < |s| ==> s[i] != s[j]
    ensures multiset(s)[x] <= 1
    decreases |s|
  {
    if |s| > 0 {
      assert s == [s[0]] + s[1..];
      DistinctCount(s[1..], x);
      if s[0] == x {
        assert x !in s[1..];
      }
    }
  }

  /** Repeating one more parameter appends its copies. */
  lemma {:induction false} RepeatEachSnoc(ps: seq<real>, k: nat, i: nat)
    requires i < |ps|
    ensures RepeatEach(ps[..i + 1], k) == RepeatEach(ps[..i], k) + Repeat(ps[i], k)
    decreases i
  {
    if i > 0 {
      assert ps[..i + 1][1..] == ps[1..][..i];
      assert ps[..i][1..] == ps[1..][..i - 1];
      RepeatEachSnoc(ps[1..], k, i - 1);
    } else {
      assert ps[..1][1..] == [];
    }
  }
}
