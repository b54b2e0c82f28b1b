/**
 * `PdfSegmentationService.findCutPositions`: from the vertical positions of
 * the glyphs, choose `cuts` boundaries at the largest gaps between
 * consecutive distinct positions.
 *
 * Positions are integers, so `Math.round` is the identity.
 */
module CutSelection {
  import opened Outcomes
  import opened Ordering
  import opened GapRanking

  /** The gaps between consecutive entries of `s`; none when `s` has fewer than two. */
  function Gaps(s: seq<int>): (g: seq<int>)
    ensures |g| == if |s| == 0 then 0 else |s| - 1
    ensures StrictlySorted(s) ==> AllPositive(g)
  {
    if |s| == 0 then []
    else seq(|s| - 1, i requires 0 <= i < |s| - 1 => s[i + 1] - s[i])
  }

  /** `index -> Math.round(sorted.get(index))` over the recorded positions: the lower end of each gap. */
  function LowerEndpoints(s: seq<int>, p: seq<nat>): (r: seq<int>)
    requires forall t :: 0 <= t < |p| ==> p[t] < |s|
    ensures |r| == |p|
  {
    seq(|p|, t requires 0 <= t < |p| => s[p[t]])
  }

  /** `ys` holds at least two different positions. */
  predicate TwoDistinct(ys: seq<int>) {
    exists a, b :: a in ys && b in ys && a != b
  }

  /** `n` copies of `x`. */
  function Repeat(x: int, n: nat): (r: seq<int>)
    ensures |r| == n
  {
    seq(n, _ => x)
  }

  /**
   * What `findCutPositions(yPositions, cuts)` returns. A non-positive `cuts`
   * runs the selection loop zero times; otherwise a single distinct
   * position leaves no gap, and `Collections.max` fails on the empty list.
   */
  function CutPositions(ys: seq<int>, cuts: int): (r: Result<seq<int>>)
    ensures r.Failure? ==> cuts > 0 && r.error == NoSuchElementException
    ensures r.Success? ==> Sorted(r.value) && |r.value| == (if cuts <= 0 then 0 else cuts)
  {
    var s := SortedDistinct(ys);
    var g := Gaps(s);
    if cuts <= 0 then Success([])
    else if |g| == 0 then Failure(NoSuchElementException)
    else
      var l := LowerEndpoints(s, Picks(g, cuts));
      assert |Sort(l)| == |multiset(Sort(l))| == |multiset(l)|;
      Success(Sort(l))
  }

  /** The first loop of `findCutPositions`: the gap after each entry but the last. */
  method ComputeGaps(sorted: seq<int>) returns (gaps: seq<int>)
    ensures gaps == Gaps(sorted)
  {
    gaps := [];
    var i := 1;
    while i < |sorted|
      invariant 1 <= i && (i <= |sorted| || i == 1)
      invariant |gaps| == i - 1
      invariant forall k :: 0 <= k < i - 1 ==> gaps[k] == sorted[k + 1] - sorted[k]
    {
      gaps := gaps + [sorted[i] - sorted[i - 1]];
      i := i + 1;
    }
    var g := Gaps(sorted);
    assert |gaps| == |g|;
    assert forall k :: 0 <= k < |g| ==> gaps[k] == g[k];
  }

  /**
   * The second loop of `findCutPositions`: `cuts` rounds, each recording the
   * first position of the largest gap and overwriting that gap with 0.
   */
  method SelectLargestGaps(initial: seq<int>, cuts: int) returns (r: Result<seq<nat>>)
    ensures cuts <= 0 ==> r == Success([])
    ensures cuts > 0 && |initial| == 0 ==> r == Failure(NoSuchElementException)
    ensures cuts > 0 && |initial| > 0 ==> r == Success(Picks(initial, cuts))
  {
    var gaps := initial;
    var largestGapIndices: seq<nat> := [];
    var c := 0;
    while c < cuts
      invariant 0 <= c && (cuts <= 0 ==> c == 0) && (cuts > 0 ==> c <= cuts)
      invariant c == 0 ==> largestGapIndices == []
      invariant |gaps| == |initial|
      invariant |initial| == 0 ==> c == 0
      invariant |initial| > 0 ==> gaps == State(initial, c) && largestGapIndices == Picks(initial, c)
    {
      if |gaps| == 0 {
        return Failure(NoSuchElementException);
      }
      var maxGap := MaxOf(gaps);
      var index := IndexOf(gaps, maxGap);
      assert index == Pick(gaps);
      largestGapIndices := largestGapIndices + [index];
      gaps := gaps[index := 0];
      c := c + 1;
      assert State(initial, c) == gaps && Picks(initial, c) == largestGapIndices;
    }
    return Success(largestGapIndices);
  }

  /** `findCutPositions`, proved to compute `CutPositions`. */
  method FindCutPositions(ys: seq<int>, cuts: int) returns (r: Result<seq<int>>)
    ensures r == CutPositions(ys, cuts)
  {
    var sorted := SortedDistinct(ys);
    var gaps := ComputeGaps(sorted);
    var selected := SelectLargestGaps(gaps, cuts);
    match selected
    case Failure(e) =>
      r := Failure(e);
    case Success(indices) =>
      r := Success(Sort(LowerEndpoints(sorted, indices)));
  }

  /** At least two distinct positions is the same as at least two sorted distinct values. */
  lemma TwoDistinctValues(ys: seq<int>)
    ensures TwoDistinct(ys) <==> |SortedDistinct(ys)| >= 2
  {
    var s := SortedDistinct(ys);
    if |s| >= 2 {
      assert s[0] in s && s[1] in s;
    }
    if TwoDistinct(ys) {
      var a, b :| a in ys && b in ys && a != b;
      assert a in s && b in s;
      var i :| 0 <= i < |s| && s[i] == a;
      var j :| 0 <= j < |s| && s[j] == b;
      assert i != j;
    }
  }

  /**
   * The selection fails exactly when a positive number of cuts is asked of
   * fewer than two distinct positions, and then with `NoSuchElementException`.
   */
  lemma CutPositionsFailure(ys: seq<int>, cuts: int)
    ensures CutPositions(ys, cuts).Failure? <==> cuts > 0 && !TwoDistinct(ys)
    ensures CutPositions(ys, cuts).Failure? ==> CutPositions(ys, cuts).error == NoSuchElementException
  {
    TwoDistinctValues(ys);
  }

  /**
   * A successful selection has exactly `cuts` boundaries (none for
   * `cuts <= 0`), in ascending order; each is one of the input positions
   * and never the largest one.
   */
  lemma CutPositionsShape(ys: seq<int>, cuts: int)
    requires CutPositions(ys, cuts).Success?
    ensures var r := CutPositions(ys, cuts).value;
      && |r| == (if cuts <= 0 then 0 else cuts)
      && Sorted(r)
      && forall v :: v in r ==> v in ys && exists y :: y in ys && v < y
  {
    var s := SortedDistinct(ys);
    var g := Gaps(s);
    if cuts > 0 {
      var p := Picks(g, cuts);
      var l := LowerEndpoints(s, p);
      var r := Sort(l);
      assert |r| == |multiset(r)| == |multiset(l)| == cuts;
      forall v | v in r
        ensures v in ys && exists y :: y in ys && v < y
      {
        assert v in multiset(l);
        var t :| 0 <= t < |l| && l[t] == v;
        assert s[|s| - 1] in s;
      }
    }
  }

  /** Only the set of distinct positions matters: order and repetition do not. */
  lemma CutPositionsDependOnValuesOnly(ys1: seq<int>, ys2: seq<int>, cuts: int)
    requires forall y :: y in ys1 <==> y in ys2
    ensures CutPositions(ys1, cuts) == CutPositions(ys2, cuts)
  {
    StrictlySortedUnique(SortedDistinct(ys1), SortedDistinct(ys2));
  }

  /** The positions recorded by the first `n` rounds, when all are different, pick different lower ends. */
  lemma DistinctLowerEndpoints(s: seq<int>, p: seq<nat>)
    requires StrictlySorted(s)
    requires forall t :: 0 <= t < |p| ==> p[t] < |s|
    requires Distinct(p)
    ensures Distinct(LowerEndpoints(s, p))
  {
    var l := LowerEndpoints(s, p);
    forall i, j | 0 <= i < j < |l|
      ensures l[i] != l[j]
    {
      assert p[i] != p[j];
      if p[i] < p[j] {
        assert s[p[i]] < s[p[j]];
      } else {
        assert s[p[j]] < s[p[i]];
      }
    }
  }

  /** The first `m` rounds record pairwise different positions while `m` does not exceed the gap count. */
  lemma DistinctPicks(g: seq<int>, n: nat, m: nat)
    requires |g| > 0 && AllPositive(g) && m <= n && m <= |g|
    ensures Distinct(Picks(g, n)[..m])
  {
    var p := Picks(g, n);
    forall i, j | 0 <= i < j < m
      ensures p[i] != p[j]
    {
      PicksRankGaps(g, n, j);
      assert p[i] in p[..j];
    }
  }

  /**
   * When no more cuts are asked for than there are gaps, the boundaries are
   * pairwise different; when more are asked for, some boundary repeats.
   */
  lemma CutPositionsDistinctIff(ys: seq<int>, cuts: int)
    requires TwoDistinct(ys) && cuts > 0
    ensures var r := CutPositions(ys, cuts);
      r.Success? && (StrictlySorted(r.value) <==> cuts < |SortedDistinct(ys)|)
  {
    TwoDistinctValues(ys);
    var s := SortedDistinct(ys);
    var g := Gaps(s);
    var p := Picks(g, cuts);
    if cuts < |s| {
      DistinctPicks(g, cuts, cuts);
      assert p[..cuts] == p;
      DistinctLowerEndpoints(s, p);
      SortDistinct(LowerEndpoints(s, p));
    } else {
      OverRequest(ys, cuts);
      var r := CutPositions(ys, cuts).value;
      assert r[0] == r[1] == s[0];
    }
  }

  /** Once every gap has been ranked, the lower ends reported are exactly those of all the gaps. */
  lemma HeadEndpoints(s: seq<int>, n: nat)
    requires StrictlySorted(s) && |s| >= 2 && |s| - 1 <= n
    ensures multiset(LowerEndpoints(s, Picks(Gaps(s), n)[..|s| - 1])) == multiset(s[..|s| - 1])
  {
    var g := Gaps(s);
    var m := |s| - 1;
    var q := Picks(g, n)[..m];
    PicksCoverAll(g, n);
    DistinctPicks(g, n, m);
    var head := LowerEndpoints(s, q);
    DistinctLowerEndpoints(s, q);
    forall x
      ensures x in head <==> x in s[..m]
    {
      if x in head {
        var t :| 0 <= t < m && head[t] == x;
        assert s[q[t]] == s[..m][q[t]];
      }
      if x in s[..m] {
        var j :| 0 <= j < m && s[..m][j] == x;
        assert j in q;
        var t :| 0 <= t < m && q[t] == j;
        assert head[t] == x;
      }
    }
    assert Distinct(s[..m]);
    SameValuesSameMultiset(head, s[..m]);
  }

  /** The rounds after every gap has been ranked report the smallest position. */
  lemma TailEndpoints(s: seq<int>, n: nat)
    requires StrictlySorted(s) && |s| >= 2 && |s| - 1 <= n
    ensures var p := Picks(Gaps(s), n);
      LowerEndpoints(s, p) == LowerEndpoints(s, p[..|s| - 1]) + Repeat(s[0], n - |s| + 1)
  {
    var g := Gaps(s);
    var p := Picks(g, n);
    forall t | |s| - 1 <= t < n
      ensures p[t] == 0
    {
      PicksRankGaps(g, n, t);
    }
  }

  /** Copies of the smallest value followed by the larger ones, but the last, are in order. */
  lemma RepeatThenRestSorted(s: seq<int>, k: nat)
    requires StrictlySorted(s) && |s| >= 2
    ensures Sorted(Repeat(s[0], k) + s[1..|s| - 1])
  {
    var c := Repeat(s[0], k) + s[1..|s| - 1];
    forall i, j | 0 <= i < j < |c|
      ensures c[i] <= c[j]
    {
      if j >= k {
        assert c[j] == s[j - k + 1];
        if i >= k {
          assert c[i] == s[i - k + 1];
        }
      }
    }
  }

  /** Sorting the lower ends of all gaps plus `k` copies of the smallest value. */
  lemma SortAllLowerEnds(s: seq<int>, l: seq<int>, k: nat)
    requires StrictlySorted(s) && |s| >= 2
    requires multiset(l) == multiset(s[..|s| - 1]) + multiset(Repeat(s[0], k))
    ensures Sort(l) == Repeat(s[0], k + 1) + s[1..|s| - 1]
  {
    var m := |s| - 1;
    var tail := Repeat(s[0], k);
    var c := Repeat(s[0], k + 1) + s[1..m];
    assert c == tail + s[..m] by {
      assert s[..m] == [s[0]] + s[1..m];
      assert Repeat(s[0], k + 1) == tail + [s[0]];
    }
    assert multiset(c) == multiset(tail) + multiset(s[..m]);
    RepeatThenRestSorted(s, k + 1);
    SortedUnique(Sort(l), c);
  }

  /** With `n` rounds over all the gaps of `s`, the lower ends are those of every gap plus copies of `s[0]`. */
  lemma AllLowerEnds(s: seq<int>, n: nat)
    requires StrictlySorted(s) && |s| >= 2 && |s| - 1 <= n
    ensures multiset(LowerEndpoints(s, Picks(Gaps(s), n)))
         == multiset(s[..|s| - 1]) + multiset(Repeat(s[0], n - |s| + 1))
  {
    var m := |s| - 1;
    var p := Picks(Gaps(s), n);
    var head := LowerEndpoints(s, p[..m]);
    var tail := Repeat(s[0], n - m);
    HeadEndpoints(s, n);
    TailEndpoints(s, n);
    assert LowerEndpoints(s, p) == head + tail;
  }

  /** With `n` rounds over all the gaps of `s`, the sorted lower ends are the copies of `s[0]` and then the rest. */
  lemma SortedOverRequest(s: seq<int>, n: nat)
    requires StrictlySorted(s) && |s| >= 2 && |s| - 1 <= n
    ensures Sort(LowerEndpoints(s, Picks(Gaps(s), n))) == Repeat(s[0], n - |s| + 2) + s[1..|s| - 1]
  {
    AllLowerEnds(s, n);
    SortAllLowerEnds(s, LowerEndpoints(s, Picks(Gaps(s), n)), n - |s| + 1);
  }

  /**
   * Asking for at least as many cuts as there are gaps: every gap's lower end
   * is reported once, and the rounds after the last gap add copies of the
   * smallest position (position 0 is picked again and again).
   */
  lemma OverRequest(ys: seq<int>, cuts: int)
    requires TwoDistinct(ys) && cuts >= |SortedDistinct(ys)| - 1
    ensures var s := SortedDistinct(ys);
      CutPositions(ys, cuts) == Success(Repeat(s[0], cuts - |s| + 2) + s[1..|s| - 1])
  {
    var s := SortedDistinct(ys);
    assert |s| >= 2 by {
      TwoDistinctValues(ys);
    }
    var g := Gaps(s);
    assert Sort(LowerEndpoints(s, Picks(g, cuts))) == Repeat(s[0], cuts - |s| + 2) + s[1..|s| - 1] by {
      SortedOverRequest(s, cuts);
    }
  }

  /** Two cuts over positions 10, 10, 50, 51, 200: the gaps 149 and 40 win, reported by their lower ends. */
  lemma ExampleTwoCuts(ys: seq<int>, cuts: int)
    requires ys == [10, 10, 50, 51, 200] && cuts == 2
    ensures CutPositions(ys, cuts) == Success([10, 51])
  {
    var s := SortedDistinct(ys);
    ExampleDistinctPositions(ys, s);
    var g := Gaps(s);
    ExampleGaps(s, g);
    var p := Picks(g, cuts);
    ExampleRanking(g, cuts);
    ExampleLowerEnds(s, p);
    ExampleSorted(LowerEndpoints(s, p));
  }

  lemma ExampleDistinctPositions(ys: seq<int>, s: seq<int>)
    requires ys == [10, 10, 50, 51, 200] && s == SortedDistinct(ys)
    ensures s == [10, 50, 51, 200]
  {
    var v := [10, 50, 51, 200];
    assert forall y :: y in ys <==> y in v;
    assert StrictlySorted(v);
    StrictlySortedUnique(s, v);
  }

  lemma ExampleGaps(s: seq<int>, g: seq<int>)
    requires s == [10, 50, 51, 200] && g == Gaps(s)
    ensures g == [40, 1, 149]
  {
  }

  lemma ExampleLowerEnds(s: seq<int>, p: seq<nat>)
    requires s == [10, 50, 51, 200] && p == [2, 0]
    ensures LowerEndpoints(s, p) == [51, 10]
  {
  }

  lemma ExampleSorted(l: seq<int>)
    requires l == [51, 10]
    ensures Sort(l) == [10, 51]
  {
    SortedUnique(Sort(l), [10, 51]);
  }

  /** The gaps 40, 1, 149 ranked twice: the 149 at position 2, then the 40 at position 0. */
  lemma ExampleRanking(g: seq<int>, n: nat)
    requires g == [40, 1, 149] && n == 2
    ensures Picks(g, n) == [2, 0]
  {
    assert Pick(g) == 2 by {
      assert g[2] <= g[Pick(g)];
    }
    assert State(g, 0) == g;
    var g1 := State(g, 1);
    assert g1 == [40, 1, 0];
    assert Pick(g1) == 0 by {
      assert g1[0] <= g1[Pick(g1)];
    }
  }

  /** Five cuts over two positions: one gap, so position 0 is picked five times. */
  lemma ExampleOverRequest(ys: seq<int>, cuts: int)
    requires ys == [1, 2] && cuts == 5
    ensures CutPositions(ys, cuts) == Success([1, 1, 1, 1, 1])
  {
    var s := SortedDistinct(ys);
    ExampleTwoPositions(ys, s);
    assert TwoDistinct(ys) by {
      assert ys[0] in ys && ys[1] in ys;
    }
    OverRequest(ys, cuts);
    var r := Repeat(s[0], cuts - |s| + 2);
    ExampleRepeat(s[0], cuts - |s| + 2);
    assert s[1..|s| - 1] == [];
    assert r + s[1..|s| - 1] == r;
  }

  lemma ExampleTwoPositions(ys: seq<int>, s: seq<int>)
    requires ys == [1, 2] && s == SortedDistinct(ys)
    ensures s == [1, 2]
  {
    var v := [1, 2];
    assert forall y :: y in ys <==> y in v;
    assert StrictlySorted(v);
    StrictlySortedUnique(s, v);
  }

  lemma ExampleRepeat(x: int, n: nat)
    requires x == 1 && n == 5
    ensures Repeat(x, n) == [1, 1, 1, 1, 1]
  {
    var r := Repeat(x, n);
    assert forall i :: 0 <= i < |r| ==> r[i] == 1;
  }

  /** One position leaves no gap: the selection fails. */
  lemma ExampleSinglePosition(ys: seq<int>, cuts: int)
    requires ys == [5] && cuts == 1
    ensures CutPositions(ys, cuts) == Failure(NoSuchElementException)
  {
    CutPositionsFailure(ys, cuts);
  }
}
