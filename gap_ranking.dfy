/**
 * The selection loop of `findCutPositions`: `cuts` times, take the first
 * position of the largest gap (`Collections.max` then `List.indexOf`),
 * record it, and overwrite that gap with 0.
 *
 * `State(g0, n)` is the gap list after `n` rounds and `Picks(g0, n)` the
 * positions recorded in them. The lemmas show that, when every gap is
 * positive, the first `|g0|` rounds rank the gaps from largest to smallest
 * (ties broken by lower position) and every later round picks position 0.
 */
module GapRanking {

  /** `Collections.max`: a largest element of a non-empty list. */
  function MaxOf(g: seq<int>): (m: int)
    requires |g| > 0
    ensures m in g
    ensures forall x :: x in g ==> x <= m
  {
    if |g| == 1 then g[0]
    else
      var rest := MaxOf(g[1..]);
      assert g == [g[0]] + g[1..];
      if g[0] > rest then g[0] else rest
  }

  /** `List.indexOf`: the first position holding `v`. */
  function IndexOf(g: seq<int>, v: int): (k: nat)
    requires v in g
    ensures k < |g| && g[k] == v
    ensures v !in g[..k]
  {
    if g[0] == v then 0
    else
      assert g == [g[0]] + g[1..];
      var k := IndexOf(g[1..], v);
      assert g[..k + 1] == [g[0]] + g[1..][..k];
      k + 1
  }

  /**
   * One round's choice: the first position of the largest gap. No gap is
   * larger, and every gap before it is strictly smaller.
   */
  function Pick(g: seq<int>): (k: nat)
    requires |g| > 0
    ensures k < |g|
    ensures forall j :: 0 <= j < |g| ==> g[j] <= g[k]
    ensures forall j :: 0 <= j < k ==> g[j] < g[k]
  {
    var m := MaxOf(g);
    var k := IndexOf(g, m);
    assert forall j :: 0 <= j < |g| ==> g[j] in g;
    assert forall j :: 0 <= j < k ==> g[j] in g[..k];
    k
  }

  /** The gap list after `n` rounds, each of which zeroes the gap it picks. */
  function State(g0: seq<int>, n: nat): (g: seq<int>)
    requires |g0| > 0
    ensures |g| == |g0|
  {
    if n == 0 then g0
    else
      var prev := State(g0, n - 1);
      prev[Pick(prev) := 0]
  }

  /** The positions recorded in the first `n` rounds, in order. */
  function Picks(g0: seq<int>, n: nat): (p: seq<nat>)
    requires |g0| > 0
    ensures |p| == n
    ensures forall t :: 0 <= t < n ==> p[t] < |g0|
  {
    if n == 0 then []
    else Picks(g0, n - 1) + [Pick(State(g0, n - 1))]
  }

  /** Counts the positive gaps, those not yet zeroed. */
  function CountPositive(g: seq<int>): nat {
    if |g| == 0 then 0
    else (if g[0] > 0 then 1 else 0) + CountPositive(g[1..])
  }

  predicate AllPositive(g: seq<int>) {
    forall i :: 0 <= i < |g| ==> g[i] > 0
  }

  /** The first rounds are recorded identically whatever the round count. */
  lemma {:induction false} PicksPrefix(g0: seq<int>, n: nat, t: nat)
    requires |g0| > 0 && t <= n
    ensures Picks(g0, n)[..t] == Picks(g0, t)
  {
    if t < n {
      PicksPrefix(g0, n - 1, t);
      assert Picks(g0, n)[..n - 1] == Picks(g0, n - 1);
    }
  }

  /** Round `t` records the pick made on the state after `t` rounds. */
  lemma PickAt(g0: seq<int>, n: nat, t: nat)
    requires |g0| > 0 && t < n
    ensures Picks(g0, n)[t] == Pick(State(g0, t))
  {
    PicksPrefix(g0, n, t + 1);
    assert Picks(g0, n)[t] == Picks(g0, n)[..t + 1][t];
  }

  /** After `n` rounds exactly the recorded positions are zeroed; the other gaps are untouched. */
  lemma {:induction false} StateZeroesPicks(g0: seq<int>, n: nat)
    requires |g0| > 0
    ensures forall j :: 0 <= j < |g0| ==> State(g0, n)[j] == if j in Picks(g0, n) then 0 else g0[j]
  {
    if n > 0 {
      StateZeroesPicks(g0, n - 1);
      var prev := State(g0, n - 1);
      var k := Pick(prev);
      assert Picks(g0, n) == Picks(g0, n - 1) + [k];
      forall j | 0 <= j < |g0|
        ensures State(g0, n)[j] == if j in Picks(g0, n) then 0 else g0[j]
      {
        assert j in Picks(g0, n) <==> j in Picks(g0, n - 1) || j == k;
      }
    }
  }

  lemma {:induction false} CountAllPositive(g: seq<int>)
    requires AllPositive(g)
    ensures CountPositive(g) == |g|
  {
    if |g| > 0 {
      CountAllPositive(g[1..]);
    }
  }

  /** Zeroing one positive gap leaves one positive gap fewer. */
  lemma {:induction false} CountAfterZeroing(g: seq<int>, k: nat)
    requires k < |g| && g[k] > 0
    ensures CountPositive(g[k := 0]) == CountPositive(g) - 1
  {
    if k == 0 {
      assert g[k := 0][1..] == g[1..];
    } else {
      assert g[k := 0][1..] == g[1..][k - 1 := 0];
      CountAfterZeroing(g[1..], k - 1);
    }
  }

  /** A positive count means some gap is still positive. */
  lemma {:induction false} CountWitness(g: seq<int>) returns (j: nat)
    requires CountPositive(g) > 0
    ensures j < |g| && g[j] > 0
  {
    if g[0] > 0 {
      j := 0;
    } else {
      var i := CountWitness(g[1..]);
      j := i + 1;
    }
  }

  /** A zero count means no gap is positive. */
  lemma {:induction false} CountZero(g: seq<int>)
    requires CountPositive(g) == 0
    ensures forall j :: 0 <= j < |g| ==> g[j] <= 0
  {
    if |g| > 0 {
      CountZero(g[1..]);
      assert forall j :: 1 <= j < |g| ==> g[j] == g[1..][j - 1];
    }
  }

  /** With positive gaps, each of the first `|g0|` rounds zeroes a gap that was still positive. */
  lemma {:induction false} CountOfState(g0: seq<int>, n: nat)
    requires |g0| > 0 && AllPositive(g0) && n <= |g0|
    ensures CountPositive(State(g0, n)) == |g0| - n
  {
    if n == 0 {
      CountAllPositive(g0);
    } else {
      CountOfState(g0, n - 1);
      var prev := State(g0, n - 1);
      var j := CountWitness(prev);
      CountAfterZeroing(prev, Pick(prev));
    }
  }

  /** Once every gap is zero, zeroing changes nothing and position 0 is picked. */
  lemma {:induction false} ExhaustedState(g0: seq<int>, n: nat)
    requires |g0| > 0 && AllPositive(g0) && |g0| <= n
    ensures forall j :: 0 <= j < |g0| ==> State(g0, n)[j] == 0
    ensures Pick(State(g0, n)) == 0
  {
    if n == |g0| {
      CountOfState(g0, n);
      CountZero(State(g0, n));
      StateZeroesPicks(g0, n);
    } else {
      ExhaustedState(g0, n - 1);
    }
    var g := State(g0, n);
    assert Pick(g) > 0 ==> g[0] < g[Pick(g)];
  }

  /**
   * Ranking: with positive gaps, round `t < |g0|` records a position not
   * recorded before; its gap is at least every gap not yet recorded, and
   * strictly larger than every unrecorded gap at a lower position. Every
   * round from `|g0|` on records position 0.
   */
  lemma {:induction false} PicksRankGaps(g0: seq<int>, n: nat, t: nat)
    requires |g0| > 0 && AllPositive(g0) && t < n
    ensures var p := Picks(g0, n);
      t < |g0| ==>
        && p[t] !in p[..t]
        && (forall j :: 0 <= j < |g0| && j !in p[..t] ==> g0[j] <= g0[p[t]])
        && (forall j :: 0 <= j < p[t] && j !in p[..t] ==> g0[j] < g0[p[t]])
    ensures |g0| <= t ==> Picks(g0, n)[t] == 0
  {
    PickAt(g0, n, t);
    PicksPrefix(g0, n, t);
    var g := State(g0, t);
    if t < |g0| {
      CountOfState(g0, t);
      var j := CountWitness(g);
      StateZeroesPicks(g0, t);
    } else {
      ExhaustedState(g0, t);
    }
  }

  /**
   * The first `min(n, |g0|)` rounds list gaps in non-increasing size, and
   * equal gaps in ascending position.
   */
  lemma PicksNonIncreasing(g0: seq<int>, n: nat, t: nat, s: nat)
    requires |g0| > 0 && AllPositive(g0) && t < s < n && s < |g0|
    ensures var p := Picks(g0, n);
      g0[p[s]] <= g0[p[t]] && (g0[p[s]] == g0[p[t]] ==> p[t] < p[s])
  {
    var p := Picks(g0, n);
    PicksRankGaps(g0, n, t);
    PicksRankGaps(g0, n, s);
    assert p[s] !in p[..t] by {
      assert p[..t] == p[..s][..t];
    }
  }

  /** Once `|g0|` rounds have run, every position has been recorded exactly once. */
  lemma PicksCoverAll(g0: seq<int>, n: nat)
    requires |g0| > 0 && AllPositive(g0) && |g0| <= n
    ensures forall j: int :: 0 <= j < |g0| ==> j in Picks(g0, n)[..|g0|]
  {
    PicksPrefix(g0, n, |g0|);
    ExhaustedState(g0, |g0|);
    StateZeroesPicks(g0, |g0|);
  }
}
