/**
 * The per-stint figures of app20.py: total time, best lap and median lap
 * of a non-empty group of lap times (pandas' `sum`, `min` and `median`).
 */
module StintStatistics {
  import opened Sorting

  function Sum(xs: seq<real>): real
  {
    if xs == [] then 0.0 else Sum(xs[..|xs| - 1]) + xs[|xs| - 1]
  }

  /** The smallest lap time of the group. */
  function Min(xs: seq<real>): real
    requires |xs| > 0
  {
    if |xs| == 1 then xs[0]
    else
      var m := Min(xs[1..]);
      if xs[0] <= m then xs[0] else m
  }

  /** The smallest lap time is one of the group and no lap is faster. */
  lemma {:induction false} MinLeast(xs: seq<real>)
    requires |xs| > 0
    ensures Min(xs) in xs
    ensures forall i :: 0 <= i < |xs| ==> Min(xs) <= xs[i]
  {
    if |xs| > 1 {
      MinLeast(xs[1..]);
      assert forall i :: 1 <= i < |xs| ==> xs[i] == xs[1..][i - 1];
    }
  }

  /** The largest lap time of the group. */
  function Max(xs: seq<real>): real
    requires |xs| > 0
  {
    if |xs| == 1 then xs[0]
    else
      var m := Max(xs[1..]);
      if xs[0] >= m then xs[0] else m
  }

  /** The largest lap time is one of the group and no lap is slower. */
  lemma {:induction false} MaxGreatest(xs: seq<real>)
    requires |xs| > 0
    ensures Max(xs) in xs
    ensures forall i :: 0 <= i < |xs| ==> xs[i] <= Max(xs)
  {
    if |xs| > 1 {
      MaxGreatest(xs[1..]);
      assert forall i :: 1 <= i < |xs| ==> xs[i] == xs[1..][i - 1];
    }
  }

  /** A lap time as its own sort key. */
  function Identity(x: real): real
  {
    x
  }

  /**
   * pandas' `median`: the middle value of the sorted group, or the mean of
   * the two middle values when the group has an even size.
   */
  function Median(xs: seq<real>): real
    requires |xs| > 0
  {
    var s := SortBy(xs, Identity);
    SortByOrderedPermutation(xs, Identity);
    var n := |s|;
    if n % 2 == 1 then s[n / 2] else (s[n / 2 - 1] + s[n / 2]) / 2.0
  }

  /**
   * The median lies between the fastest and the slowest lap, and for an odd
   * number of laps it is the time of one of them.
   */
  lemma MedianBounds(xs: seq<real>)
    requires |xs| > 0
    ensures Min(xs) <= Median(xs) <= Max(xs)
    ensures |xs| % 2 == 1 ==> Median(xs) in xs
  {
    var s := SortBy(xs, Identity);
    SortByOrderedPermutation(xs, Identity);
    MinLeast(xs);
    MaxGreatest(xs);
    forall k | 0 <= k < |s| ensures s[k] in xs && Min(xs) <= s[k] <= Max(xs) {
      assert s[k] in multiset(s);
    }
  }

  /** The total of `n` laps that each take `x` seconds. */
  function Repeated(n: nat, x: real): real
  {
    if n == 0 then 0.0 else Repeated(n - 1, x) + x
  }

  lemma {:induction false} RepeatedMonotone(n: nat, a: real, b: real)
    requires a <= b
    ensures Repeated(n, a) <= Repeated(n, b)
  {
    if n > 0 {
      RepeatedMonotone(n - 1, a, b);
    }
  }

  /**
   * The total stint time lies between the time of as many laps at the best
   * lap time and the time of as many laps at the slowest lap time.
   */
  lemma {:induction false} SumBounds(xs: seq<real>)
    requires |xs| > 0
    ensures Repeated(|xs|, Min(xs)) <= Sum(xs) <= Repeated(|xs|, Max(xs))
  {
    if |xs| > 1 {
      var init, last := xs[..|xs| - 1], xs[|xs| - 1];
      SumBounds(init);
      assert forall i :: 0 <= i < |init| ==> init[i] == xs[i];
      MinLeast(xs);
      MinLeast(init);
      MaxGreatest(xs);
      MaxGreatest(init);
      assert Min(xs) <= Min(init) && Max(init) <= Max(xs);
      RepeatedMonotone(|init|, Min(xs), Min(init));
      RepeatedMonotone(|init|, Max(init), Max(xs));
    }
  }
}
