/**
 * `pickEvenly(arr, M)`: choose M elements of a list at evenly spaced positions,
 * keeping the first and the last.
 */
module EvenSampling {

  /** `a / d` is the whole number of times `d` fits in `a`. */
  lemma DivBounds(a: int, d: int)
    requires d > 0
    ensures d * (a / d) <= a < d * (a / d) + d
  {
  }

  lemma {:induction false} MulLessCancel(d: int, x: int, y: int)
    requires d > 0 && d * x < d * y
    ensures x < y
  {
    assert d * (y - x) == d * y - d * x;
  }

  /**
   * `Math.round(j * step)` for `step = (n - 1) / (m - 1)`, in exact arithmetic: the integer
   * `idx` with `idx - 1/2 <= j * step < idx + 1/2`.
   */
  function RoundedIndex(n: nat, m: nat, j: nat): (idx: int)
    requires m >= 2
    ensures 2 * (m - 1) * idx <= 2 * j * (n - 1) + (m - 1) < 2 * (m - 1) * idx + 2 * (m - 1)
  {
    DivBounds(2 * j * (n - 1) + (m - 1), 2 * (m - 1));
    (2 * j * (n - 1) + (m - 1)) / (2 * (m - 1))
  }

  /** With fewer picks than elements the step exceeds 1, so consecutive indices differ by at least 1. */
  lemma RoundedIndexStep(n: nat, m: nat, j: nat)
    requires 2 <= m < n
    ensures RoundedIndex(n, m, j) < RoundedIndex(n, m, j + 1)
  {
    var d := 2 * (m - 1);
    var a := 2 * j * (n - 1) + (m - 1);
    var a' := 2 * (j + 1) * (n - 1) + (m - 1);
    assert a' == a + 2 * (n - 1);
    var x, y := RoundedIndex(n, m, j), RoundedIndex(n, m, j + 1);
    assert d * x <= a;
    assert a' < d * y + d;
    assert d * x + d < d * y + d;
    MulLessCancel(d, x, y);
  }

  /** The rounded indices strictly increase with `j`. */
  lemma {:induction false} RoundedIndexIncreasing(n: nat, m: nat, i: nat, j: nat)
    requires 2 <= m < n && i < j
    ensures RoundedIndex(n, m, i) < RoundedIndex(n, m, j)
    decreases j - i
  {
    RoundedIndexStep(n, m, i);
    if i + 1 < j {
      RoundedIndexIncreasing(n, m, i + 1, j);
    }
  }

  /** The first pick is index 0 and the last is index n - 1. */
  lemma RoundedIndexEnds(n: nat, m: nat)
    requires 2 <= m < n
    ensures RoundedIndex(n, m, 0) == 0
    ensures RoundedIndex(n, m, m - 1) == n - 1
  {
    var d := 2 * (m - 1);
    var x := RoundedIndex(n, m, m - 1);
    assert 2 * (m - 1) * (n - 1) == d * (n - 1);
    assert d * x <= d * (n - 1) + (m - 1) < d * x + d;
    assert d * (n - 1) < d * x + d;
    assert d * x < d * (n - 1) + d;
    MulLessCancel(d, n - 1, x + 1);
    MulLessCancel(d, x, n);
    var z := RoundedIndex(n, m, 0);
    assert d * z <= m - 1 < d * z + d;
    assert d * z < d * 1;
    MulLessCancel(d, z, 1);
    assert d * 0 < d * (z + 1);
    MulLessCancel(d, 0, z + 1);
  }

  /** Every rounded index of a pick lies between the first and the last position. */
  lemma RoundedIndexInRange(n: nat, m: nat, j: nat)
    requires 2 <= m < n && j < m
    ensures 0 <= RoundedIndex(n, m, j) < n
  {
    RoundedIndexEnds(n, m);
    if 0 < j {
      RoundedIndexIncreasing(n, m, 0, j);
    }
    if j < m - 1 {
      RoundedIndexIncreasing(n, m, j, m - 1);
    }
  }

  /** The position of the `j`-th pick when `2 <= m < n`: always a valid index, so the clamps never act. */
  function EvenIndex(n: nat, m: nat, j: nat): (idx: nat)
    requires 2 <= m < n && j < m
    ensures idx < n && idx == RoundedIndex(n, m, j)
  {
    RoundedIndexInRange(n, m, j);
    RoundedIndex(n, m, j)
  }

  /**
   * What `pickEvenly(arr, m)` returns: a copy of `arr` when `m >= |arr|`, otherwise the
   * elements at the `m` rounded, evenly spaced positions.
   */
  function EvenSample<T>(arr: seq<T>, m: nat): seq<T>
    requires m >= |arr| || m >= 2
  {
    if m >= |arr| then arr
    else seq(m, j requires 0 <= j < m => arr[EvenIndex(|arr|, m, j)])
  }

  /**
   * The sample has `min(m, |arr|)` elements, taken at strictly increasing positions
   * of `arr`, the first of them at position 0 and the last at position `|arr| - 1`.
   */
  lemma EvenSampleSpec<T>(arr: seq<T>, m: nat)
    requires 2 <= m < |arr|
    ensures |EvenSample(arr, m)| == m
    ensures forall j :: 0 <= j < m ==> EvenSample(arr, m)[j] == arr[EvenIndex(|arr|, m, j)]
    ensures forall i, j :: 0 <= i < j < m ==> EvenIndex(|arr|, m, i) < EvenIndex(|arr|, m, j)
    ensures EvenIndex(|arr|, m, 0) == 0 && EvenIndex(|arr|, m, m - 1) == |arr| - 1
    ensures EvenSample(arr, m)[0] == arr[0] && EvenSample(arr, m)[m - 1] == arr[|arr| - 1]
  {
    forall i, j | 0 <= i < j < m
      ensures EvenIndex(|arr|, m, i) < EvenIndex(|arr|, m, j)
    {
      RoundedIndexIncreasing(|arr|, m, i, j);
    }
    RoundedIndexEnds(|arr|, m);
  }

  /** The picks and the `used` set that `pickEvenly` keeps while it works. */
  datatype Picks<T> = Picks(chosen: seq<T>, used: set<int>)

  /** `idx` limited to `0 .. n - 1`, as the two `if`s after `Math.round` do. */
  function Clamp(idx: int, n: nat): (r: int)
    requires n > 0
    ensures 0 <= r < n
  {
    if idx < 0 then 0 else if idx > n - 1 then n - 1 else idx
  }

  /** The state after `j` turns of `pickEvenly`'s first loop (one rounded index per turn). */
  function FirstPass<T>(arr: seq<T>, m: nat, j: nat): Picks<T>
    requires 2 <= m < |arr| && j <= m
  {
    if j == 0 then Picks([], {})
    else
      var p := FirstPass(arr, m, j - 1);
      var idx := Clamp(RoundedIndex(|arr|, m, j - 1), |arr|);
      if idx in p.used then p else Picks(p.chosen + [arr[idx]], p.used + {idx})
  }

  /** What `pickEvenly`'s second loop adds from position `i` on: the lowest unused indices, until `m` picks. */
  function FillFrom<T>(arr: seq<T>, m: nat, p: Picks<T>, i: nat): seq<T>
    requires i <= |arr|
    decreases |arr| - i
  {
    if |p.chosen| >= m || i >= |arr| then p.chosen
    else if i in p.used then FillFrom(arr, m, p, i + 1)
    else FillFrom(arr, m, Picks(p.chosen + [arr[i]], p.used + {i}), i + 1)
  }

  /** The first loop never meets an index twice, so it picks exactly the evenly spaced elements. */
  lemma {:induction false} FirstPassPicksEvenly<T>(arr: seq<T>, m: nat, j: nat)
    requires 2 <= m < |arr| && j <= m
    ensures |FirstPass(arr, m, j).chosen| == j
    ensures forall k :: 0 <= k < j ==> FirstPass(arr, m, j).chosen[k] == arr[EvenIndex(|arr|, m, k)]
    ensures forall x :: x in FirstPass(arr, m, j).used ==> 0 < j && x <= EvenIndex(|arr|, m, j - 1)
  {
    if j > 0 {
      var n := |arr|;
      FirstPassPicksEvenly(arr, m, j - 1);
      var p := FirstPass(arr, m, j - 1);
      var idx := EvenIndex(n, m, j - 1);
      assert Clamp(RoundedIndex(n, m, j - 1), n) == idx;
      if j > 1 {
        RoundedIndexStep(n, m, j - 2);
      }
      assert idx !in p.used;
    }
  }

  /** The second loop has nothing to add once there are `m` picks. */
  lemma FillFromComplete<T>(arr: seq<T>, m: nat, p: Picks<T>, i: nat)
    requires i <= |arr| && |p.chosen| >= m
    ensures FillFrom(arr, m, p, i) == p.chosen
  {
  }

  /**
   * `pickEvenly(arr, M)`: a copy when `M >= N`; otherwise the first loop takes the element at
   * each rounded position `round(j * (N - 1) / (M - 1))` not taken yet, and the second loop
   * tops the picks up with the lowest unused positions. No caller passes `M = 1`, where the
   * step would divide by zero.
   */
  method PickEvenly<T>(arr: seq<T>, m: nat) returns (chosen: seq<T>)
    requires m >= |arr| || m >= 2
    ensures chosen == EvenSample(arr, m)
  {
    var n := |arr|;
    if m >= n {
      return arr;
    }
    chosen := [];
    var used: set<int> := {};
    var j := 0;
    while j < m
      invariant 0 <= j <= m
      invariant Picks(chosen, used) == FirstPass(arr, m, j)
    {
      var idx := RoundedIndex(n, m, j);
      if idx < 0 {
        idx := 0;
      }
      if idx > n - 1 {
        idx := n - 1;
      }
      if idx !in used {
        used := used + {idx};
        chosen := chosen + [arr[idx]];
      }
      j := j + 1;
    }
    var i := 0;
    while |chosen| < m && i < n
      invariant 0 <= i <= n
      invariant FillFrom(arr, m, Picks(chosen, used), i) == FillFrom(arr, m, FirstPass(arr, m, m), 0)
    {
      if i !in used {
        used := used + {i};
        chosen := chosen + [arr[i]];
      }
      i := i + 1;
    }
    FirstPassPicksEvenly(arr, m, m);
    FillFromComplete(arr, m, FirstPass(arr, m, m), 0);
  }
}
