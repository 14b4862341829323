/** Array utilities: running maximum and minimum, table interpolation,
    evenly spaced ranges and subsampling of output vectors. */
module Util {
  import opened Wrappers
  import Reals

  /** r is one of the elements of s and no element of s exceeds it. */
  ghost predicate IsMaxOf(r: real, s: seq<real>) {
    (exists i :: 0 <= i < |s| && s[i] == r) && forall i :: 0 <= i < |s| ==> s[i] <= r
  }

  /** r is one of the elements of s and no element of s is below it. */
  ghost predicate IsMinOf(r: real, s: seq<real>) {
    (exists i :: 0 <= i < |s| && s[i] == r) && forall i :: 0 <= i < |s| ==> r <= s[i]
  }

  /** Largest of the first n entries of a. The running value starts at zero;
      a first pass lowers it to the least element (if that is negative), so that
      the second pass, which only raises it, ends at the largest element. */
  method Max(a: array<real>, n: nat) returns (r: real)
    requires n <= a.Length
    ensures n == 0 ==> r == 0.0
    ensures n > 0 ==> IsMaxOf(r, a[..n])
  {
    r := 0.0;
    var i := 0;
    while i < n
      invariant 0 <= i <= n
      invariant r <= 0.0
      invariant forall j :: 0 <= j < i ==> r <= a[j]
      invariant r == 0.0 || exists j :: 0 <= j < i && a[j] == r
    {
      if a[i] < r { r := a[i]; }
      i := i + 1;
    }
    ghost var low := r;
    i := 0;
    while i < n
      invariant 0 <= i <= n
      invariant low <= r
      invariant forall j :: 0 <= j < n ==> low <= a[j]
      invariant forall j :: 0 <= j < i ==> a[j] <= r
      invariant r == low || exists j :: 0 <= j < i && a[j] == r
    {
      if a[i] > r { r := a[i]; }
      i := i + 1;
    }
    if n > 0 && r == low && low == 0.0 {
      assert a[0] == r;
    }
    assert forall j :: 0 <= j < n ==> a[..n][j] == a[j];
  }

  /** Smallest of the first n entries of a, by the mirror image of Max. */
  method Min(a: array<real>, n: nat) returns (r: real)
    requires n <= a.Length
    ensures n == 0 ==> r == 0.0
    ensures n > 0 ==> IsMinOf(r, a[..n])
  {
    r := 0.0;
    var i := 0;
    while i < n
      invariant 0 <= i <= n
      invariant 0.0 <= r
      invariant forall j :: 0 <= j < i ==> a[j] <= r
      invariant r == 0.0 || exists j :: 0 <= j < i && a[j] == r
    {
      if a[i] > r { r := a[i]; }
      i := i + 1;
    }
    ghost var high := r;
    i := 0;
    while i < n
      invariant 0 <= i <= n
      invariant r <= high
      invariant forall j :: 0 <= j < n ==> a[j] <= high
      invariant forall j :: 0 <= j < i ==> r <= a[j]
      invariant r == high || exists j :: 0 <= j < i && a[j] == r
    {
      if a[i] < r { r := a[i]; }
      i := i + 1;
    }
    if n > 0 && r == high && high == 0.0 {
      assert a[0] == r;
    }
    assert forall j :: 0 <= j < n ==> a[..n][j] == a[j];
  }

  // ---------------------------------------------------------------------------
  // interpolation

  ghost predicate StrictlyIncreasing(x: seq<real>) {
    forall i, j :: 0 <= i < j < |x| ==> x[i] < x[j]
  }

  /** The straight line through samples i and i+1, evaluated at xx. */
  function Blend(x: seq<real>, y: seq<real>, i: nat, xx: real): real
    requires i + 1 < |x| && i + 1 < |y| && x[i + 1] != x[i]
  {
    y[i] + (xx - x[i]) * (y[i + 1] - y[i]) / (x[i + 1] - x[i])
  }

  /** The bracket search from sample i on: the first bracket [x[j], x[j+1]] holding xx
      gives the blend (NaN, here None, when the bracket has zero width); past the last
      bracket the last sample value is returned. */
  function InterpScan(x: seq<real>, y: seq<real>, xx: real, i: nat): Option<real>
    requires 1 <= |x| == |y| && i < |x|
    decreases |x| - i
  {
    if i + 1 >= |x| then Some(y[|y| - 1])
    else if x[i] <= xx && xx <= x[i + 1] then
      (if x[i + 1] == x[i] then None else Some(Blend(x, y, i, xx)))
    else InterpScan(x, y, xx, i + 1)
  }

  /** Table interpolation with flat extrapolation below the first sample. */
  function InterpTable(x: seq<real>, y: seq<real>, xx: real): Option<real>
    requires 1 <= |x| == |y|
  {
    if xx <= x[0] then Some(y[0]) else InterpScan(x, y, xx, 0)
  }

  /** Linear interpolation in the first n samples of the table (x, y). */
  method Interp(x: array<real>, y: array<real>, xx: real, n: nat) returns (r: Option<real>)
    requires 1 <= n <= x.Length && n <= y.Length
    ensures r == InterpTable(x[..n], y[..n], xx)
  {
    ghost var xs, ys := x[..n], y[..n];
    if xx <= x[0] {
      return Some(y[0]);
    }
    var i := 0;
    while i < n - 1
      invariant 0 <= i <= n - 1
      invariant InterpTable(xs, ys, xx) == InterpScan(xs, ys, xx, i)
    {
      if xx >= x[i] && xx <= x[i + 1] {
        assert xs[i] == x[i] && xs[i + 1] == x[i + 1] && ys[i] == y[i] && ys[i + 1] == y[i + 1];
        if x[i + 1] == x[i] {
          return None;
        }
        var x0, x1, y0, y1 := x[i], x[i + 1], y[i], y[i + 1];
        r := Some(y0 + (xx - x0) * (y1 - y0) / (x1 - x0));
        assert Blend(xs, ys, i, xx) == y0 + (xx - x0) * (y1 - y0) / (x1 - x0);
        assert InterpScan(xs, ys, xx, i) == Some(Blend(xs, ys, i, xx));
        return;
      }
      i := i + 1;
    }
    return Some(y[n - 1]);
  }

  lemma InterpBelow(x: seq<real>, y: seq<real>, xx: real)
    requires 1 <= |x| == |y| && xx <= x[0]
    ensures InterpTable(x, y, xx) == Some(y[0])
  {
  }

  lemma {:induction false} ScanAbove(x: seq<real>, y: seq<real>, xx: real, i: nat)
    requires 1 <= |x| == |y| && i < |x| && xx > x[|x| - 1]
    requires StrictlyIncreasing(x)
    ensures InterpScan(x, y, xx, i) == Some(y[|y| - 1])
    decreases |x| - i
  {
    if i + 1 < |x| {
      assert x[i + 1] <= x[|x| - 1];
      ScanAbove(x, y, xx, i + 1);
    }
  }

  /** Above the last sample the table is extended flat by its last value. */
  lemma InterpAbove(x: seq<real>, y: seq<real>, xx: real)
    requires 1 <= |x| == |y| && StrictlyIncreasing(x) && xx > x[|x| - 1]
    ensures InterpTable(x, y, xx) == Some(y[|y| - 1])
  {
    if xx > x[0] { ScanAbove(x, y, xx, 0); }
  }

  lemma BlendAtLeft(x: seq<real>, y: seq<real>, i: nat)
    requires i + 1 < |x| && i + 1 < |y| && x[i + 1] != x[i]
    ensures Blend(x, y, i, x[i]) == y[i]
  {
  }

  lemma BlendAtRight(x: seq<real>, y: seq<real>, i: nat)
    requires i + 1 < |x| && i + 1 < |y| && x[i + 1] != x[i]
    ensures Blend(x, y, i, x[i + 1]) == y[i + 1]
  {
    var d := x[i + 1] - x[i];
    calc {
      Blend(x, y, i, x[i + 1]);
      y[i] + d * (y[i + 1] - y[i]) / d;
      y[i] + (y[i + 1] - y[i]);
    }
  }

  lemma {:induction false} ScanBracket(x: seq<real>, y: seq<real>, xx: real, j: nat, i: nat)
    requires 1 <= |x| == |y| && StrictlyIncreasing(x)
    requires j <= i && i + 1 < |x| && x[i] <= xx <= x[i + 1]
    ensures InterpScan(x, y, xx, j) == Some(Blend(x, y, i, xx))
    decreases i - j
  {
    if j < i {
      if x[j] <= xx <= x[j + 1] {
        // only possible when xx == x[j+1] == x[i]: both blends give y[i]
        assert j + 1 == i && xx == x[i];
        BlendAtRight(x, y, j);
        BlendAtLeft(x, y, i);
      } else {
        ScanBracket(x, y, xx, j + 1, i);
      }
    }
  }

  /** Inside a bracket the result is the linear blend of its two samples. */
  lemma InterpInBracket(x: seq<real>, y: seq<real>, xx: real, i: nat)
    requires 1 <= |x| == |y| && StrictlyIncreasing(x)
    requires i + 1 < |x| && x[i] <= xx <= x[i + 1]
    ensures InterpTable(x, y, xx) == Some(Blend(x, y, i, xx))
  {
    if xx <= x[0] {
      assert i == 0 && xx == x[0];
      BlendAtLeft(x, y, 0);
    } else {
      ScanBracket(x, y, xx, 0, i);
    }
  }

  /** At every sample abscissa the table returns the sample value exactly. */
  lemma InterpAtSample(x: seq<real>, y: seq<real>, i: nat)
    requires 1 <= |x| == |y| && StrictlyIncreasing(x) && i < |x|
    ensures InterpTable(x, y, x[i]) == Some(y[i])
  {
    if i + 1 < |x| {
      InterpInBracket(x, y, x[i], i);
      BlendAtLeft(x, y, i);
    } else if i > 0 {
      InterpInBracket(x, y, x[i], i - 1);
      BlendAtRight(x, y, i - 1);
    }
  }

  /** A blend at a point of its bracket lies between the bracket's two values. */
  lemma BlendBetween(x: seq<real>, y: seq<real>, i: nat, xx: real)
    requires i + 1 < |x| && i + 1 < |y| && x[i] <= xx <= x[i + 1] && x[i] < x[i + 1]
    ensures y[i] <= y[i + 1] ==> y[i] <= Blend(x, y, i, xx) <= y[i + 1]
    ensures y[i + 1] <= y[i] ==> y[i + 1] <= Blend(x, y, i, xx) <= y[i]
  {
    Reals.ShareBetween(xx - x[i], y[i + 1] - y[i], x[i + 1] - x[i], y[i], Blend(x, y, i, xx));
  }

  /** Inside a bracket the result lies between the bracket's two sample values. */
  lemma InterpBetween(x: seq<real>, y: seq<real>, xx: real, i: nat)
    requires 1 <= |x| == |y| && StrictlyIncreasing(x)
    requires i + 1 < |x| && x[i] <= xx <= x[i + 1]
    ensures InterpTable(x, y, xx).Some?
    ensures var v := InterpTable(x, y, xx).value;
      (y[i] <= y[i + 1] ==> y[i] <= v <= y[i + 1]) &&
      (y[i + 1] <= y[i] ==> y[i + 1] <= v <= y[i])
  {
    InterpInBracket(x, y, xx, i);
    assert x[i] < x[i + 1];
    BlendBetween(x, y, i, xx);
  }

  // ---------------------------------------------------------------------------
  // ranges

  /** The i-th of n >= 2 evenly spaced values from a to b. */
  function Spaced(a: real, b: real, n: int, i: int): real
    requires n >= 2
  {
    a + (i as real) * ((b - a) / ((n - 1) as real))
  }

  /** Evenly spaced values. A single value is allowed only for a degenerate range. */
  method Linspace(a: real, b: real, n: int) returns (r: Result<seq<real>>)
    ensures r.Ok? <==> (n != 1 || a == b)
    ensures n == 1 && a == b ==> r == Ok([a])
    ensures n <= 0 ==> r == Ok([])
    ensures n >= 2 ==> r.Ok? && |r.value| == n && forall i :: 0 <= i < n ==> r.value[i] == Spaced(a, b, n, i)
  {
    if n == 1 {
      if a != b {
        return Fail("FAILURE: cannot linspace with a single value if the range limits are not identical");
      }
      return Ok([a]);
    }
    var h := (b - a) / ((n - 1) as real);
    var v: seq<real> := [];
    var i := 0;
    while i < n
      invariant 0 <= i && (n >= 0 ==> i <= n) && (n < 0 ==> i == 0)
      invariant |v| == i
      invariant n >= 2 ==> forall j :: 0 <= j < i ==> v[j] == Spaced(a, b, n, j)
    {
      v := v + [a + (i as real) * h];
      i := i + 1;
    }
    return Ok(v);
  }

  /** The first value is a, the last is b. */
  lemma SpacedEnds(a: real, b: real, n: int)
    requires n >= 2
    ensures Spaced(a, b, n, 0) == a
    ensures Spaced(a, b, n, n - 1) == b
  {
    var m := (n - 1) as real;
    assert m * ((b - a) / m) == b - a;
  }

  /** The values strictly increase when a < b. */
  lemma SpacedIncreasing(a: real, b: real, n: int, i: int, j: int)
    requires n >= 2 && a < b && i < j
    ensures Spaced(a, b, n, i) < Spaced(a, b, n, j)
  {
    var h := (b - a) / ((n - 1) as real);
    assert h > 0.0;
    assert (j as real) * h - (i as real) * h == ((j - i) as real) * h;
  }

  /** For a <= b every value with index in 0..n-1 lies in [a, b]. */
  lemma SpacedWithin(a: real, b: real, n: int, i: int)
    requires n >= 2 && a <= b && 0 <= i < n
    ensures a <= Spaced(a, b, n, i) <= b
  {
    var m := (n - 1) as real;
    var h := (b - a) / m;
    assert h >= 0.0;
    assert m * h == b - a;
    assert (i as real) * h <= m * h;
  }

  // ---------------------------------------------------------------------------
  // subsampling

  /** What subsample(v, n) returns: an exact copy when the step |v|/n is 0 or 1;
      otherwise every step-th element from the first, ceil(|v|/step) of them. */
  ghost predicate SubsampledAsWritten(v: seq<real>, n: nat, r: seq<real>)
    requires n > 0
  {
    var step := |v| / n;
    if step <= 1 then r == v
    else
      && (|r| - 1) * step < |v| <= |r| * step
      && forall j :: 0 <= j < |r| ==> j * step < |v| && r[j] == v[j * step]
  }

  method Subsample(v: seq<real>, n: nat) returns (r: seq<real>)
    requires n > 0
    ensures SubsampledAsWritten(v, n, r)
  {
    var size := |v|;
    var step := size / n;
    if step == 0 || step == 1 {
      r := v;
    } else {
      MulLe(1, n, step);
      r := [v[0]];
      var i := step;
      while i < size
        invariant |r| >= 1 && i == |r| * step
        invariant (|r| - 1) * step < size
        invariant forall j :: 0 <= j < |r| ==> j * step < size && r[j] == v[j * step]
      {
        MulSucc(|r|, step);
        r := r + [v[i]];
        i := i + step;
      }
      if i < size - 1 {
        // the source appends v.back() here; the loop above leaves i >= size, so this never runs
        assert false;
      }
    }
  }

  lemma MulSucc(k: int, s: int)
    ensures (k + 1) * s == k * s + s
  {
  }

  lemma MulLe(a: int, b: int, s: int)
    requires a <= b && s >= 0
    ensures a * s <= b * s
  {
    assert b * s - a * s == (b - a) * s;
  }

  /** Euclidean remainder of a value bracketed by two consecutive multiples of s. */
  lemma ModInBracket(m: int, s: int, k: int)
    requires s > 0 && k * s <= m < k * s + s
    ensures m % s == m - k * s
  {
    var q := m / s;
    assert m == q * s + m % s;
    if q < k {
      MulLe(q, k - 1, s);
      MulSucc(k - 1, s);
    } else if q > k {
      MulLe(k + 1, q, s);
      MulSucc(k, s);
    }
    assert q == k;
  }

  /** With step >= 2 the result is never shorter than the target n. */
  lemma SubsampleLongEnough(v: seq<real>, n: nat, r: seq<real>)
    requires n > 0 && SubsampledAsWritten(v, n, r)
    ensures |r| >= n || |v| / n <= 1
  {
    var step := |v| / n;
    if step > 1 && |r| < n {
      assert step * n <= |v| <= |r| * step;
      MulLe(|r|, n - 1, step);
      MulSucc(n - 1, step);
    }
  }

  /** The last sampled index is |v|-1 exactly when step divides |v|-1: the last element
      is kept only then, although the documentation promises it always. */
  lemma SubsampleKeepsLastOnlyWhenAligned(v: seq<real>, n: nat, r: seq<real>)
    requires n > 0 && SubsampledAsWritten(v, n, r) && |v| / n >= 2
    ensures (|r| - 1) * (|v| / n) == |v| - 1 <==> (|v| - 1) % (|v| / n) == 0
  {
    var step := |v| / n;
    var k := |r| - 1;
    MulSucc(k, step);
    ModInBracket(|v| - 1, step, k);
  }

  /** Six samples with target three: step 2, and the last element 5.0 is dropped. */
  lemma SubsampleDropsLast()
    ensures forall r :: SubsampledAsWritten([0.0, 1.0, 2.0, 3.0, 4.0, 5.0], 3, r) ==> r == [0.0, 2.0, 4.0]
  {
    var v := [0.0, 1.0, 2.0, 3.0, 4.0, 5.0];
    forall r | SubsampledAsWritten(v, 3, r) ensures r == [0.0, 2.0, 4.0] {
      assert |v| / 3 == 2;
      assert |r| == 3;
      assert r[0] == v[0] && r[1] == v[2] && r[2] == v[4];
    }
  }

  /** Subsampling as documented: the as-written result, with the last element appended
      when the sampling did not land on it. */
  method SubsampleKeepingLast(v: seq<real>, n: nat) returns (r: seq<real>)
    requires n > 0
    ensures |v| / n <= 1 ==> r == v
    ensures |v| / n >= 2 ==>
      (exists s :: SubsampledAsWritten(v, n, s) &&
                   r == (if (|s| - 1) * (|v| / n) == |v| - 1 then s else s + [v[|v| - 1]]))
    ensures |v| > 0 ==> |r| > 0 && r[0] == v[0] && r[|r| - 1] == v[|v| - 1]
  {
    r := Subsample(v, n);
    var step := |v| / n;
    if step >= 2 {
      ghost var s := r;
      assert r[0] == v[0 * step];
      if (|r| - 1) * step != |v| - 1 {
        r := r + [v[|v| - 1]];
      }
      assert SubsampledAsWritten(v, n, s);
    }
  }
}
