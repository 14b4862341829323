/** The finite-volume grid: cell edges grown geometrically from the surface under a
    width cap, squeezed to the requested depth and flipped so that index 0 is the
    bottom; then centres, widths and the edge interpolation and gradient factors.
    Depth is measured as a negative coordinate: the bottom edge sits at -depth and the
    surface at 0. */
module Grids {
  import opened Wrappers
  import Util
  import Reals

  /** Width of the next raw cell: the previous one grown by delzfrac, or the cap. */
  function NextWidth(w: real, delzfrac: real, delzmax: real): real {
    if w * delzfrac < delzmax then w * delzfrac else delzmax
  }

  /** The edges the growth loop of grid_edges produces, before scaling: 0 and delz0,
      then each width grown from the last, stopping at the first edge at or below
      depth (the loop test is on every edge from delz0 on). */
  ghost predicate IsRawEdges(raw: seq<real>, depth: real, delz0: real, delzfrac: real, delzmax: real) {
    && |raw| >= 2 && raw[0] == 0.0 && raw[1] == delz0
    && Grown(raw, delzfrac, delzmax)
    && (forall j :: 1 <= j < |raw| - 1 ==> raw[j] < depth)
    && raw[|raw| - 1] >= depth
  }

  /** Each edge after the second adds the growth of the width before it. */
  ghost predicate Grown(e: seq<real>, delzfrac: real, delzmax: real)
    decreases |e|
  {
    |e| <= 2 ||
    (Grown(e[..|e| - 1], delzfrac, delzmax) &&
     e[|e| - 1] == e[|e| - 2] + NextWidth(e[|e| - 2] - e[|e| - 3], delzfrac, delzmax))
  }

  lemma GrownAppend(e: seq<real>, x: real, delzfrac: real, delzmax: real)
    requires |e| >= 2 && Grown(e, delzfrac, delzmax)
    requires x == e[|e| - 1] + NextWidth(e[|e| - 1] - e[|e| - 2], delzfrac, delzmax)
    ensures Grown(e + [x], delzfrac, delzmax)
  {
    assert (e + [x])[..|e|] == e;
  }

  /** The growth law at one index. */
  lemma {:induction false} GrownAt(e: seq<real>, delzfrac: real, delzmax: real, j: nat)
    requires Grown(e, delzfrac, delzmax) && 2 <= j < |e|
    ensures e[j] == e[j - 1] + NextWidth(e[j - 1] - e[j - 2], delzfrac, delzmax)
    decreases |e|
  {
    if j < |e| - 1 {
      var e' := e[..|e| - 1];
      GrownAt(e', delzfrac, delzmax, j);
      assert e'[j] == e[j] && e'[j - 1] == e[j - 1] && e'[j - 2] == e[j - 2];
    }
  }

  /** Two edge sequences that start alike and follow the same growth law agree on
      every index both have. */
  lemma {:induction false} GrownAgree(r1: seq<real>, r2: seq<real>, delzfrac: real, delzmax: real, j: nat)
    requires |r1| >= 2 && |r2| >= 2 && r1[0] == r2[0] && r1[1] == r2[1]
    requires Grown(r1, delzfrac, delzmax) && Grown(r2, delzfrac, delzmax)
    requires j < |r1| && j < |r2|
    ensures forall k :: 0 <= k <= j ==> r1[k] == r2[k]
    decreases j
  {
    if j >= 2 {
      GrownAgree(r1, r2, delzfrac, delzmax, j - 1);
      GrownAt(r1, delzfrac, delzmax, j);
      GrownAt(r2, delzfrac, delzmax, j);
    }
  }

  /** The growth law fixes the raw edges: the loop's stopping rule leaves only one
      sequence that satisfies it. */
  lemma RawEdgesUnique(r1: seq<real>, r2: seq<real>, depth: real, delz0: real, delzfrac: real, delzmax: real)
    requires IsRawEdges(r1, depth, delz0, delzfrac, delzmax) && IsRawEdges(r2, depth, delz0, delzfrac, delzmax)
    ensures r1 == r2
  {
    if |r1| < |r2| {
      // r1 stops at an index where r2 is still above depth
      GrownAgree(r1, r2, delzfrac, delzmax, |r1| - 1);
      assert false;
    } else if |r2| < |r1| {
      GrownAgree(r1, r2, delzfrac, delzmax, |r2| - 1);
      assert false;
    }
    GrownAgree(r1, r2, delzfrac, delzmax, |r1| - 1);
  }

  /** The raw edges multiplied by c and put in reverse order. */
  function ScaledReversed(raw: seq<real>, c: real): seq<real> {
    seq(|raw|, i requires 0 <= i < |raw| => raw[|raw| - 1 - i] * c)
  }

  /** The final edges: the raw ones squeezed so the last lands on depth, negated and
      flipped so that the bottom comes first. */
  function FinalEdges(raw: seq<real>, depth: real): seq<real>
    requires |raw| >= 1 && raw[|raw| - 1] != 0.0
  {
    ScaledReversed(raw, -(depth / raw[|raw| - 1]))
  }

  /** Every raw width is at least min(delz0, delzmax), which is what makes the loop end. */
  lemma {:induction false} RawWidthsBelow(raw: seq<real>, depth: real, delz0: real, delzfrac: real, delzmax: real, j: nat)
    requires IsRawEdges(raw, depth, delz0, delzfrac, delzmax)
    requires delz0 > 0.0 && delzmax > 0.0 && delzfrac >= 1.0
    requires 1 <= j < |raw|
    ensures raw[j] - raw[j - 1] >= (if delz0 < delzmax then delz0 else delzmax)
  {
    if j >= 2 {
      RawWidthsBelow(raw, depth, delz0, delzfrac, delzmax, j - 1);
      var w := raw[j - 1] - raw[j - 2];
      NextWidthAtLeast(w, delzfrac, delzmax, if delz0 < delzmax then delz0 else delzmax);
      GrownAt(raw, delzfrac, delzmax, j);
    }
  }

  lemma NextWidthAtLeast(w: real, delzfrac: real, delzmax: real, wmin: real)
    requires w >= wmin > 0.0 && delzfrac >= 1.0 && delzmax >= wmin
    ensures NextWidth(w, delzfrac, delzmax) >= wmin
  {
    Reals.MulAtLeast(w, delzfrac);
  }

  /** One growth step lowers the termination measure of the loop by at least one. */
  lemma GrowStep(depth: real, last: real, w: real, wmin: real)
    requires w >= wmin > 0.0
    ensures ((depth - (last + w)) / wmin).Floor < ((depth - last) / wmin).Floor
  {
    Reals.DivLess(depth - (last + w), depth - last - wmin, wmin);
    Reals.DivShift(depth - last, wmin);
  }

  /** Each edge below the next. */
  ghost predicate Ascending(s: seq<real>) {
    forall i :: 0 <= i < |s| - 1 ==> s[i] < s[i + 1]
  }

  lemma {:induction false} AscendingIsStrict(s: seq<real>)
    requires Ascending(s)
    ensures Util.StrictlyIncreasing(s)
  {
    if |s| > 1 {
      var t := s[..|s| - 1];
      assert Ascending(t);
      AscendingIsStrict(t);
      forall i | 0 <= i < |s| - 1 ensures s[i] < s[|s| - 1] {
        assert t[i] == s[i];
        if i < |s| - 2 {
          assert s[i] < s[|s| - 2];
        }
      }
    }
  }

  /** What holds of the edges at the head of every pass of the growth loop. */
  ghost predicate Growing(e: seq<real>, depth: real, delz0: real, delzfrac: real, delzmax: real, wmin: real) {
    && |e| >= 2 && e[0] == 0.0 && e[1] == delz0
    && Grown(e, delzfrac, delzmax)
    && (forall j :: 1 <= j < |e| - 1 ==> e[j] < depth)
    && e[|e| - 1] - e[|e| - 2] >= wmin
  }

  /** One pass of the growth loop keeps it going and lowers its measure. */
  lemma GrowingStep(e: seq<real>, last: real, step: real, depth: real, delz0: real, delzfrac: real, delzmax: real, wmin: real)
    requires Growing(e, depth, delz0, delzfrac, delzmax, wmin)
    requires wmin > 0.0 && delzfrac >= 1.0 && delzmax >= wmin && last < depth
    requires last == e[|e| - 1] && step == NextWidth(last - e[|e| - 2], delzfrac, delzmax)
    ensures Growing(e + [last + step], depth, delz0, delzfrac, delzmax, wmin)
    ensures ((depth - (last + step)) / wmin).Floor < ((depth - last) / wmin).Floor
    ensures ((depth - last) / wmin).Floor >= 0
  {
    var e' := e + [last + step];
    NextWidthAtLeast(last - e[|e| - 2], delzfrac, delzmax, wmin);
    GrownAppend(e, last + step, delzfrac, delzmax);
    assert forall j :: 1 <= j < |e'| - 1 ==> e'[j] == e[j];
    GrowStep(depth, last, step, wmin);
    Reals.DivPos(depth - last, wmin);
  }

  /** The growth loop of grid_edges: widths grow by delzfrac up to delzmax until an
      edge reaches depth. */
  method GrowEdges(depth: real, delz0: real, delzfrac: real, delzmax: real) returns (e: seq<real>)
    requires delz0 > 0.0 && delzmax > 0.0 && delzfrac >= 1.0
    ensures IsRawEdges(e, depth, delz0, delzfrac, delzmax)
  {
    ghost var wmin := if delz0 < delzmax then delz0 else delzmax;
    e := [0.0, delz0];
    while e[|e| - 1] < depth
      invariant Growing(e, depth, delz0, delzfrac, delzmax, wmin)
      decreases ((depth - e[|e| - 1]) / wmin).Floor
    {
      var last := e[|e| - 1];
      // push the grown width, or the cap
      var step := NextWidth(last - e[|e| - 2], delzfrac, delzmax);
      GrowingStep(e, last, step, depth, delz0, delzfrac, delzmax, wmin);
      e := e + [last + step];
    }
  }

  /** grid_edges: grow the raw edges, scale them by -depth/last and reverse them in place. */
  method GridEdges(depth: real, delz0: real, delzfrac: real, delzmax: real) returns (ze: seq<real>, ghost raw: seq<real>)
    requires delz0 > 0.0 && delzmax > 0.0 && delzfrac >= 1.0
    ensures IsRawEdges(raw, depth, delz0, delzfrac, delzmax)
    ensures raw[|raw| - 1] > 0.0
    ensures ze == FinalEdges(raw, depth)
  {
    var e := GrowEdges(depth, delz0, delzfrac, delzmax);
    raw := e;
    RawPositive(raw, depth, delz0, delzfrac, delzmax);
    var f := depth / e[|e| - 1];
    // squeeze the cells so that the last edge lands on depth
    var scaled := ScaleBy(e, -f);
    // swap the order
    ze := Reverse(scaled);
    ghost var target := ScaledReversed(raw, -f);
    forall j | 0 <= j < |ze| ensures ze[j] == target[j] {
      var k := |raw| - 1 - j;
      assert ze[j] == scaled[k] == raw[k] * -f;
    }
    assert ze == target;
  }

  /** Multiply every edge by c, one index at a time. */
  method ScaleBy(v: seq<real>, c: real) returns (e: seq<real>)
    ensures |e| == |v| && forall j :: 0 <= j < |v| ==> e[j] == v[j] * c
  {
    e := v;
    var i := 0;
    while i < |e|
      invariant 0 <= i <= |e| && |e| == |v|
      invariant forall j :: 0 <= j < i ==> e[j] == v[j] * c
      invariant forall j :: i <= j < |v| ==> e[j] == v[j]
    {
      e := e[i := e[i] * c];
      i := i + 1;
    }
  }

  /** Reverse the edges by swapping from both ends towards the middle. */
  method Reverse(v: seq<real>) returns (e: seq<real>)
    ensures |e| == |v| && forall j :: 0 <= j < |v| ==> e[j] == v[|v| - 1 - j]
  {
    e := v;
    var n := |e|;
    var i := 0;
    while i < n / 2
      invariant 0 <= i <= n / 2 && |e| == n
      invariant forall j :: 0 <= j < i ==> e[j] == v[n - 1 - j] && e[n - 1 - j] == v[j]
      invariant forall j :: i <= j < n - i ==> e[j] == v[j]
    {
      var tem := e[i];
      e := e[i := e[n - i - 1]];
      e := e[n - i - 1 := tem];
      i := i + 1;
    }
    forall j | 0 <= j < n ensures e[j] == v[n - 1 - j] {
      if i <= j < n - i {
        assert j == n - 1 - j;
      }
    }
  }

  /** The raw edges increase from 0, so the last one is positive. */
  lemma RawPositive(raw: seq<real>, depth: real, delz0: real, delzfrac: real, delzmax: real)
    requires IsRawEdges(raw, depth, delz0, delzfrac, delzmax)
    requires delz0 > 0.0 && delzmax > 0.0 && delzfrac >= 1.0
    ensures Ascending(raw)
    ensures raw[|raw| - 1] > 0.0
  {
    forall j | 0 <= j < |raw| - 1 ensures raw[j] < raw[j + 1] {
      RawWidthsBelow(raw, depth, delz0, delzfrac, delzmax, j + 1);
    }
    RawIncreasingBound(raw, |raw| - 1);
  }

  lemma {:induction false} RawIncreasingBound(raw: seq<real>, j: nat)
    requires 1 <= j < |raw| && raw[0] == 0.0 && Ascending(raw)
    ensures raw[j] > 0.0
  {
    if j > 1 {
      RawIncreasingBound(raw, j - 1);
    }
  }

  /** The squeeze factor lies in (0,1] for a positive depth, so no cell gets wider. */
  lemma ScaleInUnit(raw: seq<real>, depth: real, delz0: real, delzfrac: real, delzmax: real)
    requires IsRawEdges(raw, depth, delz0, delzfrac, delzmax)
    requires delz0 > 0.0 && delzmax > 0.0 && delzfrac >= 1.0 && depth > 0.0
    ensures 0.0 < depth / raw[|raw| - 1] <= 1.0
  {
    RawPositive(raw, depth, delz0, delzfrac, delzmax);
    Reals.DivPos(depth, raw[|raw| - 1]);
    Reals.FractionInUnit(depth, raw[|raw| - 1]);
  }

  /** Each final width is the matching raw width, in reverse order, times -c. */
  lemma EdgeWidths(raw: seq<real>, c: real, i: nat)
    requires i + 1 < |raw|
    ensures ScaledReversed(raw, c)[i + 1] - ScaledReversed(raw, c)[i] ==
      (raw[|raw| - 2 - i] - raw[|raw| - 1 - i]) * c
  {
    var ze := ScaledReversed(raw, c);
    assert ze[i + 1] == raw[|raw| - 2 - i] * c && ze[i] == raw[|raw| - 1 - i] * c;
  }

  /** After squeezing and flipping the edges run from -depth to 0; a depth within the
      first cell leaves the single cell [-depth, 0]. */
  lemma EdgesEnds(raw: seq<real>, depth: real, delz0: real, delzfrac: real, delzmax: real)
    requires IsRawEdges(raw, depth, delz0, delzfrac, delzmax)
    requires delz0 > 0.0 && delzmax > 0.0 && delzfrac >= 1.0
    ensures raw[|raw| - 1] > 0.0
    ensures var ze := FinalEdges(raw, depth);
      && |ze| >= 2 && ze[0] == -depth && ze[|ze| - 1] == 0.0
      && (depth <= delz0 ==> ze == [-depth, 0.0])
  {
    RawPositive(raw, depth, delz0, delzfrac, delzmax);
    var last := raw[|raw| - 1];
    var f := depth / last;
    assert f * last == depth;
    assert last * -f == -(f * last);
    if depth <= delz0 {
      assert |raw| == 2;
    }
  }

  /** For a positive depth the final edges increase, and no final cell is wider than
      the raw cell it was squeezed from. */
  lemma EdgesAscending(raw: seq<real>, depth: real, delz0: real, delzfrac: real, delzmax: real)
    requires IsRawEdges(raw, depth, delz0, delzfrac, delzmax)
    requires delz0 > 0.0 && delzmax > 0.0 && delzfrac >= 1.0 && depth > 0.0
    ensures raw[|raw| - 1] > 0.0
    ensures var ze := FinalEdges(raw, depth);
      && Ascending(ze)
      && forall i :: 0 <= i < |ze| - 1 ==> ze[i + 1] - ze[i] <= raw[|raw| - 1 - i] - raw[|raw| - 2 - i]
  {
    RawPositive(raw, depth, delz0, delzfrac, delzmax);
    ScaleInUnit(raw, depth, delz0, delzfrac, delzmax);
    var c := -(depth / raw[|raw| - 1]);
    forall i | 0 <= i < |raw| - 1
      ensures ScaledReversed(raw, c)[i] < ScaledReversed(raw, c)[i + 1]
      ensures ScaledReversed(raw, c)[i + 1] - ScaledReversed(raw, c)[i] <= raw[|raw| - 1 - i] - raw[|raw| - 2 - i]
    {
      assert raw[|raw| - 2 - i] < raw[|raw| - 1 - i];
      EdgeAscendingAt(raw, c, i);
    }
  }

  lemma EdgeAscendingAt(raw: seq<real>, c: real, i: nat)
    requires -1.0 <= c < 0.0 && i + 1 < |raw| && raw[|raw| - 2 - i] < raw[|raw| - 1 - i]
    ensures ScaledReversed(raw, c)[i] < ScaledReversed(raw, c)[i + 1]
    ensures ScaledReversed(raw, c)[i + 1] - ScaledReversed(raw, c)[i] <= raw[|raw| - 1 - i] - raw[|raw| - 2 - i]
  {
    EdgeWidths(raw, c, i);
    FlippedWidth(raw[|raw| - 1 - i], raw[|raw| - 2 - i], c);
  }

  /** Two edges p above q, multiplied by c in [-1, 0): their order flips and their gap
      does not grow. */
  lemma FlippedWidth(p: real, q: real, c: real)
    requires -1.0 <= c < 0.0 && q < p
    ensures 0.0 < (q - p) * c <= p - q
  {
    Reals.MulPos(p - q, -c);
    Reals.MulNonNeg(p - q, 1.0 + c);
  }


  /** With delzfrac = 1 and a cap at least delz0 every raw cell is delz0 wide. */
  lemma {:induction false} UniformRawWidths(raw: seq<real>, depth: real, delz0: real, delzmax: real, j: nat)
    requires IsRawEdges(raw, depth, delz0, 1.0, delzmax)
    requires delzmax >= delz0
    requires 1 <= j < |raw|
    ensures raw[j] - raw[j - 1] == delz0
  {
    if j >= 2 {
      UniformRawWidths(raw, depth, delz0, delzmax, j - 1);
      GrownAt(raw, 1.0, delzmax, j);
    }
  }

  /** ... so every final cell has the same width. */
  /** With delzfrac = 1 and a cap at least delz0, final width i is delz0 times the
      squeeze factor. */
  lemma UniformWidthAt(raw: seq<real>, depth: real, delz0: real, delzmax: real, i: nat)
    requires IsRawEdges(raw, depth, delz0, 1.0, delzmax)
    requires delz0 > 0.0 && delzmax >= delz0
    requires i + 1 < |raw|
    ensures raw[|raw| - 1] > 0.0
    ensures FinalEdges(raw, depth)[i + 1] - FinalEdges(raw, depth)[i] == -delz0 * -(depth / raw[|raw| - 1])
  {
    RawPositive(raw, depth, delz0, 1.0, delzmax);
    var c := -(depth / raw[|raw| - 1]);
    EdgeWidths(raw, c, i);
    UniformRawWidths(raw, depth, delz0, delzmax, |raw| - 1 - i);
    assert FinalEdges(raw, depth) == ScaledReversed(raw, c);
  }

  lemma UniformWidths(raw: seq<real>, depth: real, delz0: real, delzmax: real, i: nat, i': nat)
    requires IsRawEdges(raw, depth, delz0, 1.0, delzmax)
    requires delz0 > 0.0 && delzmax >= delz0
    requires i + 1 < |raw| && i' + 1 < |raw|
    ensures raw[|raw| - 1] > 0.0
    ensures var ze := FinalEdges(raw, depth);
      ze[i + 1] - ze[i] == ze[i' + 1] - ze[i']
  {
    UniformWidthAt(raw, depth, delz0, delzmax, i);
    UniformWidthAt(raw, depth, delz0, delzmax, i');
  }

  // ---------------------------------------------------------------------------
  // derived arrays

  /** Sum of a sequence of widths. */
  function Sum(s: seq<real>): real {
    if s == [] then 0.0 else Sum(s[..|s| - 1]) + s[|s| - 1]
  }

  /** Widths that are edge differences add up to the span of the edges. */
  lemma {:induction false} WidthsTelescope(ze: seq<real>, delz: seq<real>)
    requires |ze| == |delz| + 1
    requires forall i :: 0 <= i < |delz| ==> delz[i] == ze[i + 1] - ze[i]
    ensures Sum(delz) == ze[|ze| - 1] - ze[0]
  {
    if delz != [] {
      WidthsTelescope(ze[..|ze| - 1], delz[..|delz| - 1]);
    }
  }

  /** The interpolation factor of an interior edge: how far the edge lies from the
      centre below it, as a fraction of the distance between the two centres. */
  function EdgeFactor(e: real, zcBelow: real, zcAbove: real): real
    requires zcAbove != zcBelow
  {
    (e - zcBelow) / (zcAbove - zcBelow)
  }

  /** For three increasing edges the factor lies strictly between 0 and 1, and it is
      one half exactly when the two cells have the same width. */
  lemma EdgeFactorRange(a: real, b: real, c: real)
    requires a < b < c
    ensures var lo, hi := b / 2.0 + a / 2.0, c / 2.0 + b / 2.0;
      && lo < hi
      && 0.0 < EdgeFactor(b, lo, hi) < 1.0
      && (EdgeFactor(b, lo, hi) == 0.5 <==> b - a == c - b)
  {
    var lo, hi := b / 2.0 + a / 2.0, c / 2.0 + b / 2.0;
    var d0, d1 := b - a, c - b;
    assert b - lo == d0 / 2.0 && hi - lo == (d0 + d1) / 2.0;
    Reals.HalvesRatio(d0, d0 + d1);
    assert EdgeFactor(b, lo, hi) == d0 / (d0 + d1);
    Reals.DivPos(d0, d0 + d1);
    Reals.DivBelowOne(d0, d0 + d1);
    Reals.RatioHalfIff(d0, d1);
  }

  /** The gradient factor of an interior edge: one over the distance between centres. */
  lemma GradientFactorPositive(zcBelow: real, zcAbove: real)
    requires zcBelow < zcAbove
    ensures 1.0 / (zcAbove - zcBelow) > 0.0
  {
    Reals.DivPos(1.0, zcAbove - zcBelow);
  }

  /** Cell centres: midway between each cell's two edges. */
  ghost predicate Centres(ze: seq<real>, zc: seq<real>) {
    |ze| == |zc| + 1 && forall i :: 0 <= i < |zc| ==> zc[i] == ze[i + 1] / 2.0 + ze[i] / 2.0
  }

  /** Cell widths: the difference of each cell's two edges. */
  ghost predicate Widths(ze: seq<real>, delz: seq<real>) {
    |ze| == |delz| + 1 && forall i :: 0 <= i < |delz| ==> delz[i] == ze[i + 1] - ze[i]
  }

  /** Widths at the edges used for the time step bound: an interior edge takes the
      width of the cell above it; the bottom and top edges take their only cell's. */
  ghost predicate EdgeWidthsOf(delz: seq<real>, delze: seq<real>) {
    && |delz| >= 1 && |delze| == |delz| + 1
    && delze[0] == delz[0] && delze[|delz|] == delz[|delz| - 1]
    && forall i :: 1 <= i < |delz| ==> delze[i] == delz[i]
  }

  /** Interpolation factors at the edges, undefined at both ends. */
  ghost predicate VefacOf(ze: seq<real>, zc: seq<real>, vefac: seq<Option<real>>) {
    && |zc| >= 1 && |ze| == |zc| + 1 && |vefac| == |ze| && Ascending(zc)
    && vefac[0] == None && vefac[|zc|] == None
    && (forall i :: 1 <= i < |zc| ==> vefac[i] == Some(EdgeFactor(ze[i], zc[i - 1], zc[i])))
  }

  /** Gradient factors at the edges, undefined at both ends. */
  ghost predicate GefacOf(zc: seq<real>, gefac: seq<Option<real>>) {
    && |zc| >= 1 && |gefac| == |zc| + 1 && Ascending(zc)
    && gefac[0] == None && gefac[|zc|] == None
    && (forall i :: 1 <= i < |zc| ==> gefac[i] == Some(1.0 / (zc[i] - zc[i - 1])))
  }

  method CellCentres(e: seq<real>) returns (c: seq<real>)
    requires |e| >= 1
    ensures Centres(e, c)
  {
    c := [];
    var i := 0;
    while i < |e| - 1
      invariant 0 <= i <= |e| - 1 && |c| == i
      invariant forall j :: 0 <= j < i ==> c[j] == e[j + 1] / 2.0 + e[j] / 2.0
    {
      c := c + [e[i + 1] / 2.0 + e[i] / 2.0];
      i := i + 1;
    }
  }

  method CellWidths(e: seq<real>) returns (d: seq<real>)
    requires |e| >= 1
    ensures Widths(e, d)
  {
    d := [];
    var i := 0;
    while i < |e| - 1
      invariant 0 <= i <= |e| - 1 && |d| == i
      invariant forall j :: 0 <= j < i ==> d[j] == e[j + 1] - e[j]
    {
      d := d + [e[i + 1] - e[i]];
      i := i + 1;
    }
  }

  method StabilityWidths(d: seq<real>) returns (de: seq<real>)
    requires |d| >= 1
    ensures EdgeWidthsOf(d, de)
  {
    // the bottom and top edges look at their only cell
    de := [d[0]];
    var i := 1;
    while i < |d|
      invariant 1 <= i <= |d| && |de| == i
      invariant de[0] == d[0] && forall j :: 1 <= j < i ==> de[j] == d[j]
    {
      de := de + [d[i]];
      i := i + 1;
    }
    de := de + [d[|d| - 1]];
  }

  method InterpolationFactors(e: seq<real>, c: seq<real>) returns (v: seq<Option<real>>)
    requires |c| >= 1 && |e| == |c| + 1 && Ascending(c)
    ensures VefacOf(e, c, v)
  {
    v := [None];
    var i := 1;
    while i < |c|
      invariant 1 <= i <= |c| && |v| == i && v[0] == None
      invariant forall j :: 1 <= j < i ==> v[j] == Some(EdgeFactor(e[j], c[j - 1], c[j]))
    {
      v := v + [Some((e[i] - c[i - 1]) / (c[i] - c[i - 1]))];
      i := i + 1;
    }
    v := v + [None];
  }

  method GradientFactors(c: seq<real>) returns (g: seq<Option<real>>)
    requires |c| >= 1 && Ascending(c)
    ensures GefacOf(c, g)
  {
    g := [None];
    var i := 1;
    while i < |c|
      invariant 1 <= i <= |c| && |g| == i && g[0] == None
      invariant forall j :: 1 <= j < i ==> g[j] == Some(1.0 / (c[j] - c[j - 1]))
    {
      g := g + [Some(1.0 / (c[i] - c[i - 1]))];
      i := i + 1;
    }
    g := g + [None];
  }

  class Grid {
    /** number of cells */
    const n: int
    /** the bottom coordinate, ze[0] */
    const dep: real
    const ze: seq<real>
    const zc: seq<real>
    const delz: seq<real>
    const delze: seq<real>
    const vefac: seq<Option<real>>
    const gefac: seq<Option<real>>
    /** the edges of the growth loop before squeezing and flipping */
    ghost const raw: seq<real>

    /** The index relations among the arrays the constructor fills. */
    ghost predicate Valid() {
      && n >= 1 && |ze| == n + 1 && dep == ze[0]
      && Centres(ze, zc) && Widths(ze, delz) && EdgeWidthsOf(delz, delze)
      && VefacOf(ze, zc, vefac) && GefacOf(zc, gefac)
    }

    constructor(depth: real, delz0: real, delzfrac: real, delzmax: real)
      requires delz0 > 0.0 && delzmax > 0.0 && delzfrac >= 1.0
      ensures Valid()
      ensures IsRawEdges(raw, depth, delz0, delzfrac, delzmax)
      ensures raw[|raw| - 1] > 0.0
      ensures ze == FinalEdges(raw, depth)
      ensures n == |raw| - 1 && dep == -depth && ze[n] == 0.0
      ensures depth > 0.0 ==> Ascending(ze)
    {
      var e: seq<real>;
      ghost var r: seq<real>;
      e, r := GridEdges(depth, delz0, delzfrac, delzmax);
      EdgesEnds(r, depth, delz0, delzfrac, delzmax);
      if depth > 0.0 {
        EdgesAscending(r, depth, delz0, delzfrac, delzmax);
      }
      var c := CellCentres(e);
      var d := CellWidths(e);
      var de := StabilityWidths(d);
      CentresAscending(e, c);
      var v := InterpolationFactors(e, c);
      var g := GradientFactors(c);
      n, dep, ze, zc, delz, delze, vefac, gefac := |e| - 1, e[0], e, c, d, de, v, g;
      raw := r;
    }
  }

  /** The grid the constructor builds for these arguments: the growth law's final
      edges, from -depth at the bottom to 0 at the top. */
  ghost predicate GrowthGrid(grid: Grid, depth: real, delz0: real, delzfrac: real, delzmax: real) {
    && grid.Valid() && grid.dep == -depth && grid.ze[grid.n] == 0.0
    && IsRawEdges(grid.raw, depth, delz0, delzfrac, delzmax) && grid.n == |grid.raw| - 1
    && grid.raw[|grid.raw| - 1] != 0.0 && grid.ze == FinalEdges(grid.raw, depth)
  }

  /** Centres of ascending edges ascend; a single cell has nothing to compare. */
  lemma CentresAscending(ze: seq<real>, zc: seq<real>)
    requires Centres(ze, zc) && (|zc| > 1 ==> Ascending(ze))
    ensures Ascending(zc)
  {
    forall j | 1 <= j < |zc| ensures zc[j - 1] < zc[j] {
      assert ze[j - 1] < ze[j] < ze[j + 1];
    }
  }

  /** The cell widths of a grid add up to the depth. */
  lemma WidthsSumToDepth(g: Grid, depth: real)
    requires g.Valid() && g.dep == -depth && g.ze[g.n] == 0.0
    ensures Sum(g.delz) == depth
  {
    WidthsTelescope(g.ze, g.delz);
  }

  /** Each interior edge factor lies in (0,1), one half exactly between equal cells, and
      each interior gradient factor is positive. */
  lemma InteriorFactors(g: Grid, i: nat)
    requires g.Valid() && Ascending(g.ze) && 1 <= i < g.n
    ensures g.vefac[i].Some? && 0.0 < g.vefac[i].value < 1.0
    ensures g.vefac[i].Some? && (g.vefac[i].value == 0.5 <==> g.delz[i - 1] == g.delz[i])
    ensures g.gefac[i].Some? && g.gefac[i].value > 0.0
  {
    var ze := g.ze;
    assert ze[i - 1] < ze[i] < ze[i + 1];
    EdgeFactorRange(ze[i - 1], ze[i], ze[i + 1]);
    assert g.zc[i - 1] == ze[i] / 2.0 + ze[i - 1] / 2.0;
    assert g.zc[i] == ze[i + 1] / 2.0 + ze[i] / 2.0;
    assert g.delz[i - 1] == ze[i] - ze[i - 1] && g.delz[i] == ze[i + 1] - ze[i];
    assert g.zc[i - 1] < g.zc[i];
    GradientFactorPositive(g.zc[i - 1], g.zc[i]);
  }
}
