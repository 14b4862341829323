/** Parameter tables of the sweep drivers: every combination of the values of a
    few ranges, one row per combination, in row-major order with the last range
    varying fastest. */
module Tables {
  import Util

  //---------------------------------------------------------------------------
  // row-major positions

  /** Position of entry j of block i when blocks have m entries. */
  function Pair(i: int, j: int, m: int): int {
    i * m + j
  }

  /** Positions of entries of n blocks of m lie in 0 .. n*m-1. */
  lemma PairBound(i: int, j: int, n: int, m: int)
    requires 0 <= i < n && 0 <= j < m
    ensures 0 <= Pair(i, j, m) < n * m
  {
    Util.MulSucc(i, m);
    Util.MulLe(i + 1, n, m);
    Util.MulLe(0, i, m);
  }

  /** Different (block, entry) pairs have different positions. */
  lemma PairInjective(i: int, j: int, i': int, j': int, m: int)
    requires 0 <= j < m && 0 <= j' < m
    requires Pair(i, j, m) == Pair(i', j', m)
    ensures i == i' && j == j'
  {
    if i < i' {
      Util.MulSucc(i, m);
      Util.MulLe(i + 1, i', m);
      assert false;
    } else if i' < i {
      Util.MulSucc(i', m);
      Util.MulLe(i' + 1, i, m);
      assert false;
    }
  }

  /** Every position in 0 .. n*m-1 is the position of some pair. */
  lemma PairSurjective(p: int, n: int, m: int) returns (i: int, j: int)
    requires 0 <= p < n * m && n >= 0 && m >= 0
    ensures 0 <= i < n && 0 <= j < m && Pair(i, j, m) == p
  {
    if m == 0 {
      assert false;
    }
    i, j := p / m, p % m;
    if i >= n {
      Util.MulLe(n, i, m);
      assert false;
    }
  }

  /** Position of (i, j, k) in a table of ranges of lengths _, nb, nc. */
  function Index3(i: int, j: int, k: int, nb: int, nc: int): int {
    Pair(Pair(i, j, nb), k, nc)
  }

  /** Position of (i, j, k, l) in a table of ranges of lengths _, nb, nc, nd. */
  function Index4(i: int, j: int, k: int, l: int, nb: int, nc: int, nd: int): int {
    Pair(Index3(i, j, k, nb, nc), l, nd)
  }

  /** Three nested ranges enumerate 0 .. na*nb*nc-1, each position once. */
  lemma Index3Bijective(i: int, j: int, k: int, i': int, j': int, k': int, na: int, nb: int, nc: int)
    requires 0 <= i < na && 0 <= j < nb && 0 <= k < nc
    requires 0 <= j' < nb && 0 <= k' < nc
    ensures 0 <= Index3(i, j, k, nb, nc) < na * nb * nc
    ensures Index3(i, j, k, nb, nc) == Index3(i', j', k', nb, nc) ==> i == i' && j == j' && k == k'
  {
    PairBound(i, j, na, nb);
    PairBound(Pair(i, j, nb), k, na * nb, nc);
    if Index3(i, j, k, nb, nc) == Index3(i', j', k', nb, nc) {
      PairInjective(Pair(i, j, nb), k, Pair(i', j', nb), k', nc);
      PairInjective(i, j, i', j', nb);
    }
  }

  lemma Index3Onto(p: int, na: int, nb: int, nc: int) returns (i: int, j: int, k: int)
    requires 0 <= p < na * nb * nc && na >= 0 && nb >= 0 && nc >= 0
    ensures 0 <= i < na && 0 <= j < nb && 0 <= k < nc && Index3(i, j, k, nb, nc) == p
  {
    Util.MulLe(0, na, nb);
    var q;
    q, k := PairSurjective(p, na * nb, nc);
    i, j := PairSurjective(q, na, nb);
  }

  /** Four nested ranges enumerate 0 .. na*nb*nc*nd-1, each position once. */
  lemma Index4Bijective(i: int, j: int, k: int, l: int, i': int, j': int, k': int, l': int,
                        na: int, nb: int, nc: int, nd: int)
    requires 0 <= i < na && 0 <= j < nb && 0 <= k < nc && 0 <= l < nd
    requires 0 <= j' < nb && 0 <= k' < nc && 0 <= l' < nd
    ensures 0 <= Index4(i, j, k, l, nb, nc, nd) < na * nb * nc * nd
    ensures Index4(i, j, k, l, nb, nc, nd) == Index4(i', j', k', l', nb, nc, nd) ==>
      i == i' && j == j' && k == k' && l == l'
  {
    Index3Bijective(i, j, k, i', j', k', na, nb, nc);
    PairBound(Index3(i, j, k, nb, nc), l, na * nb * nc, nd);
    if Index4(i, j, k, l, nb, nc, nd) == Index4(i', j', k', l', nb, nc, nd) {
      PairInjective(Index3(i, j, k, nb, nc), l, Index3(i', j', k', nb, nc), l', nd);
    }
  }

  lemma Index4Onto(p: int, na: int, nb: int, nc: int, nd: int) returns (i: int, j: int, k: int, l: int)
    requires 0 <= p < na * nb * nc * nd && na >= 0 && nb >= 0 && nc >= 0 && nd >= 0
    ensures 0 <= i < na && 0 <= j < nb && 0 <= k < nc && 0 <= l < nd
    ensures Index4(i, j, k, l, nb, nc, nd) == p
  {
    Util.MulLe(0, na, nb);
    Util.MulLe(0, na * nb, nc);
    var q;
    q, l := PairSurjective(p, na * nb * nc, nd);
    i, j, k := Index3Onto(q, na, nb, nc);
  }

  //---------------------------------------------------------------------------
  // tables of combinations

  /** Each row of rows with x in front. */
  function Prefixed(x: real, rows: seq<seq<real>>): seq<seq<real>> {
    seq(|rows|, j requires 0 <= j < |rows| => [x] + rows[j])
  }

  /** Every value of xs followed by every row of rows, the rows varying fastest. */
  function Cross(xs: seq<real>, rows: seq<seq<real>>): seq<seq<real>>
    decreases |xs|
  {
    if xs == [] then [] else Prefixed(xs[0], rows) + Cross(xs[1..], rows)
  }

  lemma {:induction false} CrossLength(xs: seq<real>, rows: seq<seq<real>>)
    ensures |Cross(xs, rows)| == |xs| * |rows|
    decreases |xs|
  {
    if xs != [] {
      CrossLength(xs[1..], rows);
      Util.MulSucc(|xs| - 1, |rows|);
    }
  }

  /** Row j of the block of xs[i] is xs[i] in front of rows[j]. */
  lemma {:induction false} CrossAt(xs: seq<real>, rows: seq<seq<real>>, i: int, j: int)
    requires 0 <= i < |xs| && 0 <= j < |rows|
    ensures |Cross(xs, rows)| == |xs| * |rows|
    ensures 0 <= Pair(i, j, |rows|) < |xs| * |rows|
    ensures Cross(xs, rows)[Pair(i, j, |rows|)] == [xs[i]] + rows[j]
    decreases i
  {
    CrossLength(xs, rows);
    PairBound(i, j, |xs|, |rows|);
    if i > 0 {
      CrossAt(xs[1..], rows, i - 1, j);
      Util.MulSucc(i - 1, |rows|);
    }
  }

  /** The table of three ranges. */
  function Table3(a: seq<real>, b: seq<real>, c: seq<real>): seq<seq<real>> {
    Cross(a, Cross(b, Cross(c, [[]])))
  }

  /** The table of four ranges. */
  function Table4(a: seq<real>, b: seq<real>, c: seq<real>, d: seq<real>): seq<seq<real>> {
    Cross(a, Table3(b, c, d))
  }

  lemma Nest3(i: int, j: int, k: int, nb: int, nc: int)
    ensures Pair(i, Pair(j, k, nc), nb * nc) == Index3(i, j, k, nb, nc)
  {
    assert (i * nb + j) * nc == i * (nb * nc) + j * nc;
  }

  lemma Nest4(i: int, j: int, k: int, l: int, nb: int, nc: int, nd: int)
    ensures Pair(i, Index3(j, k, l, nc, nd), nb * nc * nd) == Index4(i, j, k, l, nb, nc, nd)
  {
    var p := Pair(i, j, nb);
    assert (p * nc + k) * nd == p * nc * nd + k * nd;
    assert p * nc * nd == i * (nb * nc * nd) + j * nc * nd;
    assert (j * nc + k) * nd == j * nc * nd + k * nd;
  }

  lemma Table3Length(a: seq<real>, b: seq<real>, c: seq<real>)
    ensures |Table3(a, b, c)| == |a| * |b| * |c|
  {
    CrossLength(c, [[]]);
    CrossLength(b, Cross(c, [[]]));
    CrossLength(a, Cross(b, Cross(c, [[]])));
    assert |Cross(b, Cross(c, [[]]))| == |b| * |c|;
    assert |a| * (|b| * |c|) == |a| * |b| * |c|;
  }

  /** Row Index3(i, j, k) of the table is (a[i], b[j], c[k]). */
  lemma Table3At(a: seq<real>, b: seq<real>, c: seq<real>, i: int, j: int, k: int)
    requires 0 <= i < |a| && 0 <= j < |b| && 0 <= k < |c|
    ensures |Table3(a, b, c)| == |a| * |b| * |c|
    ensures 0 <= Index3(i, j, k, |b|, |c|) < |a| * |b| * |c|
    ensures Table3(a, b, c)[Index3(i, j, k, |b|, |c|)] == [a[i], b[j], c[k]]
  {
    Table3Length(a, b, c);
    var r1 := Cross(c, [[]]);
    CrossAt(c, [[]], k, 0);
    var r2 := Cross(b, r1);
    CrossAt(b, r1, j, k);
    CrossAt(a, r2, i, Pair(j, k, |c|));
    Nest3(i, j, k, |b|, |c|);
    Index3Bijective(i, j, k, i, j, k, |a|, |b|, |c|);
  }

  lemma Table4Length(a: seq<real>, b: seq<real>, c: seq<real>, d: seq<real>)
    ensures |Table4(a, b, c, d)| == |a| * |b| * |c| * |d|
  {
    Table3Length(b, c, d);
    CrossLength(a, Table3(b, c, d));
    assert |a| * (|b| * |c| * |d|) == |a| * |b| * |c| * |d|;
  }

  /** Row Index4(i, j, k, l) of the table is (a[i], b[j], c[k], d[l]). */
  lemma Table4At(a: seq<real>, b: seq<real>, c: seq<real>, d: seq<real>, i: int, j: int, k: int, l: int)
    requires 0 <= i < |a| && 0 <= j < |b| && 0 <= k < |c| && 0 <= l < |d|
    ensures |Table4(a, b, c, d)| == |a| * |b| * |c| * |d|
    ensures 0 <= Index4(i, j, k, l, |b|, |c|, |d|) < |a| * |b| * |c| * |d|
    ensures Table4(a, b, c, d)[Index4(i, j, k, l, |b|, |c|, |d|)] == [a[i], b[j], c[k], d[l]]
  {
    Table4Length(a, b, c, d);
    Table3At(b, c, d, j, k, l);
    CrossAt(a, Table3(b, c, d), i, Index3(j, k, l, |c|, |d|));
    Nest4(i, j, k, l, |b|, |c|, |d|);
    Index4Bijective(i, j, k, l, i, j, k, l, |a|, |b|, |c|, |d|);
  }

  /** No value occurs twice in s. */
  predicate Distinct(s: seq<real>) {
    forall i, j :: 0 <= i < |s| && 0 <= j < |s| && i != j ==> s[i] != s[j]
  }

  /** The n evenly spaced values from a to b that linspace gives. */
  function Range(a: real, b: real, n: int): seq<real>
    requires n >= 2
  {
    seq(n, i requires 0 <= i < n => Util.Spaced(a, b, n, i))
  }

  /** Every value of a range lies between its ends. */
  lemma RangeWithin(a: real, b: real, n: int, i: int)
    requires n >= 2 && a <= b && 0 <= i < n
    ensures a <= Range(a, b, n)[i] <= b
  {
    Util.SpacedWithin(a, b, n, i);
  }

  /** Two values of an increasing range at different indices differ. */
  lemma RangeDistinct(a: real, b: real, n: int, i: int, j: int)
    requires n >= 2 && a < b && 0 <= i < n && 0 <= j < n && i != j
    ensures Range(a, b, n)[i] != Range(a, b, n)[j]
  {
    if i < j {
      Util.SpacedIncreasing(a, b, n, i, j);
    } else {
      Util.SpacedIncreasing(a, b, n, j, i);
    }
  }

  /** An increasing range repeats no value. */
  lemma RangeIsDistinct(a: real, b: real, n: int)
    requires n >= 2 && a < b
    ensures Distinct(Range(a, b, n))
  {
    forall i, j | 0 <= i < n && 0 <= j < n && i != j
      ensures Range(a, b, n)[i] != Range(a, b, n)[j]
    {
      RangeDistinct(a, b, n, i, j);
    }
  }

  /** When no range repeats a value, no row of the table of three ranges occurs
      twice. */
  lemma Table3Distinct(a: seq<real>, b: seq<real>, c: seq<real>, p: int, p': int)
    requires Distinct(a) && Distinct(b) && Distinct(c)
    requires 0 <= p < |a| * |b| * |c| && 0 <= p' < |a| * |b| * |c| && p != p'
    ensures |Table3(a, b, c)| == |a| * |b| * |c|
    ensures Table3(a, b, c)[p] != Table3(a, b, c)[p']
  {
    var i, j, k := Index3Onto(p, |a|, |b|, |c|);
    var i', j', k' := Index3Onto(p', |a|, |b|, |c|);
    Table3At(a, b, c, i, j, k);
    Table3At(a, b, c, i', j', k');
    Index3Bijective(i, j, k, i', j', k', |a|, |b|, |c|);
    var r, r' := Table3(a, b, c)[p], Table3(a, b, c)[p'];
    if i != i' {
      assert r[0] != r'[0];
    } else if j != j' {
      assert r[1] != r'[1];
    } else {
      assert r[2] != r'[2];
    }
  }

  /** When no range repeats a value, no row of the table occurs twice: every
      combination is listed exactly once. */
  lemma Table4Distinct(a: seq<real>, b: seq<real>, c: seq<real>, d: seq<real>, p: int, p': int)
    requires Distinct(a) && Distinct(b) && Distinct(c) && Distinct(d)
    requires 0 <= p < |a| * |b| * |c| * |d| && 0 <= p' < |a| * |b| * |c| * |d| && p != p'
    ensures |Table4(a, b, c, d)| == |a| * |b| * |c| * |d|
    ensures Table4(a, b, c, d)[p] != Table4(a, b, c, d)[p']
  {
    var i, j, k, l := Index4Onto(p, |a|, |b|, |c|, |d|);
    var i', j', k', l' := Index4Onto(p', |a|, |b|, |c|, |d|);
    Table4At(a, b, c, d, i, j, k, l);
    Table4At(a, b, c, d, i', j', k', l');
    Index4Bijective(i, j, k, l, i', j', k', l', |a|, |b|, |c|, |d|);
    var r, r' := Table4(a, b, c, d)[p], Table4(a, b, c, d)[p'];
    if i != i' {
      assert r[0] != r'[0];
    } else if j != j' {
      assert r[1] != r'[1];
    } else if k != k' {
      assert r[2] != r'[2];
    } else {
      assert r[3] != r'[3];
    }
  }

  //---------------------------------------------------------------------------
  // the nested loops of the drivers

  /** The inner loop of three: the rows of (a[i], b[j]) with every value of c. */
  method FillRun3(param: array<seq<real>>, a: seq<real>, b: seq<real>, c: seq<real>,
                  i: int, j: int, count0: int) returns (count: int)
    requires 0 <= i < |a| && 0 <= j < |b|
    requires |Table3(a, b, c)| == param.Length
    requires count0 == Index3(i, j, 0, |b|, |c|) && 0 <= count0 <= param.Length
    requires forall r :: 0 <= r < count0 ==> param[r] == Table3(a, b, c)[r]
    modifies param
    ensures count == Index3(i, j + 1, 0, |b|, |c|) && count <= param.Length
    ensures forall r :: 0 <= r < count ==> param[r] == Table3(a, b, c)[r]
  {
    ghost var T := Table3(a, b, c);
    count := count0;
    for k := 0 to |c|
      invariant count == Index3(i, j, k, |b|, |c|) && count <= param.Length
      invariant forall r :: 0 <= r < count ==> param[r] == T[r]
    {
      Table3At(a, b, c, i, j, k);
      param[count] := [a[i], b[j], c[k]];
      count := count + 1;
    }
    Util.MulSucc(Pair(i, j, |b|), |c|);
  }

  /** The middle loop of three: the rows starting with a[i]. */
  method FillSlab3(param: array<seq<real>>, a: seq<real>, b: seq<real>, c: seq<real>,
                   i: int, count0: int) returns (count: int)
    requires 0 <= i < |a|
    requires |Table3(a, b, c)| == param.Length
    requires count0 == Index3(i, 0, 0, |b|, |c|) && 0 <= count0 <= param.Length
    requires forall r :: 0 <= r < count0 ==> param[r] == Table3(a, b, c)[r]
    modifies param
    ensures count == Index3(i + 1, 0, 0, |b|, |c|) && count <= param.Length
    ensures forall r :: 0 <= r < count ==> param[r] == Table3(a, b, c)[r]
  {
    count := count0;
    for j := 0 to |b|
      invariant count == Index3(i, j, 0, |b|, |c|) && 0 <= count <= param.Length
      invariant forall r :: 0 <= r < count ==> param[r] == Table3(a, b, c)[r]
    {
      count := FillRun3(param, a, b, c, i, j, count);
    }
    Util.MulSucc(i, |b|);
  }

  /** Fills the table of three ranges row by row with a running count. */
  method FillTable3(a: seq<real>, b: seq<real>, c: seq<real>) returns (param: array<seq<real>>)
    ensures fresh(param)
    ensures param.Length == |a| * |b| * |c|
    ensures param[..] == Table3(a, b, c)
  {
    Table3Length(a, b, c);
    param := new seq<real>[|a| * |b| * |c|];
    var count := 0;
    for i := 0 to |a|
      invariant count == Index3(i, 0, 0, |b|, |c|) && 0 <= count <= param.Length
      invariant forall r :: 0 <= r < count ==> param[r] == Table3(a, b, c)[r]
    {
      count := FillSlab3(param, a, b, c, i, count);
    }
  }

  /** The innermost of the four loops: the rows of (a[i], b[j], c[k]) with every
      value of d. */
  method FillRun4(param: array<seq<real>>, a: seq<real>, b: seq<real>, c: seq<real>, d: seq<real>,
                  i: int, j: int, k: int, count0: int) returns (count: int)
    requires 0 <= i < |a| && 0 <= j < |b| && 0 <= k < |c|
    requires |Table4(a, b, c, d)| == param.Length
    requires count0 == Index4(i, j, k, 0, |b|, |c|, |d|) && 0 <= count0 <= param.Length
    requires forall r :: 0 <= r < count0 ==> param[r] == Table4(a, b, c, d)[r]
    modifies param
    ensures count == Index4(i, j, k + 1, 0, |b|, |c|, |d|) && count <= param.Length
    ensures forall r :: 0 <= r < count ==> param[r] == Table4(a, b, c, d)[r]
  {
    ghost var T := Table4(a, b, c, d);
    count := count0;
    for l := 0 to |d|
      invariant count == Index4(i, j, k, l, |b|, |c|, |d|) && count <= param.Length
      invariant forall r :: 0 <= r < count ==> param[r] == T[r]
    {
      Table4At(a, b, c, d, i, j, k, l);
      param[count] := [a[i], b[j], c[k], d[l]];
      count := count + 1;
    }
    Util.MulSucc(Index3(i, j, k, |b|, |c|), |d|);
  }

  /** The third of the four loops: the rows of (a[i], b[j]) with every value of
      c and d. */
  method FillBlock4(param: array<seq<real>>, a: seq<real>, b: seq<real>, c: seq<real>, d: seq<real>,
                    i: int, j: int, count0: int) returns (count: int)
    requires 0 <= i < |a| && 0 <= j < |b|
    requires |Table4(a, b, c, d)| == param.Length
    requires count0 == Index4(i, j, 0, 0, |b|, |c|, |d|) && 0 <= count0 <= param.Length
    requires forall r :: 0 <= r < count0 ==> param[r] == Table4(a, b, c, d)[r]
    modifies param
    ensures count == Index4(i, j + 1, 0, 0, |b|, |c|, |d|) && count <= param.Length
    ensures forall r :: 0 <= r < count ==> param[r] == Table4(a, b, c, d)[r]
  {
    count := count0;
    for k := 0 to |c|
      invariant count == Index4(i, j, k, 0, |b|, |c|, |d|) && 0 <= count <= param.Length
      invariant forall r :: 0 <= r < count ==> param[r] == Table4(a, b, c, d)[r]
    {
      count := FillRun4(param, a, b, c, d, i, j, k, count);
    }
    Util.MulSucc(Pair(i, j, |b|), |c|);
  }

  /** The second of the four loops: the rows starting with a[i]. */
  method FillSlab4(param: array<seq<real>>, a: seq<real>, b: seq<real>, c: seq<real>, d: seq<real>,
                   i: int, count0: int) returns (count: int)
    requires 0 <= i < |a|
    requires |Table4(a, b, c, d)| == param.Length
    requires count0 == Index4(i, 0, 0, 0, |b|, |c|, |d|) && 0 <= count0 <= param.Length
    requires forall r :: 0 <= r < count0 ==> param[r] == Table4(a, b, c, d)[r]
    modifies param
    ensures count == Index4(i + 1, 0, 0, 0, |b|, |c|, |d|) && count <= param.Length
    ensures forall r :: 0 <= r < count ==> param[r] == Table4(a, b, c, d)[r]
  {
    count := count0;
    for j := 0 to |b|
      invariant count == Index4(i, j, 0, 0, |b|, |c|, |d|) && 0 <= count <= param.Length
      invariant forall r :: 0 <= r < count ==> param[r] == Table4(a, b, c, d)[r]
    {
      count := FillBlock4(param, a, b, c, d, i, j, count);
    }
    Util.MulSucc(i, |b|);
  }

  /** Fills the table of four ranges row by row with a running count. */
  method FillTable4(a: seq<real>, b: seq<real>, c: seq<real>, d: seq<real>) returns (param: array<seq<real>>)
    ensures fresh(param)
    ensures param.Length == |a| * |b| * |c| * |d|
    ensures param[..] == Table4(a, b, c, d)
  {
    Table4Length(a, b, c, d);
    param := new seq<real>[|a| * |b| * |c| * |d|];
    var count := 0;
    for i := 0 to |a|
      invariant count == Index4(i, 0, 0, 0, |b|, |c|, |d|) && 0 <= count <= param.Length
      invariant forall r :: 0 <= r < count ==> param[r] == Table4(a, b, c, d)[r]
    {
      count := FillSlab4(param, a, b, c, d, i, count);
    }
  }
}
