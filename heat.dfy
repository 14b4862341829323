/** The discretised heat equation of a Heat object on a finite-volume grid: its
    material profiles and initial geotherm, the largest stable time step, the
    right-hand side handed to the integrator (edge gradients, edge fluxes and cell
    tendencies) and the values tracked after every step. */
module HeatEquation {
  import opened Wrappers
  import Util
  import Config
  import Grids
  import Reals

  /** exp, left uninterpreted. */
  const Exp: real -> real

  //---------------------------------------------------------------------------
  // parameter functions of the base model

  /** Surface temperature, relaxing from Tsa towards Tsb on the time scale Tsc. */
  function SurfaceTemp(t: real, Tsa: real, Tsb: real, Tsc: real): real
    requires Tsc != 0.0
  {
    Tsa + (Tsb - Tsa) * (1.0 - Exp(-t / Tsc))
  }

  /** At t = 0 the surface is at Tsa, whatever Tsb and Tsc are. */
  lemma SurfaceTempStart(Tsa: real, Tsb: real, Tsc: real)
    requires Tsc != 0.0 && Exp(0.0) == 1.0
    ensures SurfaceTemp(0.0, Tsa, Tsb, Tsc) == Tsa
  {
    assert -0.0 / Tsc == 0.0;
  }

  /** While exp of the scaled time lies in [0, 1], the surface temperature lies
      between Tsa and Tsb. */
  lemma SurfaceTempBetween(t: real, Tsa: real, Tsb: real, Tsc: real)
    requires Tsc != 0.0 && 0.0 <= Exp(-t / Tsc) <= 1.0
    ensures Tsa <= Tsb ==> Tsa <= SurfaceTemp(t, Tsa, Tsb, Tsc) <= Tsb
    ensures Tsb <= Tsa ==> Tsb <= SurfaceTemp(t, Tsa, Tsb, Tsc) <= Tsa
  {
    var f := 1.0 - Exp(-t / Tsc);
    Reals.BetweenByFraction(Tsa, Tsb, f);
    assert (Tsb - Tsa) * f == f * (Tsb - Tsa);
  }

  /** Geothermal flux; the base model holds it constant in time. */
  function FQgeo(qgeo0: real, t: real): real {
    qgeo0
  }

  /** Conductivity; the base model holds it constant in depth. */
  function FK(k0: real, depth: real): real {
    k0
  }

  /** Density; the base model holds it constant in depth. */
  function FRho(rho0: real, depth: real): real {
    rho0
  }

  /** Specific heat; the base model holds it constant in depth. */
  function FC(c0: real, depth: real): real {
    c0
  }

  //---------------------------------------------------------------------------
  // physical functions

  /** Linear temperature profile carrying the flux qgeo through conductivity kk. */
  function Geotherm(T0: real, qgeo: real, kk: real, depth: real): real
    requires kk != 0.0
  {
    T0 + qgeo * depth / kk
  }

  /** Conductive flux down a gradient. */
  function Flux(dTdz: real, kk: real): real {
    -dTdz * kk
  }

  /** Rate of change of a cell's temperature from the fluxes through its bottom
      and top edges. */
  function Tendency(qb: real, qt: real, cap: real, delz: real): real
    requires cap != 0.0 && delz != 0.0
  {
    ((qb - qt) / cap) / delz
  }

  /** The geotherm rises by qgeo/kk per unit depth, so conduction through kk
      carries exactly qgeo along it. */
  lemma GeothermSlope(T0: real, qgeo: real, kk: real, a: real, b: real)
    requires kk != 0.0
    ensures Geotherm(T0, qgeo, kk, b) - Geotherm(T0, qgeo, kk, a) == (qgeo / kk) * (b - a)
  {
    Reals.MulDiv(qgeo, b, kk);
    Reals.MulDiv(qgeo, a, kk);
    Reals.MulSub(qgeo / kk, b, a);
  }

  /** Heat stored per unit area by a tendency equals the net flux into the cell. */
  lemma TendencyBalance(qb: real, qt: real, cap: real, delz: real)
    requires cap != 0.0 && delz != 0.0
    ensures cap * delz * Tendency(qb, qt, cap, delz) == qb - qt
  {
    Reals.CancelDivs(qb - qt, cap, delz);
  }

  //---------------------------------------------------------------------------
  // the right-hand side of the semi-discrete equation

  /** The shapes and nonzero divisors the edge gradients need. */
  ghost predicate Columns(T: seq<real>, gefac: seq<Option<real>>, k: seq<real>, delz: seq<real>) {
    && |T| >= 1 && |gefac| == |T| + 1 && |k| == |T| + 1 && |delz| == |T|
    && k[0] != 0.0 && delz[|T| - 1] != 0.0
    && forall i :: 0 < i < |T| ==> gefac[i].Some?
  }

  /** Temperature gradient at an edge i below the surface: set by the
      geothermal flux at the bottom and by the neighbouring cells inside. */
  function InnerGradient(T: seq<real>, gefac: seq<Option<real>>, k: seq<real>, delz: seq<real>,
                         qgeo: real, i: nat): real
    requires Columns(T, gefac, k, delz) && i < |T|
  {
    if i == 0 then -qgeo / k[0]
    else gefac[i].value * (T[i] - T[i - 1])
  }

  /** Temperature gradient at edge i: the inner gradient below the surface, and
      the surface temperature over the top half cell at the top edge. */
  function EdgeGradient(T: seq<real>, gefac: seq<Option<real>>, k: seq<real>, delz: seq<real>,
                        qgeo: real, ts: real, i: nat): real
    requires Columns(T, gefac, k, delz) && i <= |T|
  {
    if i == |T| then (ts - T[|T| - 1]) / (delz[|T| - 1] / 2.0)
    else InnerGradient(T, gefac, k, delz, qgeo, i)
  }

  /** Conductive flux at edge i. */
  function EdgeFlux(T: seq<real>, gefac: seq<Option<real>>, k: seq<real>, delz: seq<real>,
                    qgeo: real, ts: real, i: nat): real
    requires Columns(T, gefac, k, delz) && i <= |T|
  {
    Flux(EdgeGradient(T, gefac, k, delz, qgeo, ts, i), k[i])
  }

  /** The bottom edge passes exactly the geothermal flux. */
  lemma BottomFluxIsGeothermal(T: seq<real>, gefac: seq<Option<real>>, k: seq<real>, delz: seq<real>,
                               qgeo: real, ts: real)
    requires Columns(T, gefac, k, delz)
    ensures EdgeFlux(T, gefac, k, delz, qgeo, ts, 0) == qgeo
  {
    Reals.DivMul(qgeo, k[0]);
    assert -(-qgeo / k[0]) * k[0] == (qgeo / k[0]) * k[0];
  }

  /** Heat stored in the first m cells at the given rates, cap times width times rate. */
  function Stored(cap: seq<real>, delz: seq<real>, f: seq<real>, m: nat): real
    requires m <= |cap| && m <= |delz| && m <= |f|
  {
    if m == 0 then 0.0 else Stored(cap, delz, f, m - 1) + cap[m - 1] * delz[m - 1] * f[m - 1]
  }

  /** Energy balance: the flux differences telescope, so the heat gained by the
      first m cells is what enters at the bottom minus what leaves through edge m. */
  lemma {:induction false} EnergyBalance(q: seq<real>, cap: seq<real>, delz: seq<real>, f: seq<real>, m: nat)
    requires |q| == |cap| + 1 && |delz| == |cap| && |f| == |cap| && m <= |cap|
    requires forall i :: 0 <= i < |cap| ==> cap[i] != 0.0 && delz[i] != 0.0
    requires forall i :: 0 <= i < |cap| ==> f[i] == Tendency(q[i], q[i + 1], cap[i], delz[i])
    ensures Stored(cap, delz, f, m) == q[0] - q[m]
  {
    if m > 0 {
      EnergyBalance(q, cap, delz, f, m - 1);
      TendencyBalance(q[m - 1], q[m], cap[m - 1], delz[m - 1]);
    }
  }

  /** A column at one uniform temperature, with no geothermal flux and the surface
      at that same temperature, conducts nothing and does not change. */
  lemma UniformSteady(T: seq<real>, gefac: seq<Option<real>>, k: seq<real>, cap: seq<real>,
                      delz: seq<real>, u: real, i: nat)
    requires Columns(T, gefac, k, delz) && i <= |T|
    requires forall j :: 0 <= j < |T| ==> T[j] == u
    ensures EdgeFlux(T, gefac, k, delz, 0.0, u, i) == 0.0
    ensures i < |T| && |cap| == |T| && cap[i] != 0.0 && delz[i] != 0.0 ==>
      Tendency(EdgeFlux(T, gefac, k, delz, 0.0, u, i), EdgeFlux(T, gefac, k, delz, 0.0, u, i + 1),
               cap[i], delz[i]) == 0.0
  {
    if i < |T| {
      assert EdgeGradient(T, gefac, k, delz, 0.0, u, i + 1) == 0.0;
    }
  }

  /** Inside the column, the gradient factor g = 1/(b - a) of two geotherm values
      at depths -a and -b gives back the geothermal flux. */
  lemma InteriorGeothermFlux(a: real, b: real, Ta: real, Tb: real, g: real, T0: real, qgeo: real, k0: real)
    requires a < b && k0 != 0.0 && g == 1.0 / (b - a)
    requires Ta == Geotherm(T0, qgeo, k0, -a) && Tb == Geotherm(T0, qgeo, k0, -b)
    ensures Flux(g * (Tb - Ta), k0) == qgeo
  {
    var r := qgeo / k0;
    GeothermSlope(T0, qgeo, k0, -a, -b);
    assert Tb - Ta == r * (a - b);
    Reals.RecipOfOpposite(r, a - b, b - a);
    assert g * (Tb - Ta) == 0.0 - r;
    Reals.DivMul(qgeo, k0);
  }

  /** Over the top half cell, from the surface value T0 down to the geotherm at
      the last centre h (half the last edge, so the width is -2h). */
  lemma SurfaceGeothermFlux(h: real, w: real, Tl: real, T0: real, qgeo: real, k0: real)
    requires h != 0.0 && w + 2.0 * h == 0.0 && k0 != 0.0 && Tl == Geotherm(T0, qgeo, k0, -h)
    ensures Flux((T0 - Tl) / (w / 2.0), k0) == qgeo
  {
    var r := qgeo / k0;
    Reals.MulDiv(qgeo, -h, k0);
    assert T0 - Tl == r * h;
    Reals.HalfOfOpposite(r, h, w);
    assert (T0 - Tl) / (w / 2.0) == 0.0 - r;
    Reals.DivMul(qgeo, k0);
  }

  /** An interior edge between two geotherm values carries the geothermal flux. */
  lemma InteriorEdgeFlux(T: seq<real>, gefac: seq<Option<real>>, k: seq<real>, delz: seq<real>,
                         qgeo: real, ts: real, i: nat, a: real, b: real, T0: real, k0: real)
    requires Columns(T, gefac, k, delz) && 0 < i < |T| && a < b && k0 != 0.0 && k[i] == k0
    requires gefac[i] == Some(1.0 / (b - a))
    requires T[i - 1] == Geotherm(T0, qgeo, k0, -a) && T[i] == Geotherm(T0, qgeo, k0, -b)
    ensures EdgeFlux(T, gefac, k, delz, qgeo, ts, i) == qgeo
  {
    InteriorGeothermFlux(a, b, T[i - 1], T[i], gefac[i].value, T0, qgeo, k0);
  }

  /** The top edge, with the surface at T0 above a geotherm value, carries the
      geothermal flux. */
  lemma TopEdgeFlux(T: seq<real>, gefac: seq<Option<real>>, k: seq<real>, delz: seq<real>,
                    qgeo: real, h: real, T0: real, k0: real)
    requires Columns(T, gefac, k, delz) && k0 != 0.0 && k[|T|] == k0
    requires h != 0.0 && delz[|T| - 1] + 2.0 * h == 0.0
    requires T[|T| - 1] == Geotherm(T0, qgeo, k0, -h)
    ensures EdgeFlux(T, gefac, k, delz, qgeo, T0, |T|) == qgeo
  {
    SurfaceGeothermFlux(h, delz[|T| - 1], T[|T| - 1], T0, qgeo, k0);
  }

  /** The shapes and divisors of the grid are the ones the right-hand side needs. */
  lemma GridColumns(T: seq<real>, ze: seq<real>, zc: seq<real>, delz: seq<real>,
                    gefac: seq<Option<real>>, k: seq<real>, k0: real)
    requires Grids.Centres(ze, zc) && Grids.Widths(ze, delz) && Grids.GefacOf(zc, gefac)
    requires Grids.Ascending(ze)
    requires |T| == |zc| && |k| == |ze| && k0 != 0.0
    requires forall j :: 0 <= j < |k| ==> k[j] == k0
    ensures Columns(T, gefac, k, delz)
  {
    var n := |T|;
    assert delz[n - 1] == ze[n] - ze[n - 1];
    assert ze[n - 1] < ze[n];
    assert k[0] == k0;
    forall j | 0 < j < n
      ensures gefac[j].Some?
    {
      assert gefac[j] == Some(1.0 / (zc[j] - zc[j - 1]));
    }
  }

  /** Steady state: on a grid whose top edge is at 0, a geotherm in constant
      conductivity k0 with the surface at its own surface value T0 carries the
      geothermal flux through every edge. */
  lemma GeothermSteady(T: seq<real>, ze: seq<real>, zc: seq<real>, delz: seq<real>,
                       gefac: seq<Option<real>>, k: seq<real>, T0: real, qgeo: real, k0: real, i: nat)
    requires Grids.Centres(ze, zc) && Grids.Widths(ze, delz) && Grids.GefacOf(zc, gefac)
    requires Grids.Ascending(ze) && ze[|zc|] == 0.0
    requires |T| == |zc| && |k| == |ze| && k0 != 0.0
    requires forall j :: 0 <= j < |k| ==> k[j] == k0
    requires forall j :: 0 <= j < |T| ==> T[j] == Geotherm(T0, qgeo, k0, -zc[j])
    requires i <= |T|
    ensures Columns(T, gefac, k, delz)
    ensures EdgeFlux(T, gefac, k, delz, qgeo, T0, i) == qgeo
  {
    var n := |T|;
    GridColumns(T, ze, zc, delz, gefac, k, k0);
    assert k[i] == k0;
    if i == 0 {
      BottomFluxIsGeothermal(T, gefac, k, delz, qgeo, T0);
    } else if i == n {
      var h := zc[n - 1];
      assert h == ze[n - 1] / 2.0 && ze[n - 1] < ze[n];
      assert delz[n - 1] == ze[n] - ze[n - 1];
      TopEdgeFlux(T, gefac, k, delz, qgeo, h, T0, k0);
    } else {
      assert zc[i - 1] < zc[i];
      assert gefac[i] == Some(1.0 / (zc[i] - zc[i - 1]));
      InteriorEdgeFlux(T, gefac, k, delz, qgeo, T0, i, zc[i - 1], zc[i], T0, k0);
    }
  }

  /** Consequently every cell tendency of that geotherm is zero. */
  lemma GeothermAtRest(T: seq<real>, ze: seq<real>, zc: seq<real>, delz: seq<real>,
                       gefac: seq<Option<real>>, k: seq<real>, cap: seq<real>,
                       T0: real, qgeo: real, k0: real, i: nat)
    requires Grids.Centres(ze, zc) && Grids.Widths(ze, delz) && Grids.GefacOf(zc, gefac)
    requires Grids.Ascending(ze) && ze[|zc|] == 0.0
    requires |T| == |zc| && |k| == |ze| && |cap| == |T| && k0 != 0.0
    requires forall j :: 0 <= j < |k| ==> k[j] == k0
    requires forall j :: 0 <= j < |T| ==> T[j] == Geotherm(T0, qgeo, k0, -zc[j])
    requires i < |T| && cap[i] != 0.0 && delz[i] != 0.0
    ensures Columns(T, gefac, k, delz)
    ensures Tendency(EdgeFlux(T, gefac, k, delz, qgeo, T0, i), EdgeFlux(T, gefac, k, delz, qgeo, T0, i + 1),
                     cap[i], delz[i]) == 0.0
  {
    GeothermSteady(T, ze, zc, delz, gefac, k, T0, qgeo, k0, i);
    GeothermSteady(T, ze, zc, delz, gefac, k, T0, qgeo, k0, i + 1);
  }

  //---------------------------------------------------------------------------
  // the stable time step

  /** Heat capacity governing edge i: its only cell at either end, the larger of
      its two cells inside. */
  function EdgeCap(cap: seq<real>, i: nat): (r: real)
    requires 1 <= |cap| && i <= |cap|
    ensures (i < |cap| && r == cap[i]) || (0 < i && r == cap[i - 1])
    ensures i < |cap| ==> cap[i] <= r
    ensures 0 < i ==> cap[i - 1] <= r
  {
    if i == 0 then cap[0]
    else if i == |cap| then cap[|cap| - 1]
    else if cap[i] > cap[i - 1] then cap[i] else cap[i - 1]
  }

  /** The shapes and nonzero divisors the step bounds need. */
  ghost predicate StepsDefined(delze: seq<real>, k: seq<real>, cap: seq<real>) {
    && |cap| >= 1 && |delze| == |cap| + 1 && |k| == |cap| + 1
    && (forall i :: 0 <= i < |k| ==> k[i] != 0.0)
    && (forall i :: 0 <= i < |cap| ==> cap[i] != 0.0)
  }

  /** Explicit-diffusion step bound delze^2 / (2 k / C) at edge i. */
  function EdgeStep(delze: seq<real>, k: seq<real>, cap: seq<real>, i: nat): real
    requires StepsDefined(delze, k, cap) && i <= |cap|
  {
    var tem := EdgeCap(cap, i);
    Reals.QuotientNonzero(2.0 * k[i], tem);
    delze[i] * delze[i] / (2.0 * k[i] / tem)
  }

  /** dt is one of the first m edge bounds and none of them is smaller. */
  ghost predicate MinOverEdges(dt: real, delze: seq<real>, k: seq<real>, cap: seq<real>, m: nat)
    requires StepsDefined(delze, k, cap) && m <= |cap| + 1
  {
    && (exists i :: 0 <= i < m && dt == EdgeStep(delze, k, cap, i))
    && (forall i :: 0 <= i < m ==> dt <= EdgeStep(delze, k, cap, i))
  }

  /** The smallest bound over all edges. */
  ghost predicate IsMinStep(dt: real, delze: seq<real>, k: seq<real>, cap: seq<real>)
    requires StepsDefined(delze, k, cap)
  {
    MinOverEdges(dt, delze, k, cap, |cap| + 1)
  }

  /** The running minimum of the step bounds, starting from "infinity" (None). */
  method MinStableStep(delze: seq<real>, k: seq<real>, cap: seq<real>) returns (dtmax: real)
    requires StepsDefined(delze, k, cap)
    ensures IsMinStep(dtmax, delze, k, cap)
  {
    var n := |cap|;
    var best: Option<real> := None;
    for i := 0 to n + 1
      invariant best.None? <==> i == 0
      invariant best.Some? ==> MinOverEdges(best.value, delze, k, cap, i)
    {
      var tem: real;
      if i == 0 {
        tem := cap[0];
      } else if i == n {
        tem := cap[n - 1];
      } else {
        tem := if cap[i] > cap[i - 1] then cap[i] else cap[i - 1];
      }
      assert tem == EdgeCap(cap, i);
      var dt := EdgeStep(delze, k, cap, i);
      if best.None? || best.value > dt {
        best := Some(dt);
      }
    }
    dtmax := best.value;
  }

  /** With positive conductivities and capacities and nonzero edge widths every
      bound, and hence the smallest, is positive. */
  lemma StepPositive(dt: real, delze: seq<real>, k: seq<real>, cap: seq<real>)
    requires StepsDefined(delze, k, cap) && IsMinStep(dt, delze, k, cap)
    requires forall i :: 0 <= i < |k| ==> k[i] > 0.0
    requires forall i :: 0 <= i < |cap| ==> cap[i] > 0.0
    requires forall i :: 0 <= i < |delze| ==> delze[i] != 0.0
    ensures dt > 0.0
  {
    var i :| 0 <= i <= |cap| && dt == EdgeStep(delze, k, cap, i);
    var tem := EdgeCap(cap, i);
    assert tem > 0.0 by {
      if i < |cap| {
        assert cap[i] > 0.0;
      }
      if 0 < i {
        assert cap[i - 1] > 0.0;
      }
    }
    assert k[i] > 0.0;
    Reals.StepBoundPositive(delze[i], k[i], tem);
  }

  //---------------------------------------------------------------------------
  // loops of the constructor

  /** Density at the depth -z of every cell centre. */
  method Densities(z: seq<real>, rho0: real) returns (r: seq<real>)
    ensures |r| == |z|
    ensures forall i :: 0 <= i < |z| ==> r[i] == FRho(rho0, -z[i])
  {
    r := [];
    for i := 0 to |z|
      invariant |r| == i
      invariant forall j :: 0 <= j < i ==> r[j] == FRho(rho0, -z[j])
    {
      r := r + [FRho(rho0, -z[i])];
    }
  }

  /** Specific heat at the depth -z of every cell centre. */
  method SpecificHeats(z: seq<real>, c0: real) returns (r: seq<real>)
    ensures |r| == |z|
    ensures forall i :: 0 <= i < |z| ==> r[i] == FC(c0, -z[i])
  {
    r := [];
    for i := 0 to |z|
      invariant |r| == i
      invariant forall j :: 0 <= j < i ==> r[j] == FC(c0, -z[j])
    {
      r := r + [FC(c0, -z[i])];
    }
  }

  /** Conductivity at the depth -z of every edge. */
  method Conductivities(z: seq<real>, k0: real) returns (r: seq<real>)
    ensures |r| == |z|
    ensures forall i :: 0 <= i < |z| ==> r[i] == FK(k0, -z[i])
  {
    r := [];
    for i := 0 to |z|
      invariant |r| == i
      invariant forall j :: 0 <= j < i ==> r[j] == FK(k0, -z[j])
    {
      r := r + [FK(k0, -z[i])];
    }
  }

  /** Entrywise products of two profiles. */
  function Products(a: seq<real>, b: seq<real>): (r: seq<real>)
    requires |a| == |b|
    ensures |r| == |a|
  {
    if a == [] then [] else [a[0] * b[0]] + Products(a[1..], b[1..])
  }

  /** Entry i of Products is the product of the entries i. */
  lemma {:induction false} ProductsAt(a: seq<real>, b: seq<real>, i: nat)
    requires |a| == |b| && i < |a|
    ensures Products(a, b)[i] == a[i] * b[i]
    decreases i
  {
    if i > 0 {
      ProductsAt(a[1..], b[1..], i - 1);
    }
  }

  /** An entry of Products whose factors are given. */
  lemma ProductAt(a: seq<real>, b: seq<real>, a0: real, b0: real, i: nat)
    requires |a| == |b| && i < |a| && a[i] == a0 && b[i] == b0
    ensures Products(a, b)[i] == a0 * b0
  {
    ProductsAt(a, b, i);
  }

  /** Products of constant profiles are constant. */
  lemma ProductsOfConstants(a: seq<real>, b: seq<real>, a0: real, b0: real)
    requires |a| == |b|
    requires forall i :: 0 <= i < |a| ==> a[i] == a0 && b[i] == b0
    ensures forall i :: 0 <= i < |a| ==> Products(a, b)[i] == a0 * b0
  {
    forall i | 0 <= i < |a|
      ensures Products(a, b)[i] == a0 * b0
    {
      ProductAt(a, b, a0, b0, i);
    }
  }

  /** Heat capacity per unit volume of each cell. */
  method Capacities(rho: seq<real>, c: seq<real>) returns (cap: seq<real>)
    requires |rho| == |c|
    ensures cap == Products(rho, c)
  {
    cap := [];
    for i := 0 to |rho|
      invariant |cap| == i
      invariant forall j :: 0 <= j < i ==> cap[j] == rho[j] * c[j]
    {
      cap := cap + [rho[i] * c[i]];
    }
    forall j | 0 <= j < |rho|
      ensures cap[j] == Products(rho, c)[j]
    {
      ProductsAt(rho, c, j);
    }
  }

  /** Sets every cell to the geotherm at its centre's depth. */
  method FillGeotherm(sol: array<real>, zc: seq<real>, T0: real, qgeo: real, kk: real)
    requires sol.Length == |zc| && kk != 0.0
    modifies sol
    ensures forall i :: 0 <= i < |zc| ==> sol[i] == Geotherm(T0, qgeo, kk, -zc[i])
  {
    for i := 0 to |zc|
      invariant forall j :: 0 <= j < i ==> sol[j] == Geotherm(T0, qgeo, kk, -zc[j])
    {
      sol[i] := Geotherm(T0, qgeo, kk, -zc[i]);
    }
  }

  /** Constant materials make every step bound defined. */
  lemma ConstantSteps(delze: seq<real>, k: seq<real>, cap: seq<real>, cap0: real, k0: real)
    requires |delze| == |k| == |cap| + 1 && |cap| >= 1
    requires forall i :: 0 <= i < |cap| ==> cap[i] == cap0
    requires forall i :: 0 <= i < |k| ==> k[i] == k0
    requires k0 != 0.0 && cap0 != 0.0
    ensures StepsDefined(delze, k, cap)
  {
  }

  /** Strictly increasing edges have positive widths. */
  lemma WidthsPositive(ze: seq<real>, delz: seq<real>)
    requires Grids.Widths(ze, delz) && Grids.Ascending(ze)
    ensures forall i :: 0 <= i < |delz| ==> delz[i] > 0.0
  {
    forall i | 0 <= i < |delz|
      ensures delz[i] > 0.0
    {
      assert delz[i] == ze[i + 1] - ze[i] && ze[i] < ze[i + 1];
    }
  }

  /** The material profiles of a column and the stable step they allow. */
  method Materials(ze: seq<real>, zc: seq<real>, delze: seq<real>, rho0: real, c0: real, k0: real)
    returns (rho: seq<real>, c: seq<real>, k: seq<real>, cap: seq<real>, dtmax: real)
    requires |zc| >= 1 && |ze| == |zc| + 1 && |delze| == |ze|
    requires k0 != 0.0 && rho0 * c0 != 0.0
    ensures |rho| == |zc| && |c| == |zc| && |k| == |ze| && cap == Products(rho, c)
    ensures forall i :: 0 <= i < |zc| ==> rho[i] == rho0 && c[i] == c0 && cap[i] == rho0 * c0
    ensures forall i :: 0 <= i < |ze| ==> k[i] == k0
    ensures StepsDefined(delze, k, cap) && IsMinStep(dtmax, delze, k, cap)
  {
    rho := Densities(zc, rho0);
    c := SpecificHeats(zc, c0);
    k := Conductivities(ze, k0);
    cap := Capacities(rho, c);
    ProductsOfConstants(rho, c, rho0, c0);
    ConstantSteps(delze, k, cap, rho0 * c0, k0);
    dtmax := MinStableStep(delze, k, cap);
  }

  /** A fresh array of m zeros. */
  method Zeros(m: nat) returns (a: array<real>)
    ensures fresh(a) && a.Length == m
    ensures forall i :: 0 <= i < m ==> a[i] == 0.0
  {
    a := new real[m](_ => 0.0);
  }

  //---------------------------------------------------------------------------
  // the solver object

  class Heat {
    const stg: Config.Settings
    /** number of cells */
    const n: int
    const dep: real
    const ze: seq<real>
    const zc: seq<real>
    const delz: seq<real>
    const delze: seq<real>
    const vefac: seq<Option<real>>
    const gefac: seq<Option<real>>
    /** density, specific heat and capacity of each cell; conductivity at each edge */
    const rho: seq<real>
    const c: seq<real>
    const k: seq<real>
    const cap: seq<real>
    /** the integrator's solution buffer: one temperature per cell */
    const sol: array<real>
    /** gradients and fluxes at the edges, rewritten by every right-hand side */
    const dTdz: array<real>
    const q: array<real>
    /** largest stable time step */
    const dtmax: real
    /** values recorded after each step and at each snapshot */
    var t: seq<real>
    var Tmax: seq<real>
    var Tmin: seq<real>
    /** None where the surface temperature is undefined (NaN in the source) */
    var Ts: seq<Option<real>>
    var qs: seq<Option<real>>
    var tsnap: seq<real>

    /** The grid relations, the lengths of the profiles and buffers, and the
        capacities. */
    ghost predicate Valid() {
      && n >= 1 && |ze| == n + 1 && dep == ze[0]
      && Grids.Centres(ze, zc) && Grids.Widths(ze, delz) && Grids.EdgeWidthsOf(delz, delze)
      && Grids.VefacOf(ze, zc, vefac) && Grids.GefacOf(zc, gefac)
      && |rho| == n && |c| == n && |cap| == n && |k| == n + 1
      && cap == Products(rho, c)
      && sol.Length == n && dTdz.Length == n + 1 && q.Length == n + 1 && dTdz != q
    }

    /** The divisors of the right-hand side are nonzero. */
    ghost predicate Solvable()
      requires Valid()
    {
      k[0] != 0.0 && forall i :: 0 <= i < n ==> cap[i] != 0.0 && delz[i] != 0.0
    }

    constructor(grid: Grids.Grid, stgin: Config.Settings)
      requires grid.Valid()
      requires stgin.k0 != 0.0 && stgin.rho0 * stgin.c0 != 0.0 && stgin.Tsc != 0.0
      ensures Valid()
      ensures stg == stgin && n == grid.n && dep == grid.dep && ze == grid.ze && zc == grid.zc
      ensures delz == grid.delz && delze == grid.delze && vefac == grid.vefac && gefac == grid.gefac
      ensures forall i :: 0 <= i < n ==> rho[i] == stgin.rho0 && c[i] == stgin.c0
      ensures forall i :: 0 <= i <= n ==> k[i] == stgin.k0
      ensures forall i :: 0 <= i < n ==>
        sol[i] == Geotherm(SurfaceTemp(0.0, stgin.Tsa, stgin.Tsb, stgin.Tsc), stgin.qgeo0, stgin.k0, -zc[i])
      ensures forall i :: 0 <= i <= n ==> dTdz[i] == 0.0 && q[i] == 0.0
      ensures StepsDefined(delze, k, cap) && IsMinStep(dtmax, delze, k, cap)
      ensures Grids.Ascending(ze) ==> Solvable()
      ensures t == [] && Tmax == [] && Tmin == [] && Ts == [] && qs == [] && tsnap == []
      ensures fresh(sol) && fresh(dTdz) && fresh(q)
    {
      var nn, gdep, gze, gzc, gdelz, gdelze, gvefac, ggefac :=
        grid.n, grid.dep, grid.ze, grid.zc, grid.delz, grid.delze, grid.vefac, grid.gefac;
      var r, cc, kk, cp, dt := Materials(gze, gzc, gdelze, stgin.rho0, stgin.c0, stgin.k0);
      var T0, q0, k0 := SurfaceTemp(0.0, stgin.Tsa, stgin.Tsb, stgin.Tsc), FQgeo(stgin.qgeo0, 0.0), FK(stgin.k0, 0.0);
      var s := new real[nn];
      FillGeotherm(s, gzc, T0, q0, k0);
      var zg := Zeros(nn + 1);
      var zq := Zeros(nn + 1);
      stg := stgin;
      n := nn;
      dep := gdep;
      ze := gze;
      zc := gzc;
      delz := gdelz;
      delze := gdelze;
      vefac := gvefac;
      gefac := ggefac;
      rho := r;
      c := cc;
      k := kk;
      cap := cp;
      sol := s;
      dTdz := zg;
      q := zq;
      dtmax := dt;
      t := [];
      Tmax := [];
      Tmin := [];
      Ts := [];
      qs := [];
      tsnap := [];
      new;
      if Grids.Ascending(ze) {
        WidthsPositive(ze, delz);
      }
    }

    /** The step the integrator is offered: a fraction dtfac of dtmax. */
    function DtAdapt(): real {
      stg.dtfac * dtmax
    }

    /** The column seen by the right-hand side for any n temperatures. */
    lemma ColumnsOf(T: seq<real>)
      requires Valid() && Solvable() && |T| == n
      ensures Columns(T, gefac, k, delz)
    {
      forall j | 0 < j < n
        ensures gefac[j].Some?
      {
        assert gefac[j] == Some(1.0 / (zc[j] - zc[j - 1]));
      }
    }

    /** Gradients and fluxes of the temperatures in T at the edges below the
        surface; the top edge is left as it was. */
    method FillInnerEdges(T: array<real>, qgeo: real)
      requires Valid() && Solvable() && T.Length == n
      modifies dTdz, q
      ensures Columns(T[..], gefac, k, delz)
      ensures forall i :: 0 <= i < n ==> dTdz[i] == InnerGradient(T[..], gefac, k, delz, qgeo, i)
      ensures forall i :: 0 <= i < n ==> q[i] == Flux(dTdz[i], k[i])
      ensures dTdz[n] == old(dTdz[n]) && q[n] == old(q[n])
    {
      ColumnsOf(T[..]);
      assert T != dTdz && T != q;
      ghost var Tv := T[..];
      dTdz[0] := -qgeo / k[0];
      q[0] := Flux(dTdz[0], k[0]);
      for i := 1 to n
        invariant T[..] == Tv
        invariant forall j :: 0 <= j < i ==> dTdz[j] == InnerGradient(Tv, gefac, k, delz, qgeo, j)
        invariant forall j :: 0 <= j < i ==> q[j] == Flux(dTdz[j], k[j])
        invariant dTdz[n] == old(dTdz[n]) && q[n] == old(q[n])
      {
        var g := gefac[i].value * (T[i] - T[i - 1]);
        assert g == InnerGradient(Tv, gefac, k, delz, qgeo, i);
        dTdz[i] := g;
        q[i] := Flux(g, k[i]);
      }
    }

    /** Edge gradients and fluxes of the temperatures in T. */
    method FillEdges(T: array<real>, qgeo: real, ts: real)
      requires Valid() && Solvable() && T.Length == n
      modifies dTdz, q
      ensures Columns(T[..], gefac, k, delz)
      ensures forall i :: 0 <= i <= n ==> dTdz[i] == EdgeGradient(T[..], gefac, k, delz, qgeo, ts, i)
      ensures forall i :: 0 <= i <= n ==> q[i] == Flux(dTdz[i], k[i])
    {
      FillInnerEdges(T, qgeo);
      assert T != dTdz && T != q;
      dTdz[n] := (ts - T[n - 1]) / (delz[n - 1] / 2.0);
      q[n] := Flux(dTdz[n], k[n]);
    }

    /** Tendencies of the first m cells from the edge fluxes; the cells above are
        left as they were. */
    method FillTendencies(fout: array<real>, m: int)
      requires Valid() && Solvable() && fout.Length == n && 0 <= m <= n
      modifies fout
      ensures forall i :: 0 <= i < m ==> fout[i] == Tendency(q[i], q[i + 1], cap[i], delz[i])
      ensures forall i :: m <= i < n ==> fout[i] == old(fout[i])
    {
      for i := 0 to m
        invariant forall j :: 0 <= j < i ==> fout[j] == Tendency(q[j], q[j + 1], cap[j], delz[j])
        invariant forall j :: m <= j < n ==> fout[j] == old(fout[j])
      {
        fout[i] := Tendency(q[i], q[i + 1], cap[i], delz[i]);
      }
    }

    /** The right-hand side for the temperatures in solin, with the geothermal
        flux qgeo and the surface temperature ts given: gradients into dTdz,
        fluxes into q and tendencies into fout. solin may be fout itself. */
    method OdeFunWith(solin: array<real>, fout: array<real>, qgeo: real, ts: real)
      requires Valid() && Solvable() && solin.Length == n && fout.Length == n
      modifies dTdz, q, fout
      ensures Columns(old(solin[..]), gefac, k, delz)
      ensures forall i :: 0 <= i <= n ==> dTdz[i] == EdgeGradient(old(solin[..]), gefac, k, delz, qgeo, ts, i)
      ensures forall i :: 0 <= i <= n ==> q[i] == EdgeFlux(old(solin[..]), gefac, k, delz, qgeo, ts, i)
      ensures forall i :: 0 <= i < n ==> fout[i] == Tendency(q[i], q[i + 1], cap[i], delz[i])
      ensures q[0] == qgeo
    {
      FillEdges(solin, qgeo, ts);
      BottomFluxIsGeothermal(solin[..], gefac, k, delz, qgeo, ts);
      FillTendencies(fout, n);
    }

    /** The right-hand side for the temperatures in solin when the surface
        temperature is undefined: every gradient, flux and tendency that does not
        depend on it is written, and the top edge and the top cell, which the
        source fills with NaN, are left as they were. */
    method OdeFunInner(solin: array<real>, fout: array<real>, qgeo: real)
      requires Valid() && Solvable() && solin.Length == n && fout.Length == n
      modifies dTdz, q, fout
      ensures Columns(old(solin[..]), gefac, k, delz)
      ensures forall i :: 0 <= i < n ==> dTdz[i] == InnerGradient(old(solin[..]), gefac, k, delz, qgeo, i)
      ensures forall i :: 0 <= i < n ==> q[i] == Flux(dTdz[i], k[i])
      ensures forall i :: 0 <= i < n - 1 ==> fout[i] == Tendency(q[i], q[i + 1], cap[i], delz[i])
      ensures dTdz[n] == old(dTdz[n]) && q[n] == old(q[n]) && fout[n - 1] == old(fout[n - 1])
      ensures q[0] == qgeo
    {
      FillInnerEdges(solin, qgeo);
      BottomFluxIsGeothermal(solin[..], gefac, k, delz, qgeo, 0.0);
      FillTendencies(fout, n - 1);
    }

    /** The right-hand side at time tin of the base model's surface temperature
        and geothermal flux. */
    method OdeFun(solin: array<real>, fout: array<real>, tin: real)
      requires Valid() && Solvable() && solin.Length == n && fout.Length == n && stg.Tsc != 0.0
      modifies dTdz, q, fout
      ensures Columns(old(solin[..]), gefac, k, delz)
      ensures forall i :: 0 <= i <= n ==>
        dTdz[i] == EdgeGradient(old(solin[..]), gefac, k, delz, FQgeo(stg.qgeo0, tin),
                                SurfaceTemp(tin, stg.Tsa, stg.Tsb, stg.Tsc), i)
      ensures forall i :: 0 <= i <= n ==>
        q[i] == EdgeFlux(old(solin[..]), gefac, k, delz, FQgeo(stg.qgeo0, tin),
                         SurfaceTemp(tin, stg.Tsa, stg.Tsb, stg.Tsc), i)
      ensures forall i :: 0 <= i < n ==> fout[i] == Tendency(q[i], q[i + 1], cap[i], delz[i])
      ensures q[0] == stg.qgeo0
    {
      OdeFunWith(solin, fout, FQgeo(stg.qgeo0, tin), SurfaceTemp(tin, stg.Tsa, stg.Tsb, stg.Tsc));
    }

    /** The surface flux recorded after a step: the top-edge flux, but through the
        bottom conductivity k[0]. */
    function TrackedSurfaceFlux(ts: real): real
      requires Valid() && delz[n - 1] != 0.0
      reads sol
    {
      Flux((ts - sol[n - 1]) / (delz[n - 1] / 2.0), k[0])
    }

    /** The recorded surface flux for a surface temperature that may be
        undefined; an undefined one gives an undefined flux, as NaN does. */
    function TrackedFlux(ts: Option<real>): Option<real>
      requires Valid() && delz[n - 1] != 0.0
      reads sol
    {
      if ts.Some? then Some(TrackedSurfaceFlux(ts.value)) else None
    }

    /** Records the maximum and the minimum of the state when they are enabled. */
    method RecordExtremes()
      requires Valid()
      modifies this`Tmax, this`Tmin
      ensures stg.Tmax ==> |Tmax| == |old(Tmax)| + 1 && Tmax[..|old(Tmax)|] == old(Tmax)
                           && Util.IsMaxOf(Tmax[|old(Tmax)|], sol[..])
      ensures !stg.Tmax ==> Tmax == old(Tmax)
      ensures stg.Tmin ==> |Tmin| == |old(Tmin)| + 1 && Tmin[..|old(Tmin)|] == old(Tmin)
                           && Util.IsMinOf(Tmin[|old(Tmin)|], sol[..])
      ensures !stg.Tmin ==> Tmin == old(Tmin)
    {
      if stg.Tmax {
        var m := Util.Max(sol, n);
        Tmax := Tmax + [m];
      }
      if stg.Tmin {
        var m := Util.Min(sol, n);
        Tmin := Tmin + [m];
      }
    }

    /** Records one value in each enabled tracker, given the time tin and the
        surface temperature ts at that time, None when it is undefined. */
    method AfterStepWith(tin: real, ts: Option<real>)
      requires Valid() && delz[n - 1] != 0.0
      modifies this`Tmax, this`Tmin, this`Ts, this`qs, this`t
      ensures stg.Tmax ==> |Tmax| == |old(Tmax)| + 1 && Tmax[..|old(Tmax)|] == old(Tmax)
                           && Util.IsMaxOf(Tmax[|old(Tmax)|], sol[..])
      ensures !stg.Tmax ==> Tmax == old(Tmax)
      ensures stg.Tmin ==> |Tmin| == |old(Tmin)| + 1 && Tmin[..|old(Tmin)|] == old(Tmin)
                           && Util.IsMinOf(Tmin[|old(Tmin)|], sol[..])
      ensures !stg.Tmin ==> Tmin == old(Tmin)
      ensures Ts == old(Ts) + (if stg.Ts then [ts] else [])
      ensures qs == old(qs) + (if stg.qs then [TrackedFlux(ts)] else [])
      ensures t == old(t) + (if stg.t then [tin] else [])
    {
      RecordExtremes();
      if stg.Ts {
        Ts := Ts + [ts];
      }
      if stg.qs {
        qs := qs + [TrackedFlux(ts)];
      }
      if stg.t {
        t := t + [tin];
      }
    }

    /** The trackers after a step at time tin under the base surface temperature. */
    method AfterStep(tin: real)
      requires Valid() && delz[n - 1] != 0.0 && stg.Tsc != 0.0
      modifies this`Tmax, this`Tmin, this`Ts, this`qs, this`t
      ensures stg.Tmax ==> |Tmax| == |old(Tmax)| + 1 && Tmax[..|old(Tmax)|] == old(Tmax)
                           && Util.IsMaxOf(Tmax[|old(Tmax)|], sol[..])
      ensures !stg.Tmax ==> Tmax == old(Tmax)
      ensures stg.Tmin ==> |Tmin| == |old(Tmin)| + 1 && Tmin[..|old(Tmin)|] == old(Tmin)
                           && Util.IsMinOf(Tmin[|old(Tmin)|], sol[..])
      ensures !stg.Tmin ==> Tmin == old(Tmin)
      ensures Ts == old(Ts) + (if stg.Ts then [Some(SurfaceTemp(tin, stg.Tsa, stg.Tsb, stg.Tsc))] else [])
      ensures qs == old(qs) + (if stg.qs then [Some(TrackedSurfaceFlux(SurfaceTemp(tin, stg.Tsa, stg.Tsb, stg.Tsc)))] else [])
      ensures t == old(t) + (if stg.t then [tin] else [])
    {
      AfterStepWith(tin, Some(SurfaceTemp(tin, stg.Tsa, stg.Tsb, stg.Tsc)));
    }

    /** A snapshot at time tin records it when tsnap is enabled. */
    method AfterSnap(tin: real)
      modifies this`tsnap
      ensures tsnap == old(tsnap) + (if stg.tsnap then [tin] else [])
    {
      if stg.tsnap {
        tsnap := tsnap + [tin];
      }
    }
  }

  /** The solver heat runs on the cells of grid. */
  ghost predicate OnGrid(heat: Heat, grid: Grids.Grid) {
    heat.n == grid.n && heat.dep == grid.dep && heat.ze == grid.ze && heat.zc == grid.zc && heat.delz == grid.delz
  }

  lemma DtAdaptLess(h: Heat)
    requires 0.0 < h.stg.dtfac < 1.0 && h.dtmax > 0.0
    ensures h.DtAdapt() < h.dtmax
  {
    Reals.MulLess(h.stg.dtfac, h.dtmax);
  }

  lemma DtAdaptPositive(h: Heat)
    requires 0.0 < h.stg.dtfac && h.dtmax > 0.0
    ensures 0.0 < h.DtAdapt()
  {
    Reals.MulPos(h.stg.dtfac, h.dtmax);
  }

  /** With 0 < dtfac < 1 the offered step is positive and strictly inside the
      stability bound. */
  lemma DtAdaptBelow(h: Heat)
    requires 0.0 < h.stg.dtfac < 1.0 && h.dtmax > 0.0
    ensures 0.0 < h.DtAdapt() < h.dtmax
  {
    DtAdaptLess(h);
    DtAdaptPositive(h);
  }

  /** The recorded surface flux is the top-edge flux of the right-hand side
      whenever the conductivity at the bottom edge equals the one at the top,
      as it does for the base model's constant conductivity. */
  lemma TrackedFluxAgrees(h: Heat, qgeo: real, ts: real)
    requires h.Valid() && h.Solvable() && h.k[0] == h.k[h.n]
    ensures Columns(h.sol[..], h.gefac, h.k, h.delz)
    ensures h.TrackedSurfaceFlux(ts) == EdgeFlux(h.sol[..], h.gefac, h.k, h.delz, qgeo, ts, h.n)
  {
    h.ColumnsOf(h.sol[..]);
  }

  /** Right after construction on a grid with top edge 0, the state is at rest
      under a surface held at its initial temperature, f_Ts(0) = Tsa. The state
      requires are the constructor's own ensures. */
  lemma InitialStateAtRest(h: Heat, i: nat)
    requires h.Valid() && Grids.Ascending(h.ze) && h.ze[h.n] == 0.0 && h.Solvable()
    requires h.stg.Tsc != 0.0 && Exp(0.0) == 1.0
    requires forall j :: 0 <= j <= h.n ==> h.k[j] == h.stg.k0
    requires forall j :: 0 <= j < h.n ==>
      h.sol[j] == Geotherm(SurfaceTemp(0.0, h.stg.Tsa, h.stg.Tsb, h.stg.Tsc), h.stg.qgeo0, h.stg.k0, -h.zc[j])
    requires i < h.n
    ensures Columns(h.sol[..], h.gefac, h.k, h.delz)
    ensures Tendency(EdgeFlux(h.sol[..], h.gefac, h.k, h.delz, h.stg.qgeo0, h.stg.Tsa, i),
                     EdgeFlux(h.sol[..], h.gefac, h.k, h.delz, h.stg.qgeo0, h.stg.Tsa, i + 1),
                     h.cap[i], h.delz[i]) == 0.0
  {
    SurfaceTempStart(h.stg.Tsa, h.stg.Tsb, h.stg.Tsc);
    GeothermAtRest(h.sol[..], h.ze, h.zc, h.delz, h.gefac, h.k, h.cap, h.stg.Tsa, h.stg.qgeo0, h.stg.k0, i);
  }
}
