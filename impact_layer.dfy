/** The impact-layer variant of the solver: a hot layer of uniform temperature
    emplaced over a geotherm, and a surface temperature chosen by a mode — a
    constant, radiative balance with space solved by Newton's method, or
    interpolation in a table of times and temperatures. */
module ImpactLayers {
  import opened Wrappers
  import Util
  import Config
  import Grids
  import Reals
  import opened HeatEquation

  //---------------------------------------------------------------------------
  // the initial layer

  /** Initial temperature of the cell centred at z: the layer temperature above
      the depth deplayer, and below it the geotherm that starts at Tbelow at the
      bottom of the layer. */
  function LayerTemp(Tbelow: real, Tlayer: real, deplayer: real, qgeo0: real, k0: real, z: real): real
    requires k0 != 0.0
  {
    if -z < deplayer then Tlayer
    else Geotherm(Tbelow, FQgeo(qgeo0, 0.0), FK(k0, -z - deplayer), -z - deplayer)
  }

  /** Inside the layer the temperature is Tlayer; below it the geotherm rises
      from Tbelow at the layer's base by qgeo0/k0 per unit depth, so with an
      upward geothermal flux and a positive conductivity it never falls below
      Tbelow. */
  lemma LayerProfile(Tbelow: real, Tlayer: real, deplayer: real, qgeo0: real, k0: real, z: real)
    requires k0 != 0.0
    ensures -z < deplayer ==> LayerTemp(Tbelow, Tlayer, deplayer, qgeo0, k0, z) == Tlayer
    ensures -z >= deplayer ==>
      LayerTemp(Tbelow, Tlayer, deplayer, qgeo0, k0, z) == Tbelow + qgeo0 * (-z - deplayer) / k0
    ensures -z == deplayer ==> LayerTemp(Tbelow, Tlayer, deplayer, qgeo0, k0, z) == Tbelow
    ensures -z >= deplayer && qgeo0 >= 0.0 && k0 > 0.0 ==>
      LayerTemp(Tbelow, Tlayer, deplayer, qgeo0, k0, z) >= Tbelow
  {
    var d := -z - deplayer;
    if d >= 0.0 && qgeo0 >= 0.0 && k0 > 0.0 {
      Reals.MulNonNeg(qgeo0, d);
      Reals.DivNonNeg(qgeo0 * d, k0);
    }
  }

  //---------------------------------------------------------------------------
  // radiative surface temperature

  /** The Stefan-Boltzmann constant in SI units. */
  const Sigma: real := 0.0000000567

  /** Relative tolerance of the Newton iteration. */
  const Tolerance: real := 0.000000001

  /** Bound on the number of Newton steps; the source's loop has none. */
  const NewtonFuel: nat := 1000

  /** Conduction from the surface cell (temperature tend, conductivity kk, half
      width d) minus radiation to space, at surface temperature ts, scaled by d. */
  function Residual(ts: real, tend: real, kk: real, d: real): real {
    d * (Sigma * (ts * ts * ts * ts) - 114.0) + kk * ts - kk * tend
  }

  /** The derivative of Residual in ts. */
  function Slope(ts: real, kk: real, d: real): real {
    4.0 * d * Sigma * (ts * ts * ts) + kk
  }

  /** One Newton update; a zero slope, where the source would divide by zero,
      gives None. */
  function NewtonStep(ts: real, tend: real, kk: real, d: real): Option<real> {
    var df := Slope(ts, kk, d);
    if df == 0.0 then None else Some(ts - Residual(ts, tend, kk, d) / df)
  }

  function Abs(x: real): real {
    if x < 0.0 then -x else x
  }

  /** The stopping test: the last update moved by at most Tolerance relative to
      the new estimate. */
  predicate Converged(prev: real, cur: real) {
    Abs(prev - cur) <= Tolerance * Abs(cur)
  }

  /** The iteration from the estimate cur, with prev the estimate before it (None
      on entry, standing for the source's infinite start), and at most fuel
      further steps. */
  function Run(prev: Option<real>, cur: real, tend: real, kk: real, d: real, fuel: nat): Option<real>
    decreases fuel
  {
    if prev.Some? && Converged(prev.value, cur) then Some(cur)
    else if fuel == 0 then None
    else match NewtonStep(cur, tend, kk, d)
      case None => None
      case Some(next) => Run(Some(cur), next, tend, kk, d, fuel - 1)
  }

  /** Newton's method for the surface temperature that balances conduction from
      the surface cell against radiation, started at the cell's temperature. */
  method StefanBoltzmann(tend: real, kk: real, d: real, fuel: nat) returns (r: Option<real>)
    ensures r == Run(None, tend, tend, kk, d, fuel)
  {
    var prev: Option<real> := None;
    var cur := tend;
    var left := fuel;
    while !(prev.Some? && Converged(prev.value, cur))
      invariant Run(prev, cur, tend, kk, d, left) == Run(None, tend, tend, kk, d, fuel)
      decreases left
    {
      if left == 0 {
        return None;
      }
      var f := Residual(cur, tend, kk, d);
      var df := Slope(cur, kk, d);
      if df == 0.0 {
        return None;
      }
      prev := Some(cur);
      cur := cur - f / df;
      left := left - 1;
    }
    return Some(cur);
  }

  /** For a nonnegative temperature, a positive conductivity and a nonnegative
      width the slope is positive, so the update never divides by zero. */
  lemma SlopePositive(ts: real, kk: real, d: real)
    requires ts >= 0.0 && kk > 0.0 && d >= 0.0
    ensures Slope(ts, kk, d) > 0.0
    ensures NewtonStep(ts, 0.0, kk, d).Some?
  {
    Reals.MulNonNeg(ts, ts);
    Reals.MulNonNeg(ts * ts, ts);
    Reals.MulNonNeg(4.0 * d * Sigma, ts * ts * ts);
  }

  /** The update moves by the residual over the slope: the residual at x is the
      step length times the slope. */
  lemma StepResidual(x: real, y: real, tend: real, kk: real, d: real)
    requires NewtonStep(x, tend, kk, d) == Some(y)
    ensures Residual(x, tend, kk, d) == (x - y) * Slope(x, kk, d)
  {
    Reals.DivMul(Residual(x, tend, kk, d), Slope(x, kk, d));
  }

  /** Where the slope is nonzero, x is a fixed point of the update exactly when
      it is a root of the residual. */
  lemma FixedPointIsRoot(x: real, tend: real, kk: real, d: real)
    requires Slope(x, kk, d) != 0.0
    ensures NewtonStep(x, tend, kk, d) == Some(x) <==> Residual(x, tend, kk, d) == 0.0
  {
    var f, df := Residual(x, tend, kk, d), Slope(x, kk, d);
    if f != 0.0 {
      Reals.QuotientNonzero(f, df);
    }
  }

  /** A result of the iteration is the update of an estimate that it passed the
      stopping test against, so the residual there is the (small) step times the
      slope. */
  lemma {:induction false} RunConverged(prev: Option<real>, cur: real, tend: real, kk: real, d: real,
                                        fuel: nat, x: real) returns (p: real)
    requires prev.Some? ==> NewtonStep(prev.value, tend, kk, d) == Some(cur)
    requires Run(prev, cur, tend, kk, d, fuel) == Some(x)
    ensures NewtonStep(p, tend, kk, d) == Some(x) && Converged(p, x)
    decreases fuel
  {
    if prev.Some? && Converged(prev.value, cur) {
      p := prev.value;
    } else {
      var next := NewtonStep(cur, tend, kk, d).value;
      p := RunConverged(Some(cur), next, tend, kk, d, fuel - 1, x);
    }
  }

  /** A result x of the Newton iteration is the update of an estimate p that it
      passed the stopping test against, so the residual at p is that small step
      times the slope. */
  lemma NewtonResult(tend: real, kk: real, d: real, x: real) returns (p: real)
    requires Run(None, tend, tend, kk, d, NewtonFuel) == Some(x)
    ensures NewtonStep(p, tend, kk, d) == Some(x) && Converged(p, x)
    ensures Residual(p, tend, kk, d) == (p - x) * Slope(p, kk, d)
  {
    p := RunConverged(None, tend, tend, kk, d, NewtonFuel, x);
    StepResidual(p, x, tend, kk, d);
  }

  /** A fresh array holding s. */
  method ArrayOf(s: seq<real>) returns (a: array<real>)
    ensures fresh(a) && a[..] == s
  {
    a := new real[|s|](i requires 0 <= i < |s| => s[i]);
  }

  //---------------------------------------------------------------------------
  // the solver object

  /** A Heat solver whose initial state carries the hot layer and whose surface
      temperature follows the mode Tsmode: 0 for a constant 220 K, 1 for
      radiative balance, 2 for interpolation in the table (tTs, Ts). */
  class ImpactLayer {
    const heat: Heat
    /** temperature below the hot layer */
    const Tbelow: real
    const Tsmode: int
    /** length of the surface-temperature table */
    const nTs: int
    const tTs: array<real>
    const Ts: array<real>

    ghost predicate Valid() {
      && heat.Valid()
      && (Tsmode == 2 ==> 1 <= nTs == tTs.Length == Ts.Length)
    }

    /** The surface temperature at time t; None for an unknown mode (NaN in the
        source) and for a Newton iteration that does not finish. */
    function SurfaceTempAt(t: real): Option<real>
      requires Valid()
      reads heat.sol, tTs, Ts
    {
      var n := heat.n;
      if Tsmode == 0 then Some(220.0)
      else if Tsmode == 1 then
        Run(None, heat.sol[n - 1], heat.sol[n - 1], heat.k[n], heat.delz[n - 1] / 2.0, NewtonFuel)
      else if Tsmode == 2 then Util.InterpTable(tTs[..nTs], Ts[..nTs], t)
      else None
    }

    /** The layer above deplayer and the geotherm below it fill the state buffer.
        The tables hold times and temps when the mode is 2 and are empty
        otherwise. */
    constructor(grid: Grids.Grid, stgin: Config.Settings, Tbelow_: real, Tlayer: real, deplayer: real,
                times: seq<real>, temps: seq<real>, Tsmode_: int)
      requires grid.Valid()
      requires stgin.k0 != 0.0 && stgin.rho0 * stgin.c0 != 0.0 && stgin.Tsc != 0.0
      requires Tsmode_ == 2 ==> 1 <= |times| == |temps|
      ensures Valid()
      ensures Tbelow == Tbelow_ && Tsmode == Tsmode_
      ensures heat.stg == stgin && heat.n == grid.n && heat.dep == grid.dep && heat.ze == grid.ze && heat.zc == grid.zc
      ensures heat.delz == grid.delz && heat.delze == grid.delze && heat.vefac == grid.vefac && heat.gefac == grid.gefac
      ensures forall i :: 0 <= i <= heat.n ==> heat.k[i] == stgin.k0
      ensures forall i :: 0 <= i < heat.n ==> heat.rho[i] == stgin.rho0 && heat.c[i] == stgin.c0
      ensures forall i :: 0 <= i < heat.n ==>
        heat.sol[i] == LayerTemp(Tbelow_, Tlayer, deplayer, stgin.qgeo0, stgin.k0, heat.zc[i])
      ensures Tsmode == 2 ==> nTs == |times| && tTs[..] == times && Ts[..] == temps
      ensures Tsmode != 2 ==> nTs == 0 && tTs.Length == 0 && Ts.Length == 0
      ensures forall i :: 0 <= i <= heat.n ==> heat.dTdz[i] == 0.0 && heat.q[i] == 0.0
      ensures StepsDefined(heat.delze, heat.k, heat.cap) && IsMinStep(heat.dtmax, heat.delze, heat.k, heat.cap)
      ensures Grids.Ascending(heat.ze) ==> heat.Solvable()
      ensures heat.t == [] && heat.Tmax == [] && heat.Tmin == [] && heat.Ts == [] && heat.qs == []
      ensures heat.tsnap == []
      ensures fresh(heat) && fresh(heat.sol) && fresh(heat.dTdz) && fresh(heat.q)
    {
      var h := new Heat(grid, stgin);
      heat := h;
      Tbelow := Tbelow_;
      Tsmode := Tsmode_;
      var tt, tv;
      if Tsmode_ == 2 {
        tt := ArrayOf(times);
        tv := ArrayOf(temps);
      } else {
        tt := new real[0];
        tv := new real[0];
      }
      nTs := tt.Length;
      tTs := tt;
      Ts := tv;
      new;
      InitLayer(Tbelow_, Tlayer, deplayer);
    }

    /** Overwrites every cell of the state: Tlayer above deplayer, the geotherm
        from Tbelow below it. */
    method InitLayer(Tbelow_: real, Tlayer: real, deplayer: real)
      requires Valid() && heat.stg.k0 != 0.0
      modifies heat.sol
      ensures forall i :: 0 <= i < heat.n ==>
        heat.sol[i] == LayerTemp(Tbelow_, Tlayer, deplayer, heat.stg.qgeo0, heat.stg.k0, heat.zc[i])
    {
      var sol := heat.sol;
      for i := 0 to heat.n
        invariant forall j :: 0 <= j < i ==>
          sol[j] == LayerTemp(Tbelow_, Tlayer, deplayer, heat.stg.qgeo0, heat.stg.k0, heat.zc[j])
      {
        if -heat.zc[i] < deplayer {
          sol[i] := Tlayer;
        } else {
          sol[i] := Geotherm(Tbelow_, FQgeo(heat.stg.qgeo0, 0.0), FK(heat.stg.k0, -heat.zc[i] - deplayer),
                             -heat.zc[i] - deplayer);
        }
      }
    }

    /** The surface temperature of the mode at time t. */
    method SurfaceTemp(t: real) returns (r: Option<real>)
      requires Valid()
      ensures r == SurfaceTempAt(t)
    {
      var n := heat.n;
      if Tsmode == 0 {
        r := Some(220.0);
      } else if Tsmode == 1 {
        r := StefanBoltzmann(heat.sol[n - 1], heat.k[n], heat.delz[n - 1] / 2.0, NewtonFuel);
      } else if Tsmode == 2 {
        r := Util.Interp(tTs, Ts, t, nTs);
      } else {
        r := None;
      }
    }

    /** The right-hand side at time tin under this object's surface temperature;
        ok says whether that is defined. When it is not, the values below the
        surface are still written and the NaN top edge and top cell are not. */
    method OdeFun(solin: array<real>, fout: array<real>, tin: real) returns (ok: bool)
      requires Valid() && heat.Solvable() && solin.Length == heat.n && fout.Length == heat.n
      modifies heat.dTdz, heat.q, fout
      ensures ok == old(SurfaceTempAt(tin)).Some?
      ensures Columns(old(solin[..]), heat.gefac, heat.k, heat.delz)
      ensures ok ==> forall i :: 0 <= i <= heat.n ==>
        heat.dTdz[i] == EdgeGradient(old(solin[..]), heat.gefac, heat.k, heat.delz, FQgeo(heat.stg.qgeo0, tin),
                                     old(SurfaceTempAt(tin)).value, i)
      ensures ok ==> forall i :: 0 <= i <= heat.n ==>
        heat.q[i] == EdgeFlux(old(solin[..]), heat.gefac, heat.k, heat.delz, FQgeo(heat.stg.qgeo0, tin),
                              old(SurfaceTempAt(tin)).value, i)
      ensures ok ==> forall i :: 0 <= i < heat.n ==>
        fout[i] == Tendency(heat.q[i], heat.q[i + 1], heat.cap[i], heat.delz[i])
      ensures !ok ==> forall i :: 0 <= i < heat.n ==>
        heat.dTdz[i] == InnerGradient(old(solin[..]), heat.gefac, heat.k, heat.delz, FQgeo(heat.stg.qgeo0, tin), i)
        && heat.q[i] == Flux(heat.dTdz[i], heat.k[i])
      ensures !ok ==> forall i :: 0 <= i < heat.n - 1 ==>
        fout[i] == Tendency(heat.q[i], heat.q[i + 1], heat.cap[i], heat.delz[i])
      ensures !ok ==> heat.dTdz[heat.n] == old(heat.dTdz[heat.n]) && heat.q[heat.n] == old(heat.q[heat.n])
                      && fout[heat.n - 1] == old(fout[heat.n - 1])
      ensures heat.q[0] == heat.stg.qgeo0
    {
      var ts := SurfaceTemp(tin);
      if ts.None? {
        heat.OdeFunInner(solin, fout, FQgeo(heat.stg.qgeo0, tin));
        return false;
      }
      heat.OdeFunWith(solin, fout, FQgeo(heat.stg.qgeo0, tin), ts.value);
      return true;
    }

    /** The trackers after a step at time tin under this object's surface
        temperature: the maximum, minimum and time are recorded whether or not
        that is defined, and an undefined one is recorded as None in Ts and qs. */
    method AfterStep(tin: real)
      requires Valid() && heat.delz[heat.n - 1] != 0.0
      modifies heat`Tmax, heat`Tmin, heat`Ts, heat`qs, heat`t
      ensures heat.stg.Tmax ==> |heat.Tmax| == |old(heat.Tmax)| + 1 && heat.Tmax[..|old(heat.Tmax)|] == old(heat.Tmax)
                                && Util.IsMaxOf(heat.Tmax[|old(heat.Tmax)|], heat.sol[..])
      ensures !heat.stg.Tmax ==> heat.Tmax == old(heat.Tmax)
      ensures heat.stg.Tmin ==> |heat.Tmin| == |old(heat.Tmin)| + 1 && heat.Tmin[..|old(heat.Tmin)|] == old(heat.Tmin)
                                && Util.IsMinOf(heat.Tmin[|old(heat.Tmin)|], heat.sol[..])
      ensures !heat.stg.Tmin ==> heat.Tmin == old(heat.Tmin)
      ensures heat.Ts == old(heat.Ts) + (if heat.stg.Ts then [SurfaceTempAt(tin)] else [])
      ensures heat.qs == old(heat.qs) + (if heat.stg.qs then [heat.TrackedFlux(SurfaceTempAt(tin))] else [])
      ensures heat.t == old(heat.t) + (if heat.stg.t then [tin] else [])
    {
      var ts := SurfaceTemp(tin);
      heat.AfterStepWith(tin, ts);
    }
  }

  /** Mode 0 holds the surface at 220 K whatever the time; mode 1 does not
      depend on the time either; modes other than 0, 1 and 2 give no value. */
  lemma SurfaceTempModes(l: ImpactLayer, t: real, t': real)
    requires l.Valid()
    ensures l.Tsmode == 0 ==> l.SurfaceTempAt(t) == Some(220.0)
    ensures l.Tsmode == 1 ==> l.SurfaceTempAt(t) == l.SurfaceTempAt(t')
    ensures l.Tsmode !in {0, 1, 2} ==> l.SurfaceTempAt(t) == None
  {
  }

  /** In mode 2 the surface temperature follows the table: its first entry
      before the first time, its last entry after the last time, and exactly
      the tabulated temperature at each tabulated time. */
  lemma InterpolatedSurface(l: ImpactLayer, t: real, i: nat)
    requires l.Valid() && l.Tsmode == 2 && Util.StrictlyIncreasing(l.tTs[..l.nTs]) && i < l.nTs
    ensures t <= l.tTs[0] ==> l.SurfaceTempAt(t) == Some(l.Ts[0])
    ensures t > l.tTs[l.nTs - 1] ==> l.SurfaceTempAt(t) == Some(l.Ts[l.nTs - 1])
    ensures l.SurfaceTempAt(l.tTs[i]) == Some(l.Ts[i])
  {
    var x, y := l.tTs[..l.nTs], l.Ts[..l.nTs];
    assert x[0] == l.tTs[0] && y[0] == l.Ts[0];
    assert x[|x| - 1] == l.tTs[l.nTs - 1] && y[|y| - 1] == l.Ts[l.nTs - 1];
    assert x[i] == l.tTs[i] && y[i] == l.Ts[i];
    if t <= x[0] {
      Util.InterpBelow(x, y, t);
    }
    if t > x[|x| - 1] {
      Util.InterpAbove(x, y, t);
    }
    Util.InterpAtSample(x, y, i);
  }

  /** A radiative surface temperature is the result of the Newton iteration from
      the surface cell's temperature. */
  lemma RadiativeIsNewton(l: ImpactLayer, t: real)
    requires l.Valid() && l.Tsmode == 1
    ensures var n := l.heat.n;
      l.SurfaceTempAt(t) == Run(None, l.heat.sol[n - 1], l.heat.sol[n - 1], l.heat.k[n], l.heat.delz[n - 1] / 2.0, NewtonFuel)
  {
  }
}
