/** The impact-layer driver: a sweep over layer thickness, surface temperature
    mode and initial layer temperature. Every trial has its own uniform grid,
    six layer thicknesses deep with 240 cells across the layer, and integrates
    for twelve thermal time scales of the layer. */
module ImpactSweep {
  import opened Wrappers
  import Util
  import Io
  import Config
  import Grids
  import Tables
  import Reals
  import opened ImpactLayers
  import opened HeatEquation

  /** Domain depth as a multiple of the layer thickness. */
  const DepFac: real := 6.0
  /** Integration time as a multiple of the layer's thermal time scale. */
  const TimFac: real := 12.0
  /** Number of cells across the layer. */
  const NCell: real := 240.0
  /** Temperature below the hot layer. */
  const TBelow: real := 220.0
  /** Width cap of the trial grids, large enough never to bind. */
  const WideCap: real := 1000000000.0

  const TsInterps: seq<real> := Tables.Range(0.0, 2.0, 3)
  const TLayers: seq<real> := Tables.Range(400.0, 1200.0, 5)

  /** The number of trials: ten layer thicknesses, three mode values and five
      layer temperatures. */
  const NImpact: int := 10 * 3 * 5

  /** The mode value range is 0, 1, 2. */
  lemma TsInterpValues()
    ensures TsInterps == [0.0, 1.0, 2.0]
  {
    assert Tables.Range(0.0, 2.0, 3)[1] == 1.0;
    assert Tables.Range(0.0, 2.0, 3)[2] == 2.0;
  }

  /** The mode a table value selects: the value is passed through bool, so any
      nonzero value gives mode 1. */
  function ModeOf(x: real): (m: int)
    ensures m == 0 || m == 1
    ensures m == 0 <==> x == 0.0
  {
    if x != 0.0 then 1 else 0
  }

  /** The three values of the mode range select the modes 0, 1 and 1: the
      constant surface temperature and radiation to space, and never the
      interpolation mode 2. */
  lemma ModesSelected()
    ensures |TsInterps| == 3
    ensures ModeOf(TsInterps[0]) == 0 && ModeOf(TsInterps[1]) == 1 && ModeOf(TsInterps[2]) == 1
    ensures forall j :: 0 <= j < 3 ==> ModeOf(TsInterps[j]) != 2
  {
    TsInterpValues();
  }

  /** The two ranges computed with linspace; the layer thicknesses come from
      logspace and are given. */
  method ImpactRanges() returns (tsinterp: seq<real>, tlayer: seq<real>)
    ensures tsinterp == TsInterps && tlayer == TLayers
    ensures |tsinterp| == 3 && |tlayer| == 5
  {
    var rs := Util.Linspace(0.0, 2.0, 3);
    var rt := Util.Linspace(400.0, 1200.0, 5);
    tsinterp, tlayer := rs.value, rt.value;
  }

  /** The parameter table, one row (layer thickness, mode value, layer
      temperature) per trial. */
  function ImpactTable(layers: seq<real>): seq<seq<real>> {
    Tables.Table3(layers, TsInterps, TLayers)
  }

  /** Every row of the table is one combination of range values, at the
      row-major index of that combination. */
  lemma ImpactRow(layers: seq<real>, p: int) returns (i: int, j: int, k: int)
    requires |layers| == 10 && 0 <= p < NImpact
    ensures 0 <= i < 10 && 0 <= j < 3 && 0 <= k < 5
    ensures p == Tables.Index3(i, j, k, 3, 5)
    ensures |ImpactTable(layers)| == NImpact
    ensures ImpactTable(layers)[p] == [layers[i], TsInterps[j], TLayers[k]]
  {
    i, j, k := Tables.Index3Onto(p, 10, 3, 5);
    Tables.Table3At(layers, TsInterps, TLayers, i, j, k);
  }

  /** Every row holds three values and a positive thickness when the
      thicknesses are positive. */
  lemma ImpactRowShape(layers: seq<real>, p: int)
    requires |layers| == 10 && 0 <= p < NImpact
    requires forall i :: 0 <= i < 10 ==> layers[i] > 0.0
    ensures |ImpactTable(layers)| == NImpact && |ImpactTable(layers)[p]| == 3
    ensures ImpactTable(layers)[p][0] > 0.0
  {
    var i, j, k := ImpactRow(layers, p);
    var row := ImpactTable(layers)[p];
    assert row[0] == layers[i];
  }

  /** When no range repeats a value, no row of the table occurs twice. */
  lemma ImpactRowsDistinct(layers: seq<real>, p: int, p': int)
    requires |layers| == 10 && Tables.Distinct(layers)
    requires 0 <= p < NImpact && 0 <= p' < NImpact && p != p'
    ensures |ImpactTable(layers)| == NImpact
    ensures ImpactTable(layers)[p] != ImpactTable(layers)[p']
  {
    Tables.RangeIsDistinct(0.0, 2.0, 3);
    Tables.RangeIsDistinct(400.0, 1200.0, 5);
    Tables.Table3Distinct(layers, TsInterps, TLayers, p, p');
  }

  //---------------------------------------------------------------------------
  // the trials

  /** What one trial integrates: its name, its grid arguments, the layer, the
      surface mode, the integration time and the smallest time step. */
  datatype ImpactTrial = ImpactTrial(
    name: string, depth: real, delz0: real, deplayer: real, Tlayer: real, mode: int,
    tint: real, dtmin: real)

  /** Twelve thermal time scales of a layer of thickness L: L^2 over the
      diffusivity k/cap. */
  function IntegrationTime(L: real, k: real, cap: real): real
    requires k != 0.0 && cap != 0.0
  {
    Reals.QuotientNonzero(k, cap);
    TimFac * (L * L) / (k / cap)
  }

  /** The trial with index i for a row (L, mode value, layer temperature): a grid
      6L deep whose first cell is L/240, and twelve times the thermal time scale
      L^2/(k0/(rho0*c0)). */
  function ImpactTrialOf(stg: Config.Settings, row: seq<real>, i: int): (t: ImpactTrial)
    requires |row| == 3 && stg.k0 != 0.0 && stg.rho0 * stg.c0 != 0.0
    ensures t.name == Io.IntToString(i) && t.deplayer == row[0] && t.Tlayer == row[2]
    ensures t.depth == DepFac * row[0] && t.delz0 == row[0] / NCell
    ensures t.mode == ModeOf(row[1]) && t.mode != 2
    ensures t.tint == IntegrationTime(row[0], stg.k0, stg.rho0 * stg.c0) && t.dtmin == t.tint * 0.000000000001
  {
    var L := row[0];
    var tint := IntegrationTime(L, stg.k0, stg.rho0 * stg.c0);
    ImpactTrial(Io.IntToString(i), DepFac * L, L / NCell, L, row[2], ModeOf(row[1]), tint,
                tint * 0.000000000001)
  }

  /** Rows that differ only in a nonzero mode value give the same trial apart
      from its name: the mode values 1 and 2 run the same integration twice. */
  lemma NonzeroModesAlike(stg: Config.Settings, row: seq<real>, row': seq<real>, i: int, i': int)
    requires |row| == 3 && |row'| == 3 && stg.k0 != 0.0 && stg.rho0 * stg.c0 != 0.0
    requires row[0] == row'[0] && row[2] == row'[2] && row[1] != 0.0 && row'[1] != 0.0
    ensures ImpactTrialOf(stg, row, i).(name := "") == ImpactTrialOf(stg, row', i').(name := "")
  {
  }

  /** In the table, the mode values 1 and 2 of each layer give the same trial. */
  lemma DuplicateTrials(stg: Config.Settings, layers: seq<real>, i: int, k: int)
    requires |layers| == 10 && 0 <= i < 10 && 0 <= k < 5
    requires stg.k0 != 0.0 && stg.rho0 * stg.c0 != 0.0
    ensures |ImpactTable(layers)| == NImpact
    ensures 0 <= Tables.Index3(i, 1, k, 3, 5) < NImpact && 0 <= Tables.Index3(i, 2, k, 3, 5) < NImpact
    ensures Tables.Index3(i, 1, k, 3, 5) != Tables.Index3(i, 2, k, 3, 5)
    ensures ImpactTable(layers)[Tables.Index3(i, 1, k, 3, 5)] == [layers[i], 1.0, TLayers[k]]
    ensures ImpactTable(layers)[Tables.Index3(i, 2, k, 3, 5)] == [layers[i], 2.0, TLayers[k]]
    ensures
      var p, p' := Tables.Index3(i, 1, k, 3, 5), Tables.Index3(i, 2, k, 3, 5);
      ImpactTrialOf(stg, ImpactTable(layers)[p], p).(name := "") ==
      ImpactTrialOf(stg, ImpactTable(layers)[p'], p').(name := "")
  {
    TsInterpValues();
    Tables.Table3At(layers, TsInterps, TLayers, i, 1, k);
    Tables.Table3At(layers, TsInterps, TLayers, i, 2, k);
    Tables.Index3Bijective(i, 1, k, i, 2, k, 10, 3, 5);
    var p, p' := Tables.Index3(i, 1, k, 3, 5), Tables.Index3(i, 2, k, 3, 5);
    NonzeroModesAlike(stg, ImpactTable(layers)[p], ImpactTable(layers)[p'], p, p');
  }

  /** A trial's grid has cells of one width. */
  lemma TrialGridUniform(grid: Grids.Grid, L: real)
    requires L > 0.0 && L / NCell <= WideCap
    requires grid.Valid()
    requires Grids.IsRawEdges(grid.raw, DepFac * L, L / NCell, 1.0, WideCap)
    requires grid.ze == Grids.FinalEdges(grid.raw, DepFac * L) && grid.n == |grid.raw| - 1
    ensures forall i, i' :: 0 <= i < grid.n && 0 <= i' < grid.n ==> grid.delz[i] == grid.delz[i']
  {
    forall i, i' | 0 <= i < grid.n && 0 <= i' < grid.n
      ensures grid.delz[i] == grid.delz[i']
    {
      Grids.UniformWidths(grid.raw, DepFac * L, L / NCell, WideCap, i, i');
    }
  }

  /** The grid of a trial with layer thickness L: 6L deep, first cell L/240,
      no growth, and a cap that never binds. */
  method TrialGrid(L: real) returns (grid: Grids.Grid)
    requires L > 0.0
    ensures fresh(grid) && Grids.GrowthGrid(grid, DepFac * L, L / NCell, 1.0, WideCap)
    ensures L / NCell <= WideCap ==>
      forall i, i' :: 0 <= i < grid.n && 0 <= i' < grid.n ==> grid.delz[i] == grid.delz[i']
  {
    grid := new Grids.Grid(DepFac * L, L / NCell, 1.0, WideCap);
    if L / NCell <= WideCap {
      TrialGridUniform(grid, L);
    }
  }

  /** With uniform density and specific heat, the bottom cell's heat capacity is
      their product. */
  lemma BottomCapacity(heat: Heat, rho0: real, c0: real)
    requires heat.Valid() && heat.rho[0] == rho0 && heat.c[0] == c0
    ensures heat.cap[0] == rho0 * c0
  {
    ProductAt(heat.rho, heat.c, rho0, c0, 0);
  }

  /** The integration time computed from the solver's bottom conductivity and
      capacity is the one the settings give. */
  lemma TrialTime(heat: Heat, stg: Config.Settings, L: real)
    requires heat.Valid() && heat.k[0] == stg.k0 && heat.rho[0] == stg.rho0 && heat.c[0] == stg.c0
    requires stg.k0 != 0.0 && stg.rho0 * stg.c0 != 0.0
    ensures heat.k[0] != 0.0 && heat.cap[0] != 0.0
    ensures IntegrationTime(L, heat.k[0], heat.cap[0]) == IntegrationTime(L, stg.k0, stg.rho0 * stg.c0)
  {
    BottomCapacity(heat, stg.rho0, stg.c0);
  }

  /** The solver of a trial: the hot layer of thickness L at temperature Tlayer
      over the trial's grid, in the given surface mode, without tables. */
  method TrialLayer(stg: Config.Settings, L: real, Tlayer: real, mode: int) returns (layer: ImpactLayer, grid: Grids.Grid)
    requires L > 0.0 && mode != 2
    requires stg.k0 != 0.0 && stg.rho0 * stg.c0 != 0.0 && stg.Tsc != 0.0
    ensures fresh(layer) && layer.Valid() && layer.heat.stg == stg
    ensures layer.Tbelow == TBelow && layer.Tsmode == mode && layer.nTs == 0
    ensures fresh(grid) && Grids.GrowthGrid(grid, DepFac * L, L / NCell, 1.0, WideCap) && OnGrid(layer.heat, grid)
    ensures forall j :: 0 <= j < layer.heat.n ==>
      layer.heat.sol[j] == LayerTemp(TBelow, Tlayer, L, stg.qgeo0, stg.k0, layer.heat.zc[j])
    ensures layer.heat.k[0] == stg.k0 && layer.heat.rho[0] == stg.rho0 && layer.heat.c[0] == stg.c0
    ensures L / NCell <= WideCap ==>
      forall j, j' :: 0 <= j < layer.heat.n && 0 <= j' < layer.heat.n ==> layer.heat.delz[j] == layer.heat.delz[j']
  {
    grid := TrialGrid(L);
    layer := new ImpactLayer(grid, stg, TBelow, Tlayer, L, [], [], mode);
  }

  /** One iteration of the trial loop: the trial's grid, and a solver with the
      hot layer on it in the trial's surface mode. */
  method SetUpImpactTrial(stg: Config.Settings, row: seq<real>, i: int)
    returns (t: ImpactTrial, layer: ImpactLayer, grid: Grids.Grid)
    requires |row| == 3 && row[0] > 0.0
    requires stg.k0 != 0.0 && stg.rho0 * stg.c0 != 0.0 && stg.Tsc != 0.0
    ensures t == ImpactTrialOf(stg, row, i)
    ensures fresh(layer) && layer.Valid() && layer.heat.stg == stg
    ensures layer.Tbelow == TBelow && layer.Tsmode == t.mode && layer.nTs == 0
    ensures fresh(grid) && Grids.GrowthGrid(grid, t.depth, t.delz0, 1.0, WideCap) && OnGrid(layer.heat, grid)
    ensures forall j :: 0 <= j < layer.heat.n ==>
      layer.heat.sol[j] == LayerTemp(TBelow, t.Tlayer, t.deplayer, stg.qgeo0, stg.k0, layer.heat.zc[j])
    ensures row[0] / NCell <= WideCap ==>
      forall j, j' :: 0 <= j < layer.heat.n && 0 <= j' < layer.heat.n ==> layer.heat.delz[j] == layer.heat.delz[j']
  {
    layer, grid := TrialLayer(stg, row[0], row[2], ModeOf(row[1]));
    t := TrialFor(stg, row, i, layer.heat);
  }

  /** The trial record of a row, its integration time computed from the
      solver's bottom conductivity and capacity. */
  method TrialFor(stg: Config.Settings, row: seq<real>, i: int, heat: Heat) returns (t: ImpactTrial)
    requires |row| == 3 && stg.k0 != 0.0 && stg.rho0 * stg.c0 != 0.0
    requires heat.Valid() && heat.k[0] == stg.k0 && heat.rho[0] == stg.rho0 && heat.c[0] == stg.c0
    ensures t == ImpactTrialOf(stg, row, i)
  {
    var L := row[0];
    var k0, cap0 := heat.k[0], heat.cap[0];
    TrialTime(heat, stg, L);
    var tint := IntegrationTime(L, k0, cap0);
    t := ImpactTrial(Io.IntToString(i), DepFac * L, L / NCell, L, row[2], ModeOf(row[1]), tint,
                     tint * 0.000000000001);
  }

  /** The solver layer integrates the trial t: the driver's settings, the
      trial's surface mode, the cells of grid, which the growth law builds from
      the trial's depth and first width, and the hot layer of t at t.Tlayer over
      the geotherm from 220 K. */
  ghost predicate SolverOf(stg: Config.Settings, layer: ImpactLayer, grid: Grids.Grid, t: ImpactTrial)
    reads layer.heat.sol
  {
    && layer.Valid() && stg.k0 != 0.0
    && layer.heat.stg == stg && layer.Tsmode == t.mode && layer.Tbelow == TBelow
    && Grids.GrowthGrid(grid, t.depth, t.delz0, 1.0, WideCap) && OnGrid(layer.heat, grid)
    && forall i :: 0 <= i < layer.heat.n ==>
         layer.heat.sol[i] == LayerTemp(TBelow, t.Tlayer, t.deplayer, stg.qgeo0, stg.k0, layer.heat.zc[i])
  }

  /** Solver j runs trial j on grid j, for every j. */
  ghost predicate SolversRun(stg: Config.Settings, trials: seq<ImpactTrial>, layers: seq<ImpactLayer>, grids: seq<Grids.Grid>)
    reads set l | l in layers :: l.heat.sol
  {
    && |trials| == |layers| == |grids|
    && forall j :: 0 <= j < |trials| ==> SolverOf(stg, layers[j], grids[j], trials[j])
  }

  /** One more trial with its solver and grid keeps every solver running its trial. */
  lemma SolversRunAppend(stg: Config.Settings, trials: seq<ImpactTrial>, layers: seq<ImpactLayer>, grids: seq<Grids.Grid>,
                         t: ImpactTrial, layer: ImpactLayer, grid: Grids.Grid)
    requires SolversRun(stg, trials, layers, grids) && SolverOf(stg, layer, grid, t)
    ensures SolversRun(stg, trials + [t], layers + [layer], grids + [grid])
  {
    forall j | 0 <= j < |trials| + 1
      ensures SolverOf(stg, (layers + [layer])[j], (grids + [grid])[j], (trials + [t])[j])
    {
      if j < |trials| {
        assert (layers + [layer])[j] == layers[j] && (grids + [grid])[j] == grids[j] && (trials + [t])[j] == trials[j];
      }
    }
  }

  /** The trial loop: one trial and one solver per row of the table. */
  method SetUpImpactTrials(stg: Config.Settings, table: seq<seq<real>>)
    returns (trials: seq<ImpactTrial>, layers: seq<ImpactLayer>, grids: seq<Grids.Grid>)
    requires stg.k0 != 0.0 && stg.rho0 * stg.c0 != 0.0 && stg.Tsc != 0.0
    requires forall p :: 0 <= p < |table| ==> |table[p]| == 3 && table[p][0] > 0.0
    ensures |trials| == |table| == |layers| == |grids|
    ensures forall j :: 0 <= j < |table| ==> trials[j] == ImpactTrialOf(stg, table[j], j)
    ensures forall j :: 0 <= j < |table| ==> layers[j].Valid() && layers[j].Tsmode == trials[j].mode
    ensures forall j :: 0 <= j < |table| ==> SolverOf(stg, layers[j], grids[j], trials[j])
  {
    trials, layers, grids := [], [], [];
    for i := 0 to |table|
      invariant |trials| == i == |layers| == |grids|
      invariant forall j :: 0 <= j < i ==> trials[j] == ImpactTrialOf(stg, table[j], j)
      invariant SolversRun(stg, trials, layers, grids)
    {
      var trial, layer, grid := SetUpImpactTrial(stg, table[i], i);
      SolversRunAppend(stg, trials, layers, grids, trial, layer, grid);
      trials := trials + [trial];
      layers := layers + [layer];
      grids := grids + [grid];
    }
  }

  /** The trials of the sweep, in the order of the table. */
  function ImpactTrials(stg: Config.Settings, layers: seq<real>): (ts: seq<ImpactTrial>)
    requires |layers| == 10 && forall i :: 0 <= i < 10 ==> layers[i] > 0.0
    requires stg.k0 != 0.0 && stg.rho0 * stg.c0 != 0.0
    ensures |ts| == NImpact
  {
    seq(NImpact, p requires 0 <= p < NImpact =>
      ImpactRowShape(layers, p); ImpactTrialOf(stg, ImpactTable(layers)[p], p))
  }

  /** Every row of the table has three values and a positive thickness. */
  lemma ImpactTableRows(layers: seq<real>)
    requires |layers| == 10 && forall i :: 0 <= i < 10 ==> layers[i] > 0.0
    ensures |ImpactTable(layers)| == NImpact
    ensures forall p :: 0 <= p < NImpact ==> |ImpactTable(layers)[p]| == 3 && ImpactTable(layers)[p][0] > 0.0
  {
    forall p | 0 <= p < NImpact
      ensures |ImpactTable(layers)| == NImpact && |ImpactTable(layers)[p]| == 3 && ImpactTable(layers)[p][0] > 0.0
    {
      ImpactRowShape(layers, p);
    }
    ImpactRowShape(layers, 0);
  }

  /** The driver: without exactly two command-line arguments it exits;
      otherwise it fills the parameter table and sets up one grid and one
      solver per row. The ten layer thicknesses are the logspace values. */
  method ImpactMain(argc: int, stg: Config.Settings, deplayer: seq<real>)
    returns (r: Result<seq<ImpactTrial>>, solvers: seq<ImpactLayer>, grids: seq<Grids.Grid>)
    requires |deplayer| == 10 && forall i :: 0 <= i < 10 ==> deplayer[i] > 0.0
    requires stg.k0 != 0.0 && stg.rho0 * stg.c0 != 0.0 && stg.Tsc != 0.0
    ensures r.Fail? <==> argc != 3
    ensures r.Ok? ==> r.value == ImpactTrials(stg, deplayer) && |solvers| == NImpact == |grids|
    ensures r.Ok? ==> forall i :: 0 <= i < NImpact ==> solvers[i].Valid() && solvers[i].Tsmode == r.value[i].mode
    ensures r.Ok? ==> forall i :: 0 <= i < NImpact ==> SolverOf(stg, solvers[i], grids[i], r.value[i])
  {
    solvers, grids := [], [];
    if argc != 3 {
      return Fail("crustal_heat must be given two command line arguments\n  1. path to settings file\n  2. path to output directory"), solvers, grids;
    }
    var tsinterp, tlayer := ImpactRanges();
    var param := Tables.FillTable3(deplayer, tsinterp, tlayer);
    var table := param[..];
    assert table == ImpactTable(deplayer);
    ImpactTableRows(deplayer);
    var trials;
    trials, solvers, grids := SetUpImpactTrials(stg, table);
    assert trials == ImpactTrials(stg, deplayer);
    return Ok(trials), solvers, grids;
  }
}
