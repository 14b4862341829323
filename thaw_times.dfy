/** The thaw-times driver: a sweep of the heat solver over every combination of
    four parameter ranges (conductivity, geothermal flux and the two surface
    temperature coefficients), one solver per combination on a shared grid. */
module ThawTimes {
  import opened Wrappers
  import Util
  import Io
  import Config
  import Grids
  import Tables
  import opened HeatEquation

  //---------------------------------------------------------------------------
  // the parameter ranges

  const K0s: seq<real> := Tables.Range(1.0, 7.0, 7)
  const Qgeo0s: seq<real> := Tables.Range(0.01, 0.1, 10)
  const Tsas: seq<real> := Tables.Range(200.0, 260.0, 30)
  const Tsbs: seq<real> := Tables.Range(280.0, 320.0, 20)

  /** The number of trials: one per combination of the four ranges. */
  const NParam: int := 7 * 10 * 30 * 20

  /** The parameter table, one row (k0, qgeo0, Tsa, Tsb) per trial. */
  function ThawTable(): seq<seq<real>> {
    Tables.Table4(K0s, Qgeo0s, Tsas, Tsbs)
  }

  /** The four ranges computed with linspace, as the driver does. */
  method ThawRanges() returns (k0: seq<real>, qgeo0: seq<real>, tsa: seq<real>, tsb: seq<real>)
    ensures k0 == K0s && qgeo0 == Qgeo0s && tsa == Tsas && tsb == Tsbs
    ensures |k0| == 7 && |qgeo0| == 10 && |tsa| == 30 && |tsb| == 20
  {
    var rk := Util.Linspace(1.0, 7.0, 7);
    var rq := Util.Linspace(0.01, 0.1, 10);
    var ra := Util.Linspace(200.0, 260.0, 30);
    var rb := Util.Linspace(280.0, 320.0, 20);
    k0, qgeo0, tsa, tsb := rk.value, rq.value, ra.value, rb.value;
  }

  /** The values of the four ranges lie between their ends. */
  lemma ValuesWithin(ia: int, ib: int, ic: int, id: int)
    requires 0 <= ia < 7 && 0 <= ib < 10 && 0 <= ic < 30 && 0 <= id < 20
    ensures 1.0 <= K0s[ia] <= 7.0 && 0.01 <= Qgeo0s[ib] <= 0.1
    ensures 200.0 <= Tsas[ic] <= 260.0 && 280.0 <= Tsbs[id] <= 320.0
  {
    Tables.RangeWithin(1.0, 7.0, 7, ia);
    Tables.RangeWithin(0.01, 0.1, 10, ib);
    Tables.RangeWithin(200.0, 260.0, 30, ic);
    Tables.RangeWithin(280.0, 320.0, 20, id);
  }

  /** Every row of the table is one combination of range values, at the
      row-major index of that combination. */
  lemma ThawRow(p: int) returns (ia: int, ib: int, ic: int, id: int)
    requires 0 <= p < NParam
    ensures 0 <= ia < 7 && 0 <= ib < 10 && 0 <= ic < 30 && 0 <= id < 20
    ensures p == Tables.Index4(ia, ib, ic, id, 10, 30, 20)
    ensures |ThawTable()| == NParam
    ensures ThawTable()[p] == [K0s[ia], Qgeo0s[ib], Tsas[ic], Tsbs[id]]
  {
    ia, ib, ic, id := Tables.Index4Onto(p, 7, 10, 30, 20);
    Tables.Table4At(K0s, Qgeo0s, Tsas, Tsbs, ia, ib, ic, id);
  }

  /** Every row holds four values, each within its range; in particular every
      trial's conductivity is nonzero. */
  lemma ThawRowWithin(p: int)
    requires 0 <= p < NParam
    ensures |ThawTable()| == NParam && |ThawTable()[p]| == 4
    ensures 1.0 <= ThawTable()[p][0] <= 7.0 && 0.01 <= ThawTable()[p][1] <= 0.1
    ensures 200.0 <= ThawTable()[p][2] <= 260.0 && 280.0 <= ThawTable()[p][3] <= 320.0
  {
    var ia, ib, ic, id := ThawRow(p);
    var row := ThawTable()[p];
    ValuesWithin(ia, ib, ic, id);
    assert row[0] == K0s[ia] && row[1] == Qgeo0s[ib] && row[2] == Tsas[ic] && row[3] == Tsbs[id];
  }

  /** Every combination of range values is the row of the trial at its
      row-major index. */
  lemma ThawCombination(ia: int, ib: int, ic: int, id: int)
    requires 0 <= ia < 7 && 0 <= ib < 10 && 0 <= ic < 30 && 0 <= id < 20
    ensures |ThawTable()| == NParam
    ensures 0 <= Tables.Index4(ia, ib, ic, id, 10, 30, 20) < NParam
    ensures ThawTable()[Tables.Index4(ia, ib, ic, id, 10, 30, 20)] == [K0s[ia], Qgeo0s[ib], Tsas[ic], Tsbs[id]]
  {
    Tables.Table4At(K0s, Qgeo0s, Tsas, Tsbs, ia, ib, ic, id);
  }

  /** No combination is run twice: different trials have different rows. */
  lemma ThawRowsDistinct(p: int, p': int)
    requires 0 <= p < NParam && 0 <= p' < NParam && p != p'
    ensures |ThawTable()| == NParam
    ensures ThawTable()[p] != ThawTable()[p']
  {
    Tables.RangeIsDistinct(1.0, 7.0, 7);
    Tables.RangeIsDistinct(0.01, 0.1, 10);
    Tables.RangeIsDistinct(200.0, 260.0, 30);
    Tables.RangeIsDistinct(280.0, 320.0, 20);
    Tables.Table4Distinct(K0s, Qgeo0s, Tsas, Tsbs, p, p');
  }

  //---------------------------------------------------------------------------
  // the trials

  /** What one trial integrates: its name, its settings, the integration time
      and the smallest time step the adaptive integrator may take. */
  datatype Trial = Trial(name: string, stg: Config.Settings, tint: real, dtmin: real)

  /** The base settings with the four swept parameters taken from a row; every
      other setting is the base's. */
  function TrialSettings(base: Config.Settings, row: seq<real>): (s: Config.Settings)
    requires |row| == 4
    ensures s.k0 == row[0] && s.qgeo0 == row[1] && s.Tsa == row[2] && s.Tsb == row[3]
    ensures s == base.(k0 := row[0], qgeo0 := row[1], Tsa := row[2], Tsb := row[3])
  {
    Config.CopySettings(base).(k0 := row[0], qgeo0 := row[1], Tsa := row[2], Tsb := row[3])
  }

  /** The trial with index i: named by its index, integrated for tint*tunit
      seconds with a minimum step of 1e-12 of that. */
  function TrialOf(base: Config.Settings, row: seq<real>, i: int): (t: Trial)
    requires |row| == 4
    ensures t.name == Io.IntToString(i) && t.stg == TrialSettings(base, row)
    ensures t.tint == base.tint * base.tunit && t.dtmin == t.tint * 0.000000000001
  {
    var s := TrialSettings(base, row);
    var tint := s.tint * s.tunit;
    Trial(Io.IntToString(i), s, tint, tint * 0.000000000001)
  }

  /** Every trial has its own name. */
  lemma TrialNamesDistinct(base: Config.Settings, row: seq<real>, row': seq<real>, i: int, j: int)
    requires |row| == 4 && |row'| == 4 && i != j
    ensures TrialOf(base, row, i).name != TrialOf(base, row', j).name
  {
    Io.IntToStringInjective(i, j);
  }

  /** The trials of the sweep, in the order of the table. */
  function ThawTrials(base: Config.Settings): (ts: seq<Trial>)
    ensures |ts| == NParam
  {
    seq(NParam, i requires 0 <= i < NParam => ThawRowWithin(i); TrialOf(base, ThawTable()[i], i))
  }

  /** One iteration of the trial loop: the trial's settings and a solver built
      from them on the shared grid. */
  method SetUpTrial(grid: Grids.Grid, base: Config.Settings, row: seq<real>, i: int) returns (t: Trial, heat: Heat)
    requires grid.Valid() && |row| == 4 && row[0] != 0.0
    requires base.rho0 * base.c0 != 0.0 && base.Tsc != 0.0
    ensures t == TrialOf(base, row, i)
    ensures fresh(heat) && heat.Valid() && heat.stg == t.stg && OnGrid(heat, grid)
  {
    t := TrialOf(base, row, i);
    heat := new Heat(grid, t.stg);
  }

  /** Solver j is valid, uses the settings of trial j and runs on the cells of grid. */
  ghost predicate SolversOn(trials: seq<Trial>, heats: seq<Heat>, grid: Grids.Grid) {
    && |trials| == |heats|
    && forall j :: 0 <= j < |heats| ==> heats[j].Valid() && heats[j].stg == trials[j].stg && OnGrid(heats[j], grid)
  }

  /** One more trial and its solver on the grid keep every solver on it. */
  lemma SolversOnAppend(trials: seq<Trial>, heats: seq<Heat>, grid: Grids.Grid, t: Trial, heat: Heat)
    requires SolversOn(trials, heats, grid)
    requires heat.Valid() && heat.stg == t.stg && OnGrid(heat, grid)
    ensures SolversOn(trials + [t], heats + [heat], grid)
  {
    forall j | 0 <= j < |heats| + 1
      ensures (heats + [heat])[j].Valid() && (heats + [heat])[j].stg == (trials + [t])[j].stg
      ensures OnGrid((heats + [heat])[j], grid)
    {
      if j < |heats| {
        assert (heats + [heat])[j] == heats[j] && (trials + [t])[j] == trials[j];
      }
    }
  }

  /** The trial loop: one trial and one solver per row of the table. The trials
      are independent of each other. */
  method SetUpTrials(grid: Grids.Grid, base: Config.Settings, table: seq<seq<real>>)
    returns (trials: seq<Trial>, heats: seq<Heat>)
    requires grid.Valid() && base.rho0 * base.c0 != 0.0 && base.Tsc != 0.0
    requires forall p :: 0 <= p < |table| ==> |table[p]| == 4 && table[p][0] != 0.0
    ensures |trials| == |table| == |heats|
    ensures forall j :: 0 <= j < |table| ==> trials[j] == TrialOf(base, table[j], j)
    ensures forall j :: 0 <= j < |table| ==> heats[j].Valid() && heats[j].stg == trials[j].stg
    ensures forall j :: 0 <= j < |table| ==> OnGrid(heats[j], grid)
  {
    trials, heats := [], [];
    for i := 0 to |table|
      invariant |trials| == i == |heats|
      invariant forall j :: 0 <= j < i ==> trials[j] == TrialOf(base, table[j], j)
      invariant SolversOn(trials, heats, grid)
    {
      var trial, heat := SetUpTrial(grid, base, table[i], i);
      SolversOnAppend(trials, heats, grid, trial, heat);
      trials := trials + [trial];
      heats := heats + [heat];
    }
  }

  /** Every row of the table has four values and a nonzero conductivity. */
  lemma ThawTableRows()
    ensures |ThawTable()| == NParam
    ensures forall p :: 0 <= p < NParam ==> |ThawTable()[p]| == 4 && ThawTable()[p][0] != 0.0
  {
    forall p | 0 <= p < NParam
      ensures |ThawTable()| == NParam && |ThawTable()[p]| == 4 && ThawTable()[p][0] != 0.0
    {
      ThawRowWithin(p);
    }
    ThawRowWithin(0);
  }

  /** The driver: without exactly two command-line arguments it exits; otherwise
      it builds the grid from the base settings, fills the parameter table and
      sets up one solver per row, on the shared grid. */
  method ThawTimesMain(argc: int, base: Config.Settings)
    returns (r: Result<seq<Trial>>, grid: Grids.Grid?, heats: seq<Heat>)
    requires base.delz0 > 0.0 && base.delzmax > 0.0 && base.delzfrac >= 1.0
    requires base.rho0 * base.c0 != 0.0 && base.Tsc != 0.0
    ensures r.Fail? <==> argc != 3
    ensures r.Ok? ==> r.value == ThawTrials(base) && |heats| == NParam
    ensures r.Ok? ==> forall i :: 0 <= i < NParam ==> heats[i].Valid() && heats[i].stg == r.value[i].stg
    ensures r.Ok? ==> grid != null && Grids.GrowthGrid(grid, base.depth, base.delz0, base.delzfrac, base.delzmax)
    ensures r.Ok? ==> forall i :: 0 <= i < NParam ==> OnGrid(heats[i], grid)
  {
    heats := [];
    grid := null;
    if argc != 3 {
      return Fail("thaw_times must be given two command line arguments\n  1. path to default settings file\n  2. path to output directory"), grid, heats;
    }
    var g := new Grids.Grid(base.depth, base.delz0, base.delzfrac, base.delzmax);
    assert Grids.GrowthGrid(g, base.depth, base.delz0, base.delzfrac, base.delzmax);
    var trials;
    trials, heats := ThawSweep(g, base);
    return Ok(trials), g, heats;
  }

  /** The driver after the grid is built: the parameter table, then one trial
      and one solver on that grid per row. */
  method ThawSweep(grid: Grids.Grid, base: Config.Settings) returns (trials: seq<Trial>, heats: seq<Heat>)
    requires grid.Valid() && base.rho0 * base.c0 != 0.0 && base.Tsc != 0.0
    ensures trials == ThawTrials(base) && |heats| == NParam
    ensures forall i :: 0 <= i < NParam ==> heats[i].Valid() && heats[i].stg == trials[i].stg
    ensures forall i :: 0 <= i < NParam ==> OnGrid(heats[i], grid)
  {
    var k0, qgeo0, tsa, tsb := ThawRanges();
    var param := Tables.FillTable4(k0, qgeo0, tsa, tsb);
    Tables.Table4Length(k0, qgeo0, tsa, tsb);
    var table := param[..];
    assert table == ThawTable();
    ThawTableRows();
    trials, heats := SetUpTrials(grid, base, table);
    assert trials == ThawTrials(base);
  }
}
