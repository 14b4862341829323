# crustal-heat in Dafny

This project models the core of crustal-heat, a one-dimensional finite-volume
solver for heat conduction in a planetary crust. It also models two parameter-sweep
drivers built on that solver. The model is written in Dafny.

The layers of the model follow the program's own layers:

- **Array utilities** (`util.dfy`, module `Util`).
  - `max` and `min` with their running-value loops.
  - `interp`, a bracket search with flat extrapolation.
  - `linspace` and `subsample`.
- **Settings text pipeline** (`io.dfy`, module `Io`; `settings.dfy`, module `Config`).
  - Whitespace stripping, splitting at a character, and decimal rendering of integers.
  - `read_values`, which turns the lines of a settings file into key/value pairs.
  - The `Settings` record with its defaults.
  - `parse_settings`, which applies the pairs to the defaults in order. An unknown key is fatal.
  - `copy_settings`.
- **Finite-volume grid** (`grid.dfy`, module `Grids`).
  - The geometric growth of the cell edges, capped at a maximum width.
  - Rescaling to the exact depth, then an in-place reversal.
  - The derived centres, widths, stability widths, and the interpolation and gradient factors at the edges.
- **Discretised heat equation** (`heat.dfy`, module `HeatEquation`).
  - The material arrays and the initial geotherm.
  - The maximum stable time step, a minimum over the edges.
  - `dt_adapt`.
  - `ode_fun`, which fills the gradient, flux and tendency buffers.
  - The append-only trackers of `after_step` and `after_snap`.
- **Impact-layer variant** (`impact_layer.dfy`, module `ImpactLayers`).
  - The hot-layer initial condition.
  - The surface-temperature modes: a constant, radiative balance found by Newton's method, or table interpolation.
- **Parameter tables and drivers** (`tables.dfy`, module `Tables`; `thaw_times.dfy`, module `ThawTimes`; `impact_sweep.dfy`, module `ImpactSweep`).
  - Nested loops fill a row-major cartesian-product table.
  - One solver is set up per row.

Arithmetic is on Dafny's `real`, which is exact rather than IEEE double, so nothing
here is a claim about rounding. A few values are left uninterpreted:

- `exp` is `HeatEquation.Exp`.
- `std::atof` is `Config.Atof`.
- The starting values of the never-declared `LH`, `Tf` and `ahcw` are `Config.DefaultLH`, `Config.DefaultTf` and `Config.DefaultAhcw`.

Failures are modelled in two ways. The program's NaN sentinels are `None`, and its
fatal exits (a message, then `exit`) are `Fail`. Both come from the `Wrappers` module.

Objects are modelled after the program's classes. `Grid`, `Heat` and `ImpactLayer`
are classes, and the arrays the program writes in place are Dafny arrays: the state
buffer `sol` and the `dTdz`, `q` and output buffers. The trackers the program appends
to are `seq` fields that the methods reassign. A `Grid` has only getters after its
constructor, so its fields are constants. `ImpactLayer` derives from `Heat` in
the program; here it holds a `Heat`, and the virtual `f_Ts` becomes a surface
temperature that is passed to the shared flux code. Every loop of the core is a
method. Each is proved against a specification function, for example
`Io.ReadValues` against `Io.ParseLines`, `Grids.Grid` against `Grids.FinalEdges`,
and `Tables.FillTable4` against `Tables.Table4`. The properties the program relies
on are proved about those functions.

The code differs from the header documentation, or is otherwise notable, in these places:

- `Settings` (src/settings.h:13-92) does not declare `LH`, `Tf` or `ahcw`. Even so, src/settings.cc:52-54 and 102-104 parse and copy them. The model gives them fields whose defaults are unknown constants.
- `dep` is `ze[0]`, so it is minus the depth rather than the depth (src/grid.cc:16). `Grids.Grid.constructor` states `dep == -depth`.
- The tracked surface flux `qs` in `after_step` uses `k[0]` (src/heat.cc:203). The surface flux of `ode_fun` uses `k[n]` (src/heat.cc:152). `HeatEquation.TrackedFluxAgrees` shows that the two agree when `k[0] == k[n]`, which holds for the constant conductivity of the base `f_k`.
- The impact driver passes `bool(param[i][1])` as the surface mode, and the mode values are 0, 1 and 2 (projects/impact-layer/main.cc:27, 81). So the modes used are 0, 1 and 1:
  - the interpolation mode 2 is never selected;
  - the rows with mode values 1 and 2 run the same integration twice, under two names.

  `ImpactSweep.ModesSelected` and `ImpactSweep.DuplicateTrials` prove this. The model keeps the behaviour as written.
- The `Heat` constructor computes the base geotherm's initial state even in an `ImpactLayer`. `init_layer` then overwrites every cell (projects/impact-layer/impact_layer.cc:22, 43). `ImpactLayers.ImpactLayer.constructor` states the final state only.

## Model

| member | source | states |
|---|---|---|
| Util.Max | src/util.cc:5-13 | for n = 0 the result is 0.0; otherwise it is an element of the first n entries and no entry exceeds it |
| Util.Min | src/util.cc:15-23 | for n = 0 the result is 0.0; otherwise it is an element of the first n entries and no entry is below it |
| Util.Interp | src/util.cc:25-33 | the array scan returns the bracket-search interpolation InterpTable of the first n samples |
| Util.InterpBelow | src/util.cc:27-28 | at or below the first abscissa the result is y[0] |
| Util.InterpAbove | src/util.cc:29-32 | for increasing x, above the last abscissa the result is the last ordinate |
| Util.ScanAbove | src/util.cc:29-32 | beyond the last abscissa no bracket matches, from any starting index |
| Util.BlendAtLeft | src/util.cc:31 | the linear blend of a bracket equals y[i] at x[i] |
| Util.BlendAtRight | src/util.cc:31 | the linear blend of a bracket equals y[i+1] at x[i+1] |
| Util.ScanBracket | src/util.cc:29-31 | for increasing x, the scan from any earlier index returns the blend of the bracket that holds xx |
| Util.InterpInBracket | src/util.cc:29-31 | for increasing x and x[i] <= xx <= x[i+1] the result is the linear blend of bracket i |
| Util.InterpAtSample | src/util.cc:27-31 | for increasing x the interpolant takes the value y[i] at every sample x[i] |
| Util.BlendBetween | src/util.cc:31 | the blend of util.cc:31 at a point of its bracket lies between the bracket's two ordinates, for either order of the ordinates |
| Util.InterpBetween | src/util.cc:29-31 | inside bracket i the interpolant lies between y[i] and y[i+1] |
| Util.Linspace | src/util.cc:35-54 | n = 1 with a != b is fatal and n = 1 with a = b gives [a]; for n >= 2 it returns n values a + i(b-a)/(n-1) |
| Util.SpacedEnds | src/util.cc:47-51 | the first value is a and the last is b |
| Util.SpacedIncreasing | src/util.cc:47-51 | for a < b the values increase strictly |
| Util.SpacedWithin | src/util.cc:47-51 | for a <= b every value lies in [a, b] |
| Util.Subsample | src/util.cc:56-77 | with step = size/n, step 0 or 1 copies v; otherwise the result is v[j*step] for every j*step < size and nothing else, as written |
| Util.SubsampleLongEnough | src/util.cc:60-72 | the subsample is never shorter than n unless it is an exact copy |
| Util.SubsampleKeepsLastOnlyWhenAligned | src/util.cc:69-73 | for step >= 2 the last element is kept exactly when step divides size-1 |
| Util.SubsampleDropsLast | src/util.cc:72-73 | six elements subsampled to three give [v0, v2, v4], dropping the last element |
| Util.SubsampleKeepingLast | src/util.cc:56-77 | corrected subsample: a copy when the step is 0 or 1; otherwise exactly the as-written result when it already ends on the last element, and that result with the last element appended when it does not; so the first and last elements are always kept |
| Io.Find | src/io.cc:28 | None iff c does not occur; otherwise the index of its first occurrence |
| Io.FirstNotSpace | src/io.cc:20 | None iff every character is whitespace; otherwise the first non-whitespace index |
| Io.LastNotSpace | src/io.cc:23 | None iff every character is whitespace; otherwise the last non-whitespace index |
| Io.TrimLeadingByFirst | src/io.cc:20-21 | dropping leading whitespace equals erasing up to the first non-whitespace index, or everything |
| Io.TrimTrailingByLast | src/io.cc:23-24 | dropping trailing whitespace equals erasing after the last non-whitespace index, or everything |
| Io.StripString | src/io.cc:16-25 | the two erasures give the stripped string |
| Io.StrippedSlice | src/io.cc:16-25 | the stripped string is the contiguous slice from the first to the last non-whitespace character, or empty |
| Io.StrippedEmptyIffBlank | src/io.cc:16-25 | the result is empty exactly when the input is all whitespace (or empty) |
| Io.StrippedEnds | src/io.cc:20-24 | a non-empty result neither starts nor ends with whitespace |
| Io.StrippedChars | src/io.cc:16-25 | stripping adds no character |
| Io.StrippedIdempotent | src/io.cc:16-25 | stripping twice equals stripping once |
| Io.SplitString | src/io.cc:27-35 | fatal iff c does not occur; otherwise s = s1 + c + s2 with no c in s1 |
| Io.NatToStringDigits | src/io.cc:37-44 | the decimal form of a natural is non-empty, all digits, and reads back as the number |
| Io.IntToStringRoundTrip | src/io.cc:37-44 | the decimal form of an integer (sign, then digits) reads back as the integer |
| Io.IntToStringInjective | src/io.cc:37-44 | distinct integers have distinct decimal forms |
| Io.IntToString | src/io.cc:37-44 | definition of int_to_string: a leading "-" for negative values, then the decimal digits of the magnitude; NatToStringDigits, IntToStringRoundTrip and IntToStringInjective prove what it promises |
| Io.ReadValues | src/io.cc:117-152 | the loop over lines returns the pairs of ParseLines, or its failure |
| Io.LineEntryPair | src/io.cc:133-147 | a pair from a kept line has a stripped key without '#' or '=' and a stripped value without '#' |
| Io.ReadValuesPairs | src/io.cc:130-148 | one pair per kept line (non-empty after stripping, not starting with '#'), in file order |
| Io.ReadValuesWellFormed | src/io.cc:137-146 | every emitted pair is well formed |
| Io.ReadValuesFailsIff | src/io.cc:135-139 | the reading fails exactly when some kept line has no '=' before its comment |
| Config.Defaults | src/settings.h:13-92 | the grid defaults 1, 0.01, 1, 1; run defaults tint = tunit = 1, nsnap 5, nmaxout 100, dtfac 0.9; rho0 = c0 = k0 = qgeo0 = 1, Tsa 0, Tsb 1, Tsc 1; so the defaults describe a usable run: positive grid widths with delzfrac >= 1, nonzero divisors, 0 < dtfac < 1, every toggle false |
| Config.CStrPlain | src/settings.cc:10-13 | a string without NUL reads as itself as a C string |
| Config.Cmp | src/settings.cc:10-13 | true iff the two C strings are equal |
| Config.EvalTxtBool | src/settings.cc:5-8 | true iff the text is exactly "true" |
| Config.EvalTxtBoolStrict | src/settings.cc:5-8 | "True", "1" and "false" give false; "true" gives true |
| Config.TruncateTowardZero | src/settings.cc:15-18 | the long conversion truncates toward zero on both signs |
| Config.ToLong | src/settings.cc:15-18 | definition of to_long: atof of the C-string view of the text, truncated toward zero as TruncateTowardZero proves |
| Config.KeyNameInjective | src/settings.cc:33-68 | the 33 recognised names are pairwise distinct |
| Config.LookupFromSpec | src/settings.cc:33-73 | the if-chain returns a key whose name matches, or None when no name matches |
| Config.LookupKeyIff | src/settings.cc:33-68 | the chain selects key k exactly when the text equals k's name |
| Config.LookupKeyNone | src/settings.cc:70-73 | the chain selects nothing exactly when the text is no recognised name |
| Config.StoreOwn | src/settings.cc:33-68 | a recognised key gets its parsed value in its own field, with the right parser for its type |
| Config.StoreOther | src/settings.cc:33-68 | storing into one key leaves every other key's field unchanged |
| Config.ApplyFrame | src/settings.cc:33-68 | after one pair, a field holds the parsed value if it is the pair's key and its old value otherwise |
| Config.GetExtensional | src/settings.h:13-92 | two records that agree on every key are equal |
| Config.ParseSettings | src/settings.cc:20-77 | the loop applies the pairs in order to the defaults; no pairs gives the defaults |
| Config.ApplyAllFailsIff | src/settings.cc:25-73 | parsing is fatal exactly when some pair names no recognised key |
| Config.ApplyAllLastWins | src/settings.cc:25-29 | each field ends with the parse of the last pair naming it, or its starting value if none does |
| Config.LastTextUntouched | src/settings.cc:25-29 | a key named by no pair keeps its starting value |
| Config.LastTextLast | src/settings.cc:25-29 | the last pair naming a key supplies its value |
| Config.CopySettings | src/settings.cc:79-121 | the copy equals the original on every field |
| Grids.GrownAt | src/grid.cc:61-68 | every raw width after the first is the previous width times delzfrac, capped at delzmax |
| Grids.RawWidthsBelow | src/grid.cc:61-68 | every raw width is at least min(delz0, delzmax), which makes the growth loop finish |
| Grids.GrowEdges | src/grid.cc:56-68 | the loop gives edges starting [0, delz0], grown by the capped rule, with only the last reaching the depth |
| Grids.RawEdgesUnique | src/grid.cc:61-68 | the growth loop's edges are unique: two sequences that both start 0, delz0, grow by its law and stop at the first edge at or past depth are equal |
| Grids.GridEdges | src/grid.cc:50-80 | grid_edges returns the raw edges of the growth law, scaled by -depth/last and reversed: the reference definition FinalEdges (through ScaledReversed), whose ends and order EdgesEnds and EdgesAscending prove; RawEdgesUnique shows the growth law fixes the raw edges, so the result is determined |
| Grids.ScaleBy | src/grid.cc:71-73 | every entry is multiplied by the factor |
| Grids.Reverse | src/grid.cc:75-79 | the swap loop reverses the sequence |
| Grids.RawPositive | src/grid.cc:57-68 | the raw edges increase strictly and the last one is positive |
| Grids.ScaleInUnit | src/grid.cc:71 | the scale depth/last lies in (0, 1] |
| Grids.EdgesEnds | src/grid.cc:71-79 | the final edges run from -depth to 0 with at least one cell; a depth within the first cell gives one cell |
| Grids.EdgesAscending | src/grid.cc:71-79 | the final edges increase strictly and no final width exceeds its raw width |
| Grids.UniformRawWidths | src/grid.cc:62-67 | with delzfrac = 1 and delzmax >= delz0 every raw width is delz0 |
| Grids.UniformWidthAt | src/grid.cc:62-79 | with delzfrac 1 and a cap at least delz0, every final width is delz0 times the squeeze factor depth/last |
| Grids.UniformWidths | src/grid.cc:62-79 | with delzfrac = 1 and delzmax >= delz0 all final cells have the same width |
| Grids.WidthsTelescope | src/grid.cc:22 | widths that are edge differences sum to last edge minus first |
| Grids.EdgeFactorRange | src/grid.cc:31 | an interior interpolation factor lies in (0, 1) and is 1/2 iff its two cells have equal width |
| Grids.GradientFactorPositive | src/grid.cc:36 | an interior gradient factor is positive |
| Grids.CellCentres | src/grid.cc:19 | zc[i] is the midpoint of ze[i] and ze[i+1] |
| Grids.CellWidths | src/grid.cc:22 | delz[i] = ze[i+1] - ze[i] |
| Grids.StabilityWidths | src/grid.cc:25-27 | delze has n+1 entries, equal to delz below n and to delz[n-1] at n |
| Grids.InterpolationFactors | src/grid.cc:30-32 | vefac is None at both ends and the edge factor in between |
| Grids.GradientFactors | src/grid.cc:35-37 | gefac is None at both ends and 1/(zc[i]-zc[i-1]) in between |
| Grids.Grid.constructor | src/grid.cc:5-39 | the grid holds the final edges and every derived array; n is the raw cell count, dep = -depth, ze[n] = 0, edges ascending for depth > 0 |
| Grids.CentresAscending | src/grid.cc:19 | centres of ascending edges ascend |
| Grids.WidthsSumToDepth | src/grid.cc:16-22 | the cell widths of a grid sum to its depth |
| Grids.InteriorFactors | src/grid.cc:30-37 | interior vefac lies in (0, 1), is 1/2 iff neighbouring widths match, and interior gefac is positive |
| HeatEquation.SurfaceTemp | src/heat.cc:78-82 | definition of the base f_Ts, Tsa + (Tsb-Tsa)(1-exp(-t/Tsc)); SurfaceTempStart and SurfaceTempBetween state its start and bounds |
| HeatEquation.FQgeo | src/heat.cc:84-89 | definition of f_qgeo: the geothermal flux qgeo0 at every time |
| HeatEquation.FK | src/heat.cc:91-96 | definition of f_k: the conductivity k0 at every depth |
| HeatEquation.FRho | src/heat.cc:98-103 | definition of f_rho: the density rho0 at every depth |
| HeatEquation.FC | src/heat.cc:105-110 | definition of f_c: the specific heat c0 at every depth |
| HeatEquation.Geotherm | src/heat.cc:115-119 | definition of f_geotherm, T0 + qgeo*depth/k; GeothermSlope proves that it carries the flux qgeo |
| HeatEquation.Flux | src/heat.cc:121-125 | definition of f_q, -dTdz*k; InteriorEdgeFlux and TopEdgeFlux use it |
| HeatEquation.Tendency | src/heat.cc:127-131 | definition of f_dTdt, ((qb-qt)/cap)/delz; TendencyBalance and EnergyBalance prove that it conserves heat |
| HeatEquation.SurfaceTempStart | src/heat.cc:78-82 | at t = 0 the surface temperature is Tsa |
| HeatEquation.SurfaceTempBetween | src/heat.cc:78-82 | while the exponential term is in [0, 1] the surface temperature lies between Tsa and Tsb |
| HeatEquation.GeothermSlope | src/heat.cc:115-119 | the geotherm changes by qgeo/k per unit depth |
| HeatEquation.TendencyBalance | src/heat.cc:127-131 | cap * delz * dTdt equals the flux difference of the cell |
| HeatEquation.BottomFluxIsGeothermal | src/heat.cc:145-146 | the bottom edge flux is exactly the geothermal flux |
| HeatEquation.EnergyBalance | src/heat.cc:145-156 | the stored heat rate summed over the cells equals bottom flux minus top flux |
| HeatEquation.UniformSteady | src/heat.cc:145-156 | a uniform column with zero geothermal flux and the surface at that temperature has no fluxes and no tendencies |
| HeatEquation.InteriorGeothermFlux | src/heat.cc:147-150 | between two cells on one geotherm the gradient flux is the geothermal flux |
| HeatEquation.SurfaceGeothermFlux | src/heat.cc:151-152 | the half-cell surface flux of a geotherm is the geothermal flux |
| HeatEquation.InteriorEdgeFlux | src/heat.cc:147-150 | an interior edge between geotherm cells carries the geothermal flux |
| HeatEquation.TopEdgeFlux | src/heat.cc:151-152 | the top edge of a geotherm column carries the geothermal flux |
| HeatEquation.InnerGradient | src/heat.cc:145-150 | definition of the gradients below the surface: -qgeo/k[0] at the bottom edge and gefac[i]*(T[i]-T[i-1]) inside, none of them depending on the surface temperature |
| HeatEquation.EdgeGradient | src/heat.cc:145-151 | definition of every edge gradient: the inner ones, and (Ts-T[n-1])/(delz[n-1]/2) at the top edge |
| HeatEquation.EdgeFlux | src/heat.cc:146-152 | definition of the edge flux f_q(dTdz[i], k[i]); BottomFluxIsGeothermal, GeothermSteady and EnergyBalance are about it |
| HeatEquation.GridColumns | src/heat.cc:136-156 | a grid and a constant conductivity give well-defined flux columns |
| HeatEquation.GeothermSteady | src/heat.cc:44-52 | on the initial geotherm every edge flux equals the geothermal flux |
| HeatEquation.GeothermAtRest | src/heat.cc:145-156 | on the initial geotherm every cell tendency is zero |
| HeatEquation.EdgeCap | src/heat.cc:61-67 | the capacity used at an edge is that of a neighbouring cell and at least each neighbour's |
| HeatEquation.MinStableStep | src/heat.cc:57-72 | dtmax is at most every edge candidate and equals one of them |
| HeatEquation.StepPositive | src/heat.cc:57-72 | with positive conductivities and capacities dtmax is positive |
| HeatEquation.Densities | src/heat.cc:28 | rho[i] is f_rho at the depth of cell i |
| HeatEquation.SpecificHeats | src/heat.cc:30 | c[i] is f_c at the depth of cell i |
| HeatEquation.Conductivities | src/heat.cc:32 | k[i] is f_k at the depth of edge i, for n+1 edges |
| HeatEquation.ProductsAt | src/heat.cc:34 | entry i of the products is rho[i]*c[i] |
| HeatEquation.ProductAt | src/heat.cc:34 | a product entry of known factors is their product |
| HeatEquation.ProductsOfConstants | src/heat.cc:34 | constant factors give the constant capacity rho0*c0 |
| HeatEquation.Capacities | src/heat.cc:34 | the loop gives cap = rho*c entrywise |
| HeatEquation.FillGeotherm | src/heat.cc:44-52 | every cell's state is the geotherm at its centre depth |
| HeatEquation.ConstantSteps | src/heat.cc:57-72 | nonzero constant k and cap make every edge candidate defined |
| HeatEquation.WidthsPositive | src/grid.cc:22 | widths of ascending edges are positive |
| HeatEquation.Materials | src/heat.cc:28-72 | the material arrays are the constants rho0, c0, k0 with cap = rho0*c0, and dtmax is the minimum candidate |
| HeatEquation.Zeros | src/heat.cc:37-39 | a fresh buffer of the given length, all zero |
| HeatEquation.Heat.constructor | src/heat.cc:5-73 | the solver copies the grid and settings, holds the base materials and the initial geotherm, dtmax is the minimum edge step, and every tracker is empty |
| HeatEquation.Heat.ColumnsOf | src/heat.cc:136-156 | any state of a valid solver gives well-defined flux columns |
| HeatEquation.Heat.FillInnerEdges | src/heat.cc:145-150 | dTdz holds InnerGradient and q = -k*dTdz at every edge below the surface; the top edge is untouched |
| HeatEquation.Heat.FillEdges | src/heat.cc:145-152 | dTdz holds EdgeGradient and q = -k*dTdz at every edge, the top one included |
| HeatEquation.Heat.FillTendencies | src/heat.cc:155-156 | output i is (q[i]-q[i+1])/cap[i]/delz[i] for each of the first m cells, and the others are untouched |
| HeatEquation.Heat.OdeFunWith | src/heat.cc:136-159 | for a given surface temperature, the fluxes are the edge fluxes of the input state, the outputs their tendencies, and q[0] the geothermal flux |
| HeatEquation.Heat.OdeFunInner | src/heat.cc:136-159 | with an undefined surface temperature, dTdz and q below the surface and the tendencies of every cell but the top one are written as in ode_fun; the top edge and top cell, NaN in the source, are untouched |
| HeatEquation.Heat.OdeFun | src/heat.cc:136-159 | as above, using the base surface temperature at the input time: dTdz, q and the outputs are all stated |
| HeatEquation.Heat.RecordExtremes | src/heat.cc:196-199 | when enabled, Tmax gains one value that is the maximum of the state and Tmin one that is its minimum, earlier entries kept; disabled trackers are unchanged |
| HeatEquation.Heat.AfterStepWith | src/heat.cc:194-206 | each enabled tracker gains exactly one value (the maximum, minimum, surface temperature, surface flux or time), with an undefined surface temperature giving None in Ts and qs; disabled trackers are unchanged |
| HeatEquation.Heat.AfterStep | src/heat.cc:194-206 | as above with the base surface temperature, which is always defined |
| HeatEquation.Heat.AfterSnap | src/heat.cc:181-192 | the snapshot-time tracker gains the time exactly when enabled |
| HeatEquation.Heat.DtAdapt | src/heat.cc:161-163 | definition of dt_adapt, dtfac*dtmax; DtAdaptLess, DtAdaptPositive and DtAdaptBelow bound it |
| HeatEquation.DtAdaptLess | src/heat.cc:161-163 | dt_adapt is below dtmax for 0 < dtfac < 1 |
| HeatEquation.DtAdaptPositive | src/heat.cc:161-163 | dt_adapt is positive for positive dtfac and dtmax |
| HeatEquation.DtAdaptBelow | src/heat.cc:161-163 | 0 < dt_adapt < dtmax for 0 < dtfac < 1 |
| HeatEquation.TrackedFluxAgrees | src/heat.cc:203 | the tracked surface flux (with k[0]) equals ode_fun's surface flux when k[0] = k[n] |
| HeatEquation.Heat.TrackedFlux | src/heat.cc:202-203 | definition of the recorded surface flux: f_q of the half-cell gradient with k[0], and None (NaN) for an undefined surface temperature |
| HeatEquation.InitialStateAtRest | src/heat.cc:44-52 | the state the constructor writes, the geotherm from f_Ts(0), is at rest on a grid with its top at 0 when exp(0) = 1: every tendency is zero with the surface at Tsa |
| ImpactLayers.LayerTemp | projects/impact-layer/impact_layer.cc:43-57 | definition of init_layer's value for the cell at depth -z; LayerProfile states it case by case |
| ImpactLayers.LayerProfile | projects/impact-layer/impact_layer.cc:41-58 | cells above deplayer get Tlayer, cells below get Tbelow + qgeo0(-z-deplayer)/k0, which is at least Tbelow for qgeo0 >= 0, k0 > 0 |
| ImpactLayers.Residual | projects/impact-layer/impact_layer.cc:71 | definition of the flux balance f = delz(sigma Ts^4 - 114) + k Ts - k Tend |
| ImpactLayers.Slope | projects/impact-layer/impact_layer.cc:73 | definition of its derivative df = 4 delz sigma Ts^3 + k; SlopePositive bounds it |
| ImpactLayers.NewtonStep | projects/impact-layer/impact_layer.cc:75 | definition of one update Ts - f/df, None where df = 0; StepResidual and FixedPointIsRoot are about it |
| ImpactLayers.StefanBoltzmann | projects/impact-layer/impact_layer.cc:60-79 | the loop computes the Newton iteration Run from the surface cell's temperature |
| ImpactLayers.SlopePositive | projects/impact-layer/impact_layer.cc:73 | for Ts >= 0, k > 0 and a nonnegative width the derivative is positive, so a step is defined |
| ImpactLayers.StepResidual | projects/impact-layer/impact_layer.cc:71-75 | one step moves by residual over derivative |
| ImpactLayers.FixedPointIsRoot | projects/impact-layer/impact_layer.cc:71-75 | a fixed point of the update is exactly a root of the residual |
| ImpactLayers.RunConverged | projects/impact-layer/impact_layer.cc:67-76 | a finished iteration ends with a step whose change meets the relative tolerance |
| ImpactLayers.NewtonResult | projects/impact-layer/impact_layer.cc:60-79 | the returned temperature is one converged step from an estimate whose residual is that step times the derivative |
| ImpactLayers.ArrayOf | projects/impact-layer/impact_layer.cc:27-30 | a fresh array holding the table |
| ImpactLayers.ImpactLayer.constructor | projects/impact-layer/impact_layer.cc:5-32 | the base constructor's state (the grid copy, the base materials, dtmax the minimum edge step, zero dTdz and q, every tracker empty), then the layer profile in every cell; the tables are held only in mode 2 |
| ImpactLayers.ImpactLayer.InitLayer | projects/impact-layer/impact_layer.cc:41-58 | every cell is overwritten with the layer profile |
| ImpactLayers.ImpactLayer.SurfaceTempAt | projects/impact-layer/impact_layer.cc:81-99 | definition of the f_Ts override: 220 in mode 0, the Newton iteration in mode 1, the table interpolation in mode 2, and None (NaN) otherwise; SurfaceTempModes, InterpolatedSurface and RadiativeIsNewton state these cases |
| ImpactLayers.ImpactLayer.SurfaceTemp | projects/impact-layer/impact_layer.cc:81-99 | the mode switch gives the surface temperature of SurfaceTempAt |
| ImpactLayers.ImpactLayer.OdeFun | src/heat.cc:136-159 | with a defined surface temperature, dTdz, q and the tendencies are those of the heat equation; with an undefined one every value below the surface is still written as in ode_fun, and only the NaN top edge and top cell are untouched |
| ImpactLayers.ImpactLayer.AfterStep | src/heat.cc:194-206 | every enabled tracker gains one value whether or not the surface temperature is defined: the maximum, the minimum and the time as usual, and None in Ts and qs when it is undefined |
| ImpactLayers.SurfaceTempModes | projects/impact-layer/impact_layer.cc:85-98 | mode 0 is 220 K at every time, mode 1 does not depend on time, any other mode but 2 gives no value |
| ImpactLayers.InterpolatedSurface | projects/impact-layer/impact_layer.cc:92-93 | mode 2 gives the first entry before the table, the last after it, and each tabulated value at its time |
| ImpactLayers.RadiativeIsNewton | projects/impact-layer/impact_layer.cc:89-90 | mode 1 runs Newton from the last cell's temperature with k[n] and the half width delz[n-1]/2 |
| Tables.PairBound | projects/thaw-times/main.cc:62-84 | a two-level row-major index lies in [0, n*m) |
| Tables.PairInjective | projects/thaw-times/main.cc:62-84 | distinct index pairs give distinct rows |
| Tables.PairSurjective | projects/thaw-times/main.cc:62-84 | every row index comes from an index pair |
| Tables.Index3Bijective | projects/impact-layer/main.cc:51-68 | the three-level index is in range and injective |
| Tables.Index3Onto | projects/impact-layer/main.cc:51-68 | every row index comes from an index triple |
| Tables.Index4Bijective | projects/thaw-times/main.cc:62-84 | the four-level index is in range and injective |
| Tables.Index4Onto | projects/thaw-times/main.cc:62-84 | every row index comes from an index quadruple |
| Tables.CrossLength | projects/thaw-times/main.cc:53 | a cartesian product has the product of the lengths |
| Tables.CrossAt | projects/thaw-times/main.cc:63-71 | row Pair(i, j) of a product is xs[i] followed by row j |
| Tables.Nest3 | projects/impact-layer/main.cc:51-68 | nesting a pair index gives the three-level index |
| Tables.Nest4 | projects/thaw-times/main.cc:62-84 | nesting a three-level index gives the four-level index |
| Tables.Table3Length | projects/impact-layer/main.cc:42 | the table has |a|*|b|*|c| rows |
| Tables.Table3At | projects/impact-layer/main.cc:51-68 | row (i*|b|+j)*|c|+k is [a[i], b[j], c[k]] |
| Tables.Table4Length | projects/thaw-times/main.cc:53 | the table has |a|*|b|*|c|*|d| rows |
| Tables.Table4At | projects/thaw-times/main.cc:63-71 | row ((i*|b|+j)*|c|+k)*|d|+l is [a[i], b[j], c[k], d[l]], the last parameter fastest |
| Tables.RangeWithin | src/util.cc:47-51 | every range value lies between its ends |
| Tables.RangeDistinct | src/util.cc:47-51 | two entries of an increasing range differ |
| Tables.RangeIsDistinct | src/util.cc:47-51 | an increasing range has no repeated value |
| Tables.Table3Distinct | projects/impact-layer/main.cc:51-68 | ranges without repeats give a table without repeated rows |
| Tables.Table4Distinct | projects/thaw-times/main.cc:62-84 | ranges without repeats give a table without repeated rows |
| Tables.FillRun3 | projects/impact-layer/main.cc:54-66 | the innermost loop writes the next |c| rows and advances the count by |c| |
| Tables.FillSlab3 | projects/impact-layer/main.cc:53-67 | the middle loop writes the next |b|*|c| rows |
| Tables.FillTable3 | projects/impact-layer/main.cc:51-68 | the nested loops fill a fresh table with exactly the rows of Table3 |
| Tables.FillRun4 | projects/thaw-times/main.cc:66-81 | the innermost loop writes the next |d| rows |
| Tables.FillBlock4 | projects/thaw-times/main.cc:65-82 | the third loop writes the next |c|*|d| rows |
| Tables.FillSlab4 | projects/thaw-times/main.cc:64-83 | the second loop writes the next |b|*|c|*|d| rows |
| Tables.FillTable4 | projects/thaw-times/main.cc:62-84 | the nested loops fill a fresh table with exactly the rows of Table4 |
| ThawTimes.ThawRanges | projects/thaw-times/main.cc:47-50 | the four linspace ranges have lengths 7, 10, 30 and 20 |
| ThawTimes.ValuesWithin | projects/thaw-times/main.cc:25-28 | k0 in [1, 7], qgeo0 in [0.01, 0.1], Tsa in [200, 260], Tsb in [280, 320] |
| ThawTimes.ThawRow | projects/thaw-times/main.cc:62-84 | each of the 42000 rows is one combination of range values, at its row-major index |
| ThawTimes.ThawRowWithin | projects/thaw-times/main.cc:62-84 | every row has four values within the ranges, so the conductivity is nonzero |
| ThawTimes.ThawCombination | projects/thaw-times/main.cc:63-71 | each combination is the row at its row-major index |
| ThawTimes.ThawRowsDistinct | projects/thaw-times/main.cc:62-84 | no combination appears twice |
| ThawTimes.TrialSettings | projects/thaw-times/main.cc:93-98 | the base settings with only k0, qgeo0, Tsa and Tsb replaced from the row |
| ThawTimes.TrialOf | projects/thaw-times/main.cc:93-105 | trial i is named by its index, uses TrialSettings, integrates tint*tunit with minimum step 1e-12 of that |
| ThawTimes.TrialNamesDistinct | projects/thaw-times/main.cc:102 | different trials have different names |
| ThawTimes.ThawTrials | projects/thaw-times/main.cc:91-106 | one trial per row of the table |
| ThawTimes.SetUpTrial | projects/thaw-times/main.cc:92-102 | the trial's settings and a fresh valid solver with them, on the cells of the shared grid (its n, dep, ze, zc and delz) |
| ThawTimes.SetUpTrials | projects/thaw-times/main.cc:91-106 | trial j is TrialOf row j, and solver j is valid, uses its settings and runs on the cells of the shared grid |
| ThawTimes.ThawTableRows | projects/thaw-times/main.cc:62-84 | the table has 42000 rows of four values with nonzero conductivity |
| ThawTimes.ThawTimesMain | projects/thaw-times/main.cc:32-106 | fatal iff argc != 3; otherwise the grid of the base settings (the growth law's final edges from -depth to 0) and the 42000 trials of the sweep, each solver valid, using its trial's settings and running on that one grid |
| ThawTimes.ThawSweep | projects/thaw-times/main.cc:46-106 | the trials are those of the table in order, and every solver is valid, uses its trial's settings and runs on the given grid |
| ImpactSweep.TsInterpValues | projects/impact-layer/main.cc:27 | the mode values are 0, 1 and 2 |
| ImpactSweep.ModeOf | projects/impact-layer/main.cc:81 | bool() of a mode value is 0 exactly for 0.0 and 1 otherwise |
| ImpactSweep.ModesSelected | projects/impact-layer/main.cc:81 | the modes used are 0, 1, 1, and never 2 |
| ImpactSweep.ImpactRanges | projects/impact-layer/main.cc:27-28 | the linspace ranges have lengths 3 and 5 |
| ImpactSweep.ImpactRow | projects/impact-layer/main.cc:51-68 | each of the 150 rows is one combination at its row-major index |
| ImpactSweep.ImpactRowShape | projects/impact-layer/main.cc:51-68 | every row has three values and a positive layer thickness |
| ImpactSweep.ImpactRowsDistinct | projects/impact-layer/main.cc:51-68 | for distinct thicknesses no combination appears twice |
| ImpactSweep.ImpactTrialOf | projects/impact-layer/main.cc:77-87 | trial i has the grid (6L, L/240), the layer (L, Tlayer), the mode bool(value), integration time 12 L^2/(k/cap) and minimum step 1e-12 of it |
| ImpactSweep.NonzeroModesAlike | projects/impact-layer/main.cc:81 | two rows with nonzero mode values and the same layer give the same trial apart from the name |
| ImpactSweep.DuplicateTrials | projects/impact-layer/main.cc:51-87 | rows (i, 1, k) and (i, 2, k) are distinct rows that run identical trials |
| ImpactSweep.TrialGridUniform | projects/impact-layer/main.cc:77 | a trial grid has cells of one width |
| ImpactSweep.TrialGrid | projects/impact-layer/main.cc:77 | a fresh grid built by the growth law from depth 6L, first width L/240, no growth and the 1e9 cap (valid, running from -6L to 0, its edges the squeezed and flipped raw edges); when L/240 is under the cap its cells are of one width |
| ImpactSweep.BottomCapacity | src/heat.cc:34 | the bottom cell's capacity is rho0*c0 |
| ImpactSweep.TrialTime | projects/impact-layer/main.cc:85 | the integration time from the solver's k[0] and cap[0] is the one from k0 and rho0*c0 |
| ImpactSweep.TrialLayer | projects/impact-layer/main.cc:77-81 | a fresh valid impact solver with the driver's settings, Tbelow = 220, the given mode and no table, together with the fresh grid it runs on; that grid is the growth-law grid of depth 6L and first width L/240, the solver's n, dep, ze, zc and delz are the grid's, and every cell holds the layer profile of Tlayer over depth L |
| ImpactSweep.TrialFor | projects/impact-layer/main.cc:77-87 | the trial record built from the solver's bottom k and capacity is exactly the trial the row defines (id, depth, width, thickness, Tlayer, mode, integration time and its tolerance) |
| ImpactSweep.SetUpImpactTrial | projects/impact-layer/main.cc:75-87 | the trial of the row, its solver and the solver's grid: the trial's mode, the growth-law grid of the trial's depth and first width under the solver's cells, the layer profile of the trial's Tlayer and thickness in every cell, and an integration time from the solver's k[0] and cap[0] |
| ImpactSweep.SetUpImpactTrials | projects/impact-layer/main.cc:75-89 | trial j is ImpactTrialOf row j, and solver j runs trial j on grid j: its settings and mode, cells from the growth-law grid of the trial's depth and first width, and its layer temperature and thickness in every cell |
| ImpactSweep.ImpactTrials | projects/impact-layer/main.cc:75-89 | one trial per row of the table |
| ImpactSweep.ImpactTableRows | projects/impact-layer/main.cc:51-68 | the table has 150 rows of three values with a positive thickness |
| ImpactSweep.ImpactMain | projects/impact-layer/main.cc:17-89 | fatal iff argc != 3; otherwise the 150 trials of the sweep, and solver j runs trial j on grid j: its settings and mode, cells from the growth-law grid of depth 6L and first width L/240, and its layer temperature and thickness in every cell |

## Left out

- File access: reading the settings file line by line, the 1000-character line buffer, `check_file_read`/`check_file_write`, `write_double`, `read_double`, `read_one_long` and `Grid::save`. These are operating-system behaviour. `Io.ReadValues` takes the lines as a sequence.
- The file writes of `before_solve`, `after_snap` and `after_solve` (src/heat.cc:168-223), and the `subsample` calls inside `after_solve`. The `subsample` logic itself is modelled.
- The `trials.csv` writes and `printf` progress of both drivers. They are output formatting only.
- The table files read in mode 2 (projects/impact-layer/impact_layer.cc:25-31).
  - The times and temperatures are parameters of `ImpactLayers.ImpactLayer.constructor`.
  - The destructor's `delete` is not modelled, since Dafny manages memory.
- OpenMP parallelism of the trial loops: the trials are independent, and the model sets them up sequentially.
- The integrator `OdeTrapz` is not part of this model, because its source is not available. That covers `solve_adaptive`, `set_name`, `set_quiet`, `set_silent_snap` and `get_t`.
  - The drivers stop after setting up each trial's solver, integration time and minimum step.
  - Time is a parameter of `ode_fun` and `after_step`.
- `logspace` (declared in src/util.h:24, called at projects/impact-layer/main.cc:26) has no definition in the source. The ten layer thicknesses are a parameter of `ImpactSweep.ImpactMain`, required to be positive.
- Parsing inside the drivers: `ThawTimes.ThawTimesMain` and `ImpactSweep.ImpactMain` receive the parsed `Settings`. `Config.ParseSettings` and `Io.ReadValues` model that step.
- Floating point: `real` is exact.
  - `exp` and `atof` are uninterpreted.
  - NaN is `None` where the source stores or returns it.
  - Divisions that would give IEEE infinities or NaN are excluded by preconditions: `k0 != 0`, `rho0*c0 != 0`, `Tsc != 0`, and nonzero widths.
- Latent heat: `LH`, `Tf` and `ahcw` are parsed and copied but used nowhere, so capacity stays `rho*c`.
- ImpactLayers.ImpactLayer.OdeFun: with an undefined surface temperature the source writes NaN into the top edge's gradient and flux and the top cell's tendency. `real` has no NaN, so the model leaves those three entries as they were. Every other entry is written as in `ode_fun`. HeatEquation.Heat.OdeFunInner is the same.
- Grids.GrowEdges, Grids.GridEdges, Grids.Grid.constructor and ThawTimes.ThawTimesMain require `delz0 > 0`, `delzmax > 0` and `delzfrac >= 1`, and the source checks none of these. Outside that range the growth loop at src/grid.cc:61-68 may never end: `delz0 = 0.01`, `delzfrac = 0.5`, `depth = 1`, for example, or any `delz0 <= 0`. It may also end normally, as with `delz0 = 0.01`, `delzfrac = 0.5`, `delzmax = 1`, `depth = 0.012`. The model covers only settings where the loop provably ends.
- ImpactLayers.ImpactLayer.constructor requires `Tsc != 0`, even though `init_layer` overwrites the base geotherm that divides by `Tsc`. With `Tsc = 0` the base constructor's initial state would be NaN, and `real` cannot hold it before it is overwritten.
- Aliasing of `solin` and `fout` in `ode_fun`: the model reads the input state before writing, as the source does when they are distinct.
- ImpactLayers.StefanBoltzmann: the source's Newton loop has no iteration bound. The model stops after `NewtonFuel` (1000) steps with `None`, which departs from the source only for an iteration that does not converge within 1000 steps.
- ImpactLayers.NewtonStep and ImpactLayers.StefanBoltzmann give `None` for a step with slope `df = 0`. In the source, `f/df` at projects/impact-layer/impact_layer.cc:75 is then ±infinity when `f != 0`, so the test at line 67 is NaN and false, and the function returns ±infinity; only `f = 0` as well gives NaN. The model does not tell these apart. A zero slope needs `4·delz·σ·Ts³ = -k`, which SlopePositive rules out for `Ts >= 0`, `k > 0` and `delz >= 0`. For `Tend >= 0` the residual is convex in `Ts`, so the Newton iterates should stay at or above its positive root, where the slope is positive; the model does not prove this.
- ImpactLayers.ImpactLayer.constructor: in mode 2 it requires a table of at least one entry, which the source assumes of the file it reads.
- Util.Subsample, Util.SubsampleKeepingLast, Util.SubsampleLongEnough and Util.SubsampleKeepsLastOnlyWhenAligned require `n > 0`. The source computes `size/n` on `unsigned long` at src/util.cc:60 without a check, and `after_solve` (src/heat.cc:212-220) passes the `nmaxout` setting, which src/settings.cc:42 reads from the file unchecked. With `nmaxout = 0` that is an integer division by zero, which C++ leaves undefined (in practice the process is killed), so there is no result for the model to give.
- HeatEquation.SurfaceTempBetween: states the bound only under the hypothesis on the uninterpreted `exp`, because `exp` is not modelled.

## Findings

| source | as written | input that shows it | evidently intended | confidence | as-written member | corrected member |
|---|---|---|---|---|---|---|
| src/util.cc:72-73 | after the loop `i >= size`, so `if (i < size - 1) r.push_back(v.back())` never runs and the last element is kept only when `step` divides `size-1` | v = [0,1,2,3,4,5], n = 3 gives step 2 and [0,2,4], without the last element 5 | keep the first and the last element, as the doc comment at src/util.h:26 says | not executed | Util.SubsampleDropsLast | Util.SubsampleKeepingLast |
