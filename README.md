# Interior-model ingestion and lithosphere location (pyCrust, `mars_j2.py`)

This project models the algorithmic core of `mars_j2.py`. That script reads one-dimensional
interior models of Mars and, for each model, finds the shell at the base of a lithosphere of
fixed thickness (150 km). It then hands the profile to a hydrostatic-shape routine and reports
the minimum and maximum hydrostatic percentage over the tabulated models. The model has four
parts.

- **Deck reader** (module `Deck`, file `deck.dfy`). It takes the parsed header fields (the
  polynomial flag, the declared entry count, and the core and crust entry numbers) and the
  parsed `(radius, density)` data lines. It walks consecutive entry pairs:
  - an equal-radius pair is a discontinuity marker: it emits no row, but records the current
    row count as the core or crust index when it is the declared entry;
  - any other pair emits one row: the bottom radius with the mean of the two densities.

  A terminal row at the last radius, with density 0, closes the profile. `ReadDeck` fills two
  preallocated arrays at a running counter, as the script does with `np.zeros`. The mantle and
  core densities are read one row below the crust and core indices. Python's `rho[-1]` wrap is
  modelled.
- **Lithosphere locator** (module `Locator`, file `locator.dfy`). `Locate` scans a radius
  array for the first `i` with `radius[i] <= target < radius[i+1]`. It returns `i` on an exact
  match or when the target is no farther from `radius[i]` than from `radius[i+1]`, and `i+1`
  otherwise. As in the script, `radius[i+1]` is read only once `radius[i] <= target`. So the
  scan has two failure modes: it runs past the end, or it finds nothing and leaves the index
  unassigned.
- **Tabulated reader** (module `Table`, file `table.dfy`). It skips a 4-line header and copies
  the data rows verbatim into arrays. It then locates the lithosphere shell and only afterwards
  sets the last density to 0, in the script's order.
- **Batch** (module `Batch`, file `batch.dfy`). It holds:
  - the running minimum (from 100) and maximum (from 0) of the per-model percentages;
  - the per-deck evaluation: surface radius, lithosphere index, densities, boundary radii, and
    the actual lithosphere depth;
  - the loop over decks, which stops at the first failing model.

The lithosphere thickness `d_lith`, fixed at 150 km on mars_j2.py line 20, is the parameter
`dLith` of every member that uses it.
Radii and densities are Dafny `real`. The model is exact rational arithmetic, not IEEE doubles.
Python exceptions become `Err` values of a `Result`:
- the polynomial-flag `RuntimeError`;
- the `ValueError` from `np.zeros` of a negative size;
- the `NameError` for `rt`, `i_core`, `i_crust` or `i_lith` when they were never assigned;
- the `IndexError`s from truncated files or a scan that runs past the end.

Three behaviours of `mars_j2.py` that the model keeps as they are:
- The locator has two distinct failures. A bracketing pair, when one exists, is always found.
  When none exists, the scan raises an `IndexError` if the last radius is at or below the
  target, and otherwise leaves `i_lith` unassigned. Both failures are modelled.
- The script never checks that a declared core or crust entry is a discontinuity pair. The
  deck reader then returns that boundary index as `None`, and the density lookup is where the
  failure shows (see Findings).
- Tables are not checked for duplicate radii, in the script or in the model.

Each deck is read from a fresh state. In the script, `rt`, `i_core`, `i_crust` and `i_lith`
are locals of `main()`, so they survive from one deck to the next. `Deck.DensitiesAsWritten`
models that carry-over for the density lookup alone. The per-deck evaluation and the batch use
the corrected lookup instead (see "## Left out" and Findings).

## Model

| member | source | states |
|---|---|---|
| `Deck.ReadDeck` | mars_j2.py:57-100 | The array-filling loop yields exactly `DeckSpec`. A polynomial flag other than 1 is rejected before any profile is built. |
| `Deck.DeckSpec` | mars_j2.py:62-100 | Every profile it yields has equal-length columns, at least one row, and boundary indices inside the profile. |
| `Deck.Rows` | mars_j2.py:76-92 | The first k entry pairs emit at most k rows. |
| `Deck.Marker` | mars_j2.py:84-88 | A boundary index is recorded only at the declared 0-based pair, and only when that pair has equal radii. It equals the row count before that pair, which is at most the rows emitted so far. |
| `Deck.Profile` | mars_j2.py:76-99 | The layer rows followed by exactly one terminal row at the last entry's radius with density 0, `rho[num] = 0` above the surface. There are at most `num_file` rows. |
| `Deck.WalkPairs` | mars_j2.py:72-96 | The loop fills the preallocated columns at the running counter with exactly the rows of `Profile`, terminal row included. It records the boundary indices `Marker` gives. |
| `Deck.WalkStep` | mars_j2.py:84-92 | After pair k, the rows grow by the pair's row unless it is a marker. The boundary index is set exactly when k is the declared pair and that pair is a marker. |
| `Deck.RowsPrefix` | mars_j2.py:90-92 | Rows already written are never rewritten by later pairs, and the row count never decreases. |
| `Deck.FirstRow` | mars_j2.py:84-92 | The first emitted row lies at the first entry's radius, because every pair before it is a marker. |
| `Deck.RowsIncreasing` | mars_j2.py:84-92 | For nondecreasing entry radii, the emitted radii strictly increase. They lie between the first entry's radius and, strictly below, the radius of the current entry. |
| `Deck.DeckShape` | mars_j2.py:72-100 | At most `num_file` rows. The last row has the last entry's radius (the surface radius `r0_model`) and density 0. Both boundary indices, when recorded, lie within the profile. |
| `Deck.DeckIncreasing` | mars_j2.py:84-98 | If the entry radii do not decrease, the profile radii strictly increase, terminal row included. |
| `Deck.BoundaryRowRadius` | mars_j2.py:84-96 | From a marker pair on, the row at the recorded index is either not yet written, with every pair since a marker, or carries the boundary's radius. |
| `Deck.MarkerRadius` | mars_j2.py:84-120 | The profile radius at a recorded boundary index is the radius of the declared discontinuity pair. These are the reported mantle and core radii. |
| `Deck.MinimalDeck` | mars_j2.py:72-100 | One layer pair, one boundary pair and a terminal entry give a two-row profile. Its terminal density is 0 and its boundary index is 1. |
| `Types.PyIndex` | mars_j2.py:115-116 | A non-negative index reads that element, and a negative one counts from the end, so `rho[-1]` is the last row. |
| `Deck.MantleCoreDensities` | mars_j2.py:115-116 | The mantle density is `rho[i_crust-1]` and the core density `rho[i_core-1]`, with index 0 wrapping round to the last row. It fails exactly when a boundary was not recorded, the crust boundary first. |
| `Deck.DensitiesAsWritten` | mars_j2.py:84-116 | The lookup as the script performs it: an unrecorded boundary falls back on the index left by an earlier deck. It fails exactly when a fallback index is missing or lies past this profile, the crust first. Otherwise it reads `rho[i-1]` at both fallback indices, with Python's wrap. With both boundaries recorded in this deck, or with no earlier indices, it agrees with `MantleCoreDensities`. |
| `Deck.StaleCoreIndex` | mars_j2.py:57-116 | A concrete second deck with no core marker. The as-written lookup reports a core density taken at the previous deck's core index. The corrected lookup refuses the deck. |
| `Deck.DensityBelowMarker` | mars_j2.py:115-116 | The density read below a recorded boundary is that of the last layer row emitted before the boundary pair, or 0 when no row precedes it. |
| `Deck.DensitiesBelowBoundaries` | mars_j2.py:115-116 | When the lookup succeeds, both declared entries are marker pairs of this deck. The densities are those of the rows just below those boundaries. |
| `Locator.FirstStop` | mars_j2.py:103-105 | Returns the first position where `radius[i] <= target` and either `radius[i+1] > target` or there is no next radius. Returns None exactly when no position qualifies. |
| `Locator.Nearer` | mars_j2.py:106-112 | Picks `i` or `i+1`. It picks `i` exactly when `target - radius[i] <= radius[i+1] - target`, so ties go to the lower index. The pick is within half the bracket width of the target. |
| `Locator.LocateSpec` | mars_j2.py:103-113 | A located index is an index of the radius column. |
| `Locator.Locate` | mars_j2.py:103-113 | The scan with its `break` yields exactly `LocateSpec`: the tie-broken pick at the first stop; an index error when that stop is the last position; no bracket when there is no stop. |
| `Locator.LocatedIsNearestOfFirstBracket` | mars_j2.py:103-113 | A located index comes from the first bracketing pair `radius[i] <= target < radius[i+1]`. It is one of that pair's ends, chosen by the tie-break, and at most half the bracket width from the target. |
| `Locator.StopBeforeEnd` | mars_j2.py:103-105 | If the scan starts at a radius at or below the target and the last radius is above it, the scan stops before the last position. |
| `Locator.InRangeLocated` | mars_j2.py:103-113 | Any target with `radius[0] <= target < radius[last]` is located, however the radii are ordered. |
| `Locator.SortedLocatesNearest` | mars_j2.py:103-113 | Over nondecreasing radii, with a target inside the span, the located radius is at least as close to the target as every other radius. |
| `Locator.ExactMatch` | mars_j2.py:106-107 | Over strictly increasing radii, a target equal to `radius[j]` with `j` below the last index locates `j`. |
| `Locator.TooThick` | mars_j2.py:103-105 | Over nondecreasing radii, a thickness larger than the profile's radial span from the surface finds no bracket, so `i_lith` stays unassigned. |
| `Locator.NotThick` | mars_j2.py:103-105 | Over nondecreasing radii, a thickness of 0 or less makes the scan read past the end of the array. |
| `Locator.PositiveThicknessInBounds` | mars_j2.py:164-166 | With a positive thickness measured from the last radius, the scan never reads past the end. |
| `Locator.TieBreakExample` | mars_j2.py:108-110 | On radii 0, 10, 20, 30 with target 15, the lower index 1 is chosen. |
| `Table.TableSpec` | mars_j2.py:151-177 | A table that is read has `len(lines) - 4` rows in both columns, a lithosphere index inside the profile and a last density of 0. |
| `Table.FirstText` | mars_j2.py:155-158 | Returns the first data line that does not read as a number pair, with every line before it a pair. Returns None exactly when all remaining lines are pairs. |
| `Table.ReadTable` | mars_j2.py:149-177 | Copying into arrays, scanning the radius array, then zeroing `rho[n]` yields exactly `TableSpec`. |
| `Table.CopyRows` | mars_j2.py:153-158 | The copy loop stops at the first unparsable line. Otherwise it fills both columns with the lines' radii and densities. |
| `Table.TableMeaning` | mars_j2.py:151-177 | 4 lines or fewer is an error, and an unparsable data line is reported at the first one. On success there are `len(lines)-4` rows, each radius equal to its line's and each density equal to its line's except the last, which is 0. `i_lith` is the scan's result on the model's own radii, so zeroing the density after the scan does not change it. |
| `Batch.RunningMax` | mars_j2.py:192-193 | The running maximum, replaced only by a strictly larger percentage, is at least its start value and is either that value or one of the percentages. |
| `Batch.RunningMin` | mars_j2.py:194-195 | The running minimum, replaced only by a strictly smaller percentage, is at most its start value and is either that value or one of the percentages. |
| `Batch.RunningMaxIsGreatest` | mars_j2.py:192-193 | The running maximum is at least the start value and every percentage, and is one of them. |
| `Batch.RunningMinIsLeast` | mars_j2.py:194-195 | The running minimum is at most the start value and every percentage, and is one of them. |
| `Batch.OrderIndependent` | mars_j2.py:139-144 | Visiting the same models in any order gives the same minimum and maximum. |
| `Batch.Aggregate` | mars_j2.py:141-142 | After the loop, `pmin` is the least of 100 and all percentages, and `pmax` the greatest of 0 and all percentages. |
| `Batch.ThreeModels` | mars_j2.py:192-195 | Percentages 10, 55 and 80 in any order give minimum 10 and maximum 80. |
| `Batch.ReportOf` | mars_j2.py:100-124 | A deck profile is reported exactly when the scan locates a shell and both boundaries were recorded. It reports a scan past the end as such. A report holds the surface radius `radius[n]`, the located index, the looked-up densities, `radius[i_crust]`, `radius[i_core]` and `r0 - radius[i_lith]`. |
| `Batch.EvaluateDeckSpec` | mars_j2.py:57-124 | A deck fails as a bad deck exactly when the deck reader refuses it. A report carries the profile the reader built. |
| `Batch.EvaluateProfile` | mars_j2.py:100-124 | From a deck profile: surface radius, scan, density lookup, boundary radii and actual lithosphere depth `r0 - radius[i_lith]`. It fails in the script's order: a scan past the end, a missing boundary, then a missing bracket. |
| `Batch.EvaluateDeck` | mars_j2.py:57-124 | One deck: a deck error, or the report of its profile. |
| `Batch.SortedDeckSpan` | mars_j2.py:84-100 | A deck with nondecreasing entry radii has a strictly increasing profile from the first entry's radius to the last's. |
| `Batch.SortedDeckReported` | mars_j2.py:103-116 | For such a deck, a thickness between 0 (exclusive) and the profile's span always locates a shell. The deck is reported whenever both boundaries were recorded. |
| `Batch.ReportedRadii` | mars_j2.py:100-120 | A reported deck's surface radius is the last entry's radius. Its mantle and core radii are the radii of the declared discontinuity pairs. |
| `Batch.SortedProfileLithosphereDepth` | mars_j2.py:103-124 | Over nondecreasing profile radii, with the lithosphere base inside the profile, the reported depth is as close to the assumed thickness as any radius's depth. |
| `Batch.DepthsFromRadii` | mars_j2.py:123-124 | A radius nearest the target radius `r0 - d_lith` gives a depth below `r0` nearest `d_lith`. |
| `Batch.SortedDeckLithosphereDepth` | mars_j2.py:103-124 | For such a deck, the actual lithosphere depth is as close to the assumed thickness as the depth of any profile radius. |
| `Batch.EvaluateDecks` | mars_j2.py:57-132 | The loop over decks stops at the first failing deck and reports its position and error. Every earlier deck succeeded, and no later deck is processed. When all succeed, one report per deck, in order. |

## Left out

- File reading (`open`, `readlines`), `str.split` and `float()`/`int()` text conversion: the deck header comes as parsed numbers and the deck's data lines as parsed pairs. A table line is either a number pair or unparsable text (`Table.TableLine`).
- All `print` reporting. The reported quantities are fields of `Batch.DeckReport` instead.
- The gravity and topography loading through pyshtools (mars_j2.py:28-47), `HydrostaticShapeLith` (mars_j2.py:127-129, 185-187) and the percentage formula from its coefficients (mars_j2.py:130-132, 188). These are calls into code outside this model. The percentages are the input sequence of `Batch.Aggregate`.
- The directory listing, sorting and `.dat` extension filter of the tabulated batch (mars_j2.py:137-146), which are file-system I/O. The table loop over files is the per-file `Table.ReadTable` followed by `Batch.Aggregate`.
- pyCrust-Moon.py: it only calls pyshtools and pyMoho and plots, with no logic of its own.
- IEEE floating-point rounding of the density mean and of the radius-equality and distance comparisons. NaN is not modelled either.
- Batch.EvaluateDeck: when the scan finds no bracket, the script raises `NameError` for the first deck, which `NoLithosphere` matches, but for a later deck it reuses the previous deck's `i_lith`. The model reports `NoLithosphere` for every deck.
- Batch.EvaluateDecks: the loop carries no `i_core`, `i_crust` or `rt` from one deck to the next. Each deck goes through the corrected `Deck.MantleCoreDensities`. A deck whose declared core or crust entry is not a discontinuity pair stops the batch with `MissingBoundary`, while the script reuses the earlier deck's index and carries on (the Findings row). A deck with a single entry stops it with `BadDeck(TooFewEntries)`, while the script builds a one-row profile at the previous deck's last radius `rt`.
- Table.ReadTable: likewise, a failed scan is always `NoLithosphere` here. The script reuses the previous table's `i_lith`, and for the first table the last deck's.
- The `IndexError` of `radius[i_crust]` at mars_j2.py:118-120 for a stale index equal to the profile length is not modelled. `Deck.DensitiesAsWritten` covers only the density lookup lines.

## Findings

| source | as written | input that shows it | evidently intended | confidence | as-written member | corrected member |
|---|---|---|---|---|---|---|
| mars_j2.py:84-88, 115-116 | `i_core` and `i_crust` are assigned only when a declared entry is a discontinuity pair, and are never reset between decks. A deck whose declared core (or crust) entry is not an equal-radius pair silently uses the index left by the previous deck. | A first deck that sets `i_core = 1`, then a deck with header `(1, 3, 2, 1)` and entries `(0, 9), (0, 4), (50, 4)`: its core entry 2 is a layer pair, and the reported core density is `rho[0] = 4` of the second deck. | A deck whose declared boundary is not a discontinuity pair is rejected, and the densities a deck reports come from its own boundaries. | medium; not executed | `Deck.DensitiesAsWritten`, `Deck.StaleCoreIndex` | `Deck.MantleCoreDensities`, `Deck.DensitiesBelowBoundaries` |
