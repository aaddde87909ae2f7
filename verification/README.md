# Terrain generator core, modelled in Dafny

This project models the deterministic post-processing core of the
procedural terrain generator in `wasm/terrain/src/lib.rs`. Noise synthesis
produces three fields: height, moisture and temperature. `generate_map`
then runs them through six stages:

1. `apply_thermal_erosion` relaxes interior cells towards much lower
   neighbours.
2. `build_flow_map` finds each cell's steepest downslope neighbour, sorts
   the cells highest first, accumulates flow along the downslope edges and
   derives a water level per cell.
3. `enhance_moisture` adds bonuses for standing water and river flow.
4. `classify_biomes` assigns one of ten biome ids with a decision tree.
5. `place_settlements` scans for flat, dry, high-scoring cells, ranks them
   and places up to 16 spaced settlements. The settlements are jittered by
   the `SimpleRng` xorshift generator.
6. `build_roads` connects the settlements with Prim's algorithm.

Modules, one per stage plus shared helpers:

| file | module | what it holds |
|---|---|---|
| `base.dfy` | `Options`, `RealMath`, `Grid` | option type, min/max/clamp, `DIRECTIONS` and row-major indexing |
| `sorting.dfy` | `Sorting` | the stable descending insertion sort standing in for `sort_by` |
| `rng.dfy` | `Rng` | `SimpleRng` |
| `erosion.dfy` | `Erosion` | `apply_thermal_erosion` |
| `flow.dfy` | `Flow` | `build_flow_map` |
| `moisture.dfy` | `Moisture` | `enhance_moisture` |
| `biome.dfy` | `Biomes` | `classify_biomes` |
| `candidates.dfy` | `Candidates` | `local_flatness` and the candidate scan of `place_settlements` |
| `settlements.dfy` | `Settlements` | ranking, spacing and jitter of `place_settlements` |
| `roads.dfy` | `Roads` | `build_roads` |
| `pipeline.dfy` | `Generate` | the post-processing half of `generate_map` |

Numbers are modelled as follows:

- `f32` values are mathematical reals.
- The three floating-point library calls the core makes are function
  parameters: `powf(_, 0.4)`, `sqrt`, and the `u32 -> f32` conversion inside
  `next_f32`. The runoff curve carries the one property the proofs need. On
  the ratios the water rule feeds it, which lie in `[0, 1)`, it stays in
  `[0, 1)`.
- The generator state is a `bv32`, so shifts and `wrapping_mul` are exact.
- Flow values are cell counts (`nat`).

Facts about `lib.rs` the model follows:

- Settlement ids are 0-based, in placement order (line 433).
- Road edges hold indices into the settlement list (line 482).
- Biomes come from a decision tree over fixed temperature and moisture thresholds (lines 317-370).
- Erosion is a neighbour stencil repeated `erosion_iterations` times (lines 208-230).
- Settlements are ranked by a score of moisture, flatness and elevation (line 403).
- `place_settlements` computes `height - 2` at line 388, which underflows on a map of fewer than 2 rows. It computes `width - 2` at line 389 only inside the row loop, which runs only from 5 rows on; so a map of 2 to 4 rows may have any width, and gets no settlements.

## Model

| member | source | states |
|---|---|---|
| Grid.NeighbourAt | wasm/terrain/src/lib.rs:251-258 | the neighbour in a direction exists exactly when its coordinates are inside the grid, and its row-major index is then inside the grid |
| Grid.RowMajorOrder | wasm/terrain/src/lib.rs:244-246 | `y * width + x` orders cells row by row and, within a row, column by column |
| Grid.IndexInjective | wasm/terrain/src/lib.rs:246 | distinct in-grid coordinates get distinct indices |
| Grid.CellOf | wasm/terrain/src/lib.rs:416-417 | `index % width` and `index / width` recover the column and row of every in-grid index |
| Grid.DirectionStep | wasm/terrain/src/lib.rs:6-15 | every entry of `DIRECTIONS` moves at most one cell on each axis |
| Sorting.SortDesc | wasm/terrain/src/lib.rs:270 | the sorted sequence is a permutation of its input, ordered by non-increasing key |
| Sorting.SortStable | wasm/terrain/src/lib.rs:410 | on input whose tie-breaker strictly increases, the sort keeps that order among equal keys, as a stable `sort_by` does |
| Rng.New | wasm/terrain/src/lib.rs:510-512 | the initial state is the seed with its lowest bit forced to 1, so it is odd and never zero |
| Rng.Next | wasm/terrain/src/lib.rs:514-521 | a nonzero state steps to a nonzero state |
| Rng.PrevOfNext | wasm/terrain/src/lib.rs:514-521 | the xorshift step is injective: an explicit inverse undoes it |
| Rng.NextOfPrev | wasm/terrain/src/lib.rs:514-521 | the xorshift step is surjective: every state is the step of some state, so the step is a bijection on `u32` |
| Rng.AdvanceStep | wasm/terrain/src/lib.rs:514-521 | drawing once more after `k` draws gives the state after `k + 1` draws |
| Rng.SeededStreamNonzero | wasm/terrain/src/lib.rs:510-521 | a generator built by `new` never reaches the all-zero state, however many draws are made |
| Erosion.Drops | wasm/terrain/src/lib.rs:221-223 | the number of neighbours counted is positive exactly when some neighbour lies more than 0.03 below the centre |
| Erosion.Gain | wasm/terrain/src/lib.rs:216-224 | each midpoint added to the total lies at least 0.015 below the centre, and nothing is added when no neighbour is that much lower |
| Erosion.Relax | wasm/terrain/src/lib.rs:213-226 | the new height of a cell never exceeds the old one, and is strictly lower exactly when some neighbour lies more than 0.03 below |
| Erosion.RelaxFloor | wasm/terrain/src/lib.rs:213-226 | the new height is never below any lower bound shared by the centre and all its neighbours |
| Erosion.NeighbourValues | wasm/terrain/src/lib.rs:216-220 | for an interior cell, all eight `DIRECTIONS` neighbours are inside the grid, and entry `d` is the height of the in-bounds neighbour in direction `d` |
| Erosion.PassCell | wasm/terrain/src/lib.rs:209-229 | after one pass no cell is higher than before, and cells in the outer rows and columns keep their height |
| Erosion.PassLowers | wasm/terrain/src/lib.rs:209-229 | a pass lowers a cell exactly when it is interior and has a neighbour more than 0.03 below it |
| Erosion.PassFloor | wasm/terrain/src/lib.rs:209-229 | a pass never takes any cell below the minimum height of the grid before it |
| Erosion.PassSettled | wasm/terrain/src/lib.rs:209-229 | a grid with no such steep drop is left unchanged by a pass |
| Erosion.ErodeLowers | wasm/terrain/src/lib.rs:208-230 | after any number of iterations no cell is higher than at the start, and border cells are unchanged |
| Erosion.ErodeFloor | wasm/terrain/src/lib.rs:208-230 | iterating never takes any cell below the initial minimum height |
| Erosion.ErodeSettled | wasm/terrain/src/lib.rs:208-230 | a settled grid stays the same for any number of iterations |
| Erosion.RelaxCell | wasm/terrain/src/lib.rs:212-226 | the loop over `DIRECTIONS` for one interior cell computes the relaxed height of that cell |
| Erosion.Pass | wasm/terrain/src/lib.rs:209-229 | the row and column loops writing into a copy compute one whole pass, including the untouched border |
| Erosion.ApplyThermalErosion | wasm/terrain/src/lib.rs:205-231 | `iterations` passes, each reading only the previous pass's heights; callable exactly where the loop bounds do not underflow |
| Flow.ScanIsSteepest | wasm/terrain/src/lib.rs:247-263 | the lowest-neighbour scan (`Flow.Scan`) picks direction `d` exactly when that neighbour is strictly lower than the cell, no neighbour is lower still, and no earlier direction ties with it. It picks nothing exactly when no neighbour is strictly lower |
| Flow.SteepestUnique | wasm/terrain/src/lib.rs:259-262 | at most one direction is the first steepest descent |
| Flow.DownslopeIsSteepest | wasm/terrain/src/lib.rs:244-266 | a cell's downslope target is its first steepest strictly-lower neighbour, and there is none exactly when no neighbour is strictly lower |
| Flow.Downslope | wasm/terrain/src/lib.rs:244-266 | a downslope target lies inside the grid and strictly below its source cell |
| Flow.SingleCellIsSink | wasm/terrain/src/lib.rs:251-256 | on a 1×1 map every direction leaves the grid, so the only cell has no downslope target |
| Flow.DownslopeMap | wasm/terrain/src/lib.rs:242-267 | every target of the downslope vector is inside the grid and strictly lower than its source |
| Flow.HeightOrderFacts | wasm/terrain/src/lib.rs:269-270 | the sorted order lists every cell exactly once, highest first |
| Flow.InflowOverPermutation | wasm/terrain/src/lib.rs:273-277 | the inflow a cell collects does not depend on the order in which the upstream cells are visited |
| Flow.CatchmentOverOrder | wasm/terrain/src/lib.rs:269-277 | a cell's catchment is one plus the catchments draining into it, summed over any height order |
| Flow.FinalWhenReached | wasm/terrain/src/lib.rs:273-277 | when the loop reaches a cell, every cell draining into it has already been visited, so its flow is final |
| Flow.Accumulate | wasm/terrain/src/lib.rs:272-277 | for every descending height order, including any order among equal heights, each cell ends with its catchment: one plus the catchments of the cells draining directly into it. Each flow lies between 1 and the number of cells |
| Flow.MaxFlow | wasm/terrain/src/lib.rs:279 | the fold yields a value no flow exceeds and that is itself one of the flows (or 0 on an empty map) |
| Flow.Water | wasm/terrain/src/lib.rs:279-291 | water lies in `[0, 1]` and is exactly 1 on cells at or below sea level. Above sea level it is the runoff `powf(flow / (max_flow + 1), 0.4)` when that exceeds the 0.3 river threshold, and 0 otherwise |
| Flow.BuildFlowMap | wasm/terrain/src/lib.rs:233-294 | each flow is the catchment of its cell under the downslope map, between 1 and the cell count. The water vector is the water rule applied to those flows: in `[0, 1]`, 1 exactly at or below sea level, the runoff above the river threshold, 0 otherwise |
| Moisture.WaterBonus | wasm/terrain/src/lib.rs:299 | the water bonus never exceeds 0.7 and is 0.7 times the water value on water in `[0, 1]` |
| Moisture.FlowBonus | wasm/terrain/src/lib.rs:300 | the flow bonus lies in `[0, 0.8]` |
| Moisture.Enhance | wasm/terrain/src/lib.rs:299-302 | the new moisture lies in `[0, 1]` |
| Moisture.EnhanceMonotone | wasm/terrain/src/lib.rs:299-302 | with a positive divisor, more input moisture, more water and more flow never give a drier cell |
| Moisture.EnhanceNeutral | wasm/terrain/src/lib.rs:299-302 | with scale 0, a cell without water or flow keeps its moisture |
| Moisture.EnhanceLake | wasm/terrain/src/lib.rs:299-302 | a standing-water cell ends at least as wet as `0.7` over the divisor, capped at 1 |
| Moisture.EnhanceMoisture | wasm/terrain/src/lib.rs:296-304 | every cell of the result is in `[0, 1]` and is that cell's enhanced moisture, using the largest flow of the map |
| Biomes.Id | wasm/terrain/src/lib.rs:315-371 | each biome has a `u8` id in `0..=9` that maps back to it |
| Biomes.IdRoundTrip | wasm/terrain/src/lib.rs:315-371 | ids `0..=9` and the ten biomes correspond one to one |
| Biomes.ClassifyCell | wasm/terrain/src/lib.rs:317-370 | a cell is ocean exactly at or below sea level minus 0.02. Otherwise it is lake exactly when water exceeds 0.6. Failing that, it is alpine exactly when its elevation exceeds 0.82. Otherwise it takes the biome of the temperature/moisture band of the table that holds its temperature and moisture |
| Biomes.WetIsNeverDesertOrAlpine | wasm/terrain/src/lib.rs:318-331 | a cell with water above 0.6 is never desert or alpine |
| Biomes.Climate | wasm/terrain/src/lib.rs:336-368 | the band tree yields only the climatic biomes, ids 2 to 8 |
| Biomes.BandOf | wasm/terrain/src/lib.rs:336-368 | every temperature/moisture point lies in one of the twelve bands of the tree |
| Biomes.BandsDisjoint | wasm/terrain/src/lib.rs:336-368 | no point lies in two bands |
| Biomes.ClimateIffBand | wasm/terrain/src/lib.rs:336-368 | the tree returns a biome exactly for the points of a band labelled with it |
| Biomes.ClassifyBiomes | wasm/terrain/src/lib.rs:306-373 | the id vector has `width * height` entries, each the id of that cell's classification |
| Candidates.ClampedNeighbour | wasm/terrain/src/lib.rs:496-498 | clamping each coordinate always gives a cell inside the grid |
| Candidates.LocalFlatness | wasm/terrain/src/lib.rs:491-503 | flatness is never negative |
| Candidates.FlatIffLevel | wasm/terrain/src/lib.rs:491-503 | flatness is zero exactly when all eight clamped neighbours have the centre's height |
| Candidates.ClampInactive | wasm/terrain/src/lib.rs:496-497 | away from the border the clamps do nothing, so the scanned cells are the true neighbours |
| Candidates.CandidatesSound | wasm/terrain/src/lib.rs:388-408 | every collected candidate is a cell at least two cells from the border that passes the four tests, with its own score (`Candidates.Score`, the weighted sum of line 403) |
| Candidates.CandidatesComplete | wasm/terrain/src/lib.rs:388-408 | every cell that passes the four tests is collected |
| Candidates.CandidatesIncreasing | wasm/terrain/src/lib.rs:388-408 | candidates are collected in strictly increasing row-major order |
| Candidates.CollectCandidates | wasm/terrain/src/lib.rs:388-408 | the nested loops over the zone two cells in from the border collect exactly the qualifying cells, in index order |
| Settlements.RankedOrder | wasm/terrain/src/lib.rs:410 | in the ranking `Settlements.Consider` computes, candidates are ranked by non-increasing score, with equal scores kept in row-major order |
| Settlements.ConsideredIsPrefix | wasm/terrain/src/lib.rs:410-415 | the considered candidates (`Settlements.Consider`) are the first `min(200, count)` of the ranking |
| Settlements.ConsideredEligible | wasm/terrain/src/lib.rs:388-415 | every considered candidate is a qualifying cell carrying its own score |
| Settlements.TwoDraws | wasm/terrain/src/lib.rs:429-430 | placing settlement `n` advances the generator from `2n` to `2n + 2` draws |
| Settlements.NewSettlement | wasm/terrain/src/lib.rs:429-437 | the new settlement gets id `n`, the cell's world position plus the jitters of draws `2n + 1` and `2n + 2`, and size `score * 6` clamped into `[1.2, 6.5]` |
| Settlements.Visit | wasm/terrain/src/lib.rs:415-437 | a considered candidate within 120 world units of a placed settlement is skipped; any other is appended as the next settlement |
| Candidates.ShortGridHasNoCandidates | wasm/terrain/src/lib.rs:388-389 | on a grid of fewer than 5 rows the row range is empty, so no candidate is collected, whatever the width |
| Settlements.ShortGridConsidersNothing | wasm/terrain/src/lib.rs:388-415 | on a grid of fewer than 5 rows no candidate is considered, so nothing is placed |
| Settlements.PlaceKeepsSpaced | wasm/terrain/src/lib.rs:421-437 | pushing a settlement on a cell that no earlier settlement crowds keeps every settlement's cell at least 120 units from all settlements placed before it |
| Settlements.PlaceKeepsGreedy | wasm/terrain/src/lib.rs:415-437 | when every candidate visited so far was placed on or crowded out, pushing the next candidate keeps the greedy property: each skipped candidate ranked before a settlement's was crowded by settlements placed before that one |
| Settlements.PlaceSettlements | wasm/terrain/src/lib.rs:410-444 | at most 16 settlements. Settlement `k` has id `k` and lies on a considered qualifying cell, with that cell's jitter and size. The unjittered position of its cell is at least 120 units from every earlier settlement. The candidate ranks of the settlements increase, and every considered candidate ranked before a settlement's and not placed on lay within 120 units of a settlement placed before it, so the placement is the greedy one. Unless 16 were placed, every considered cell was placed on or crowded out. A grid of fewer than 5 rows gets no settlements |
| Roads.ShortestCrossing | wasm/terrain/src/lib.rs:458-478 | the scan finds no pair exactly when no connected/unconnected pair exists. Otherwise its pair is such a pair, at minimum distance, and every such pair scanned before it is strictly longer |
| Roads.BuildRoads | wasm/terrain/src/lib.rs:447-489 | fewer than two settlements give no roads. Otherwise there are `count - 1` roads. Each road runs from a settlement already reached by the earlier roads to one not yet reached, and is the first shortest such road. Together the roads reach every settlement, which is Prim's spanning tree |
| Roads.Grow | wasm/terrain/src/lib.rs:480-482 | appending the found pair keeps the connected flags equal to the set of settlements the roads reach, and extends the tree by the first shortest road out of it |
| Generate.GenerateMap | wasm/terrain/src/lib.rs:172-202 | the map has the given size. Its heights are the eroded heights and its temperature is untouched. Each flow is its cell's catchment under the downslope map of the eroded heights. Water is the water rule over those flows, and moisture is each cell's enhanced moisture. Each biome id classifies its cell. The settlements are the greedy placement on the resulting terrain, and the roads are Prim's tree over them: `count - 1` roads, each the first shortest road out of the tree built so far, reaching every settlement. The grid needs 2 rows, 2 columns from 5 rows on, and 1 column from 3 rows on when erosion runs; below 5 rows it gets no settlements and no roads |

## Left out

- Noise synthesis of `generate_map` (lines 117-170: OpenSimplex sampling, domain warp, octaves, continentality, latitude temperature) is not modelled. `Generate.GenerateMap` takes the three synthesized fields as input. The noise crate is outside this model.
- The `MapResult` getters and typed-array conversions (lines 39-104) are JavaScript glue with no logic.
- Floating-point rounding, NaN and infinities are not modelled: `f32` is modelled as a real. The NaN panic of `partial_cmp(..).unwrap()` at line 270, and the `unwrap_or(Equal)` fallback at line 410, therefore never arise.
- `powf`, `sqrt` and the `u32 -> f32` conversion of `next_f32` (lines 523-526) are uninterpreted parameters. `Flow.RunoffCurve` requires of `powf` only that it maps `[0, 1)` into `[0, 1)`.
- Flow.Accumulate: flows are exact cell counts. The source adds them in `f32`, which is exact only up to 2^24 cells.
- Generate.GenerateMap: the `u32` product `width * height` at lines 117 and 315 is not modelled as wrapping. The model requires what the source needs to avoid an underflow panic: at least 2 rows (`height - 2` at line 388), at least 2 columns from 5 rows on (`width - 2` at line 389, reached only when the row loop runs), and at least 1 column from 3 rows on when erosion runs (`width - 1` at line 211). It also requires the moisture divisor `1 + moisture_scale * 0.5` to be nonzero; at `moisture_scale = -2` the source divides by zero.
- Erosion.ApplyThermalErosion: requires that the loop bounds `height - 1` and `width - 1` do not underflow when at least one iteration runs. The source panics there.
- Roads.BuildRoads: the `else { break; }` branch at lines 483-485 is proved unreachable and has no counterpart in the model.
- Roads.BuildRoads: each road is proved to be the first shortest edge leaving the tree built so far (the cut property Prim's algorithm rests on). Global minimality of the total tree weight is not stated.
- Settlements.PlaceSettlements: besides the settlements it returns `cells`, the grid cell each was placed on, and the ghost `picks`, the rank of each in the sorted candidate list, so its contract can name them. The source returns neither. `Generate.GenerateMap` passes both on for the same reason.
- Settlements.PlaceSettlements: settlement ids are unbounded naturals; the `as u32` cast at line 433 never truncates, since there are at most 16.
