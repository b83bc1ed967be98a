# Hydraulic erosion of a heightmap, in Dafny

This project models the erosion engine of TerrainGen, `src/erosion.rs`. The
terrain is a square heightmap of `size * size` heights stored flat in
row-major order. Each tick runs three operations, in no order fixed by the
program:

- River sources release water droplets.
- Droplets that have run out of water are removed.
- Each droplet, in turn, steers along the slope, moves one unit, and trades
  sediment with the ground it left. It deposits when it carries more than it
  can hold and erodes when it can carry more. Its speed and water are then
  updated.

The model is split into five modules, one per file:

- `Vectors` (vectors.dfy): the `Vec2` arithmetic. It also holds the two
  floating-point library calls the step uses, `sqrt` and `normalize`. Both
  enter the model as function parameters, constrained by `IsSqrt` and
  `IsNormalize`.
- `Grid` (grid.dfy): the projection `Unroll` of a continuous position onto a
  cell index, and the `Elevation` class. That class's const `data` array is
  updated in place. `Grad` is the 2x2 finite-difference gradient. `Add` is the
  3x3 stencil, written with the same nested `dx`/`dy` loops as the source and
  specified by the pure function `Spread`.
- `Sources` (sources.dfy): the fractional-rate emitter. `Source.Flow` mutates
  the stock; `Emit` and `Run` specify one tick and T ticks. It also holds the
  placement filter for springs.
- `Droplets` (droplets.dfy): the `Droplet` class, the removal of dry droplets
  (`Evaporation`), and the spawning of new droplets at each source (`Flows`).
- `Erosion` (erosion.dfy): the constants, the pure specification of the
  sediment exchange (`Exchange`), one droplet step (`Step`), and the loop over
  all droplets (`HydraulicErosion`).

The f32 heights, positions and constants are modelled as `real`. The `as
usize` truncation and `floor` become `Floor`. The grid's side is the
`Elevation`'s `size`; the source reads the global `SIZE` constant of
`src/main.rs` in the erosion step, and the grid is built with that same value.

The main results are these:

- Each of the nine writes of `add` lands on a valid index, even at the
  borders.
- `add(pos, v)` raises the terrain's total height by exactly `v`, and changes
  only the cells of its stencil.
- Away from the borders, `add` gives 0.4 v to the centre cell, 0.1 v to each
  orthogonal neighbour and 0.05 v to each diagonal neighbour.
- The emitter's stock stays in [0, 1). Over T ticks from an empty stock it has
  emitted exactly floor(T * flux) drops, counted before the u32 cast; for a
  flux in [0, 1), such as the program's 0.01, every tick's count is 0 or 1,
  so the cast changes nothing.
- A tick processes the droplets strictly in sequence, each stepping over the
  grid the previous ones left.
- One droplet step leaves the terrain's total height plus the droplet's load
  unchanged. So does a whole tick, counting the loads of all droplets.
- New droplets are distinct objects, and evaporation keeps the survivors once
  each and in order, so a pool without duplicates keeps none.
- After a step, the speed is non-negative, and a droplet that held water still
  holds some.

## Model

| member | source | states |
|---|---|---|
| Grid.Axis | src/erosion.rs:66-79 | a coordinate is clamped into the column range: the result is below `size` |
| Grid.Unroll | src/erosion.rs:65-81 | the flat index of any position, however far off the grid, is below `size * size` |
| Grid.UnrollClamp | src/erosion.rs:65-81 | a coordinate below 0 lands in column or row 0; one at or beyond `size` lands in column or row `size - 1`; inside the grid the index is `floor(x) + floor(y) * size`, because the `% size` on the column does nothing there |
| Grid.Window | src/erosion.rs:102-108 | after the shifts on the last column and the last row, the four indices of the 2x2 window are in bounds and the window still contains cell `i` |
| Grid.Gradient | src/erosion.rs:102-115 | the finite-difference gradient of a height snapshot at cell `i`, over the shifted window; what it means is stated by `GradWindow`, `GradPlane`, `GradFlat` and `GradRowFlat` |
| Grid.Elevation.Grad | src/erosion.rs:102-115 | `grad(&self, i)`: the gradient of the grid's current heights at cell `i` |
| Grid.GradWindow | src/erosion.rs:102-114 | the gradient at `i` is the mean of the two horizontal and of the two vertical differences of the 2x2 block whose top-left corner is the shifted window `Window(i, size)`, a block lying wholly on the grid |
| Grid.GradPlane | src/erosion.rs:109-114 | on a grid whose heights form the plane a x + b y + c, the gradient at every cell, borders included, is (a, b) |
| Grid.GradFlat | src/erosion.rs:109-114 | on a constant grid the gradient is the zero vector |
| Grid.GradRowFlat | src/erosion.rs:109-114 | when no row varies along x, the gradient's x component is zero |
| Grid.Elevation.constructor | src/erosion.rs:82-85 | the grid holds the given `size * size` heights in a fresh buffer |
| Grid.Elevation.Add | src/erosion.rs:117-131 | the new heights are the old ones after the nine visits of the stencil in loop order (`Spread`), and the total height rises by exactly `v` |
| Grid.Elevation.Visit | src/erosion.rs:120-128 | one pass of the inner loop extends the nine-visit specification by the write at offset (dx, dy), with weight 0.05, 0.1 or 0.4 by distance |
| Grid.Elevation.Raise | src/erosion.rs:122 | the `+=` on one cell changes that cell alone |
| Grid.Spread | src/erosion.rs:117-131 | the heights after the first n of the nine visits of `add`, visit m adding v times its weight to its clamped target; the result has one height per cell; its meaning is stated by `SpreadConserves`, `SpreadAt` and `SpreadOutside` |
| Grid.Targets | src/erosion.rs:118-122 | all nine cells written by `add` are valid indices, even when the neighbour is off the grid |
| Grid.VisitOffset | src/erosion.rs:118-128 | visit n of the nested loops is the offset (dx, dy) with n = 3 (dx + 1) + (dy + 1), and it adds `v` times that offset's weight |
| Grid.PouredAll | src/erosion.rs:121-128 | the nine weights, four of 0.05, four of 0.1 and one of 0.4, add up to one |
| Grid.SpreadConserves | src/erosion.rs:117-131 | whichever nine cells the visits land on (several at once at a border), the total height rises by exactly `v` |
| Grid.SpreadAt | src/erosion.rs:117-131 | each cell ends up at its old height plus what the visits that targeted it added |
| Grid.GainOutside | src/erosion.rs:117-131 | a cell that no visit targets gains nothing |
| Grid.SpreadOutside | src/erosion.rs:117-131 | every cell outside the nine targets keeps its height |
| Grid.TargetInterior | src/erosion.rs:120-122 | away from the borders, visit n writes the cell at offset (dx, dy) from the centre cell |
| Grid.VisitHits | src/erosion.rs:118-122 | away from the borders, a visit writes the cell at offset (dx, dy) if and only if it is that offset's visit, so the nine targets are distinct |
| Grid.GainInterior | src/erosion.rs:117-131 | away from the borders, the centre gains 0.4 v, each orthogonal neighbour 0.1 v and each diagonal neighbour 0.05 v |
| Sources.SaturateU32 | src/erosion.rs:41 | the `as u32` cast saturates: negative counts become 0, counts above 2^32 - 1 become 2^32 - 1, and the others are kept |
| Sources.Emit | src/erosion.rs:37-42 | one tick splits stock plus flux into whole drops and a remainder in [0, 1), losing nothing |
| Sources.Run | src/erosion.rs:37-42 | T consecutive calls of `flow`, totalling the drops before the u32 cast; after at least one tick the stock lies in [0, 1) |
| Sources.EmitDrops | src/erosion.rs:37-42 | the drops are floor(stock + flux); they are never negative for non-negative inputs, and at most one when stock and flux are both below one |
| Sources.RunConserves | src/erosion.rs:37-42 | over T ticks, drops emitted plus the stock left equal the initial stock plus T times the flux, and the stock stays in [0, 1) |
| Sources.RunFromEmpty | src/erosion.rs:33-42 | a source that starts empty has, counting each tick's drops before the u32 cast, emitted exactly floor(T * flux) drops after T ticks; for a flux in [0, 1), as in the program, each tick's count is 0 or 1 (`EmitDrops`) so the cast changes nothing |
| Sources.Source.constructor | src/erosion.rs:29-35 | a new source keeps its position and flux and starts with an empty stock |
| Sources.Source.Flow | src/erosion.rs:37-42 | the stock advances by one emission, the saturated drop count is returned, and the stock stays in [0, 1) |
| Sources.Springs | src/erosion.rs:138-144 | the candidates kept as springs, in order: no more than there were candidates, each a candidate on a cell above 0.3 (the converse is `SpringsKeep`) |
| Sources.SpringsKeep | src/erosion.rs:138-144 | a position becomes a spring exactly when it is a candidate lying on a cell above 0.3 |
| Sources.SetupSources | src/erosion.rs:134-148 | one fresh source of flux 0.01 and empty stock for each spring, in candidate order, no two of them the same object (as `Flows` requires) |
| Droplets.Droplet.constructor | src/erosion.rs:54-62 | a droplet starts at its position, at rest with no heading, one unit of water and no sediment |
| Droplets.Evaporation | src/erosion.rs:165-171 | the droplets kept are exactly `Survivors`: the ones holding at least `f32::EPSILON` water, each once, in their original order |
| Droplets.Survivors | src/erosion.rs:165-171 | the order-preserving filter of the droplets not despawned; its meaning is stated by `SurvivorsKeep` |
| Droplets.SurvivorsKeep | src/erosion.rs:165-171 | a droplet survives if and only if it was present and holds at least `f32::EPSILON` water; no more survive than there were droplets; a duplicate-free pool leaves duplicate-free survivors |
| Droplets.DistinctAppend | src/erosion.rs:159-161 | two duplicate-free pools with no droplet in common join into a duplicate-free pool |
| Droplets.Releases | src/erosion.rs:157-161 | the positions of the droplets a tick of the sources spawns, source by source: every one is the position of a source that released at least one drop |
| Droplets.Spawn | src/erosion.rs:159-161 | `n` fresh, pairwise distinct newborn droplets at the source's position are appended to the pool |
| Droplets.Release | src/erosion.rs:157-161 | one source flows once and its drops join the pool as fresh, pairwise distinct newborn droplets at its position |
| Droplets.FlowAt | src/erosion.rs:157-161 | source i's turn extends the tick's record: the first i + 1 sources have flowed, and the droplets born so far are pairwise distinct and sit at their sources' positions in source order |
| Droplets.Flows | src/erosion.rs:156-163 | every source advances its stock by exactly one emission, and the pool grows by fresh, pairwise distinct newborn droplets, `counts[k]` of them at source k's position, in source order, after the droplets already there; a duplicate-free pool stays duplicate-free |
| Erosion.Steer | src/erosion.rs:180-181 | the heading before normalisation: the old heading weighted by inertia times speed, minus the gradient weighted by one minus that; `RestingDropletGoesDownhill` states what it achieves |
| Erosion.RestingDropletGoesDownhill | src/erosion.rs:180-181 | a droplet at rest on a slope heads strictly downhill: its new heading has a negative dot product with the gradient |
| Erosion.Exchange | src/erosion.rs:187-199 | the step deposits if and only if the capacity difference is negative, erodes if and only if it is non-negative on a cell at or above zero, and otherwise does nothing; a deposit is a positive tenth of the excess; an erosion is at most the height drop and at most a hundredth of the spare capacity |
| Erosion.CapacityDiff | src/erosion.rs:187-188 | spare carrying capacity: the clamped slope times speed, water and 800, minus the load; `Exchange` branches on its sign |
| Erosion.DepositBounded | src/erosion.rs:189-193 | for a droplet with non-negative speed, water and load, a deposit drops at most a tenth of the load, so the load stays non-negative |
| Erosion.ErosionSign | src/erosion.rs:194-198 | erosion removes material if and only if the droplet moved downhill or along the level |
| Erosion.ClimbingDropletLoadNegative | src/erosion.rs:194-198 | an empty droplet climbing onto a cell at or above zero takes the erosion branch with a negative amount, so its load becomes negative |
| Erosion.Speed | src/erosion.rs:200 | the new speed, the square root of the clamped squared speed plus height drop; stated by `SpeedEnergy` |
| Erosion.SpeedEnergy | src/erosion.rs:200 | the new speed is non-negative and its square is the old squared speed plus the height drop, clamped at zero |
| Erosion.WaterFactor | src/erosion.rs:201 | the evaporation factor 1 - 0.05 (1 - vel) at the new speed |
| Erosion.Evaporated | src/erosion.rs:201 | the water after a step, scaled by the factor; stated by `EvaporatedBounds` |
| Erosion.EvaporatedBounds | src/erosion.rs:201 | evaporation keeps at least 95% of the water, so positive water stays positive; water does not grow at speeds up to one and grows at speeds above one |
| Erosion.Trade | src/erosion.rs:187-199 | the exchange chosen by `Exchange` is applied: the grid receives the settled amount through the stencil and the load gives it up, so grid total plus load is unchanged |
| Erosion.Slow | src/erosion.rs:200-201 | the speed becomes the clamped square root and the water is scaled by the evaporation factor at the new speed |
| Erosion.StepSpec | src/erosion.rs:179-201 | one step as a relation between snapshots: the heading is the normalised steer from the gradient at the old cell; the droplet moves by that heading; the grid and load change by `Exchange` on the height drop from the old to the new cell; the speed and water are then updated at the new speed |
| Erosion.StepConserves | src/erosion.rs:187-199 | any step keeps grid total plus the droplet's load unchanged |
| Erosion.StepBounds | src/erosion.rs:200-201 | after any step the speed is non-negative and positive water stays positive |
| Erosion.Step | src/erosion.rs:179-201 | one droplet step satisfies `StepSpec` from the grid and droplet state before it to those after it |
| Erosion.StepAt | src/erosion.rs:178-202 | droplet i steps by `StepSpec` over the grid as its predecessors left it, and the tick record grows by the grid it leaves while the other droplets stay as they were |
| Erosion.HydraulicErosion | src/erosion.rs:173-204 | a whole tick is a `Tick`: the grids `grids[0]` (the old grid) to `grids[n]` (the new one) are such that droplet k steps by `StepSpec` from its old state to its new state over `grids[k]`, leaving `grids[k + 1]`; grid total plus all loads is conserved, every speed is non-negative and no droplet that held water has run dry |
| Erosion.Tick | src/erosion.rs:177-203 | the droplets step strictly in sequence, each over the grid its predecessor left |
| Erosion.TickConservesUpTo | src/erosion.rs:178-202 | after the first n droplets of a tick have stepped, grid total plus all loads equals its value at the start |
| Erosion.TickConserves | src/erosion.rs:178-202 | over a whole tick, grid total plus all loads is unchanged |
| Erosion.TickBounds | src/erosion.rs:178-202 | after a tick every speed is non-negative and no droplet that held water has run dry |
| Erosion.WalkedNext | src/erosion.rs:178-202 | the step of droplet i extends a tick that has processed the first i droplets to one that has processed i + 1 |

## Left out

- Terrain generation (`Elevation::new`, src/erosion.rs:88-100) samples fractal noise through an external library and calls f32 `sqrt`. The initial heights are an input of `Grid.Elevation.constructor`. The source's fill order (x outer) is not related to `Unroll`'s layout.
- Randomness is not modelled. `rand_pos`, `rain` and the 400 random candidate positions of `setup_elevation` become inputs: `SetupSources` takes the candidates as a sequence, and rain is simply droplets present in the pool.
- The Bevy plumbing is not modelled: `Commands`, `Query`, entity spawn and despawn, plugin registration and system order (src/erosion.rs:206-216), and the `println!` of the river count. A droplet pool is a sequence of `Droplet` objects, and despawning is removal from that sequence.
- The rendering modules and `src/main.rs` are not part of this model. `SIZE` is the grid's `size`.
- f32 rounding is not modelled: all arithmetic is exact over the reals. `normalize` of the zero vector, which is NaN in the source, is left unconstrained. This happens on a droplet's first step on flat ground.
- `sqrt` and `normalize` are parameters. Only the properties stated by `IsSqrt` and `IsNormalize` are assumed of them.
- The `if let Ok(..) = single_mut()` guard of `hydrolic_erosion` is not modelled: the model always has exactly one grid.
- `size == 1` is excluded from the gradient and the erosion step. The source's `i -= 1` underflows there, so `size >= 2` is a real precondition.
- Where the code and its comments or intent seem to differ, the model follows the code. The inertia term weights the old heading by inertia times speed. An empty droplet that climbs onto a cell at or above zero takes the erosion branch with a negative amount, so its load becomes negative (`ClimbingDropletLoadNegative`). Water grows at speeds above one (`EvaporatedBounds`). The comment at src/erosion.rs:185 says a droplet below water level drops all its sediment and water at once; the code instead does nothing when `cdif >= 0` and `h < 0` (the `Idle` outcome of `Exchange`), and deposits only a tenth of the excess when `cdif < 0`.
