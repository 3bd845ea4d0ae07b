# WorldGen: the tile world of TheGreen, modelled and proved in Dafny

`WorldGen` owns the world of a 2D tile game:

- **The buffer.** A flat array of tiles, where cell (x, y) sits at index `y * WorldSize.X + x`. Each cell holds a foreground tile id, a wall id, a tile state byte, a wall state byte and a liquid amount.
- **Generation.** It builds the world from noise: stone, dirt, the spawn point, caves, tile and wall states, grass and trees.
- **Placement during play.** Tiles and walls are placed and removed. Placing a tile re-examines its 3x3 neighbourhood, which can cascade into further removals and feeds the liquid and overlay-tile updaters.
- **Mining.** It tracks tiles being mined: damage records that decay over time.
- **Inventories.** It keeps item inventories attached to cells.

The model has six modules:

- `Tiles` (tiles.dfy):
  - the `Tile` record;
  - the flat index and its arithmetic;
  - the buffer seen as a value, `Grid`, with `FromFlat` relating the two;
  - the wall autotile bitmask `WallMask` that `UpdateWallState` writes.
- `TileDatabase` (tile_database.dfy): the tile-type rules the world consults (`VerifyTile`, `GetUpdatedTileState`, `CanTileBeDamaged`, `Health`, the `LargeTile` and `Overlay` properties, `BaseTileID`, `LargeTileData`). These rules live outside the world, so they are uninterpreted: a database is any record of total functions, and every result holds for all of them.
- `Placement` (placement.dfy): `SetTile`, its neighbour pass, `RemoveTile` and the large-tile footprint writes, as functions on a `Board`. A `Board` is the buffer plus what has been handed to the liquid and overlay updaters.
- `Mining` (mining.dfy): `DamageTile` and the decay sweep of `Update`, as functions on the record map.
- `Generation` (generation.dfy): the integer side of `GenerateWorld` and `GenerateTree`:
  - the terrain line of each column, and the surface height as its minimum;
  - each pass as a map over the cells;
  - the columns where the tree loop plants;
  - the exact cells a tree writes.
- `WorldGen` (world.dfy): the `World` class. Its `tiles` field is an `array<Tile>` that the methods update in place, as the source does. Each method is proved to leave exactly the state described by the functions of the three modules above. The generation passes are the source's nested loops, with invariants.

Two behaviours of the source shape the model:

- **The dirt pass.** It places no dirt wall. It calls `SetInitialWall(i, surfaceTerrain[i], 0)`, which clears the wall on the terrain line itself (WorldGen.cs:101-104). `Generation.DirtCell` does the same.
- **Bounds checks.** Only `DamageTile` checks bounds. The other mutators and getters index the buffer directly, so the model states the margin each needs as a precondition (see "Left out").

## Model

| member | source | states |
|---|---|---|
| WorldGen.World.IsTileInBounds | TheGreen/Game/WorldGeneration/WorldGen.cs:276-279 | A cell is in bounds exactly when its column lies inside a row and its flat index is a slot of the buffer, so every in-bounds cell has a slot of its own |
| WorldGen.World.GetTileID | TheGreen/Game/WorldGeneration/WorldGen.cs:426-429 | Reads slot `y * sizeX + x`; for an in-bounds cell this is the cell's own tile id |
| WorldGen.World.GetWallID | TheGreen/Game/WorldGeneration/WorldGen.cs:430-433 | For an in-bounds cell, the cell's wall id |
| WorldGen.World.GetTileState | TheGreen/Game/WorldGeneration/WorldGen.cs:575-578 | For an in-bounds cell, the cell's tile state |
| WorldGen.World.GetWallState | TheGreen/Game/WorldGeneration/WorldGen.cs:579-582 | For an in-bounds cell, the cell's wall state |
| WorldGen.World.GetLiquid | TheGreen/Game/WorldGeneration/WorldGen.cs:583-586 | For an in-bounds cell, the cell's liquid amount |
| Tiles.FlatCell | TheGreen/Game/WorldGeneration/WorldGen.cs:426-429 | Any slot the unchecked index reaches is the cell its index gives back by `%` and `/`: a column off one side of a row reads the neighbouring row |
| WorldGen.World.SetInitialTile | TheGreen/Game/WorldGeneration/WorldGen.cs:536-539 | Only the tile id of slot `y * sizeX + x` changes; for an in-bounds cell the grid changes in that cell's id only |
| WorldGen.World.SetInitialWall | TheGreen/Game/WorldGeneration/WorldGen.cs:541-544 | Only the wall id of that slot changes |
| WorldGen.World.RemoveInitialTile | TheGreen/Game/WorldGeneration/WorldGen.cs:546-549 | Only the tile id of that slot changes, and it becomes 0 |
| WorldGen.World.SetTileState | TheGreen/Game/WorldGeneration/WorldGen.cs:551-554 | Only the tile state of that slot changes |
| WorldGen.World.SetLiquid | TheGreen/Game/WorldGeneration/WorldGen.cs:587-592 | Only the slot's liquid changes; a liquid update is queued for the cell exactly when the amount is positive |
| WorldGen.World.UpdateWallState | TheGreen/Game/WorldGeneration/WorldGen.cs:560-574 | Only the cell's wall state changes, and it becomes the wall mask of the cell and its four edge neighbours |
| Tiles.WallMaskDecodes | TheGreen/Game/WorldGeneration/WorldGen.cs:560-574 | For a cell with a wall, the mask's bits 1, 3, 5 and 7 say exactly which of top, right, bottom and left carry a wall. The mask is 0 exactly when the cell has no wall or none of the four has one. It is even and at most 170 |
| Tiles.WallMaskSurrounded | TheGreen/Game/WorldGeneration/WorldGen.cs:560-574 | A wall with walls on all four sides gets 2 + 8 + 32 + 128 = 170 |
| Tiles.WallMaskLocal | TheGreen/Game/WorldGeneration/WorldGen.cs:567-573 | The mask depends only on the cell's wall and its four edge neighbours' walls, not on the diagonals, tile ids, states or liquid |
| WorldGen.World.SetWall | TheGreen/Game/WorldGeneration/WorldGen.cs:524-534 | The wall is written. Then each of the nine cells of the 3x3 block, in the source's order, gets the mask of the new walls. Afterwards every cell of the block has the mask of the final grid |
| WorldGen.World.SetLargeTile | TheGreen/Game/WorldGeneration/WorldGen.cs:496-509 | The buffer becomes `PlaceLarge`: nothing changes unless the id's data is large-tile data. Otherwise the footprint anchored by the data's top-left rule is painted |
| Placement.PaintKeepsBackground | TheGreen/Game/WorldGeneration/WorldGen.cs:501-508 | A footprint write keeps every wall, wall state and liquid amount |
| WorldGen.World.RemoveLargeTile | TheGreen/Game/WorldGeneration/WorldGen.cs:510-523 | The buffer becomes `RemoveLarge`: the footprint is cleared to id 0 and state 0, or nothing changes when the id has no large-tile data |
| WorldGen.World.SetTile | TheGreen/Game/WorldGeneration/WorldGen.cs:434-477 | The result flag, the buffer and both queues are exactly those of `Placement.SetTileF` |
| Placement.SetTileF | TheGreen/Game/WorldGeneration/WorldGen.cs:434-477 | The tile is placed exactly when the id is 0 or its rule answers 1. On refusal nothing changes. The world keeps its size |
| Placement.LargeSetTile | TheGreen/Game/WorldGeneration/WorldGen.cs:438-444 | An accepted large tile paints its footprint and every other cell is unchanged. No neighbour pass runs and no queue is fed. Without large-tile data nothing changes |
| Placement.PassStep | TheGreen/Game/WorldGeneration/WorldGen.cs:447-450 | Step `(i + 1) * 3 + (j + 1)` of the neighbour pass refreshes cell (x + i, y + j), so the pass runs column by column, top to bottom |
| WorldGen.World.RefreshCell | TheGreen/Game/WorldGeneration/WorldGen.cs:451-462 | One step of the neighbour pass leaves exactly the board that `Placement.Refresh` describes |
| Placement.RefreshInPlace | TheGreen/Game/WorldGeneration/WorldGen.cs:451-473 | When the rule keeps the tile, only its own cell changes. It gets the rule's state, and an overlay tile whose state is 255 reverts to its base tile. The queues gain exactly the cell's liquid update and overlay entry, if any |
| WorldGen.World.RewriteCell | TheGreen/Game/WorldGeneration/WorldGen.cs:464-473 | The state write and overlay handling leave exactly the board `Placement.Rewrite` describes |
| Placement.PassQueuesLiquid | TheGreen/Game/WorldGeneration/WorldGen.cs:447-455 | After k steps of the pass, every visited cell that held liquid has been queued for a liquid update |
| Placement.SetTileQueuesLiquid | TheGreen/Game/WorldGeneration/WorldGen.cs:447-455 | An accepted tile that is not large queues a liquid update for every liquid-holding cell of its 3x3 block |
| Placement.PassKeepsIds | TheGreen/Game/WorldGeneration/WorldGen.cs:447-474 | When no rule asks for a removal, the neighbour pass changes no id except by an overlay reverting: a cell whose tile is not an overlay keeps its id through every step |
| Placement.SetTilePlaces | TheGreen/Game/WorldGeneration/WorldGen.cs:434-477 | SetTile followed by GetTileID gives the id set, for an accepted id that is neither large nor an overlay, when no rule asks for a removal. Without those conditions it can fail: an overlay whose new state is 255 reverts to its base tile (lines 469-470), and the cascade can remove the new tile (lines 458-461) |
| Placement.SetTileKeeps | TheGreen/Game/WorldGeneration/WorldGen.cs:434-477 | SetTile, its whole removal cascade included, changes only tile ids and states; walls, wall states and liquid stay, and both queues only grow |
| WorldGen.World.RemoveTile | TheGreen/Game/WorldGeneration/WorldGen.cs:478-488 | The buffer and queues become those of `Placement.RemoveF`: a large tile clears its footprint, any other tile goes through `SetTile(x, y, 0)` |
| Placement.RemoveLeavesAir | TheGreen/Game/WorldGeneration/WorldGen.cs:478-488 | Removing a tile that is not large leaves the cell empty, whatever the cascade does, when air itself is neither an overlay nor a large tile |
| Placement.LargeRemoveTile | TheGreen/Game/WorldGeneration/WorldGen.cs:480-484 | Removing a large tile clears id and state over its footprint only, and feeds no queue |
| Placement.RemoveKeeps | TheGreen/Game/WorldGeneration/WorldGen.cs:478-488 | Removal changes only tile ids and states, and the queues only grow |
| WorldGen.World.DamageTile | TheGreen/Game/WorldGeneration/WorldGen.cs:252-275 | The buffer, queues and mining records become exactly those of `Mining.DamageF` |
| Mining.DamageF | TheGreen/Game/WorldGeneration/WorldGen.cs:252-275 | Only a hit that destroys its tile needs the cell to lie away from the border. Out of bounds, on air, or on a tile its rule protects, nothing changes. Otherwise the cell keeps a record exactly when its health minus the damage stays positive. The board changes only when the tile is destroyed, which drops its record. Other records are untouched |
| Mining.DamageLowersHealth | TheGreen/Game/WorldGeneration/WorldGen.cs:262-272 | A record left after a hit holds the earlier health (or the tile's base health) minus the damage, is positive, never exceeds the earlier health, and has its idle time reset to 0 |
| Mining.DamageDestroys | TheGreen/Game/WorldGeneration/WorldGen.cs:265-269 | Damage at least the remaining health removes the tile in the same call, leaves the cell empty and drops the record |
| Mining.DamageKeepsHealthy | TheGreen/Game/WorldGeneration/WorldGen.cs:262-273 | Every stored record stays in bounds and keeps positive health across a hit |
| WorldGen.World.Update | TheGreen/Game/WorldGeneration/WorldGen.cs:233-243 | The sweep leaves exactly `Mining.Decay` of the records it started with. Every record ages by delta. Records idle for more than 5 or whose tile is gone are dropped |
| Mining.DecayKeepsHealthy | TheGreen/Game/WorldGeneration/WorldGen.cs:233-243 | A sweep keeps every record in bounds and with positive health |
| Mining.SweepsAge | TheGreen/Game/WorldGeneration/WorldGen.cs:233-243 | Over a run of sweeps with no hit, each on the grid of its own tick (so the world may change between ticks), a surviving record keeps its health and has aged by their total length, which stays within the limit |
| Mining.IdleRecordExpires | TheGreen/Game/WorldGeneration/WorldGen.cs:236-239 | Whatever the grids of the ticks, a record whose idle time plus the swept time exceeds 5 is gone |
| Mining.StaleRecordDecides | TheGreen/Game/WorldGeneration/WorldGen.cs:262-268 | A stored record, not the tile now in the cell, decides a hit: with less health left in the record than the damage, the tile is removed and the record dropped, even when the damage is below the tile's own health (see "Findings") |
| WorldGen.World.GenerateWorld | TheGreen/Game/WorldGeneration/WorldGen.cs:74-159 | Resizes to the given size with a fresh buffer and no inventories. The buffer becomes `Generated` (stone, dirt, caves, states, grass, trees). Sets the spawn point to the terrain line of the middle column and the surface height to the minimum over the columns. Records and queues are untouched, as the source never clears `_minedTiles` (see "Findings") |
| WorldGen.World.GenerateFreshWorld | TheGreen/Game/WorldGeneration/WorldGen.cs:74-159 | GenerateWorld that also empties the mining records, so the first hit on every cell of the new world starts from the health of the tile there |
| Generation.EmptyGrid | TheGreen/Game/WorldGeneration/WorldGen.cs:76-77 | The new buffer has the requested size and every field of every cell is 0 |
| WorldGen.World.PlaceStone | TheGreen/Game/WorldGeneration/WorldGen.cs:84-95 | Stone and stone wall from each column's stone top down. Returns the terrain lines and sets the surface height |
| Generation.SurfaceHeightIsMinimum | TheGreen/Game/WorldGeneration/WorldGen.cs:82-95 | The surface height is at most size_y and at most size_y minus every terrain line. It is size_y itself or attained by some column |
| WorldGen.World.PlaceDirt | TheGreen/Game/WorldGeneration/WorldGen.cs:97-107 | Each cell becomes `DirtCell`: dirt in the 20 rows from the terrain line down, and the wall cleared on the terrain line |
| WorldGen.World.CarveCaves | TheGreen/Game/WorldGeneration/WorldGen.cs:112-123 | Requires a surface height above 20, without which the cave noise has a negative row count. Each cell of the cave window whose mask is set becomes air. Noise row y maps to world row `size_y - surfaceHeight + 20 + y`, and the window has `surfaceHeight - 21` rows |
| Generation.CavesSpareDirt | TheGreen/Game/WorldGeneration/WorldGen.cs:110-123 | For terrain with at least 21 rows under every terrain line, the cave window has 0 or more rows, starts below every column's 20 rows of dirt and ends on the row above the bottom one. So every dirt cell, every cell above the dirt, and the bottom row are as the dirt pass left them |
| WorldGen.World.ComputeStates | TheGreen/Game/WorldGeneration/WorldGen.cs:128-135 | The buffer becomes `StatesPass`: every interior cell in column-major order gets its rule's state and then its wall mask |
| Generation.StatesPassAt | TheGreen/Game/WorldGeneration/WorldGen.cs:128-135 | The state pass changes only states and wall states. Border cells are untouched. Every interior cell's wall state is the mask of the walls it started from |
| WorldGen.World.SpreadGrass | TheGreen/Game/WorldGeneration/WorldGen.cs:138-147 | Within 8 rows of the terrain line, dirt whose state is not 255 becomes grass; nothing else changes |
| Generation.CavesCell | TheGreen/Game/WorldGeneration/WorldGen.cs:84-123 | After stone, dirt and caves, a cell's wall is stone wall exactly from the stone top down, off the terrain line, and no wall state or liquid has been set |
| Generation.GeneratedWalls | TheGreen/Game/WorldGeneration/WorldGen.cs:74-159 | In the generated world: every wall is the generated wall and there is no liquid. Border cells have wall state 0. Every interior wall state is already the wall mask of the final grid |
| WorldGen.World.PlantTrees | TheGreen/Game/WorldGeneration/WorldGen.cs:149-159 | The buffer becomes `Forest`: a tree at each column the loop picks, in order, with its base one row above the terrain line |
| Generation.PlantingsSpaced | TheGreen/Game/WorldGeneration/WorldGen.cs:149-159 | Trees are planted only in columns 16 .. size_x - 11 where the coin came up, in increasing order, each more than 5 columns after the previous one |
| Generation.ForestTrees | TheGreen/Game/WorldGeneration/WorldGen.cs:152-158 | With planted columns more than 2 apart, the cells of each tree's three columns are exactly as that one tree, planted on the original buffer, leaves them |
| Generation.ForestFrame | TheGreen/Game/WorldGeneration/WorldGen.cs:152-158 | Columns more than one away from every planted column are untouched |
| Generation.ForestKeepsWalls | TheGreen/Game/WorldGeneration/WorldGen.cs:152-158 | Planting keeps every wall, wall state and liquid amount |
| WorldGen.World.GenerateTree | TheGreen/Game/WorldGeneration/WorldGen.cs:182-209 | The buffer becomes `PlantTree` |
| Generation.TreeWritten | TheGreen/Game/WorldGeneration/WorldGen.cs:182-209 | The source's writes, in order (base, side pieces, trunk rows, top), produce exactly `PlantTree` |
| Generation.TreeShape | TheGreen/Game/WorldGeneration/WorldGen.cs:182-209 | Tree heights lie in 5 .. 19. After planting, the base is wood (id 5) with state 128. Each trunk row strictly between the base and y - height is wood with a state from {0, 2, 8, 10}, and keeps its wall and liquid. The top at y - height is id 6 with state 0. A side piece (state 62 on the left, 130 on the right) appears beside the base exactly when that cell was empty; otherwise that cell is unchanged. Every other cell is unchanged |
| WorldGen.World.GetTileInventory | TheGreen/Game/WorldGeneration/WorldGen.cs:601-606 | The stored items when the cell has an inventory, otherwise none |
| WorldGen.World.AddTileInventory | TheGreen/Game/WorldGeneration/WorldGen.cs:593-596 | The cell's inventory becomes the given items, replacing any before; other cells keep theirs |
| WorldGen.World.RemoveTileInventory | TheGreen/Game/WorldGeneration/WorldGen.cs:597-600 | The cell has no inventory afterwards, also when it had none; other cells keep theirs |
| WorldGen.World.InitializeGameUpdates | TheGreen/Game/WorldGeneration/WorldGen.cs:220-226 | Fresh liquid and overlay updaters, with nothing queued |

## Left out

- Noise generation (`Generate1DNoise`, the gradient table, Perlin octaves; WorldGen.cs:289-425) is floating-point arithmetic over a shared random stream. The surface noise is an input, one integer per column. The cave noise is an input predicate over (column, noise row), standing for `perlinNoise[y, x] < -0.1`.
- `System.Random` in the tree loop and in `GenerateTree` is replaced by an input `TreeDraw` per column: the coin, a height in [5, 20) and one palette index in [0, 4) per trunk row.
- The map snapshot and the JPEG file write at the end of `GenerateWorld` (lines 161-178) are graphics and file I/O.
- `LoadWorld` is an unfinished stub that only empties the buffer. The `World` singleton accessor is left out, as is `GetMinedTiles`, which hands out the record dictionary itself.
- The liquid updater and the overlay-tile updater are other classes. The model records only what the world hands them, as the queues `liquidQueue` and `overlayQueue`. Their own `Update` calls, at the start of `Update`, are not modelled.
- The item drop in `RemoveTile` (lines 489-493) calls into the item database and the entity manager, so it is left out.
- The tile database's rules are other code, so they are kept uninterpreted. Properties that need something of them say so in their preconditions; for example, `RemoveLeavesAir` needs air to be neither an overlay nor a large tile.
- Item arrays are an abstract type. A missing inventory (`null` in the source) is `None`.
- WorldGen.World.AddTileInventory: takes a sequence of items, so it cannot store `null` under a cell. The source can: then `ContainsKey` holds for the cell and `GetTileInventory` returns `null`, which the model's `None` stands for only when the cell has no entry.
- Time is `real`, not a 64-bit float.
- WorldGen.World.SetTile: recursion is bounded by `fuel`. `SetTile` and `RemoveTile` recurse through the neighbour pass with no bound in the source; the model gives them a budget. When a neighbour must be removed with the budget spent, it is left in place, and the `continue` still skips its state update. Cascades deeper than the budget are not modelled.
- WorldGen.World.RemoveTile: has the same `fuel` bound as `SetTile`.
- WorldGen.World.DamageTile: has the same `fuel` bound as `SetTile`.
- WorldGen.World.SetTile: requires the cell to lie `fuel + 1` cells inside the border. The source indexes the 3x3 block without a bounds check; there, a cell off the edge reads a slot of a neighbouring row, or faults.
- WorldGen.World.RemoveTile: has the same margin requirement as `SetTile`.
- WorldGen.World.DamageTile: has the same margin requirement as `SetTile`, but only for a hit that destroys the tile, since only that hit calls `RemoveTile`. `Mining.DamageF` and its lemmas require the same.
- WorldGen.World.UpdateWallState: requires a margin of 1, because the source reads the neighbours' walls unchecked.
- WorldGen.World.SetWall: requires a margin of 2, because it calls `UpdateWallState` on each cell of the 3x3 block, which reads one cell further out.
- WorldGen.World.SetLargeTile: requires `AnchorFits`: the footprint it writes lies inside the buffer. The source writes footprints without a check.
- WorldGen.World.RemoveLargeTile: has the same `AnchorFits` requirement as `SetLargeTile`.
- WorldGen.World.SetTile: requires `LargeFitsNear`: every large tile anchored within `fuel` cells of the target has a footprint that fits, whatever the grid. The cascade can reach a large-tile write at any of those cells, on grids that are not known in advance.
- WorldGen.World.RemoveTile: has the same `LargeFitsNear` requirement as `SetTile`.
- WorldGen.World.RefreshCell: has the same `LargeFitsNear` requirement, around the refreshed cell with the budget that is left.
- WorldGen.World.DamageTile: has the same `LargeFitsNear` requirement, for a hit that destroys the tile only.
- WorldGen.World.GenerateWorld: requires `Generable`:
  - at least one column;
  - stone starting at or below the top row;
  - 20 rows of dirt and at least one more row inside the world under each terrain line;
  - room for every planted tree.

  The source does not check these. Out of range it faults or writes into another row. With 20 rows or fewer under the highest terrain line, `new double[height, width]` (line 393) gets a negative height and throws.
- WorldGen.World.GenerateWorld: requires every existing mining record to lie inside the new size. The source keeps `_minedTiles` across regeneration, so a record outside a smaller world makes the next `Update` read another row or fault (line 237).
- WorldGen.World.Update: models the sweep over a snapshot of the keys. In current .NET, removing or overwriting an entry during enumeration of the keys is allowed.
- Mining.DamageF: uses unbounded integers. In the source `Health - damage` (line 263) is 32-bit `int` arithmetic, which wraps when the difference leaves the `int` range, for example for a damage near `int.MinValue`.
- The world updaters, the liquid updater and the overlay updater are `null` until `InitializeGameUpdates` (lines 54-56, 220-226). The model's world starts with empty queues instead. Before that call, the source throws in these cases:
  - `SetLiquid` with a positive amount (line 590);
  - SetTile's neighbour pass, when a cell of the block holds liquid (line 453) or an overlay tile is queued (line 472);
  - `Update`, always (line 229).
- `_tileInventories` is `null` until the first `GenerateWorld` (lines 57, 78), so the inventory methods (lines 593-606) throw before it. The model's world starts with no inventories instead.

## Findings

| source | as written | input that shows it | evidently intended | confidence | as-written member | corrected member |
|---|---|---|---|---|---|---|
| TheGreen/Game/WorldGeneration/WorldGen.cs:74-78 | `GenerateWorld` replaces the buffer and the inventories but keeps `_minedTiles`, so a record from the previous world decides the first hit on the new tile in its cell | Mine a tile at p down to health 1; call `GenerateWorld`, which places at p a tile whose `Health` is above 1; `DamageTile(p, 1)` removes that tile at once | Regeneration empties the mining records with the buffer, so the first hit starts from the new tile's health | not executed; medium | Mining.StaleRecordDecides | WorldGen.World.GenerateFreshWorld |
