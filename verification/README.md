# TheGame board engine, modelled in Dafny

A model of the board and round logic of `TheGame` in `game.js`, a Phaser
"collapse" puzzle. It covers the 8 x 8 grid `tilesArray` of cells
`{isEmpty, value, coordinate}` and the picking of a 4-connected region of
equal tiles (`floodFill`, `pointInArray`, `pickTile`, `destroyTiles`). It
covers gravity and refill (`fillVerticalHoles`, `moveDownTile`,
`countSpacesBelow`, `tilesInColumn`, `endMove`). It also covers the marker
placement of `replayGame` (`isAdjacent`, `findItem`) and the small state
machine formed by the countdown tick, the level screen and the settle events.

The model follows the source's own shape:

- The class `Game.TheGame` keeps `tilesArray` as an `array2<Cell>`, indexed
  `[row, col]` as in the source.
- The fields the source mutates (`filled`, `canPick`, `finishAnimation`,
  `gameTime`, `levelCount`, `score`, `heroLocation`, `specialItemCandidates`)
  are class fields.
- The loops of the source are `while` loops with invariants, and `floodFill`
  is a recursive method.
- Each method is proved against specification functions over a ghost,
  column-by-column view `Grid()`, where `Grid()[x][y]` is `tiles[y, x]`. The
  properties of those functions are proved as lemmas:
  - `Columns` holds one column: holes, tiles, the order of tile values,
    "settled", and one gravity move.
  - `Gravity` holds the states of the two scans of `fillVerticalHoles`.
  - `Regions` holds what a flood fill collects, and why that is the whole
    connected region.

Randomness is an input:

- `draws: seq<int>` supplies the tile values of `addTile` and of the refill
  (`game.rnd.integerInRange`).
- `picks: seq<nat>` supplies the choices of
  `Phaser.ArrayUtils.removeRandomItem`. The item taken is at
  `picks[k] % |list|`.

Timers and tweens are events the caller triggers:

- `StartLevel` is the start button.
- `EnableInput` is its 500 ms timeout.
- `Tick` is one firing of the countdown interval.
- `MovesSettled` is the completion of the last falling tile's tween.
- `SettleDelayElapsed` is the 200 ms timeout after it.

The model reproduces these quirks of the source as written:

- The Hero cell keeps its ordinary value. The line that would make it special
  is commented out (game.js:130). Only `heroLocation` is used, for adjacency.
- The difficulty gate of `replayGame` reads `levelCount` after incrementing it
  (game.js:247, game.js:258).
- The `destroyTiles` branch of `endMove` is dead, because `filled` is
  cleared just before it is tested (game.js:559-560). The model keeps the
  branch with `assert false`.
- A countdown tick at 0 while `finishAnimation` is false does nothing and is
  not remembered (game.js:237). Replaying then depends on the 200 ms settle
  timeout, which checks the countdown again (game.js:528).
- Starting from 10, ten ticks only bring the countdown to 0 (game.js:232-233).
  It is the eleventh tick that replays the level.
- When `removeRandomItem` runs out of candidates it returns `null`, and
  `isAdjacent(heroLocation, null)` throws. `replayGame` then stops half way,
  keeping the changes made so far. The model returns
  `Placement.OutOfCandidates`, recording whether the Key had already been
  placed. `ReplayGame` proves this cannot happen while more than nine
  candidates remain, because at most eight positions touch the Hero.

## Model

| member | source | states |
|---|---|---|
| Cells.IsAdjacent | game.js:582-584 | two points are adjacent exactly when their Chebyshev (king-move) distance is at most 1 |
| Cells.AdjacentReflexive | game.js:582-584 | every point is adjacent to itself, so a marker that is not adjacent to the Hero is not on the Hero |
| Cells.AdjacentSymmetric | game.js:582-584 | adjacency does not depend on argument order |
| Cells.Ring | game.js:582-584 | the set of points adjacent to h other than h itself, characterised by membership |
| Cells.FewNear | game.js:258-273 | a repetition-free list of points adjacent to h that does not contain h has at most eight elements; this bounds the candidates a re-roll loop can throw away |
| Cells.RemoveAt | game.js:124 | removing the chosen index from a list (the splice of removeRandomItem) shortens it by one, keeps every other element, keeps the list repetition-free and drops the chosen element |
| Columns.Holes | game.js:474-482 | the number of empty cells of a column is at most its length |
| Columns.HolesAndTiles | game.js:547-555 | a column's holes plus its tiles are its length, and its tiles are as many as the values it lists |
| Columns.SettledShape | game.js:420-424 | in a settled column, a cell is empty exactly when its row is above the number of holes |
| Columns.MoveDown | game.js:489-505 | moving a tile down: rows above the source and below the target are unchanged, the source becomes empty, and the target is occupied with the source's value |
| Columns.GravityStep | game.js:401-413 | when rows below i are settled and the tile at row i has h > 0 holes below it, the target row i + h and every row between are empty; after the move the column is settled from row i on, with the same values in the same order |
| Columns.HolesBelow | game.js:474-482 | below row i, a settled stretch is first the holes countSpacesBelow counts, then tiles |
| Columns.MoveDownSettles | game.js:489-505 | the move over the holes leaves the column settled from row i on |
| Columns.MoveDownKeepsValues | game.js:489-505 | the move keeps the column's tile values in the same top-to-bottom order |
| Columns.SettledExtend | game.js:401-414 | a hole, or a tile with no hole below it, leaves the column settled one row further up without a move |
| Columns.HoleBelowUnsettles | game.js:407-410 | a tile with a hole below it means the column was not settled, which is when filled becomes true |
| Columns.SameValuesSameHoles | game.js:420-427 | two columns of one length with the same tile values have the same number of holes and of tiles |
| Columns.SettledNoHoleBelow | game.js:404-407 | in a settled column countSpacesBelow is 0 under every tile |
| Columns.SettledTilesAtBottom | game.js:427-430 | in a settled column every cell below the holes is occupied, and those cells list all of the column's values |
| Regions.Neighbours | game.js:592-596 | floodFill recurses on exactly four points, each at Manhattan distance 1 |
| Regions.FillAdvance | game.js:593-596 | each neighbour call of floodFill keeps what was collected, collects that neighbour if it matches, and leaves every newly collected point closed and a 4-neighbour of an earlier point collected since p |
| Regions.FillDone | game.js:591-597 | after its four neighbour calls, floodFill(p, n) has appended p first, then only closed points each discovered as a 4-neighbour of an earlier new point |
| Regions.ClosedHoldsPath | game.js:587-598 | a collection closed under matching 4-neighbours that holds the start of a matching walk holds its end |
| Regions.RegionIsMaximal | game.js:587-598 | the region picked from a seed contains every cell joined to the seed by a walk of matching 4-neighbours |
| Regions.PathInRegion | game.js:587-598 | every cell of a region is the end of a walk of matching 4-neighbours from the seed: a flood fill collects nothing it cannot reach |
| Regions.RegionIsComponent | game.js:587-598 | a cell is in the region of a seed exactly when it is joined to the seed by a walk of matching 4-neighbours |
| Regions.RegionsAgree | game.js:587-598 | two regions of one seed on one board have exactly the same members |
| Regions.RegionUnique | game.js:341 | two regions of one seed on one board hold the same cells and have the same length, so the more-than-two test of pickTile is decided by the board alone |
| Regions.RegionAvoidsMarkers | game.js:264-273 | a region seeded on an ordinary tile holds only ordinary tiles, never the marker values 12 and 13 |
| Gravity.DropStart | game.js:397 | the gravity scan starts settled: the bottom row alone never has a hole under a tile |
| Gravity.DropFall | game.js:401-413 | a falling tile lands on an empty row, and the scan state moves to the next column with filled set |
| Gravity.DropStay | game.js:401-407 | a cell that does not fall moves the scan state to the next column unchanged |
| Gravity.DropEnd | game.js:397-417 | after the scan every column is settled with its values in order, its empty cells are exactly its top Holes rows, and a tile fell exactly when some column was not settled |
| Gravity.RefillStep | game.js:433-462 | refilling one row of column i with an ordinary value moves the refill state one row up |
| Gravity.SettleThenRefill | game.js:392-471 | gravity, then refilling the top holes, leaves a column full, with its old tiles at the bottom in their old order under ordinary new tiles |
| Game.TheGame.CreateMatrix | game.js:111-121 | the new board has every cell occupied at its own coordinate with its value drawn in row-major order, and the candidate list holds each board position exactly once |
| Game.TheGame.constructor | game.js:72-193 | the initial state is valid; the Hero is on the board and not a candidate, every other position is a candidate; score 0, level 1, countdown 10, input blocked, timer stopped |
| Game.TheGame.CountSpacesBelow | game.js:474-482 | the result is the number of empty cells below row `row` in column `col`, and lies between 0 and N - 1 - row |
| Game.TheGame.TilesInColumn | game.js:547-555 | the result is the number of occupied cells of the column; with countSpacesBelow(-1, col) it adds up to N |
| Game.TheGame.PointInArray | game.js:601-608 | the result is true exactly when p is in filled |
| Game.TheGame.FindItem | game.js:571-579 | the first cell in row-major order whose value is 10 + item, or none exactly when no cell has that value |
| Game.TheGame.FloodFill | game.js:587-598 | filled only grows; it stays sound (every entry in bounds, occupied and of value n) and repetition-free; p is collected exactly when it matches, first among the new entries if it was new; a call on a non-matching or already collected p appends nothing; every new entry is closed and is a 4-neighbour of an earlier new entry, so all of them are connected to p |
| Game.TheGame.Spread | game.js:591-597 | after pushing p and recursing on its four neighbours, p comes first among the new entries, every matching neighbour of p is collected, every new entry is closed and every entry after p is a 4-neighbour of an earlier new entry, hence connected to p |
| Game.TheGame.Visit | game.js:593-596 | one recursive call on the m-th neighbour of p keeps all of Spread's progress and collects that neighbour when it matches |
| Game.TheGame.PickTile | game.js:329-349 | a pick acts only with canPick set and row and column on the board; the collected list is the region of the picked tile; more than two cells are removed (exactly the region's cells become empty, input blocked, filled drained), otherwise the board and canPick stay as they were; with RegionIsComponent and RegionUnique the removed cells are exactly the connected component of the picked tile |
| Game.TheGame.DestroyTiles | game.js:354-389 | exactly the positions in filled become empty, filled is drained, and finishAnimation is cleared |
| Game.TheGame.EndMove | game.js:558-568 | filled is empty and input is enabled, always |
| Game.TheGame.MoveDownTile | game.js:489-505 | the board afterwards is the old board with one column replaced by the move of the tile from fromRow to toRow |
| Game.TheGame.DropCell | game.js:401-414 | a tile falls exactly when it is occupied and has holes below it; the target row was empty; otherwise nothing changes; the scan state moves to the next column |
| Game.TheGame.DropRow | game.js:398-416 | one row of the gravity scan moves the scan state up a row |
| Game.TheGame.DropTiles | game.js:395-417 | every column ends settled with its tile values in the same order, its empty cells exactly its top Holes rows; the result says whether some column had a hole under a tile |
| Game.TheGame.SetTile | game.js:457-462 | writing a cell changes exactly that cell of the board |
| Game.TheGame.RefillColumns | game.js:427-470 | in each column the rows above the old holes count become occupied with ordinary values and all other cells are unchanged |
| Game.TheGame.FillVerticalHoles | game.js:392-471 | every column ends full, with its surviving tiles at the bottom in their old order and ordinary values above them; endMove ran exactly when no column needed gravity |
| Game.TheGame.DrawAwayFromHero | game.js:260-262 | the candidate taken is not adjacent to the Hero; every other candidate thrown away is adjacent to it; none is returned only when the list ran out, which cannot happen with more than eight candidates |
| Game.TheGame.ReplayGame | game.js:244-276 | the level goes up by one, the countdown is reset and stopped, input is blocked, score, Hero and filled are kept, and the markers are placed as PlaceMarkers states |
| Game.TheGame.PlaceMarkers | game.js:256-275 | markers are placed exactly when score > 10 * the (new) level and level <= 10; Key and LockedDoor are distinct candidates, not adjacent to the Hero and not on it, removed from the candidates, and exactly their two cells get the values 12 and 13; the only other candidates dropped touch the Hero; running out of candidates needs at most nine of them |
| Game.TheGame.StartLevel | game.js:204-215 | the countdown runs |
| Game.TheGame.EnableInput | game.js:212-214 | input is enabled |
| Game.TheGame.Tick | game.js:231-240 | a positive countdown goes down by one and nothing else changes; at 0 the tick is dropped when the board is still settling, and otherwise the level is replayed with everything ReplayGame states about counters, markers, cells and candidates |
| Game.TheGame.MovesSettled | game.js:516-523 | the score goes up by ten and endMove re-enables input |
| Game.TheGame.SettleDelayElapsed | game.js:524-529 | the animation counts as finished, and the level is replayed exactly when the countdown is at 0, with everything ReplayGame states about counters, markers, cells and candidates; otherwise nothing else changes |

## Left out

- Rendering is not modelled: sprites, frames, tints, masks, groups, texts,
  the level screen's visibility and `reloadGame`. They are calls into Phaser,
  which is not part of this model.
- `window.onload` and `preload` are not modelled. They are engine setup.
- Pixel-to-cell conversion in `pickTile` (game.js:321-326) is left out,
  because it is floating-point pointer arithmetic. `PickTile` starts from
  integer row and column.
- Tweens and the `tween.manager.getAll().length === 1` test (game.js:377,
  game.js:517) are not modelled, because they are animation timing. The
  events they trigger are separate methods: `FillVerticalHoles` after the
  last destroy tween, and `MovesSettled` then `SettleDelayElapsed` after the
  last move tween. When these fire is not modelled.
- `setInterval`, `clearInterval` and `setTimeout` are not modelled; they are
  wall-clock timing. The interval is the `timerRunning` field. `Tick` may
  only be called while it is set, since the interval only fires while it
  runs.
- `tilePool` and sprite reuse are left out. They are presentation only.
- The refill's `moveDownTile(0, i, j, true)` (game.js:468) is not modelled.
  With `justMove` set it only starts a tween and leaves `tilesArray` alone.
- `game.rnd` and `removeRandomItem` are not modelled; randomness is injected
  as `draws` and `picks`. The requires on their lengths only say that enough
  values are supplied.
- `filled` is left undefined by `create()` and first set by `pickTile`. The
  constructor sets it to the empty list.
- `Game.TheGame.constructor`: the Hero's sprite frame is not modelled; its
  cell keeps its value.
- `Game.TheGame.DestroyTiles` runs its loop test first, while the source's
  do-while takes an element first. They agree because the only caller
  passes more than two positions, which the requires states.
