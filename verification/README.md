# Coral Island farm planner: placement rules and item store

This project models the logic at the centre of the Coral Island farm planner.

- **The placement validator (`canPlaceItem`).** It decides whether a square item of side `size`, anchored at its top-left cell `(x, y)`, may be placed on the terrain grid, given the items already placed.
- **The store transitions.** Clicking a cell places the selected item under a fresh instance id. An id can be removed. A placed item can be picked up to be moved.
- **The grid queries (`isCellBuildable`, `getBorderInfo`).** These decide which cells can be built on and where the edges of buildable regions are drawn.

The validator applies three rules, in order:

1. **Bounds.** `x + size` may not exceed the grid width, and `y + size` may not exceed the grid height.
2. **Terrain.** Every cell of the square must have buildable terrain. A cell without a code uses code 1. A code without a descriptor uses descriptor 1.
3. **Collision.** The candidate is refused if its centre `(x + ⌊size/2⌋, y + ⌊size/2⌋)` equals the centre of any placed item. It is also refused if both it and a placed item count as "crop or tree" and their half-open squares intersect.

The crop/tree test is a test on strings:

- The candidate is classified by the string its caller passes. Both callers pass the selected item's **id**. That string counts when it is exactly `"crop"` or contains `"tree"`.
- A placed item is classified by its id. It counts when the id contains `"crop"` or `"tree"`.

A picked-up crop keeps its instance id (`crop-3`, say). That id is no longer exactly `"crop"`, so when the crop is dropped again only the centre rule applies to it. `Store.MovedCropMayOverlapTree` exhibits a concrete case: a moved crop is accepted on a tree's corner where a fresh crop is refused.

## Layout

- `ids.dfy` (module `Ids`): the JavaScript `includes` test, the decimal text of the counter, and the instance ids `<item id>-<counter>`. It also defines `CounterOf`, which reads the counter back out of an id. This is used to prove that ids are distinct.
- `terrain.dfy` (module `Terrain`): the terrain data, the validator's terrain lookup, `isCellBuildable` and `getBorderInfo`.
- `items.dfy` (module `Items`): the records of `src/types.ts` and the item catalog.
- `placement.dfy` (module `Placement`): the rules, stated declaratively as `Placeable`. `CanPlaceItem` is the loop-based validator, with the source's structure, proved to decide exactly `Placeable`.
- `store.dfy` (module `Store`): the session state (records, counter, selection, move flag, hover cell), the click/remove/move transitions, and runs of user actions.

The terrain data comes from a module that is not part of this model. It is therefore a parameter, `TerrainMap`: a table of codes per row (rows may be ragged) and a map from codes to descriptors. The grid is as wide as the first row, or 70 when there are no rows. It is as high as the number of rows. Every terrain, placement and click operation requires descriptor 1 to exist (`TerrainMap.Valid`); see "Left out".

JavaScript numbers are modelled as unbounded integers. The validator itself imposes nothing on `x`, `y` or `size`, and neither does the model. For example, a negative anchor is looked up with the default code and is not refused by the bounds rule. `Math.floor(size / 2)` is written `size / 2`: Dafny's division by a positive divisor rounds down, as `Math.floor` does.

The code has no block/radius occupancy rule and no migration of stored records: only the renderers read the items' `placement` and `radius` fields. The collision rules are the centre rule and the crop/tree overlap rule above.

## Model

| member | source | states |
|---|---|---|
| Ids.Contains | src/App.tsx:136-137 | `includes` is true exactly when the pattern occurs at some position of the string |
| Ids.DecimalString | src/App.tsx:176 | the counter's text is non-empty, all digits, and has no leading zero |
| Ids.DecimalRoundTrip | src/App.tsx:176 | reading the counter's decimal text back gives the counter |
| Ids.CounterOfInstanceId | src/App.tsx:176 | the counter can be recovered from every generated id `<item id>-<counter>`, whatever the item id |
| Ids.InstanceId | src/App.tsx:176 | a new id is the selected item's id, then a dash, then the counter's decimal digits with no leading zero (so `crop-7`, never `crop-07`) |
| Ids.InstanceIdValue | src/App.tsx:176 | the digits after the item id and the dash read back as exactly the counter, so together with `Ids.InstanceId` the id is `<item id>-<counter>` in plain decimal |
| Ids.InstanceIdsDistinct | src/App.tsx:169-176 | ids generated with different counter values differ, even when the item ids they extend differ |
| Terrain.GridExtent | src/App.tsx:9-10 | the grid width is the first row's length (70 without rows) and the height the number of rows: the first row and every row lie in the grid, cells a longer row has past the first row's length are outside it and never buildable, and a terrain without rows has no cells |
| Terrain.TerrainBuildable | src/App.tsx:119-121 | the validator's lookup: the cell's own descriptor when the row, the cell and the code's descriptor all exist, otherwise descriptor 1's flag |
| Terrain.IsCellBuildable | src/components/FarmGrid.tsx:43-48 | false outside [0, width) x [0, height); inside, the descriptor's flag, with the same fallback to code 1 and descriptor 1 |
| Terrain.GetBorderInfo | src/components/FarmGrid.tsx:50-62 | a non-buildable cell has no borders; a buildable one has a border on each side whose neighbour is not buildable |
| Terrain.BorderMeansBuildable | src/components/FarmGrid.tsx:51-54 | any border flag implies the cell itself is buildable |
| Terrain.GridEdgeHasBorder | src/components/FarmGrid.tsx:43-61 | a buildable cell on the grid's top, right, bottom or left edge has the border for that edge |
| Terrain.SharedVerticalEdge | src/components/FarmGrid.tsx:56-61 | of two horizontal neighbours, at most one draws the shared edge, and one does exactly when their buildability differs |
| Terrain.SharedHorizontalEdge | src/components/FarmGrid.tsx:56-61 | the same for two vertical neighbours |
| Items.CatalogWellFormed | src/App.tsx:32-108 | every catalog item has a positive size and catalog ids are pairwise distinct |
| Placement.Center | src/App.tsx:125-130 | the centre is the anchor plus half the size rounded down: twice the offset is at most the size and more than the size minus 2 |
| Placement.NewIsCropOrTree | src/App.tsx:136 | the candidate's tag counts as crop/tree exactly when it equals "crop" or "tree" occurs somewhere in it |
| Placement.ExistingIsCropOrTree | src/App.tsx:137 | a placed item counts as crop/tree exactly when "crop" or "tree" occurs somewhere in its id |
| Placement.PlaceableWitnesses | src/App.tsx:110-163 | an accepted square ends within the grid, covers only buildable cells, shares its centre with no placed item and, for a crop/tree pair, does not intersect it; every refusal has a witness: a far edge past the grid, an unbuildable covered cell, or a colliding placed item |
| Placement.CanPlaceItem | src/App.tsx:110-163 | the validator with early returns accepts exactly when the square fits, every covered cell is buildable and no placed item collides; the second bounds test inside the scan never fires |
| Placement.OutOfBoundsRejected | src/App.tsx:111 | a square past the right or bottom edge is refused, whatever the store holds |
| Placement.NoRowsNoPlacement | src/App.tsx:9-11 | with no terrain rows the width falls back to 70 and the height is 0, so nothing reaching row 0 or below can be placed |
| Placement.UnbuildableCellRejected | src/App.tsx:113-122 | a square covering any unbuildable cell is refused |
| Placement.SharedCenterRejected | src/App.tsx:125-134 | a candidate whose centre equals a placed item's centre is refused, for every kind of item |
| Placement.CropTreeCollideIffOverlap | src/App.tsx:125-159 | for crop/tree on both sides and positive sizes, a collision (shared centre or intersection) happens exactly when the half-open squares intersect |
| Placement.OverlapIffSharedCell | src/App.tsx:140-156 | for positive sizes, the half-open intersection test holds exactly when some cell lies under both squares |
| Placement.EdgeContactAllowed | src/App.tsx:150-156 | squares that only share an edge do not intersect |
| Placement.OtherKindsIgnoreOverlap | src/App.tsx:128-162 | when no pair is crop/tree on both sides, the result is true exactly when bounds, terrain and the centre rule pass |
| Placement.FewerItemsStillAccept | src/App.tsx:128-161 | a candidate accepted over a store is accepted over every store that holds only records of it |
| Placement.SingleCellMatchesGrid | src/App.tsx:111-122 | over an empty store, a one-cell candidate inside the grid is accepted exactly when `isCellBuildable` holds for the cell |
| Placement.SquareMatchesGrid | src/App.tsx:111-122 | for a non-negative anchor and positive size, the bounds and terrain rules together mean that `isCellBuildable` holds for every covered cell |
| Placement.MovedCropIsNotCropOrTree | src/App.tsx:136 | a crop's instance id `crop-N` is not a crop/tree tag |
| Placement.InstanceIdKeepsCropOrTree | src/App.tsx:136-137 | appending the counter keeps an id crop/tree as a placed item, and keeps an id containing "tree" crop/tree as a tag |
| Store.Accepts | src/App.tsx:166-168 | a click with nothing selected is refused; an accepted click means the validator accepts the selected item's size with its id as the type |
| Store.ClickPlacesIffPlaceable | src/App.tsx:165-178 | with nothing selected a click changes nothing; with an item selected, the click places it (the counter rises) exactly when the validator accepts the item's size with its id as the type |
| Store.HandleCellClick | src/App.tsx:165-185 | with no selection or a refused candidate nothing changes. Otherwise the counter rises by 1 and one copy of the selection is appended at the clicked cell with id `<selected id>-<counter>`. Earlier records stay as they were, and a move ends with the selection cleared |
| Store.RemoveItem | src/App.tsx:209-211 | a record is in the result exactly when it was in the store and has another id; an unknown id changes nothing |
| Store.RemoveKeepsCounts | src/App.tsx:210 | each record with another id stays as many times as it occurred, and none with the removed id remains |
| Store.HandleMoveItem | src/App.tsx:213-218 | the record leaves the store as by remove, the item becomes the selection, the hover cell is its old anchor and move mode is on |
| Store.RemoveDistributes | src/App.tsx:210 | removing from a concatenation removes from each part, so the kept records stay in order |
| Store.RemoveIdempotent | src/App.tsx:210 | removing an id twice equals removing it once |
| Store.RemoveUndoesAppend | src/App.tsx:209-211 | removing the id of an appended record that no earlier record carries restores the store |
| Store.PlaceThenRemoveRestores | src/App.tsx:165-211 | an accepted click followed by removing the new id gives back the previous store when that id was not already present |
| Store.RemovalNeverRejects | src/App.tsx:128-161 | removing records never turns an acceptance into a refusal |
| Store.AppendNeverAccepts | src/App.tsx:128-161 | adding a record never turns a refusal into an acceptance |
| Store.ClickTwiceRejected | src/App.tsx:165-178 | after an accepted click, a second click on the same cell changes nothing (in move mode because the selection was cleared, otherwise because the new copy shares the centre) |
| Store.MoveThenDrop | src/App.tsx:165-218 | after a pick-up and an accepted drop, the store is the old store without the record, plus the item at the clicked cell with id `<old id>-<counter+1>`, and move mode ends |
| Store.MovedCropMayOverlapTree | src/App.tsx:136-139 | on a 3x2 field, a session that plants a 2x2 tree at (0, 0) and a crop at (2, 0) refuses a fresh crop on the tree's corner, while the planted crop, picked up, is accepted there although the squares intersect |
| Store.Step | src/App.tsx:165-237 | each user action (select, click, remove, move, clear all) leaves the counter alone or raises it by one; when it rises, the last record's id carries the new counter |
| Store.GeneratedCountersIncrease | src/App.tsx:24 | along any run of actions the counter rises by exactly the number of records created, and their ids carry strictly increasing counters above the starting value |
| Store.SessionIdsDistinct | src/App.tsx:169-176 | ids created within one session are pairwise distinct |
| Store.FreshSessionIds | src/App.tsx:24 | from a fresh session (counter 0) the counter equals the number of records created, every created id carries a counter between 1 and that number, and the created ids are pairwise distinct |

## Left out

- Loading and saving the store in `localStorage`, with its JSON parsing, is I/O. A session starts from an arbitrary sequence of records instead (`StartSession`). Records loaded this way may share ids with each other or with new ones, so uniqueness is proved only for ids created in the session.
- The keyboard handler and the React hooks are event plumbing, and so are the hover setter and the delete-mode toggle. The clear-all button (`setPlacedItems([])`) is modelled as the `ClearAll` event of `Step`.
- Rendering is left out: pixel geometry, the hover preview, overlays, cell styles and the sidebar's item counts. This includes the `placement`/`radius` fields that only the renderers read.
- The terrain tables themselves belong to a module that is not part of this model. They are a parameter here.
- Every terrain operation requires descriptor 1 to exist (`TerrainMap.Valid`). The source reads descriptor 1 only when a lookup misses, and throws a `TypeError` when it is absent. The model does not represent that error, so terrains without descriptor 1 are out of scope, including those whose lookups never miss.
- `HandleMoveItem` selects the record's item fields but not its `x`/`y`. In the source the selection is the whole placed record, but the next click overwrites `x` and `y`, so nothing observable depends on them.
- The catalog-wide statement that the id-based crop/tree test agrees with each catalog entry's `itemType` is not proved. Only the crop-id and tree-id facts used by the move example are proved.
- JavaScript numbers can be fractional; coordinates and sizes here are integers, as every caller provides.
