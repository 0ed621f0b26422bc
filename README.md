# CanvasWorker tile compositor in Dafny

`CanvasWorker` composites a list of placed images onto a large drawing area.

- It splits the area into a grid of fixed-size tiles (`buildTiles`).
- It hands each compose operation to every tile whose margin test it passes (`groupComposeToTiles`).
- It gives every tile to a worker taken round-robin from a pool of eight (`thread`).
- Each worker draws the tile's operations, in order, into a cleared RGBA buffer (`threadScope.drawEach`, `threadScope.draw`).
- Each completion is counted. The callback is told the tile is the last one when the count reaches the number of tiles (`render`).

The modules follow that structure:

- `Images`: raw images (`width`, `height`, RGBA bytes) and compose operations (`image`, `x`, `y`).
- `Blend`: what `draw` and `drawEach` compute, as functions on byte sequences. It holds the lemmas about the colour rule, clipping, footprint and layering.
- `ThreadScope`: `draw` and `drawEach` as methods that rewrite an `array<int>` in place. Each is proved equal to its `Blend` function.
- `Tiles`: the grid and the routing as functions, with coverage, disjointness, order preservation and routing soundness.
- `Defaults`: `setDefaults` as a merge of property maps. `CanvasWorker.defaultSettings` is a constant.
- `Progress`: the `success` counter of `render` and the final flags it hands out.
- `Worker`: the `CanvasWorker` object as a class. Its fields are `settings`, `raw`, `tiles`, `threadCount`, `threadIndex` and `activeThreads`. `buildTiles`, `groupComposeToTiles`, `thread` and `render` are methods with loops.
- `DivMod`: arithmetic helper lemmas.

Three behaviours of the code that the model reproduces:

- **Columns and rows.** The loops run while `index <= extent / size` with real division. That gives `floor(extent / size) + 1` columns and rows, the indices with `index * size <= extent`.
- **Colour rule.** Source alpha 255 overwrites the colour. For source alpha `a > 1`, the middle branch stores the plain average `(d + s) / 2`; the `Uint8ClampedArray` store rounds it to the nearest integer, ties to even. Alpha 0 and 1 take the saturating add.
- **Thread count 0.** With `threadCount == 0`, `thread()` still creates and reuses slot 0.

The slots `thread()` hands out are logged in a ghost field, `slotTrace`, so that the contracts of `render` can say which slot each tile used.

## Model

| member | source | states |
|---|---|---|
| Blend.Average | canvasworker.js:486-490 | the stored byte is `(d+s)/2` rounded to the nearest integer, ties to the even one, and lies between `d` and `s` |
| Blend.ChannelRule | canvasworker.js:482-497 | colour rule for bytes: alpha 255 overwrites with the source; alpha 2..254 gives a value between the two; alpha 0 or 1 gives `min(d+s,255)`, which is at least both; the result is a byte |
| Blend.AlphaRule | canvasworker.js:498-503 | destination alpha becomes `min(A+a,255)`: a byte that never decreases |
| Blend.BlendAt | canvasworker.js:471-503 | one blended pixel: the four bytes at the destination offset become the blended values; every other byte is unchanged |
| Blend.PixelByteFrame | canvasworker.js:477-503 | a blended byte depends only on the four destination bytes of its own pixel |
| Blend.StepPixelAt | canvasworker.js:451-503 | one loop iteration changes a byte exactly when that iteration's source pixel lands on the byte's pixel, then to the blend of the two |
| Blend.DrawPrefixAt | canvasworker.js:451-510 | after the first `n` source pixels, a byte is blended exactly when its covering source pixel is among them, and only over the original byte |
| Blend.DrawImageAt | canvasworker.js:412-513 | clipping and footprint of `draw`: a byte changes only under the image, to its source pixel blended over the original pixel |
| Blend.DrawImageByte | canvasworker.js:458-503 | per byte of `draw`: an uncovered byte is unchanged; a covered byte follows overwrite, average or saturating add by source alpha; alpha becomes `min(A+a,255)`; the result is a byte |
| Blend.DrawImageBytes | canvasworker.js:498-503 | `draw` keeps a byte buffer a byte buffer |
| Blend.OpaqueWins | canvasworker.js:482-486 | a covered colour byte under an opaque source pixel takes the source colour |
| Blend.RowGuard | canvasworker.js:455-460 | with the column inside the canvas, the buffer's index guard holds exactly when the row is inside the canvas |
| Blend.DrawAllSnoc | canvasworker.js:391-401 | drawing one more operation draws it over the result of the earlier ones, in list order |
| Blend.DrawAllBytes | canvasworker.js:391-401 | `drawEach` keeps a byte buffer a byte buffer |
| Blend.LastOpaqueWins | canvasworker.js:396-399 | the last operation paints over earlier ones: where its pixel is opaque, the result has its colour |
| Blend.BlendExamples | canvasworker.js:482-503 | worked cases: zero-alpha pixels (10,10,10,0) then (20,20,20,0) over a cleared pixel give (30,30,30,0); three alpha-200 pixels saturate alpha at 255 |
| ThreadScope.BlendPixel | canvasworker.js:471-503 | the array after one pixel write is the blended pixel at the canvas index, nothing else changed |
| ThreadScope.Draw | canvasworker.js:412-513 | the in-place loop of `draw` leaves the array equal to `DrawImage` of its old contents |
| ThreadScope.DrawEach | canvasworker.js:391-401 | the in-place loop of `drawEach` leaves the array equal to `DrawAll` of its old contents |
| Tiles.GridCountGuard | canvasworker.js:163-175 | the guard `index <= extent / size` holds exactly for the first `floor(extent/size)+1` non-negative indices, none when the extent is negative |
| Tiles.GridPrefixAt | canvasworker.js:174-207 | the `k`-th tile pushed is the tile of row `k / cols`, column `k % cols` |
| Tiles.GridStep | canvasworker.js:175-207 | the next tile pushed by the nested loops is that of the current row and column, carrying the next index |
| Tiles.GridShape | canvasworker.js:163-209 | the grid has columns × rows tiles in row-major order; the tile of (row, col) has bounds `tw*col..tw*col+tw` by `th*row..th*row+th`, index `base + row*cols + col`, and no operations |
| Tiles.GridTile | canvasworker.js:177-185 | every tile is `tw` by `th`, has index `base + k` and an empty list |
| Tiles.GridAt | canvasworker.js:174-207 | the `k`-th grid tile is entry `k` of the row-major enumeration |
| Tiles.TileAtContains | canvasworker.js:177-180 | a pixel inside a grid tile determines that tile's column and row |
| Tiles.GridCovers | canvasworker.js:163-209 | coverage: every pixel of `[0,W)×[0,H)` lies in some tile |
| Tiles.GridDisjoint | canvasworker.js:163-209 | no overlap: a pixel lies in at most one tile |
| Tiles.RoutedOpsMember | canvasworker.js:229-246 | an operation is routed to a tile exactly when it is in the list and passes the margin test |
| Tiles.RoutedOpsAppend | canvasworker.js:229-246 | routing distributes over concatenation, so each tile keeps the list order |
| Tiles.RoutedOpsSnoc | canvasworker.js:229-246 | one more operation is routed to a tile exactly when it passes the test |
| Tiles.RoutedOpsValid | canvasworker.js:229-246 | routed operations name existing images |
| Tiles.RouteStep | canvasworker.js:229-246 | one pass of the outer loop is one pass of the inner loop over the tiles routed so far; its push count depends only on the tile bounds |
| Tiles.HitCountBounds | canvasworker.js:236-245 | the number of tiles an operation hits depends only on their bounds |
| Tiles.HitCountSnoc | canvasworker.js:236-245 | the push count grows by one exactly for a tile the operation hits |
| Tiles.RouteNone | canvasworker.js:214-228 | before the loop nothing is routed and every tile is as it was |
| Tiles.RouteKeepsTiles | canvasworker.js:238-246 | routing changes only the operation lists; bounds and index stay |
| Tiles.RouteCountSplit | canvasworker.js:221-245 | the push count splits into the first tile's routed list and the count for the rest |
| Tiles.RouteCountEmpty | canvasworker.js:221-245 | with no tiles, nothing is pushed |
| Tiles.RouteComposed | canvasworker.js:221-245 | `sorted` equals the total number of entries the routing adds to the tiles |
| Tiles.UnroutedOpPaintsNothing | canvasworker.js:236-241 | an operation that fails the test for a tile leaves the tile's buffer unchanged when drawn |
| Tiles.RoutingPreservesComposite | canvasworker.js:229-246 | routing is sound: drawing only a tile's routed operations gives the same buffer as drawing every operation |
| Defaults.SetDefaults | canvasworker.js:59-70 | keys are the caller's plus the non-empty default names; caller values other than undefined are kept; missing or undefined ones take the default; other properties are untouched |
| Defaults.SetDefaultsIdempotent | canvasworker.js:59-70 | filling in the defaults twice equals filling them in once |
| Defaults.DefaultGeometry | canvasworker.js:339-374 | without caller values, tiles are 256 by 256 and the area is 0 by 0 |
| Progress.FinalFlagsAt | canvasworker.js:290-305 | the `i`-th completion is flagged final exactly when it is the `max`-th |
| Progress.FinalCount | canvasworker.js:290-305 | exactly one completion is flagged final once all `max ≥ 1` tiles finish; none before, none for zero tiles |
| Progress.Completion.constructor | canvasworker.js:268 | the counter starts at 0 with no flags handed out |
| Progress.Completion.TileDone | canvasworker.js:290-305 | `success` grows by one; the flag is `success == max`, appended to the flags handed out |
| Worker.Zeros | canvasworker.js:280-282 | a cleared buffer of `n` bytes, all zero |
| Worker.Slot | canvasworker.js:323-325 | the slot is the counter, or 0 once the counter reaches `threadCount`; it lies in `[0, threadCount)` when there are slots |
| Worker.CounterFromMod | canvasworker.js:321-336 | after `n` calls on a fresh object the counter lies in `[0, count]` and is congruent to `n` modulo `count` |
| Worker.RoundRobin | canvasworker.js:321-336 | the `n`-th call on a fresh object uses slot `n % threadCount` |
| Worker.SlotsFromAt | canvasworker.js:321-336 | the `i`-th of a run of calls uses the slot the counter reads after the first `i` calls |
| Worker.SlotsStep | canvasworker.js:323-333 | one more call uses the slot the counter reads and leaves the counter just past it |
| Worker.SlotSetMembers | canvasworker.js:327-329 | the set of slots given a worker is exactly the set of slots the calls used |
| Worker.SlotsAdvance | canvasworker.js:321-336 | one more call, reported as `thread()` makes it, extends the counter, slot log and worker table by that call |
| Worker.FreshSlots | canvasworker.js:272-274 | starting from counter 0, the `i`-th call of a run uses slot `i % threadCount` |
| Worker.CompletedSnoc | canvasworker.js:272-311 | one more completion, for the next tile, extends the completions of the earlier tiles |
| Worker.RouteShaped | canvasworker.js:214-254 | routing keeps every tile's size, position and valid operations |
| Worker.FreshRouting | canvasworker.js:261-311 | on freshly built tiles, rendering each tile's routed list equals drawing the whole compose list into the tile |
| Worker.CanvasWorker.constructor | canvasworker.js:10-51 | the object holds the settings and images, eight slots, counter 0, no workers, and the grid `buildTiles` builds |
| Worker.CanvasWorker.BuildTiles | canvasworker.js:163-209 | the tile list is extended by exactly the grid, indices continuing from the old length |
| Worker.CanvasWorker.GroupComposeToTiles | canvasworker.js:214-254 | the tiles become the routed tiles; `sorted` is the push count and the growth in total entries |
| Worker.CanvasWorker.OfferToTiles | canvasworker.js:232-246 | every tile gets the operation pushed exactly when it passes the test; the count is the number of such tiles |
| Worker.CanvasWorker.Thread | canvasworker.js:321-336 | the slot's worker is returned; the counter moves past the slot and the slot is logged; a missing worker is created once and then reused |
| Worker.CanvasWorker.RenderTile | canvasworker.js:272-311 | the tile's merged pixels are its operations drawn into a cleared buffer; the completion is counted and flagged final on the `max`-th; one slot is taken: the counter moves past it, it is logged, it has a worker, and the existing workers stay |
| Worker.CanvasWorker.RenderTiles | canvasworker.js:265-312 | one completion per tile, in tile order, each with the tile's merged pixels, only the last flagged final; the slot state is that after one `thread()` call per tile |
| Worker.CanvasWorker.Render | canvasworker.js:261-315 | routes the operations, then yields one completion per routed tile with its merged pixels, only the last flagged final; the counter, slot log and worker table are those after one `thread()` call per tile; on a fresh object tile `i` uses slot `i % threadCount` |

## Left out

- Image loading is not modelled because it is browser I/O: `load`, `loadAllImages` and `toRaw` (the decoding of elements into RGBA). The decoded images are a parameter of the constructor.
- The DOM is not modelled: the container element, tile canvases, styles and attributes, `putImageData`, `appendChild`, `canvas.addTo` with its Leaflet overlay, and the opacity `setTimeout`. None of it affects the tiles' pixels or order.
- The element-derived size in the constructor is not modelled: with `settings.element` present, width and height come from its client size, and this is DOM state. The settings are taken as given.
- `operative` workers are not modelled: concurrency, message passing and out-of-order completion. Each worker is an opaque object, and the callbacks are modelled in tile order. The final flag's rule (`success === max`) is proved for any order by `Progress.FinalCount`.
- Worker.CanvasWorker.Render: does not model out-of-order completion. With asynchronous workers the `max`-th completion may belong to any tile, while the model flags the last tile in list order.
- `activeThreads` is a per-object field here. In the code it lives on the prototype and is shared by every instance.
- `x >> 0` and `y >> 0` in `draw` are not modelled: they truncate to 32-bit integers. Offsets are unbounded integers here, and the `undefined` checks after them can never fire.
- An operation whose `image` index names no decoded image is excluded by a precondition (`OpsValid`). The code would read `width` of `undefined`.
- The `sorted < compose.length` check has an empty body (its `throw` is commented out), so nothing is modelled for it. `sorted` itself is modelled and related to the routing.
- Worker.CanvasWorker.BuildTiles: requires positive tile sizes, which the code does not check. With `tileWidth` 0 and a positive width, `columnMax` is `Infinity` and the code's loop never ends. Other non-positive sizes yield odd grids, including one column for width 0 and a negative tile width. The model covers positive sizes only.
- `compose` defaults to `null`, and `groupComposeToTiles` then throws on `compose.length`. `Settings.compose` is a sequence, so the model has no null list and no exception.
- Defaults.SetDefaults: writes the defaults into the caller's own object and keeps that object as `this.settings`, so the caller sees the change. The model returns a new map and has no aliasing.
- Defaults.SetDefaults: models the `for ... in` loop as a map merge. Property enumeration order does not affect the result.
- The user callback's return value (`doDraw`) is unused in the code and is not modelled.
