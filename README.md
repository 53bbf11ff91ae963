# fractal: a verified model of the renderers' work distribution and exact arithmetic

This project models in Dafny how the `bumzack/fractal` renderers split a canvas among threads, put the results back together and write them out. It also models the exact rational arithmetic that one renderer uses.

Modules follow the Rust files:

- **Colors, Canvas** (`canvas.dfy`) hold the shared types:
  - `Color` is an RGB byte triple; `Black` is `Color::default()`.
  - `FractalImage` is the image type.
  - The per-pixel colour function (`calc_fractal_color` and its kin) is a parameter.
  - `RowMajor` is the row-major layout of a `width * height` canvas that every renderer promises.
- **ImageTile** (`image_tile.dfy`) covers the tile cursor of `common/src/image_tile.rs`. `tiles` builds it. It is a `class CanvasTile` whose `Next` changes the cursor in place. The lemmas prove three things:
  - the tiles it hands out partition the canvas;
  - it runs dry exactly when the tile counts fit the canvas, and otherwise never ends;
  - the 9×9 unit tests hold.
- **TileWorker** (`tile_worker.dfy`) covers the crossbeam tile workers:
  - they peek and take tiles from the shared cursor, compute a tile row by row and send it on a channel;
  - thread interleaving is an explicit `schedule`;
  - a failed send is logged and the tile dropped.
- **Collector** (`collector.dfy`) covers two consumers of the channel:
  - the server's collector task and the brownbag receiver thread both merge the tiles' points into a black buffer;
  - the result is the row-major canvas whatever order the tiles arrive in;
  - the tiles of lost messages stay black.
- **Server** (`server.dfy`) covers `handle_request_crossbeam_tiles`:
  - the first WebSocket message decides whether a render starts;
  - the compute task and the collector task run;
  - the image is saved once, last.
- **BrownbagMpsc** (`brownbag_mpsc.dfy`) covers `multi_threaded_mpsc`, with its hard-coded 50 tile rows; see the findings.
- **RowClaim** (`row_claim.dfy`) covers the shared row counter (`y_global` behind a mutex). It is a `class RowCounter`. The workers of three renderers claim rows from it and copy them into a shared pixel array:
  - `calc_multi_threaded`;
  - the brownbag `multi_threaded`;
  - `calc_multi_threaded_rational`.

  It includes the stale-row rewrite a worker does when it loses the last claim.
- **SingleThreaded** (`single.dfy`) covers the single-threaded renderers and the rayon renderer.
- **RasterWalk** (`raster_walk.dfy`) covers the `save_png` family's walk over the pixels with an `x`/`y` cursor into an image buffer.
- **Ppm** (`ppm.dfy`) covers `write_to_ppm`, both the flat-vector and the row-vector variant. Its writes are proved to read back as the same image, with lines of at most 60 characters.
- **AiMpsc** (`ai_mpsc.dfy`) covers the assistant-written MPSC renderer:
  - one thread per row;
  - the escape-count colouring;
  - a collector that stores rows in arrival order.
- **Palette, Text** (`palette.dfy`, `text.dfy`) cover `read_palette` and the string primitives it uses.
- **Rational, ComplexRational** (`rational.dfy`, `complex_rational.dfy`) cover the i128 rational numbers:
  - operators that reduce by a truncating Euclidean `gcd` (0/0 panics on division by zero);
  - the source's `eq` and `partial_cmp`;
  - the complex numbers built on them.
- **RationalFractal** (`rational_fractal.dfy`) covers `calc_multi_threaded_rational` and its kernel `calc_fractal_color_rational`.

Panics are modelled as `Result.Panic`. Rust's truncating `/` and `%` are `Rational.TruncDiv` and `Rational.TruncRem`. Threads are modelled by an interleaving parameter, and the methods' contracts hold for every interleaving.

## Model

| member | source | states |
|---|---|---|
| Canvas.Row | rust/common/src/fractal_calculation.rs:199-213 | a row has `width` entries and entry x is the colour of (x, y) |
| Canvas.RowMajorLength | rust/common/src/fractal_calculation.rs:161 | the row-major canvas has width * height entries |
| Canvas.RowMajorEntry | rust/common/src/fractal_calculation.rs:217-218 | entry `y * width + x` of the canvas is the colour of (x, y) |
| Canvas.RowMajorIndex | rust/common/src/utils.rs:53-62 | entry i of the canvas is the colour of (i % width, i / width) |
| Canvas.FlatIndexInRange | rust/common/src/fractal_calculation.rs:218 | `y * width + x` lies inside the buffer for every in-canvas pixel |
| Canvas.FlatIndexInjective | rust/common/src/fractal_calculation.rs:218 | two pixels never share a buffer index |
| Canvas.FlatIndexDecompose | rust/common/src/utils.rs:56-61 | the index of (x, y) divides back into x and y |
| Canvas.FlatIndexSplit | rust/common/src/utils.rs:56-61 | every buffer index splits into an in-canvas column and row |
| Canvas.FlatIndexOrder | rust/common/src/utils.rs:53-62 | a larger buffer index lies on a later row, or further right on the same row |
| Canvas.RowMajorMap | rust/common/src/fractal_calculation.rs:494 | mapping a function over the canvas equals the canvas of the composed function |
| Canvas.RowMajorAgree | rust/common/src/fractal_calculation.rs:465-476 | canvases of functions that agree on the canvas are equal |
| ImageTile.Tiles | common/src/image_tile.rs:7-19 | the cursor starts at (0, 0) with index 0, and its increments are the floor quotients `width / x_tiles` and `height / y_tiles` |
| ImageTile.Step | common/src/image_tile.rs:66-100 | `next` gives None exactly when y has reached the height; otherwise the tile starts at the cursor, carries its index, is clipped to the canvas, and the index advances by one |
| ImageTile.CanvasTile.constructor | common/src/image_tile.rs:7-19 | the new cursor's state is `Tiles(width, height, x_tiles, y_tiles)` |
| ImageTile.CanvasTile.Next | common/src/image_tile.rs:66-100 | a drained cursor returns None and is unchanged; otherwise it returns the next tile and advances to the following state |
| ImageTile.CanvasTile.HasNext | rust/common/src/fractal_calculation_crossbeam.rs:81 | `peekable().peek().is_some()` on a copy is true exactly when `next` would give a tile; the shared cursor is untouched |
| ImageTile.StepProgresses | common/src/image_tile.rs:91-96 | a step of a cursor with nonzero increments keeps it so and keeps x in range |
| ImageTile.StartRemaining | common/src/image_tile.rs:7-19 | the pixels a fresh cursor still has to hand out are exactly the canvas |
| ImageTile.StepSplits | common/src/image_tile.rs:66-100 | one step splits the remaining pixels into the tile it returns and the rest, with no overlap |
| ImageTile.TilesWellFormed | common/src/image_tile.rs:70-91 | every handed-out tile has consecutive index, lies in the canvas and is non-empty in y (and in x on a non-empty canvas) |
| ImageTile.TilesSound | common/src/image_tile.rs:66-100 | every pixel of a handed-out tile is one the cursor still had to hand out |
| ImageTile.TilesCover | common/src/image_tile.rs:66-100 | every remaining pixel lies in some handed-out tile |
| ImageTile.TilesDisjoint | common/src/image_tile.rs:66-100 | no pixel lies in two handed-out tiles |
| ImageTile.CeilDivIsCeiling | common/src/image_tile.rs:91-96 | the tile count per axis is the ceiling quotient |
| ImageTile.TilesCountFrom | common/src/image_tile.rs:91-96 | the number of tiles a cursor still hands out is the rest of its row plus whole rows after it |
| ImageTile.TilesCount | common/src/image_tile.rs:7-100 | with tile counts that fit the canvas, there are ceil(width/x_inc) * ceil(height/y_inc) tiles, numbered 0.. in order and inside the canvas |
| ImageTile.TilesCoverCanvas | common/src/image_tile.rs:7-100 | a pixel is in the canvas exactly when some tile covers it |
| ImageTile.TilesPairwiseDisjoint | common/src/image_tile.rs:7-100 | no two tiles of the canvas share a pixel |
| ImageTile.TilesRunDry | common/src/image_tile.rs:7-100 | the cursor runs dry exactly when the height is 0 or the tile counts do not exceed the canvas; otherwise it is stuck |
| ImageTile.StuckForever | common/src/image_tile.rs:91-96 | a stuck cursor (a zero increment on a live axis) yields a tile at every later step |
| ImageTile.TooManyTilesNeverEnds | common/src/image_tile.rs:7-19 | more tile columns than columns, or more tile rows than rows, make `next` return a tile forever |
| ImageTile.NineByNineInTwos | common/src/image_tile.rs:194-273 | a 9×9 canvas in 2×2 tiles yields the nine tiles the unit test lists |
| ImageTile.NineByNineInThrees | common/src/image_tile.rs:276-355 | a 9×9 canvas in 3×3 tiles yields the nine tiles the unit test lists |
| TileWorker.TilePointsCount | rust/common/src/fractal_calculation_crossbeam.rs:88-107 | a tile's message has one point per pixel of the tile |
| TileWorker.TilePointAt | rust/common/src/fractal_calculation_crossbeam.rs:91-106 | point k of a tile is pixel (x_from + k % w, y_from + k / w), inside the tile, with the kernel's colour |
| TileWorker.TilePixelPresent | rust/common/src/fractal_calculation_crossbeam.rs:91-106 | every pixel of the tile appears in its message, with the kernel's colour |
| TileWorker.TilePointsOrdered | rust/common/src/fractal_calculation_crossbeam.rs:91-92 | points come row by row, left to right |
| TileWorker.ComputeTile | rust/common/src/fractal_calculation_crossbeam.rs:88-109 | the nested loops build exactly the tile's message `TileResult(tile, kernel)` |
| TileWorker.FirstUnfinished | rust/common/src/fractal_calculation_crossbeam.rs:130-137 | finds a worker still running, or says that every worker has ended (shared with the row-claim pool) |
| TileWorker.PoolInvInit | rust/common/src/fractal_calculation_crossbeam.rs:63-79 | the pool invariant holds when every worker starts at its loop guard with nothing claimed |
| TileWorker.PoolInvDone | rust/common/src/fractal_calculation_crossbeam.rs:130-137 | once all workers have ended, the claimed tiles are all the cursor's tiles, and sent plus lost tiles are a permutation of them |
| TileWorker.TakeAdvances | rust/common/src/fractal_calculation_crossbeam.rs:84 | a claim appends the next tile of the cursor's sequence and shrinks what is left |
| TileWorker.RunsDryWhenEmpty | rust/common/src/fractal_calculation_crossbeam.rs:81 | the peek fails exactly when no tiles are left |
| TileWorker.TakeKeepsInv | rust/common/src/fractal_calculation_crossbeam.rs:84-90 | a worker that takes the cursor's next tile keeps the pool invariant, with that tile claimed and held, and the cursor has fewer tiles left |
| TileWorker.GuardStep | rust/common/src/fractal_calculation_crossbeam.rs:81 | a worker at the guard goes on to claim while the cursor has a tile, else finishes; the pool invariant holds and the potential drops |
| TileWorker.MoveWorker | rust/common/src/fractal_calculation_crossbeam.rs:81-124 | one step of worker w in whatever phase it is: the pool invariant holds and progress is made; a finished worker changes nothing |
| TileWorker.ClaimStep | rust/common/src/fractal_calculation_crossbeam.rs:81-87 | one peek-then-take step by one worker keeps the pool invariant; the cursor shrinks, or it is dry and the worker moves toward its end |
| TileWorker.SendStep | rust/common/src/fractal_calculation_crossbeam.rs:108-118 | sending the held tile moves its result to the sent or the lost messages, as the send failures decide, and keeps the pool invariant |
| TileWorker.RunTileWorkers | rust/common/src/fractal_calculation_crossbeam.rs:66-137 | for every interleaving, with at least one worker: the tiles claimed are exactly the cursor's tiles, in cursor order; each is claimed once; the per-worker counts add up to the tile count; sent and lost tiles together are a permutation of the claimed ones; each message is its tile's result; a send fails only for the chosen failures |
| TileWorker.SelectPalette | rust/common/src/fractal_calculation_crossbeam.rs:72-76 | 16 gives `color16()`, 256 gives `color256()`, any other count panics |
| TileWorker.CalcMultiThreadedCrossbeamTiles | rust/common/src/fractal_calculation_crossbeam.rs:14-142 | panics exactly on a zero tile count (division by zero) or, with workers, an unsupported colour count; otherwise the messages are the results of all tiles of the canvas |
| Collector.Blank | rust/backend/src/server.rs:204-208 | the buffer starts as width * height `Color::default()` |
| Collector.Overlay | rust/backend/src/server.rs:213-216 | writing the points keeps the buffer's length; None is the out-of-range index panic |
| Collector.OverlayAppend | rust/backend/src/server.rs:210-216 | merging two runs of points is merging one after the other |
| Collector.OverlayDefined | rust/backend/src/server.rs:214-215 | the merge succeeds exactly when every point's index is inside the buffer |
| Collector.OverlayUntouched | rust/backend/src/server.rs:214-215 | an index no point names keeps its old colour |
| Collector.OverlayFaithful | rust/backend/src/server.rs:213-216 | when every point carries the kernel's colour of its pixel, each named index ends with that colour |
| Collector.PointsFrom | rust/backend/src/server.rs:210-213 | every merged point comes from some received message |
| Collector.PointsContains | rust/backend/src/server.rs:210-213 | every point of every received message is merged |
| Collector.ResultsFaithful | rust/common/src/fractal_calculation_crossbeam.rs:91-109 | the points of tiles that lie in the canvas are in the canvas and carry the kernel's colour |
| Collector.OrderInCanvas | common/src/image_tile.rs:66-100 | any selection of the cursor's tiles lies inside the canvas |
| Collector.MergedPixel | rust/backend/src/server.rs:210-216 | a pixel of a delivered tile ends with the kernel's colour |
| Collector.AnyArrivalOrder | rust/backend/src/server.rs:204-235 | when all the cursor's tiles arrive, in any order, the merged buffer is the row-major canvas of the kernel |
| Collector.MergeSucceeds | rust/backend/src/server.rs:213-216 | merging any sub-multiset of the cursor's tiles never indexes out of range |
| Collector.CanvasIndex | rust/backend/src/server.rs:213-216 | with all tiles delivered, buffer entry i equals canvas entry i |
| Collector.CanvasPixel | rust/backend/src/server.rs:213-216 | with all tiles delivered, pixel (x, y) has the kernel's colour |
| Collector.DeliveredCanvas | rust/backend/src/server.rs:204-235 | when no send failed, the messages the workers sent merge into the full canvas |
| Collector.TilesOnce | common/src/image_tile.rs:88-91 | the cursor never hands out the same tile twice |
| Collector.LostTilesStayBlack | rust/backend/src/server.rs:204-216 | a pixel of a tile whose send failed stays `Color::default()` |
| Collector.CountDistinct | common/src/image_tile.rs:88-91 | tiles with consecutive indices occur at most once each |
| Collector.LostInCanvas | common/src/image_tile.rs:66-100 | a lost tile lies inside the canvas |
| Collector.PointElsewhere | rust/backend/src/server.rs:213-216 | no delivered point writes a pixel of a lost tile |
| Collector.NotDelivered | common/src/image_tile.rs:66-100 | a delivered tile never covers a pixel of a lost tile |
| Collector.MergePoints | rust/backend/src/server.rs:213-216 | the in-place loop over one message's points leaves the array equal to `Overlay` of its old contents, or reports the out-of-range panic exactly when `Overlay` fails |
| Collector.MergeNext | rust/backend/src/server.rs:210-216 | merging one more message continues from the buffer so far |
| Collector.MergeFails | rust/backend/src/server.rs:214-215 | a panic on one message is a panic of the whole collector |
| Collector.Forward | rust/backend/src/server.rs:228-233 | a tile is forwarded, or its send error is only logged (EventLogShape) |
| Collector.EventLogShape | rust/backend/src/server.rs:210-235 | each message is merged and then forwarded (or its send error only logged); nothing in the loop saves the image |
| Collector.ServerCollector | rust/backend/src/server.rs:200-250 | the collector panics exactly when a point is out of range; otherwise the buffer is the merge of every message in channel order, and the events are the per-message log followed by one save of that buffer |
| Collector.ReceiveTiles | rust/brownbag/src/multithreaded_mpsc.rs:83-103 | the receiver thread returns the merge of every message into a black buffer, or panics exactly on an out-of-range point |
| Collector.WaitForReceiverThread | rust/brownbag/src/multithreaded_mpsc.rs:58-70 | a crashed receiver gives an empty vector; otherwise its buffer |
| Server.FirstMessage | rust/backend/src/server.rs:147-263 | panics exactly when the stream is closed (`unwrap`), on a receive error, or on a close message while info logging is on (its log line unwraps a text the message does not have); a render starts exactly when the first message is text that parses as a request |
| Server.HandleRequestCrossbeamTiles | rust/backend/src/server.rs:143-264 | panics exactly when `FirstMessage` does; once a render starts, the last event is the one save, and it saves the full row-major canvas when the compute task succeeds with workers, and otherwise the black buffer |
| BrownbagMpsc.TilingAsWritten | rust/brownbag/src/multithreaded_mpsc.rs:22-25 | the cursor as written has one-column tiles and 50 tile rows, and a zero width panics |
| BrownbagMpsc.ShortCanvasNeverEnds | rust/brownbag/src/multithreaded_mpsc.rs:23 | with 1 to 49 rows the cursor as written yields a tile after any number of steps |
| BrownbagMpsc.YTilesFor | rust/brownbag/src/multithreaded_mpsc.rs:23 | the corrected tile-row count lies between 1 and 50 and never exceeds a non-zero height |
| BrownbagMpsc.Tiling | rust/brownbag/src/multithreaded_mpsc.rs:22-25 | the corrected cursor: one-column tiles, at most one tile row per row |
| BrownbagMpsc.TilingRunsDry | rust/brownbag/src/multithreaded_mpsc.rs:25 | the corrected cursor runs dry for every width > 0 |
| BrownbagMpsc.MultiThreadedMpsc | rust/brownbag/src/multithreaded_mpsc.rs:12-56 | with the corrected tile-row count `YTilesFor`: panics exactly on width 0; otherwise the image is the row-major canvas (with workers) or black (without), and the file written is the PPM of that image. As written, heights 1–49 never end (ShortCanvasNeverEnds) |
| RowClaim.RowCounter.constructor | rust/common/src/fractal_calculation.rs:165-168 | the counter starts at row 0 |
| RowClaim.RowCounter.Unclaimed | rust/common/src/fractal_calculation.rs:188 | the guard holds exactly while rows remain |
| RowClaim.RowCounter.Claim | rust/common/src/fractal_calculation.rs:189-195 | a claim hands out the current row and advances by one while rows remain; otherwise nothing changes |
| RowClaim.GuardStep | rust/common/src/fractal_calculation.rs:188 | a worker at the guard goes on to claim while rows remain, else finishes; the row invariant holds and the potential drops |
| RowClaim.ClaimStep | rust/common/src/fractal_calculation.rs:188-195 | one guarded claim by one worker keeps the row invariant; the counter advances by one, or it is at the height and the worker moves toward its end |
| RowClaim.CopyStep | rust/common/src/fractal_calculation.rs:215-225 | the copy writes the kernel's row into the buffer at its place and nothing else; the row invariant holds and the potential drops |
| RowClaim.Splice | rust/common/src/fractal_calculation.rs:215-225 | copying a row keeps the buffer's length |
| RowClaim.ComputeRow | rust/common/src/fractal_calculation.rs:199-213 | the thread's row buffer holds the kernel's colours of that row |
| RowClaim.WriteRow | rust/common/src/fractal_calculation.rs:215-225 | the in-place copy leaves the buffer equal to the spliced row |
| RowClaim.SpliceCompletes | rust/common/src/fractal_calculation.rs:215-225 | after a copy the row is finished |
| RowClaim.SpliceKeepsRow | rust/common/src/fractal_calculation.rs:217-218 | copying one row leaves every other row unchanged |
| RowClaim.RowsApart | rust/common/src/fractal_calculation.rs:218 | two distinct rows occupy disjoint index ranges |
| RowClaim.RowsDonePrefix | rust/common/src/fractal_calculation.rs:161-228 | when the first k rows are finished, the first k * width entries are the row-major canvas of k rows |
| RowClaim.SumAtMostOnes | rust/common/src/fractal_calculation.rs:186-198 | at most one stale rewrite per worker adds at most one row per worker |
| RowClaim.RowInvInit | rust/common/src/fractal_calculation.rs:161-186 | the row invariant holds at the start: counter 0, nothing claimed |
| RowClaim.RowInvDone | rust/common/src/fractal_calculation.rs:243-256 | once all workers end, the counter is at the height, the buffer is the row-major canvas, and the rows processed are the height plus the stale rewrites, at most one per worker |
| RowClaim.RunRowWorkers | rust/common/src/fractal_calculation.rs:170-252 | for every interleaving, with at least one worker, rows 0..height-1 are each claimed once in order, the buffer is the row-major canvas, and the rows processed total between the height and the height plus the worker count |
| RowClaim.RowPalette | rust/common/src/fractal_calculation.rs:171-175 | 16 colours take "wild.map", 256 take "neon.map" (a missing key panics), any other count panics |
| RowClaim.CalcMultiThreaded | rust/common/src/fractal_calculation.rs:116-286 | panics exactly when `read_palette()` does on the palette directory (with or without workers) or, with workers, the palette choice does; otherwise the image is the row-major canvas with workers, or black without |
| RowClaim.BrownbagMultiThreaded | rust/brownbag/src/multithreaded.rs:8-92 | the image is the row-major canvas with workers and black without; rows processed lie between the height and the height plus the worker count; the file written is the PPM of the image |
| SingleThreaded.FillRowMajor | rust/common/src/fractal_calculation.rs:60-82 | the nested loops push exactly the row-major canvas |
| SingleThreaded.CalcSingleThreaded | rust/common/src/fractal_calculation_single.rs:52-106 | panics exactly on an unsupported colour count; otherwise the image is the row-major canvas under the chosen palette |
| SingleThreaded.BrownbagSingleThreaded | rust/brownbag/src/singlethreaded.rs:6-41 | the image is the row-major canvas, the pixels are written once each, in index order, and the file written is the PPM of the image |
| SingleThreaded.FillRow | rust/brownbag/src/singlethreaded.rs:13-19 | one pass of the inner loop appends that row's colours after the rows already written |
| SingleThreaded.ColorAll | rust/common/src/fractal_calculation.rs:478-492 | every pixel gets the kernel's colour of its own coordinates, and its coordinates are kept |
| SingleThreaded.CalcRayon | rust/common/src/fractal_calculation.rs:418-526 | panics exactly on an unsupported colour count; otherwise the image is the row-major canvas under the chosen palette |
| RasterWalk.NewImage | rust/common/src/utils.rs:51 | a new image buffer is width × height and black |
| RasterWalk.PutAll | rust/common/src/utils.rs:53-62 | the walk succeeds exactly when the pixels fit the image; pixel k is put at (k % width, k / width) |
| RasterWalk.WrapsAtWidth | rust/common/src/utils.rs:58-61 | the column wraps exactly when it reaches the width |
| RasterWalk.PutPixel | rust/common/src/utils.rs:56 | putting the next pixel extends the image's row-major prefix by it |
| RasterWalk.SavePng | rust/common/src/utils.rs:39-62 | panics exactly when there are more pixels than the image holds; otherwise the image holds the pixels in row-major order |
| RasterWalk.RasterPositions | backend/src/utils.rs:17-26 | different pixel numbers go to different positions, and position (x, y) receives pixel y * width + x |
| Ppm.PpmWrites | rust/brownbag/src/utils.rs:6-40 | the file: the header, then each of the first width * height pixels as a triple, with a newline after every fifth (ReadWritten) |
| Ppm.ReadPpm | rust/brownbag/src/utils.rs:6-40 | a reader for the P3 format written here, the inverse of `PpmWrites` (ReadWritten) |
| Ppm.TripleShape | rust/brownbag/src/utils.rs:22-29 | a pixel's text is at most 12 characters and has no newline |
| Ppm.WriteToPpm | rust/brownbag/src/utils.rs:6-40 | panics exactly when the pixel vector is shorter than width * height; otherwise the writes are the header, then each pixel's triple with a newline after every fifth |
| Ppm.WriteFlat | rust/brownbag/src/utils.rs:17-39 | the loop emits the cells of the first width * height items, or fails exactly when there are fewer items |
| Ppm.WriteRow | rust/brownbag/src/utils.rs:18-38 | one pass of the inner loop emits the next `width` cells |
| Ppm.WriteRowsToPpm | rust/brownbag/src/created_by_ai_assistant_mpsc.rs:88-120 | panics exactly when the rows do not cover the canvas; otherwise the writes are those of the row-major canvas the rows hold |
| Ppm.WriteRows | rust/brownbag/src/created_by_ai_assistant_mpsc.rs:99-119 | the row-vector loop emits the same cells as the flat writer would |
| Ppm.WriteLaidOutRow | rust/brownbag/src/created_by_ai_assistant_mpsc.rs:100-118 | one row of the row-vector writer emits the next `width` cells |
| Ppm.LayoutRow | rust/brownbag/src/created_by_ai_assistant_mpsc.rs:101 | row y occupies indices y * width .. (y + 1) * width of the canvas |
| Ppm.WriteGridRow | rust/brownbag/src/created_by_ai_assistant_mpsc.rs:100-118 | the cells of one row come from that row of the grid |
| Ppm.PpmTextParts | rust/brownbag/src/utils.rs:10-39 | the file text is the header followed by the body |
| Ppm.CellText | rust/brownbag/src/utils.rs:22-37 | one cell is "r g b " followed by a newline after every fifth pixel |
| Ppm.SplitBody | rust/brownbag/src/utils.rs:17-39 | the body splits into the r, g, b tokens of every pixel, in order |
| Ppm.SplitHeader | rust/brownbag/src/utils.rs:10-15 | the header splits into "P3", width, height, "255" |
| Ppm.HeaderTokens | rust/brownbag/src/utils.rs:10-15 | the header's tokens come before the body's |
| Ppm.FileTokens | rust/brownbag/src/utils.rs:6-40 | the whole file splits into the header tokens followed by the pixels' tokens |
| Ppm.TokensLength | rust/brownbag/src/utils.rs:22-29 | n pixels give 3n tokens |
| Ppm.DecodeTokens | rust/brownbag/src/utils.rs:22-29 | the pixel tokens decode back to the pixels |
| Ppm.DecodePrinted | rust/brownbag/src/utils.rs:23-27 | a printed colour parses back to itself |
| Ppm.ParseWritten | rust/brownbag/src/utils.rs:12 | a printed dimension parses back to itself |
| Ppm.ReadFromTokens | rust/brownbag/src/utils.rs:10-15 | a text whose tokens are a P3 header followed by width * height decodable triples reads as that image |
| Ppm.ReadWritten | rust/brownbag/src/utils.rs:6-40 | a PPM reader gives back exactly the image written: its size and its first width * height pixels |
| Ppm.BodyLines | rust/brownbag/src/utils.rs:32-37 | no line of the body is longer than 60 characters, within the 70 the comment asks for, and the last line has at most 12 characters per pixel since the last break |
| Ppm.LinesEmitted | rust/brownbag/src/utils.rs:32-37 | the same bound for any emitted run of cells |
| Ppm.LinesAfterCell | rust/brownbag/src/utils.rs:33-37 | one more cell keeps the line bound |
| Ppm.AppendLine | rust/brownbag/src/utils.rs:20-30 | text without a newline lengthens the current line by its length |
| Ppm.NewLine | rust/brownbag/src/utils.rs:34-36 | a newline resets the current line |
| Ppm.ConcatAppend | rust/brownbag/src/utils.rs:17-39 | the text of two runs of writes is the texts joined |
| Ppm.SplitEmitted | rust/brownbag/src/utils.rs:17-39 | a run of cells splits into their tokens, in order |
| Ppm.SplitJoin | rust/brownbag/src/utils.rs:17-39 | texts ending in whitespace split independently |
| Ppm.SplitCell | rust/brownbag/src/utils.rs:22-37 | one cell splits into its three channel tokens |
| Ppm.WordsCell | rust/brownbag/src/utils.rs:23 | "r g b " (with or without a newline) splits into r, g, b |
| Ppm.BlankAppend | rust/brownbag/src/utils.rs:17-39 | text ending in whitespace stays so after more such text |
| Ppm.SplitLead | rust/brownbag/src/utils.rs:10-14 | a token followed by whitespace splits off first |
| AiMpsc.MandelbrotColor | rust/brownbag/src/created_by_ai_assistant_mpsc.rs:25-33 | black at the limit, otherwise (2ct, 3ct, 5ct) each cast to u8 (BlackIff, ColorPeriod) |
| AiMpsc.AiPixel | rust/brownbag/src/created_by_ai_assistant_mpsc.rs:18-34 | a pixel's colour is `mandelbrot_set` of its escape count (MandelbrotSet) |
| AiMpsc.EscapeCount | rust/brownbag/src/created_by_ai_assistant_mpsc.rs:21-24 | the count lies within the limit, every earlier iterate is bounded, and one below the limit is the first unbounded iterate |
| AiMpsc.EscapeUnique | rust/brownbag/src/created_by_ai_assistant_mpsc.rs:21-24 | any count with those properties is the escape count |
| AiMpsc.CountIterations | rust/brownbag/src/created_by_ai_assistant_mpsc.rs:19-24 | the `while` loop stops at the first unbounded iterate or at the limit |
| AiMpsc.BlackIff | rust/brownbag/src/created_by_ai_assistant_mpsc.rs:25-33 | a pixel is black exactly when the count reached the limit or is a multiple of 256 (the `as u8` casts wrap) |
| AiMpsc.ColorPeriod | rust/brownbag/src/created_by_ai_assistant_mpsc.rs:28-32 | below the limit, counts 256 apart get the same colour |
| AiMpsc.MandelbrotSet | rust/brownbag/src/created_by_ai_assistant_mpsc.rs:18-34 | `mandelbrot_set` is the colour of the escape count |
| AiMpsc.Worker | rust/brownbag/src/created_by_ai_assistant_mpsc.rs:36-52 | a worker sends its row number with that row's colours |
| AiMpsc.BlackRows | rust/brownbag/src/created_by_ai_assistant_mpsc.rs:73 | the grid starts as `height` black rows of `width` |
| AiMpsc.Store | rust/brownbag/src/created_by_ai_assistant_mpsc.rs:75-78 | storing a message succeeds exactly when its row exists and fits; it overwrites that row's prefix and nothing else |
| AiMpsc.StoreRow | rust/brownbag/src/created_by_ai_assistant_mpsc.rs:76-78 | the `enumerate` loop performs `Store` |
| AiMpsc.Collect | rust/brownbag/src/created_by_ai_assistant_mpsc.rs:73-79 | `height` receives store each message in arrival order, and the collector panics exactly when one store fails |
| AiMpsc.DeliveredFails | rust/brownbag/src/created_by_ai_assistant_mpsc.rs:74-79 | a failed store fails the whole collection |
| AiMpsc.Rows | rust/brownbag/src/created_by_ai_assistant_mpsc.rs:68 | `0..height` lists the rows 0 to height - 1 in order |
| AiMpsc.Messages | rust/brownbag/src/created_by_ai_assistant_mpsc.rs:68-71 | the messages in arrival order are each row's number with its colours |
| AiMpsc.DeliveredPrefix | rust/brownbag/src/created_by_ai_assistant_mpsc.rs:73-79 | after any arrivals, each delivered row holds its colours and the rest are black |
| AiMpsc.CanvasRows | rust/brownbag/src/created_by_ai_assistant_mpsc.rs:68-79 | the finished grid has each row's colours |
| AiMpsc.AllRowsDelivered | rust/brownbag/src/created_by_ai_assistant_mpsc.rs:68-79 | whatever order the rows arrive in, the grid ends as the full canvas |
| AiMpsc.CreatedByAiUsingMpsc | rust/brownbag/src/created_by_ai_assistant_mpsc.rs:54-86 | for every arrival order, the file written is the PPM of the row-major canvas |
| AiMpsc.GridAgrees | rust/brownbag/src/created_by_ai_assistant_mpsc.rs:99-107 | reading the grid as `img[y][x]` gives the row-major canvas |
| Palette.LineColor | rust/common/src/palette.rs:22-54 | one line's tokens give a skip, a clamped colour, or the panic of a failed `unwrap` (SkipIff, PanicIff) |
| Palette.MapColors | rust/common/src/palette.rs:20-57 | a file's colours in line order, or the first panic (MapColorsAppend, MapColorsFail) |
| Palette.Palettes | rust/common/src/palette.rs:7-62 | the ".MAP" entries' colours under their lower-cased names, or the first panic (PalettesKeys, PalettesLast) |
| Palette.Channel | rust/common/src/palette.rs:30-31 | a channel is the first three characters parsed as u16 |
| Palette.Clamp | rust/common/src/palette.rs:43-45 | values above 255 become 255; others are kept |
| Palette.ParseLine | rust/common/src/palette.rs:22-54 | one line gives the colour, the skip or the panic of `LineColor` on its tokens |
| Palette.FirstChannelParses | rust/common/src/palette.rs:27-31 | once the first token is a u8, its three-character prefix parses as u16 |
| Palette.SkipIff | rust/common/src/palette.rs:24-29 | a line is skipped exactly when it has no tokens or its first token is not a u8 |
| Palette.PanicIff | rust/common/src/palette.rs:29-41 | after a u8 first token, the line panics exactly when g or b is missing or does not parse; otherwise r is the clamped first channel |
| Palette.LeadingZeroCutsR | rust/common/src/palette.rs:27-31 | "0255" passes as a u8 but is cut to "025", and "300" is clamped to 255 |
| Palette.MapColorsAppend | rust/common/src/palette.rs:21-57 | the colours of two runs of lines are the runs' colours joined, and either run's panic is the whole file's |
| Palette.MapColorsFail | rust/common/src/palette.rs:21-57 | the first panicking line decides the file's panic |
| Palette.MapColorsBound | rust/common/src/palette.rs:21-57 | at most one colour per line |
| Palette.ParseMapFile | rust/common/src/palette.rs:20-57 | the file loop gives the colours of its lines in order, or the first panic |
| Palette.ReadPalette | rust/common/src/palette.rs:7-62 | the directory loop gives `Palettes` of the entries, or the first panic |
| Palette.PalettesFail | rust/common/src/palette.rs:13-60 | a panic on one entry is a panic of the whole read |
| Palette.PalettesKeys | rust/common/src/palette.rs:19-58 | the keys are exactly the lower-cased names of the ".MAP" entries |
| Palette.PalettesLast | rust/common/src/palette.rs:58 | a name's palette is that of the last ".MAP" entry with that name |
| Palette.WildKey | rust/common/src/palette.rs:58 | "WILD.MAP" is stored under "wild.map" |
| Text.TokenLength | rust/common/src/palette.rs:22 | the first token is a maximal run of non-whitespace |
| Text.Split | rust/common/src/palette.rs:22 | `split_whitespace` gives non-empty tokens without whitespace |
| Text.TokenLengthAppend | rust/common/src/palette.rs:22 | a token that ends inside a text is not lengthened by what follows |
| Text.TokenLengthWhole | rust/common/src/palette.rs:22 | a whitespace-free text followed by whitespace is one whole token |
| Text.SplitAppend | rust/common/src/palette.rs:22 | text ending in whitespace splits independently of what follows |
| Text.SplitToken | rust/common/src/palette.rs:22 | a token followed by whitespace splits to itself |
| Text.NatToString | rust/brownbag/src/utils.rs:12 | printing gives non-empty digits, one digit exactly below 10 |
| Text.DigitsOfNat | rust/brownbag/src/utils.rs:23 | printed digits have the number's value |
| Text.DigitsBound | rust/common/src/palette.rs:30-31 | n digits are worth less than 10^n |
| Text.ShortDigitsBound | rust/common/src/palette.rs:30-31 | three digits never overflow u16 |
| Text.ByteDigits | rust/brownbag/src/utils.rs:23 | a byte prints in at most three digits |
| Text.ParseDigits | rust/common/src/palette.rs:27 | digit strings, and only they, parse to their value |
| Text.ParseUnsigned | rust/common/src/palette.rs:27-31 | an unsigned parse stays below the type's bound, and without a '+' succeeds exactly on digits that fit |
| Text.ParsePrinted | rust/common/src/palette.rs:27 | a printed number below the bound parses back |
| Text.Take | rust/common/src/palette.rs:30 | `chars().take(n)` is the prefix of length min(n, len) |
| Text.ContainsAt | rust/common/src/palette.rs:19 | an occurrence at any position makes `contains` true |
| Text.ToLower | rust/common/src/palette.rs:58 | lower-casing keeps the length and maps exactly the ASCII capitals |
| Text.LineEnd | rust/common/src/palette.rs:21 | a line ends at the first newline |
| Text.Lines | rust/common/src/palette.rs:21 | `lines()` gives lines without newlines |
| Rational.Reduce | rust/common/src/rational/rational_numbers.rs:59-65 | the closing step of every operator: both parts divided by their `gcd`; dividing by a gcd of 0 panics (properties in ReduceSpec) |
| Rational.Add | rust/common/src/rational/rational_numbers.rs:53-67 | the sum n₁d₂ + d₁n₂ over d₁d₂, reduced (exactness in AddSubMulExact) |
| Rational.Sub | rust/common/src/rational/rational_numbers.rs:111-125 | the difference n₁d₂ − d₁n₂ over d₁d₂, reduced (exactness in AddSubMulExact) |
| Rational.Mul | rust/common/src/rational/rational_numbers.rs:69-82 | the product n₁n₂ over d₁d₂, reduced (exactness in AddSubMulExact) |
| Rational.Div | rust/common/src/rational/rational_numbers.rs:208-221 | n₁d₂ over d₁n₂, reduced (cases in DivCases) |
| Rational.Powi | rust/common/src/rational/rational_numbers.rs:238-249 | numⁿ over denomⁿ, reduced (PowiExact) |
| Rational.Eq | rust/common/src/rational/rational_numbers.rs:13-30 | both operands reduced, then compared part by part (EqSound, EqComplete) |
| Rational.PartialCmp | rust/common/src/rational/rational_numbers.rs:32-51 | both operands reduced, then the right one's num² + denom² compared with the left one's (CmpAntisymmetric, LtIff) |
| Rational.TruncRem | rust/common/src/rational/rational_numbers.rs:87 | i128 `%` truncates: a = b * q + r with \|r\| < \|b\| and r signed like a |
| Rational.TruncSplit | rust/common/src/rational/rational_numbers.rs:87 | the remainder left by truncating division is smaller than the divisor and signed like the dividend |
| Rational.SplitUnique | rust/common/src/rational/rational_numbers.rs:87 | two splits of a by b with such remainders have the same remainder |
| Rational.TruncUnique | rust/common/src/rational/rational_numbers.rs:87 | that split is unique |
| Rational.ExactDiv | rust/common/src/rational/rational_numbers.rs:63-64 | dividing an exact multiple gives the cofactor |
| Rational.Gcd | rust/common/src/rational/rational_numbers.rs:84-93 | the remainder loop computes `GcdSpec` |
| Rational.GcdStep | rust/common/src/rational/rational_numbers.rs:86-90 | one loop step keeps the gcd |
| Rational.GcdDivides | rust/common/src/rational/rational_numbers.rs:84-93 | the result divides both arguments |
| Rational.GcdGreatest | rust/common/src/rational/rational_numbers.rs:84-93 | every common divisor divides the result |
| Rational.GcdZero | rust/common/src/rational/rational_numbers.rs:84-93 | the result is 0 exactly for gcd(0, 0), so only 0/0 reductions divide by zero |
| Rational.ReduceSpec | rust/common/src/rational/rational_numbers.rs:59-65 | reduction panics exactly on 0/0; otherwise it keeps the value, keeps a zero denominator zero, and divides both parts by the gcd |
| Rational.ReducedLowest | rust/common/src/rational/rational_numbers.rs:59-65 | a reduced fraction's parts have no common factor but ±1 |
| Rational.Reduces | rust/common/src/rational/rational_numbers.rs:59-65 | the reduction is the parts divided by their gcd |
| Rational.AddSubMulExact | rust/common/src/rational/rational_numbers.rs:53-176 | on fractions with non-zero denominators, +, - and * never panic and give the exact sum, difference and product |
| Rational.DivCases | rust/common/src/rational/rational_numbers.rs:208-221 | division by non-zero is exact; 0 / 0 panics; x / 0 with x ≠ 0 gives a zero denominator |
| Rational.PowiExact | rust/common/src/rational/rational_numbers.rs:238-249 | `powi` gives num^n / denom^n, reduced |
| Rational.PowiSquare | rust/common/src/rational/rational_numbers.rs:238-249 | squaring equals multiplying by itself in value |
| Rational.EquivTrans | rust/common/src/rational/rational_numbers.rs:53-176 | equality in value is transitive |
| Rational.RawCongruent | rust/common/src/rational/rational_numbers.rs:53-176 | the unreduced operations respect equality in value |
| Rational.EqSound | rust/common/src/rational/rational_numbers.rs:13-30 | `eq` panics exactly when an operand is 0/0; otherwise it is true exactly when the values are equal |
| Rational.EqComplete | rust/common/src/rational/rational_numbers.rs:13-30 | two numbers equal in value, neither 0/0, are `eq` |
| Rational.ReduceScales | rust/common/src/rational/rational_numbers.rs:59-65 | scaling both parts by a non-zero factor does not change the reduction |
| Rational.GcdScales | rust/common/src/rational/rational_numbers.rs:84-93 | the remainder loop is homogeneous: gcd(k·a, k·b) = k·gcd(a, b), sign included |
| Rational.RemScales | rust/common/src/rational/rational_numbers.rs:87 | the truncating remainder is homogeneous: (k·a) % (k·b) = k·(a % b) |
| Rational.CmpAntisymmetric | rust/common/src/rational/rational_numbers.rs:32-51 | `partial_cmp` is antisymmetric and reflexive |
| Rational.LtIff | rust/common/src/rational/rational_numbers.rs:42 | `a < b` holds exactly when b's reduced num² + denom² is below a's, which is not the order of the values |
| Rational.WholeReduced | rust/common/src/rational/rational_numbers.rs:59-65 | whole numbers n/1 are already reduced |
| Rational.GcdTable | rust/common/src/rational/rational_numbers.rs:313-322 | the gcd test values, and the gcds inside the add tests |
| Rational.GcdTableMul | rust/common/src/rational/rational_numbers.rs:369-440 | the gcds inside the mul and powi tests |
| Rational.ArithmeticTests | rust/common/src/rational/rational_numbers.rs:313-440 | the gcd, add, mul, div and powi unit tests |
| Rational.ReducedTable | rust/common/src/rational/rational_numbers.rs:442-532 | the reductions behind the eq and ord tests |
| Rational.ReducedTableMore | rust/common/src/rational/rational_numbers.rs:464-532 | more reductions behind the ord tests |
| Rational.EqTests | rust/common/src/rational/rational_numbers.rs:442-532 | the eq unit tests |
| Rational.OrderTests | rust/common/src/rational/rational_numbers.rs:464-532 | the ord unit tests, including one that holds only under the sum-of-squares order |
| ComplexRational.Add | rust/common/src/rational/complex_rational_numbers.rs:14-34 | the rational sums of the real parts and of the imaginary parts (AddExact) |
| ComplexRational.Pow2 | rust/common/src/rational/complex_rational_numbers.rs:37-44 | a.powi(2) − b.powi(2) and a·b·(2/1) (Pow2Exact) |
| ComplexRational.LengthSquared | rust/common/src/rational/complex_rational_numbers.rs:46-48 | a.powi(2) + b.powi(2) (LengthSquaredExact) |
| ComplexRational.Eq | rust/common/src/rational/complex_rational_numbers.rs:8 | the derived `==`: real parts first, imaginary parts only when those are equal (EqSound) |
| ComplexRational.PartialCmp | rust/common/src/rational/complex_rational_numbers.rs:8 | the derived `partial_cmp`: lexicographic, real part first, under the rational `partial_cmp` (OrderInherited) |
| ComplexRational.AddExact | rust/common/src/rational/complex_rational_numbers.rs:14-34 | addition panics exactly on a raw part sum of 0/0; on proper numbers it adds exactly |
| ComplexRational.Pow2Exact | rust/common/src/rational/complex_rational_numbers.rs:37-44 | `pow2` is (a² - b²) + 2ab i in value |
| ComplexRational.LengthSquaredExact | rust/common/src/rational/complex_rational_numbers.rs:46-48 | `length_squared` is a² + b² in value |
| ComplexRational.OriginFixed | rust/common/src/rational/complex_rational_numbers.rs:51-57 | the default 0 + 0i squares to itself, has length 0 and is fixed by addition to itself |
| ComplexRational.EqSound | rust/common/src/rational/complex_rational_numbers.rs:8 | with no part 0/0, derived equality never panics and holds exactly when both parts are equal in value |
| ComplexRational.OrderInherited | rust/common/src/rational/complex_rational_numbers.rs:8 | two instances show the derived order comparing parts lexicographically under the rational `partial_cmp`: the real parts decide, and the imaginary parts decide on a tie |
| RationalFractal.Setup | rust/common/src/rational/rational_fractal_calculation.rs:25-66 | the viewport: width over zoom, height from the aspect ratio, corners half a span either side of the centre, steps as spans over the pixel counts (SetupProper) |
| RationalFractal.PixelPoint | rust/common/src/rational/rational_fractal_calculation.rs:283-294 | c = (re_min + x_delta·x) + (img_min + y_delta·y) i (PixelPointProper) |
| RationalFractal.BelowAsWritten | rust/common/src/rational/rational_fractal_calculation.rs:302 | the guard as written: `length_squared < 4/1` under the rational `partial_cmp` (WholeBelowAsWritten, OriginNotBelow) |
| RationalFractal.BelowNumeric | rust/common/src/rational/rational_fractal_calculation.rs:302 | the guard with the numeric order, as intended (CorrectedKernel) |
| RationalFractal.Escape | rust/common/src/rational/rational_fractal_calculation.rs:298-307 | the loop's final count, or its first panic (EscapeEnds, EscapeContinues, EscapeFrom) |
| RationalFractal.KernelSpec | rust/common/src/rational/rational_fractal_calculation.rs:272-328 | `calc_fractal_color_rational`: the pixel's point, the loop from 0, the shade of the final count (KernelOf) |
| RationalFractal.PixelColor | rust/common/src/rational/rational_fractal_calculation.rs:120-133 | the colour a worker stores for a pixel: the kernel's, or the default colour on a kernel panic (RenderRows) |
| RationalFractal.SetupProper | rust/common/src/rational/rational_fractal_calculation.rs:25-66 | with proper inputs, non-zero zoom and a non-empty canvas, the viewport setup never panics and its bounds and deltas are proper |
| RationalFractal.PixelPointProper | rust/common/src/rational/rational_fractal_calculation.rs:283-294 | on a proper viewport, a pixel's point never panics and is proper |
| RationalFractal.Shade | rust/common/src/rational/rational_fractal_calculation.rs:313-327 | black once the count reached the limit; otherwise palette entry count mod length, and an empty palette panics |
| RationalFractal.CalcFractalColorRational | rust/common/src/rational/rational_fractal_calculation.rs:272-328 | the loop computes `KernelSpec` |
| RationalFractal.KernelOf | rust/common/src/rational/rational_fractal_calculation.rs:298-327 | the kernel shades by the loop's final count |
| RationalFractal.WholeBelowAsWritten | rust/common/src/rational/rational_fractal_calculation.rs:302 | as written, the guard holds for n/1 exactly when n² > 16 |
| RationalFractal.OriginNotBelow | rust/common/src/rational/rational_fractal_calculation.rs:298-302 | z = 0 has length 0/1, which the guard as written rejects and the numeric guard accepts |
| RationalFractal.AsWrittenStaysAtZero | rust/common/src/rational/rational_fractal_calculation.rs:302-307 | as written, the loop ends with count 0 for every point |
| RationalFractal.AsWrittenIgnoresOrbit | rust/common/src/rational/rational_fractal_calculation.rs:272-328 | as written, every pixel is black for a limit of 0 and palette entry 0 otherwise, whatever the point |
| RationalFractal.AsWrittenDiscrepancy | rust/common/src/rational/rational_fractal_calculation.rs:302 | as written, 0 (in the set) and 2 (escapes after one step) get the same colour |
| RationalFractal.IterateProper | rust/common/src/rational/rational_fractal_calculation.rs:303 | iterating proper numbers never panics and stays proper |
| RationalFractal.OrbitProper | rust/common/src/rational/rational_fractal_calculation.rs:298-307 | the orbit of a proper point never panics |
| RationalFractal.EscapeFrom | rust/common/src/rational/rational_fractal_calculation.rs:302-307 | with the numeric guard, the loop resumed at step k ends at the escape time |
| RationalFractal.EscapeEnds | rust/common/src/rational/rational_fractal_calculation.rs:302 | the loop stops with the current count when the guard fails or the limit is reached |
| RationalFractal.EscapeContinues | rust/common/src/rational/rational_fractal_calculation.rs:302-307 | when the guard holds below the limit, the loop continues from z² + c with the count one higher |
| RationalFractal.CountFrom | rust/common/src/rational/rational_fractal_calculation.rs:302-307 | a loop that continues while the iterate is bounded and below the limit ends with the escape count |
| RationalFractal.CountStep | rust/common/src/rational/rational_fractal_calculation.rs:302-307 | the escape count from k is k when the loop stops there, and the escape count from k + 1 otherwise |
| RationalFractal.OrbitNext | rust/common/src/rational/rational_fractal_calculation.rs:303 | the k-th iterate is the step from the (k-1)-th |
| RationalFractal.IterateAtRest | rust/common/src/rational/rational_fractal_calculation.rs:303 | a fixed point of z² + c stays fixed under any number of steps |
| RationalFractal.GoesOnEverywhere | rust/common/src/rational/rational_fractal_calculation.rs:302-307 | an iterate inside the disc below the limit continues the loop |
| RationalFractal.StopsEverywhere | rust/common/src/rational/rational_fractal_calculation.rs:302 | an iterate outside the disc, or the limit, stops the loop |
| RationalFractal.OrbitGoesOn | rust/common/src/rational/rational_fractal_calculation.rs:302-307 | one loop round moves from z_k to z_{k+1} |
| RationalFractal.OrbitStops | rust/common/src/rational/rational_fractal_calculation.rs:302 | the loop stops at k when z_k is outside or k is the limit |
| RationalFractal.CorrectedKernel | rust/common/src/rational/rational_fractal_calculation.rs:272-328 | with the numeric guard, the kernel is black for points whose first max iterates stay in the disc, and otherwise the palette entry at the escape time |
| RationalFractal.CorrectedDistinguishes | rust/common/src/rational/rational_fractal_calculation.rs:302 | with the numeric guard, 0 is black and 2 gets palette entry 1 |
| RationalFractal.UnitViewPoints | rust/common/src/rational/rational_fractal_calculation.rs:283-294 | the chosen viewport maps pixels (0, 0) and (2, 0) to 0 and 2 |
| RationalFractal.OriginOrbit | rust/common/src/rational/rational_fractal_calculation.rs:303 | the orbit of 0 stays at 0 |
| RationalFractal.OriginInside | rust/common/src/rational/rational_fractal_calculation.rs:302 | every iterate of 0 is inside the disc |
| RationalFractal.TwoStep | rust/common/src/rational/rational_fractal_calculation.rs:303 | 0² + 2 = 2 |
| RationalFractal.TwoLength | rust/common/src/rational/complex_rational_numbers.rs:46-48 | \|2\|² = 4/1 |
| RationalFractal.StartsInside | rust/common/src/rational/rational_fractal_calculation.rs:298 | every orbit starts at 0, inside the disc |
| RationalFractal.EscapesAtOne | rust/common/src/rational/rational_fractal_calculation.rs:302 | a point with z_1 = c and \|c\|² = 4 leaves the disc at step 1 |
| RationalFractal.EscapeTimeOne | rust/common/src/rational/rational_fractal_calculation.rs:302-307 | such a point has escape time 1 |
| RationalFractal.OriginPixel | rust/common/src/rational/rational_fractal_calculation.rs:313-318 | with the numeric guard, a pixel at 0 is black |
| RationalFractal.TwoPixel | rust/common/src/rational/rational_fractal_calculation.rs:319-326 | with the numeric guard, a pixel of escape time 1 gets palette entry 1 |
| RationalFractal.RationalPalette | rust/common/src/rational/rational_fractal_calculation.rs:83-87 | both 16 and 256 colours take "wild.map" (a missing key panics); any other count panics |
| RationalFractal.CalcMultiThreadedRational | rust/common/src/rational/rational_fractal_calculation.rs:15-207 | panics exactly when the viewport setup or `read_palette()` on the palette directory does (with or without workers) or, with workers, the palette choice does; otherwise the image is the requested size and, with workers, every pixel is the kernel's colour in row-major order |
| RationalFractal.RenderRows | rust/common/src/rational/rational_fractal_calculation.rs:73-198 | the workers leave the row-major canvas with workers, and the default buffer without |
| RationalFractal.AllBlank | rust/common/src/rational/rational_fractal_calculation.rs:73 | the fresh buffer is the blank canvas |

## Left out

- The f64 kernels (`calc_fractal_color`, `calc_color` and the `num_complex` orbit) are outside the model. The row-major renderers take the per-pixel colour function as a parameter. AiMpsc takes the orbit's "still bounded" test as a parameter.
- Floating-point viewport setup (`complex_width / zoom`, `x_delta` and so on) in the f64 renderers is not modelled, because it only feeds the kernel.
- The `From<f64>` conversions between rationals and f64 (rust/common/src/rational/rational_numbers.rs:251-286) are not modelled, because they are floating-point formatting.
- Real threads, mutexes and channels are modelled as an explicit interleaving (`schedule`) of worker steps and an arrival order of messages. Fairness and blocking are not modelled.
- Timing, logging, `print_debug`, `println!` and join-time messages are left out. Only the values they report (tile and row counts) are kept.
- `num_cpus::get()` is a parameter (`cores`).
- File and image I/O are left out:
  - `File::create`, `write`, `image.save`, `create_dir_all` and the file names built from the clock;
  - the `expect`s on failed writes.

  Writes are modelled as the sequence of texts written, and the image as the buffer handed to `save`.
- Palette I/O is left out: `read_dir`, `DirEntry` access and `file_name().to_str()` are not modelled, and neither are their `unwrap` panics. Each entry's path, file name and contents are given; a `read_to_string` failure is an entry without contents, which panics as the source's `unwrap` does.
- The palette tables `color16()` and `color256()` are parameters, because rust/common/src/color.rs is not part of this model.
- JSON decoding of the WebSocket request is a parameter `Parser`, and serialising tiles for the socket is not modelled.
- `warp`'s WebSocket types are reduced to text, close and other messages.
- rust/brownbag/src/tile.rs is not part of this model. Its `CanvasTile::next` is taken to be the one in common/src/image_tile.rs.
- i128, u32 and usize overflow is not modelled: integers are unbounded. The `as u8` casts in the assistant-written renderer are modelled as wrapping (mod 256).
- Non-ASCII `to_lowercase` is out of scope: `Text.ToLower` maps only ASCII capitals.
- ImageTile.Tiles requires non-zero tile counts. The division by zero is modelled one level up, in `TileWorker.CalcMultiThreadedCrossbeamTiles` and `BrownbagMpsc.TilingAsWritten`.
- TileWorker.RunTileWorkers and TileWorker.CalcMultiThreadedCrossbeamTiles require a cursor that runs dry. With tile counts larger than the canvas the source's workers loop forever, which ImageTile.TooManyTilesNeverEnds states on its own.
- Server.HandleRequestCrossbeamTiles requires the request's tile counts to let the cursor run dry (ImageTile.TilesRunDry says when). Otherwise the source's workers never stop, and the model does not describe a handler that never returns.
- AiMpsc.Collect requires exactly `height` arrivals, because a blocking `recv` without a matching sender is not modelled.
- AiMpsc.CreatedByAiUsingMpsc requires the arrival order to be a permutation of the rows, which it is with one thread per row.
- RationalFractal.PixelColor stands in a kernel panic by a black pixel. In the source that panic ends the worker thread before it copies the row, so that whole row stays black while the model colours the rest of it; the later rows are claimed by other workers and stay black only if every worker has died. This only happens with an empty palette or improper rationals.
- BrownbagMpsc.MultiThreadedMpsc runs the corrected cursor `Tiling` (tile rows `YTilesFor(height)`), not the fixed `y_tiles = 50` of the source. As written, a canvas of 1 to 49 rows never finishes (BrownbagMpsc.ShortCanvasNeverEnds), so there is no image to describe for those heights. For height 0 and from 50 rows on, `YTilesFor` is 50 and the model runs the source's own cursor.
- Ppm.WriteToPpm: a panic discards the writes made before it. The source has already written the pixels before the out-of-range one.
- RowClaim.CalcMultiThreaded and TileWorker.CalcMultiThreadedCrossbeamTiles: a worker thread that panics during its join is not modelled, because the model's kernels do not panic.

## Findings

| source | as written | input that shows it | evidently intended | confidence | as-written member | corrected member |
|---|---|---|---|---|---|---|
| rust/common/src/rational/rational_fractal_calculation.rs:302 | the loop guard `z.length_squared() < radius_4` uses `partial_cmp` (rust/common/src/rational/rational_numbers.rs:42). That compares the reduced num² + denom² of the right operand against the left, not the values. On entry z = 0 has length 0/1, and 0/1 "<" 4/1 is false, so the loop never runs. Every pixel gets palette entry 0 (black when the limit is 0). | any viewport with a limit ≥ 2 and ≥ 2 colours, e.g. the pixels at c = 0 and c = 2: both get colour 0 | the orbit runs while \|z\|² < 4 in value; 0 is black and 2 gets colour 1 | not executed | RationalFractal.AsWrittenDiscrepancy | RationalFractal.CorrectedDistinguishes |
| rust/brownbag/src/multithreaded_mpsc.rs:23 | `y_tiles = 50` is fixed, so a canvas with 1 to 49 rows gets `y_inc = height / 50 = 0`. `next` then never moves y, and the workers never stop. | width ≥ 1, height = 10 | no more tile rows than pixel rows | not executed | BrownbagMpsc.ShortCanvasNeverEnds | BrownbagMpsc.TilingRunsDry |
