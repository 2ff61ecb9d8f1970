# Synthetic grid data for binary polygon attributes — a Dafny model

This project models the data pipeline of a small deck.gl demo that
animates extruded polygons. At startup the demo generates five frames of
synthetic grid data and packs each frame in two ways. The first is an array of
cell records, each with a contour, an RGBA colour and an elevation. The second
is a structure-of-arrays layout: flat position, colour and elevation buffers
plus per-polygon start offsets. A timer then cycles through the frames once a
second.

The model has four modules, plus `Arith` (`arith.dfy`), which holds the
facts about multiplication, division and remainder that they share:

- `Grid` (`grid.dfy`): `getRandomData`. Nested loops over `x` and `y`, each
  in steps of `cellSize` while the value is below `gridSize`, push one cell
  per position. A cell has the closed contour
  (x,y) (x,y+c) (x+c,y+c) (x+c,y) (x,y), the colour [r, g, b, 150] and an
  elevation. The random values are a parameter: `draws` is the sequence that
  `Math.floor(Math.random() * 256)` would have produced, consumed in
  evaluation order (red, green, blue, elevation). Cell k therefore uses
  `draws[4k .. 4k+3]`.
- `Packer` (`packer.dfy`): the packing body of `getGrids`. The `flatMap`/`map`
  expressions become recursive functions (`Polygons`, `RawColors`,
  `RawElevations`). The Uint8Array conversion is written out as `ToUint8`.
  The `startIndices` loop is the method `ComputeStartIndices`. `Encode` is the
  specification of the whole step, and `Pack` is the step as the code runs it.
  `Decode` is its partner: it slices the buffers at `startIndices` the way the
  renderer reads them.
- `Frames` (`frames.dfy`): `getGrids` itself. It generates and packs five
  default-size frames (512 / 2) from one shared random stream.
- `Player` (`player.dfy`): the frame-advance step of `playAnimation`. A
  callback at `time` advances the frame index (wrapping to 0 after the last
  frame) only when `time - lastTime > 1000`. It then sets `lastTime` to
  `time`. `Animation` is the mutable object; `Step`, `Run` and `Advance` are its
  pure specification.

Two consequences of the code that the model keeps:

- The loops run while `x < gridSize` and `y < gridSize`, so each axis has
  ⌈gridSize/cellSize⌉ cells. When `cellSize` does not divide `gridSize`, the
  last row and column stick out past `gridSize` by less than one cell
  (`Grid.CellsPerAxis`, `Grid.CornerInRange`).
- `startIndices` count vertices, not floats: the loop runs to
  `polygons.length / 2` in steps of 5.

## Model

| member | source | states |
|---|---|---|
| Grid.CellsPerAxis | src/App.jsx:24-25 | the number of loop iterations per axis is the least n with n·cellSize ≥ gridSize (so ⌈gridSize/cellSize⌉, and 0 for gridSize ≤ 0) |
| Grid.AxisGuard | src/App.jsx:24-25 | the i-th value of a loop variable, i·cellSize, passes the guard `< gridSize` exactly when i < CellsPerAxis |
| Grid.DefaultCellCount | src/App.jsx:22-25 | with the defaults 512 / 2 there are 256 cells per axis and 65536 per frame |
| Grid.MakeCell | src/App.jsx:26-41 | the pushed object literal: a five-point ring from the corner (x, y) back to it, running up the left side first (second point (x, y + cellSize)), colour [r, g, b, 150] and elevation e; MakeCellIsSquare and GridCellShape state that the ring is a square |
| Grid.MakeCellIsSquare | src/App.jsx:27-33 | the pushed contour is a closed square ring of side cellSize with lower-left corner (x, y) |
| Grid.GetRandomData | src/App.jsx:22-46 | the nested loops return CellsPerAxis² cells; cell k is the cell at x = (k / n)·cellSize, y = (k % n)·cellSize (x-major) built from draws 4k..4k+3 |
| Grid.PushedCellAt | src/App.jsx:24-41 | the cell pushed at loop position (i·cellSize, j·cellSize) is cell number i·n + j of the result |
| Grid.GridCellShape | src/App.jsx:26-41 | every cell's contour is a closed ring of 5 points around the axis-aligned square of side cellSize at its grid corner (first point = last, four distinct corners, each edge one step of cellSize along one axis), running up its left side first; its colour is [r, g, b, 150] from its draws and its elevation is its fourth draw |
| Grid.CornerInRange | src/App.jsx:24-33 | every cell corner is a multiple of cellSize in [0, gridSize) on both axes, so a far edge overshoots gridSize by less than one cell; the cells of the last row and column reach gridSize with their far edge |
| Grid.CornersDistinct | src/App.jsx:24-26 | two cells with the same corner are the same cell: the tiling does not overlap |
| Grid.CornersCover | src/App.jsx:24-26 | every grid position (i·cellSize, j·cellSize) the loops visit is the corner of cell i·n + j: the tiling has no gaps |
| Grid.RandomGridBytes | src/App.jsx:34-40 | with draws in [0, 255] every colour has 4 components, all bytes, alpha 150, and every elevation is a byte |
| Packer.ToUint8 | src/App.jsx:57-63 | the Uint8Array conversion yields the unique byte congruent to its input modulo 256, and keeps a byte unchanged |
| Packer.Uint8Array | src/App.jsx:57-63 | the converted buffer has the same length, holds only bytes, and equals its input when that already holds only bytes |
| Packer.Encode | src/App.jsx:55-78 | polygonCount is the number of cells; polygons has 2 numbers and elevations 1 byte per contour vertex; with 4-component colours, colors has 4 bytes per vertex, so the buffers align vertex for vertex |
| Packer.ComputeStartIndices | src/App.jsx:67-70 | the loop as written yields StartOffsets: exactly the offsets v ≥ 0 with v a multiple of 5 and 2·v < polygons.length, in increasing order |
| Packer.Pack | src/App.jsx:55-78 | the packing step as written produces Encode(frame) |
| Packer.Polygons | src/App.jsx:55 | the `flatMap`/`flat` expression for positions; it holds 2 numbers per contour vertex (their positions: PolygonsAt) |
| Packer.RawColors | src/App.jsx:57-59 | the `flatMap` expression for colours, before the Uint8Array conversion; with 4-component colours it holds 4 numbers per contour vertex (their positions: RawColorsAt) |
| Packer.RawElevations | src/App.jsx:61-63 | the `flatMap`/`map` expression for elevations, before the Uint8Array conversion; it holds 1 number per contour vertex (their positions: RawElevationsAt) |
| Packer.StartOffsets | src/App.jsx:67-70 | the offsets the `startIndices` loop yields for a polygons buffer: exactly the vertex numbers v ≥ 0 that are multiples of 5 with 2·v < polygons.length, strictly increasing (ComputeStartIndices is proved to produce them; StartIndicesOfUniform gives one per cell) |
| Packer.PolygonsAt | src/App.jsx:55 | for 5-vertex contours, polygons[10k + 2j] and polygons[10k + 2j + 1] are the x and y of vertex j of cell k |
| Packer.RawColorsAt | src/App.jsx:57-59 | for uniform cells, component i of cell k's colour sits at 20k + 4j + i for each of its vertices j |
| Packer.RawElevationsAt | src/App.jsx:61-63 | for uniform cells, cell k's elevation sits at 5k + j for each of its vertices j |
| Packer.EncodeLayout | src/App.jsx:55-63 | for uniform cells the packed buffers have lengths 10, 20 and 5 per cell and hold every coordinate, colour component (as a byte) and elevation (as a byte) at its index formula |
| Packer.StartIndicesOfUniform | src/App.jsx:65-70 | for uniform cells startIndices has one entry per polygon (length = polygonCount), entry k is 5k, the entries strictly increase and each lies inside the vertex stream |
| Packer.AsStored | src/App.jsx:57-63 | the cells as the typed arrays store them keep their number, and are the cells themselves when colours and elevations are bytes |
| Packer.EncodeSliceable | src/App.jsx:55-70 | a packed uniform frame satisfies what slicing needs: aligned buffers and strictly increasing in-range start offsets, one per polygon |
| Packer.SliceEncodedCell | src/App.jsx:55-70 | the slice between startIndices[k] and the next boundary is cell k: its 5 vertices exactly, its colour and elevation as Uint8 |
| Packer.DecodeEncode | src/App.jsx:55-70 | slicing the packed buffers at startIndices gives back every cell, with colour and elevation passed through ToUint8 |
| Packer.DecodeEncodeLossless | src/App.jsx:55-70 | for uniform cells with byte colours and elevations the packing is lossless: Decode(Encode(frame)) == frame |
| Packer.EncodeEmpty | src/App.jsx:55-70 | an empty frame packs to empty buffers, polygonCount 0 and no start offsets |
| Frames.GetGrids | src/App.jsx:48-92 | the startup loop stores 5 frames; frame i holds the cells generated from the i-th block of draws and their packed form |
| Frames.RandomGridPackable | src/App.jsx:22-63 | the generator's cells have the shape the packer's stride of 5 assumes, and with byte draws their values survive the Uint8Array conversion |
| Frames.GeneratedFrameRoundTrip | src/App.jsx:53-70 | a generated frame is recovered exactly from its packed buffers; polygonCount and the number of start offsets both equal the cell count, and offset k is 5k |
| Frames.StoredFramesRoundTrip | src/App.jsx:50-80 | each stored frame has 65536 cells that its packed buffers reproduce exactly |
| Player.NextFrame | src/App.jsx:113 | the updater keeps an index in [0, frameCount), equals (prev + 1) mod frameCount there, and goes from the last frame to 0 |
| Player.AdvanceIsModular | src/App.jsx:113 | advancing a valid index s times gives (index + s) mod frameCount |
| Player.FullCycle | src/App.jsx:113 | after frameCount advances the index is back where it started |
| Player.AdvanceInRange | src/App.jsx:113 | any number of advances from a valid index stays in [0, frameCount) |
| Player.Step | src/App.jsx:111-115 | one callback: one too early (time − lastTime ≤ 1000) changes nothing; a due one records its time and moves a valid index to (index + 1) mod frameCount; the index stays valid (Run and RunAdvancesByEffectiveTicks build on it) |
| Player.RunAdvancesByEffectiveTicks | src/App.jsx:111-115 | after any sequence of callbacks the index has advanced exactly once per callback that came more than 1000 ms after the last advance |
| Player.RunInRange | src/App.jsx:111-115 | any sequence of callbacks from a valid index leaves a valid index, so `data[frame]` always exists |
| Player.Animation.constructor | src/App.jsx:97-110 | the animation starts on frame 0 with lastTime 0 |
| Player.Animation.PlayAnimation | src/App.jsx:111-115 | one callback moves the state by Step: a due callback advances the frame and records its time; otherwise neither frame nor lastTime changes; a valid index stays valid |

## Left out

- The React component, JSX, `useState`/`useRef`/`useEffect` wiring, and the
  checkboxes that pick binary or record mode and turn on logging
  (src/App.jsx:96-231): UI.
- The deck.gl layers, the map and the framer-motion widget
  (src/App.jsx:127-228): foreign rendering libraries.
- `requestAnimationFrame` / `cancelAnimationFrame` scheduling: the host's
  timing loop. Callback times are inputs to `Player`.
- `performance.mark`/`measure` and `console.log`: diagnostics and I/O.
- `Math.random` and its float multiply and floor: replaced by the `draws`
  parameter.
- The Mapbox token read from the environment: configuration.
- Float32Array rounding (src/App.jsx:55): coordinates are modelled as
  integers. Float32 holds them exactly while every coordinate is at most
  2^24. A coordinate is at most gridSize + cellSize, and the defaults
  512 / 2 reach 512. Beyond 2^24 Float32Array rounds, and the exact
  positions stated by Packer.PolygonsAt, Packer.EncodeLayout and
  Packer.DecodeEncodeLossless are not what the source keeps.
- The Uint32Array conversion of `startIndices` (src/App.jsx:78): the offsets
  5k are kept as integers. They stay below 2^32 for fewer than 858993460
  cells, so the conversion changes nothing for any frame that fits in
  memory (the defaults give 65536 cells).
- Grid.GetRandomData: only integer arguments are modelled. It requires
  `cellSize > 0` whenever `gridSize > 0`, because otherwise the source loop
  never terminates.
- Player.Animation.PlayAnimation: the `setFrame` updater is applied at once.
  React applies it at its next render, but `lastTime` is updated at once in
  both.
