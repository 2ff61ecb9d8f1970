// The structure-of-arrays packer: the body of `getGrids` that turns one
// frame's cell records into flat attribute buffers for the renderer.
//
// `polygons` holds x, y per contour vertex (a Float32Array in the source;
// coordinates are modelled as integers, which float32 holds exactly up to
// 2^24; a coordinate is at most gridSize + cellSize, 512 on the default
// grid).
// `colors` and `elevations` are Uint8Arrays: every value goes through the
// ECMAScript ToUint8 conversion, modelled explicitly. `startIndices` counts
// vertices and steps by 5, the vertex count of a generated contour.

module Packer {
  import opened Arith
  import opened Grid

  /** Vertices of a generated contour: the stride of `startIndices`. */
  const VerticesPerPolygon: nat := 5

  /** Numbers per vertex in each buffer. */
  const PositionSize: nat := 2
  const ColorSize: nat := 4

  /** One packed frame, as `getGrids` stores it next to the cells. */
  datatype PackedFrame = PackedFrame(
    polygons: seq<int>,
    colors: seq<int>,
    elevations: seq<int>,
    polygonCount: nat,
    startIndices: seq<int>)

  // ---------------------------------------------------------------------
  // Typed-array conversion
  // ---------------------------------------------------------------------

  /** ECMAScript ToUint8 on an integer: the unique byte congruent to it
      modulo 256. */
  function ToUint8(v: int): (b: int)
    ensures IsByte(b)
    ensures (v - b) % 256 == 0
    ensures IsByte(v) ==> b == v
  {
    v % 256
  }

  /** `new Uint8Array(values)`. */
  function Uint8Array(values: seq<int>): (bytes: seq<int>)
    ensures |bytes| == |values| && AllBytes(bytes)
    ensures AllBytes(values) ==> bytes == values
  {
    seq(|values|, i requires 0 <= i < |values| => ToUint8(values[i]))
  }

  // ---------------------------------------------------------------------
  // The buffers, as the source's flatMap / map / flat expressions
  // ---------------------------------------------------------------------

  /** `contour.flat()`: x and y of each vertex in turn. */
  function FlatContour(contour: seq<Point>): seq<int> {
    if contour == [] then [] else [contour[0].x, contour[0].y] + FlatContour(contour[1..])
  }

  /** `d.flatMap((d) => d.contour.flat())`: two numbers per contour vertex
      (their positions are stated by PolygonsAt). */
  function Polygons(frame: seq<Cell>): (polygons: seq<int>)
    ensures |polygons| == PositionSize * VertexCount(frame)
  {
    if frame == [] then []
    else
      FlatContourLength(frame[0].contour);
      FlatContour(frame[0].contour) + Polygons(frame[1..])
  }

  /** `contour.flatMap((_) => values)`: `values` once per vertex. */
  function Repeat(values: seq<int>, times: nat): seq<int> {
    if times == 0 then [] else values + Repeat(values, times - 1)
  }

  /** `d.flatMap((d) => d.contour.flatMap((_) => d.color))`: with
      four-component colours, four numbers per contour vertex (their
      positions are stated by RawColorsAt). */
  function RawColors(frame: seq<Cell>): (colors: seq<int>)
    ensures RgbaFrame(frame) ==> |colors| == ColorSize * VertexCount(frame)
  {
    if frame == [] then []
    else
      RepeatLength(frame[0].color, |frame[0].contour|);
      Repeat(frame[0].color, |frame[0].contour|) + RawColors(frame[1..])
  }

  /** `d.flatMap((d) => d.contour.map((_) => d.elevation))`: one number per
      contour vertex (their positions are stated by RawElevationsAt). */
  function RawElevations(frame: seq<Cell>): (elevations: seq<int>)
    ensures |elevations| == VertexCount(frame)
  {
    if frame == [] then []
    else
      RepeatLength([frame[0].elevation], |frame[0].contour|);
      Repeat([frame[0].elevation], |frame[0].contour|) + RawElevations(frame[1..])
  }

  /** Total number of contour vertices in a frame. */
  function VertexCount(frame: seq<Cell>): nat {
    if frame == [] then 0 else |frame[0].contour| + VertexCount(frame[1..])
  }

  /** The start offsets the `startIndices` loop produces for a polygons
      buffer of the given length: 0, 5, 10, ... while index < length / 2.
      They are exactly the vertex numbers inside the buffer that are
      multiples of 5, in strictly increasing order. */
  function StartOffsets(polygonsLength: nat): (offsets: seq<int>)
    ensures forall v :: v in offsets <==>
      0 <= v && v % VerticesPerPolygon == 0 && PositionSize * v < polygonsLength
    ensures forall i, j :: 0 <= i < j < |offsets| ==> offsets[i] < offsets[j]
  {
    var offsets := seq((polygonsLength + 9) / 10, i => VerticesPerPolygon * i);
    assert forall v :: v in offsets <==>
        0 <= v && v % VerticesPerPolygon == 0 && PositionSize * v < polygonsLength by {
      forall v
        ensures v in offsets <==> 0 <= v && v % VerticesPerPolygon == 0 && PositionSize * v < polygonsLength
      {
        if 0 <= v && v % VerticesPerPolygon == 0 && PositionSize * v < polygonsLength {
          assert offsets[v / VerticesPerPolygon] == v;
        }
      }
    }
    offsets
  }

  /** Everything the packing step stores for one frame. */
  function Encode(frame: seq<Cell>): (p: PackedFrame)
    ensures p.polygonCount == |frame|
    ensures |p.polygons| == PositionSize * VertexCount(frame)
    ensures |p.elevations| == VertexCount(frame) && AllBytes(p.elevations)
    ensures RgbaFrame(frame) ==> |p.colors| == ColorSize * VertexCount(frame)
    ensures AllBytes(p.colors)
  {
    var polygons := Polygons(frame);
    PackedFrame(polygons, Uint8Array(RawColors(frame)), Uint8Array(RawElevations(frame)),
                |frame|, StartOffsets(|polygons|))
  }

  // ---------------------------------------------------------------------
  // The packing step as the source runs it
  // ---------------------------------------------------------------------

  /** The `startIndices` loop: `for (index = 0; index < polygons.length / 2;
      index += 5) startIndices.push(index)`. The guard compares with a
      real quotient, so it is written as 2 * index < length. */
  method ComputeStartIndices(polygonsLength: nat) returns (startIndices: seq<int>)
    ensures startIndices == StartOffsets(polygonsLength)
    ensures forall v :: v in startIndices <==>
      0 <= v && v % VerticesPerPolygon == 0 && PositionSize * v < polygonsLength
  {
    startIndices := [];
    var index := 0;
    while PositionSize * index < polygonsLength
      invariant index == VerticesPerPolygon * |startIndices|
      invariant |startIndices| > 0 ==> 10 * (|startIndices| - 1) < polygonsLength
      invariant forall m :: 0 <= m < |startIndices| ==> startIndices[m] == VerticesPerPolygon * m
      decreases polygonsLength - PositionSize * index
    {
      startIndices := startIndices + [index];
      index := index + VerticesPerPolygon;
    }
    assert |startIndices| == (polygonsLength + 9) / 10;
  }

  /** The packing body of `getGrids` for one frame. */
  method Pack(frame: seq<Cell>) returns (p: PackedFrame)
    ensures p == Encode(frame)
  {
    var polygons := Polygons(frame);
    var colors := Uint8Array(RawColors(frame));
    var elevations := Uint8Array(RawElevations(frame));
    var polygonCount := |frame|;
    var startIndices := ComputeStartIndices(|polygons|);
    p := PackedFrame(polygons, colors, elevations, polygonCount, startIndices);
  }

  // ---------------------------------------------------------------------
  // Frames the packer lays out with a fixed stride
  // ---------------------------------------------------------------------

  /** Every colour has four components. */
  predicate RgbaFrame(frame: seq<Cell>) {
    forall k :: 0 <= k < |frame| ==> |frame[k].color| == ColorSize
  }

  /** Every contour has five vertices and every colour four components:
      the shape of the generator's cells, which the stride 5 assumes. */
  predicate Uniform(frame: seq<Cell>) {
    forall k :: 0 <= k < |frame| ==>
      |frame[k].contour| == VerticesPerPolygon && |frame[k].color| == ColorSize
  }

  /** Uniform, and every colour component and elevation already a byte, so
      the Uint8Array conversion keeps it. */
  predicate Packable(frame: seq<Cell>) {
    Uniform(frame) &&
    forall k :: 0 <= k < |frame| ==> AllBytes(frame[k].color) && IsByte(frame[k].elevation)
  }

  // ---------------------------------------------------------------------
  // Buffer lengths
  // ---------------------------------------------------------------------

  lemma {:induction false} FlatContourLength(contour: seq<Point>)
    ensures |FlatContour(contour)| == PositionSize * |contour|
  {
    if contour != [] {
      FlatContourLength(contour[1..]);
    }
  }

  lemma {:induction false} RepeatLength(values: seq<int>, times: nat)
    ensures |Repeat(values, times)| == |values| * times
  {
    if times > 0 {
      RepeatLength(values, times - 1);
      assert |values| * (times - 1) + |values| == |values| * times;
    }
  }

  lemma {:induction false} UniformVertexCount(frame: seq<Cell>)
    requires Uniform(frame)
    ensures VertexCount(frame) == VerticesPerPolygon * |frame|
  {
    if frame != [] {
      UniformVertexCount(frame[1..]);
    }
  }

  // ---------------------------------------------------------------------
  // Buffer layout: where each cell's values land
  // ---------------------------------------------------------------------

  lemma {:induction false} FlatContourAt(contour: seq<Point>, j: nat)
    requires j < |contour|
    ensures |FlatContour(contour)| == PositionSize * |contour|
    ensures FlatContour(contour)[2 * j] == contour[j].x
    ensures FlatContour(contour)[2 * j + 1] == contour[j].y
  {
    FlatContourLength(contour);
    if j > 0 {
      FlatContourAt(contour[1..], j - 1);
    }
  }

  lemma {:induction false} RepeatAt(values: seq<int>, times: nat, j: nat, i: nat)
    requires j < times && i < |values|
    ensures |values| * j + i < |Repeat(values, times)|
    ensures Repeat(values, times)[|values| * j + i] == values[i]
  {
    RepeatLength(values, times);
    MulMonotone(j + 1, times, |values|);
    if j > 0 {
      RepeatAt(values, times - 1, j - 1, i);
      assert |values| * (j - 1) + i + |values| == |values| * j + i;
    }
  }

  /** Vertex j of cell k is at polygons[10k + 2j] and polygons[10k + 2j + 1]. */
  lemma {:induction false} PolygonsAt(frame: seq<Cell>, k: nat, j: nat)
    requires Uniform(frame) && k < |frame| && j < VerticesPerPolygon
    ensures 10 * k + 2 * j + 1 < |Polygons(frame)|
    ensures Polygons(frame)[10 * k + 2 * j] == frame[k].contour[j].x
    ensures Polygons(frame)[10 * k + 2 * j + 1] == frame[k].contour[j].y
  {
    UniformVertexCount(frame);
    FlatContourAt(frame[0].contour, if k == 0 then j else 0);
    if k > 0 {
      PolygonsAt(frame[1..], k - 1, j);
    }
  }

  /** Component i of cell k's colour is repeated at colors[20k + 4j + i] for
      each of its five vertices j. */
  lemma {:induction false} RawColorsAt(frame: seq<Cell>, k: nat, j: nat, i: nat)
    requires Uniform(frame) && k < |frame| && j < VerticesPerPolygon && i < ColorSize
    ensures 20 * k + 4 * j + i < |RawColors(frame)|
    ensures RawColors(frame)[20 * k + 4 * j + i] == frame[k].color[i]
  {
    UniformVertexCount(frame);
    RepeatLength(frame[0].color, VerticesPerPolygon);
    if k == 0 {
      RepeatAt(frame[0].color, VerticesPerPolygon, j, i);
    } else {
      RawColorsAt(frame[1..], k - 1, j, i);
    }
  }

  /** Cell k's elevation is repeated at elevations[5k + j]. */
  lemma {:induction false} RawElevationsAt(frame: seq<Cell>, k: nat, j: nat)
    requires Uniform(frame) && k < |frame| && j < VerticesPerPolygon
    ensures 5 * k + j < |RawElevations(frame)|
    ensures RawElevations(frame)[5 * k + j] == frame[k].elevation
  {
    UniformVertexCount(frame);
    RepeatLength([frame[0].elevation], VerticesPerPolygon);
    if k == 0 {
      RepeatAt([frame[0].elevation], VerticesPerPolygon, j, 0);
    } else {
      RawElevationsAt(frame[1..], k - 1, j);
    }
  }

  /** The layout of a packed uniform frame: buffer lengths, the index of
      every coordinate, colour component and elevation, the polygon count and
      the start offsets. */
  lemma EncodeLayout(frame: seq<Cell>, k: nat, j: nat, i: nat)
    requires Uniform(frame) && k < |frame| && j < VerticesPerPolygon && i < ColorSize
    ensures var p := Encode(frame);
            |p.polygons| == 10 * |frame| && |p.colors| == 20 * |frame| && |p.elevations| == 5 * |frame| &&
            p.polygons[10 * k + 2 * j] == frame[k].contour[j].x &&
            p.polygons[10 * k + 2 * j + 1] == frame[k].contour[j].y &&
            p.colors[20 * k + 4 * j + i] == ToUint8(frame[k].color[i]) &&
            p.elevations[5 * k + j] == ToUint8(frame[k].elevation)
  {
    UniformVertexCount(frame);
    PolygonsAt(frame, k, j);
    RawColorsAt(frame, k, j, i);
    RawElevationsAt(frame, k, j);
  }

  /** For a uniform frame there is one start offset per cell, cell k starts
      at vertex 5k, and the offsets strictly increase and stay inside the
      vertex stream. */
  lemma StartIndicesOfUniform(frame: seq<Cell>)
    requires Uniform(frame)
    ensures var p := Encode(frame);
            |p.startIndices| == p.polygonCount == |frame| &&
            (forall k :: 0 <= k < |frame| ==> p.startIndices[k] == VerticesPerPolygon * k) &&
            (forall k, l :: 0 <= k < l < |frame| ==> p.startIndices[k] < p.startIndices[l]) &&
            (forall k :: 0 <= k < |frame| ==> 0 <= p.startIndices[k] < |p.polygons| / 2)
  {
    UniformVertexCount(frame);
  }

  // ---------------------------------------------------------------------
  // Reading a packed frame back: slicing at startIndices
  // ---------------------------------------------------------------------

  /** A packed frame the renderer can slice: one start offset per polygon,
      strictly increasing inside the vertex stream, and buffers that align
      vertex for vertex. */
  predicate Sliceable(p: PackedFrame) {
    |p.polygons| % 2 == 0 &&
    |p.colors| == 2 * |p.polygons| &&
    |p.elevations| == |p.polygons| / 2 &&
    |p.startIndices| == p.polygonCount &&
    (forall k :: 0 <= k < |p.startIndices| ==> 0 <= p.startIndices[k] < |p.polygons| / 2) &&
    (forall k :: 0 < k < |p.startIndices| ==> p.startIndices[k - 1] < p.startIndices[k])
  }

  /** Where polygon k's vertices end: the next start offset, or the end of
      the vertex stream for the last polygon. */
  function EndOffset(p: PackedFrame, k: nat): int
    requires Sliceable(p) && k < |p.startIndices|
  {
    if k + 1 < |p.startIndices| then p.startIndices[k + 1] else |p.polygons| / 2
  }

  /** The cell held between startIndices[k] and the next boundary: its
      vertices, the colour and elevation of its first vertex. */
  function SliceCell(p: PackedFrame, k: nat): Cell
    requires Sliceable(p) && k < |p.startIndices|
  {
    var start := p.startIndices[k];
    var end := EndOffset(p, k);
    Cell(seq(end - start, j requires 0 <= j < end - start =>
               Point(p.polygons[2 * (start + j)], p.polygons[2 * (start + j) + 1])),
         p.colors[4 * start .. 4 * start + 4],
         p.elevations[start])
  }

  /** The per-cell records a packed frame holds. */
  function Decode(p: PackedFrame): seq<Cell>
    requires Sliceable(p)
  {
    seq(p.polygonCount, k requires 0 <= k < p.polygonCount => SliceCell(p, k))
  }

  /** The cells as the typed arrays store them: colour components and
      elevation through ToUint8. */
  function AsStored(frame: seq<Cell>): (stored: seq<Cell>)
    ensures |stored| == |frame|
    ensures Packable(frame) ==> stored == frame
  {
    seq(|frame|, k requires 0 <= k < |frame| =>
      Cell(frame[k].contour, Uint8Array(frame[k].color), ToUint8(frame[k].elevation)))
  }

  lemma EncodeSliceable(frame: seq<Cell>)
    requires Uniform(frame)
    ensures Sliceable(Encode(frame))
  {
    UniformVertexCount(frame);
  }

  /** Polygon k of a packed uniform frame slices back to cell k, with its
      colour and elevation as Uint8Array stores them. */
  lemma SliceEncodedCell(frame: seq<Cell>, k: nat)
    requires Uniform(frame) && k < |frame|
    ensures Sliceable(Encode(frame)) && k < |Encode(frame).startIndices|
    ensures SliceCell(Encode(frame), k) == AsStored(frame)[k]
  {
    EncodeSliceable(frame);
    UniformVertexCount(frame);
    var p := Encode(frame);
    var start := VerticesPerPolygon * k;
    assert p.startIndices[k] == start;
    assert EndOffset(p, k) == start + VerticesPerPolygon;
    var cell := SliceCell(p, k);
    var want := AsStored(frame)[k];
    assert |cell.contour| == |want.contour| == VerticesPerPolygon;
    forall j | 0 <= j < VerticesPerPolygon
      ensures cell.contour[j] == want.contour[j]
    {
      EncodeLayout(frame, k, j, 0);
      assert 2 * (start + j) == 10 * k + 2 * j;
    }
    assert cell.contour == want.contour;
    assert |cell.color| == |want.color| == ColorSize;
    forall i | 0 <= i < ColorSize
      ensures cell.color[i] == want.color[i]
    {
      EncodeLayout(frame, k, 0, i);
      assert 4 * start + i == 20 * k + 4 * 0 + i;
    }
    assert cell.color == want.color;
    EncodeLayout(frame, k, 0, 0);
    assert cell.elevation == want.elevation;
  }

  /** Slicing the packed buffers at startIndices gives back every cell's
      contour exactly and its colour and elevation as Uint8Array stores
      them. */
  lemma DecodeEncode(frame: seq<Cell>)
    requires Uniform(frame)
    ensures Sliceable(Encode(frame))
    ensures Decode(Encode(frame)) == AsStored(frame)
  {
    EncodeSliceable(frame);
    forall k | 0 <= k < |frame|
      ensures Decode(Encode(frame))[k] == AsStored(frame)[k]
    {
      SliceEncodedCell(frame, k);
    }
  }

  /** Packing is lossless for cells whose colours and elevations are bytes. */
  lemma DecodeEncodeLossless(frame: seq<Cell>)
    requires Packable(frame)
    ensures Sliceable(Encode(frame))
    ensures Decode(Encode(frame)) == frame
  {
    DecodeEncode(frame);
  }

  /** An empty frame packs to empty buffers with no polygons. */
  lemma EncodeEmpty()
    ensures Encode([]) == PackedFrame([], [], [], 0, [])
  {
  }
}
