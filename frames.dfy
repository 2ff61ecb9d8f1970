// `getGrids`: generates the animation's frames once, at startup, and packs
// each one, keeping the cell records next to their packed buffers.

module Frames {
  import opened Arith
  import opened Grid
  import opened Packer

  /** Number of frames generated at startup. */
  const FrameCount: nat := 5

  /** One entry of the frame array: the cells and their packed buffers. */
  datatype FrameData = FrameData(data: seq<Cell>, packed: PackedFrame)

  /** Draws one default-size frame consumes. */
  function DrawsPerFrame(): nat {
    DrawsPerCell * CellCount(DefaultGridSize, DefaultCellSize)
  }

  /** The draws frame i consumes: the random stream is shared, and each frame
      takes the next DrawsPerFrame() values. */
  function FrameDraws(draws: seq<int>, i: nat): (d: seq<int>)
    requires i < FrameCount && |draws| >= FrameCount * DrawsPerFrame()
    ensures |d| == DrawsPerFrame()
  {
    MulMonotone(i + 1, FrameCount, DrawsPerFrame());
    draws[i * DrawsPerFrame() .. (i + 1) * DrawsPerFrame()]
  }

  /** The cells of frame i. */
  function FrameCells(draws: seq<int>, i: nat): seq<Cell>
    requires i < FrameCount && |draws| >= FrameCount * DrawsPerFrame()
  {
    RandomGrid(DefaultGridSize, DefaultCellSize, FrameDraws(draws, i))
  }

  /** `getGrids`: five frames, each generated with the default grid and
      packed. */
  method GetGrids(draws: seq<int>) returns (data: seq<FrameData>)
    requires |draws| >= FrameCount * DrawsPerFrame()
    ensures |data| == FrameCount
    ensures forall i :: 0 <= i < FrameCount ==>
      data[i] == FrameData(FrameCells(draws, i), Encode(FrameCells(draws, i)))
  {
    data := [];
    for i := 0 to FrameCount
      invariant |data| == i
      invariant forall m :: 0 <= m < i ==>
        data[m] == FrameData(FrameCells(draws, m), Encode(FrameCells(draws, m)))
    {
      var d := GetRandomData(DefaultGridSize, DefaultCellSize, FrameDraws(draws, i));
      var p := Pack(d);
      data := data + [FrameData(d, p)];
    }
  }

  /** Generated cells have the shape the packer's stride assumes, and with
      byte draws their colours and elevations survive the Uint8Array
      conversion. */
  lemma RandomGridPackable(gridSize: int, cellSize: int, draws: seq<int>)
    requires Terminates(gridSize, cellSize)
    requires |draws| >= DrawsPerCell * CellCount(gridSize, cellSize)
    requires AllBytes(draws)
    ensures Packable(RandomGrid(gridSize, cellSize, draws))
  {
    RandomGridBytes(gridSize, cellSize, draws);
  }

  /** Every generated frame is recovered exactly by slicing its packed
      buffers at startIndices, and its startIndices hold one offset per
      cell, 5 apart. */
  lemma GeneratedFrameRoundTrip(gridSize: int, cellSize: int, draws: seq<int>)
    requires Terminates(gridSize, cellSize)
    requires |draws| >= DrawsPerCell * CellCount(gridSize, cellSize)
    requires AllBytes(draws)
    ensures var cells := RandomGrid(gridSize, cellSize, draws);
            Sliceable(Encode(cells)) && Decode(Encode(cells)) == cells &&
            Encode(cells).polygonCount == CellCount(gridSize, cellSize) &&
            |Encode(cells).startIndices| == CellCount(gridSize, cellSize) &&
            forall k :: 0 <= k < |cells| ==> Encode(cells).startIndices[k] == VerticesPerPolygon * k
  {
    RandomGridPackable(gridSize, cellSize, draws);
    var cells := RandomGrid(gridSize, cellSize, draws);
    DecodeEncodeLossless(cells);
    StartIndicesOfUniform(cells);
  }

  /** Each stored frame of `getGrids` has 65536 cells and packed buffers
      that slice back to exactly those cells. */
  lemma StoredFramesRoundTrip(draws: seq<int>, i: nat)
    requires |draws| >= FrameCount * DrawsPerFrame() && AllBytes(draws)
    requires i < FrameCount
    ensures |FrameCells(draws, i)| == 65536
    ensures Sliceable(Encode(FrameCells(draws, i)))
    ensures Decode(Encode(FrameCells(draws, i))) == FrameCells(draws, i)
  {
    DefaultCellCount();
    var d := FrameDraws(draws, i);
    assert AllBytes(d) by {
      forall m | 0 <= m < |d| ensures IsByte(d[m]) {
        assert d[m] == draws[i * DrawsPerFrame() + m];
      }
    }
    GeneratedFrameRoundTrip(DefaultGridSize, DefaultCellSize, d);
  }
}
