/** The engine of src/lib.rs: a world of width * height cells kept in two
    equally long buffers. A generation is computed from `cells` into
    `cellsBuffer`, and the two buffers are then exchanged, so that `cells`
    holds the new generation and `cellsBuffer` the previous one. */
module Conway {
  import opened Rules

  class World {
    var cells: array<Byte>
    var cellsBuffer: array<Byte>
    const width: nat
    const height: nat

    /** Both buffers hold width * height cells and are distinct vectors. */
    ghost predicate Valid()
      reads this
    {
      && cells.Length == width * height
      && cellsBuffer.Length == width * height
      && cells != cellsBuffer
    }

    /** The world as the initializer leaves it: `seed[i]` says whether cell i
        starts alive (the noise threshold of src/lib.rs:87-88 is not modelled,
        its outcome is the parameter); the scratch buffer starts at zero. */
    constructor FromSeed(width: nat, height: nat, seed: seq<bool>)
      requires |seed| == width * height
      ensures Valid() && fresh(cells) && fresh(cellsBuffer)
      ensures this.width == width && this.height == height
      ensures forall i :: 0 <= i < |seed| ==> cells[i] == if seed[i] then ALIVE else DEAD
      ensures forall i :: 0 <= i < |seed| ==> cellsBuffer[i] == DEAD
    {
      this.width := width;
      this.height := height;
      cells := new Byte[|seed|](i requires 0 <= i < |seed| => if seed[i] then ALIVE else DEAD);
      cellsBuffer := new Byte[|seed|](i => DEAD);
    }

    /** Row-major index of (x, y); the index gives the coordinates back. */
    function ToIndex(x: nat, y: nat): (idx: nat)
      requires x < width && y < height
      ensures idx < width * height
      ensures idx % width == x && idx / width == y
    {
      IndexCoords(width, height, x, y);
      x + y * width
    }

    /** The cell at (x, y) of the current generation: the entry in row y,
        column x of the row-major vector. */
    function Cell(x: nat, y: nat): (v: Byte)
      reads this, cells
      requires Valid() && x < width && y < height
      ensures x + y * width < cells.Length && v == cells[x + y * width]
    {
      cells[ToIndex(x, y)]
    }

    /** Every entry of the vector is the cell at its coordinates. */
    lemma CellOfIndex(i: nat)
      requires Valid() && i < cells.Length
      ensures width > 0 && i % width < width && i / width < height
      ensures Cell(i % width, i / width) == cells[i]
    {
      CoordsOf(width, height, i);
      assert i == i % width + (i / width) * width;
    }

    /** Counts the live neighbours of (x, y) on the torus, visiting the eight
        directions in order; every index it reads is inside the grid. */
    method CountNeighbours(x: nat, y: nat) returns (count: nat)
      requires Valid() && x < width && y < height
      ensures count == NeighbourCount(cells[..], width, height, x, y)
      ensures count <= 8
    {
      count := 0;
      for k := 0 to |Directions|
        invariant count == CountAlive(cells[..], width, height, x, y, k)
      {
        var (dx, dy) := Directions[k];
        var nx := (x + width + dx) % width;
        var ny := (y + height + dy) % height;
        WrapIsMod(x, width, dx);
        WrapIsMod(y, height, dy);
        assert nx + ny * width == NeighbourIndex(width, height, x, y, k);
        if cells[nx + ny * width] == ALIVE {
          count := count + 1;
        }
      }
      CountAliveIsAliveDirections(cells[..], width, height, x, y, |Directions|);
      NeighbourCountBound(cells[..], width, height, x, y);
    }

    /** Advances the world by one generation: every entry of the scratch
        buffer is computed from the current generation alone, then the two
        vectors are exchanged (not copied). */
    method Update()
      requires Valid()
      modifies this, cellsBuffer
      ensures Valid()
      ensures cells == old(cellsBuffer) && cellsBuffer == old(cells)
      ensures cells[..] == Step(old(cells[..]), width, height)
      ensures cellsBuffer[..] == old(cells[..])
    {
      ghost var prev := cells[..];
      ghost var next := Step(prev, width, height);
      var y := 0;
      while y < height
        modifies cellsBuffer
        invariant 0 <= y <= height
        invariant y * width <= width * height
        invariant cells[..] == prev
        invariant forall i :: 0 <= i < y * width ==> cellsBuffer[i] == next[i]
      {
        MulMonotone(y + 1, height, width);
        var x := 0;
        while x < width
          modifies cellsBuffer
          invariant 0 <= x <= width
          invariant y * width + x <= width * height
          invariant cells[..] == prev
          invariant forall i :: 0 <= i < y * width + x ==> cellsBuffer[i] == next[i]
        {
          var idx := ToIndex(x, y);
          var alive := cells[idx] == ALIVE;
          var n := CountNeighbours(x, y);
          var nextAlive := (alive && (n == 2 || n == 3)) || (!alive && n == 3);
          StepAt(prev, width, height, x, y);
          if nextAlive {
            cellsBuffer[idx] := ALIVE;
          } else {
            cellsBuffer[idx] := Decay(cells[idx]);
          }
          x := x + 1;
        }
        assert (y + 1) * width == y * width + width;
        y := y + 1;
      }
      assert y * width == cellsBuffer.Length == |next|;
      assert cellsBuffer[..] == next;
      cells, cellsBuffer := cellsBuffer, cells;
    }

    /** Writes pixel i of the frame for every cell i the frame has room for;
        the bytes after the last whole pixel are left alone. */
    method Render(frame: array<Byte>)
      requires Valid()
      requires frame.Length / 4 <= cells.Length
      requires frame != cells
      modifies frame
      ensures forall i :: 0 <= i < frame.Length / 4 ==> FramePixel(frame[..], i) == Pixel(cells[i])
      ensures frame[frame.Length / 4 * 4 ..] == old(frame[frame.Length / 4 * 4 ..])
    {
      var i := 0;
      while i < frame.Length / 4
        invariant 0 <= i <= frame.Length / 4
        invariant forall j :: 0 <= j < i ==> FramePixel(frame[..], j) == Pixel(cells[j])
        invariant frame[4 * i ..] == old(frame[4 * i ..])
      {
        var rgba: seq<Byte> := if cells[i] == ALIVE then [255, 255, 255, 255] else [0, cells[i], cells[i], 255];
        ghost var before := frame[..];
        CopyPixel(frame, i, rgba);
        assert rgba == Pixel(cells[i]);
        forall j | 0 <= j <= i
          ensures FramePixel(frame[..], j) == Pixel(cells[j])
        {
          SplicedPixel(before, i, rgba, j);
        }
        assert frame[4 * (i + 1) ..] == before[4 * i + 4 ..];
        i := i + 1;
      }
    }
  }
}
