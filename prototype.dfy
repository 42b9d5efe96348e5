/** The earlier engine of src/main.rs: the same two-buffer world, fixed at
    WIDTH x HEIGHT cells, whose update leaves the scratch entry of a dark cell
    that is not born unwritten. */
module Prototype {
  import opened Rules

  const WIDTH: nat := 320
  const HEIGHT: nat := 240

  /** The buffer entry the update pass leaves for a cell whose value is v,
      whose scratch entry holds `stale` and which has n live neighbours. */
  function NextEarly(v: Byte, stale: Byte, n: nat): (r: Byte)
    ensures r == ALIVE <==> n == 3 || (v == ALIVE && n == 2) || (v == 0 && stale == ALIVE && n != 3)
    ensures 0 < v && r != ALIVE ==> r == v - 1
    ensures v == 0 && r != ALIVE ==> r == stale
    // where the cell is born, survives or still glows, it agrees with the rule of src/lib.rs
    ensures (v != 0 || n == 3) ==> r == Next(v, n)
  {
    var alive := v == ALIVE;
    if (alive && (n == 2 || n == 3)) || (!alive && n == 3) then ALIVE
    else if v > 0 then v - 1
    else stale
  }

  /** The new generation of src/main.rs, from the current grid and the
      scratch buffer it is written into. */
  function StepEarly(cells: seq<Byte>, buffer: seq<Byte>, w: nat, h: nat): (r: seq<Byte>)
    requires |cells| == |buffer| == w * h
    ensures |r| == |cells|
  {
    seq(|cells|, i requires 0 <= i < |cells| => NextEarlyAt(cells, buffer, w, h, i))
  }

  function NextEarlyAt(cells: seq<Byte>, buffer: seq<Byte>, w: nat, h: nat, i: nat): Byte
    requires |cells| == |buffer| == w * h && i < |cells|
  {
    CoordsOf(w, h, i);
    NextEarly(cells[i], buffer[i], NeighbourCount(cells, w, h, i % w, i / w))
  }

  /** Cell i of the early generation is the generation of src/lib.rs except
      where the cell is dark and not born: there it is the scratch entry. */
  lemma StepEarlyAt(cells: seq<Byte>, buffer: seq<Byte>, w: nat, h: nat, i: nat)
    requires |cells| == |buffer| == w * h && i < |cells|
    ensures StepEarly(cells, buffer, w, h)[i] ==
      if cells[i] == DEAD && Step(cells, w, h)[i] != ALIVE then buffer[i] else Step(cells, w, h)[i]
  {
    CoordsOf(w, h, i);
    assert StepEarly(cells, buffer, w, h)[i] == NextEarly(cells[i], buffer[i], NeighbourCount(cells, w, h, i % w, i / w));
    assert Step(cells, w, h)[i] == Next(cells[i], NeighbourCount(cells, w, h, i % w, i / w));
  }

  /** With an all-zero scratch buffer, as the initializer leaves it, the early
      update computes exactly the generation of src/lib.rs. */
  lemma StepEarlyCleanBuffer(cells: seq<Byte>, buffer: seq<Byte>, w: nat, h: nat)
    requires |cells| == |buffer| == w * h && AllDark(buffer)
    ensures StepEarly(cells, buffer, w, h) == Step(cells, w, h)
  {
    forall i | 0 <= i < |cells|
      ensures StepEarly(cells, buffer, w, h)[i] == Step(cells, w, h)[i]
    {
      StepEarlyAt(cells, buffer, w, h, i);
      StepOnlyFades(cells, w, h, i);
    }
  }

  /** The stale entry resurfaces: in a lifeless world a cell at level 1 goes
      dark after one update and lights up at level 1 again after the next,
      where the generation of src/lib.rs keeps it dark. */
  lemma FlickerAsWritten(cells: seq<Byte>, buffer: seq<Byte>, w: nat, h: nat, i: nat)
    requires |cells| == |buffer| == w * h && i < |cells| && cells[i] == 1
    requires forall j :: 0 <= j < |cells| ==> cells[j] != ALIVE && buffer[j] != ALIVE
    ensures StepEarly(cells, buffer, w, h)[i] == DEAD
    ensures StepEarly(StepEarly(cells, buffer, w, h), cells, w, h)[i] == 1
    ensures Step(Step(cells, w, h), w, h)[i] == DEAD
  {
    var next := StepEarly(cells, buffer, w, h);
    assert forall j :: 0 <= j < |cells| ==> cells[j] != ALIVE;
    FadedCellStaysDark(cells, w, h, i);
    StepEarlyAt(cells, buffer, w, h, i);
    forall j | 0 <= j < |cells|
      ensures next[j] != ALIVE
    {
      StepEarlyAt(cells, buffer, w, h, j);
      NoLifeDecays(cells, w, h, j);
    }
    StepEarlyAt(next, cells, w, h, i);
    NoLifeDecays(next, w, h, i);
  }

  class World {
    var cells: array<Byte>
    var cellsBuffer: array<Byte>

    /** Both buffers hold WIDTH * HEIGHT cells and are distinct vectors. */
    ghost predicate Valid()
      reads this
    {
      && cells.Length == WIDTH * HEIGHT
      && cellsBuffer.Length == WIDTH * HEIGHT
      && cells != cellsBuffer
    }

    /** `Default`: `spawn[i]` is the outcome of the random draw for cell i. */
    constructor Default(spawn: seq<bool>)
      requires |spawn| == WIDTH * HEIGHT
      ensures Valid() && fresh(cells) && fresh(cellsBuffer)
      ensures forall i :: 0 <= i < |spawn| ==> cells[i] == if spawn[i] then ALIVE else DEAD
      ensures Binary(cells[..]) && AllDark(cellsBuffer[..])
    {
      var c := new Byte[WIDTH * HEIGHT](_ => DEAD);
      for i := 0 to c.Length
        invariant forall j :: 0 <= j < i ==> c[j] == if spawn[j] then ALIVE else DEAD
      {
        c[i] := if spawn[i] then ALIVE else DEAD;
      }
      cells := c;
      cellsBuffer := new Byte[WIDTH * HEIGHT](_ => DEAD);
    }

    /** Counts the live neighbours of (x, y) on the fixed torus; every index it reads is inside the grid. */
    method CountNeighbours(x: nat, y: nat) returns (count: nat)
      requires Valid() && x < WIDTH && y < HEIGHT
      ensures count == NeighbourCount(cells[..], WIDTH, HEIGHT, x, y)
      ensures count <= 8
    {
      count := 0;
      for k := 0 to |Directions|
        invariant count == CountAlive(cells[..], WIDTH, HEIGHT, x, y, k)
      {
        var (dx, dy) := Directions[k];
        var nx := (x + WIDTH + dx) % WIDTH;
        var ny := (y + HEIGHT + dy) % HEIGHT;
        WrapIsMod(x, WIDTH, dx);
        WrapIsMod(y, HEIGHT, dy);
        assert nx + ny * WIDTH == NeighbourIndex(WIDTH, HEIGHT, x, y, k);
        if cells[nx + ny * WIDTH] == ALIVE {
          count := count + 1;
        }
      }
      CountAliveIsAliveDirections(cells[..], WIDTH, HEIGHT, x, y, |Directions|);
      NeighbourCountBound(cells[..], WIDTH, HEIGHT, x, y);
    }

    /** Advances the world: the scratch entry of a born or surviving cell
        becomes 255, that of a glowing cell its value minus one, and that of a
        dark cell that is not born is left as it was; then the vectors are
        exchanged. */
    method Update()
      requires Valid()
      modifies this, cellsBuffer
      ensures Valid()
      ensures cells == old(cellsBuffer) && cellsBuffer == old(cells)
      ensures cells[..] == StepEarly(old(cells[..]), old(cellsBuffer[..]), WIDTH, HEIGHT)
      ensures cellsBuffer[..] == old(cells[..])
    {
      ghost var prev := cells[..];
      ghost var stale := cellsBuffer[..];
      ghost var next := StepEarly(prev, stale, WIDTH, HEIGHT);
      var y := 0;
      while y < HEIGHT
        modifies cellsBuffer
        invariant 0 <= y <= HEIGHT
        invariant cells[..] == prev
        invariant forall i :: 0 <= i < y * WIDTH ==> cellsBuffer[i] == next[i]
        invariant forall i :: y * WIDTH <= i < cellsBuffer.Length ==> cellsBuffer[i] == stale[i]
      {
        var x := 0;
        while x < WIDTH
          modifies cellsBuffer
          invariant 0 <= x <= WIDTH
          invariant cells[..] == prev
          invariant forall i :: 0 <= i < y * WIDTH + x ==> cellsBuffer[i] == next[i]
          invariant forall i :: y * WIDTH + x <= i < cellsBuffer.Length ==> cellsBuffer[i] == stale[i]
        {
          var idx := x + y * WIDTH;
          var alive := cells[idx] == ALIVE;
          var n := CountNeighbours(x, y);
          var nextAlive := (alive && (n == 2 || n == 3)) || (!alive && n == 3);
          IndexCoords(WIDTH, HEIGHT, x, y);
          assert next[idx] == NextEarly(prev[idx], stale[idx], n);
          if nextAlive {
            cellsBuffer[idx] := ALIVE;
          } else if cells[idx] > 0 {
            cellsBuffer[idx] := cells[idx] - 1;
          }
          x := x + 1;
        }
        y := y + 1;
      }
      assert cellsBuffer[..] == next;
      cells, cellsBuffer := cellsBuffer, cells;
    }

    /** Writes pixel i of the frame for every cell i the frame has room for;
        the bytes after the last whole pixel are left alone. */
    method Render(frame: array<Byte>)
      requires Valid()
      requires frame.Length / 4 <= cells.Length
      requires frame != cells
      modifies frame
      ensures forall i :: 0 <= i < frame.Length / 4 ==> FramePixel(frame[..], i) == Pixel(cells[i])
      ensures frame[frame.Length / 4 * 4 ..] == old(frame[frame.Length / 4 * 4 ..])
    {
      var i := 0;
      while i < frame.Length / 4
        invariant 0 <= i <= frame.Length / 4
        invariant forall j :: 0 <= j < i ==> FramePixel(frame[..], j) == Pixel(cells[j])
        invariant frame[4 * i ..] == old(frame[4 * i ..])
      {
        var rgba: seq<Byte> := if cells[i] == ALIVE then [255, 255, 255, 255] else [0, cells[i], cells[i], 255];
        ghost var before := frame[..];
        CopyPixel(frame, i, rgba);
        assert rgba == Pixel(cells[i]);
        forall j | 0 <= j <= i
          ensures FramePixel(frame[..], j) == Pixel(cells[j])
        {
          SplicedPixel(before, i, rgba, j);
        }
        assert frame[4 * (i + 1) ..] == before[4 * i + 4 ..];
        i := i + 1;
      }
    }
  }
}
