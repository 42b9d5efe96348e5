/** The cell model and the Game of Life rule that both copies of the engine
    (src/lib.rs and src/main.rs) implement. A grid is a row-major sequence of
    bytes of length width * height on a torus: 255 is a live cell, any other
    value is the afterglow level of a dead one (0 is fully dark). */
module Rules {

  /** A Rust `u8`. */
  type Byte = b: int | 0 <= b < 256

  /** One component of a neighbour direction. */
  type Offset = d: int | -1 <= d <= 1

  const ALIVE: Byte := 255
  const DEAD: Byte := 0

  /** The eight neighbour directions (dx, dy), in the order the engine visits them. */
  const Directions: seq<(Offset, Offset)> :=
    [(-1, -1), (0, -1), (1, -1),
     (-1,  0),          (1,  0),
     (-1,  1), (0,  1), (1,  1)]

  // ---------------------------------------------------------------------------
  // Coordinates on the torus
  // ---------------------------------------------------------------------------

  /** Row-major layout: (x, y) lives at x + y * w, and the index gives back (x, y). */
  lemma IndexCoords(w: nat, h: nat, x: nat, y: nat)
    requires x < w && y < h
    ensures x + y * w < w * h
    ensures (x + y * w) % w == x && (x + y * w) / w == y
  {
    IndexInBounds(w, h, x, y);
    DivModUnique(w, x, y);
  }

  lemma IndexInBounds(w: nat, h: nat, x: nat, y: nat)
    requires x < w && y < h
    ensures x + y * w < w * h
  {
    MulMonotone(y + 1, h, w);
  }

  lemma MulMonotone(a: nat, b: nat, c: nat)
    requires a <= b
    ensures a * c <= b * c
  {}

  lemma DivModUnique(w: nat, x: nat, y: nat)
    requires x < w
    ensures (x + y * w) % w == x && (x + y * w) / w == y
  {
    var i := x + y * w;
    var q, r := i / w, i % w;
    assert i == q * w + r && 0 <= r < w;
    if q > y {
      assert q * w >= (y + 1) * w by { MulMonotone(y + 1, q, w); }
      assert false;
    } else if q < y {
      assert (q + 1) * w <= y * w by { MulMonotone(q + 1, y, w); }
      assert false;
    }
  }

  /** Every index of a w * h grid is a cell (i % w, i / w) of the grid. */
  lemma CoordsOf(w: nat, h: nat, i: nat)
    requires i < w * h
    ensures w > 0 && i % w < w && i / w < h
  {
    if i / w >= h {
      assert (i / w) * w >= h * w by { MulMonotone(h, i / w, w); }
      assert false;
    }
  }

  /** The coordinate one step from c along an axis of the torus: stepping
      off one edge re-enters at the opposite edge. */
  function Wrap(c: nat, size: nat, d: Offset): (r: nat)
    requires c < size
    ensures r < size
  {
    if c + d < 0 then size - 1 else if c + d >= size then c + d - size else c + d
  }

  /** The engine computes the wrapped coordinate as `(c + size + d) % size`;
      since c + size + d is never negative, Rust's `%` is the mathematical one. */
  lemma WrapIsMod(c: nat, size: nat, d: Offset)
    requires c < size
    ensures c + size + d >= 0
    ensures Wrap(c, size, d) == (c + size + d) % size
  {
    if c + d < 0 {
      DivModUnique(size, size - 1, 0);
    } else if c + d >= size {
      DivModUnique(size, c + d - size, 2);
    } else {
      DivModUnique(size, c + d, 1);
    }
  }

  /** The index of the neighbour of (x, y) in direction k. */
  function NeighbourIndex(w: nat, h: nat, x: nat, y: nat, k: nat): (i: nat)
    requires x < w && y < h && k < |Directions|
    ensures i < w * h
  {
    var nx := Wrap(x, w, Directions[k].0);
    var ny := Wrap(y, h, Directions[k].1);
    IndexInBounds(w, h, nx, ny);
    nx + ny * w
  }

  // ---------------------------------------------------------------------------
  // Neighbour count
  // ---------------------------------------------------------------------------

  /** The directions among the first k of (x, y) that lead to a live cell. */
  function AliveDirections(cells: seq<Byte>, w: nat, h: nat, x: nat, y: nat, k: nat): set<nat>
    requires |cells| == w * h && x < w && y < h && k <= |Directions|
  {
    set d: nat | d < k && cells[NeighbourIndex(w, h, x, y, d)] == ALIVE
  }

  /** The live-neighbour count of (x, y): the number of the eight directions
      that lead to a cell equal to 255. It counts directions, not distinct
      cells: on a narrow torus one cell is reached from several directions. */
  function NeighbourCount(cells: seq<Byte>, w: nat, h: nat, x: nat, y: nat): (n: nat)
    requires |cells| == w * h && x < w && y < h
    ensures n <= |Directions|
  {
    CountAliveIsAliveDirections(cells, w, h, x, y, |Directions|);
    |AliveDirections(cells, w, h, x, y, |Directions|)|
  }

  /** The running count after visiting the first k directions in order, as
      the engine's loop accumulates it. */
  function CountAlive(cells: seq<Byte>, w: nat, h: nat, x: nat, y: nat, k: nat): (r: nat)
    requires |cells| == w * h && x < w && y < h && k <= |Directions|
    ensures r <= k
  {
    if k == 0 then 0
    else
      CountAlive(cells, w, h, x, y, k - 1)
      + (if cells[NeighbourIndex(w, h, x, y, k - 1)] == ALIVE then 1 else 0)
  }

  /** Visiting direction k - 1 adds it to the live directions exactly when its cell is alive. */
  lemma AliveDirectionsGrow(cells: seq<Byte>, w: nat, h: nat, x: nat, y: nat, k: nat)
    requires |cells| == w * h && x < w && y < h && 0 < k <= |Directions|
    ensures k - 1 !in AliveDirections(cells, w, h, x, y, k - 1)
    ensures AliveDirections(cells, w, h, x, y, k) ==
      if cells[NeighbourIndex(w, h, x, y, k - 1)] == ALIVE
      then AliveDirections(cells, w, h, x, y, k - 1) + {k - 1}
      else AliveDirections(cells, w, h, x, y, k - 1)
  {
    var prev := AliveDirections(cells, w, h, x, y, k - 1);
    var next := AliveDirections(cells, w, h, x, y, k);
    if cells[NeighbourIndex(w, h, x, y, k - 1)] == ALIVE {
      forall d | d in next ensures d in prev + {k - 1} {}
      forall d | d in prev + {k - 1} ensures d in next {}
    } else {
      forall d | d in next ensures d in prev {}
    }
  }

  /** The running count is the number of live directions seen so far; after
      all eight it is the neighbour count. */
  lemma {:induction false} CountAliveIsAliveDirections(cells: seq<Byte>, w: nat, h: nat, x: nat, y: nat, k: nat)
    requires |cells| == w * h && x < w && y < h && k <= |Directions|
    ensures CountAlive(cells, w, h, x, y, k) == |AliveDirections(cells, w, h, x, y, k)|
  {
    if k > 0 {
      CountAliveIsAliveDirections(cells, w, h, x, y, k - 1);
      AliveDirectionsGrow(cells, w, h, x, y, k);
    }
  }

  /** At most eight neighbours are alive. */
  lemma NeighbourCountBound(cells: seq<Byte>, w: nat, h: nat, x: nat, y: nat)
    requires |cells| == w * h && x < w && y < h
    ensures NeighbourCount(cells, w, h, x, y) <= 8
  {
    CountAliveIsAliveDirections(cells, w, h, x, y, |Directions|);
  }

  /** Only the value 255 is counted: two grids with the same live cells give
      the same count whatever their afterglow levels. */
  lemma CountIgnoresAfterglow(a: seq<Byte>, b: seq<Byte>, w: nat, h: nat, x: nat, y: nat)
    requires |a| == |b| == w * h && x < w && y < h
    requires forall i :: 0 <= i < |a| ==> (a[i] == ALIVE <==> b[i] == ALIVE)
    ensures NeighbourCount(a, w, h, x, y) == NeighbourCount(b, w, h, x, y)
  {
    assert AliveDirections(a, w, h, x, y, |Directions|) == AliveDirections(b, w, h, x, y, |Directions|);
  }

  /** A live neighbour in any of the eight directions is counted. */
  lemma CountSeesDirection(cells: seq<Byte>, w: nat, h: nat, x: nat, y: nat, d: nat)
    requires |cells| == w * h && x < w && y < h && d < |Directions|
    requires cells[NeighbourIndex(w, h, x, y, d)] == ALIVE
    ensures NeighbourCount(cells, w, h, x, y) >= 1
  {
    assert d in AliveDirections(cells, w, h, x, y, |Directions|);
  }

  /** Wrap-around: the cell (0, 0) counts a live cell at (w - 1, h - 1), its
      neighbour across both edges. */
  lemma CornerSeesOppositeCorner(cells: seq<Byte>, w: nat, h: nat)
    requires |cells| == w * h && w > 0 && h > 0
    requires cells[(w - 1) + (h - 1) * w] == ALIVE
    ensures NeighbourCount(cells, w, h, 0, 0) >= 1
  {
    assert NeighbourIndex(w, h, 0, 0, 0) == (w - 1) + (h - 1) * w;
    CountSeesDirection(cells, w, h, 0, 0, 0);
  }

  /** No live cell on the grid, no live neighbour. */
  lemma NoAliveNoCount(cells: seq<Byte>, w: nat, h: nat, x: nat, y: nat)
    requires |cells| == w * h && x < w && y < h
    requires forall i :: 0 <= i < |cells| ==> cells[i] != ALIVE
    ensures NeighbourCount(cells, w, h, x, y) == 0
  {
    assert AliveDirections(cells, w, h, x, y, |Directions|) == {};
  }

  /** On a grid where every cell is alive, all k directions count. */
  lemma {:induction false} AllAliveCountsEvery(cells: seq<Byte>, w: nat, h: nat, x: nat, y: nat, k: nat)
    requires |cells| == w * h && x < w && y < h && k <= |Directions|
    requires forall i :: 0 <= i < |cells| ==> cells[i] == ALIVE
    ensures CountAlive(cells, w, h, x, y, k) == k
  {
    if k > 0 {
      AllAliveCountsEvery(cells, w, h, x, y, k - 1);
    }
  }

  /** On a grid where every cell is alive, every cell has eight live neighbours. */
  lemma AllAliveNeighbourCount(cells: seq<Byte>, w: nat, h: nat, x: nat, y: nat)
    requires |cells| == w * h && x < w && y < h
    requires forall i :: 0 <= i < |cells| ==> cells[i] == ALIVE
    ensures NeighbourCount(cells, w, h, x, y) == 8
  {
    AllAliveCountsEvery(cells, w, h, x, y, |Directions|);
    CountAliveIsAliveDirections(cells, w, h, x, y, |Directions|);
  }

  /** On a 1 x 1 torus a live cell is its own neighbour eight times over. */
  lemma LoneCellOnUnitTorus(cells: seq<Byte>)
    requires |cells| == 1 && cells[0] == ALIVE
    ensures NeighbourCount(cells, 1, 1, 0, 0) == 8
  {
    AllAliveNeighbourCount(cells, 1, 1, 0, 0);
  }

  /** On a torus two cells wide, the left and the right neighbour are the same cell. */
  lemma NarrowTorusSidesCoincide(w: nat, h: nat, x: nat, y: nat)
    requires w == 2 && x < w && y < h
    ensures NeighbourIndex(w, h, x, y, 3) == NeighbourIndex(w, h, x, y, 4)
  {}

  /** The coordinate before c on a cycle of the given size. */
  function Before(c: nat, size: nat): (r: nat)
    requires c < size
    ensures r < size
  {
    if c == 0 then size - 1 else c - 1
  }

  /** The coordinate after c on a cycle of the given size. */
  function After(c: nat, size: nat): (r: nat)
    requires c < size
    ensures r < size
  {
    if c == size - 1 then 0 else c + 1
  }

  /** 1 if the cell (x, y) is alive, otherwise 0. */
  function LiveAt(cells: seq<Byte>, w: nat, h: nat, x: nat, y: nat): nat
    requires |cells| == w * h && x < w && y < h
  {
    IndexInBounds(w, h, x, y);
    if cells[x + y * w] == ALIVE then 1 else 0
  }

  /** A reference count: the live cells among the eight that surround (x, y)
      on the torus, row above, own row and row below, with wrap-around. */
  function Surrounding(cells: seq<Byte>, w: nat, h: nat, x: nat, y: nat): nat
    requires |cells| == w * h && x < w && y < h
  {
    var l, r, u, d := Before(x, w), After(x, w), Before(y, h), After(y, h);
    LiveAt(cells, w, h, l, u) + LiveAt(cells, w, h, x, u) + LiveAt(cells, w, h, r, u)
    + LiveAt(cells, w, h, l, y) + LiveAt(cells, w, h, r, y)
    + LiveAt(cells, w, h, l, d) + LiveAt(cells, w, h, x, d) + LiveAt(cells, w, h, r, d)
  }

  /** The engine's count over the eight directions is the reference count. */
  lemma SurroundingIsNeighbourCount(cells: seq<Byte>, w: nat, h: nat, x: nat, y: nat)
    requires |cells| == w * h && x < w && y < h
    ensures NeighbourCount(cells, w, h, x, y) == Surrounding(cells, w, h, x, y)
  {
    CountAliveIsAliveDirections(cells, w, h, x, y, |Directions|);
    var l, r, u, d := Before(x, w), After(x, w), Before(y, h), After(y, h);
    assert CountAlive(cells, w, h, x, y, 1) == LiveAt(cells, w, h, l, u);
    assert CountAlive(cells, w, h, x, y, 2) == CountAlive(cells, w, h, x, y, 1) + LiveAt(cells, w, h, x, u);
    assert CountAlive(cells, w, h, x, y, 3) == CountAlive(cells, w, h, x, y, 2) + LiveAt(cells, w, h, r, u);
    assert CountAlive(cells, w, h, x, y, 4) == CountAlive(cells, w, h, x, y, 3) + LiveAt(cells, w, h, l, y);
    assert CountAlive(cells, w, h, x, y, 5) == CountAlive(cells, w, h, x, y, 4) + LiveAt(cells, w, h, r, y);
    assert CountAlive(cells, w, h, x, y, 6) == CountAlive(cells, w, h, x, y, 5) + LiveAt(cells, w, h, l, d);
    assert CountAlive(cells, w, h, x, y, 7) == CountAlive(cells, w, h, x, y, 6) + LiveAt(cells, w, h, x, d);
    assert CountAlive(cells, w, h, x, y, 8) == CountAlive(cells, w, h, x, y, 7) + LiveAt(cells, w, h, r, d);
  }

  // ---------------------------------------------------------------------------
  // The rule (src/lib.rs)
  // ---------------------------------------------------------------------------

  /** `u8::saturating_sub(1)`. */
  function Decay(v: Byte): (r: Byte)
    // one level lower, clamped at zero
    ensures r <= v && (r == v - 1 || r == DEAD)
    ensures r == DEAD <==> v <= 1
  {
    if v == 0 then 0 else v - 1
  }

  /** The new value of a cell whose value is v and which has n live neighbours. */
  function Next(v: Byte, n: nat): (r: Byte)
    // Conway's B3/S23: born with three, survives with two or three
    ensures r == ALIVE <==> n == 3 || (v == ALIVE && n == 2)
    // a cell that is not alive afterwards only fades
    ensures r != ALIVE ==> r <= v
    ensures v == ALIVE && r != ALIVE ==> r == 254
    ensures v == 0 && r != ALIVE ==> r == 0
    ensures 0 < v < ALIVE && r != ALIVE ==> r == v - 1
  {
    var alive := v == ALIVE;
    if (alive && (n == 2 || n == 3)) || (!alive && n == 3) then ALIVE else Decay(v)
  }

  /** The next value of cell i, from the old grid only. */
  function NextAt(cells: seq<Byte>, w: nat, h: nat, i: nat): Byte
    requires |cells| == w * h && i < |cells|
  {
    CoordsOf(w, h, i);
    Next(cells[i], NeighbourCount(cells, w, h, i % w, i / w))
  }

  /** One generation: every cell's new value is computed from the old grid only. */
  function Step(cells: seq<Byte>, w: nat, h: nat): (r: seq<Byte>)
    requires |cells| == w * h
    ensures |r| == |cells|
  {
    seq(|cells|, i requires 0 <= i < |cells| => NextAt(cells, w, h, i))
  }

  /** The cell (x, y) of the next generation, from its old value and old neighbours. */
  lemma StepAt(cells: seq<Byte>, w: nat, h: nat, x: nat, y: nat)
    requires |cells| == w * h && x < w && y < h
    ensures x + y * w < |cells|
    ensures Step(cells, w, h)[x + y * w] == Next(cells[x + y * w], NeighbourCount(cells, w, h, x, y))
  {
    var i := x + y * w;
    IndexCoords(w, h, x, y);
    assert i % w == x && i / w == y;
    assert Step(cells, w, h)[i] == Next(cells[i], NeighbourCount(cells, w, h, i % w, i / w));
  }

  /** Afterglow only fades: a cell that is not alive in the next generation
      is at most as bright as it was. */
  lemma StepOnlyFades(cells: seq<Byte>, w: nat, h: nat, i: nat)
    requires |cells| == w * h && i < |cells|
    ensures Step(cells, w, h)[i] == ALIVE || Step(cells, w, h)[i] <= cells[i]
  {
    CoordsOf(w, h, i);
  }

  predicate AllDark(cells: seq<Byte>)
  {
    forall i :: 0 <= i < |cells| ==> cells[i] == DEAD
  }

  /** A cell of an all-zero world stays at zero for one generation. */
  lemma StepDarkAt(cells: seq<Byte>, w: nat, h: nat, i: nat)
    requires |cells| == w * h && AllDark(cells) && i < |cells|
    ensures Step(cells, w, h)[i] == DEAD
  {
    CoordsOf(w, h, i);
    NoAliveNoCount(cells, w, h, i % w, i / w);
  }

  /** An all-zero world stays all-zero for one generation. */
  lemma StepAllDark(cells: seq<Byte>, w: nat, h: nat)
    requires |cells| == w * h && AllDark(cells)
    ensures AllDark(Step(cells, w, h))
  {
    forall i | 0 <= i < |cells|
      ensures Step(cells, w, h)[i] == DEAD
    {
      StepDarkAt(cells, w, h, i);
    }
  }

  /** Without any live cell nothing is born: every cell just decays by one level. */
  lemma NoLifeDecays(cells: seq<Byte>, w: nat, h: nat, i: nat)
    requires |cells| == w * h && i < |cells|
    requires forall j :: 0 <= j < |cells| ==> cells[j] != ALIVE
    ensures Step(cells, w, h)[i] == Decay(cells[i])
  {
    CoordsOf(w, h, i);
    NoAliveNoCount(cells, w, h, i % w, i / w);
  }

  /** Without any live cell, the next generation has none either. */
  lemma NoLifeStaysLifeless(cells: seq<Byte>, w: nat, h: nat)
    requires |cells| == w * h
    requires forall j :: 0 <= j < |cells| ==> cells[j] != ALIVE
    ensures forall j :: 0 <= j < |cells| ==> Step(cells, w, h)[j] != ALIVE
  {
    forall j | 0 <= j < |cells|
      ensures Step(cells, w, h)[j] != ALIVE
    {
      NoLifeDecays(cells, w, h, j);
    }
  }

  /** In a lifeless world a cell at afterglow level 1 goes dark and stays dark. */
  lemma FadedCellStaysDark(cells: seq<Byte>, w: nat, h: nat, i: nat)
    requires |cells| == w * h && i < |cells| && cells[i] == 1
    requires forall j :: 0 <= j < |cells| ==> cells[j] != ALIVE
    ensures Step(cells, w, h)[i] == DEAD
    ensures Step(Step(cells, w, h), w, h)[i] == DEAD
  {
    NoLifeDecays(cells, w, h, i);
    NoLifeStaysLifeless(cells, w, h);
    NoLifeDecays(Step(cells, w, h), w, h, i);
  }

  /** n generations. */
  function Iterate(cells: seq<Byte>, w: nat, h: nat, n: nat): (r: seq<Byte>)
    requires |cells| == w * h
    ensures |r| == |cells|
    decreases n
  {
    if n == 0 then cells else Iterate(Step(cells, w, h), w, h, n - 1)
  }

  /** An all-zero world stays all-zero for any number of generations. */
  lemma {:induction false} IterateAllDark(cells: seq<Byte>, w: nat, h: nat, n: nat)
    requires |cells| == w * h && AllDark(cells)
    ensures AllDark(Iterate(cells, w, h, n))
    decreases n
  {
    if n > 0 {
      StepAllDark(cells, w, h);
      IterateAllDark(Step(cells, w, h), w, h, n - 1);
    }
  }

  /** Reads as a grid that came from the initializer: every cell fully alive or fully dark. */
  predicate Binary(cells: seq<Byte>)
  {
    forall i :: 0 <= i < |cells| ==> cells[i] == ALIVE || cells[i] == DEAD
  }

  // ---------------------------------------------------------------------------
  // Rendering
  // ---------------------------------------------------------------------------

  /** Reads the cell value back out of its pixel. */
  function CellOfPixel(p: seq<Byte>): Byte
    requires |p| == 4
  {
    if p[0] == 255 then ALIVE else p[1]
  }

  /** The RGBA pixel of a cell: opaque white when alive, otherwise black
      tinted cyan by the afterglow level. */
  function Pixel(v: Byte): (p: seq<Byte>)
    ensures |p| == 4 && p[3] == 255
    ensures v == ALIVE <==> p == [255, 255, 255, 255]
    ensures v != ALIVE ==> p[0] == 0 && p[1] == p[2] == v
    ensures CellOfPixel(p) == v
  {
    if v == ALIVE then [255, 255, 255, 255] else [0, v, v, 255]
  }

  /** The four bytes of pixel i of an RGBA frame. */
  ghost function FramePixel(frame: seq<Byte>, i: nat): seq<Byte>
    requires 4 * i + 4 <= |frame|
  {
    frame[4 * i .. 4 * i + 4]
  }

  /** `copy_from_slice` of one RGBA group into pixel i of the frame. */
  method CopyPixel(frame: array<Byte>, i: nat, rgba: seq<Byte>)
    requires |rgba| == 4 && 4 * i + 4 <= frame.Length
    modifies frame
    ensures frame[..] == old(frame[..])[.. 4 * i] + rgba + old(frame[..])[4 * i + 4 ..]
  {
    frame[4 * i] := rgba[0];
    frame[4 * i + 1] := rgba[1];
    frame[4 * i + 2] := rgba[2];
    frame[4 * i + 3] := rgba[3];
  }

  /** Writing pixel i leaves every other pixel as it was and makes pixel i the written group. */
  lemma SplicedPixel(frame: seq<Byte>, i: nat, rgba: seq<Byte>, j: nat)
    requires |rgba| == 4 && 4 * i + 4 <= |frame| && 4 * j + 4 <= |frame|
    ensures FramePixel(frame[.. 4 * i] + rgba + frame[4 * i + 4 ..], j) == if i == j then rgba else FramePixel(frame, j)
  {
    var s := frame[.. 4 * i] + rgba + frame[4 * i + 4 ..];
    assert |s| == |frame|;
    if i == j {
      assert s[4 * i .. 4 * i + 4] == rgba;
    } else {
      assert forall k :: 4 * j <= k < 4 * j + 4 ==> s[k] == frame[k];
    }
  }
}
