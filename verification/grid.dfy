/**
 * Pixel geometry of the board: the window and cell constants, positions,
 * the four movement directions and the toroidal wrap-around that every
 * move goes through.
 */
module Grid {

  /** Side of the square window, in pixels. */
  const WindowSize: int := 800

  /** Side of one grid cell, in pixels. */
  const GridSize: int := 20

  /** Number of cells along one side of the window (integer division). */
  const GridCount: int := WindowSize / GridSize

  /** A pixel position; y grows downwards, as on screen. */
  datatype Pos = Pos(x: int, y: int)

  /** The centre of the window, where a snake starts. */
  const Center: Pos := Pos(WindowSize / 2, WindowSize / 2)

  datatype Direction = Up | Down | Left | Right

  /** Horizontal component of the direction's unit vector. */
  function DeltaX(d: Direction): int {
    match d
    case Left => -1
    case Right => 1
    case _ => 0
  }

  /** Vertical component of the direction's unit vector. */
  function DeltaY(d: Direction): int {
    match d
    case Up => -1
    case Down => 1
    case _ => 0
  }

  /** The direction pointing the other way. */
  function Opposite(d: Direction): (r: Direction)
    ensures DeltaX(r) == -DeltaX(d) && DeltaY(r) == -DeltaY(d)
    ensures r != d
  {
    match d
    case Up => Down
    case Down => Up
    case Left => Right
    case Right => Left
  }

  /** A direction is determined by its unit vector, so Opposite is an involution. */
  lemma OppositeInvolutive(d: Direction)
    ensures Opposite(Opposite(d)) == d
  {
  }

  /** A coordinate that is a multiple of the cell size inside the window. */
  predicate OnAxis(v: int) {
    0 <= v < WindowSize && v % GridSize == 0
  }

  /** A position at the top-left corner of some cell of the board. */
  predicate OnGrid(p: Pos) {
    OnAxis(p.x) && OnAxis(p.y)
  }

  /** Wrapping moves a value by a whole number of window widths and keeps cell alignment. */
  lemma RemainderFacts(v: int)
    ensures (v % WindowSize - v) % WindowSize == 0
    ensures v % GridSize == 0 ==> (v % WindowSize) % GridSize == 0
  {
    var q := v / WindowSize;
    assert v % WindowSize - v == -q * WindowSize;
    if v % GridSize == 0 {
      var k := v / GridSize;
      assert v % WindowSize == (k - GridCount * q) * GridSize;
    }
  }

  /** The value v reduced into [0, WindowSize), as Python's `%` does for a positive modulus. */
  function Wrap(v: int): (r: int)
    ensures 0 <= r < WindowSize
    ensures (r - v) % WindowSize == 0
    ensures v % GridSize == 0 ==> r % GridSize == 0
  {
    RemainderFacts(v);
    v % WindowSize
  }

  /** The wrap is the only value in the window congruent to v. */
  lemma WrapUnique(v: int, r: int)
    requires 0 <= r < WindowSize
    requires (r - v) % WindowSize == 0
    ensures r == Wrap(v)
  {
  }

  /** The cell one step away from p in direction d, wrapping around the window edges. */
  function NextPos(p: Pos, d: Direction): (r: Pos)
    ensures 0 <= r.x < WindowSize && 0 <= r.y < WindowSize
    ensures (r.x - (p.x + DeltaX(d) * GridSize)) % WindowSize == 0
    ensures (r.y - (p.y + DeltaY(d) * GridSize)) % WindowSize == 0
    ensures OnGrid(p) ==> OnGrid(r)
  {
    Pos(Wrap(p.x + DeltaX(d) * GridSize), Wrap(p.y + DeltaY(d) * GridSize))
  }

  /**
   * On the board, a move goes exactly one cell in its direction, except that
   * leaving through an edge re-enters at the opposite edge.
   */
  lemma NextPosWrapsAtEdges(p: Pos, d: Direction)
    requires OnGrid(p)
    ensures var r := NextPos(p, d);
      && (0 <= p.x + DeltaX(d) * GridSize < WindowSize ==> r.x == p.x + DeltaX(d) * GridSize)
      && (0 <= p.y + DeltaY(d) * GridSize < WindowSize ==> r.y == p.y + DeltaY(d) * GridSize)
      && (p.x == WindowSize - GridSize && d == Right ==> r.x == 0)
      && (p.x == 0 && d == Left ==> r.x == WindowSize - GridSize)
      && (p.y == WindowSize - GridSize && d == Down ==> r.y == 0)
      && (p.y == 0 && d == Up ==> r.y == WindowSize - GridSize)
  {
  }

  /** Stepping back the opposite way undoes a move, also across an edge. */
  lemma NextPosUndo(p: Pos, d: Direction)
    requires 0 <= p.x < WindowSize && 0 <= p.y < WindowSize
    ensures NextPos(NextPos(p, d), Opposite(d)) == p
  {
  }
}
