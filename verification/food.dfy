/**
 * The food: a single board cell, moved to a randomly drawn cell whenever it
 * is placed. The random draw itself is an input: a column and a row index.
 */
module Foods {
  import opened Grid

  /** A cell of the board by column and row index, as drawn by the caller. */
  datatype Cell = Cell(col: int, row: int)

  /** Both indices lie in 0 .. GridCount - 1, the inclusive range of the draw. */
  predicate ValidCell(c: Cell) {
    0 <= c.col < GridCount && 0 <= c.row < GridCount
  }

  /** The food item; only its position matters to the game (its colour is cosmetic). */
  datatype Food = Food(position: Pos)

  /**
   * Places the food on the drawn cell. The result is grid-aligned and lies
   * inside the window, at most one cell short of the far edges. Also the
   * initial placement, since a new food item is placed straight away.
   */
  function RandomizePosition(c: Cell): (r: Food)
    requires ValidCell(c)
    ensures OnGrid(r.position)
    ensures r.position.x <= WindowSize - GridSize && r.position.y <= WindowSize - GridSize
  {
    Food(Pos(c.col * GridSize, c.row * GridSize))
  }

  /** Every cell of the board can be drawn, by exactly one pair of indices. */
  lemma RandomizePositionCoversBoard(p: Pos)
    requires OnGrid(p)
    ensures exists c :: ValidCell(c) && RandomizePosition(c).position == p
    ensures forall c1, c2 ::
      ValidCell(c1) && ValidCell(c2) && RandomizePosition(c1).position == p && RandomizePosition(c2).position == p
      ==> c1 == c2
  {
    var c := Cell(p.x / GridSize, p.y / GridSize);
    assert RandomizePosition(c).position == p;
  }
}
