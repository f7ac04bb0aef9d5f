/** The Cell of solver.py: a position, an optional digit and a fixed editable flag. */
module Cells {
  import opened Outcome

  datatype Cell = Cell(row: int, col: int, value: Option<int>, editable: bool)

  /** The values the value setter accepts: None or a digit 1..9. */
  predicate ValueAllowed(v: Option<int>) {
    v.None? || 1 <= v.value <= 9
  }

  /** What the three setters guarantee of every Cell that exists. */
  predicate WellFormed(c: Cell) {
    0 <= c.row <= 8 && 0 <= c.col <= 8 && ValueAllowed(c.value)
  }

  /** The row setter: rows outside 0..8 raise. */
  function SetRow(c: Cell, row: int): (r: Result<Cell>)
    ensures r.Ok? <==> 0 <= row <= 8
    ensures r.Ok? ==> r.value.row == row && r.value.(row := c.row) == c
    ensures r.Err? ==> r.error == RowOutOfRange
  {
    if row < 0 || row > 8 then Err(RowOutOfRange) else Ok(c.(row := row))
  }

  /** The col setter: columns outside 0..8 raise. */
  function SetCol(c: Cell, col: int): (r: Result<Cell>)
    ensures r.Ok? <==> 0 <= col <= 8
    ensures r.Ok? ==> r.value.col == col && r.value.(col := c.col) == c
    ensures r.Err? ==> r.error == ColOutOfRange
  {
    if col < 0 || col > 8 then Err(ColOutOfRange) else Ok(c.(col := col))
  }

  /** The value setter: None is accepted, a number only when it is 1..9 (so 0 raises). */
  function SetValue(c: Cell, value: Option<int>): (r: Result<Cell>)
    ensures r.Ok? <==> ValueAllowed(value)
    ensures r.Ok? ==> r.value.value == value && r.value.(value := c.value) == c
    ensures r.Err? ==> r.error == ValueOutOfRange
  {
    if value.Some? && (value.value < 1 || value.value > 9) then Err(ValueOutOfRange)
    else Ok(c.(value := value))
  }

  /** Cell(row, col, value, editable): the row, col and value setters in that order. */
  function NewCell(row: int, col: int, value: Option<int>, editable: bool): (r: Result<Cell>)
    ensures r.Ok? <==> WellFormed(Cell(row, col, value, editable))
    ensures r.Ok? ==> r.value == Cell(row, col, value, editable)
    ensures r.Err? ==> r.error == (if !(0 <= row <= 8) then RowOutOfRange
                                  else if !(0 <= col <= 8) then ColOutOfRange
                                  else ValueOutOfRange)
  {
    var blank := Cell(0, 0, None, editable);
    match SetRow(blank, row)
    case Err(e) => Err(e)
    case Ok(c1) =>
      match SetCol(c1, col)
      case Err(e) => Err(e)
      case Ok(c2) => SetValue(c2, value)
  }
}
