/**
  The layout rule of `fillTable`: one header cell per category, then
  `NumberOfCluesPerCategory` rows in which the cell of column `c` holds
  category `c`'s clue of that row, labelled with its value. Reading a clue
  that a category does not have (`clue.id` of undefined) throws, and the row
  being built is then never appended.
 */
module Board {
  import opened Data

  /** A clue cell: the keys its click reports, and the value shown on it. */
  datatype Cell = Cell(catId: CategoryId, clueId: ClueId, value: int)

  /** The cell of `cat`'s column in `row`: the keys `.data({ cat, clue })` stores and the value of its `"$" + value` label. */
  function CellAt(cat: Category, row: nat): (cell: Cell)
    requires row < |cat.clues|
    ensures cell.catId == cat.id
    ensures cell.clueId == cat.clues[row].id && cell.value == cat.clues[row].value
  {
    Cell(cat.id, cat.clues[row].id, cat.clues[row].value)
  }

  /**
    Returns the header titles, the rows appended to the table body, and
    whether the table was completed (false: the loop threw at the first row
    some category cannot fill).
   */
  method FillTable(cats: seq<Category>) returns (header: seq<string>, rows: seq<seq<Cell>>, ok: bool)
    ensures |header| == |cats| && forall c :: 0 <= c < |cats| ==> header[c] == cats[c].title
    ensures ok <==> FullBoard(cats)
    ensures ok ==> |rows| == NumberOfCluesPerCategory
    ensures !ok ==> |rows| < NumberOfCluesPerCategory && exists c :: 0 <= c < |cats| && |cats[c].clues| == |rows|
    ensures forall c :: 0 <= c < |cats| ==> |rows| <= |cats[c].clues|
    ensures forall r :: 0 <= r < |rows| ==> |rows[r]| == |cats|
    ensures forall r, c :: 0 <= r < |rows| && 0 <= c < |cats| ==> rows[r][c] == CellAt(cats[c], r)
  {
    header := [];
    for c := 0 to |cats|
      invariant |header| == c && forall k :: 0 <= k < c ==> header[k] == cats[k].title
    {
      header := header + [cats[c].title];
    }

    rows := [];
    var row := 0;
    while row < NumberOfCluesPerCategory
      invariant 0 <= row <= NumberOfCluesPerCategory && |rows| == row
      invariant forall c :: 0 <= c < |cats| ==> row <= |cats[c].clues|
      invariant forall r :: 0 <= r < row ==> |rows[r]| == |cats|
      invariant forall r, c :: 0 <= r < row && 0 <= c < |cats| ==> rows[r][c] == CellAt(cats[c], r)
    {
      var tr := [];
      for c := 0 to |cats|
        invariant |tr| == c
        invariant forall k :: 0 <= k < c ==> row < |cats[k].clues| && tr[k] == CellAt(cats[k], row)
      {
        if |cats[c].clues| <= row {
          ok := false;
          return;
        }
        tr := tr + [CellAt(cats[c], row)];
      }
      rows := rows + [tr];
      row := row + 1;
    }
    ok := true;
  }
}
