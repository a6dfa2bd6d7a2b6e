/** The mine field of a Minesweeper game: a rectangular grid of booleans that
    says where the mines are, the permissive queries over it, the adjacency
    count, and the two mutators that empty and randomly populate it.
 */
module MineFieldModel {
  import opened Grids

  function IsMine(b: bool): bool {
    b
  }

  /** (row, col) lies in g and holds a mine; false for any position outside g. */
  predicate MineAt(g: seq<seq<bool>>, row: int, col: int) {
    At(g, IsMine, row, col)
  }

  /** Number of mines in g. */
  function MineCount(g: seq<seq<bool>>): nat {
    Count(g, IsMine)
  }

  /** Number of mines in the 3x3 block centred on (row, col), the centre included. */
  function BlockMines(g: seq<seq<bool>>, row: int, col: int): nat {
    CountIn(g, IsMine, row - 1, row + 2, col - 1, col + 2)
  }

  /** Number of mines among the eight cells around (row, col), the centre excluded. */
  function NeighbourMines(g: seq<seq<bool>>, row: int, col: int): (n: nat)
    ensures n <= 8
  {
    Bit(MineAt(g, row - 1, col - 1)) + Bit(MineAt(g, row - 1, col)) + Bit(MineAt(g, row - 1, col + 1)) +
    Bit(MineAt(g, row, col - 1)) + Bit(MineAt(g, row, col + 1)) +
    Bit(MineAt(g, row + 1, col - 1)) + Bit(MineAt(g, row + 1, col)) + Bit(MineAt(g, row + 1, col + 1))
  }

  /** The block count is the neighbour count plus one for a mine at the centre;
      on a cell without a mine the two agree and lie in [0, 8]. */
  lemma BlockIsNeighboursAndCentre(g: seq<seq<bool>>, row: int, col: int)
    ensures BlockMines(g, row, col) == NeighbourMines(g, row, col) + Bit(MineAt(g, row, col))
    ensures !MineAt(g, row, col) ==> BlockMines(g, row, col) <= 8
  {
    var r0, c0, c1 := row - 1, col - 1, col + 2;
    RowOfThree(g, row - 1, col);
    RowOfThree(g, row, col);
    RowOfThree(g, row + 1, col);
    assert CountIn(g, IsMine, r0, row, c0, c1) == CountRow(g, IsMine, row - 1, c0, c1);
    assert CountIn(g, IsMine, r0, row + 1, c0, c1) ==
      CountIn(g, IsMine, r0, row, c0, c1) + CountRow(g, IsMine, row, c0, c1);
  }

  lemma RowOfThree(g: seq<seq<bool>>, i: int, col: int)
    ensures CountRow(g, IsMine, i, col - 1, col + 2) ==
              Bit(MineAt(g, i, col - 1)) + Bit(MineAt(g, i, col)) + Bit(MineAt(g, i, col + 1))
  {
    assert CountRow(g, IsMine, i, col - 1, col) == Bit(MineAt(g, i, col - 1));
    assert CountRow(g, IsMine, i, col - 1, col + 1) == CountRow(g, IsMine, i, col - 1, col) + Bit(MineAt(g, i, col));
  }

  /** A one-cell field holding a mine: the block count is 1, although no
      neighbour holds a mine. */
  lemma BlockCountsCentre()
    ensures BlockMines([[true]], 0, 0) == 1
    ensures NeighbourMines([[true]], 0, 0) == 0
  {
  }

  /** A field with fewer mines than cells minus one has, besides any given
      mine-free cell, another mine-free cell. */
  lemma FreeCellExists(g: seq<seq<bool>>, rows: int, cols: int, row: int, col: int)
    requires Rect(g, rows, cols) && 0 <= row < rows && 0 <= col < cols
    requires !g[row][col]
    requires MineCount(g) < rows * cols - 1
    ensures exists i, j :: 0 <= i < rows && 0 <= j < cols && (i != row || j != col) && !g[i][j]
  {
    var h := g[row := g[row][col := true]];
    CountOneMore(g, IsMine, h, IsMine, 0, rows, 0, cols, row, col);
    if forall i, j | 0 <= i < rows && 0 <= j < cols :: At(h, IsMine, i, j) {
      CountFull(h, IsMine, 0, rows, 0, cols);
      assert false;
    }
    var i, j :| 0 <= i < rows && 0 <= j < cols && !At(h, IsMine, i, j);
    assert (i != row || j != col) && !g[i][j];
  }

  /** Once every square but the excluded one holds a mine, no square is left
      for the next placement: the retry loop can then never end. */
  lemma NoFreeCellWhenFull(g: seq<seq<bool>>, rows: int, cols: int, row: int, col: int)
    requires Rect(g, rows, cols) && 0 <= row < rows && 0 <= col < cols
    requires !g[row][col] && MineCount(g) == rows * cols - 1
    ensures forall i, j | 0 <= i < rows && 0 <= j < cols && (i != row || j != col) :: g[i][j]
  {
    forall i, j | 0 <= i < rows && 0 <= j < cols && (i != row || j != col)
      ensures g[i][j]
    {
      if !g[i][j] {
        var h := g[row := g[row][col := true]];
        CountOneMore(g, IsMine, h, IsMine, 0, rows, 0, cols, row, col);
        var k := h[i := h[i][j := true]];
        CountOneMore(h, IsMine, k, IsMine, 0, rows, 0, cols, i, j);
        CountBound(k, IsMine, 0, rows, 0, cols);
        assert false;
      }
    }
  }

  /** A field built from the full 1x2 grid holds two mines.  Populating it
      while avoiding (0, 0) places the first mine on (0, 1), after which no
      square is left for the second. */
  lemma FullFieldCannotBePopulated()
    ensures MineCount([[true, true]]) == 2
    ensures MineCount([[false, true]]) == 1
    ensures forall i, j | 0 <= i < 1 && 0 <= j < 2 && (i != 0 || j != 0) :: [[false, true]][i][j]
  {
  }

  class MineField {
    const mineData: array2<bool>
    const numRow: int
    const numCol: int
    const numMines: int

    /** Dimensions agree with the grid and are positive; the target mine count is
        not negative.  The actual number of mines may differ from numMines. */
    predicate Valid() {
      numRow == mineData.Length0 && numCol == mineData.Length1 &&
      numRow > 0 && numCol > 0 && numMines >= 0
    }

    /** Where the mines are, row by row. */
    ghost function Cells(): seq<seq<bool>>
      reads mineData
    {
      Snapshot(mineData)
    }

    /** Builds a field over the given grid; numMines is the number of mines it holds. */
    constructor FromGrid(data: array2<bool>)
      requires data.Length0 > 0 && data.Length1 > 0
      ensures Valid() && mineData == data
      ensures numRow == data.Length0 && numCol == data.Length1
      ensures numMines == MineCount(Cells())
    {
      mineData := data;
      numRow := data.Length0;
      numCol := data.Length1;
      ghost var g := Snapshot(data);
      var mineCounter := 0;
      for i := 0 to data.Length0
        invariant mineCounter == CountIn(g, IsMine, 0, i, 0, data.Length1)
      {
        for j := 0 to data.Length1
          invariant mineCounter == CountIn(g, IsMine, 0, i, 0, data.Length1) + CountRow(g, IsMine, i, 0, j)
        {
          if data[i, j] {
            mineCounter := mineCounter + 1;
          }
        }
      }
      numMines := mineCounter;
    }

    /** Builds an empty field that is meant to hold numMines mines once populated. */
    constructor Empty(numRows: int, numCols: int, numMines: int)
      requires numRows > 0 && numCols > 0
      requires 0 <= numMines && 3 * numMines < numRows * numCols
      ensures Valid() && fresh(mineData)
      ensures numRow == numRows && numCol == numCols && this.numMines == numMines
      ensures forall i, j | 0 <= i < numRows && 0 <= j < numCols :: !mineData[i, j]
      ensures MineCount(Cells()) == 0
    {
      numRow := numRows;
      numCol := numCols;
      mineData := new bool[numRows, numCols];
      this.numMines := numMines;
      new;
      ResetEmpty();
    }

    /** Removes every mine; the dimensions and numMines stay as they are. */
    method ResetEmpty()
      requires Valid()
      modifies mineData
      ensures forall i, j | 0 <= i < numRow && 0 <= j < numCol :: !mineData[i, j]
      ensures MineCount(Cells()) == 0
    {
      for i := 0 to numRow
        invariant forall k, l | 0 <= k < i && 0 <= l < numCol :: !mineData[k, l]
      {
        for j := 0 to numCol
          invariant forall k, l | 0 <= k < i && 0 <= l < numCol :: !mineData[k, l]
          invariant forall l | 0 <= l < j :: !mineData[i, l]
        {
          mineData[i, j] := false;
        }
      }
      CountZero(Cells(), IsMine, 0, numRow, 0, numCol);
    }

    /** Empties the field, then places numMines mines on distinct cells, none of
        them on (row, col).  Each placement picks any free cell other than
        (row, col), which is what the Java's retry-until-free sampling ends in. */
    method PopulateMineField(row: int, col: int)
      requires Valid() && InRange(row, col)
      requires numMines < numRow * numCol
      modifies mineData
      ensures MineCount(Cells()) == numMines
      ensures !mineData[row, col]
    {
      ResetEmpty();
      for i := 1 to numMines + 1
        invariant MineCount(Cells()) == i - 1
        invariant !mineData[row, col]
      {
        ghost var before := Cells();
        FreeCellExists(before, numRow, numCol, row, col);
        var rowFill, colFill :| 0 <= rowFill < numRow && 0 <= colFill < numCol &&
                                !(row == rowFill && col == colFill) && !mineData[rowFill, colFill];
        mineData[rowFill, colFill] := true;
        CountOneMore(before, IsMine, Cells(), IsMine, 0, numRow, 0, numCol, rowFill, colFill);
      }
    }

    /** Number of mines in the 3x3 block around (row, col), the centre included;
        positions outside the field contribute nothing. */
    method NumAdjacentMines(row: int, col: int) returns (count: int)
      requires Valid() && InRange(row, col)
      ensures count == NeighbourMines(Cells(), row, col) + Bit(HasMine(row, col))
      ensures 0 <= count <= 9
    {
      ghost var g := Cells();
      count := 0;
      for i := row - 1 to row + 2
        invariant count == CountIn(g, IsMine, row - 1, i, col - 1, col + 2)
      {
        for j := col - 1 to col + 2
          invariant count == CountIn(g, IsMine, row - 1, i, col - 1, col + 2) + CountRow(g, IsMine, i, col - 1, j)
        {
          if HasMine(i, j) {
            count := count + 1;
          }
        }
      }
      BlockIsNeighboursAndCentre(g, row, col);
    }

    /** (row, col) is a position of the field. */
    function InRange(row: int, col: int): (b: bool)
      ensures Valid() ==> (b <==> 0 <= row < mineData.Length0 && 0 <= col < mineData.Length1)
    {
      col < numCol && col >= 0 && row < numRow && row >= 0
    }

    /** There is a mine at (row, col); false for any position outside the field. */
    function HasMine(row: int, col: int): (b: bool)
      requires Valid()
      reads mineData
      ensures b <==> MineAt(Cells(), row, col)
    {
      if InRange(row, col) then mineData[row, col] else false
    }

    function NumRows(): (n: int)
      requires Valid()
      ensures n == mineData.Length0 && n > 0
    {
      numRow
    }

    function NumCols(): (n: int)
      requires Valid()
      ensures n == mineData.Length1 && n > 0
    {
      numCol
    }

    function NumMines(): (n: int)
      requires Valid()
      ensures n >= 0
    {
      numMines
    }
  }
}
