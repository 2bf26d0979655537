/**
  The solver's mutable state: the 9x9 grid array, the free-cell counter,
  the interactive cursor and the free-cell list, with the operations that
  change them in place.
*/
module Session {
  import opened Grid
  import opened Search

  // ---------------------------------------------------------------------
  // What `import_sudoku` and `change_cur_loc` compute, on values

  /** The board after the first `k` entries of `lst` were loaded, zeros skipped. */
  function ImportedPrefix(b: Board, lst: seq<int>, k: nat): (r: Board)
    requires IsBoard(b) && k <= 81 && |lst| >= 81
    ensures IsBoard(r)
    ensures forall m :: 0 <= m < 81 ==> r[m] == if m < k && lst[m] != 0 then lst[m] else b[m]
  {
    if k == 0 then b
    else
      var prev := ImportedPrefix(b, lst, k - 1);
      if lst[k - 1] != 0 then prev[k - 1 := lst[k - 1]] else prev
  }

  /** The number of non-zero entries among the first `k`. */
  function NonZeroCount(lst: seq<int>, k: nat): nat
    requires k <= |lst|
  {
    if k == 0 then 0 else NonZeroCount(lst, k - 1) + (if lst[k - 1] != 0 then 1 else 0)
  }

  /**
    Loading into an empty board leaves exactly as many empty cells as
    there are zero entries, so a counter that started at 81 and dropped
    once per non-zero entry counts the empty cells.
  */
  lemma {:induction false} ImportOnEmptyCount(b: Board, lst: seq<int>, k: nat)
    requires IsBoard(b) && k <= 81 && |lst| >= 81
    requires forall m :: 0 <= m < 81 ==> b[m] == 0
    ensures ZeroCount(ImportedPrefix(b, lst, k)) == 81 - NonZeroCount(lst, k)
  {
    if k == 0 {
      EmptyBeforeAllEmpty(b, 81);
    } else {
      ImportOnEmptyCount(b, lst, k - 1);
      var prev := ImportedPrefix(b, lst, k - 1);
      if lst[k - 1] != 0 {
        var p := FromIndex(k - 1);
        assert ImportedPrefix(b, lst, k) == Set(prev, p, lst[k - 1]);
        ZeroCountSet(prev, p, lst[k - 1]);
      }
    }
  }

  /**
    One axis of `change_cur_loc`: a unit step is taken when it stays on the
    board and ignored when it would leave it; any other change is ignored.
  */
  function Step(x: int, change: int): (y: int)
    ensures 0 <= x < 9 ==> 0 <= y < 9
    ensures 0 <= x < 9 && (change == 1 || change == -1) ==> (y == x + change <==> 0 <= x + change < 9)
    ensures change != 1 && change != -1 ==> y == x
    ensures y == x || y == x + change
  {
    if (change == 1 && x < 8) || (change == -1 && x > 0) then x + change else x
  }

  /** Digit keys 1..9 are the key codes 49..57. */
  function KeyDigit(key: int): (d: int)
    requires 49 <= key <= 57
    ensures 1 <= d <= 9
    ensures key == 48 + d
  {
    key - 48
  }

  // ---------------------------------------------------------------------
  // The session object

  class Sudoku {
    /** `sudoku_grid`: 0 is an empty cell, as an empty cell text in the window. */
    var grid: array2<int>
    /** The grid's contents as a row-major board. */
    ghost var board: Board
    /** `cnt_free_cells` */
    var cntFreeCells: int
    /** `cur_loc` */
    var cur: Point
    /** `lst_free_cells` */
    var freeCells: seq<Point>

    ghost predicate Valid()
      reads this, grid
    {
      && grid.Length0 == 9 && grid.Length1 == 9 && IsBoard(board)
      && (forall r, c :: 0 <= r < 9 && 0 <= c < 9 ==> grid[r, c] == At(board, Point(r, c)))
      && InGrid(cur) && AllInGrid(freeCells)
    }

    /** The initial globals: an all-zero grid, 81 free cells, the cursor at (0, 0), no free list. */
    constructor ()
      ensures Valid() && fresh(grid)
      ensures forall m :: 0 <= m < 81 ==> board[m] == 0
      ensures cntFreeCells == 81 == ZeroCount(board)
      ensures cur == Point(0, 0) && freeCells == []
    {
      var zeros: Board := seq(81, _ => 0);
      grid := new int[9, 9]((_, _) => 0);
      board := zeros;
      cntFreeCells := 81;
      cur := Point(0, 0);
      freeCells := [];
      EmptyBeforeAllEmpty(zeros, 81);
    }

    /** `value in sudoku_grid[:, column]`: some cell of the column holds `value`. */
    method ColumnHolds(value: int, column: int) returns (found: bool)
      requires Valid() && 0 <= column < 9
      ensures found <==> exists i :: 0 <= i < 9 && At(board, Point(i, column)) == value
    {
      for i := 0 to 9
        invariant forall i' :: 0 <= i' < i ==> At(board, Point(i', column)) != value
      {
        if grid[i, column] == value {
          return true;
        }
      }
      return false;
    }

    /** `value in sudoku_grid[row]`: some cell of the row holds `value`. */
    method RowHolds(value: int, row: int) returns (found: bool)
      requires Valid() && 0 <= row < 9
      ensures found <==> exists j :: 0 <= j < 9 && At(board, Point(row, j)) == value
    {
      for j := 0 to 9
        invariant forall j' :: 0 <= j' < j ==> At(board, Point(row, j')) != value
      {
        if grid[row, j] == value {
          return true;
        }
      }
      return false;
    }

    /** The block scan of `legal_next`: some cell of the block of `loc` other than `loc` holds `value`. */
    method BlockHolds(value: int, loc: Point) returns (found: bool)
      requires Valid() && InGrid(loc)
      ensures found <==>
        (exists i, j :: 0 <= i < 3 && 0 <= j < 3 && BlockCell(loc, i, j) != loc && At(board, BlockCell(loc, i, j)) == value)
    {
      var iOffset, jOffset := loc.row / 3, loc.column / 3;
      for i := 0 to 3
        invariant forall i', j' :: 0 <= i' < i && 0 <= j' < 3 && BlockCell(loc, i', j') != loc ==>
          At(board, BlockCell(loc, i', j')) != value
      {
        for j := 0 to 3
          invariant forall i', j' :: 0 <= i' < i && 0 <= j' < 3 && BlockCell(loc, i', j') != loc ==>
            At(board, BlockCell(loc, i', j')) != value
          invariant forall j' :: 0 <= j' < j && BlockCell(loc, i, j') != loc ==>
            At(board, BlockCell(loc, i, j')) != value
        {
          var p := Point(i + 3 * iOffset, j + 3 * jOffset);
          assert p == BlockCell(loc, i, j);
          if p != loc && grid[p.row, p.column] == value {
            return true;
          }
        }
      }
      return false;
    }

    /** `legal_next(value, loc)`: the cell is empty, then the column, row and block scans. */
    method LegalNext(value: int, loc: Point) returns (ok: bool)
      requires Valid() && InGrid(loc)
      ensures ok == Legal(board, value, loc)
    {
      if grid[loc.row, loc.column] != 0 {
        return false;
      }
      var inColumn := ColumnHolds(value, loc.column);
      if inColumn {
        return false;
      }
      var inRow := RowHolds(value, loc.row);
      if inRow {
        return false;
      }
      var inBlock := BlockHolds(value, loc);
      return !inBlock;
    }

    /** `change_value(value, loc)`: writes the cell and counts one free cell fewer. */
    method ChangeValue(value: int, loc: Point)
      requires Valid() && InGrid(loc)
      modifies this, grid
      ensures Valid() && grid == old(grid)
      ensures board == Set(old(board), loc, value) && cntFreeCells == old(cntFreeCells) - 1
      ensures cur == old(cur) && freeCells == old(freeCells)
    {
      grid[loc.row, loc.column] := value;
      board := Set(board, loc, value);
      cntFreeCells := cntFreeCells - 1;
    }

    /** `delete_value(loc)`: empties the cell and counts one free cell more, even if it was empty. */
    method DeleteValue(loc: Point)
      requires Valid() && InGrid(loc)
      modifies this, grid
      ensures Valid() && grid == old(grid)
      ensures board == Set(old(board), loc, 0) && cntFreeCells == old(cntFreeCells) + 1
      ensures cur == old(cur) && freeCells == old(freeCells)
    {
      grid[loc.row, loc.column] := 0;
      board := Set(board, loc, 0);
      cntFreeCells := cntFreeCells + 1;
    }

    /** `change_cur_loc(rowChange, columnChange)`: each axis moves by one unless that leaves the board. */
    method ChangeCurLoc(rowChange: int, columnChange: int)
      requires Valid()
      modifies this
      ensures Valid()
      ensures cur == Point(Step(old(cur).row, rowChange), Step(old(cur).column, columnChange))
      ensures board == old(board) && cntFreeCells == old(cntFreeCells) && freeCells == old(freeCells)
    {
      var row, column := cur.row, cur.column;
      if (rowChange == 1 && row < 8) || (rowChange == -1 && row > 0) {
        row := row + rowChange;
      }
      assert row == Step(cur.row, rowChange);
      if (columnChange == 1 && column < 8) || (columnChange == -1 && column > 0) {
        column := column + columnChange;
      }
      assert column == Step(cur.column, columnChange);
      cur := Point(row, column);
    }

    /** `make_free_cell_list`: appends the empty cells in row-major order to the existing list. */
    method MakeFreeCellList()
      requires Valid()
      modifies this
      ensures Valid() && grid == old(grid)
      ensures freeCells == old(freeCells) + FreeCells(board)
      ensures board == old(board) && cntFreeCells == old(cntFreeCells) && cur == old(cur)
    {
      for row := 0 to 9
        invariant Valid() && grid == old(grid) && board == old(board) && cntFreeCells == old(cntFreeCells) && cur == old(cur)
        invariant freeCells == old(freeCells) + FreePrefix(board, 9 * row)
      {
        for col := 0 to 9
          invariant Valid() && grid == old(grid) && board == old(board) && cntFreeCells == old(cntFreeCells) && cur == old(cur)
          invariant freeCells == old(freeCells) + FreePrefix(board, 9 * row + col)
        {
          FreePrefixNext(board, Point(row, col));
          if grid[row, col] == 0 {
            freeCells := freeCells + [Point(row, col)];
          }
        }
      }
    }

    /**
      `test_cell(index)`: one step of the search on free cell `index`, with
      the same new board and return code as `TestStep`.
    */
    method TestCell(index: int) returns (ret: int)
      requires Valid() && 0 <= index < |freeCells|
      modifies this, grid
      ensures Valid() && grid == old(grid) && cur == old(cur) && freeCells == old(freeCells)
      ensures board == TestStep(old(board), old(freeCells), index).board
      ensures ret == TestStep(old(board), old(freeCells), index).code
      ensures cntFreeCells - ZeroCount(board) == old(cntFreeCells - ZeroCount(board))
    {
      ghost var b0 := board;
      var loc := freeCells[index];
      var cellText := grid[loc.row, loc.column];
      var val;
      if cellText == 0 {
        val := 1;
      } else if 0 < cellText < 9 {
        DeleteValue(loc);
        ZeroCountSet(b0, loc, 0);
        val := cellText + 1;
      } else {
        if index == 0 {
          return 5;
        } else {
          DeleteValue(loc);
          ZeroCountSet(b0, loc, 0);
          return -1;
        }
      }
      ghost var cleared := board;
      var legal := LegalNext(val, loc);
      ChangeValue(val, loc);
      ZeroCountSet(cleared, loc, val);
      if legal {
        if index == |freeCells| - 1 {
          return 5;
        } else {
          return 1;
        }
      } else {
        return 0;
      }
    }

    /**
      `solve`: builds the free-cell list, then moves the cursor `retVal` by
      each step's code until a step returns 5. The search ends either with
      every free cell placed legally or, when the puzzle has no completion,
      with 9 left in the first free cell and the others empty.
    */
    method Solve()
      requires Valid() && freeCells == [] && FreeCells(board) != []
      modifies this, grid
      ensures Valid() && grid == old(grid)
      ensures freeCells == FreeCells(old(board)) && Outcome(old(board), freeCells, board)
      ensures Consistent(old(board)) && Solved(freeCells, board) ==> IsCompletion(old(board), board)
      ensures cntFreeCells - ZeroCount(board) == old(cntFreeCells - ZeroCount(board))
      ensures cur == old(cur)
    {
      MakeFreeCellList();
      ghost var g0 := board;
      ghost var fs := freeCells;
      assert fs == FreeCells(g0);
      SearchStarts(g0);
      var stop := false;
      var retVal := 0;
      while !stop
        invariant Valid() && grid == old(grid) && cur == old(cur) && freeCells == fs
        invariant cntFreeCells - ZeroCount(board) == old(cntFreeCells - ZeroCount(board))
        invariant !stop ==> 0 <= retVal < |fs|
        invariant Searching(g0, fs, board, retVal, stop)
        decreases Measure(fs, board, retVal, stop)
      {
        ghost var before, cursor := board, retVal;
        var tempVal := TestCell(retVal);
        retVal := retVal + tempVal;
        if tempVal == 5 {
          stop := true;
        }
        StepLands(g0, fs, before, cursor, board, tempVal, retVal, stop);
      }
      if Consistent(g0) && Solved(fs, board) {
        SolvedIsCompletion(g0, fs, board);
      }
    }

    /**
      `import_sudoku(lst)`: entry k of the row-major list goes to cell
      (k / 9, k % 9) when it is non-zero, with no legality check.
    */
    method ImportSudoku(lst: seq<int>)
      requires Valid() && |lst| >= 81
      modifies this, grid
      ensures Valid() && grid == old(grid)
      ensures board == ImportedPrefix(old(board), lst, 81)
      ensures cntFreeCells == old(cntFreeCells) - NonZeroCount(lst, 81)
      ensures (forall m :: 0 <= m < 81 ==> old(board)[m] == 0) && old(cntFreeCells) == 81 ==>
        cntFreeCells == ZeroCount(board)
      ensures cur == old(cur) && freeCells == old(freeCells)
    {
      ghost var b0 := board;
      var tempIndex := 0;
      for row := 0 to 9
        invariant Valid() && grid == old(grid) && cur == old(cur) && freeCells == old(freeCells)
        invariant tempIndex == 9 * row
        invariant board == ImportedPrefix(b0, lst, tempIndex)
        invariant cntFreeCells == old(cntFreeCells) - NonZeroCount(lst, tempIndex)
      {
        for col := 0 to 9
          invariant Valid() && grid == old(grid) && cur == old(cur) && freeCells == old(freeCells)
          invariant tempIndex == 9 * row + col
          invariant board == ImportedPrefix(b0, lst, tempIndex)
          invariant cntFreeCells == old(cntFreeCells) - NonZeroCount(lst, tempIndex)
        {
          var val := lst[tempIndex];
          if val != 0 {
            ChangeValue(val, Point(row, col));
          }
          tempIndex := tempIndex + 1;
        }
      }
      if (forall m :: 0 <= m < 81 ==> b0[m] == 0) && old(cntFreeCells) == 81 {
        ImportOnEmptyCount(b0, lst, 81);
      }
    }

    /**
      A digit key (codes 49..57) at the cursor: the digit is written only
      when `legal_next` allows it, which keeps a rule-abiding grid so.
    */
    method PressDigitKey(key: int) returns (written: bool)
      requires Valid()
      modifies this, grid
      ensures Valid() && grid == old(grid)
      ensures written <==> 49 <= key <= 57 && Legal(old(board), KeyDigit(key), cur)
      ensures board == if written then Set(old(board), cur, KeyDigit(key)) else old(board)
      ensures cntFreeCells == old(cntFreeCells) - (if written then 1 else 0)
      ensures cntFreeCells - ZeroCount(board) == old(cntFreeCells - ZeroCount(board))
      ensures Consistent(old(board)) ==> Consistent(board)
      ensures cur == old(cur) && freeCells == old(freeCells)
    {
      written := false;
      if 49 <= key <= 57 {
        var legal := LegalNext(KeyDigit(key), cur);
        if legal {
          ghost var b0 := board;
          ChangeValue(KeyDigit(key), cur);
          ZeroCountSet(b0, cur, KeyDigit(key));
          if Consistent(b0) {
            LegalPlacementKeepsConsistent(b0, KeyDigit(key), cur);
          }
          written := true;
        }
      }
    }
  }
}
