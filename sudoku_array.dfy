/** The stand-alone solver of the sudoku command over a 9 by 9 array,
    board[row][col]. Its cells are viewed through Flat, the board package's
    flat layout, so that both solvers are specified by the same rules:
    board[row][col] is Cell(Flat(board), row, col). */
module SudokuArray {
  import opened Options
  import opened SudokuRules

  /** The array as the board package stores it: cell (x, y) at y * 9 + x. */
  function Flat(a: array2<byte>): (s: seq<byte>)
    requires a.Length0 == 9 && a.Length1 == 9
    reads a
    ensures |s| == 81
  {
    seq(81, k requires 0 <= k < 81 reads a => a[k % 9, k / 9])
  }

  /** Key y * 9 + x names exactly the cell (x, y). */
  lemma Coordinates(k: int, x: int, y: int)
    requires 0 <= k < 81 && 0 <= x < 9 && 0 <= y < 9
    ensures k % 9 == x && k / 9 == y <==> k == y * 9 + x
  {
  }

  /** Cell (x, y) of the flat view is the array's element board[x][y]. */
  lemma FlatCell(a: array2<byte>, x: int, y: int)
    requires a.Length0 == 9 && a.Length1 == 9 && 0 <= x < 9 && 0 <= y < 9
    ensures Cell(Flat(a), x, y) == a[x, y]
  {
    Coordinates(y * 9 + x, x, y);
  }

  /** The assignment board[row][col] = v, seen through the flat view. */
  method Store(board: array2<byte>, row: byte, col: byte, v: byte)
    requires board.Length0 == 9 && board.Length1 == 9 && row < 9 && col < 9
    modifies board
    ensures Flat(board) == old(Flat(board))[col as int * 9 + row as int := v]
  {
    ghost var s := Flat(board);
    board[row, col] := v;
    forall k | 0 <= k < 81 ensures Flat(board)[k] == s[col as int * 9 + row as int := v][k] {
      Coordinates(k, row as int, col as int);
    }
  }

  /** findEmptyCell: the first empty cell in row-major order, or
      (255, 255, false) when every cell is filled. */
  method FindEmptyCell(board: array2<byte>) returns (row: byte, col: byte, found: bool)
    requires board.Length0 == 9 && board.Length1 == 9
    ensures found <==> FirstEmpty(Flat(board)).Some?
    ensures found ==> FirstEmpty(Flat(board)).value == (row as int, col as int)
    ensures !found ==> row == 255 && col == 255
  {
    ghost var s := Flat(board);
    var i: byte := 0;
    while i < 9
      invariant 0 <= i <= 9
      invariant forall x, y :: 0 <= x < 9 && 0 <= y < 9 && x * 9 + y < i as int * 9 ==> Cell(s, x, y) != 0
    {
      var j: byte := 0;
      while j < 9
        invariant 0 <= j <= 9
        invariant forall x, y :: 0 <= x < 9 && 0 <= y < 9 && x * 9 + y < i as int * 9 + j as int ==> Cell(s, x, y) != 0
      {
        FlatCell(board, i as int, j as int);
        if board[i, j] == 0 {
          FirstEmptyAt(s, i as int, j as int);
          return i, j, true;
        }
        j := j + 1;
      }
      i := i + 1;
    }
    FirstEmptyAt(s, 9, 0);
    return 255, 255, false;
  }

  /** isValid: num may go into board[row][col] exactly when it is absent
      from the row, the column and the 3 by 3 box of that cell; the three
      loops are checked in this order. */
  method IsValid(board: array2<byte>, num: byte, row: byte, col: byte) returns (valid: bool)
    requires board.Length0 == 9 && board.Length1 == 9 && row < 9 && col < 9
    ensures valid <==> Placeable(Flat(board), num, row as int, col as int)
  {
    valid := NotInRow(board, num, row);
    if !valid {
      return;
    }
    valid := NotInColumn(board, num, col);
    if !valid {
      return;
    }
    valid := NotInBox(board, num, row, col);
  }

  /** The first loop of isValid: num is not in board[row]. */
  method NotInRow(board: array2<byte>, num: byte, row: byte) returns (absent: bool)
    requires board.Length0 == 9 && board.Length1 == 9 && row < 9
    ensures absent <==> !InLineX(Flat(board), num, row as int)
  {
    ghost var s, x := Flat(board), row as int;
    var i := 0;
    while i < 9
      invariant 0 <= i <= 9
      invariant forall i' :: 0 <= i' < i ==> Cell(s, x, i') != num
    {
      FlatCell(board, row as int, i);
      if board[row, i] == num {
        return false;
      }
      i := i + 1;
    }
    return true;
  }

  /** The second loop of isValid: num is not in column col. */
  method NotInColumn(board: array2<byte>, num: byte, col: byte) returns (absent: bool)
    requires board.Length0 == 9 && board.Length1 == 9 && col < 9
    ensures absent <==> !InLineY(Flat(board), num, col as int)
  {
    ghost var s, y := Flat(board), col as int;
    var i := 0;
    while i < 9
      invariant 0 <= i <= 9
      invariant forall i' :: 0 <= i' < i ==> Cell(s, i', y) != num
    {
      FlatCell(board, i, col as int);
      if board[i, col] == num {
        return false;
      }
      i := i + 1;
    }
    return true;
  }

  /** The third loop of isValid: num is not in the 3 by 3 box of
      board[row][col]. */
  method NotInBox(board: array2<byte>, num: byte, row: byte, col: byte) returns (absent: bool)
    requires board.Length0 == 9 && board.Length1 == 9 && row < 9 && col < 9
    ensures absent <==> !InBox(Flat(board), num, row as int, col as int)
  {
    ghost var s, x, y := Flat(board), row as int, col as int;
    var startRow, startCol := row - row % 3, col - col % 3;
    var bi: byte := 0;
    while bi < 3
      invariant 0 <= bi <= 3
      invariant forall i', j' :: 0 <= i' < 3 && 0 <= j' < 3 && i' * 3 + j' < bi as int * 3 ==> BoxCell(s, x, y, i', j') != num
    {
      var bj: byte := 0;
      while bj < 3
        invariant 0 <= bj <= 3
        invariant forall i', j' :: 0 <= i' < 3 && 0 <= j' < 3 && i' * 3 + j' < bi as int * 3 + bj as int ==> BoxCell(s, x, y, i', j') != num
      {
        FlatCell(board, (bi + startRow) as int, (bj + startCol) as int);
        if board[bi + startRow, bj + startCol] == num {
          assert BoxCell(s, x, y, bi as int, bj as int) == num;
          return false;
        }
        bj := bj + 1;
      }
      bi := bi + 1;
    }
    return true;
  }

  /** solveSudoku: backtracking in place. The result and the final board
      are those of Solve on the initial board, so a true result leaves a
      filled completion of the clues and a false one the board as it was. */
  method SolveSudoku(board: array2<byte>) returns (solved: bool)
    requires board.Length0 == 9 && board.Length1 == 9
    modifies board
    ensures (solved, Flat(board)) == Solve(old(Flat(board)))
    decreases Zeros(Flat(board)), 2
  {
    ghost var s := Flat(board);
    var row, col, found := FindEmptyCell(board);
    FirstEmptyIff(s);
    if !found {
      return true;
    }
    solved := TryDigits(board, row, col);
  }

  /** The digit loop of solveSudoku at the empty cell board[row][col],
      digit by digit until one leads to a solution. */
  method TryDigits(board: array2<byte>, row: byte, col: byte) returns (solved: bool)
    requires board.Length0 == 9 && board.Length1 == 9 && row < 9 && col < 9 && Cell(Flat(board), row as int, col as int) == 0
    modifies board
    ensures (solved, Flat(board)) == TryFrom(old(Flat(board)), row as int, col as int, 1)
    decreases Zeros(Flat(board)), 1
  {
    ghost var s := Flat(board);
    var num: byte := 1;
    while num <= 9
      invariant 1 <= num <= 10
      invariant Flat(board) == s
      invariant TryFrom(s, row as int, col as int, 1) == TryFrom(s, row as int, col as int, num as int)
      decreases 10 - num
    {
      solved := TryDigit(board, row, col, num);
      if solved {
        return;
      }
      num := num + 1;
    }
    return false;
  }

  /** One pass of the digit loop: when isValid allows num at
      board[row][col] it is written and the rest solved; on failure the
      cell is reset to 0, so the board is as before and the search goes on
      with the next digit. */
  method TryDigit(board: array2<byte>, row: byte, col: byte, num: byte) returns (solved: bool)
    requires board.Length0 == 9 && board.Length1 == 9 && row < 9 && col < 9 && Cell(Flat(board), row as int, col as int) == 0
    requires 1 <= num <= 9
    modifies board
    ensures solved ==> (true, Flat(board)) == TryFrom(old(Flat(board)), row as int, col as int, num as int)
    ensures !solved ==> Flat(board) == old(Flat(board))
    ensures !solved ==>
      TryFrom(old(Flat(board)), row as int, col as int, num as int) == TryFrom(old(Flat(board)), row as int, col as int, num as int + 1)
    decreases Zeros(Flat(board)), 0
  {
    ghost var s := Flat(board);
    ghost var k := col as int * 9 + row as int;
    var ok := IsValid(board, num, row, col);
    if !ok {
      return false;
    }
    Store(board, row, col, num);
    ZerosUpdate(s, k, num);
    solved := SolveSudoku(board);
    SolveSound(s[k := num]);
    if !solved {
      Store(board, row, col, 0);
      assert s[k := num][k := 0] == s;
    }
  }

  /** On a board with clues the solver's guarantees: success fills every
      cell and keeps every clue, failure leaves every cell as it was. */
  lemma SolveSudokuOutcome(s: seq<byte>)
    requires |s| == 81
    ensures Solve(s).0 ==> Zeros(Solve(s).1) == 0 && Extends(Solve(s).1, s)
    ensures !Solve(s).0 ==> Solve(s).1 == s
  {
    SolveSound(s);
    ZerosFilled(Solve(s).1);
  }
}
