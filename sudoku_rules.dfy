/** The rules of a 9 by 9 sudoku over the board package's flat layout, and
    the backtracking search that both solvers perform, as functions. */
module SudokuRules {
  import opened Options

  /** Go's uint8. */
  newtype byte = x: int | 0 <= x < 256

  /** The cell in column x and row y of a flat 81-cell board; the board
      package stores it at y * 9 + x. */
  function Cell(s: seq<byte>, x: int, y: int): byte
    requires |s| == 81 && 0 <= x < 9 && 0 <= y < 9
  {
    s[y * 9 + x]
  }

  /** num occurs among the cells with this x. */
  predicate InLineX(s: seq<byte>, num: byte, x: int)
    requires |s| == 81 && 0 <= x < 9
  {
    exists i :: 0 <= i < 9 && Cell(s, x, i) == num
  }

  /** num occurs among the cells with this y. */
  predicate InLineY(s: seq<byte>, num: byte, y: int)
    requires |s| == 81 && 0 <= y < 9
  {
    exists i :: 0 <= i < 9 && Cell(s, i, y) == num
  }

  /** Cell (i, j) of the 3 by 3 box around (x, y), whose corner is
      (x - x % 3, y - y % 3). */
  function BoxCell(s: seq<byte>, x: int, y: int, i: int, j: int): byte
    requires |s| == 81 && 0 <= x < 9 && 0 <= y < 9 && 0 <= i < 3 && 0 <= j < 3
  {
    Cell(s, x - x % 3 + i, y - y % 3 + j)
  }

  /** num occurs in the box around (x, y). */
  predicate InBox(s: seq<byte>, num: byte, x: int, y: int)
    requires |s| == 81 && 0 <= x < 9 && 0 <= y < 9
  {
    exists i, j :: 0 <= i < 3 && 0 <= j < 3 && BoxCell(s, x, y, i, j) == num
  }

  /** isValid: num may go into (x, y) when it occurs in neither line through
      the cell nor in its box. */
  predicate Placeable(s: seq<byte>, num: byte, x: int, y: int)
    requires |s| == 81 && 0 <= x < 9 && 0 <= y < 9
  {
    !InLineX(s, num, x) && !InLineY(s, num, y) && !InBox(s, num, x, y)
  }

  /** isFilled: no cell is 0. */
  predicate Filled(s: seq<byte>) {
    forall k :: 0 <= k < |s| ==> s[k] != 0
  }

  /** t keeps every given (non-zero) cell of s. */
  predicate Extends(t: seq<byte>, s: seq<byte>) {
    |t| == |s| && forall k :: 0 <= k < |s| && s[k] != 0 ==> t[k] == s[k]
  }

  /** t is s with its empty cells filled by digits 1 to 9. */
  predicate Completes(t: seq<byte>, s: seq<byte>) {
    Extends(t, s) && forall k :: 0 <= k < |s| && s[k] == 0 ==> 1 <= t[k] <= 9
  }

  /** Filling an empty cell of s with a digit keeps every completion of the
      result a completion of s. */
  lemma CompletesUpdate(t: seq<byte>, s: seq<byte>, k: int, v: byte)
    requires 0 <= k < |s| && s[k] == 0 && 1 <= v <= 9 && Completes(t, s[k := v])
    ensures Completes(t, s)
  {
  }

  /** The number of empty cells. */
  function Zeros(s: seq<byte>): nat {
    ZerosFrom(s, 0)
  }

  /** The number of empty cells at position i or later. */
  function ZerosFrom(s: seq<byte>, i: nat): nat
    requires i <= |s|
    decreases |s| - i
  {
    if i == |s| then 0 else (if s[i] == 0 then 1 else 0) + ZerosFrom(s, i + 1)
  }

  /** No cell from position i on is empty exactly when none is counted. */
  lemma {:induction false} ZerosFromFilled(s: seq<byte>, i: nat)
    requires i <= |s|
    ensures ZerosFrom(s, i) == 0 <==> forall k :: i <= k < |s| ==> s[k] != 0
    decreases |s| - i
  {
    if i < |s| {
      ZerosFromFilled(s, i + 1);
    }
  }

  /** A board is filled exactly when it has no empty cell. */
  lemma ZerosFilled(s: seq<byte>)
    ensures Zeros(s) == 0 <==> Filled(s)
  {
    ZerosFromFilled(s, 0);
  }

  /** Filling the empty cell k, at position i or later, removes one empty
      cell from the count from i on. */
  lemma {:induction false} ZerosFromUpdate(s: seq<byte>, k: int, v: byte, i: nat)
    requires i <= k < |s| && s[k] == 0 && v != 0
    ensures ZerosFrom(s, i) >= 1 && ZerosFrom(s[k := v], i) == ZerosFrom(s, i) - 1
    decreases |s| - i
  {
    if i < k {
      ZerosFromUpdate(s, k, v, i + 1);
    } else {
      ZerosFromSame(s, s[k := v], k + 1);
    }
  }

  /** Two boards that agree from position i on count the same empty cells
      there. */
  lemma {:induction false} ZerosFromSame(s: seq<byte>, t: seq<byte>, i: nat)
    requires i <= |s| == |t| && forall k :: i <= k < |s| ==> s[k] == t[k]
    ensures ZerosFrom(s, i) == ZerosFrom(t, i)
    decreases |s| - i
  {
    if i < |s| {
      ZerosFromSame(s, t, i + 1);
    }
  }

  /** Filling an empty cell with a non-zero value removes one empty cell. */
  lemma ZerosUpdate(s: seq<byte>, k: int, v: byte)
    requires 0 <= k < |s| && s[k] == 0 && v != 0
    ensures Zeros(s) >= 1 && Zeros(s[k := v]) == Zeros(s) - 1
  {
    ZerosFromUpdate(s, k, v, 0);
  }

  /** A board with an empty cell is not filled. */
  lemma NotFilled(s: seq<byte>, k: int)
    requires 0 <= k < |s| && s[k] == 0
    ensures !Filled(s) && Zeros(s) >= 1
  {
    ZerosFilled(s);
  }

  /** The first empty cell at or after key k, where cell (x, y) has key
      x * 9 + y: findEmptyCell scans x in the outer loop and y in the inner. */
  function FirstEmptyFrom(s: seq<byte>, k: nat): Option<(int, int)>
    requires |s| == 81 && k <= 81
    decreases 81 - k
  {
    if k == 81 then None
    else if Cell(s, k / 9, k % 9) == 0 then Some((k / 9, k % 9))
    else FirstEmptyFrom(s, k + 1)
  }

  /** (x, y) is an empty cell with key at least k, and no cell with a key
      from k up to it is empty. */
  predicate FirstFrom(s: seq<byte>, k: int, x: int, y: int)
    requires |s| == 81
  {
    0 <= x < 9 && 0 <= y < 9 && k <= x * 9 + y && Cell(s, x, y) == 0 &&
    forall x', y' :: 0 <= x' < 9 && 0 <= y' < 9 && k <= x' * 9 + y' < x * 9 + y ==> Cell(s, x', y') != 0
  }

  /** No cell with key k or more is empty. */
  predicate FilledFrom(s: seq<byte>, k: int)
    requires |s| == 81
  {
    forall x', y' :: 0 <= x' < 9 && 0 <= y' < 9 && k <= x' * 9 + y' ==> Cell(s, x', y') != 0
  }

  /** Key k names the cell (k / 9, k % 9), and no other cell has it. */
  lemma Key(k: int)
    requires 0 <= k < 81
    ensures 0 <= k / 9 < 9 && 0 <= k % 9 < 9 && k == (k / 9) * 9 + k % 9
  {
  }

  /** The scan from key k finds the first empty cell from k on, or nothing
      when no cell from k on is empty. */
  lemma FirstEmptyFromSpec(s: seq<byte>, k: nat)
    requires |s| == 81 && k <= 81
    ensures FirstEmptyFrom(s, k).Some? ==> FirstFrom(s, k, FirstEmptyFrom(s, k).value.0, FirstEmptyFrom(s, k).value.1)
    ensures FirstEmptyFrom(s, k).None? ==> FilledFrom(s, k)
  {
    if FirstEmptyFrom(s, k).Some? {
      FirstEmptyFromFound(s, k);
    } else {
      FirstEmptyFromNone(s, k);
    }
  }

  /** The cell the scan from key k finds is the first empty one from k on. */
  lemma {:induction false} FirstEmptyFromFound(s: seq<byte>, k: nat)
    requires |s| == 81 && k <= 81 && FirstEmptyFrom(s, k).Some?
    ensures FirstFrom(s, k, FirstEmptyFrom(s, k).value.0, FirstEmptyFrom(s, k).value.1)
    decreases 81 - k
  {
    Key(k);
    var x, y := k / 9, k % 9;
    if Cell(s, x, y) != 0 {
      FirstEmptyFromFound(s, k + 1);
      KeyUnique(s, k, x, y);
    }
  }

  /** A scan from key k that finds nothing has met only filled cells. */
  lemma {:induction false} FirstEmptyFromNone(s: seq<byte>, k: nat)
    requires |s| == 81 && k <= 81 && FirstEmptyFrom(s, k).None?
    ensures FilledFrom(s, k)
    decreases 81 - k
  {
    if k < 81 {
      Key(k);
      FirstEmptyFromNone(s, k + 1);
      KeyUnique(s, k, k / 9, k % 9);
    }
  }

  /** Only cell (x, y) has key x * 9 + y. */
  lemma KeyUnique(s: seq<byte>, k: int, x: int, y: int)
    requires |s| == 81 && 0 <= x < 9 && 0 <= y < 9 && k == x * 9 + y
    ensures forall x', y' :: 0 <= x' < 9 && 0 <= y' < 9 && x' * 9 + y' == k ==> Cell(s, x', y') == Cell(s, x, y)
  {
    forall x', y' | 0 <= x' < 9 && 0 <= y' < 9 && x' * 9 + y' == k ensures Cell(s, x', y') == Cell(s, x, y) {
      assert x' == k / 9 == x && y' == k % 9 == y;
    }
  }

  /** The empty cell findEmptyCell reports, if any. */
  function FirstEmpty(s: seq<byte>): (r: Option<(int, int)>)
    requires |s| == 81
  {
    FirstEmptyFrom(s, 0)
  }

  /** findEmptyCell finds a cell, one that is empty and scanned first,
      exactly when the board is not filled. */
  lemma FirstEmptyIff(s: seq<byte>)
    requires |s| == 81
    ensures FirstEmpty(s).None? <==> Filled(s)
    ensures FirstEmpty(s).Some? ==> var (x, y) := FirstEmpty(s).value;
      0 <= x < 9 && 0 <= y < 9 && Cell(s, x, y) == 0 &&
      forall x', y' :: 0 <= x' < 9 && 0 <= y' < 9 && x' * 9 + y' < x * 9 + y ==> Cell(s, x', y') != 0
  {
    FirstEmptyFromSpec(s, 0);
    if FirstEmpty(s).None? {
      forall k | 0 <= k < 81 ensures s[k] != 0 {
        assert s[k] == Cell(s, k % 9, k / 9);
      }
    }
  }

  /** A scan that has met only filled cells before key x * 9 + y finds the
      cell (x, y) when it is empty, and nothing when the scan is complete
      (x == 9, y == 0). */
  lemma FirstEmptyAt(s: seq<byte>, x: int, y: int)
    requires |s| == 81 && 0 <= x <= 9 && 0 <= y < 9 && (x == 9 ==> y == 0)
    requires x < 9 ==> Cell(s, x, y) == 0
    requires forall x', y' :: 0 <= x' < 9 && 0 <= y' < 9 && x' * 9 + y' < x * 9 + y ==> Cell(s, x', y') != 0
    ensures x < 9 ==> FirstEmpty(s) == Some((x, y))
    ensures x == 9 ==> FirstEmpty(s).None?
  {
    FirstEmptyFromSpec(s, 0);
    if x < 9 && FirstEmpty(s).Some? {
      var (a, b) := FirstEmpty(s).value;
      assert a * 9 + b == x * 9 + y;
    }
  }

  /** solveSudoku as a function: fill the first empty cell with the first
      placeable digit whose continuation succeeds, restoring the cell
      otherwise. */
  function Solve(s: seq<byte>): (bool, seq<byte>)
    requires |s| == 81
    decreases Zeros(s), 1, 0
  {
    FirstEmptyIff(s);
    match FirstEmpty(s)
    case None => (true, s)
    case Some((x, y)) => TryFrom(s, x, y, 1)
  }

  /** The digit loop of solveSudoku at (x, y) from digit num on. */
  function TryFrom(s: seq<byte>, x: int, y: int, num: int): (bool, seq<byte>)
    requires |s| == 81 && 0 <= x < 9 && 0 <= y < 9 && Cell(s, x, y) == 0 && 1 <= num <= 10
    decreases Zeros(s), 0, 10 - num
  {
    if num == 10 then (false, s)
    else if Placeable(s, num as byte, x, y) then
      ZerosUpdate(s, y * 9 + x, num as byte);
      var r := Solve(s[y * 9 + x := num as byte]);
      if r.0 then r else TryFrom(s, x, y, num + 1)
    else TryFrom(s, x, y, num + 1)
  }

  /** On success the board is filled and completes s; on failure it is s
      itself. */
  lemma {:induction false} SolveSound(s: seq<byte>)
    requires |s| == 81
    ensures Solve(s).0 ==> Filled(Solve(s).1) && Completes(Solve(s).1, s)
    ensures !Solve(s).0 ==> Solve(s).1 == s
    decreases Zeros(s), 1, 0
  {
    FirstEmptyIff(s);
    if FirstEmpty(s).Some? {
      var (x, y) := FirstEmpty(s).value;
      TryFromSound(s, x, y, 1);
    }
  }

  /** The same for the digit loop from num on. */
  lemma {:induction false} TryFromSound(s: seq<byte>, x: int, y: int, num: int)
    requires |s| == 81 && 0 <= x < 9 && 0 <= y < 9 && Cell(s, x, y) == 0 && 1 <= num <= 10
    ensures TryFrom(s, x, y, num).0 ==> Filled(TryFrom(s, x, y, num).1) && Completes(TryFrom(s, x, y, num).1, s)
    ensures !TryFrom(s, x, y, num).0 ==> TryFrom(s, x, y, num).1 == s
    decreases Zeros(s), 0, 10 - num
  {
    if num < 10 {
      var k := y * 9 + x;
      if Placeable(s, num as byte, x, y) {
        ZerosUpdate(s, k, num as byte);
        SolveSound(s[k := num as byte]);
        var r := Solve(s[k := num as byte]);
        if r.0 {
          CompletesUpdate(r.1, s, k, num as byte);
        } else {
          TryFromSound(s, x, y, num + 1);
        }
      } else {
        TryFromSound(s, x, y, num + 1);
      }
    }
  }
}
