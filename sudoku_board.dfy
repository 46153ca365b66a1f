/** The board package's sudokuBoardImpl: a size and a flat slice of uint8
    cells, cell (x, y) at y * size + x, with the two solvers that work on it
    in place. The rules and the searches are the functions of SudokuRules
    and SudokuHeuristic; every method here is proved to compute them. */
module SudokuBoard {
  import opened Options
  import opened SudokuRules
  import opened SudokuHeuristic
  import SudokuArray

  class Board {
    const size: byte
    const vals: array<byte>

    /** The slice holds size * size cells, the product taken in uint8. */
    ghost predicate Valid()
      reads this
    {
      vals.Length == (size as int * size as int) % 256
    }

    /** A 9 by 9 board, the only size the solvers handle. */
    ghost predicate Nine()
      reads this
    {
      size == 9 && vals.Length == 81
    }

    /** CreateEmptyBoard: size * size empty cells. */
    constructor (size: byte)
      ensures this.size == size && Valid() && fresh(vals)
      ensures forall k :: 0 <= k < vals.Length ==> vals[k] == 0
    {
      this.size := size;
      vals := new byte[(size as int * size as int) % 256](_ => 0);
    }

    /** The slice position of cell (x, y): y * size + x in uint8. */
    function Index(x: byte, y: byte): byte
      reads this
    {
      ((y as int * size as int + x as int) % 256) as byte
    }

    /** Get reads the cell at y * size + x; on a 9 by 9 board that is cell
        (x, y) of the rules. */
    function Get(x: byte, y: byte): (v: byte)
      requires Index(x, y) as int < vals.Length
      reads this, vals
      ensures Nine() && x < 9 && y < 9 ==> v == Cell(vals[..], x as int, y as int)
    {
      vals[Index(x, y)]
    }

    /** Set writes the cell at y * size + x and no other. */
    method Set(x: byte, y: byte, val: byte)
      requires Index(x, y) as int < vals.Length
      modifies vals
      ensures vals[..] == old(vals[..])[Index(x, y) := val]
    {
      vals[Index(x, y)] := val;
    }

    /** xY: the coordinates of a slice position, with x below size; the
        position of those coordinates is the position given. */
    function XY(index: byte): (r: (byte, byte))
      requires size > 0
      reads this
      ensures r.0 < size && r.1 as int * size as int + r.0 as int == index as int
      ensures Index(r.0, r.1) == index
    {
      (index % size, index / size)
    }

    /** On a 9 by 9 board xY inverts the position of every cell, and every
        position of the slice is that of the cell xY names. */
    lemma XYRoundTrip(x: byte, y: byte, index: byte)
      requires Nine()
      ensures x < 9 && y < 9 ==> XY(Index(x, y)) == (x, y)
      ensures index < 81 ==> var (x', y') := XY(index); x' < 9 && y' < 9 && Index(x', y') == index
    {
      if x < 9 && y < 9 {
        SudokuArray.Coordinates(y as int * 9 + x as int, x as int, y as int);
      }
      if index < 81 {
        SudokuArray.Coordinates(index as int, index as int % 9, index as int / 9);
      }
    }

    /** Equals: reflect.DeepEqual of the two slices, true exactly when they
        have the same length and agree at every position. */
    predicate Equals(c: Board): (r: bool)
      reads this, vals, c, c.vals
      ensures r <==> vals.Length == c.vals.Length && forall k :: 0 <= k < vals.Length ==> vals[k] == c.vals[k]
    {
      vals[..] == c.vals[..]
    }

    /** isFilled: no cell is 0. */
    method IsFilled() returns (filled: bool)
      ensures filled <==> Filled(vals[..])
    {
      for k := 0 to vals.Length
        invariant forall k' :: 0 <= k' < k ==> vals[k'] != 0
      {
        if vals[k] == 0 {
          return false;
        }
      }
      return true;
    }

    /** copy: a new board of the same size whose cells equal this one's. */
    method Copy() returns (res: Board)
      requires Valid()
      ensures fresh(res) && fresh(res.vals) && res.size == size && res.Valid() && res.Equals(this)
    {
      res := new Board(size);
      forall k | 0 <= k < vals.Length {
        res.vals[k] := vals[k];
      }
    }

    /** findEmptyCell: the first empty cell with x in the outer loop and y
        in the inner, or (255, 255, false) when every cell is filled. */
    method FindEmptyCell() returns (x: byte, y: byte, found: bool)
      requires Nine()
      ensures found <==> FirstEmpty(vals[..]).Some?
      ensures found ==> FirstEmpty(vals[..]).value == (x as int, y as int)
      ensures !found ==> x == 255 && y == 255
    {
      ghost var s := vals[..];
      var i: byte := 0;
      while i < size
        invariant 0 <= i <= 9
        invariant forall x', y' :: 0 <= x' < 9 && 0 <= y' < 9 && x' * 9 + y' < i as int * 9 ==> Cell(s, x', y') != 0
      {
        var j: byte := 0;
        while j < size
          invariant 0 <= j <= 9
          invariant forall x', y' :: 0 <= x' < 9 && 0 <= y' < 9 && x' * 9 + y' < i as int * 9 + j as int ==> Cell(s, x', y') != 0
        {
          if Get(i, j) == 0 {
            FirstEmptyAt(s, i as int, j as int);
            return i, j, true;
          }
          j := j + 1;
        }
        i := i + 1;
      }
      FirstEmptyAt(s, 9, 0);
      return 255, 255, false;
    }

    /** isValid: num may go into (x, y) exactly when it occurs neither among
        the cells with this x, nor among those with this y, nor in the 3 by 3
        box around the cell; the three loops are checked in this order. */
    method IsValid(num: byte, x: byte, y: byte) returns (valid: bool)
      requires Nine() && x < 9 && y < 9
      ensures valid <==> Placeable(vals[..], num, x as int, y as int)
    {
      valid := NotInLineX(num, x);
      if !valid {
        return;
      }
      valid := NotInLineY(num, y);
      if !valid {
        return;
      }
      valid := NotInBox(num, x, y);
    }

    /** The first loop of isValid: num is not among the cells with this x. */
    method NotInLineX(num: byte, x: byte) returns (absent: bool)
      requires Nine() && x < 9
      ensures absent <==> !InLineX(vals[..], num, x as int)
    {
      ghost var s, cx := vals[..], x as int;
      var i: byte := 0;
      while i < size
        invariant 0 <= i <= 9
        invariant forall i' :: 0 <= i' < i as int ==> Cell(s, cx, i') != num
      {
        if Get(x, i) == num {
          return false;
        }
        i := i + 1;
      }
      return true;
    }

    /** The second loop of isValid: num is not among the cells with this
        y. */
    method NotInLineY(num: byte, y: byte) returns (absent: bool)
      requires Nine() && y < 9
      ensures absent <==> !InLineY(vals[..], num, y as int)
    {
      ghost var s, cy := vals[..], y as int;
      var i: byte := 0;
      while i < size
        invariant 0 <= i <= 9
        invariant forall i' :: 0 <= i' < i as int ==> Cell(s, i', cy) != num
      {
        if Get(i, y) == num {
          return false;
        }
        i := i + 1;
      }
      return true;
    }

    /** The third loop of isValid: num is not in the 3 by 3 box around
        (x, y). */
    method NotInBox(num: byte, x: byte, y: byte) returns (absent: bool)
      requires Nine() && x < 9 && y < 9
      ensures absent <==> !InBox(vals[..], num, x as int, y as int)
    {
      ghost var s, cx, cy := vals[..], x as int, y as int;
      var startX, startY := x - x % 3, y - y % 3;
      var bi: byte := 0;
      while bi < 3
        invariant 0 <= bi <= 3
        invariant forall i', j' :: 0 <= i' < 3 && 0 <= j' < 3 && i' * 3 + j' < bi as int * 3 ==> BoxCell(s, cx, cy, i', j') != num
      {
        var bj: byte := 0;
        while bj < 3
          invariant 0 <= bj <= 3
          invariant forall i', j' :: 0 <= i' < 3 && 0 <= j' < 3 && i' * 3 + j' < bi as int * 3 + bj as int ==> BoxCell(s, cx, cy, i', j') != num
        {
          if Get(bi + startX, bj + startY) == num {
            assert BoxCell(s, cx, cy, bi as int, bj as int) == num;
            return false;
          }
          bj := bj + 1;
        }
        bi := bi + 1;
      }
      return true;
    }

    /** SolveSudoku: backtracking in place. The result and the final cells
        are those of Solve on the initial cells, so a true result leaves a
        filled completion of the givens and a false one the board as it
        was. */
    method SolveSudoku() returns (solved: bool)
      requires Nine()
      modifies vals
      ensures (solved, vals[..]) == Solve(old(vals[..]))
      decreases Zeros(vals[..]), 2
    {
      ghost var s := vals[..];
      var x, y, found := FindEmptyCell();
      FirstEmptyIff(s);
      if !found {
        return true;
      }
      solved := TryDigits(x, y);
    }

    /** The digit loop of SolveSudoku at the empty cell (x, y), digit by
        digit until one leads to a solution. */
    method TryDigits(x: byte, y: byte) returns (solved: bool)
      requires Nine() && x < 9 && y < 9 && Cell(vals[..], x as int, y as int) == 0
      modifies vals
      ensures (solved, vals[..]) == TryFrom(old(vals[..]), x as int, y as int, 1)
      decreases Zeros(vals[..]), 1
    {
      ghost var s := vals[..];
      var num: byte := 1;
      while num <= 9
        invariant 1 <= num <= 10
        invariant vals[..] == s
        invariant TryFrom(s, x as int, y as int, 1) == TryFrom(s, x as int, y as int, num as int)
        decreases 10 - num
      {
        solved := TryDigit(x, y, num);
        if solved {
          return;
        }
        num := num + 1;
      }
      return false;
    }

    /** One pass of the digit loop: when isValid allows num at (x, y) it is
        set and the rest solved; on failure the cell is reset to 0, so the
        board is as before and the search goes on with the next digit. */
    method TryDigit(x: byte, y: byte, num: byte) returns (solved: bool)
      requires Nine() && x < 9 && y < 9 && Cell(vals[..], x as int, y as int) == 0 && 1 <= num <= 9
      modifies vals
      ensures solved ==> (true, vals[..]) == TryFrom(old(vals[..]), x as int, y as int, num as int)
      ensures !solved ==> vals[..] == old(vals[..])
      ensures !solved ==>
        TryFrom(old(vals[..]), x as int, y as int, num as int) == TryFrom(old(vals[..]), x as int, y as int, num as int + 1)
      decreases Zeros(vals[..]), 0
    {
      ghost var s := vals[..];
      ghost var k := y as int * 9 + x as int;
      var ok := IsValid(num, x, y);
      if !ok {
        return false;
      }
      assert Index(x, y) as int == k;
      Set(x, y, num);
      ZerosUpdate(s, k, num);
      solved := SolveSudoku();
      SolveSound(s[k := num]);
      if !solved {
        Set(x, y, 0);
        assert s[k := num][k := 0] == s;
      }
    }

    /** createPossibilities: one possibility per empty cell, in index order,
        listing the digits isValid allows there. */
    method CreatePossibilities() returns (res: seq<Possibility>)
      requires Nine()
      ensures res == Possibilities(vals[..])
    {
      ghost var s := vals[..];
      res := [];
      var i: byte := 0;
      while i < size * size
        invariant 0 <= i <= 81
        invariant res == PossibilitiesBelow(s, i as int)
      {
        if vals[i] == 0 {
          var (x, y) := XY(i);
          var entries := Entries(x, y);
          res := res + [Possibility(i, entries)];
        }
        i := i + 1;
      }
    }

    /** The inner loop of createPossibilities: the digits from 1 to size
        that isValid allows at (x, y), in ascending order. */
    method Entries(x: byte, y: byte) returns (entries: seq<byte>)
      requires Nine() && x < 9 && y < 9
      ensures entries == Candidates(vals[..], x as int, y as int)
    {
      entries := [];
      var j: byte := 1;
      while j <= size
        invariant 1 <= j <= 10
        invariant entries == CandidatesBelow(vals[..], x as int, y as int, j as int)
      {
        var ok := IsValid(j, x, y);
        if ok {
          entries := entries + [j];
        }
        j := j + 1;
      }
    }

    /** getNonUniques: createPossibilities and the writing of single entries
        are repeated until a round finds none; the cells and the list left
        are those of NonUniques. */
    method GetNonUniques() returns (left: seq<Possibility>)
      requires Nine()
      modifies vals
      ensures (vals[..], left) == NonUniques(old(vals[..]))
    {
      ghost var s := vals[..];
      left := [];
      var foundUnique := true;
      while foundUnique
        invariant Nine()
        invariant foundUnique ==> NonUniques(s) == NonUniques(vals[..])
        invariant !foundUnique ==> NonUniques(s) == (vals[..], left)
        decreases Zeros(vals[..]) + if foundUnique then 1 else 0
      {
        ghost var v := vals[..];
        left := CreatePossibilities();
        PossibilitiesPending(v);
        foundUnique := WriteUniques(left);
        RoundProgress(v, left);
        if !foundUnique {
          RoundWithoutUnique(v, left);
        }
      }
    }

    /** SolveByHeuristic as written. After getNonUniques (which changes
        this board) it returns isFilled with a nil pointer when no
        possibility is left; otherwise it solves a copy for every entry of
        every possibility. No call ever returns a pointer, so the first copy
        that succeeds makes the dereference *foundSolutions panic: halted
        is that panic. The outcome is HeuristicAsWritten's. */
    method SolveByHeuristic() returns (halted: bool, solved: bool, solutions: Option<seq<Board>>)
      requires Nine()
      modifies vals
      ensures vals[..] == NonUniques(old(vals[..])).0
      ensures halted <==> HeuristicAsWritten(old(vals[..])).NilDereference?
      ensures !halted ==> solved == HeuristicAsWritten(old(vals[..])).ok && solutions.None?
      decreases Zeros(vals[..]), 2
    {
      ghost var s := vals[..];
      var possibilities := GetNonUniques();
      ghost var t := vals[..];
      NonUniquesSpec(s);
      if |possibilities| == 0 {
        solved := IsFilled();
        return false, solved, None;
      }
      TriesSpec(t, possibilities);
      halted := TryPossibilities(t, Tries(t, possibilities), possibilities);
      return halted, false, None;
    }

    /** The outer loop of SolveByHeuristic over the possibilities ps left on
        this board t, whose copies are tries: it panics exactly when the
        loops as written do, and otherwise they fail with a nil pointer. */
    method TryPossibilities(ghost t: seq<byte>, ghost tries: seq<seq<byte>>, ps: seq<Possibility>)
      returns (halted: bool)
      requires Nine() && vals[..] == t
      requires forall i :: 0 <= i < |ps| ==> ps[i].index < 81
      requires tries == Tries(t, ps)
      requires forall j :: 0 <= j < |tries| ==> |tries[j]| == 81 && Zeros(tries[j]) < Zeros(t)
      ensures halted ==> Loops(AsWrittenFrom(t, tries, 0), []) == NilDereference
      ensures !halted ==> Loops(AsWrittenFrom(t, tries, 0), []) == Returned(false, None)
      decreases Zeros(t), 1
    {
      var a := 0;
      ghost var pos := 0;
      while a < |ps|
        invariant 0 <= a <= |ps| && vals[..] == t
        invariant pos == Offset(ps, a) <= |tries|
        invariant Loops(AsWrittenFrom(t, tries, 0), []) == Loops(AsWrittenFrom(t, tries, pos), [])
      {
        var p := ps[a];
        forall b | 0 <= b < |p.entries|
          ensures pos + b < |tries| && tries[pos + b] == t[p.index := p.entries[b]]
        {
          TriesAt(t, ps, a, b);
        }
        TriesOffset(t, ps, a + 1);
        halted := TryEntries(t, tries, p, pos);
        if halted {
          return true;
        }
        a, pos := a + 1, pos + |p.entries|;
      }
      TriesOffset(t, ps, a);
      return false;
    }

    /** The inner loop of SolveByHeuristic over the entries of p, which
        are the copies tries[pos..]: each entry is set on a copy of this
        board and the copy solved. It panics on the first copy that panics
        or succeeds, and otherwise leaves the loops where the next
        possibility begins. */
    method TryEntries(ghost t: seq<byte>, ghost tries: seq<seq<byte>>, p: Possibility, ghost pos: nat)
      returns (halted: bool)
      requires Nine() && vals[..] == t
      requires forall j :: 0 <= j < |tries| ==> |tries[j]| == 81 && Zeros(tries[j]) < Zeros(t)
      requires p.index < 81 && pos + |p.entries| <= |tries|
      requires forall b :: 0 <= b < |p.entries| ==> tries[pos + b] == t[p.index := p.entries[b]]
      ensures halted ==> Loops(AsWrittenFrom(t, tries, pos), []) == NilDereference
      ensures !halted ==> Loops(AsWrittenFrom(t, tries, pos), []) == Loops(AsWrittenFrom(t, tries, pos + |p.entries|), [])
      decreases Zeros(t), 0
    {
      var b := 0;
      while b < |p.entries|
        invariant 0 <= b <= |p.entries| && vals[..] == t
        invariant Loops(AsWrittenFrom(t, tries, pos), []) == Loops(AsWrittenFrom(t, tries, pos + b), [])
      {
        var tmpB := Copy();
        tmpB.vals[p.index] := p.entries[b];
        assert tmpB.vals[..] == tries[pos + b];
        AsWrittenStep(t, tries, pos + b);
        var res, found;
        halted, res, found := tmpB.SolveByHeuristic();
        if halted || res {
          return true;
        }
        b := b + 1;
      }
      return false;
    }

    /** The inner loop of getNonUniques: every possibility with exactly one
        entry writes it into its cell, in list order. */
    method WriteUniques(ps: seq<Possibility>) returns (foundUnique: bool)
      requires Nine() && Pending(vals[..], ps)
      modifies vals
      ensures vals[..] == Round(old(vals[..]), ps)
      ensures foundUnique <==> HasUnique(ps)
    {
      ghost var t := vals[..];
      foundUnique := false;
      for i := 0 to |ps|
        invariant vals[..] == Round(t, ps[..i])
        invariant foundUnique <==> HasUnique(ps[..i])
      {
        assert ps[..i + 1][..i] == ps[..i];
        var poss := ps[i];
        if |poss.entries| == 1 {
          vals[poss.index] := poss.entries[0];
          foundUnique := true;
        }
        assert HasUnique(ps[..i + 1]) <==> HasUnique(ps[..i]) || |poss.entries| == 1 by {
          if HasUnique(ps[..i + 1]) && !HasUnique(ps[..i]) {
            var j :| 0 <= j < i + 1 && |ps[..i + 1][j].entries| == 1;
            assert j == i;
          }
          if |poss.entries| == 1 {
            assert ps[..i + 1][i] == poss;
          }
        }
      }
      assert ps[..|ps|] == ps;
    }
  }

  /** CreateBoard: a 9 by 9 board whose cell (i, j) is arr[i][j], so that
      its cells are the array solver's flat view of arr. */
  method CreateBoard(arr: array2<byte>) returns (b: Board)
    requires arr.Length0 == 9 && arr.Length1 == 9
    ensures fresh(b) && b.Nine() && b.vals[..] == SudokuArray.Flat(arr)
  {
    b := new Board(9);
    ghost var flat := SudokuArray.Flat(arr);
    var i: byte := 0;
    while i < 9
      invariant 0 <= i <= 9 && b.Nine()
      invariant forall k :: 0 <= k < 81 && k % 9 < i as int ==> b.vals[k] == flat[k]
    {
      var j: byte := 0;
      while j < 9
        invariant 0 <= j <= 9 && b.Nine()
        invariant forall k :: 0 <= k < 81 && (k % 9 < i as int || (k % 9 == i as int && k / 9 < j as int)) ==> b.vals[k] == flat[k]
      {
        SudokuArray.FlatCell(arr, i as int, j as int);
        b.Set(i, j, arr[i, j]);
        forall k | 0 <= k < 81 ensures k % 9 == i as int && k / 9 == j as int <==> k == j as int * 9 + i as int {
          SudokuArray.Coordinates(k, i as int, j as int);
        }
        j := j + 1;
      }
      i := i + 1;
    }
  }
}
