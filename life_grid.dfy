/**
 * One generation of Conway's Game of Life: a boolean cell grid stored
 * row-major in a flat array, with bounds-checked access, edge-clamped
 * Moore-neighbour counting, the B3/S23 step, equality and two resizes.
 */
module LifeGrid {

  /** The value held by a grid: its width (maxXVal), its height (maxYVal)
      and its cells, cell (x, y) at index x + y * width. */
  datatype Cells = Cells(width: nat, height: nat, alive: seq<bool>)

  predicate WellFormed(c: Cells) {
    |c.alive| == c.width * c.height
  }

  /** The position of cell (x, y) in the flat storage of a grid that is w wide. */
  function Index(w: nat, x: nat, y: nat): nat {
    x + y * w
  }

  lemma MulMono(a: nat, b: nat, c: nat)
    requires a <= b
    ensures a * c <= b * c
  {
  }

  lemma IndexInBounds(w: nat, h: nat, x: nat, y: nat)
    requires x < w && y < h
    ensures Index(w, x, y) < w * h
  {
    MulMono(y + 1, h, w);
  }

  /** Splitting a flat index back into its column and row. */
  lemma IndexDivMod(w: nat, x: nat, y: nat)
    requires x < w
    ensures (x + y * w) / w == y && (x + y * w) % w == x
  {
    var a := x + y * w;
    var q, r := a / w, a % w;
    assert a == q * w + r;
    assert (q - y) * w == x - r;
    if q - y >= 1 {
      MulMono(1, q - y, w);
    } else if q - y <= -1 {
      MulMono(1, y - q, w);
    }
  }

  /** A flat index names exactly one cell of a grid w wide. */
  lemma IndexOf(w: nat, i: nat)
    requires 0 < w
    ensures i % w < w && i == Index(w, i % w, i / w)
  {
  }

  /** The cell (x, y), with every position outside the grid dead: this is
      how countNeighbors sees the cells beyond the edge (no wraparound). */
  function At(c: Cells, x: int, y: int): bool
    requires WellFormed(c)
  {
    if 0 <= x < c.width && 0 <= y < c.height then
      IndexInBounds(c.width, c.height, x, y);
      c.alive[Index(c.width, x, y)]
    else
      false
  }

  /** Two well-formed values of the same dimensions that agree on every cell
      are the same value. */
  lemma {:induction false} CellsExt(c: Cells, d: Cells)
    requires WellFormed(c) && WellFormed(d)
    requires c.width == d.width && c.height == d.height
    requires forall x: int, y: int :: 0 <= x < c.width && 0 <= y < c.height ==> At(c, x, y) == At(d, x, y)
    ensures c == d
  {
    forall i | 0 <= i < |c.alive|
      ensures c.alive[i] == d.alive[i]
    {
      var w := c.width;
      assert 0 < w;
      IndexOf(w, i);
      var x, y := i % w, i / w;
      assert y < c.height by {
        if y >= c.height {
          MulMono(c.height, y, w);
        }
      }
      assert At(c, x, y) == At(d, x, y);
    }
  }

  /** c with cell (x, y) set to v. */
  function With(c: Cells, x: nat, y: nat, v: bool): (d: Cells)
    requires WellFormed(c) && x < c.width && y < c.height
    ensures WellFormed(d) && d.width == c.width && d.height == c.height
  {
    IndexInBounds(c.width, c.height, x, y);
    Cells(c.width, c.height, c.alive[Index(c.width, x, y) := v])
  }

  /** Writing one cell changes that cell and no other. */
  lemma WithAt(c: Cells, x: nat, y: nat, v: bool, x': int, y': int)
    requires WellFormed(c) && x < c.width && y < c.height
    ensures At(With(c, x, y, v), x', y') == if x' == x && y' == y then v else At(c, x', y')
  {
    var w := c.width;
    IndexInBounds(w, c.height, x, y);
    var d := With(c, x, y, v);
    if 0 <= x' < w && 0 <= y' < c.height {
      IndexInBounds(w, c.height, x', y');
      var i, j := x + y * w, x' + y' * w;
      if x' != x || y' != y {
        IndexDivMod(w, x, y);
        IndexDivMod(w, x', y');
        assert i != j;
        assert d.alive[j] == c.alive[j];
      }
    }
  }

  /** An all-dead grid of w by h cells (initBuffer). */
  function Empty(w: nat, h: nat): (c: Cells)
    ensures WellFormed(c) && c.width == w && c.height == h
  {
    Cells(w, h, seq(w * h, _ => false))
  }

  lemma EmptyIsDead(w: nat, h: nat)
    ensures forall x: int, y: int :: !At(Empty(w, h), x, y)
  {
    forall x: int, y: int | 0 <= x < w && 0 <= y < h
      ensures !At(Empty(w, h), x, y)
    {
      IndexInBounds(w, h, x, y);
      var i := x + y * w;
      assert Empty(w, h).alive[i] == false;
    }
  }

  function Live(c: Cells, x: int, y: int): nat
    requires WellFormed(c)
  {
    if At(c, x, y) then 1 else 0
  }

  /** The number of live cells among the eight Moore neighbours of (x, y);
      a neighbour outside the grid counts as dead. */
  function Neighbors(c: Cells, x: int, y: int): (n: nat)
    requires WellFormed(c)
    ensures n <= 8
  {
    Live(c, x - 1, y - 1) + Live(c, x, y - 1) + Live(c, x + 1, y - 1) +
    Live(c, x - 1, y)     +                     Live(c, x + 1, y)     +
    Live(c, x - 1, y + 1) + Live(c, x, y + 1) + Live(c, x + 1, y + 1)
  }

  /** The live neighbours in row offset dy from column offset dx to 1 (the
      centre excluded): what the inner loop of countNeighbors has still to add. */
  function RowRest(c: Cells, x: int, y: int, dy: int, dx: int): nat
    requires WellFormed(c) && -1 <= dx <= 2
    decreases 2 - dx
  {
    if dx == 2 then 0
    else (if dx == 0 && dy == 0 then 0 else Live(c, x + dx, y + dy)) + RowRest(c, x, y, dy, dx + 1)
  }

  /** The live neighbours in the row offsets dy to 1: what the outer loop of
      countNeighbors has still to add. */
  function RowsRest(c: Cells, x: int, y: int, dy: int): nat
    requires WellFormed(c) && -1 <= dy <= 2
    decreases 2 - dy
  {
    if dy == 2 then 0 else RowRest(c, x, y, dy, -1) + RowsRest(c, x, y, dy + 1)
  }

  lemma RowsRestAll(c: Cells, x: int, y: int)
    requires WellFormed(c)
    ensures RowsRest(c, x, y, -1) == Neighbors(c, x, y)
  {
    assert RowsRest(c, x, y, 1) == RowRest(c, x, y, 1, -1);
    assert RowsRest(c, x, y, 0) == RowRest(c, x, y, 0, -1) + RowsRest(c, x, y, 1);
  }

  /** B3/S23: a live cell survives with two or three live neighbours, a dead
      cell is born with exactly three. */
  function Rule(alive: bool, n: nat): bool {
    if alive then n == 2 || n == 3 else n == 3
  }

  /** The next generation of c. */
  function Step(c: Cells): (d: Cells)
    requires WellFormed(c)
    ensures WellFormed(d) && d.width == c.width && d.height == c.height
  {
    var w, h := c.width, c.height;
    Cells(w, h, seq(w * h, i requires 0 <= i < w * h =>
      Rule(c.alive[i], Neighbors(c, i % w, i / w))))
  }

  /** Every cell of the next generation follows B3/S23 over the old cells. */
  lemma StepAt(c: Cells, x: int, y: int)
    requires WellFormed(c) && 0 <= x < c.width && 0 <= y < c.height
    ensures At(Step(c), x, y) == Rule(At(c, x, y), Neighbors(c, x, y))
  {
    var w := c.width;
    IndexInBounds(w, c.height, x, y);
    IndexDivMod(w, x, y);
    var i := x + y * w;
    assert i % w == x && i / w == y;
    assert Step(c).alive[i] == Rule(c.alive[i], Neighbors(c, i % w, i / w));
  }

  /** The value changes under a step exactly when some cell flips. */
  lemma {:induction false} StepChangedIff(c: Cells)
    requires WellFormed(c)
    ensures Step(c) != c <==>
      exists x: int, y: int :: 0 <= x < c.width && 0 <= y < c.height && At(Step(c), x, y) != At(c, x, y)
  {
    if forall x: int, y: int :: 0 <= x < c.width && 0 <= y < c.height ==> At(Step(c), x, y) == At(c, x, y) {
      CellsExt(Step(c), c);
    }
  }

  /** The all-dead grid is a fixed point. */
  lemma {:induction false} EmptyIsFixedPoint(w: nat, h: nat)
    ensures Step(Empty(w, h)) == Empty(w, h)
  {
    var e := Empty(w, h);
    EmptyIsDead(w, h);
    forall x: int, y: int | 0 <= x < w && 0 <= y < h
      ensures At(Step(e), x, y) == At(e, x, y)
    {
      StepAt(e, x, y);
      assert Neighbors(e, x, y) == 0;
    }
    CellsExt(Step(e), e);
  }

  /** changeSizeNotDestructing's result: w by h cells holding the old cells in
      the top-left overlap and dead cells everywhere else. */
  function Resized(c: Cells, w: nat, h: nat): (d: Cells)
    requires WellFormed(c)
    ensures WellFormed(d) && d.width == w && d.height == h
  {
    Cells(w, h, seq(w * h, i requires 0 <= i < w * h => At(c, i % w, i / w)))
  }

  /** Inside the new bounds a resized grid shows the old cell, which is dead
      outside the old bounds. */
  lemma ResizedAt(c: Cells, w: nat, h: nat, x: int, y: int)
    requires WellFormed(c) && 0 <= x < w && 0 <= y < h
    ensures At(Resized(c, w, h), x, y) == At(c, x, y)
    ensures !(x < c.width && y < c.height) ==> !At(Resized(c, w, h), x, y)
  {
    IndexInBounds(w, h, x, y);
    IndexDivMod(w, x, y);
    var i := x + y * w;
    assert i % w == x && i / w == y;
    assert Resized(c, w, h).alive[i] == At(c, i % w, i / w);
  }

  /** Resizing to the current dimensions changes nothing. */
  lemma {:induction false} ResizedSame(c: Cells)
    requires WellFormed(c)
    ensures Resized(c, c.width, c.height) == c
  {
    forall x: int, y: int | 0 <= x < c.width && 0 <= y < c.height
      ensures At(Resized(c, c.width, c.height), x, y) == At(c, x, y)
    {
      ResizedAt(c, c.width, c.height, x, y);
    }
    CellsExt(Resized(c, c.width, c.height), c);
  }

  /** Resizing to w2 by h2 and back reproduces the cells of the overlap, and
      every cell that fell outside the intermediate grid comes back dead. */
  lemma ResizeRoundTrip(c: Cells, w2: nat, h2: nat, x: int, y: int)
    requires WellFormed(c) && 0 <= x < c.width && 0 <= y < c.height
    ensures At(Resized(Resized(c, w2, h2), c.width, c.height), x, y) ==
      (x < w2 && y < h2 && At(c, x, y))
  {
    ResizedAt(Resized(c, w2, h2), c.width, c.height, x, y);
    if x < w2 && y < h2 {
      ResizedAt(c, w2, h2, x, y);
    }
  }

  /** Cell (x', y') of a grid w wide comes before (x, y) in row-major order:
      it is one of the cells nextGeneration has visited before reaching (x, y). */
  predicate Before(w: nat, x: int, y: int, x': int, y': int) {
    0 <= x' < w && (0 <= y' < y || (y' == y && 0 <= x' < x))
  }

  /** d agrees with e on every cell before (x, y). */
  ghost predicate AgreeBefore(d: Cells, e: Cells, x: int, y: int)
    requires WellFormed(d) && WellFormed(e)
  {
    forall x': int, y': int :: Before(d.width, x, y, x', y') ==> At(d, x', y') == At(e, x', y')
  }

  /** d differs from e on some cell before (x, y). */
  ghost predicate DiffersBefore(d: Cells, e: Cells, x: int, y: int)
    requires WellFormed(d) && WellFormed(e)
  {
    exists x': int, y': int :: Before(d.width, x, y, x', y') && At(d, x', y') != At(e, x', y')
  }

  /** Writing e's cell (x, y) into d extends their agreement by one cell. */
  lemma {:induction false} AgreeBeforeStep(d: Cells, e: Cells, x: nat, y: nat)
    requires WellFormed(d) && WellFormed(e) && x < d.width && y < d.height
    requires AgreeBefore(d, e, x, y)
    ensures AgreeBefore(With(d, x, y, At(e, x, y)), e, x + 1, y)
  {
    var d' := With(d, x, y, At(e, x, y));
    forall x': int, y': int | Before(d.width, x + 1, y, x', y')
      ensures At(d', x', y') == At(e, x', y')
    {
      WithAt(d, x, y, At(e, x, y), x', y');
    }
  }

  /** Visiting cell (x, y) adds it to the cells where d and e may differ. */
  lemma {:induction false} DiffersBeforeStep(d: Cells, e: Cells, x: nat, y: nat)
    requires WellFormed(d) && WellFormed(e) && x < d.width
    ensures DiffersBefore(d, e, x + 1, y) <==> DiffersBefore(d, e, x, y) || At(d, x, y) != At(e, x, y)
  {
    if DiffersBefore(d, e, x + 1, y) {
      var x', y' :| Before(d.width, x + 1, y, x', y') && At(d, x', y') != At(e, x', y');
      if x' != x || y' != y {
        assert Before(d.width, x, y, x', y');
      }
    }
    if At(d, x, y) != At(e, x, y) {
      assert Before(d.width, x + 1, y, x, y);
    }
  }

  /** The end of row y is the start of row y + 1. */
  lemma {:induction false} RowEnd(d: Cells, e: Cells, y: nat)
    requires WellFormed(d) && WellFormed(e)
    ensures AgreeBefore(d, e, d.width, y) == AgreeBefore(d, e, 0, y + 1)
    ensures DiffersBefore(d, e, d.width, y) == DiffersBefore(d, e, 0, y + 1)
  {
    forall x': int, y': int
      ensures Before(d.width, d.width, y, x', y') == Before(d.width, 0, y + 1, x', y')
    {
    }
  }

  /** set's test for writing cell (x, y) into a grid whose bounds are tw by
      th and whose storage holds n cells: the cell passes the bound check and
      its element x + y * tw lies inside the storage. */
  predicate WriteOk(tw: nat, th: nat, n: nat, x: nat, y: nat) {
    x < tw && y < th && Index(tw, x, y) < n
  }

  /** Writing the successor of a w by h grid into a target that kept its
      bounds tw by th but holds w * h cells (what changeSizeDestructing
      leaves) fails at some cell: log.Fatal in set, or the index panic. */
  ghost predicate StaleFails(tw: nat, th: nat, w: nat, h: nat) {
    exists x: nat, y: nat :: x < w && y < h && !WriteOk(tw, th, w * h, x, y)
  }

  /** A write fails exactly when the source has cells and the stale target
      is narrower or lower, or is wider while the source has two rows or more. */
  lemma StaleFailsIff(tw: nat, th: nat, w: nat, h: nat)
    ensures StaleFails(tw, th, w, h) <==> 0 < w && 0 < h && (tw < w || th < h || (2 <= h && w < tw))
  {
    if 0 < w && 0 < h {
      if tw < w {
        assert !WriteOk(tw, th, w * h, tw, 0);
      } else if th < h {
        assert !WriteOk(tw, th, w * h, 0, th);
      } else if 2 <= h && w < tw {
        MulMono(w + 1, tw, h - 1);
        assert (w + 1) * (h - 1) == w * h + h - w - 1;
        assert !WriteOk(tw, th, w * h, w - 1, h - 1);
      } else {
        forall x: nat, y: nat | x < w && y < h
          ensures WriteOk(tw, th, w * h, x, y)
        {
          if h == 1 {
            assert y == 0;
          } else {
            IndexInBounds(w, h, x, y);
          }
        }
      }
    }
  }

  /** When no write fails, each lands where a grid w wide keeps the cell. */
  lemma StaleWritesLand(tw: nat, th: nat, w: nat, h: nat, x: nat, y: nat)
    requires !StaleFails(tw, th, w, h) && x < w && y < h
    ensures WriteOk(tw, th, w * h, x, y) && Index(tw, x, y) == Index(w, x, y)
  {
    StaleFailsIff(tw, th, w, h);
  }

  /** Mutable storage of one generation (BooleanBufferImpl). */
  class Grid {
    var maxX: nat
    var maxY: nat
    var vals: array<bool>

    /** The backing array holds exactly maxX * maxY cells. */
    ghost predicate Valid()
      reads this
    {
      vals.Length == maxX * maxY
    }

    ghost function Value(): Cells
      reads this, vals
    {
      Cells(maxX, maxY, vals[..])
    }

    /** initBuffer: an all-dead grid of w by h cells. */
    constructor Init(w: nat, h: nat)
      ensures Valid() && Value() == Empty(w, h) && fresh(vals)
    {
      maxX, maxY := w, h;
      vals := new bool[w * h](_ => false);
    }

    /** newEmptyBuffer: a new all-dead grid of this grid's dimensions. */
    method NewEmptyBuffer() returns (r: Grid)
      ensures fresh(r) && fresh(r.vals) && r.Valid() && r.Value() == Empty(maxX, maxY)
    {
      r := new Grid.Init(maxX, maxY);
    }

    /** get: fatal outside the grid, so callers must stay inside it. */
    method Get(x: nat, y: nat) returns (v: bool)
      requires Valid() && x < maxX && y < maxY
      ensures v == At(Value(), x, y)
    {
      IndexInBounds(maxX, maxY, x, y);
      v := vals[x + y * maxX];
    }

    /** set: log.Fatal outside maxX by maxY; inside, the element
        x + y * maxX is written, and Go's index panic ends the program when
        the storage is shorter (a grid left stale by changeSizeDestructing).
        Both are halted. On a valid grid a write inside the bounds changes
        cell (x, y) and no other. */
    method Set(x: nat, y: nat, v: bool) returns (halted: bool)
      modifies vals
      ensures halted <==> !WriteOk(maxX, maxY, vals.Length, x, y)
      ensures !halted ==> vals[..] == old(vals[..])[Index(maxX, x, y) := v]
      ensures Valid() && x < maxX && y < maxY ==> !halted && Value() == With(old(Value()), x, y, v)
      ensures Valid() && x < maxX && y < maxY ==> forall x': int, y': int :: 0 <= x' < maxX && 0 <= y' < maxY ==>
        At(Value(), x', y') == if x' == x && y' == y then v else old(At(Value(), x', y'))
    {
      if x < maxX && y < maxY {
        if Valid() {
          IndexInBounds(maxX, maxY, x, y);
        }
        if x + y * maxX < vals.Length {
          ghost var before := Value();
          vals[x + y * maxX] := v;
          halted := false;
          if Valid() {
            assert Value() == With(before, x, y, v);
            forall x': int, y': int | 0 <= x' < maxX && 0 <= y' < maxY
              ensures At(Value(), x', y') == if x' == x && y' == y then v else At(before, x', y')
            {
              WithAt(before, x, y, v, x', y');
            }
          }
        } else {
          halted := true;
        }
      } else {
        halted := true;
      }
    }

    /** The storage of this grid read with the bounds w by h. */
    ghost function ViewAs(w: nat, h: nat): Cells
      reads this, vals
    {
      Cells(w, h, vals[..])
    }

    /** equals: true iff the dimensions match and every cell agrees. */
    method Equals(other: Grid) returns (eq: bool)
      requires Valid() && other.Valid()
      ensures eq <==> Value() == other.Value()
    {
      if maxX != other.maxX || maxY != other.maxY {
        return false;
      }
      var i := 0;
      while i < maxX
        invariant 0 <= i <= maxX
        invariant forall x: int, y: int :: 0 <= x < i && 0 <= y < maxY ==> At(Value(), x, y) == At(other.Value(), x, y)
      {
        var j := 0;
        while j < maxY
          invariant 0 <= j <= maxY
          invariant forall x: int, y: int :: 0 <= x < i && 0 <= y < maxY ==> At(Value(), x, y) == At(other.Value(), x, y)
          invariant forall y: int :: 0 <= y < j ==> At(Value(), i, y) == At(other.Value(), i, y)
        {
          var a := Get(i, j);
          var b := other.Get(i, j);
          if a != b {
            return false;
          }
          j := j + 1;
        }
        i := i + 1;
      }
      CellsExt(Value(), other.Value());
      return true;
    }

    /** changeSizeDestructing, as written: fresh dead storage of w * h cells,
        but maxX and maxY keep their old values. */
    method ChangeSizeDestructing(w: nat, h: nat)
      modifies this
      ensures fresh(vals) && vals[..] == seq(w * h, _ => false)
      ensures maxX == old(maxX) && maxY == old(maxY)
    {
      vals := new bool[w * h](_ => false);
    }

    /** The destructive resize with the dimensions updated along with the
        storage: an all-dead grid of w by h cells. */
    method Reallocate(w: nat, h: nat)
      modifies this
      ensures Valid() && fresh(vals) && Value() == Empty(w, h)
    {
      maxX, maxY := w, h;
      vals := new bool[w * h](_ => false);
    }

    /** changeSizeNotDestructing: the receiver itself when the dimensions are
        unchanged, otherwise a new grid holding the top-left overlap with
        every other cell dead; the receiver is never modified. */
    method ChangeSizeNotDestructing(w: nat, h: nat) returns (r: Grid)
      requires Valid()
      ensures r.Valid() && r.Value() == Resized(Value(), w, h)
      ensures w == maxX && h == maxY ==> r == this
      ensures w != maxX || h != maxY ==> fresh(r) && fresh(r.vals)
    {
      if w != maxX || h != maxY {
        ghost var src := Value();
        r := new Grid.Init(w, h);
        EmptyIsDead(w, h);
        var mx := if w < maxX then w else maxX;
        var my := if h < maxY then h else maxY;
        var x := 0;
        while x < mx
          invariant 0 <= x <= mx
          invariant r.Valid() && r.maxX == w && r.maxY == h && fresh(r) && fresh(r.vals)
          invariant Valid() && Value() == src
          invariant forall x': int, y': int :: 0 <= x' < w && 0 <= y' < h ==>
            At(r.Value(), x', y') == (x' < x && y' < my && At(src, x', y'))
        {
          var y := 0;
          while y < my
            invariant 0 <= y <= my
            invariant r.Valid() && r.maxX == w && r.maxY == h && fresh(r) && fresh(r.vals)
            invariant Valid() && Value() == src
            invariant forall x': int, y': int :: 0 <= x' < w && 0 <= y' < h ==>
              At(r.Value(), x', y') == (((x' < x && y' < my) || (x' == x && y' < y)) && At(src, x', y'))
          {
            var v := Get(x, y);
            var halted := r.Set(x, y, v);
            y := y + 1;
          }
          x := x + 1;
        }
        forall x': int, y': int | 0 <= x' < w && 0 <= y' < h
          ensures At(r.Value(), x', y') == At(Resized(src, w, h), x', y')
        {
          ResizedAt(src, w, h, x', y');
        }
        CellsExt(r.Value(), Resized(src, w, h));
      } else {
        ResizedSame(Value());
        r := this;
      }
    }

    /** countNeighbors: the live in-bounds Moore neighbours of (x, y). */
    method CountNeighbors(x: nat, y: nat) returns (count: nat)
      requires Valid()
      ensures count == Neighbors(Value(), x, y) && count <= 8
    {
      count := 0;
      var dy := -1;
      while dy <= 1
        invariant -1 <= dy <= 2
        invariant count + RowsRest(Value(), x, y, dy) == RowsRest(Value(), x, y, -1)
      {
        var n := CountRow(x, y, dy);
        count := count + n;
        dy := dy + 1;
      }
      RowsRestAll(Value(), x, y);
    }

    /** One pass of countNeighbors' inner loop: the live in-bounds cells of
        row y + dy in columns x - 1 to x + 1, the centre (x, y) excluded. */
    method CountRow(x: nat, y: nat, dy: int) returns (count: nat)
      requires Valid() && -1 <= dy <= 1
      ensures count == RowRest(Value(), x, y, dy, -1)
    {
      count := 0;
      var dx := -1;
      while dx <= 1
        invariant -1 <= dx <= 2
        invariant count + RowRest(Value(), x, y, dy, dx) == RowRest(Value(), x, y, dy, -1)
      {
        if dx == 0 && dy == 0 {
          dx := dx + 1;
          continue;
        }
        var nx, ny := x + dx, y + dy;
        if nx >= 0 && nx < maxX && ny >= 0 && ny < maxY {
          var alive := Get(nx, ny);
          if alive {
            count := count + 1;
          }
        }
        dx := dx + 1;
      }
    }

    /** The body of nextGeneration's loop for one cell: the cell's current
        state and its state in the next generation. */
    method CellSuccessor(x: nat, y: nat) returns (cur: bool, tmp: bool)
      requires Valid() && x < maxX && y < maxY
      ensures cur == At(Value(), x, y)
      ensures tmp == Rule(cur, Neighbors(Value(), x, y))
      ensures tmp == At(Step(Value()), x, y)
    {
      var neighbors := CountNeighbors(x, y);
      cur := Get(x, y);
      if cur {
        tmp := neighbors == 2 || neighbors == 3;
      } else {
        tmp := neighbors == 3;
      }
      StepAt(Value(), x, y);
    }

    /** nextGeneration, as written: a nil target becomes a new grid; a
        target of other dimensions gets fresh storage from
        changeSizeDestructing but keeps its bounds, so a write of the
        successor can fail (halted exactly when StaleFails). When no write
        fails, the target's storage holds the successor under the target's
        own bounds, and changed reports whether any cell flipped. */
    method NextGeneration(target: Grid?) returns (r: Grid, changed: bool, halted: bool)
      requires Valid()
      requires target != null ==> target != this && target.vals != vals && target.Valid()
      modifies if target == null then {} else {target, target.vals}
      ensures target != null ==> r == target && r.maxX == old(target.maxX) && r.maxY == old(target.maxY)
      ensures target == null ==> fresh(r) && r.maxX == maxX && r.maxY == maxY
      ensures halted <==> StaleFails(r.maxX, r.maxY, maxX, maxY)
      ensures !halted ==> r.vals[..] == Step(Value()).alive && (changed <==> Step(Value()) != Value())
      ensures r.maxX == maxX && r.maxY == maxY ==> !halted && r.Valid() && r.Value() == Step(Value())
      ensures r.vals != vals
      ensures target != null ==> r.vals == old(target.vals) || fresh(r.vals)
    {
      if target != null {
        r := target;
        if r.maxX != maxX || r.maxY != maxY {
          r.ChangeSizeDestructing(maxX, maxY);
        }
      } else {
        r := new Grid.Init(maxX, maxY);
      }
      changed, halted := WriteSuccessor(r);
      StaleFailsIff(maxX, maxY, maxX, maxY);
    }

    /** nextGeneration with the destructive resize updating the bounds as
        well (Reallocate): the target, or a new grid when there is none,
        holds the successor, and changed reports whether any cell flipped. */
    method NextGenerationIntended(target: Grid?) returns (r: Grid, changed: bool)
      requires Valid()
      requires target != null ==> target != this && target.vals != vals && target.Valid()
      modifies if target == null then {} else {target, target.vals}
      ensures r.Valid() && r.Value() == Step(Value())
      ensures changed <==> Step(Value()) != Value()
      ensures target != null ==> r == target
      ensures target == null ==> fresh(r)
      ensures r.vals != vals
      ensures target != null ==> r.vals == old(target.vals) || fresh(r.vals)
    {
      if target != null {
        r := target;
        if r.maxX != maxX || r.maxY != maxY {
          r.Reallocate(maxX, maxY);
        }
      } else {
        r := new Grid.Init(maxX, maxY);
      }
      var halted;
      changed, halted := WriteSuccessor(r);
      StaleFailsIff(maxX, maxY, maxX, maxY);
    }

    /** The loops of nextGeneration: row by row and cell by cell the
        successor is written into r with set, up to the first write that
        fails. */
    method WriteSuccessor(r: Grid) returns (changed: bool, halted: bool)
      requires Valid() && r != this && r.vals != vals && r.vals.Length == maxX * maxY
      modifies r.vals
      ensures halted <==> StaleFails(r.maxX, r.maxY, maxX, maxY)
      ensures !halted ==> r.vals[..] == Step(Value()).alive && (changed <==> Step(Value()) != Value())
    {
      ghost var src := Value();
      ghost var fails := StaleFails(r.maxX, r.maxY, maxX, maxY);
      changed, halted := false, false;
      var y := 0;
      while y < maxY
        invariant 0 <= y <= maxY
        invariant r.vals.Length == maxX * maxY && Valid() && Value() == src
        invariant forall x': nat, y': nat :: x' < maxX && y' < y ==> WriteOk(r.maxX, r.maxY, maxX * maxY, x', y')
        invariant !fails ==> AgreeBefore(r.ViewAs(maxX, maxY), Step(src), 0, y)
        invariant changed <==> DiffersBefore(Step(src), src, 0, y)
      {
        changed, halted := NextRow(y, r, changed);
        if halted {
          return;
        }
        y := y + 1;
      }
      assert !fails;
      forall x': int, y': int | 0 <= x' < maxX && 0 <= y' < maxY
        ensures At(r.ViewAs(maxX, maxY), x', y') == At(Step(src), x', y')
      {
        assert Before(maxX, 0, maxY, x', y');
      }
      CellsExt(r.ViewAs(maxX, maxY), Step(src));
      StepChangedIff(src);
    }

    /** One pass of nextGeneration's inner loop: the cells of row y of the
        successor are written into r in turn, stopping at a write that
        fails; changed also records whether a cell of row y flips. */
    method NextRow(y: nat, r: Grid, changedAbove: bool) returns (changed: bool, halted: bool)
      requires Valid() && r != this && r.vals != vals && r.vals.Length == maxX * maxY && y < maxY
      requires !StaleFails(r.maxX, r.maxY, maxX, maxY) ==> AgreeBefore(r.ViewAs(maxX, maxY), Step(Value()), 0, y)
      requires changedAbove <==> DiffersBefore(Step(Value()), Value(), 0, y)
      modifies r.vals
      ensures r.vals.Length == maxX * maxY
      ensures halted ==> StaleFails(r.maxX, r.maxY, maxX, maxY)
      ensures !halted ==> forall x': nat :: x' < maxX ==> WriteOk(r.maxX, r.maxY, maxX * maxY, x', y)
      ensures !halted && !StaleFails(r.maxX, r.maxY, maxX, maxY) ==>
        AgreeBefore(r.ViewAs(maxX, maxY), Step(Value()), 0, y + 1)
      ensures !halted ==> (changed <==> DiffersBefore(Step(Value()), Value(), 0, y + 1))
    {
      ghost var src := Value();
      ghost var next := Step(src);
      ghost var fails := StaleFails(r.maxX, r.maxY, maxX, maxY);
      changed, halted := changedAbove, false;
      var x := 0;
      while x < maxX
        invariant 0 <= x <= maxX
        invariant r.vals.Length == maxX * maxY && Valid() && Value() == src
        invariant forall x': nat :: x' < x ==> WriteOk(r.maxX, r.maxY, maxX * maxY, x', y)
        invariant !fails ==> AgreeBefore(r.ViewAs(maxX, maxY), next, x, y)
        invariant changed <==> DiffersBefore(next, src, x, y)
      {
        var cur, tmp := CellSuccessor(x, y);
        assert DiffersBefore(next, src, x + 1, y) <==> DiffersBefore(next, src, x, y) || tmp != cur by {
          DiffersBeforeStep(next, src, x, y);
        }
        if tmp != cur {
          changed := true;
        }
        ghost var view := r.ViewAs(maxX, maxY);
        halted := r.Set(x, y, tmp);
        if halted {
          assert !WriteOk(r.maxX, r.maxY, maxX * maxY, x, y);
          return;
        }
        if !fails {
          StaleWritesLand(r.maxX, r.maxY, maxX, maxY, x, y);
          assert r.ViewAs(maxX, maxY) == With(view, x, y, tmp);
          AgreeBeforeStep(view, next, x, y);
        }
        x := x + 1;
      }
      RowEnd(r.ViewAs(maxX, maxY), next, y);
      RowEnd(next, src, y);
    }
  }

  /** As written, changeSizeDestructing leaves a reused 2 by 2 target with
      nine cells of storage but a width of 2, so nextGeneration's first write
      at column 2 of a 3 by 3 source fails set's bound check. */
  method StaleBoundsAfterDestructiveResize() returns (width: nat, cells: nat, inBounds: bool)
    ensures width == 2 && cells == 9 && !inBounds
  {
    var g := new Grid.Init(2, 2);
    g.ChangeSizeDestructing(3, 3);
    width, cells := g.maxX, g.vals.Length;
    inBounds := 2 < g.maxX;
  }
}
