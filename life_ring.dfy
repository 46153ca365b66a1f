/**
 * The history of generations (BooleanBuffersImpl): a fixed ring of grid
 * slots, a pointer to the generation on display, stepping back and forth
 * through the occupied slots, and nextGeneration, which computes the
 * successor into the following slot and then moves the pointer back when
 * the pattern has stopped changing or has started to oscillate.
 */
module LifeRing {
  import opened LifeGrid
  import opened Options

  /** Euclidean division by n > 0 is determined by the quotient and the
      remainder: a = k * n + r with 0 <= r < n fixes both. */
  lemma {:induction false} DivModUnique(a: int, k: int, n: int, r: int)
    requires n > 0 && 0 <= r < n && a == k * n + r
    ensures a / n == k && a % n == r
  {
    var q, s := a / n, a % n;
    assert a == q * n + s;
    assert (k - q) * n == s - r;
    if k - q >= 1 {
      MulMono(1, k - q, n);
    } else if q - k >= 1 {
      MulMono(1, q - k, n);
    }
  }

  /** Go's % on int: it truncates toward zero, so a negative dividend leaves
      a remainder that is zero or negative. */
  function GoRem(a: int, n: int): (r: int)
    requires n > 0
    ensures -n < r < n
    ensures a >= 0 ==> 0 <= r
    ensures a <= 0 ==> r <= 0
  {
    if a >= 0 then a % n else -((-a) % n)
  }

  /** relative's slot: the truncated remainder of p + diff, lifted into
      [0, n) when negative. */
  function Wrap(p: int, diff: int, n: nat): (r: nat)
    requires n > 0
    ensures r < n
  {
    var r := GoRem(p + diff, n);
    if r < 0 then r + n else r
  }

  /** The lifted truncated remainder is the Euclidean residue of p + diff
      modulo n, whatever the sign of p + diff. */
  lemma {:induction false} WrapIsMod(p: int, diff: int, n: nat)
    requires n > 0
    ensures Wrap(p, diff, n) == (p + diff) % n
  {
    var a := p + diff;
    if a < 0 {
      var m := -a;
      var q, t := m / n, m % n;
      assert m == q * n + t;
      if t == 0 {
        DivModUnique(a, -q, n, 0);
      } else {
        DivModUnique(a, -q - 1, n, n - t);
      }
    }
  }

  /** One slot forward and one slot back in a ring of n slots. */
  lemma {:induction false} WrapStep(p: nat, n: nat)
    requires p < n
    ensures Wrap(p, 1, n) == (p + 1) % n == if p + 1 == n then 0 else p + 1
    ensures Wrap(p, -1, n) == if p == 0 then n - 1 else p - 1
  {
    if p + 1 == n {
      DivModUnique(p + 1, 1, n, 0);
    } else {
      DivModUnique(p + 1, 0, n, p + 1);
    }
    if p > 0 {
      DivModUnique(p - 1, 0, n, p - 1);
    } else if n == 1 {
      DivModUnique(1, 1, n, 0);
    } else {
      DivModUnique(1, 0, n, 1);
    }
  }

  /** One step back after one step forward (and forward after back) lands on
      the slot the pointer started from; progress's slot, one step back, is
      the slot it came from. */
  lemma {:induction false} WrapRoundTrip(p: nat, n: nat)
    requires p < n
    ensures Wrap(Wrap(p, 1, n), -1, n) == p
    ensures Wrap(Wrap(p, -1, n), 1, n) == p
    ensures Wrap((p + 1) % n, -1, n) == p
  {
    WrapStep(p, n);
    WrapStep(Wrap(p, 1, n), n);
    WrapStep(Wrap(p, -1, n), n);
  }

  /** In a ring of n >= 3 slots the slots p - 2, p - 1, p and p + 1 are
      pairwise distinct, except that p - 2 is p + 1 when n is 3. */
  lemma {:induction false} NeighbourSlotsDistinct(p: nat, n: nat)
    requires n >= 3 && p < n
    ensures Wrap(p, -1, n) != p && (p + 1) % n != p && (p + 1) % n != Wrap(p, -1, n)
    ensures Wrap(Wrap(p, -1, n), -1, n) != Wrap(p, -1, n)
    ensures Wrap(Wrap(p, -1, n), -1, n) != p
    ensures Wrap(Wrap(p, -1, n), -1, n) == (p + 1) % n <==> n == 3
  {
    WrapStep(p, n);
    WrapStep(Wrap(p, -1, n), n);
  }

  /** Where nextGeneration leaves the pointer, and whether log.Fatal ended
      the program there. */
  datatype Landing = Landing(slot: nat, halted: bool)

  /** Where ptr lands after nextGeneration AS WRITTEN, starting from slot p: a
      successor equal to the generation before p (repeat) rewinds two slots
      from p + 1; an unchanged successor rewinds one more slot; both tests
      run one after the other, so when both hold the pointer rewinds three
      slots in all, and log.Fatal fires when slot p - 2 is empty. */
  function AsWrittenLanding(p: nat, n: nat, repeat: bool, changed: bool, twoBackOccupied: bool): (l: Landing)
    requires n >= 3 && p < n
    ensures l.slot < n
    ensures l.halted <==> repeat && !changed && !twoBackOccupied
  {
    var back := Wrap(p, -1, n);
    if repeat && !changed then
      if twoBackOccupied then Landing(Wrap(back, -1, n), false) else Landing(back, true)
    else if repeat then Landing(back, false)
    else if !changed then Landing(p, false)
    else Landing((p + 1) % n, false)
  }

  /** Where ptr lands after nextGeneration with the two rewinds as alternatives:
      back to p - 1 on a repeat, else back to p when nothing changed, else
      on to the new slot p + 1. */
  function IntendedLanding(p: nat, n: nat, repeat: bool, changed: bool): (slot: nat)
    requires n >= 3 && p < n
    ensures slot < n
  {
    if repeat then Wrap(p, -1, n)
    else if !changed then p
    else (p + 1) % n
  }

  /** The two versions agree exactly when the successor is not both a repeat
      and unchanged. */
  lemma {:induction false} LandingsAgreeIff(p: nat, n: nat, repeat: bool, changed: bool, twoBackOccupied: bool)
    requires n >= 3 && p < n
    ensures AsWrittenLanding(p, n, repeat, changed, twoBackOccupied) == Landing(IntendedLanding(p, n, repeat, changed), false)
      <==> !(repeat && !changed)
  {
    NeighbourSlotsDistinct(p, n);
  }

  /** Two values with the same bounds. */
  predicate SameBounds(t: Cells, v: Cells) {
    t.width == v.width && t.height == v.height
  }

  /** The grid progress puts in front of nextGeneration's step from v: the
      slot's own grid, or an all-dead grid of v's dimensions when the slot
      is empty. */
  function TargetOf(slot: Option<Cells>, v: Cells): Cells {
    if slot.Some? then slot.value else Empty(v.width, v.height)
  }

  /** Mutable ring of generations. */
  class Ring {
    const size: nat
    const buffers: array<Grid?>
    var ptr: nat
    ghost var Repr: set<object>
    /** The generation held by each slot, None for an empty slot. */
    ghost var Gens: seq<Option<Cells>>
    /** The slot each grid, and each grid's storage, belongs to: no grid and
        no storage is shared by two slots. */
    ghost var Owner: map<object?, nat>

    /** ptr names an occupied slot; every occupied slot holds a
        well-formed grid of its own, with storage of its own, whose value
        Gens records. */
    ghost predicate Valid()
      reads this, Repr
    {
      ValidBut(-1)
    }

    /** Valid, except that slot p may hold a grid that Gens and Owner do not
        yet record. */
    ghost predicate ValidBut(p: int)
      reads this, Repr
    {
      this in Repr && buffers in Repr &&
      1 <= size == buffers.Length == |Gens| && ptr < size && buffers[ptr] != null &&
      (forall i :: 0 <= i < size && i != p ==> (buffers[i] == null <==> Gens[i] == None)) &&
      (forall i :: 0 <= i < size && i != p && buffers[i] != null ==>
        buffers[i] in Repr && buffers[i].vals in Repr && buffers[i].Valid() &&
        Gens[i] == Some(buffers[i].Value()) &&
        buffers[i] in Owner && Owner[buffers[i]] == i &&
        buffers[i].vals in Owner && Owner[buffers[i].vals] == i)
    }

    /** The generation on display. */
    ghost function Shown(): Cells
      requires Valid()
      reads this, Repr
    {
      Gens[ptr].value
    }

    /** initBuffers: a ring of size slots, slot 0 holding an all-dead w by h
        grid and every other slot empty. */
    constructor Init(size: nat, w: nat, h: nat)
      requires size >= 1
      ensures Valid() && fresh(Repr)
      ensures this.size == size && ptr == 0
      ensures Gens == [Some(Empty(w, h))] + seq(size - 1, _ => None)
    {
      var g := new Grid.Init(w, h);
      var a := new Grid?[size](_ => null);
      a[0] := g;
      this.size := size;
      buffers := a;
      ptr := 0;
      Repr := {this, a, g, g.vals};
      Owner := map[g := 0, g.vals := 0];
      Gens := [Some(Empty(w, h))] + seq(size - 1, _ => None);
    }

    /** current: the grid on display, never nil in a valid ring. */
    method Current() returns (g: Grid)
      requires Valid()
      ensures g == buffers[ptr] && g in Repr && g.vals in Repr && g.Valid()
      ensures g.Value() == Shown()
    {
      g := buffers[ptr];
    }

    /** relative: moves the pointer diff slots around the ring when that slot
        is occupied and reports whether it moved. The resize it applies to
        the slot's grid returns a new grid that is discarded, so no grid
        changes. */
    method Relative(diff: int) returns (moved: bool)
      requires Valid()
      modifies this
      ensures Valid() && Repr == old(Repr) && Gens == old(Gens)
      ensures moved <==> Gens[Wrap(old(ptr), diff, size)].Some?
      ensures ptr == if moved then Wrap(old(ptr), diff, size) else old(ptr)
    {
      var example := Current();
      var prevPtr := GoRem(ptr + diff, size);
      if prevPtr < 0 {
        prevPtr := prevPtr + size;
      }
      var res := buffers[prevPtr];
      if res != null {
        ptr := prevPtr;
        var discarded := res.ChangeSizeNotDestructing(example.maxX, example.maxY);
        moved := true;
      } else {
        moved := false;
      }
    }

    /** next: one slot forward, when occupied. */
    method Next() returns (moved: bool)
      requires Valid()
      modifies this
      ensures Valid() && Repr == old(Repr) && Gens == old(Gens)
      ensures moved <==> Gens[Wrap(old(ptr), 1, size)].Some?
      ensures ptr == if moved then Wrap(old(ptr), 1, size) else old(ptr)
    {
      moved := Relative(1);
    }

    /** prev: one slot back, when occupied. */
    method Prev() returns (moved: bool)
      requires Valid()
      modifies this
      ensures Valid() && Repr == old(Repr) && Gens == old(Gens)
      ensures moved <==> Gens[Wrap(old(ptr), -1, size)].Some?
      ensures ptr == if moved then Wrap(old(ptr), -1, size) else old(ptr)
    {
      moved := Relative(-1);
    }

    /** progress: the pointer moves unconditionally to the next slot, which
        keeps its grid when it has one and otherwise receives a new all-dead
        grid of the current grid's dimensions; no other slot changes. */
    method Progress() returns (res: Grid)
      requires Valid()
      modifies this, buffers
      ensures Valid() && fresh(Repr - old(Repr))
      ensures ptr == (old(ptr) + 1) % size && res == buffers[ptr]
      ensures var s := ptr;
        Gens == old(Gens)[s := if old(Gens)[s].Some? then old(Gens)[s]
                               else Some(Empty(old(Shown()).width, old(Shown()).height))]
      ensures forall i :: 0 <= i < size && i != ptr ==> buffers[i] == old(buffers[i])
    {
      var example := Current();
      var newPtr := (ptr + 1) % size;
      var slot := buffers[newPtr];
      ptr := newPtr;
      if slot != null {
        var discarded := slot.ChangeSizeNotDestructing(example.maxX, example.maxY);
        res := slot;
      } else {
        res := new Grid.Init(example.maxX, example.maxY);
        buffers[ptr] := res;
        Record(res);
      }
    }

    /** changeSizes: the current slot receives the current grid resized to
        w by h, keeping the top-left overlap. */
    method ChangeSizes(w: nat, h: nat)
      requires Valid()
      modifies this, buffers
      ensures Valid() && ptr == old(ptr) && fresh(Repr - old(Repr))
      ensures Gens == old(Gens)[ptr := Some(Resized(old(Shown()), w, h))]
    {
      var current := Current();
      var newB := current.ChangeSizeNotDestructing(w, h);
      buffers[ptr] := newB;
      Record(newB);
    }

    /** The look back at the start of nextGeneration: prev and, when it
        moved, next again, remembering the grid of slot p - 1 on the way; the
        pointer ends where it started. */
    method LookBack() returns (prev: Grid?)
      requires Valid()
      modifies this
      ensures Valid() && Repr == old(Repr) && Gens == old(Gens) && ptr == old(ptr)
      ensures prev == buffers[Wrap(ptr, -1, size)]
      ensures prev != null ==> prev.Value() == Gens[Wrap(ptr, -1, size)].value
    {
      WrapRoundTrip(ptr, size);
      prev := null;
      var moved := Prev();
      if moved {
        prev := Current();
        moved := Next();
      }
    }

    /** current.nextGeneration(newCurrent) inside the ring: the grid of
        slot p - 1 writes its successor into the grid of slot p, whose
        storage may be replaced; no other slot changes. As written (not
        corrected) the step halts when the stale bounds make a write fail,
        and leaves slot p stale when they differ from the successor's
        without failing; corrected, it neither halts nor leaves a stale slot. */
    method StepInto(current: Grid, target: Grid, corrected: bool) returns (res: Grid, changed: bool, halted: bool, stale: bool)
      requires Valid() && size >= 3 && target == buffers[ptr]
      requires current == buffers[Wrap(ptr, -1, size)]
      modifies target, target.vals, this
      ensures ptr == old(ptr) && res == target
      ensures var v, t := old(Gens[Wrap(ptr, -1, size)]).value, old(Gens[ptr]).value;
        (halted <==> !corrected && StaleFails(t.width, t.height, v.width, v.height)) &&
        (stale <==> !corrected && !halted && !SameBounds(t, v)) &&
        (!halted && !stale ==>
          Valid() && fresh(Repr - old(Repr)) && Gens == old(Gens)[ptr := Some(Step(v))] &&
          (changed <==> Step(v) != v)) &&
        (stale ==>
          ValidBut(ptr) && Repr == old(Repr) && Gens == old(Gens) &&
          res.maxX == t.width && res.maxY == t.height && res.vals[..] == Step(v).alive &&
          (changed <==> Step(v) != v))
    {
      res, changed, halted := StepGrid(current, target, corrected);
      stale := !corrected && !halted && (res.maxX != current.maxX || res.maxY != current.maxY);
      if !halted && !stale {
        Record(res);
      }
    }

    /** The grid step itself: only the target grid and its storage change,
        so every other slot still holds its generation. */
    method StepGrid(current: Grid, target: Grid, corrected: bool) returns (res: Grid, changed: bool, halted: bool)
      requires Valid() && size >= 3 && target == buffers[ptr]
      requires current == buffers[Wrap(ptr, -1, size)]
      modifies target, target.vals
      ensures ValidBut(ptr) && res == target && current.Value() == Gens[Wrap(ptr, -1, size)].value
      ensures var v, t := Gens[Wrap(ptr, -1, size)].value, Gens[ptr].value;
        (halted <==> !corrected && StaleFails(t.width, t.height, v.width, v.height)) &&
        (!halted ==> res.vals[..] == Step(v).alive && (changed <==> Step(v) != v)) &&
        (!halted && (corrected || SameBounds(t, v)) ==> res.Valid() && res.Value() == Step(v)) &&
        (!corrected ==> res.maxX == t.width && res.maxY == t.height)
      ensures res in Repr && res in Owner && Owner[res] == ptr
      ensures fresh(res.vals) || (res.vals in Repr && res.vals in Owner && Owner[res.vals] == ptr)
      ensures res.vals !in Owner || Owner[res.vals] == ptr
    {
      NeighbourSlotsDistinct(ptr, size);
      WrapRoundTrip(ptr, size);
      if corrected {
        res, changed := current.NextGenerationIntended(target);
        halted := false;
      } else {
        res, changed, halted := current.NextGeneration(target);
      }
    }

    /** Records the grid now in the current slot, and its storage, in Gens,
        Owner and Repr; neither may belong to another slot. */
    ghost method Record(res: Grid)
      requires ValidBut(ptr) && res == buffers[ptr] && res.Valid()
      requires res !in Owner || Owner[res] == ptr
      requires res.vals !in Owner || Owner[res.vals] == ptr
      modifies this
      ensures Valid() && ptr == old(ptr) && Repr == old(Repr) + {res, res.vals}
      ensures Gens == old(Gens)[ptr := Some(res.Value())]
    {
      Repr, Owner, Gens := Repr + {res, res.vals}, Owner[res := ptr][res.vals := ptr], Gens[ptr := Some(res.Value())];
    }

    /** The first half of nextGeneration: remembers the grid before the
        current one (p - 1) when that slot is occupied, moves on to slot
        p + 1 with progress and writes the successor of the current grid
        there. repeat reports that the successor equals the remembered grid;
        halted and stale are those of StepInto. */
    method Advance(corrected: bool) returns (res: Grid, changed: bool, repeat: bool, halted: bool, stale: bool)
      requires Valid() && size >= 3
      modifies this, Repr
      ensures ptr == (old(ptr) + 1) % size && res == buffers[ptr]
      ensures var v := old(Shown()); var t := TargetOf(old(Gens)[ptr], v);
        (halted <==> !corrected && StaleFails(t.width, t.height, v.width, v.height)) &&
        (stale <==> !corrected && !halted && !SameBounds(t, v)) &&
        (!halted && !stale ==>
          Valid() && fresh(Repr - old(Repr)) && Gens == old(Gens)[ptr := Some(Step(v))] &&
          (changed <==> Step(v) != v) &&
          (repeat <==> old(Gens[Wrap(ptr, -1, size)]) == Some(Step(v)))) &&
        (stale ==>
          ValidBut(ptr) && Gens == old(Gens) &&
          res.maxX == t.width && res.maxY == t.height && res.vals[..] == Step(v).alive &&
          (changed <==> Step(v) != v))
    {
      var current := Current();
      var prev := LookBack();
      res, changed, repeat, halted, stale := StepAndCompare(current, prev, corrected);
    }

    /** The second half of Advance: progress and the step into the new
        slot and, when the step neither halted nor left the slot stale, the
        comparison with the remembered grid. */
    method StepAndCompare(current: Grid, prev: Grid?, corrected: bool)
      returns (res: Grid, changed: bool, repeat: bool, halted: bool, stale: bool)
      requires Valid() && size >= 3
      requires current == buffers[ptr] && prev == buffers[Wrap(ptr, -1, size)]
      modifies this, buffers, buffers[(ptr + 1) % size], Repr
      ensures ptr == (old(ptr) + 1) % size && res == buffers[ptr]
      ensures var v := old(Shown()); var t := TargetOf(old(Gens)[ptr], v);
        (halted <==> !corrected && StaleFails(t.width, t.height, v.width, v.height)) &&
        (stale <==> !corrected && !halted && !SameBounds(t, v)) &&
        (!halted && !stale ==>
          Valid() && fresh(Repr - old(Repr)) && Gens == old(Gens)[ptr := Some(Step(v))] &&
          (changed <==> Step(v) != v) &&
          (repeat <==> old(Gens[Wrap(ptr, -1, size)]) == Some(Step(v)))) &&
        (stale ==>
          ValidBut(ptr) && Gens == old(Gens) &&
          res.maxX == t.width && res.maxY == t.height && res.vals[..] == Step(v).alive &&
          (changed <==> Step(v) != v))
    {
      ghost var p := ptr;
      NeighbourSlotsDistinct(p, size);
      WrapRoundTrip(p, size);
      ghost var q := Wrap(p, -1, size);
      res, changed, halted, stale := ProgressAndStep(current, corrected);
      repeat := false;
      if halted || stale {
        return;
      }
      if prev != null {
        assert prev == buffers[q] && prev.Value() == Gens[q].value;
        repeat := res.Equals(prev);
      }
    }

    /** progress, then current.nextGeneration(newCurrent): the successor of
        the current grid is written into the grid of the next slot; no other
        slot changes. */
    method ProgressAndStep(current: Grid, corrected: bool) returns (res: Grid, changed: bool, halted: bool, stale: bool)
      requires Valid() && size >= 3 && current == buffers[ptr]
      modifies this, buffers, buffers[(ptr + 1) % size], Repr
      ensures ptr == (old(ptr) + 1) % size && res == buffers[ptr]
      ensures forall i :: 0 <= i < size && i != ptr ==> buffers[i] == old(buffers[i])
      ensures var v := old(Shown()); var t := TargetOf(old(Gens)[ptr], v);
        (halted <==> !corrected && StaleFails(t.width, t.height, v.width, v.height)) &&
        (stale <==> !corrected && !halted && !SameBounds(t, v)) &&
        (!halted && !stale ==>
          Valid() && fresh(Repr - old(Repr)) && Gens == old(Gens)[ptr := Some(Step(v))] &&
          (changed <==> Step(v) != v)) &&
        (stale ==>
          ValidBut(ptr) && Gens == old(Gens) &&
          res.maxX == t.width && res.maxY == t.height && res.vals[..] == Step(v).alive &&
          (changed <==> Step(v) != v))
    {
      ghost var p := ptr;
      WrapRoundTrip(p, size);
      var newCurrent := Progress();
      assert current == buffers[Wrap(ptr, -1, size)];
      assert Gens[ptr] == Some(TargetOf(old(Gens)[ptr], old(Shown())));
      res, changed, halted, stale := StepInto(current, newCurrent, corrected);
    }

    /** nextGeneration, as written. The step halts (log.Fatal, or the index
        panic) when the bounds of the grid in slot p + 1 make a write of the
        successor fail (StaleFails); it leaves that slot stale when its bounds
        differ without a failing write, and the model ends there. Otherwise a
        repeat rewinds two slots and then an unchanged successor rewinds one
        more, so when both hold the pointer ends three slots back, or
        log.Fatal (halted) fires when that slot is empty. */
    method NextGeneration() returns (res: Grid, changed: bool, halted: bool, stale: bool)
      requires Valid() && size >= 3
      modifies this, Repr
      ensures var p, v := old(ptr), old(Shown());
        var s, q := (p + 1) % size, Wrap(p, -1, size);
        var t := TargetOf(old(Gens[s]), v);
        (StaleFails(t.width, t.height, v.width, v.height) ==> halted && !stale) &&
        (stale <==> !SameBounds(t, v) && !StaleFails(t.width, t.height, v.width, v.height)) &&
        (stale ==>
          ValidBut(s) && ptr == s && Gens == old(Gens) && res == buffers[s] &&
          res.maxX == t.width && res.maxY == t.height && res.vals[..] == Step(v).alive &&
          (changed <==> Step(v) != v)) &&
        (SameBounds(t, v) ==>
          Valid() && fresh(Repr - old(Repr)) &&
          res == buffers[s] && Gens == old(Gens)[s := Some(Step(v))] &&
          (changed <==> Step(v) != v) &&
          Landing(ptr, halted) == AsWrittenLanding(p, size, old(Gens[q]) == Some(Step(v)), changed, Gens[Wrap(q, -1, size)].Some?))
    {
      ghost var p := ptr;
      ghost var v := Shown();
      ghost var t := TargetOf(Gens[(p + 1) % size], v);
      StaleFailsIff(t.width, t.height, v.width, v.height);
      NeighbourSlotsDistinct(p, size);
      var repeat;
      res, changed, repeat, halted, stale := Advance(false);
      if halted || stale {
        return;
      }
      halted := Rewind(p, repeat, changed);
    }

    /** The rewinds of nextGeneration as written, from slot p + 1 where the
        successor of slot p was written: two slots back on a repeat, then
        one more when nothing changed, halting when that slot is empty. */
    method Rewind(ghost p: nat, repeat: bool, changed: bool) returns (halted: bool)
      requires Valid() && size >= 3 && p < size && ptr == (p + 1) % size
      requires Gens[p].Some? && (repeat ==> Gens[Wrap(p, -1, size)].Some?)
      modifies this
      ensures Valid() && Repr == old(Repr) && Gens == old(Gens)
      ensures Landing(ptr, halted) ==
        AsWrittenLanding(p, size, repeat, changed, Gens[Wrap(Wrap(p, -1, size), -1, size)].Some?)
    {
      WrapRoundTrip(p, size);
      if repeat {
        var moved := Prev();
        moved := Prev();
      }
      halted := false;
      if !changed {
        var moved := Prev();
        if !moved {
          halted := true;
        }
      }
    }

    /** nextGeneration with the two rewinds as alternatives: a repeat
        rewinds to p - 1, otherwise an unchanged successor rewinds to p.
        Whichever way, the generation on display is the successor. */
    method NextGenerationIntended() returns (res: Grid, changed: bool)
      requires Valid() && size >= 3
      modifies this, Repr
      ensures Valid() && fresh(Repr - old(Repr))
      ensures var p, v := old(ptr), old(Shown());
        var s, q := (p + 1) % size, Wrap(p, -1, size);
        var repeat := old(Gens[q]) == Some(Step(v));
        res == buffers[s] && Gens == old(Gens)[s := Some(Step(v))] &&
        (changed <==> Step(v) != v) &&
        ptr == IntendedLanding(p, size, repeat, changed)
      ensures Shown() == Step(old(Shown()))
    {
      ghost var p := ptr;
      NeighbourSlotsDistinct(p, size);
      var repeat, halted, stale;
      res, changed, repeat, halted, stale := Advance(true);
      RewindIntended(p, repeat, changed);
    }

    /** The rewinds with the two tests as alternatives, from slot p + 1. */
    method RewindIntended(ghost p: nat, repeat: bool, changed: bool)
      requires Valid() && size >= 3 && p < size && ptr == (p + 1) % size
      requires Gens[p].Some? && (repeat ==> Gens[Wrap(p, -1, size)].Some?)
      modifies this
      ensures Valid() && Repr == old(Repr) && Gens == old(Gens)
      ensures ptr == IntendedLanding(p, size, repeat, changed)
    {
      WrapRoundTrip(p, size);
      if repeat {
        var moved := Prev();
        moved := Prev();
      } else if !changed {
        var moved := Prev();
      }
    }
  }

  /** The halt as written, on the ring gtk-conway builds (100 slots of an
      80 by 80 all-dead grid): the first step finds nothing changed and
      rewinds to slot 0; after next, the second step from slot 1 finds its
      successor equal to slot 0 and unchanged, rewinds three slots to the
      empty slot 99, and log.Fatal fires. */
  method StillLifeHalts() returns (halted: bool)
    ensures halted
  {
    var ring := new Ring.Init(100, 80, 80);
    EmptyIsFixedPoint(80, 80);
    FirstSteps(ring);
    var res, changed, stale;
    res, changed, halted, stale := ring.NextGeneration();
  }

  /** The first step and the move forward in StillLifeHalts. */
  method FirstSteps(ring: Ring)
    requires ring.Valid() && ring.size == 100 && ring.ptr == 0
    requires ring.Gens == [Some(Empty(80, 80))] + seq(99, _ => None)
    requires Step(Empty(80, 80)) == Empty(80, 80)
    modifies ring, ring.Repr
    ensures ring.Valid() && ring.size == 100 && ring.ptr == 1 && fresh(ring.Repr - old(ring.Repr))
    ensures ring.Gens[0] == ring.Gens[1] == Some(Empty(80, 80)) && ring.Gens[2] == None && ring.Gens[99] == None
  {
    assert ring.Gens[1] == None && ring.Gens[2] == None && ring.Gens[99] == None;
    var res, changed, halted, stale := ring.NextGeneration();
    var moved := ring.Next();
  }

  /** The stale bounds as written, on a ring of 3 slots of a 2 by 2 dead
      grid: the first step writes the dead successor into slot 1 and rewinds
      to slot 0; changeSizes(3, 3) resizes slot 0; the next step writes a
      3 by 3 successor into slot 1, whose bounds stay 2 by 2, so set(2, 0)
      ends in log.Fatal. */
  method ResizeThenStepHalts() returns (halted: bool)
    ensures halted
  {
    var ring := new Ring.Init(3, 2, 2);
    StepThenResize(ring);
    ghost var v := ring.Shown();
    assert TargetOf(ring.Gens[(ring.ptr + 1) % ring.size], v) == Empty(2, 2);
    assert StaleFails(2, 2, v.width, v.height) by {
      StaleFailsIff(2, 2, 3, 3);
    }
    var res, changed, stale;
    res, changed, halted, stale := ring.NextGeneration();
  }

  /** The first step and the resize of ResizeThenStepHalts: slot 0 holds a
      3 by 3 grid, slot 1 the 2 by 2 one, and the pointer is at 0. */
  method StepThenResize(ring: Ring)
    requires ring.Valid() && ring.size == 3 && ring.ptr == 0
    requires ring.Gens == [Some(Empty(2, 2))] + seq(2, _ => None)
    modifies ring, ring.Repr
    ensures ring.Valid() && ring.size == 3 && ring.ptr == 0 && fresh(ring.Repr - old(ring.Repr))
    ensures ring.Shown().width == 3 && ring.Shown().height == 3 && ring.Gens[1] == Some(Empty(2, 2))
  {
    EmptyIsFixedPoint(2, 2);
    assert ring.Gens[1] == None && ring.Gens[2] == None;
    var res, changed, halted, stale := ring.NextGeneration();
    ring.ChangeSizes(3, 3);
  }
}
