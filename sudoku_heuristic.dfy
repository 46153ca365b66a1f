/** The heuristic solver of the board package as functions: the
    possibilities of every empty cell, the rounds of naked singles that
    getNonUniques fills in, and the branching of SolveByHeuristic, as written
    and as evidently intended. */
module SudokuHeuristic {
  import opened Options
  import opened SudokuRules

  /** An empty cell's index and the digits isValid allows there. */
  datatype Possibility = Possibility(index: byte, entries: seq<byte>)

  /** The digits from 1 up to, not including, upTo that isValid allows at
      (x, y), in ascending order. */
  function CandidatesBelow(s: seq<byte>, x: int, y: int, upTo: int): seq<byte>
    requires |s| == 81 && 0 <= x < 9 && 0 <= y < 9 && 1 <= upTo <= 10
    decreases upTo
  {
    if upTo == 1 then []
    else
      var c := CandidatesBelow(s, x, y, upTo - 1);
      if Placeable(s, (upTo - 1) as byte, x, y) then c + [(upTo - 1) as byte] else c
  }

  /** The candidates below upTo are exactly the placeable digits below it,
      each listed once, in ascending order. */
  lemma {:induction false} CandidatesBelowSpec(s: seq<byte>, x: int, y: int, upTo: int)
    requires |s| == 81 && 0 <= x < 9 && 0 <= y < 9 && 1 <= upTo <= 10
    ensures forall v :: v in CandidatesBelow(s, x, y, upTo) <==> 1 <= v < upTo as byte && Placeable(s, v, x, y)
    ensures forall i, j :: 0 <= i < j < |CandidatesBelow(s, x, y, upTo)| ==>
      CandidatesBelow(s, x, y, upTo)[i] < CandidatesBelow(s, x, y, upTo)[j]
    decreases upTo
  {
    if upTo > 1 {
      CandidatesBelowSpec(s, x, y, upTo - 1);
      var c := CandidatesBelow(s, x, y, upTo - 1);
      assert forall i :: 0 <= i < |c| ==> c[i] in c;
    }
  }

  /** The entries createPossibilities lists for (x, y). */
  function Candidates(s: seq<byte>, x: int, y: int): seq<byte>
    requires |s| == 81 && 0 <= x < 9 && 0 <= y < 9
  {
    CandidatesBelow(s, x, y, 10)
  }

  /** The possibilities createPossibilities lists for the cells below index
      n: one per empty cell, in index order, with xY's coordinates
      (index % 9, index / 9). */
  function PossibilitiesBelow(s: seq<byte>, n: int): seq<Possibility>
    requires |s| == 81 && 0 <= n <= 81
    decreases n
  {
    if n == 0 then []
    else
      var ps := PossibilitiesBelow(s, n - 1);
      if s[n - 1] == 0 then ps + [Possibility((n - 1) as byte, Candidates(s, (n - 1) % 9, (n - 1) / 9))]
      else ps
  }

  /** The possibilities below n name empty cells below n, in ascending
      order. */
  lemma {:induction false} PossibilitiesBelowSpec(s: seq<byte>, n: int)
    requires |s| == 81 && 0 <= n <= 81
    ensures forall i :: 0 <= i < |PossibilitiesBelow(s, n)| ==>
      PossibilitiesBelow(s, n)[i].index < n as byte && s[PossibilitiesBelow(s, n)[i].index] == 0
    ensures Ascending(PossibilitiesBelow(s, n))
    decreases n
  {
    if n > 0 {
      PossibilitiesBelowSpec(s, n - 1);
      var ps := PossibilitiesBelow(s, n - 1);
      if s[n - 1] == 0 {
        var qs := PossibilitiesBelow(s, n);
        assert qs[..|ps|] == ps;
      }
    }
  }

  /** Each possibility lists the candidates of its cell, at xY's
      coordinates (index % 9, index / 9). */
  lemma {:induction false} PossibilitiesBelowEntries(s: seq<byte>, n: int, i: int)
    requires |s| == 81 && 0 <= n <= 81 && 0 <= i < |PossibilitiesBelow(s, n)|
    ensures var p := PossibilitiesBelow(s, n)[i];
      p.index as int < n && p.entries == Candidates(s, p.index as int % 9, p.index as int / 9)
    decreases n
  {
    var ps, qs := PossibilitiesBelow(s, n - 1), PossibilitiesBelow(s, n);
    assert |ps| <= |qs| && forall i :: 0 <= i < |ps| ==> qs[i] == ps[i];
    if i < |ps| {
      PossibilitiesBelowEntries(s, n - 1, i);
    }
  }

  /** Every empty cell below index n has its possibility. */
  lemma {:induction false} PossibilitiesBelowComplete(s: seq<byte>, n: int, k: int)
    requires |s| == 81 && 0 <= k < n <= 81 && s[k] == 0
    ensures exists i :: 0 <= i < |PossibilitiesBelow(s, n)| && PossibilitiesBelow(s, n)[i].index == k as byte
    decreases n
  {
    var ps, qs := PossibilitiesBelow(s, n - 1), PossibilitiesBelow(s, n);
    assert |ps| <= |qs| && forall i :: 0 <= i < |ps| ==> qs[i] == ps[i];
    if k < n - 1 {
      PossibilitiesBelowComplete(s, n - 1, k);
      var i :| 0 <= i < |ps| && ps[i].index == k as byte;
      assert qs[i].index == k as byte;
    } else {
      assert qs[|ps|].index == k as byte;
    }
  }

  /** createPossibilities. */
  function Possibilities(s: seq<byte>): seq<Possibility>
    requires |s| == 81
  {
    PossibilitiesBelow(s, 81)
  }

  /** Every possibility names an empty cell, with digits 1 to 9 only. */
  lemma PossibilitiesPending(s: seq<byte>)
    requires |s| == 81
    ensures Pending(s, Possibilities(s))
  {
    var ps := Possibilities(s);
    PossibilitiesBelowSpec(s, 81);
    forall i, v | 0 <= i < |ps| && v in ps[i].entries ensures 1 <= v <= 9 {
      var p := ps[i];
      PossibilitiesBelowEntries(s, 81, i);
      CandidatesBelowSpec(s, p.index as int % 9, p.index as int / 9, 10);
      assert v in CandidatesBelow(s, p.index as int % 9, p.index as int / 9, 10);
    }
  }

  /** No possibilities are left exactly when the board is filled. */
  lemma {:induction false} NoPossibilitiesIffFilled(s: seq<byte>)
    requires |s| == 81
    ensures |Possibilities(s)| == 0 <==> Filled(s)
  {
    var ps := Possibilities(s);
    if |ps| > 0 {
      PossibilitiesBelowSpec(s, 81);
      assert s[ps[0].index] == 0;
    } else {
      forall k | 0 <= k < 81 ensures s[k] != 0 {
        if s[k] == 0 {
          PossibilitiesBelowComplete(s, 81, k);
        }
      }
    }
  }

  /** ps lists distinct empty cells of s in index order, each with digits
      1 to 9 only. */
  predicate Pending(s: seq<byte>, ps: seq<Possibility>) {
    (forall i :: 0 <= i < |ps| ==> ps[i].index as int < |s| && s[ps[i].index] == 0) &&
    Ascending(ps) &&
    (forall i, v :: 0 <= i < |ps| && v in ps[i].entries ==> 1 <= v <= 9)
  }

  /** Each possibility names a later cell than the one before it. */
  predicate Ascending(ps: seq<Possibility>) {
    |ps| <= 1 || (ps[|ps| - 2].index < ps[|ps| - 1].index && Ascending(ps[..|ps| - 1]))
  }

  /** In an ascending list the last possibility names a later cell than
      every other. */
  lemma {:induction false} AscendingLast(ps: seq<Possibility>, i: int)
    requires Ascending(ps) && 0 <= i < |ps| - 1
    ensures ps[i].index < ps[|ps| - 1].index
    decreases |ps| - i
  {
    if i < |ps| - 2 {
      var front := ps[..|ps| - 1];
      AscendingLast(front, i);
      assert front[i] == ps[i] && front[|front| - 1] == ps[|ps| - 2];
    }
  }

  /** Some possibility has exactly one entry. */
  predicate HasUnique(ps: seq<Possibility>) {
    exists i :: 0 <= i < |ps| && |ps[i].entries| == 1
  }

  /** One pass of getNonUniques' inner loop: every possibility with a single
      entry writes it into its cell, in list order. */
  function Round(s: seq<byte>, ps: seq<Possibility>): (t: seq<byte>)
    requires forall i :: 0 <= i < |ps| ==> ps[i].index as int < |s|
    ensures |t| == |s|
  {
    if |ps| == 0 then s
    else
      var t := Round(s, ps[..|ps| - 1]);
      var p := ps[|ps| - 1];
      if |p.entries| == 1 then t[p.index := p.entries[0]] else t
  }

  /** A round leaves every cell that no possibility names alone. */
  lemma {:induction false} RoundOutside(s: seq<byte>, ps: seq<Possibility>, k: int)
    requires forall i :: 0 <= i < |ps| ==> ps[i].index as int < |s|
    requires 0 <= k < |s| && forall i :: 0 <= i < |ps| ==> ps[i].index as int != k
    ensures Round(s, ps)[k] == s[k]
  {
    if |ps| > 0 {
      RoundOutside(s, ps[..|ps| - 1], k);
    }
  }

  /** A round keeps the given cells and fills at least one empty cell when
      some possibility is unique, and never empties one. */
  lemma {:induction false} RoundProgress(s: seq<byte>, ps: seq<Possibility>)
    requires Pending(s, ps)
    ensures Extends(Round(s, ps), s)
    ensures Zeros(Round(s, ps)) <= Zeros(s)
    ensures HasUnique(ps) ==> Zeros(Round(s, ps)) < Zeros(s)
  {
    if |ps| > 0 {
      var front, p := ps[..|ps| - 1], ps[|ps| - 1];
      assert Pending(s, front);
      RoundProgress(s, front);
      var t := Round(s, front);
      if |p.entries| == 1 {
        forall i | 0 <= i < |front| ensures front[i].index as int != p.index as int {
          AscendingLast(ps, i);
        }
        RoundOutside(s, front, p.index as int);
        assert p.entries[0] in p.entries;
        ZerosUpdate(t, p.index as int, p.entries[0]);
      }
      if HasUnique(ps) && |p.entries| != 1 {
        var i :| 0 <= i < |ps| && |ps[i].entries| == 1;
        assert HasUnique(front) by {
          assert i < |front| && front[i] == ps[i];
        }
      }
    }
  }

  /** A round without a single-entry possibility writes nothing. */
  lemma {:induction false} RoundWithoutUnique(s: seq<byte>, ps: seq<Possibility>)
    requires forall i :: 0 <= i < |ps| ==> ps[i].index as int < |s|
    requires !HasUnique(ps)
    ensures Round(s, ps) == s
  {
    if |ps| > 0 {
      var front := ps[..|ps| - 1];
      forall i | 0 <= i < |front| ensures |front[i].entries| != 1 {
        assert front[i] == ps[i];
      }
      RoundWithoutUnique(s, front);
      assert |ps[|ps| - 1].entries| != 1;
    }
  }

  /** getNonUniques: rounds until none has a unique possibility. The
      result keeps the givens, has no more empty cells, and its list names
      empty cells only; the list is empty exactly when the board is filled. */
  function NonUniques(s: seq<byte>): (seq<byte>, seq<Possibility>)
    requires |s| == 81
    decreases Zeros(s)
  {
    var ps := Possibilities(s);
    PossibilitiesPending(s);
    if !HasUnique(ps) then
      NoPossibilitiesIffFilled(s);
      (s, ps)
    else
      RoundProgress(s, ps);
      NonUniques(Round(s, ps))
  }

  /** getNonUniques keeps the givens and empties no cell; its list names
      empty cells only, and is empty exactly when the board is filled. */
  lemma {:induction false} NonUniquesSpec(s: seq<byte>)
    requires |s| == 81
    ensures |NonUniques(s).0| == 81 && Extends(NonUniques(s).0, s) && Zeros(NonUniques(s).0) <= Zeros(s)
    ensures Pending(NonUniques(s).0, NonUniques(s).1)
    ensures |NonUniques(s).1| == 0 <==> Filled(NonUniques(s).0)
    decreases Zeros(s)
  {
    var ps := Possibilities(s);
    PossibilitiesPending(s);
    if HasUnique(ps) {
      RoundProgress(s, ps);
      NonUniquesSpec(Round(s, ps));
    } else {
      NoPossibilitiesIffFilled(s);
    }
  }

  /** The list getNonUniques returns is that of its board, and none of its
      possibilities has exactly one entry. */
  lemma {:induction false} NonUniquesSettled(s: seq<byte>)
    requires |s| == 81
    ensures |NonUniques(s).0| == 81 && NonUniques(s).1 == Possibilities(NonUniques(s).0)
    ensures !HasUnique(NonUniques(s).1)
    decreases Zeros(s)
  {
    NonUniquesSpec(s);
    var ps := Possibilities(s);
    if HasUnique(ps) {
      PossibilitiesPending(s);
      RoundProgress(s, ps);
      NonUniquesSettled(Round(s, ps));
    }
  }

  /** What SolveByHeuristic ends in: a result and a solutions pointer, or the
      runtime panic of dereferencing a nil solutions pointer. */
  datatype Outcome = Returned(ok: bool, solutions: Option<seq<seq<byte>>>) | NilDereference

  /** The copies the loop over possibility p tries: p's cell set to each of
      its entries in turn. */
  function Fills(t: seq<byte>, p: Possibility): seq<seq<byte>>
    requires p.index as int < |t|
  {
    seq(|p.entries|, j requires 0 <= j < |p.entries| => t[p.index := p.entries[j]])
  }

  /** Each copy tried for an empty cell has one empty cell fewer and keeps
      every given. */
  lemma FillsSpec(t: seq<byte>, p: Possibility)
    requires p.index as int < |t| && t[p.index] == 0 && forall v :: v in p.entries ==> 1 <= v <= 9
    ensures |Fills(t, p)| == |p.entries|
    ensures forall j :: 0 <= j < |p.entries| ==> Fills(t, p)[j] == t[p.index := p.entries[j]]
    ensures forall j :: 0 <= j < |p.entries| ==>
      |Fills(t, p)[j]| == |t| && Zeros(Fills(t, p)[j]) < Zeros(t) && Extends(Fills(t, p)[j], t)
  {
    forall j | 0 <= j < |p.entries| ensures Zeros(t[p.index := p.entries[j]]) < Zeros(t) {
      assert p.entries[j] in p.entries;
      ZerosUpdate(t, p.index as int, p.entries[j]);
    }
  }

  /** Every copy SolveByHeuristic's two loops try, in the order they try
      them: possibility by possibility, entry by entry. Each has one empty
      cell fewer and keeps every given. */
  function Tries(t: seq<byte>, ps: seq<Possibility>): seq<seq<byte>>
    requires forall i :: 0 <= i < |ps| ==> ps[i].index as int < |t|
  {
    if |ps| == 0 then []
    else Tries(t, ps[..|ps| - 1]) + Fills(t, ps[|ps| - 1])
  }

  /** Every copy tried has one empty cell fewer and keeps every given. */
  lemma {:induction false} TriesSpec(t: seq<byte>, ps: seq<Possibility>)
    requires Pending(t, ps)
    ensures forall k :: 0 <= k < |Tries(t, ps)| ==>
      |Tries(t, ps)[k]| == |t| && Zeros(Tries(t, ps)[k]) < Zeros(t) && Extends(Tries(t, ps)[k], t)
  {
    if |ps| > 0 {
      var front, p := ps[..|ps| - 1], ps[|ps| - 1];
      assert Pending(t, front);
      TriesSpec(t, front);
      FillsSpec(t, p);
      var r, f := Tries(t, front), Fills(t, p);
      assert forall k :: |r| <= k < |r| + |f| ==> Tries(t, ps)[k] == f[k - |r|];
    }
  }

  /** The number of copies tried for the first a possibilities. */
  function Offset(ps: seq<Possibility>, a: int): nat
    requires 0 <= a <= |ps|
  {
    if a == 0 then 0 else Offset(ps, a - 1) + |ps[a - 1].entries|
  }

  /** The copies tried for the first a possibilities come first among all
      the copies tried. */
  lemma {:induction false} TriesPrefix(t: seq<byte>, ps: seq<Possibility>, a: int)
    requires forall i :: 0 <= i < |ps| ==> ps[i].index as int < |t|
    requires 0 <= a <= |ps|
    ensures Tries(t, ps[..a]) <= Tries(t, ps)
    decreases |ps|
  {
    if a < |ps| {
      var front := ps[..|ps| - 1];
      assert front[..a] == ps[..a];
      TriesPrefix(t, front, a);
    } else {
      assert ps[..a] == ps;
    }
  }

  /** The first a possibilities contribute Offset(ps, a) copies. */
  lemma {:induction false} TriesLength(t: seq<byte>, ps: seq<Possibility>, a: int)
    requires forall i :: 0 <= i < |ps| ==> ps[i].index as int < |t|
    requires 0 <= a <= |ps|
    ensures |Tries(t, ps[..a])| == Offset(ps, a)
    decreases a
  {
    if a > 0 {
      TriesLength(t, ps, a - 1);
      assert ps[..a][..a - 1] == ps[..a - 1];
    }
  }

  /** The copies of the first a possibilities are among all copies, and
      they are all of them once a reaches the end of the list. */
  lemma TriesOffset(t: seq<byte>, ps: seq<Possibility>, a: int)
    requires forall i :: 0 <= i < |ps| ==> ps[i].index as int < |t|
    requires 0 <= a <= |ps|
    ensures Offset(ps, a) <= |Tries(t, ps)|
    ensures a == |ps| ==> Offset(ps, a) == |Tries(t, ps)|
  {
    TriesPrefix(t, ps, a);
    TriesLength(t, ps, a);
    assert ps[..|ps|] == ps;
  }

  /** Copy (a, b), entry b of possibility a, is the copy at position
      Offset(ps, a) + b. */
  lemma TriesAt(t: seq<byte>, ps: seq<Possibility>, a: int, b: int)
    requires forall i :: 0 <= i < |ps| ==> ps[i].index as int < |t|
    requires 0 <= a < |ps| && 0 <= b < |ps[a].entries|
    ensures Offset(ps, a) + b < |Tries(t, ps)|
    ensures Tries(t, ps)[Offset(ps, a) + b] == t[ps[a].index := ps[a].entries[b]]
  {
    TriesPrefix(t, ps, a + 1);
    TriesLength(t, ps, a);
    assert ps[..a + 1][..a] == ps[..a];
    assert Tries(t, ps[..a + 1]) == Tries(t, ps[..a]) + Fills(t, ps[a]);
  }

  /** The two loops' bookkeeping over the outcomes of the copies, in order,
      with the solutions collected so far: a panic ends everything, a
      success appends the solutions its pointer holds, and a success with a
      nil pointer is the panic of dereferencing it. */
  function Loops(outs: seq<Outcome>, acc: seq<seq<byte>>): Outcome
    decreases |outs|
  {
    if |outs| == 0 then
      if |acc| > 0 then Returned(true, Some(acc)) else Returned(false, None)
    else
      match outs[0]
      case NilDereference => NilDereference
      case Returned(ok, found) =>
        if !ok then Loops(outs[1..], acc)
        else if found.None? then NilDereference
        else Loops(outs[1..], acc + found.value)
  }

  /** SolveByHeuristic as written: with no possibilities left it returns
      isFilled and a nil pointer; otherwise it solves every copy and runs
      the loops over the outcomes. */
  function HeuristicAsWritten(s: seq<byte>): Outcome
    requires |s| == 81
    decreases Zeros(s), 1, 0
  {
    NonUniquesSpec(s);
    var (t, ps) := NonUniques(s);
    if |ps| == 0 then Returned(Filled(t), None)
    else
      TriesSpec(t, ps);
      Loops(AsWrittenFrom(t, Tries(t, ps), 0), [])
  }

  /** The outcomes of SolveByHeuristic as written on the copies tries[k..]. */
  function AsWrittenFrom(t: seq<byte>, tries: seq<seq<byte>>, k: nat): (r: seq<Outcome>)
    requires forall j :: 0 <= j < |tries| ==> |tries[j]| == 81 && Zeros(tries[j]) < Zeros(t)
    requires k <= |tries|
    ensures |r| == |tries| - k
    decreases Zeros(t), 0, |tries| - k
  {
    if k == |tries| then [] else [HeuristicAsWritten(tries[k])] + AsWrittenFrom(t, tries, k + 1)
  }

  /** One step of the loops as written: a copy that panics or succeeds
      ends them in a panic, a copy that fails moves on to the next one. */
  lemma AsWrittenStep(t: seq<byte>, tries: seq<seq<byte>>, k: nat)
    requires forall j :: 0 <= j < |tries| ==> |tries[j]| == 81 && Zeros(tries[j]) < Zeros(t)
    requires k < |tries|
    ensures Loops(AsWrittenFrom(t, tries, k), []) ==
      if HeuristicAsWritten(tries[k]).NilDereference? || HeuristicAsWritten(tries[k]).ok then NilDereference
      else Loops(AsWrittenFrom(t, tries, k + 1), [])
  {
    AsWrittenNeverCollects(tries[k]);
    assert AsWrittenFrom(t, tries, k)[1..] == AsWrittenFrom(t, tries, k + 1);
  }

  /** No outcome in outs holds a solutions pointer. */
  predicate NoPointers(outs: seq<Outcome>) {
    forall k :: 0 <= k < |outs| ==> outs[k].Returned? ==> outs[k].solutions.None?
  }

  /** When no copy returns a solutions pointer, the loops either panic or
      fail with a nil pointer: they panic exactly when some copy panics or
      succeeds. */
  lemma {:induction false} LoopsWithoutPointers(outs: seq<Outcome>)
    requires NoPointers(outs)
    ensures Loops(outs, []) ==
      if exists k :: 0 <= k < |outs| && (outs[k].NilDereference? || outs[k].ok) then NilDereference
      else Returned(false, None)
    decreases |outs|
  {
    if |outs| > 0 {
      var rest := outs[1..];
      LoopsWithoutPointers(rest);
      if exists k :: 0 <= k < |rest| && (rest[k].NilDereference? || rest[k].ok) {
        var k :| 0 <= k < |rest| && (rest[k].NilDereference? || rest[k].ok);
        assert outs[k + 1] == rest[k];
      }
      if exists k :: 0 <= k < |outs| && (outs[k].NilDereference? || outs[k].ok) {
        var k :| 0 <= k < |outs| && (outs[k].NilDereference? || outs[k].ok);
        if k > 0 {
          assert rest[k - 1] == outs[k];
        }
      }
    }
  }

  /** As written, SolveByHeuristic never hands back a solutions pointer; it
      returns true only when getNonUniques alone fills the board. */
  lemma {:induction false} AsWrittenNeverCollects(s: seq<byte>)
    requires |s| == 81
    ensures var o := HeuristicAsWritten(s);
      (o.Returned? ==> o.solutions.None?) &&
      (o.Returned? && o.ok <==> |NonUniques(s).1| == 0)
    decreases Zeros(s), 1, 0
  {
    NonUniquesSpec(s);
    var (t, ps) := NonUniques(s);
    if |ps| > 0 {
      TriesSpec(t, ps);
      var tries := Tries(t, ps);
      AsWrittenFromNeverCollect(t, tries, 0);
      LoopsWithoutPointers(AsWrittenFrom(t, tries, 0));
    }
  }

  lemma {:induction false} AsWrittenFromNeverCollect(t: seq<byte>, tries: seq<seq<byte>>, k: nat)
    requires forall j :: 0 <= j < |tries| ==> |tries[j]| == 81 && Zeros(tries[j]) < Zeros(t)
    requires k <= |tries|
    ensures NoPointers(AsWrittenFrom(t, tries, k))
    decreases Zeros(t), 0, |tries| - k
  {
    if k < |tries| {
      AsWrittenNeverCollects(tries[k]);
      AsWrittenFromNeverCollect(t, tries, k + 1);
      var r, rest := AsWrittenFrom(t, tries, k), AsWrittenFrom(t, tries, k + 1);
      assert forall j :: 0 < j < |r| ==> r[j] == rest[j - 1];
    }
  }

  /** Every board in sols is filled and keeps the givens of s. */
  predicate AllSolve(sols: seq<seq<byte>>, s: seq<byte>) {
    forall k :: 0 <= k < |sols| ==> Filled(sols[k]) && Extends(sols[k], s)
  }

  /** The outcome of the corrected solver on a board: it returns, succeeds
      exactly when it returns a non-empty list, and every solution in the
      list is filled and keeps the givens of s. */
  predicate Sound(o: Outcome, s: seq<byte>) {
    o.Returned? && (o.ok <==> o.solutions.Some? && |o.solutions.value| > 0) &&
    (o.solutions.Some? ==> AllSolve(o.solutions.value, s))
  }

  /** Over sound outcomes the loops never panic and stay sound; they
      succeed exactly when solutions were collected before or some copy
      succeeds. */
  lemma {:induction false} LoopsSound(outs: seq<Outcome>, acc: seq<seq<byte>>, s: seq<byte>)
    requires forall k :: 0 <= k < |outs| ==> Sound(outs[k], s)
    requires AllSolve(acc, s)
    ensures Sound(Loops(outs, acc), s)
    ensures Loops(outs, acc).ok <==> |acc| > 0 || exists k :: 0 <= k < |outs| && outs[k].Returned? && outs[k].ok
    decreases |outs|
  {
    if |outs| > 0 {
      var rest := outs[1..];
      assert forall k :: 0 <= k < |rest| ==> rest[k] == outs[k + 1];
      var o := outs[0];
      var acc' := if o.ok then acc + o.solutions.value else acc;
      assert AllSolve(acc', s);
      LoopsSound(rest, acc', s);
      if exists k :: 0 <= k < |outs| && outs[k].Returned? && outs[k].ok {
        var k :| 0 <= k < |outs| && outs[k].Returned? && outs[k].ok;
        if k > 0 {
          assert rest[k - 1].ok;
        }
      }
    }
  }

  /** Each outcome in ws is a panic or a success exactly when the outcome at
      the same place in cs is a success. */
  predicate Matching(ws: seq<Outcome>, cs: seq<Outcome>) {
    |ws| == |cs| &&
    forall k :: 0 <= k < |ws| ==> (ws[k].NilDereference? || ws[k].ok <==> cs[k].Returned? && cs[k].ok)
  }

  /** The loops over outcomes of the code as written against those over
      the intended outcomes of the same copies: when each copy as written
      panics or succeeds exactly when it intendedly succeeds, the loops as
      written panic exactly when the intended loops succeed. */
  lemma LoopsAgree(ws: seq<Outcome>, cs: seq<Outcome>, s: seq<byte>)
    requires NoPointers(ws) && Matching(ws, cs)
    requires forall k :: 0 <= k < |cs| ==> Sound(cs[k], s)
    ensures var c := Loops(cs, []); Loops(ws, []) == if c.Returned? && c.ok then NilDereference else Returned(false, None)
  {
    LoopsWithoutPointers(ws);
    LoopsSound(cs, [], s);
    if exists k :: 0 <= k < |cs| && cs[k].Returned? && cs[k].ok {
      var k :| 0 <= k < |cs| && cs[k].Returned? && cs[k].ok;
      assert ws[k].NilDereference? || ws[k].ok;
    }
  }

  /** SolveByHeuristic as evidently intended: a filled board is returned as
      the one solution of its branch. Its outcome is always sound. */
  function HeuristicCorrected(s: seq<byte>): (o: Outcome)
    requires |s| == 81
    ensures Sound(o, s)
    decreases Zeros(s), 1, 0
  {
    NonUniquesSpec(s);
    var (t, ps) := NonUniques(s);
    if |ps| == 0 then
      if Filled(t) then Returned(true, Some([t])) else Returned(false, None)
    else
      TriesSpec(t, ps);
      var tries := Tries(t, ps);
      var outs := CorrectedFrom(t, tries, 0);
      LoopsSound(outs, [], t);
      Loops(outs, [])
  }

  /** The outcomes of the corrected SolveByHeuristic on the copies
      tries[k..]; each is sound for t, whose givens every copy keeps. */
  function CorrectedFrom(t: seq<byte>, tries: seq<seq<byte>>, k: nat): (r: seq<Outcome>)
    requires forall j :: 0 <= j < |tries| ==> |tries[j]| == 81 && Zeros(tries[j]) < Zeros(t) && Extends(tries[j], t)
    requires k <= |tries|
    ensures |r| == |tries| - k && forall j :: 0 <= j < |r| ==> Sound(r[j], t)
    decreases Zeros(t), 0, |tries| - k
  {
    if k == |tries| then []
    else
      var o, rest := HeuristicCorrected(tries[k]), CorrectedFrom(t, tries, k + 1);
      assert Sound(o, t);
      assert forall j :: 0 < j <= |rest| ==> ([o] + rest)[j] == rest[j - 1];
      [o] + rest
  }

  /** The finding, for every board: when getNonUniques leaves possibilities,
      the code as written panics exactly when the intended solver finds a
      solution, and otherwise returns false with a nil pointer; when it
      leaves none, both succeed, the code as written without solutions. */
  lemma {:induction false} AsWrittenVersusCorrected(s: seq<byte>)
    requires |s| == 81
    ensures |NonUniques(s).1| == 0 ==>
      HeuristicAsWritten(s) == Returned(true, None) &&
      HeuristicCorrected(s) == Returned(true, Some([NonUniques(s).0]))
    ensures |NonUniques(s).1| > 0 ==>
      HeuristicAsWritten(s) == if HeuristicCorrected(s).ok then NilDereference else Returned(false, None)
    decreases Zeros(s), 1, 0
  {
    NonUniquesSpec(s);
    var (t, ps) := NonUniques(s);
    if |ps| > 0 {
      TriesSpec(t, ps);
      var tries := Tries(t, ps);
      AsWrittenFromNeverCollect(t, tries, 0);
      FromAgree(t, tries, 0);
      LoopsAgree(AsWrittenFrom(t, tries, 0), CorrectedFrom(t, tries, 0), t);
    }
  }

  lemma {:induction false} FromAgree(t: seq<byte>, tries: seq<seq<byte>>, k: nat)
    requires forall j :: 0 <= j < |tries| ==> |tries[j]| == 81 && Zeros(tries[j]) < Zeros(t) && Extends(tries[j], t)
    requires k <= |tries|
    ensures Matching(AsWrittenFrom(t, tries, k), CorrectedFrom(t, tries, k))
    decreases Zeros(t), 0, |tries| - k
  {
    if k < |tries| {
      AsWrittenVersusCorrected(tries[k]);
      FromAgree(t, tries, k + 1);
      var ws, cs := AsWrittenFrom(t, tries, k), CorrectedFrom(t, tries, k);
      var ws', cs' := AsWrittenFrom(t, tries, k + 1), CorrectedFrom(t, tries, k + 1);
      assert forall j :: 0 < j < |ws| ==> ws[j] == ws'[j - 1] && cs[j] == cs'[j - 1];
    }
  }
}
