/** The Ruby-style enumerables of the go-ruby packages: an enumerable holds
    a generator, every operation creates an enumerator from it and loops
    while hasNext, taking next. Elements are Go ints. A loop of the source
    that does not end (the slice enumerator never advances) is observed
    through a fuel bound: a run still going after fuel iterations reports
    OutOfFuel. */
module RubyEnumerable {

  /** What an enumerable operation ends in: a value, the panic of an invalid
      variadic call, or a loop still running when the fuel is spent. */
  datatype Outcome<T> = Done(value: T) | Panic | OutOfFuel

  /** rangeEnumeratorGenerator{start, end, step} and
      sliceEnumeratorGenerator{data}; SliceIntended is the slice enumerator
      corrected to advance. */
  datatype Generator = Range(start: int, end: int, step: int) | Slice(data: seq<int>) | SliceIntended(data: seq<int>)

  /** create: a range enumerator starts at start, a slice enumerator at 0. */
  function Start(g: Generator): int {
    if g.Range? then g.start else 0
  }

  /** hasNext at position pos: pos < end, or pos < len(data). */
  predicate HasNextAt(g: Generator, pos: int) {
    if g.Range? then pos < g.end else pos < |g.data|
  }

  /** The value next returns at position pos: pos itself, or data[pos]. */
  function ValueAt(g: Generator, pos: int): int
    requires !g.Range? ==> 0 <= pos < |g.data|
  {
    if g.Range? then pos else g.data[pos]
  }

  /** The position after next: pos + step for a range; a slice enumerator
      stays where it is (the corrected one moves on by one). */
  function Advance(g: Generator, pos: int): int {
    match g
    case Range(_, _, step) => pos + step
    case Slice(_) => pos
    case SliceIntended(_) => pos + 1
  }

  /** The positions an enumerator can be at: a slice enumerator is always
      at 0, the corrected one at no negative index. */
  predicate Reachable(g: Generator, pos: int) {
    (g.Slice? ==> pos == 0) && (g.SliceIntended? ==> 0 <= pos)
  }

  /** The elements a loop `for hasNext() { next() }` takes from position pos
      within fuel iterations, and whether hasNext turned false. */
  function Run(g: Generator, pos: int, fuel: nat): (r: (seq<int>, bool))
    requires Reachable(g, pos)
    ensures |r.0| <= fuel && (!r.1 ==> |r.0| == fuel)
    decreases fuel
  {
    if !HasNextAt(g, pos) then ([], true)
    else if fuel == 0 then ([], false)
    else
      var rest := Run(g, Advance(g, pos), fuel - 1);
      ([ValueAt(g, pos)] + rest.0, rest.1)
  }

  /** The run of a new enumerator: the elements a loop over g takes within
      fuel iterations from create's start, and whether it ended. */
  function Enumerated(g: Generator, fuel: nat): (seq<int>, bool) {
    Run(g, Start(g), fuel)
  }

  /** rangeEnumerator and sliceEnumerator: the generator's fields and a
      position that next updates. */
  class Enumerator {
    const source: Generator
    var pos: int

    ghost predicate Valid()
      reads this
    {
      Reachable(source, pos)
    }

    /** create. */
    constructor (g: Generator)
      ensures source == g && pos == Start(g) && Valid()
    {
      source := g;
      pos := Start(g);
    }

    /** hasNext: true exactly when one more iteration of the loop takes an
        element; once it is false the loop ends whatever the fuel. */
    function HasNext(): (r: bool)
      reads this
      ensures Valid() ==> (r <==> Run(source, pos, 1).0 != [])
      ensures Valid() && !r ==> forall fuel: nat :: Run(source, pos, fuel) == ([], true)
    {
      HasNextAt(source, pos)
    }

    /** next: returns the current value and advances a range by step; a
        slice enumerator returns data[pos] and does not move. */
    method Next() returns (x: int)
      requires Valid() && (!source.Range? ==> HasNext())
      modifies this
      ensures Valid() && x == ValueAt(source, old(pos)) && pos == Advance(source, old(pos))
    {
      x := ValueAt(source, pos);
      pos := Advance(source, pos);
    }
  }

  /** Some element of xs is related to t by le in both directions. */
  predicate IncludesIn(xs: seq<int>, t: int, le: (int, int) -> bool) {
    exists i :: 0 <= i < |xs| && le(t, xs[i]) && le(xs[i], t)
  }

  /** Some element of xs fails f. */
  predicate SomeFails(xs: seq<int>, f: int -> bool) {
    exists i :: 0 <= i < |xs| && !f(xs[i])
  }

  /** Some element of xs satisfies f. */
  predicate SomeHolds(xs: seq<int>, f: int -> bool) {
    exists i :: 0 <= i < |xs| && f(xs[i])
  }

  /** The number of elements of xs that satisfy f. */
  function CountIn(xs: seq<int>, f: int -> bool): nat {
    if |xs| == 0 then 0 else CountIn(xs[..|xs| - 1], f) + (if f(xs[|xs| - 1]) then 1 else 0)
  }

  /** enumerableImpl: an enumerable over one generator. */
  datatype Enumerable = Enumerable(generator: Generator) {

    /** Each: the elements passed to f, in order, and whether the loop
        ended. */
    method Each(fuel: nat) returns (visited: seq<int>, finished: bool)
      ensures (visited, finished) == Enumerated(generator, fuel)
    {
      var e := new Enumerator(generator);
      Begin(generator, fuel);
      visited := [];
      var i := 0;
      while i < fuel && e.HasNext()
        invariant 0 <= i <= fuel && e.source == generator && e.Valid()
        invariant Remains(generator, fuel, visited, e.pos, fuel - i)
        decreases fuel - i
      {
        Step(generator, fuel, visited, e.pos, fuel - i);
        var x := e.Next();
        visited := visited + [x];
        i := i + 1;
      }
      Exhausted(generator, fuel, visited, e.pos, fuel - i);
      finished := !e.HasNext();
    }

    /** EachWithIndex: the index and element passed to f, in order; the
        index counts from 0. */
    method EachWithIndex(fuel: nat) returns (pairs: seq<(int, int)>, finished: bool)
      ensures finished == Enumerated(generator, fuel).1
      ensures |pairs| == |Enumerated(generator, fuel).0|
      ensures forall j :: 0 <= j < |pairs| ==> pairs[j] == (j, Enumerated(generator, fuel).0[j])
    {
      var e := new Enumerator(generator);
      Begin(generator, fuel);
      pairs := [];
      ghost var seen := [];
      var i := 0;
      while i < fuel && e.HasNext()
        invariant 0 <= i <= fuel && e.source == generator && e.Valid()
        invariant |pairs| == |seen| == i && forall j :: 0 <= j < i ==> pairs[j] == (j, seen[j])
        invariant Remains(generator, fuel, seen, e.pos, fuel - i)
        decreases fuel - i
      {
        Step(generator, fuel, seen, e.pos, fuel - i);
        var x := e.Next();
        pairs, seen := pairs + [(i, x)], seen + [x];
        i := i + 1;
      }
      finished := !e.HasNext();
    }

    /** Includes: true on the first element related to t by lessOrEqual in
        both directions, false when the elements run out first. */
    method Includes(t: int, le: (int, int) -> bool, fuel: nat) returns (r: Outcome<bool>)
      ensures r == if IncludesIn(Enumerated(generator, fuel).0, t, le) then Done(true)
        else if Enumerated(generator, fuel).1 then Done(false) else OutOfFuel
    {
      var e := new Enumerator(generator);
      Begin(generator, fuel);
      ghost var seen := [];
      var i := 0;
      while i < fuel && e.HasNext()
        invariant 0 <= i <= fuel && e.source == generator && e.Valid()
        invariant !IncludesIn(seen, t, le)
        invariant Remains(generator, fuel, seen, e.pos, fuel - i)
        decreases fuel - i
      {
        Step(generator, fuel, seen, e.pos, fuel - i);
        var el := e.Next();
        if le(t, el) && le(el, t) {
          assert Enumerated(generator, fuel).0[|seen|] == el;
          return Done(true);
        }
        NotIncludedAppend(seen, el, t, le);
        seen := seen + [el];
        i := i + 1;
      }
      Exhausted(generator, fuel, seen, e.pos, fuel - i);
      r := if !e.HasNext() then Done(false) else OutOfFuel;
    }

    /** Entries: Each collecting its elements into a slice. */
    method Entries(fuel: nat) returns (a: seq<int>, finished: bool)
      ensures (a, finished) == Enumerated(generator, fuel)
    {
      a, finished := Each(fuel);
    }

    /** All: with more than one predicate it panics; with none it checks
        that no element is nil, which no int is; with one it is false on the
        first element failing it and true when the elements run out. */
    method All(ps: seq<int -> bool>, fuel: nat) returns (r: Outcome<bool>)
      ensures |ps| > 1 ==> r == Panic
      ensures |ps| == 0 ==> r == if Enumerated(generator, fuel).1 then Done(true) else OutOfFuel
      ensures |ps| == 1 ==> r == if SomeFails(Enumerated(generator, fuel).0, ps[0]) then Done(false)
        else if Enumerated(generator, fuel).1 then Done(true) else OutOfFuel
      decreases if |ps| == 0 then 1 else 0
    {
      if |ps| > 1 {
        return Panic;
      }
      if |ps| == 0 {
        r := All([x => true], fuel);
        NoneFails(Enumerated(generator, fuel).0);
        return;
      }
      r := FirstFailure(ps[0], false, fuel);
    }

    /** Any as written: true on the first element that FAILS f, false when
        the elements run out. */
    method Any(f: int -> bool, fuel: nat) returns (r: Outcome<bool>)
      ensures r == if SomeFails(Enumerated(generator, fuel).0, f) then Done(true)
        else if Enumerated(generator, fuel).1 then Done(false) else OutOfFuel
    {
      r := FirstFailure(f, true, fuel);
    }

    /** None: the negation of Any. */
    method None(f: int -> bool, fuel: nat) returns (r: Outcome<bool>)
      ensures r == if SomeFails(Enumerated(generator, fuel).0, f) then Done(false)
        else if Enumerated(generator, fuel).1 then Done(true) else OutOfFuel
    {
      var any := Any(f, fuel);
      r := if any.Done? then Done(!any.value) else any;
    }

    /** The loop All and Any share: it returns onFailure on the first
        element failing f and its negation when the elements run out. */
    method FirstFailure(f: int -> bool, onFailure: bool, fuel: nat) returns (r: Outcome<bool>)
      ensures r == if SomeFails(Enumerated(generator, fuel).0, f) then Done(onFailure)
        else if Enumerated(generator, fuel).1 then Done(!onFailure) else OutOfFuel
    {
      var e := new Enumerator(generator);
      Begin(generator, fuel);
      ghost var seen := [];
      var i := 0;
      while i < fuel && e.HasNext()
        invariant 0 <= i <= fuel && e.source == generator && e.Valid()
        invariant !SomeFails(seen, f)
        invariant Remains(generator, fuel, seen, e.pos, fuel - i)
        decreases fuel - i
      {
        Step(generator, fuel, seen, e.pos, fuel - i);
        var el := e.Next();
        if !f(el) {
          assert Enumerated(generator, fuel).0[|seen|] == el;
          return Done(onFailure);
        }
        NoFailureAppend(seen, el, f);
        seen := seen + [el];
        i := i + 1;
      }
      Exhausted(generator, fuel, seen, e.pos, fuel - i);
      r := if !e.HasNext() then Done(!onFailure) else OutOfFuel;
    }

    /** Any as evidently intended: true on the first element satisfying
        f. */
    method AnyIntended(f: int -> bool, fuel: nat) returns (r: Outcome<bool>)
      ensures r == if SomeHolds(Enumerated(generator, fuel).0, f) then Done(true)
        else if Enumerated(generator, fuel).1 then Done(false) else OutOfFuel
    {
      r := FirstFailure(x => !f(x), true, fuel);
    }

    /** One: false on the second element satisfying f; when the elements
        run out, whether one did. */
    method One(f: int -> bool, fuel: nat) returns (r: Outcome<bool>)
      ensures r == if CountIn(Enumerated(generator, fuel).0, f) >= 2 then Done(false)
        else if Enumerated(generator, fuel).1 then Done(CountIn(Enumerated(generator, fuel).0, f) == 1)
        else OutOfFuel
    {
      var e := new Enumerator(generator);
      Begin(generator, fuel);
      ghost var seen := [];
      var found := false;
      var i := 0;
      while i < fuel && e.HasNext()
        invariant 0 <= i <= fuel && e.source == generator && e.Valid()
        invariant CountIn(seen, f) == if found then 1 else 0
        invariant Remains(generator, fuel, seen, e.pos, fuel - i)
        decreases fuel - i
      {
        Step(generator, fuel, seen, e.pos, fuel - i);
        var el := e.Next();
        assert (seen + [el])[..|seen|] == seen;
        if f(el) {
          if found {
            ghost var all := Enumerated(generator, fuel).0;
            CountPrefix(all, |seen| + 1, f);
            assert all[..|seen| + 1] == seen + [el];
            return Done(false);
          } else {
            found := true;
          }
        }
        seen := seen + [el];
        i := i + 1;
      }
      Exhausted(generator, fuel, seen, e.pos, fuel - i);
      r := if !e.HasNext() then Done(found) else OutOfFuel;
    }

    /** Count: with more than one predicate it panics; with none it counts
        every element; with one, the elements satisfying it. */
    method Count(ps: seq<int -> bool>, fuel: nat) returns (r: Outcome<int>)
      ensures |ps| > 1 ==> r == Panic
      ensures |ps| == 0 ==> r == if Enumerated(generator, fuel).1 then Done(|Enumerated(generator, fuel).0|) else OutOfFuel
      ensures |ps| == 1 ==> r == if Enumerated(generator, fuel).1 then Done(CountIn(Enumerated(generator, fuel).0, ps[0])) else OutOfFuel
      decreases if |ps| == 0 then 1 else 0
    {
      if |ps| > 1 {
        return Panic;
      }
      if |ps| == 0 {
        r := Count([x => true], fuel);
        CountAll(Enumerated(generator, fuel).0);
        return;
      }
      r := CountSatisfying(ps[0], fuel);
    }

    /** The loop of Count with one predicate. */
    method CountSatisfying(f: int -> bool, fuel: nat) returns (r: Outcome<int>)
      ensures r == if Enumerated(generator, fuel).1 then Done(CountIn(Enumerated(generator, fuel).0, f)) else OutOfFuel
    {
      var res := 0;
      var e := new Enumerator(generator);
      Begin(generator, fuel);
      ghost var seen := [];
      var i := 0;
      while i < fuel && e.HasNext()
        invariant 0 <= i <= fuel && e.source == generator && e.Valid()
        invariant res == CountIn(seen, f)
        invariant Remains(generator, fuel, seen, e.pos, fuel - i)
        decreases fuel - i
      {
        Step(generator, fuel, seen, e.pos, fuel - i);
        var el := e.Next();
        assert (seen + [el])[..|seen|] == seen;
        if f(el) {
          res := res + 1;
        }
        seen := seen + [el];
        i := i + 1;
      }
      Exhausted(generator, fuel, seen, e.pos, fuel - i);
      r := if !e.HasNext() then Done(res) else OutOfFuel;
    }
  }

  /** The loop invariant of every operation: the elements seen so far and
      the run from the current position make up the whole run. */
  ghost predicate Remains(g: Generator, fuel: nat, seen: seq<int>, pos: int, left: nat) {
    Reachable(g, pos) && Reachable(g, Start(g)) &&
    Enumerated(g, fuel) == (seen + Run(g, pos, left).0, Run(g, pos, left).1)
  }

  /** Before the first element the run from the start is the whole run. */
  lemma Begin(g: Generator, fuel: nat)
    ensures Remains(g, fuel, [], Start(g), fuel)
  {
    assert [] + Enumerated(g, fuel).0 == Enumerated(g, fuel).0;
  }

  /** When a loop stops, by hasNext or by the fuel, what it has seen is the
      whole run, and the run ended exactly when hasNext is false. */
  lemma Exhausted(g: Generator, fuel: nat, seen: seq<int>, pos: int, left: nat)
    requires Remains(g, fuel, seen, pos, left) && (left == 0 || !HasNextAt(g, pos))
    ensures Enumerated(g, fuel) == (seen, !HasNextAt(g, pos))
  {
    assert seen + [] == seen;
  }

  /** Taking one more element keeps the invariant. */
  lemma Step(g: Generator, fuel: nat, seen: seq<int>, pos: int, left: nat)
    requires Remains(g, fuel, seen, pos, left) && left > 0 && HasNextAt(g, pos)
    ensures !g.Range? ==> 0 <= pos < |g.data|
    ensures Remains(g, fuel, seen + [ValueAt(g, pos)], Advance(g, pos), left - 1)
  {
    var rest := Run(g, Advance(g, pos), left - 1);
    assert seen + ([ValueAt(g, pos)] + rest.0) == seen + [ValueAt(g, pos)] + rest.0;
  }

  /** An element not related to t keeps the search unsuccessful. */
  lemma NotIncludedAppend(xs: seq<int>, x: int, t: int, le: (int, int) -> bool)
    requires !IncludesIn(xs, t, le) && !(le(t, x) && le(x, t))
    ensures !IncludesIn(xs + [x], t, le)
  {
    var ys := xs + [x];
    forall i | 0 <= i < |ys| ensures !(le(t, ys[i]) && le(ys[i], t)) {
      if i < |xs| {
        assert ys[i] == xs[i];
      }
    }
  }

  /** An element satisfying f keeps the search for a failure
      unsuccessful. */
  lemma NoFailureAppend(xs: seq<int>, x: int, f: int -> bool)
    requires !SomeFails(xs, f) && f(x)
    ensures !SomeFails(xs + [x], f)
  {
    var ys := xs + [x];
    forall i | 0 <= i < |ys| ensures f(ys[i]) {
      if i < |xs| {
        assert ys[i] == xs[i];
      }
    }
  }

  /** No element fails a predicate that always holds. */
  lemma NoneFails(xs: seq<int>)
    ensures !SomeFails(xs, x => true)
  {
  }

  /** Counting with a predicate that always holds counts every element. */
  lemma {:induction false} CountAll(xs: seq<int>)
    ensures CountIn(xs, x => true) == |xs|
  {
    if |xs| > 0 {
      CountAll(xs[..|xs| - 1]);
    }
  }

  /** A prefix has no more elements satisfying f than the whole. */
  lemma {:induction false} CountPrefix(xs: seq<int>, n: int, f: int -> bool)
    requires 0 <= n <= |xs|
    ensures CountIn(xs[..n], f) <= CountIn(xs, f)
    decreases |xs|
  {
    if n < |xs| {
      var front := xs[..|xs| - 1];
      assert front[..n] == xs[..n];
      CountPrefix(front, n, f);
    } else {
      assert xs[..n] == xs;
    }
  }

  /** The elements a range with a positive step enumerates from pos: pos,
      pos + step, ... while below end. */
  function RangeFrom(pos: int, end: int, step: int): seq<int>
    requires step > 0
    decreases end - pos
  {
    if pos >= end then [] else [pos] + RangeFrom(pos + step, end, step)
  }

  /** With a positive step, once fuel covers the range the loop takes
      exactly the range's elements and ends. */
  lemma {:induction false} RunRange(start: int, end: int, step: int, pos: int, fuel: nat)
    requires step > 0 && fuel >= |RangeFrom(pos, end, step)|
    ensures Run(Range(start, end, step), pos, fuel) == (RangeFrom(pos, end, step), true)
    decreases end - pos
  {
    if pos < end {
      RunRange(start, end, step, pos + step, fuel - 1);
    }
  }

  /** With fuel short of the range the loop takes its first fuel elements
      and has not ended. */
  lemma {:induction false} RunRangeShort(start: int, end: int, step: int, pos: int, fuel: nat)
    requires step > 0 && fuel < |RangeFrom(pos, end, step)|
    ensures Run(Range(start, end, step), pos, fuel) == (RangeFrom(pos, end, step)[..fuel], false)
    decreases fuel
  {
    if fuel > 0 {
      var rest := RangeFrom(pos + step, end, step);
      RunRangeShort(start, end, step, pos + step, fuel - 1);
      assert ([pos] + rest)[..fuel] == [pos] + rest[..fuel - 1];
    }
  }

  /** The range's elements: the i-th is pos + i * step, every one is below
      end, and there are as many as it takes for the step to reach end. */
  lemma {:induction false} RangeFromSpec(pos: int, end: int, step: int)
    requires step > 0
    ensures pos >= end ==> |RangeFrom(pos, end, step)| == 0
    ensures pos < end ==> (|RangeFrom(pos, end, step)| - 1) * step < end - pos <= |RangeFrom(pos, end, step)| * step
    ensures forall i :: 0 <= i < |RangeFrom(pos, end, step)| ==>
      RangeFrom(pos, end, step)[i] == pos + i * step < end
    decreases end - pos
  {
    if pos < end {
      var rest := RangeFrom(pos + step, end, step);
      RangeFromSpec(pos + step, end, step);
      var n := |rest|;
      assert (n + 1) * step == n * step + step;
      assert n * step == (n - 1) * step + step;
      forall i | 0 <= i < n + 1
        ensures RangeFrom(pos, end, step)[i] == pos + i * step < end
      {
        if i > 0 {
          assert rest[i - 1] == pos + step + (i - 1) * step;
          assert (i - 1) * step + step == i * step;
        }
      }
    }
  }

  /** The number of elements of a range: ceil((end - start) / step), or 0
      when start >= end. */
  lemma RangeLength(start: int, end: int, step: int)
    requires step > 0
    ensures |RangeFrom(start, end, step)| == if start >= end then 0 else (end - start + step - 1) / step
  {
    RangeFromSpec(start, end, step);
    if start < end {
      Ceiling(end - start, step, |RangeFrom(start, end, step)|);
    }
  }

  /** n is ceil(a / step) when (n - 1) * step < a <= n * step. */
  lemma Ceiling(a: int, step: int, n: int)
    requires a > 0 && step > 0 && (n - 1) * step < a <= n * step
    ensures n == (a + step - 1) / step
  {
    var q, r := (a + step - 1) / step, (a + step - 1) % step;
    assert a + step - 1 == q * step + r && 0 <= r < step;
    if q > n {
      assert (n + 1) * step == n * step + step;
      MulMonotone(n + 1, q, step);
    } else if q < n {
      assert (q + 1) * step == q * step + step;
      assert (n - 1) * step == n * step - step;
      MulMonotone(q + 1, n, step);
    }
  }

  lemma MulMonotone(x: int, y: int, step: int)
    requires x <= y && step > 0
    ensures x * step <= y * step
  {
    assert y * step - x * step == (y - x) * step;
  }

  /** n copies of x. */
  function Repeat(x: int, n: nat): (r: seq<int>)
    ensures |r| == n && forall i :: 0 <= i < n ==> r[i] == x
  {
    seq(n, _ => x)
  }

  /** The slice enumerator never advances: over an empty slice the loop
      ends at once; over any other slice it never ends, taking data[0]
      every time. */
  lemma {:induction false} RunSlice(data: seq<int>, fuel: nat)
    ensures |data| == 0 ==> Run(Slice(data), 0, fuel) == ([], true)
    ensures |data| > 0 ==> Run(Slice(data), 0, fuel) == (Repeat(data[0], fuel), false)
  {
    if |data| > 0 && fuel > 0 {
      RunSlice(data, fuel - 1);
      assert [data[0]] + Repeat(data[0], fuel - 1) == Repeat(data[0], fuel);
    }
  }

  /** Counting with f and with its negation g splits the elements. */
  lemma {:induction false} CountSplit(xs: seq<int>, f: int -> bool, g: int -> bool)
    requires forall x :: g(x) == !f(x)
    ensures CountIn(xs, f) + CountIn(xs, g) == |xs|
  {
    if |xs| > 0 {
      CountSplit(xs[..|xs| - 1], f, g);
    }
  }

  /** Count(f) and Count(not f) on the same enumerable add up to Count():
      the three runs end together and split the elements between them. */
  method CountsSplit(e: Enumerable, f: int -> bool, fuel: nat) returns (yes: Outcome<int>, no: Outcome<int>, all: Outcome<int>)
    ensures yes.Done? <==> all.Done?
    ensures no.Done? <==> all.Done?
    ensures yes.Done? ==> yes.value + no.value == all.value
    ensures !yes.Done? ==> yes == no == all == OutOfFuel
  {
    var g := x => !f(x);
    yes := e.Count([f], fuel);
    no := e.Count([g], fuel);
    all := e.Count([], fuel);
    CountSplit(Enumerated(e.generator, fuel).0, f, g);
  }

  /** Any as written answers the opposite of All with the same predicate:
      both look for an element failing f, Any reporting true on it and All
      false, and they run out of fuel together. */
  method AnyIsNotAll(e: Enumerable, f: int -> bool, fuel: nat) returns (any: Outcome<bool>, all: Outcome<bool>)
    ensures any == OutOfFuel <==> all == OutOfFuel
    ensures any.Done? ==> all == Done(!any.value)
  {
    any := e.Any(f, fuel);
    all := e.All([f], fuel);
  }

  /** NewRange (R in go-ruby/ruby): an enumerable over a range generator. */
  function NewRange(start: int, end: int, step: int): Enumerable {
    Enumerable(Range(start, end, step))
  }

  /** NewSliceEnumerable (E in go-ruby/ruby): an enumerable over a slice
      generator. */
  function NewSliceEnumerable(data: seq<int>): Enumerable {
    Enumerable(Slice(data))
  }

  /** A new range with step > 0 enumerates start, start + step, ... below
      end: all of them and ends when the fuel suffices, its first fuel
      elements otherwise. */
  lemma NewRangeEnumerates(start: int, end: int, step: int, fuel: nat)
    requires step > 0
    ensures fuel >= |RangeFrom(start, end, step)| ==>
      Enumerated(NewRange(start, end, step).generator, fuel) == (RangeFrom(start, end, step), true)
    ensures fuel < |RangeFrom(start, end, step)| ==>
      Enumerated(NewRange(start, end, step).generator, fuel) == (RangeFrom(start, end, step)[..fuel], false)
  {
    if fuel >= |RangeFrom(start, end, step)| {
      RunRange(start, end, step, start, fuel);
    } else {
      RunRangeShort(start, end, step, start, fuel);
    }
  }

  /** A new slice enumerable ends at once when the slice is empty and
      otherwise takes data[0] on every iteration without end. */
  lemma NewSliceEnumerates(data: seq<int>, fuel: nat)
    ensures |data| == 0 ==> Enumerated(NewSliceEnumerable(data).generator, fuel) == ([], true)
    ensures |data| > 0 ==> Enumerated(NewSliceEnumerable(data).generator, fuel) == (Repeat(data[0], fuel), false)
  {
    RunSlice(data, fuel);
  }

  /** Each over NewRange(1, 11, 1): the elements 1 to 10, in order, so the
      i-th call sees count i + 1 and EachWithIndex index i. */
  lemma {:induction false} RangeOneToTen(fuel: nat)
    requires fuel >= 10
    ensures Enumerated(NewRange(1, 11, 1).generator, fuel) == ([1, 2, 3, 4, 5, 6, 7, 8, 9, 10], true)
  {
    RangeLength(1, 11, 1);
    RangeFromSpec(1, 11, 1);
    RunRange(1, 11, 1, 1, fuel);
    var xs := RangeFrom(1, 11, 1);
    assert forall i :: 0 <= i < 10 ==> xs[i] == [1, 2, 3, 4, 5, 6, 7, 8, 9, 10][i];
    assert xs == [1, 2, 3, 4, 5, 6, 7, 8, 9, 10];
  }

  /** Includes over NewRange(1, 11, 1) with <=: every element el is
      included, el + 10 is not. */
  lemma IncludesOneToTen(fuel: nat, el: int)
    requires fuel >= 10 && 1 <= el <= 10
    ensures IncludesIn(Enumerated(NewRange(1, 11, 1).generator, fuel).0, el, (a, b) => a <= b)
    ensures !IncludesIn(Enumerated(NewRange(1, 11, 1).generator, fuel).0, el + 10, (a, b) => a <= b)
    ensures Enumerated(NewRange(1, 11, 1).generator, fuel).1
  {
    RangeOneToTen(fuel);
    var xs := [1, 2, 3, 4, 5, 6, 7, 8, 9, 10];
    assert xs[el - 1] == el;
  }

  /** The corrected slice enumerator takes the slice's elements from pos
      and ends. */
  lemma {:induction false} RunSliceIntended(data: seq<int>, pos: int, fuel: nat)
    requires 0 <= pos <= |data| && fuel >= |data| - pos
    ensures Run(SliceIntended(data), pos, fuel) == (data[pos..], true)
    decreases |data| - pos
  {
    if pos < |data| {
      RunSliceIntended(data, pos + 1, fuel - 1);
      assert [data[pos]] + data[pos + 1..] == data[pos..];
    } else {
      assert data[pos..] == [];
    }
  }

  /** Each over the slice [7] never ends, where the corrected enumerator
      takes 7 and stops. */
  lemma SliceNeverEnds(fuel: nat)
    requires fuel >= 1
    ensures !Enumerated(NewSliceEnumerable([7]).generator, fuel).1
    ensures Enumerated(Slice([7]), fuel).0 == Repeat(7, fuel)
    ensures Enumerated(SliceIntended([7]), fuel) == ([7], true)
  {
    RunSlice([7], fuel);
    RunSliceIntended([7], 0, fuel);
  }

  /** Any as written is false over the range [1] with f(x) = x == 1, which
      its one element satisfies; Any as intended is true. */
  lemma AnyAsWrittenDiffers(fuel: nat)
    requires fuel >= 1
    ensures Enumerated(NewRange(1, 2, 1).generator, fuel) == ([1], true)
    ensures !SomeFails([1], x => x == 1) && SomeHolds([1], x => x == 1)
  {
    RangeLength(1, 2, 1);
    RunRange(1, 2, 1, 1, fuel);
    assert RangeFrom(1, 2, 1) == [1];
    var f := x => x == 1;
    assert f([1][0]);
  }
}
