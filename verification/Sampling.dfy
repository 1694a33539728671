/**
 Reservoir sampling of a position in a trace: `reservoir_sample`, `choose` and
 `choose_term_path_filtered`.
 */
module Sampling {
  import opened Wrappers
  import opened Terms
  import opened Traces
  import opened Randomness

  datatype TermConstraints = TermConstraints(minTermSize: nat, maxTermSize: nat)

  datatype Position = Position(term: Term, at: TracePath)

  type Filter = Term -> bool

  // ------------------------------------------------------------------ visiting order

  /** Every position at or below `t`, in the order the stack visits them: a node first,
      then its children from last to first. */
  function Visit(t: Term, at: TracePath): seq<Position>
    decreases t, 1
  {
    [Position(t, at)] + (if t.Variable? then [] else VisitArgs(t.args, at))
  }

  function VisitArgs(args: seq<Term>, at: TracePath): seq<Position>
    decreases args, 0
  {
    if args == [] then []
    else Visit(args[|args| - 1], Child(at, |args| - 1)) + VisitArgs(args[..|args| - 1], at)
  }

  function Child(at: TracePath, i: nat): TracePath {
    TracePath(at.step, at.path + [i])
  }

  function Keep(ps: seq<Position>, f: Filter): seq<Position> {
    if ps == [] then [] else (if f(ps[0].term) then [ps[0]] else []) + Keep(ps[1..], f)
  }

  predicate SizeFits(t: Term, c: TermConstraints) {
    c.minTermSize < Size(t) < c.maxTermSize
  }

  function StepPositions(step: Step, i: nat, c: TermConstraints): seq<Position> {
    if step.action.Input? && SizeFits(step.action.recipe, c)
    then Visit(step.action.recipe, TracePath(i, [])) else []
  }

  /** Everything the sampler looks at, in order. */
  function AllPositions(steps: seq<Step>, c: TermConstraints): seq<Position> {
    if steps == [] then []
    else
      var n := |steps| - 1;
      AllPositions(steps[..n], c) + StepPositions(steps[n], n, c)
  }

  function Eligible(steps: seq<Step>, f: Filter, c: TermConstraints): seq<Position> {
    Keep(AllPositions(steps, c), f)
  }

  // ------------------------------------------------------------------ which index a tape picks

  /** A tape for `n` eligible positions: one draw between 1 and v for each v from 2 to n. */
  ghost predicate IsTape(tape: seq<nat>, n: nat) {
    && |tape| == (if n == 0 then 0 else n - 1)
    && forall i :: 0 <= i < |tape| ==> 1 <= tape[i] <= i + 2
  }

  /** The tape that the random source offers from draw number `pos` on. */
  ghost function TapeFrom(raw: nat -> nat, pos: nat, n: nat): (tape: seq<nat>)
    ensures |tape| == if n == 0 then 0 else n - 1
  {
    if n <= 1 then [] else TapeFrom(raw, pos, n - 1) + [1 + Draw(raw, pos + n - 2, n)]
  }

  /** What the random source offers is always a tape. */
  lemma {:induction false} OfferedTape(raw: nat -> nat, pos: nat, n: nat)
    ensures IsTape(TapeFrom(raw, pos, n), n)
  {
    if n > 1 {
      OfferedTape(raw, pos, n - 1);
    }
  }

  /** And every tape is offered by a source that reads its draws, each less one. */
  lemma {:induction false} TapeRead(raw: nat -> nat, pos: nat, tape: seq<nat>, n: nat)
    requires IsTape(tape, n)
    requires forall i :: 0 <= i < |tape| ==> raw(pos + i) == tape[i] - 1
    ensures TapeFrom(raw, pos, n) == tape
  {
    if n > 1 {
      TapeRead(raw, pos, tape[..n - 2], n - 1);
      assert raw(pos + (n - 2)) == tape[n - 2] - 1;
      assert tape == tape[..n - 2] + [tape[n - 2]];
    }
  }

  /** The index left in the reservoir after `n` eligible positions. */
  function Picked(tape: seq<nat>, n: nat): (k: nat)
    requires n >= 1 && |tape| == n - 1
    ensures k < n
  {
    if n == 1 then 0
    else if tape[n - 2] == 1 then n - 1
    else Picked(tape[..n - 2], n - 1)
  }

  ghost function Reservoir(ps: seq<Position>, tape: seq<nat>): Option<Position>
    requires |tape| == if |ps| == 0 then 0 else |ps| - 1
  {
    if ps == [] then None else Some(ps[Picked(tape, |ps|)])
  }

  // ------------------------------------------------------------------ lemmas about the order

  lemma {:induction false} KeepConcat(a: seq<Position>, b: seq<Position>, f: Filter)
    ensures Keep(a + b, f) == Keep(a, f) + Keep(b, f)
  {
    if a == [] {
      assert a + b == b;
    } else {
      assert (a + b)[1..] == a[1..] + b;
      KeepConcat(a[1..], b, f);
      Assoc(if f(a[0].term) then [a[0]] else [], Keep(a[1..], f), Keep(b, f));
    }
  }

  /** What is still to be visited for the positions on the stack. */
  ghost function VisitStack(stack: seq<Position>): seq<Position> {
    if stack == [] then []
    else
      var top := stack[|stack| - 1];
      Visit(top.term, top.at) + VisitStack(stack[..|stack| - 1])
  }

  ghost function StackSize(stack: seq<Position>): nat {
    if stack == [] then 0 else StackSize(stack[..|stack| - 1]) + Size(stack[|stack| - 1].term)
  }

  ghost function Children(args: seq<Term>, at: TracePath): seq<Position> {
    seq(|args|, i requires 0 <= i < |args| => Position(args[i], Child(at, i)))
  }

  lemma {:induction false} SizeSumLast(ts: seq<Term>)
    requires ts != []
    ensures SizeSum(ts) == SizeSum(ts[..|ts| - 1]) + Size(ts[|ts| - 1])
  {
    if |ts| > 1 {
      assert ts[1..][..|ts| - 2] == ts[..|ts| - 1][1..];
      SizeSumLast(ts[1..]);
    }
  }

  /** Pushing all children schedules exactly the visit of the arguments. */
  lemma {:induction false} PushChildren(rest: seq<Position>, args: seq<Term>, at: TracePath)
    ensures VisitStack(rest + Children(args, at)) == VisitArgs(args, at) + VisitStack(rest)
    ensures StackSize(rest + Children(args, at)) == StackSize(rest) + SizeSum(args)
  {
    if args == [] {
      assert rest + Children(args, at) == rest;
    } else {
      var n := |args| - 1;
      var st := rest + Children(args, at);
      assert st[..|st| - 1] == rest + Children(args[..n], at);
      PushChildren(rest, args[..n], at);
      SizeSumLast(args);
    }
  }

  // ------------------------------------------------------------------ the sampler

  /** One candidate reaches the reservoir: keep it if it is the first, else with one draw. */
  lemma ReservoirStep(ps: seq<Position>, tape: seq<nat>, p: Position, draw: nat)
    requires |tape| == |ps| - 1
    ensures Reservoir(ps + [p], tape + [draw]) == if draw == 1 then Some(p) else Reservoir(ps, tape)
  {
    var tape' := tape + [draw];
    assert tape'[..|ps| - 1] == tape;
    assert |ps + [p]| == |ps| + 1;
  }

  /** The sampler's state after seeing the eligible positions `seen`, when its draws are
      those of `drawn` from index `start` on. */
  ghost predicate Sampled(reservoir: Option<Position>, visited: nat, seen: seq<Position>,
                          raw: nat -> nat, drawn: seq<nat>, start: nat) {
    && start <= |drawn|
    && drawn[start..] == TapeFrom(raw, start, |seen|)
    && visited == |seen|
    && reservoir == Reservoir(seen, drawn[start..])
  }

  lemma SampledStep(r: Option<Position>, seen: seq<Position>, raw: nat -> nat, drawn: seq<nat>, start: nat, p: Position)
    requires Sampled(r, |seen|, seen, raw, drawn, start) && seen != []
    ensures var draw := 1 + Draw(raw, |drawn|, |seen| + 1);
            Sampled(if draw == 1 then Some(p) else r, |seen| + 1, seen + [p], raw, drawn + [draw], start)
  {
    var draw := 1 + Draw(raw, |drawn|, |seen| + 1);
    assert (drawn + [draw])[start..] == drawn[start..] + [draw];
    ReservoirStep(seen, drawn[start..], p, draw);
  }

  method ReservoirSample(steps: seq<Step>, filter: Filter, c: TermConstraints, rand: Rand)
    returns (reservoir: Option<Position>)
    modifies rand
    ensures old(rand.drawn) <= rand.drawn
    ensures var ps, tape := Eligible(steps, filter, c), rand.drawn[|old(rand.drawn)|..];
            tape == TapeFrom(rand.raw, |old(rand.drawn)|, |ps|) && reservoir == Reservoir(ps, tape)
  {
    reservoir := None;
    var visited := 0;
    ghost var start := |rand.drawn|;
    for i := 0 to |steps|
      invariant old(rand.drawn) <= rand.drawn
      invariant Sampled(reservoir, visited, Eligible(steps[..i], filter, c), rand.raw, rand.drawn, start)
    {
      assert steps[..i + 1][..i] == steps[..i];
      KeepConcat(AllPositions(steps[..i], c), StepPositions(steps[i], i, c), filter);
      match steps[i].action {
        case Output =>
        case Input(recipe) =>
          var size := Size(recipe);
          if size <= c.minTermSize || size >= c.maxTermSize {
            continue;
          }
          reservoir, visited :=
            SampleRecipe(recipe, i, filter, rand, reservoir, visited, Eligible(steps[..i], filter, c), start);
      }
    }
    assert steps[..|steps|] == steps;
  }

  /** The part of the sampler that walks one recipe with an explicit stack. */
  method SampleRecipe(recipe: Term, step: nat, filter: Filter, rand: Rand, reservoir0: Option<Position>,
                      visited0: nat, ghost seen0: seq<Position>, ghost start: nat)
    returns (reservoir: Option<Position>, visited: nat)
    requires Sampled(reservoir0, visited0, seen0, rand.raw, rand.drawn, start)
    modifies rand
    ensures old(rand.drawn) <= rand.drawn
    ensures Sampled(reservoir, visited, seen0 + Keep(Visit(recipe, TracePath(step, [])), filter), rand.raw, rand.drawn, start)
  {
    reservoir, visited := reservoir0, visited0;
    ghost var seen := seen0;
    var stack := [Position(recipe, TracePath(step, []))];
    SingletonStack(stack[0]);
    while stack != []
      invariant old(rand.drawn) <= rand.drawn && Sampled(reservoir, visited, seen, rand.raw, rand.drawn, start)
      invariant seen + Keep(VisitStack(stack), filter) == seen0 + Keep(Visit(recipe, TracePath(step, [])), filter)
      decreases StackSize(stack)
    {
      stack, reservoir, visited, seen := Advance(stack, filter, rand, reservoir, visited, seen, start);
    }
    assert seen + [] == seen;
  }

  lemma SingletonStack(p: Position)
    ensures VisitStack([p]) == Visit(p.term, p.at)
  {
    assert [p][..0] == [];
    assert Visit(p.term, p.at) + [] == Visit(p.term, p.at);
  }

  /** One turn of the stack loop: pop, push the subterms, sample the popped term. */
  method Advance(stack0: seq<Position>, filter: Filter, rand: Rand, reservoir0: Option<Position>, visited0: nat,
                 ghost seen0: seq<Position>, ghost start: nat)
    returns (stack: seq<Position>, reservoir: Option<Position>, visited: nat, ghost seen: seq<Position>)
    requires stack0 != [] && Sampled(reservoir0, visited0, seen0, rand.raw, rand.drawn, start)
    modifies rand
    ensures old(rand.drawn) <= rand.drawn && Sampled(reservoir, visited, seen, rand.raw, rand.drawn, start)
    ensures seen + Keep(VisitStack(stack), filter) == seen0 + Keep(VisitStack(stack0), filter)
    ensures StackSize(stack) < StackSize(stack0)
  {
    reservoir, visited, seen := reservoir0, visited0, seen0;
    var top, rest := stack0[|stack0| - 1], stack0[..|stack0| - 1];
    assert stack0 == rest + [top];
    stack := PushSubterms(top, rest);
    VisitTop(top, rest, stack, filter);
    ghost var todo := Keep(VisitStack(stack), filter);
    if filter(top.term) {
      visited := visited + 1;
      reservoir := Consider(top, visited, rand, reservoir, seen, start);
      seen := seen + [top];
      Assoc(seen0, [top], todo);
    } else {
      assert [] + todo == todo;
    }
  }

  /** The first match fills the reservoir; a later one replaces it if the draw is 1. */
  method Consider(top: Position, visited: nat, rand: Rand, reservoir0: Option<Position>,
                  ghost seen: seq<Position>, ghost start: nat)
    returns (reservoir: Option<Position>)
    requires visited >= 1 && Sampled(reservoir0, visited - 1, seen, rand.raw, rand.drawn, start)
    modifies rand
    ensures old(rand.drawn) <= rand.drawn && Sampled(reservoir, visited, seen + [top], rand.raw, rand.drawn, start)
  {
    reservoir := reservoir0;
    if reservoir.None? {
      reservoir := Some(top);
    } else {
      var draw := rand.Between(1, visited);
      if draw == 1 {
        reservoir := Some(top);
      }
      SampledStep(reservoir0, seen, rand.raw, old(rand.drawn), start, top);
    }
  }

  /** The popped node's subterms go onto the stack, first to last. */
  method PushSubterms(top: Position, rest: seq<Position>) returns (stack: seq<Position>)
    ensures VisitStack(stack) == (if top.term.Variable? then [] else VisitArgs(top.term.args, top.at)) + VisitStack(rest)
    ensures StackSize(stack) < StackSize(rest + [top])
  {
    stack := rest;
    assert (rest + [top])[..|rest|] == rest;
    match top.term {
      case Variable(_, _) =>
      case Application(_, subterms) =>
        for k := 0 to |subterms|
          invariant stack == rest + Children(subterms[..k], top.at)
        {
          stack := stack + [Position(subterms[k], Child(top.at, k))];
        }
        assert subterms[..|subterms|] == subterms;
        PushChildren(rest, subterms, top.at);
    }
  }

  /** Popping a node and pushing its children moves the visit on by that node. */
  lemma VisitTop(top: Position, rest: seq<Position>, stack: seq<Position>, f: Filter)
    requires VisitStack(stack) == (if top.term.Variable? then [] else VisitArgs(top.term.args, top.at)) + VisitStack(rest)
    ensures Keep(VisitStack(rest + [top]), f) == (if f(top.term) then [top] else []) + Keep(VisitStack(stack), f)
  {
    var st := rest + [top];
    assert st[..|st| - 1] == rest;
    assert top == Position(top.term, top.at);
    Assoc([top], if top.term.Variable? then [] else VisitArgs(top.term.args, top.at), VisitStack(rest));
    KeepFirst(top, VisitStack(stack), f);
  }

  lemma KeepFirst(p: Position, ps: seq<Position>, f: Filter)
    ensures Keep([p] + ps, f) == (if f(p.term) then [p] else []) + Keep(ps, f)
  {
    var all := [p] + ps;
    assert all[0] == p && all[1..] == ps;
  }

  // ------------------------------------------------------------------ what is sampled from

  /** At the first index where they differ, `p` has the larger number. */
  ghost predicate Branches(p: Path, q: Path, k: nat) {
    k < |p| && k < |q| && p[..k] == q[..k] && p[k] > q[k]
  }

  /** A node comes before what is below it, and a later argument before an earlier one. */
  ghost predicate Precedes(a: TracePath, b: TracePath) {
    || a.step < b.step
    || (a.step == b.step && (a.path < b.path || exists k :: Branches(a.path, b.path, k)))
  }

  ghost predicate Ordered(ps: seq<Position>) {
    forall i, j :: 0 <= i < j < |ps| ==> Precedes(ps[i].at, ps[j].at)
  }

  ghost predicate DistinctPlaces(ps: seq<Position>) {
    forall i, j :: 0 <= i < j < |ps| ==> ps[i].at != ps[j].at
  }

  lemma OrderedIsDistinct(ps: seq<Position>)
    requires Ordered(ps)
    ensures DistinctPlaces(ps)
  {
    forall i, j | 0 <= i < j < |ps|
      ensures ps[i].at != ps[j].at
    {
      assert Precedes(ps[i].at, ps[j].at);
    }
  }

  /** `p` lies at or below `at` and names the subterm of `t` found there. */
  ghost predicate Names(t: Term, at: TracePath, p: Position) {
    && p.at.step == at.step
    && at.path <= p.at.path
    && At(t, p.at.path[|at.path|..]) == Some(p.term)
  }

  lemma {:induction false} VisitExact(t: Term, at: TracePath, p: Position)
    ensures p in Visit(t, at) <==> Names(t, at, p)
    decreases t, 1
  {
    if t.Application? {
      VisitArgsExact(t.args, at, p);
    }
    if at.path <= p.at.path && |p.at.path| == |at.path| {
      assert p.at.path == at.path;
    }
  }

  lemma {:induction false} VisitArgsExact(args: seq<Term>, at: TracePath, p: Position)
    ensures p in VisitArgs(args, at) <==>
            && at.path < p.at.path
            && p.at.path[|at.path|] < |args|
            && Names(args[p.at.path[|at.path|]], Child(at, p.at.path[|at.path|]), p)
    decreases args, 0
  {
    if args != [] {
      var n := |args| - 1;
      VisitArgsExact(args[..n], at, p);
      VisitExact(args[n], Child(at, n), p);
      if Names(args[n], Child(at, n), p) {
        assert p.at.path[|at.path|] == Child(at, n).path[|at.path|] == n;
        assert at.path <= Child(at, n).path;
      }
    }
  }

  lemma OrderedConcat(a: seq<Position>, b: seq<Position>)
    requires Ordered(a) && Ordered(b)
    requires forall x, y :: x in a && y in b ==> Precedes(x.at, y.at)
    ensures Ordered(a + b)
  {
    var all := a + b;
    forall i, j | 0 <= i < j < |all|
      ensures Precedes(all[i].at, all[j].at)
    {
      if i < |a| <= j {
        assert a[i] in a && b[j - |a|] in b;
      }
    }
  }

  /** Nodes before what is below them, arguments from last to first, each place once; there
      are as many visits as the term's size. */
  lemma {:induction false} VisitOrdered(t: Term, at: TracePath)
    ensures Ordered(Visit(t, at)) && |Visit(t, at)| == Size(t)
    decreases t, 1
  {
    if t.Application? {
      VisitArgsOrdered(t.args, at);
      forall x, y | x in [Position(t, at)] && y in VisitArgs(t.args, at)
        ensures Precedes(x.at, y.at)
      {
        VisitArgsExact(t.args, at, y);
      }
      OrderedConcat([Position(t, at)], VisitArgs(t.args, at));
    }
  }

  lemma {:induction false} VisitArgsOrdered(args: seq<Term>, at: TracePath)
    ensures Ordered(VisitArgs(args, at)) && |VisitArgs(args, at)| == SizeSum(args)
    decreases args, 0
  {
    if args != [] {
      var n := |args| - 1;
      var last, others := Visit(args[n], Child(at, n)), VisitArgs(args[..n], at);
      VisitOrdered(args[n], Child(at, n));
      VisitArgsOrdered(args[..n], at);
      SizeSumLast(args);
      forall x, y | x in last && y in others
        ensures Precedes(x.at, y.at)
      {
        VisitExact(args[n], Child(at, n), x);
        VisitArgsExact(args[..n], at, y);
        LaterArgumentFirst(at, n, x, y);
      }
      OrderedConcat(last, others);
    }
  }

  lemma LaterArgumentFirst(at: TracePath, n: nat, x: Position, y: Position)
    requires x.at.step == y.at.step && Child(at, n).path <= x.at.path
    requires at.path < y.at.path && y.at.path[|at.path|] < n
    ensures Precedes(x.at, y.at)
  {
    var k := |at.path|;
    assert x.at.path[k] == Child(at, n).path[k] == n;
    assert x.at.path[..k] == Child(at, n).path[..k] == at.path == y.at.path[..k];
    assert Branches(x.at.path, y.at.path, k);
  }

  lemma {:induction false} KeepExact(ps: seq<Position>, f: Filter, p: Position)
    ensures p in Keep(ps, f) <==> p in ps && f(p.term)
  {
    if ps != [] {
      KeepExact(ps[1..], f, p);
    }
  }

  lemma {:induction false} KeepOrdered(ps: seq<Position>, f: Filter)
    requires Ordered(ps)
    ensures Ordered(Keep(ps, f))
  {
    if ps != [] {
      KeepOrdered(ps[1..], f);
      forall y | y in Keep(ps[1..], f)
        ensures Precedes(ps[0].at, y.at)
      {
        KeepExact(ps[1..], f, y);
        var j :| 0 <= j < |ps[1..]| && ps[1..][j] == y;
        assert ps[j + 1] == y;
      }
      if f(ps[0].term) {
        OrderedConcat([ps[0]], Keep(ps[1..], f));
      }
    }
  }

  /** `at` is a place in a recipe whose size lies strictly between the constraints. */
  ghost predicate InBounds(steps: seq<Step>, c: TermConstraints, at: TracePath) {
    HasRecipe(steps, at.step) && c.minTermSize < Size(steps[at.step].action.recipe) < c.maxTermSize
  }

  lemma StepPositionsExact(step: Step, i: nat, c: TermConstraints, p: Position)
    ensures p in StepPositions(step, i, c) <==>
            && p.at.step == i && step.action.Input? && SizeFits(step.action.recipe, c)
            && At(step.action.recipe, p.at.path) == Some(p.term)
  {
    if step.action.Input? {
      VisitExact(step.action.recipe, TracePath(i, []), p);
      assert p.at.path[0..] == p.at.path;
    }
  }

  lemma {:induction false} AllPositionsExact(steps: seq<Step>, c: TermConstraints, p: Position)
    ensures p in AllPositions(steps, c) <==> InBounds(steps, c, p.at) && TermAt(steps, p.at) == Some(p.term)
  {
    if steps != [] {
      var n := |steps| - 1;
      AllPositionsExact(steps[..n], c, p);
      StepPositionsExact(steps[n], n, c, p);
      assert TermAt(steps[..n], p.at) == if p.at.step == n then None else TermAt(steps, p.at);
    }
  }

  lemma {:induction false} AllPositionsOrdered(steps: seq<Step>, c: TermConstraints)
    ensures Ordered(AllPositions(steps, c))
  {
    if steps != [] {
      var n := |steps| - 1;
      AllPositionsOrdered(steps[..n], c);
      if steps[n].action.Input? && SizeFits(steps[n].action.recipe, c) {
        var t := steps[n].action.recipe;
        VisitOrdered(t, TracePath(n, []));
        forall x, y | x in AllPositions(steps[..n], c) && y in Visit(t, TracePath(n, []))
          ensures Precedes(x.at, y.at)
        {
          AllPositionsExact(steps[..n], c, x);
          VisitExact(t, TracePath(n, []), y);
        }
        OrderedConcat(AllPositions(steps[..n], c), Visit(t, TracePath(n, [])));
      }
    }
  }

  /** The sampler considers every place of every recipe of admissible size whose subterm
      passes the filter, each exactly once, and nothing else, in the order of the steps and
      within a recipe in visiting order; and the path it pairs with a term leads back to
      that term. */
  lemma EligibleExact(steps: seq<Step>, f: Filter, c: TermConstraints, p: Position)
    ensures p in Eligible(steps, f, c) <==>
            InBounds(steps, c, p.at) && TermAt(steps, p.at) == Some(p.term) && f(p.term)
    ensures Ordered(Eligible(steps, f, c)) && DistinctPlaces(Eligible(steps, f, c))
  {
    KeepExact(AllPositions(steps, c), f, p);
    AllPositionsExact(steps, c, p);
    AllPositionsOrdered(steps, c);
    KeepOrdered(AllPositions(steps, c), f);
    OrderedIsDistinct(Eligible(steps, f, c));
  }

  /** The reservoir ends with the last index that drew a 1, or with the first index if none
      did: draw number `i` belongs to index `i + 1`. */
  lemma {:induction false} PickedExact(tape: seq<nat>, n: nat, k: nat)
    requires n >= 1 && |tape| == n - 1
    ensures Picked(tape, n) == k <==>
            k < n && (k == 0 || tape[k - 1] == 1) && forall i :: k <= i < n - 1 ==> tape[i] != 1
    decreases n
  {
    if n > 1 && tape[n - 2] != 1 {
      PickedExact(tape[..n - 2], n - 1, k);
      assert forall i :: 0 <= i < n - 2 ==> tape[..n - 2][i] == tape[i];
    }
  }

  /** Consequences for a caller: a sampled position can be found again, and nothing is
      returned only if nothing qualifies. */
  lemma SampleIsFoundAgain(steps: seq<Step>, f: Filter, c: TermConstraints, tape: seq<nat>)
    requires IsTape(tape, |Eligible(steps, f, c)|)
    ensures var r := Reservoir(Eligible(steps, f, c), tape);
            && (r.Some? ==> InBounds(steps, c, r.value.at)
                            && TermAt(steps, r.value.at) == Some(r.value.term) && f(r.value.term))
            && (r.None? <==> forall at :: InBounds(steps, c, at) && TermAt(steps, at).Some? ==> !f(TermAt(steps, at).value))
  {
    var ps := Eligible(steps, f, c);
    if ps == [] {
      forall at | InBounds(steps, c, at) && TermAt(steps, at).Some?
        ensures !f(TermAt(steps, at).value)
      {
        EligibleExact(steps, f, c, Position(TermAt(steps, at).value, at));
      }
    } else {
      var p := ps[Picked(tape, |ps|)];
      assert p in ps;
      EligibleExact(steps, f, c, p);
    }
  }
}
