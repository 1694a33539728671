/**
 The seven mutators as methods that rewrite a trace in place, and the scheduler that
 stacks them. Each reports the event it performed.
 */
module Mutators {
  import opened Wrappers
  import opened Terms
  import opened Traces
  import opened Sampling
  import opened Signatures
  import opened Zoo
  import opened Randomness
  import opened Mutations
  import opened Choices

  class MutableTrace {
    var descriptors: seq<AgentDescriptor>
    var steps: seq<Step>
    var priorTraces: seq<Trace>

    constructor (descriptors: seq<AgentDescriptor>, steps: seq<Step>, priorTraces: seq<Trace>)
      ensures this.descriptors == descriptors && this.steps == steps && this.priorTraces == priorTraces
    {
      this.descriptors, this.steps, this.priorTraces := descriptors, steps, priorTraces;
    }
  }

  // ------------------------------------------------------------------ choosing

  /** `choose_term_path_filtered`: a sample from the eligible positions; so a place that
      qualifies, or none if no place does. */
  method ChooseFiltered(steps: seq<Step>, filter: Filter, c: TermConstraints, rand: Rand)
    returns (r: Option<Position>)
    modifies rand
    ensures old(rand.drawn) <= rand.drawn
    ensures (r, |rand.drawn|) == Sample(steps, filter, c, rand.raw, |old(rand.drawn)|)
    ensures r.Some? ==> Choosable(steps, c, r.value.at) && TermAt(steps, r.value.at) == Some(r.value.term)
                        && filter(r.value.term)
    ensures r.None? ==> forall at :: Choosable(steps, c, at) ==> !filter(TermAt(steps, at).value)
  {
    r := ReservoirSample(steps, filter, c, rand);
    SampleQualifies(steps, filter, c, rand.raw, |old(rand.drawn)|);
  }

  /** `choose_filtered` on a list: one draw among the items that pass, if any do. */
  method ChooseFrom<T>(items: seq<T>, filter: T -> bool, rand: Rand) returns (r: Option<T>)
    modifies rand
    ensures old(rand.drawn) <= rand.drawn
    ensures Kept(items, filter) == [] ==> r.None? && rand.drawn == old(rand.drawn)
    ensures Kept(items, filter) != [] ==>
              && r == Some(Kept(items, filter)[Draw(rand.raw, |old(rand.drawn)|, |Kept(items, filter)|)])
              && |rand.drawn| == |old(rand.drawn)| + 1
    ensures r.Some? ==> r.value in items && filter(r.value)
    ensures r.None? ==> forall x :: x in items ==> !filter(x)
  {
    var filtered: seq<T> := [];
    for i := 0 to |items|
      invariant filtered == Kept(items[..i], filter)
    {
      assert items[..i + 1][..i] == items[..i];
      if filter(items[i]) {
        filtered := filtered + [items[i]];
      }
    }
    assert items[..|items|] == items;
    if |filtered| == 0 {
      r := None;
      forall x | x in items
        ensures !filter(x)
      {
        KeptExact(items, filter, x);
      }
    } else {
      var index := rand.Below(|filtered|);
      r := Some(filtered[index]);
      KeptExact(items, filter, filtered[index]);
    }
  }

  // ------------------------------------------------------------------ Swap

  method Swap(trace: MutableTrace, cfg: Config, rand: Rand) returns (mutated: bool, ghost e: Event)
    modifies trace`steps, rand
    ensures Enabled(cfg, old(trace.steps), e) && trace.steps == Apply(cfg, old(trace.steps), e)
    ensures old(rand.drawn) <= rand.drawn
    ensures (e, |rand.drawn|) == SwapBy(cfg, old(trace.steps), rand.raw, |old(rand.drawn)|)
    ensures mutated == e.Swapped? == !e.Skipped?
    ensures !mutated <==> forall at :: !Choosable(old(trace.steps), cfg.constraints, at)
  {
    mutated, e := false, Skipped;
    var first := ChooseFiltered(trace.steps, Anything(), cfg.constraints, rand);
    if first.Some? {
      var termA := first.value.term;
      var second := ChooseFiltered(trace.steps, OfType(TypeOf(termA)), cfg.constraints, rand);
      if second.Some? {
        var termB := TermAt(trace.steps, second.value.at);
        if termB.Some? {
          trace.steps := PutAt(trace.steps, second.value.at, termA);
          if TermAt(trace.steps, first.value.at).Some? {
            trace.steps := PutAt(trace.steps, first.value.at, termB.value);
          }
          mutated, e := true, Swapped(first.value.at, second.value.at);
        }
      }
    }
  }

  // ------------------------------------------------------------------ RemoveAndLift

  /** `filter_grand_subterms` with the same-type predicate. */
  method FilterGrandSubterms(args: seq<Term>) returns (found: seq<GrandSubterm>)
    ensures found == GrandSubterms(args)
    ensures forall x :: x in found <==> x.child < |args| && LiftsTo(args[x.child], x.grandchild)
  {
    found := [];
    for i := 0 to |args|
      invariant found == GrandSubterms(args[..i])
    {
      assert args[..i + 1][..i] == args[..i];
      match args[i]
      case Variable(_, _) =>
      case Application(_, grand) =>
        for g := 0 to |grand|
          invariant found == GrandSubterms(args[..i]) + OwnTyped(args[i], i, g)
        {
          if TypeOf(args[i]) == TypeOf(grand[g]) {
            found := found + [GrandSubterm(i, g)];
          }
        }
    }
    assert args[..|args|] == args;
    forall x
      ensures x in found <==> x.child < |args| && LiftsTo(args[x.child], x.grandchild)
    {
      GrandSubtermsExact(args, x);
    }
  }

  /** Pushing to the end and then removing by swapping the last element in. */
  function SwapRemove(ts: seq<Term>, i: nat): seq<Term>
    requires i < |ts|
  {
    ts[i := ts[|ts| - 1]][..|ts| - 1]
  }

  lemma PushSwapRemoveIsUpdate(ts: seq<Term>, i: nat, t: Term)
    requires i < |ts|
    ensures SwapRemove(ts + [t], i) == ts[i := t]
  {
  }

  method RemoveAndLift(trace: MutableTrace, cfg: Config, rand: Rand) returns (mutated: bool, ghost e: Event)
    modifies trace`steps, rand
    ensures Enabled(cfg, old(trace.steps), e) && trace.steps == Apply(cfg, old(trace.steps), e)
    ensures old(rand.drawn) <= rand.drawn
    ensures (e, |rand.drawn|) == LiftBy(cfg, old(trace.steps), rand.raw, |old(rand.drawn)|)
    ensures mutated == e.Lifted? == !e.Skipped?
    ensures mutated ==> OnlyAt(old(trace.steps), trace.steps, e.at)
    ensures mutated ==> TermAt(trace.steps, Below(e.at, [e.child])) == TermAt(old(trace.steps), Below(e.at, [e.child, e.grandchild]))
    ensures !mutated <==> NothingLifts(cfg, old(trace.steps))
  {
    mutated, e := false, Skipped;
    LiftSound(cfg, trace.steps, rand.raw, |rand.drawn|);
    var chosen := ChooseFiltered(trace.steps, Liftable, cfg.constraints, rand);
    if chosen.Some? {
      var at, t := chosen.value.at, chosen.value.term;
      var lifted;
      ghost var pick;
      lifted, pick := LiftGrandSubterm(t, rand);
      trace.steps := PutAt(trace.steps, at, lifted);
      LiftedEffect(cfg, old(trace.steps), at, pick.child, pick.grandchild);
      mutated, e := true, Lifted(at, pick.child, pick.grandchild);
    }
  }

  /** One draw among the grandchildren of their parent's type; the drawn one takes its
      parent's place. */
  method LiftGrandSubterm(t: Term, rand: Rand) returns (r: Term, ghost pick: GrandSubterm)
    requires Liftable(t)
    modifies rand
    ensures var grand := GrandSubterms(t.args);
            && grand != []
            && pick == grand[Draw(rand.raw, |old(rand.drawn)|, |grand|)]
            && rand.drawn == old(rand.drawn) + [Draw(rand.raw, |old(rand.drawn)|, |grand|)]
    ensures pick.child < |t.args| && LiftsTo(t.args[pick.child], pick.grandchild)
    ensures r == Lift(t, pick.child, pick.grandchild)
  {
    var grand := FilterGrandSubterms(t.args);
    LiftableHasGrandSubterm(t);
    var k := rand.Below(|grand|);
    var chosen := grand[k];
    pick := chosen;
    assert pick in grand;
    var grandSubterm := t.args[chosen.child].args[chosen.grandchild];
    PushSwapRemoveIsUpdate(t.args, chosen.child, grandSubterm);
    r := Application(t.func, SwapRemove(t.args + [grandSubterm], chosen.child));
  }

  // ------------------------------------------------------------------ ReplaceMatch

  method ReplaceMatch(trace: MutableTrace, cfg: Config, rand: Rand) returns (mutated: bool, ghost e: Event)
    modifies trace`steps, rand
    ensures Enabled(cfg, old(trace.steps), e) && trace.steps == Apply(cfg, old(trace.steps), e)
    ensures old(rand.drawn) <= rand.drawn
    ensures (e, |rand.drawn|) == MatchBy(cfg, old(trace.steps), rand.raw, |old(rand.drawn)|)
    ensures mutated == e.Matched? == !e.Skipped?
    ensures mutated ==> OnlyAt(old(trace.steps), trace.steps, e.at)
    ensures mutated ==> var t := TermAt(trace.steps, e.at); t.Some? && t.value.Application? && t.value.func == e.func
    ensures !mutated ==> || (forall at :: !Choosable(old(trace.steps), cfg.constraints, at))
                         || exists at :: Choosable(old(trace.steps), cfg.constraints, at) &&
                              forall f :: f in cfg.signature.functions ==> !Fits(TermAt(old(trace.steps), at).value, f)
  {
    mutated, e := false, Skipped;
    var chosen := ChooseFiltered(trace.steps, Anything(), cfg.constraints, rand);
    if chosen.Some? {
      var at, t := chosen.value.at, chosen.value.term;
      var def := ChooseFrom(cfg.signature.functions, Fitting(t), rand);
      if def.Some? {
        MatchedEffect(cfg, old(trace.steps), at, def.value);
        mutated, e := true, Matched(at, def.value);
        match t
        case Variable(_, _) =>
          trace.steps := PutAt(trace.steps, at, Application(def.value, []));
        case Application(_, args) =>
          trace.steps := PutAt(trace.steps, at, Application(def.value, args));
      }
    }
  }

  // ------------------------------------------------------------------ ReplaceReuse

  method ReplaceReuse(trace: MutableTrace, cfg: Config, rand: Rand) returns (mutated: bool, ghost e: Event)
    modifies trace`steps, rand
    ensures Enabled(cfg, old(trace.steps), e) && trace.steps == Apply(cfg, old(trace.steps), e)
    ensures old(rand.drawn) <= rand.drawn
    ensures (e, |rand.drawn|) == ReuseBy(cfg, old(trace.steps), rand.raw, |old(rand.drawn)|)
    ensures mutated == e.Reused? == !e.Skipped?
    ensures mutated ==> OnlyAt(old(trace.steps), trace.steps, e.at)
    ensures mutated ==> TermAt(trace.steps, e.at) == TermAt(old(trace.steps), e.source)
    ensures !mutated <==> forall at :: !Choosable(old(trace.steps), cfg.constraints, at)
  {
    mutated, e := false, Skipped;
    var replacement := ChooseFiltered(trace.steps, Anything(), cfg.constraints, rand);
    if replacement.Some? {
      var r := replacement.value.term;
      var target := ChooseFiltered(trace.steps, OfType(TypeOf(r)), cfg.constraints, rand);
      if target.Some? {
        trace.steps := PutAt(trace.steps, target.value.at, r);
        ReusedEffect(cfg, old(trace.steps), replacement.value.at, target.value.at);
        mutated, e := true, Reused(replacement.value.at, target.value.at);
      }
    }
  }

  // ------------------------------------------------------------------ Skip and Repeat

  method Skip(trace: MutableTrace, cfg: Config, rand: Rand) returns (mutated: bool, ghost e: Event)
    modifies trace`steps, rand
    ensures Enabled(cfg, old(trace.steps), e) && trace.steps == Apply(cfg, old(trace.steps), e)
    ensures old(rand.drawn) <= rand.drawn
    ensures (e, |rand.drawn|) == SkipBy(cfg, old(trace.steps), rand.raw, |old(rand.drawn)|)
    ensures mutated == e.StepRemoved? == !e.Skipped?
    ensures mutated <==> |old(trace.steps)| > cfg.minTraceLength
    ensures mutated ==> rand.drawn == old(rand.drawn) + [e.index]
    ensures mutated ==> |trace.steps| == |old(trace.steps)| - 1
    ensures mutated ==> forall i :: 0 <= i < |trace.steps| ==>
                                      trace.steps[i] == if i < e.index then old(trace.steps)[i] else old(trace.steps)[i + 1]
  {
    var length := |trace.steps|;
    if length <= cfg.minTraceLength || length == 0 {
      return false, Skipped;
    }
    var removeIndex := rand.Between(0, length - 1);
    trace.steps := trace.steps[..removeIndex] + trace.steps[removeIndex + 1..];
    mutated, e := true, StepRemoved(removeIndex);
  }

  method Repeat(trace: MutableTrace, cfg: Config, rand: Rand) returns (mutated: bool, ghost e: Event)
    modifies trace`steps, rand
    ensures Enabled(cfg, old(trace.steps), e) && trace.steps == Apply(cfg, old(trace.steps), e)
    ensures old(rand.drawn) <= rand.drawn
    ensures (e, |rand.drawn|) == RepeatBy(cfg, old(trace.steps), rand.raw, |old(rand.drawn)|)
    ensures mutated == e.StepRepeated? == !e.Skipped?
    ensures mutated <==> 0 < |old(trace.steps)| < cfg.maxTraceLength
    ensures mutated ==> rand.drawn == old(rand.drawn) + [e.insertAt, e.index]
    ensures mutated ==> |trace.steps| == |old(trace.steps)| + 1 && trace.steps[e.insertAt] == old(trace.steps)[e.index]
    ensures mutated ==> forall i :: 0 <= i < |old(trace.steps)| ==>
                                      trace.steps[if i < e.insertAt then i else i + 1] == old(trace.steps)[i]
  {
    var length := |trace.steps|;
    if length >= cfg.maxTraceLength || length == 0 {
      return false, Skipped;
    }
    var insertIndex := rand.Between(0, length);
    var k := Choose(trace.steps, rand);
    var step := trace.steps[k];
    trace.steps := trace.steps[..insertIndex] + [step] + trace.steps[insertIndex..];
    mutated, e := true, StepRepeated(insertIndex, k);
  }

  // ------------------------------------------------------------------ Generate

  class GenerateMutator {
    const refreshZooAfter: nat
    const signature: Signature
    var mutationCounter: nat
    var zoo: Option<seq<Term>>

    ghost function State(): Generator
      reads this
    {
      Generator(refreshZooAfter, mutationCounter, zoo)
    }

    ghost predicate Valid()
      reads this
    {
      State().Valid(signature)
    }

    /** As `trace_mutations` builds it: counter zero and no zoo yet. */
    constructor (refreshZooAfter: nat, defs: seq<Function>)
      requires refreshZooAfter > 0
      ensures Valid() && signature == NewSignature(defs) && State() == Generator(refreshZooAfter, 0, None)
    {
      this.refreshZooAfter, signature := refreshZooAfter, NewSignature(defs);
      mutationCounter, zoo := 0, None;
    }

    /** Counts the mutation and makes a new zoo if there is none or the old one is due. */
    method Stock(rand: Rand)
      requires Valid()
      modifies this, rand
      ensures Valid() && zoo.Some? && old(rand.drawn) <= rand.drawn
      ensures (State(), |rand.drawn|) == Stocked(signature, old(State()), rand.raw, |old(rand.drawn)|)
    {
      StockedValid(signature, State(), rand.raw, |rand.drawn|);
      mutationCounter := mutationCounter + 1;
      if mutationCounter % refreshZooAfter == 0 || zoo.None? {
        var terms := GenerateZoo(signature, rand);
        zoo := Some(terms);
      }
    }

    /** One draw among the zoo terms of the given type. */
    method PickFromZoo(typ: TypeId, rand: Rand) returns (pick: Option<Term>)
      requires Valid()
      modifies this, rand
      ensures Valid() && zoo.Some? && old(rand.drawn) <= rand.drawn
      ensures (pick, State(), |rand.drawn|) == PickBy(signature, old(State()), typ, rand.raw, |old(rand.drawn)|)
      ensures pick.Some? ==> pick.value in zoo.value && TypeOf(pick.value) == typ
    {
      Stock(rand);
      pick := ChooseFrom(zoo.value, OfType(typ), rand);
    }

    method Mutate(trace: MutableTrace, cfg: Config, rand: Rand) returns (mutated: bool, ghost e: Event)
      requires Valid() && signature == cfg.signature
      modifies this, trace`steps, rand
      ensures Valid()
      ensures Enabled(cfg, old(trace.steps), e) && trace.steps == Apply(cfg, old(trace.steps), e)
      ensures old(rand.drawn) <= rand.drawn
      ensures (e, State(), |rand.drawn|)
              == GenerateBy(cfg, old(State()), old(trace.steps), rand.raw, |old(rand.drawn)|)
      ensures mutated == e.Generated? == !e.Skipped?
      ensures mutated ==> TermAt(trace.steps, e.at) == Some(e.term) && OnlyAt(old(trace.steps), trace.steps, e.at)
      ensures (forall at :: !Choosable(old(trace.steps), cfg.constraints, at)) ==> !mutated && State() == old(State())
      ensures mutated ==> zoo.Some? && e.term in zoo.value
    {
      mutated, e := false, Skipped;
      var chosen := ChooseFiltered(trace.steps, Anything(), cfg.constraints, rand);
      if chosen.Some? {
        var pick := PickFromZoo(TypeOf(chosen.value.term), rand);
        if pick.Some? {
          trace.steps := PutAt(trace.steps, chosen.value.at, pick.value);
          GeneratedEffect(cfg, old(trace.steps), chosen.value.at, pick.value);
          mutated, e := true, Generated(chosen.value.at, pick.value);
        }
      }
    }
  }

  // ------------------------------------------------------------------ the scheduler

  /** Some event of the run is not a skip. */
  ghost predicate Effective(run: seq<Event>) {
    exists i :: 0 <= i < |run| && !run[i].Skipped?
  }

  lemma EffectiveStep(run: seq<Event>, e: Event)
    ensures Effective(run + [e]) <==> Effective(run) || !e.Skipped?
  {
    var longer := run + [e];
    if i :| 0 <= i < |run| && !run[i].Skipped? {
      assert !longer[i].Skipped?;
    }
    if !e.Skipped? {
      assert !longer[|run|].Skipped?;
    }
  }

  /** `PuffinScheduledMutator`: a random number of mutations below the maximum, each
      chosen among the seven. Descriptors and prior traces are outside its frame. */
  method ScheduledMutate(trace: MutableTrace, cfg: Config, generate: GenerateMutator, maxMutations: nat, rand: Rand)
    returns (mutated: bool, ghost run: seq<Event>)
    requires maxMutations > 0 && generate.Valid() && generate.signature == cfg.signature
    modifies trace`steps, generate, rand
    ensures generate.Valid()
    ensures (run, trace.steps, generate.State(), |rand.drawn|)
            == ScheduledBy(cfg, old(generate.State()), old(trace.steps), maxMutations, rand.raw, |old(rand.drawn)|)
    ensures After(cfg, old(trace.steps), run) == Some(trace.steps)
    ensures mutated <==> Effective(run)
  {
    var num := rand.Below(maxMutations);
    mutated, run := ApplyMany(trace, cfg, generate, num, rand);
  }

  /** The scheduler's loop. */
  method ApplyMany(trace: MutableTrace, cfg: Config, generate: GenerateMutator, num: nat, rand: Rand)
    returns (mutated: bool, ghost run: seq<Event>)
    requires generate.Valid() && generate.signature == cfg.signature
    modifies trace`steps, generate, rand
    ensures generate.Valid()
    ensures (run, trace.steps, generate.State(), |rand.drawn|)
            == RunBy(cfg, old(generate.State()), old(trace.steps), num, rand.raw, |old(rand.drawn)|)
    ensures mutated <==> Effective(run)
  {
    mutated, run := false, [];
    ghost var gen, steps, pos := generate.State(), trace.steps, |rand.drawn|;
    for k := 0 to num
      invariant generate.Valid() && |run| == k
      invariant (run, trace.steps, generate.State(), |rand.drawn|) == RunBy(cfg, gen, steps, |run|, rand.raw, pos)
      invariant mutated <==> Effective(run)
    {
      var outcome;
      outcome, run := ApplyNext(trace, cfg, generate, rand, gen, steps, pos, run);
      mutated := mutated || outcome;
    }
  }

  /** One turn of the scheduler's loop; `gen`, `steps` and `pos` are from before the loop. */
  method ApplyNext(trace: MutableTrace, cfg: Config, generate: GenerateMutator, rand: Rand,
                   ghost gen: Generator, ghost steps: seq<Step>, ghost pos: nat, ghost run0: seq<Event>)
    returns (outcome: bool, ghost run: seq<Event>)
    requires generate.Valid() && generate.signature == cfg.signature && gen.Valid(cfg.signature)
    requires (run0, trace.steps, generate.State(), |rand.drawn|) == RunBy(cfg, gen, steps, |run0|, rand.raw, pos)
    modifies trace`steps, generate, rand
    ensures generate.Valid() && |run| == |run0| + 1
    ensures (run, trace.steps, generate.State(), |rand.drawn|) == RunBy(cfg, gen, steps, |run|, rand.raw, pos)
    ensures Effective(run) <==> Effective(run0) || outcome
  {
    ghost var s, g, p := trace.steps, generate.State(), |rand.drawn|;
    ghost var e;
    outcome, e := ApplyOne(trace, cfg, generate, rand);
    RunByExtends(cfg, gen, steps, rand.raw, pos, run0, s, g, p, e);
    EffectiveStep(run0, e);
    run := run0 + [e];
  }

  /** One mutator out of the seven, in the order `trace_mutations` lists them. */
  method ApplyOne(trace: MutableTrace, cfg: Config, generate: GenerateMutator, rand: Rand)
    returns (outcome: bool, ghost e: Event)
    requires generate.Valid() && generate.signature == cfg.signature
    modifies trace`steps, generate, rand
    ensures generate.Valid()
    ensures Enabled(cfg, old(trace.steps), e) && trace.steps == Apply(cfg, old(trace.steps), e)
    ensures (e, generate.State(), |rand.drawn|)
            == EventBy(cfg, old(generate.State()), old(trace.steps), rand.raw, |old(rand.drawn)|)
    ensures outcome == !e.Skipped?
  {
    var index := rand.Below(7);
    match index {
      case 0 => outcome, e := Repeat(trace, cfg, rand);
      case 1 => outcome, e := Skip(trace, cfg, rand);
      case 2 => outcome, e := ReplaceReuse(trace, cfg, rand);
      case 3 => outcome, e := ReplaceMatch(trace, cfg, rand);
      case 4 => outcome, e := RemoveAndLift(trace, cfg, rand);
      case 5 => outcome, e := generate.Mutate(trace, cfg, rand);
      case _ => outcome, e := Swap(trace, cfg, rand);
    }
  }
}
