/**
 What the scheduler can do at all: the transitions that some random source brings about,
 and the runs made of them, characterised exactly.
 */
module Possibilities {
  import opened Wrappers
  import opened Terms
  import opened Traces
  import opened Sampling
  import opened Signatures
  import opened Zoo
  import opened Randomness
  import opened Drawing
  import opened Mutations
  import opened Choices

  // ------------------------------------------------------------------ places and events

  /** The raw draws after which index `k` out of `n` is left in the reservoir. */
  ghost function PickingDraws(n: nat, k: nat): (r: seq<nat>)
    requires k < n
    ensures |r| == n - 1
  {
    seq(n - 1, i => if i + 1 == k then 0 else 1)
  }

  lemma {:induction false} PickingDrawsPick(raw: nat -> nat, pos: nat, n: nat, k: nat, draws: seq<nat>)
    requires k < n == |draws| + 1 && Reads(raw, pos, draws)
    requires forall i :: 0 <= i < |draws| ==> draws[i] == if i + 1 == k then 0 else 1
    ensures Picked(TapeFrom(raw, pos, n), n) == k
    decreases n
  {
    if n > 1 {
      assert raw(pos + (n - 2)) == draws[n - 2];
      assert TapeFrom(raw, pos, n)[..n - 2] == TapeFrom(raw, pos, n - 1);
      if k < n - 1 {
        PickingDrawsPick(raw, pos, n - 1, k, draws[..n - 2]);
      }
    }
  }

  ghost function IndexIn<T(!new)>(xs: seq<T>, x: T): (i: nat)
    requires x in xs
    ensures i < |xs| && xs[i] == x
  {
    var i :| 0 <= i < |xs| && xs[i] == x; i
  }

  /** With these draws the sampler returns the place `at`. */
  ghost predicate SampleLeads(steps: seq<Step>, f: Filter, c: TermConstraints, at: TracePath, draws: seq<nat>)
    requires TermAt(steps, at).Some?
  {
    forall raw: nat -> nat, pos: nat {:trigger Reads(raw, pos, draws)} :: Reads(raw, pos, draws) ==>
      Sample(steps, f, c, raw, pos) == (Some(Position(TermAt(steps, at).value, at)), pos + |draws|)
  }

  lemma SampleCanHappen(steps: seq<Step>, f: Filter, c: TermConstraints, at: TracePath) returns (draws: seq<nat>)
    requires Choosable(steps, c, at) && f(TermAt(steps, at).value)
    ensures SampleLeads(steps, f, c, at, draws)
  {
    var ps, p := Eligible(steps, f, c), Position(TermAt(steps, at).value, at);
    EligibleExact(steps, f, c, p);
    var k := IndexIn(ps, p);
    draws := PickingDraws(|ps|, k);
    forall raw: nat -> nat, pos: nat | Reads(raw, pos, draws)
      ensures Sample(steps, f, c, raw, pos) == (Some(p), pos + |draws|)
    {
      PickingDrawsPick(raw, pos, |ps|, k, draws);
    }
  }

  ghost predicate Schedulable(e: Event) {
    !e.Skipped? && !e.Generated?
  }

  /** The number of the mutator that performs an event. */
  ghost function MutatorOf(e: Event): nat
    requires Schedulable(e)
  {
    match e
    case StepRepeated(_, _) => 0
    case StepRemoved(_) => 1
    case Reused(_, _) => 2
    case Matched(_, _) => 3
    case Lifted(_, _, _) => 4
    case Swapped(_, _) => 6
  }

  /** With these draws the mutator of this number performs the event. */
  ghost predicate PlainLeads(index: nat, cfg: Config, steps: seq<Step>, e: Event, draws: seq<nat>) {
    forall raw: nat -> nat, pos: nat {:trigger Reads(raw, pos, draws)} :: Reads(raw, pos, draws) ==>
      PlainBy(index, cfg, steps, raw, pos) == (e, pos + |draws|)
  }

  ghost predicate PairLeads(cfg: Config, steps: seq<Step>, a: TracePath, b: TracePath, draws: seq<nat>) {
    forall raw: nat -> nat, pos: nat {:trigger Reads(raw, pos, draws)} :: Reads(raw, pos, draws) ==>
      PairBy(cfg, steps, raw, pos) == (Some((a, b)), pos + |draws|)
  }

  lemma PairCanHappen(cfg: Config, steps: seq<Step>, a: TracePath, b: TracePath) returns (draws: seq<nat>)
    requires var c := cfg.constraints; Choosable(steps, c, a) && Choosable(steps, c, b)
    requires TypeOf(TermAt(steps, b).value) == TypeOf(TermAt(steps, a).value)
    ensures PairLeads(cfg, steps, a, b, draws)
  {
    var typ := TypeOf(TermAt(steps, a).value);
    var first := SampleCanHappen(steps, Anything(), cfg.constraints, a);
    var second := SampleCanHappen(steps, OfType(typ), cfg.constraints, b);
    draws := first + second;
    forall raw: nat -> nat, pos: nat | Reads(raw, pos, draws)
      ensures PairBy(cfg, steps, raw, pos) == (Some((a, b)), pos + |draws|)
    {
      PairAt(cfg, steps, a, b, first, second, raw, pos);
    }
  }

  lemma PairAt(cfg: Config, steps: seq<Step>, a: TracePath, b: TracePath, first: seq<nat>, second: seq<nat>,
               raw: nat -> nat, pos: nat)
    requires TermAt(steps, a).Some? && TermAt(steps, b).Some? && Reads(raw, pos, first + second)
    requires SampleLeads(steps, Anything(), cfg.constraints, a, first)
    requires SampleLeads(steps, OfType(TypeOf(TermAt(steps, a).value)), cfg.constraints, b, second)
    ensures PairBy(cfg, steps, raw, pos) == (Some((a, b)), pos + |first + second|)
  {
    ReadsSplit(raw, pos, first, second);
    PairFrom(cfg, steps, Position(TermAt(steps, a).value, a), Position(TermAt(steps, b).value, b),
             raw, pos, pos + |first|, pos + |first| + |second|);
  }

  lemma PairFrom(cfg: Config, steps: seq<Step>, a: Position, b: Position, raw: nat -> nat, pos: nat, p: nat, p': nat)
    requires Sample(steps, Anything(), cfg.constraints, raw, pos) == (Some(a), p)
    requires Sample(steps, OfType(TypeOf(a.term)), cfg.constraints, raw, p) == (Some(b), p')
    ensures PairBy(cfg, steps, raw, pos) == (Some((a.at, b.at)), p')
  {
  }

  lemma PairServes(cfg: Config, steps: seq<Step>, e: Event, a: TracePath, b: TracePath, draws: seq<nat>)
    requires e == Swapped(a, b) || e == Reused(a, b)
    requires PairLeads(cfg, steps, a, b, draws)
    ensures PlainLeads(MutatorOf(e), cfg, steps, e, draws)
  {
  }

  ghost predicate MatchLeads(cfg: Config, steps: seq<Step>, e: Event, draws: seq<nat>) {
    forall raw: nat -> nat, pos: nat {:trigger Reads(raw, pos, draws)} :: Reads(raw, pos, draws) ==>
      MatchBy(cfg, steps, raw, pos) == (e, pos + |draws|)
  }

  lemma MatchServes(cfg: Config, steps: seq<Step>, e: Event, draws: seq<nat>)
    requires e.Matched? && MatchLeads(cfg, steps, e, draws)
    ensures PlainLeads(MutatorOf(e), cfg, steps, e, draws)
  {
  }

  lemma MatchCanHappen(cfg: Config, steps: seq<Step>, e: Event) returns (draws: seq<nat>)
    requires e.Matched? && Enabled(cfg, steps, e)
    ensures MatchLeads(cfg, steps, e, draws)
  {
    var t, fs := TermAt(steps, e.at).value, cfg.signature.functions;
    KeptExact(fs, Fitting(t), e.func);
    var first := SampleCanHappen(steps, Anything(), cfg.constraints, e.at);
    var k := IndexIn(Kept(fs, Fitting(t)), e.func);
    draws := first + [k];
    forall raw: nat -> nat, pos: nat | Reads(raw, pos, draws)
      ensures MatchBy(cfg, steps, raw, pos) == (e, pos + |draws|)
    {
      MatchAt(cfg, steps, e, first, k, raw, pos);
    }
  }

  lemma MatchAt(cfg: Config, steps: seq<Step>, e: Event, first: seq<nat>, k: nat, raw: nat -> nat, pos: nat)
    requires e.Matched? && TermAt(steps, e.at).Some? && Reads(raw, pos, first + [k])
    requires SampleLeads(steps, Anything(), cfg.constraints, e.at, first)
    requires var fitting := Kept(cfg.signature.functions, Fitting(TermAt(steps, e.at).value));
             k < |fitting| && fitting[k] == e.func
    ensures MatchBy(cfg, steps, raw, pos) == (e, pos + |first + [k]|)
  {
    ReadsSplit(raw, pos, first, [k]);
    assert raw(pos + |first| + 0) == [k][0];
  }

  ghost predicate LiftLeads(cfg: Config, steps: seq<Step>, e: Event, draws: seq<nat>) {
    forall raw: nat -> nat, pos: nat {:trigger Reads(raw, pos, draws)} :: Reads(raw, pos, draws) ==>
      LiftBy(cfg, steps, raw, pos) == (e, pos + |draws|)
  }

  lemma LiftServes(cfg: Config, steps: seq<Step>, e: Event, draws: seq<nat>)
    requires e.Lifted? && LiftLeads(cfg, steps, e, draws)
    ensures PlainLeads(MutatorOf(e), cfg, steps, e, draws)
  {
  }

  lemma LiftCanHappen(cfg: Config, steps: seq<Step>, e: Event) returns (draws: seq<nat>)
    requires e.Lifted? && Enabled(cfg, steps, e)
    ensures LiftLeads(cfg, steps, e, draws)
  {
    var t, pick := TermAt(steps, e.at).value, GrandSubterm(e.child, e.grandchild);
    GrandSubtermsExact(t.args, pick);
    assert HasOwnType(t.args[e.child]);
    var first := SampleCanHappen(steps, Liftable, cfg.constraints, e.at);
    var k := IndexIn(GrandSubterms(t.args), pick);
    draws := first + [k];
    forall raw: nat -> nat, pos: nat | Reads(raw, pos, draws)
      ensures LiftBy(cfg, steps, raw, pos) == (e, pos + |draws|)
    {
      LiftAt(cfg, steps, e, first, k, raw, pos);
    }
  }

  lemma LiftAt(cfg: Config, steps: seq<Step>, e: Event, first: seq<nat>, k: nat, raw: nat -> nat, pos: nat)
    requires e.Lifted? && Enabled(cfg, steps, e) && Reads(raw, pos, first + [k])
    requires SampleLeads(steps, Liftable, cfg.constraints, e.at, first)
    requires var grand := GrandSubterms(TermAt(steps, e.at).value.args);
             k < |grand| && grand[k] == GrandSubterm(e.child, e.grandchild)
    ensures LiftBy(cfg, steps, raw, pos) == (e, pos + |first + [k]|)
  {
    ReadsSplit(raw, pos, first, [k]);
    assert raw(pos + |first| + 0) == [k][0];
  }

  lemma StepsCanHappen(cfg: Config, steps: seq<Step>, e: Event) returns (draws: seq<nat>)
    requires Enabled(cfg, steps, e) && (e.StepRemoved? || e.StepRepeated?)
    ensures PlainLeads(MutatorOf(e), cfg, steps, e, draws)
  {
    draws := if e.StepRemoved? then [e.index] else [e.insertAt, e.index];
    forall raw: nat -> nat, pos: nat | Reads(raw, pos, draws)
      ensures PlainBy(MutatorOf(e), cfg, steps, raw, pos) == (e, pos + |draws|)
    {
      assert raw(pos + 0) == draws[0];
      assert e.StepRepeated? ==> raw(pos + 1) == draws[1];
    }
  }

  /** Every enabled event of a mutator without a state happens when the random source offers
      the right draws. */
  lemma EventCanHappen(cfg: Config, steps: seq<Step>, e: Event) returns (draws: seq<nat>)
    requires Enabled(cfg, steps, e) && Schedulable(e)
    ensures PlainLeads(MutatorOf(e), cfg, steps, e, draws)
  {
    match e
    case StepRepeated(_, _) => draws := StepsCanHappen(cfg, steps, e);
    case StepRemoved(_) => draws := StepsCanHappen(cfg, steps, e);
    case Reused(source, at) =>
      draws := PairCanHappen(cfg, steps, source, at);
      PairServes(cfg, steps, e, source, at, draws);
    case Matched(_, _) =>
      draws := MatchCanHappen(cfg, steps, e);
      MatchServes(cfg, steps, e, draws);
    case Lifted(_, _, _) =>
      draws := LiftCanHappen(cfg, steps, e);
      LiftServes(cfg, steps, e, draws);
    case Swapped(a, b) =>
      draws := PairCanHappen(cfg, steps, a, b);
      PairServes(cfg, steps, e, a, b, draws);
  }

  // ------------------------------------------------------------------ transitions

  /** The generator makes a new zoo when it next finds a place. */
  ghost predicate Due(gen: Generator)
    requires gen.refreshZooAfter > 0
  {
    gen.zoo.None? || (gen.counter + 1) % gen.refreshZooAfter == 0
  }

  /** What the generator can become when it is about to use its zoo. */
  ghost predicate Stocking(sig: Signature, gen: Generator, gen': Generator)
    requires gen.refreshZooAfter > 0
  {
    && gen'.refreshZooAfter == gen.refreshZooAfter
    && gen'.counter == gen.counter + 1
    && gen'.zoo.Some?
    && if Due(gen) then PossibleZoo(sig.functions, |sig.functions|, gen'.zoo.value) else gen'.zoo == gen.zoo
  }

  /** No definition may stand in place of the head of `t`. */
  ghost predicate NothingFits(cfg: Config, t: Term) {
    forall f :: f in cfg.signature.functions ==> !Fits(t, f)
  }

  /** Some mutator without a state can skip: the trace is too short to remove a step or too
      long to repeat one, some place has a head that nothing can replace, or no place
      allows a lift, which is so if no place can be chosen at all. */
  ghost predicate CanSkip(cfg: Config, s: seq<Step>) {
    || |s| <= cfg.minTraceLength
    || |s| >= cfg.maxTraceLength
    || (exists at :: Choosable(s, cfg.constraints, at) && NothingFits(cfg, TermAt(s, at).value))
    || (forall at :: Choosable(s, cfg.constraints, at) ==> !Liftable(TermAt(s, at).value))
  }

  ghost predicate Lacks(zoo: seq<Term>, typ: TypeId) {
    forall t :: t in zoo ==> TypeOf(t) != typ
  }

  /** What one scheduled mutation can do to steps and generator. */
  ghost predicate Transition(cfg: Config, gen: Generator, s: seq<Step>, e: Event, gen': Generator)
    requires gen.refreshZooAfter > 0
  {
    match e
    case Generated(at, t) =>
      && Choosable(s, cfg.constraints, at) && TypeOf(TermAt(s, at).value) == TypeOf(t)
      && Stocking(cfg.signature, gen, gen') && t in gen'.zoo.value
    case Skipped =>
      || (gen' == gen && CanSkip(cfg, s))
      || (Stocking(cfg.signature, gen, gen') && exists at :: Choosable(s, cfg.constraints, at)
                                                            && Lacks(gen'.zoo.value, TypeOf(TermAt(s, at).value)))
    case _ => Enabled(cfg, s, e) && gen' == gen
  }

  lemma StockingKeepsValid(sig: Signature, gen: Generator, gen': Generator)
    requires gen.Valid(sig) && Stocking(sig, gen, gen')
    ensures gen'.Valid(sig)
  {
    if Due(gen) {
      PossibleZooSound(sig.functions, |sig.functions|, gen'.zoo.value);
    }
  }

  /** Transitions perform enabled events and keep the generator valid. */
  lemma TransitionEnabled(cfg: Config, gen: Generator, s: seq<Step>, e: Event, gen': Generator)
    requires gen.Valid(cfg.signature) && Transition(cfg, gen, s, e, gen')
    ensures Enabled(cfg, s, e) && gen'.Valid(cfg.signature)
  {
    if gen' != gen {
      StockingKeepsValid(cfg.signature, gen, gen');
    }
  }

  // ------------------------------------------------------------------ nothing else happens

  lemma StockedIsStocking(sig: Signature, gen: Generator, raw: nat -> nat, pos: nat)
    requires gen.Valid(sig)
    ensures Stocking(sig, gen, Stocked(sig, gen, raw, pos).0)
  {
    var defs := sig.functions;
    assert defs[..|defs|] == defs;
    ZooPossible(defs, |defs|, raw, pos);
  }

  lemma PickIsPossible(sig: Signature, gen: Generator, typ: TypeId, raw: nat -> nat, pos: nat)
    requires gen.Valid(sig)
    ensures var (t, gen', _) := PickBy(sig, gen, typ, raw, pos);
            && Stocking(sig, gen, gen')
            && (if t.Some? then t.value in gen'.zoo.value && TypeOf(t.value) == typ else Lacks(gen'.zoo.value, typ))
  {
    StockedIsStocking(sig, gen, raw, pos);
    var (gen', p) := Stocked(sig, gen, raw, pos);
    var zoo := gen'.zoo.value;
    var fitting := Kept(zoo, OfType(typ));
    if fitting != [] {
      KeptExact(zoo, OfType(typ), fitting[Draw(raw, p, |fitting|)]);
    } else {
      forall t | t in zoo
        ensures TypeOf(t) != typ
      {
        KeptExact(zoo, OfType(typ), t);
      }
    }
  }

  lemma GenerateIsTransition(cfg: Config, gen: Generator, s: seq<Step>, raw: nat -> nat, pos: nat)
    requires gen.Valid(cfg.signature)
    ensures var (e, gen', _) := GenerateBy(cfg, gen, s, raw, pos); Transition(cfg, gen, s, e, gen')
  {
    SampleQualifies(s, Anything(), cfg.constraints, raw, pos);
    var (r, p) := Sample(s, Anything(), cfg.constraints, raw, pos);
    if r.Some? {
      PickIsPossible(cfg.signature, gen, TypeOf(r.value.term), raw, p);
    }
  }

  lemma MatchSkips(cfg: Config, s: seq<Step>, raw: nat -> nat, pos: nat)
    requires MatchBy(cfg, s, raw, pos).0.Skipped?
    ensures CanSkip(cfg, s)
  {
    SampleQualifies(s, Anything(), cfg.constraints, raw, pos);
    var r := Sample(s, Anything(), cfg.constraints, raw, pos).0;
    if r.Some? {
      forall f | f in cfg.signature.functions
        ensures !Fits(r.value.term, f)
      {
        KeptExact(cfg.signature.functions, Fitting(r.value.term), f);
      }
    }
  }

  /** A mutator without a state skips only if it can, and performs no generation. */
  lemma PlainSkips(index: nat, cfg: Config, s: seq<Step>, raw: nat -> nat, pos: nat)
    ensures var e := PlainBy(index, cfg, s, raw, pos).0; !e.Generated? && (e.Skipped? ==> CanSkip(cfg, s))
  {
    match index
    case 0 =>
    case 1 =>
    case 3 =>
      if MatchBy(cfg, s, raw, pos).0.Skipped? {
        MatchSkips(cfg, s, raw, pos);
      }
    case 4 => LiftSound(cfg, s, raw, pos);
    case _ => PairSound(cfg, s, raw, pos);
  }

  lemma EventIsTransition(cfg: Config, gen: Generator, s: seq<Step>, raw: nat -> nat, pos: nat)
    requires gen.Valid(cfg.signature)
    ensures var (e, gen', _) := EventBy(cfg, gen, s, raw, pos); Transition(cfg, gen, s, e, gen')
  {
    if Draw(raw, pos, 7) == 5 {
      GenerateIsTransition(cfg, gen, s, raw, pos + 1);
    } else {
      PlainSound(Draw(raw, pos, 7), cfg, s, raw, pos + 1);
      PlainSkips(Draw(raw, pos, 7), cfg, s, raw, pos + 1);
    }
  }

  // ------------------------------------------------------------------ skips happen

  lemma NothingSampled(s: seq<Step>, f: Filter, c: TermConstraints, raw: nat -> nat, pos: nat)
    requires forall at :: Choosable(s, c, at) ==> !f(TermAt(s, at).value)
    ensures Sample(s, f, c, raw, pos) == (None, pos)
  {
    SampleQualifies(s, f, c, raw, pos);
  }

  lemma NoLiftLeads(cfg: Config, s: seq<Step>)
    requires forall at :: Choosable(s, cfg.constraints, at) ==> !Liftable(TermAt(s, at).value)
    ensures PlainLeads(4, cfg, s, Skipped, [])
  {
    forall raw: nat -> nat, pos: nat | Reads(raw, pos, [])
      ensures LiftBy(cfg, s, raw, pos) == (Skipped, pos)
    {
      NothingSampled(s, Liftable, cfg.constraints, raw, pos);
    }
  }

  lemma NoMatchLeads(cfg: Config, s: seq<Step>, at: TracePath, draws: seq<nat>)
    requires TermAt(s, at).Some? && SampleLeads(s, Anything(), cfg.constraints, at, draws)
    requires NothingFits(cfg, TermAt(s, at).value)
    ensures PlainLeads(3, cfg, s, Skipped, draws)
  {
    var t, fs := TermAt(s, at).value, cfg.signature.functions;
    if Kept(fs, Fitting(t)) != [] {
      KeptExact(fs, Fitting(t), Kept(fs, Fitting(t))[0]);
    }
    forall raw: nat -> nat, pos: nat | Reads(raw, pos, draws)
      ensures MatchBy(cfg, s, raw, pos) == (Skipped, pos + |draws|)
    {
    }
  }

  lemma LengthSkipLeads(cfg: Config, s: seq<Step>)
    ensures |s| >= cfg.maxTraceLength ==> PlainLeads(0, cfg, s, Skipped, [])
    ensures |s| <= cfg.minTraceLength ==> PlainLeads(1, cfg, s, Skipped, [])
  {
  }

  lemma SkipCanHappen(cfg: Config, s: seq<Step>) returns (index: nat, draws: seq<nat>)
    requires CanSkip(cfg, s)
    ensures index < 5 && PlainLeads(index, cfg, s, Skipped, draws)
  {
    LengthSkipLeads(cfg, s);
    if |s| >= cfg.maxTraceLength {
      index, draws := 0, [];
    } else if |s| <= cfg.minTraceLength {
      index, draws := 1, [];
    } else if at :| Choosable(s, cfg.constraints, at) && NothingFits(cfg, TermAt(s, at).value) {
      index := 3;
      draws := SampleCanHappen(s, Anything(), cfg.constraints, at);
      NoMatchLeads(cfg, s, at, draws);
    } else {
      index, draws := 4, [];
      NoLiftLeads(cfg, s);
    }
  }

  // ------------------------------------------------------------------ generation happens

  /** With these draws the generator becomes `gen'`. */
  ghost predicate StockLeads(sig: Signature, gen: Generator, gen': Generator, draws: seq<nat>)
    requires gen.refreshZooAfter > 0
  {
    forall raw: nat -> nat, pos: nat {:trigger Reads(raw, pos, draws)} :: Reads(raw, pos, draws) ==>
      Stocked(sig, gen, raw, pos) == (gen', pos + |draws|)
  }

  lemma StockCanHappen(sig: Signature, gen: Generator, gen': Generator) returns (draws: seq<nat>)
    requires gen.Valid(sig) && Stocking(sig, gen, gen')
    ensures StockLeads(sig, gen, gen', draws)
  {
    var defs := sig.functions;
    if Due(gen) {
      assert defs[..|defs|] == defs;
      draws := ZooCanBe(defs, |defs|, gen'.zoo.value);
      ZooServes(sig, gen, gen', draws);
    } else {
      draws := [];
    }
  }

  lemma ZooServes(sig: Signature, gen: Generator, gen': Generator, draws: seq<nat>)
    requires gen.refreshZooAfter > 0 && Due(gen) && gen'.zoo.Some?
    requires gen' == Generator(gen.refreshZooAfter, gen.counter + 1, gen'.zoo)
    requires ZooLeads(sig, sig.functions, gen'.zoo.value, draws)
    ensures StockLeads(sig, gen, gen', draws)
  {
  }

  /** With these draws the generator, then `gen'`, hands out `t`, or nothing. */
  ghost predicate PickLeads(sig: Signature, gen: Generator, typ: TypeId, t: Option<Term>, gen': Generator, draws: seq<nat>)
    requires gen.refreshZooAfter > 0
  {
    forall raw: nat -> nat, pos: nat {:trigger Reads(raw, pos, draws)} :: Reads(raw, pos, draws) ==>
      PickBy(sig, gen, typ, raw, pos) == (t, gen', pos + |draws|)
  }

  lemma PickCanHappen(sig: Signature, gen: Generator, typ: TypeId, t: Option<Term>, gen': Generator) returns (draws: seq<nat>)
    requires gen.Valid(sig) && Stocking(sig, gen, gen')
    requires if t.Some? then t.value in gen'.zoo.value && TypeOf(t.value) == typ else Lacks(gen'.zoo.value, typ)
    ensures PickLeads(sig, gen, typ, t, gen', draws)
  {
    var zoo := gen'.zoo.value;
    var front := StockCanHappen(sig, gen, gen');
    if t.Some? {
      KeptExact(zoo, OfType(typ), t.value);
      var k := IndexIn(Kept(zoo, OfType(typ)), t.value);
      draws := front + [k];
      PickServes(sig, gen, typ, t.value, k, gen', front);
    } else {
      draws := front;
      LackServes(sig, gen, typ, gen', front);
    }
  }

  lemma PickServes(sig: Signature, gen: Generator, typ: TypeId, t: Term, k: nat, gen': Generator, front: seq<nat>)
    requires gen.refreshZooAfter > 0 && gen'.zoo.Some? && StockLeads(sig, gen, gen', front)
    requires var fitting := Kept(gen'.zoo.value, OfType(typ)); k < |fitting| && fitting[k] == t
    ensures PickLeads(sig, gen, typ, Some(t), gen', front + [k])
  {
    var draws := front + [k];
    forall raw: nat -> nat, pos: nat | Reads(raw, pos, draws)
      ensures PickBy(sig, gen, typ, raw, pos) == (Some(t), gen', pos + |draws|)
    {
      ReadsSplit(raw, pos, front, [k]);
      assert raw(pos + |front| + 0) == [k][0];
      PickFrom(sig, gen, typ, t, k, gen', raw, pos, pos + |front|);
    }
  }

  lemma PickFrom(sig: Signature, gen: Generator, typ: TypeId, t: Term, k: nat, gen': Generator,
                 raw: nat -> nat, pos: nat, p: nat)
    requires gen.refreshZooAfter > 0 && gen'.zoo.Some? && Stocked(sig, gen, raw, pos) == (gen', p) && raw(p) == k
    requires var fitting := Kept(gen'.zoo.value, OfType(typ)); k < |fitting| && fitting[k] == t
    ensures PickBy(sig, gen, typ, raw, pos) == (Some(t), gen', p + 1)
  {
  }

  lemma LackServes(sig: Signature, gen: Generator, typ: TypeId, gen': Generator, draws: seq<nat>)
    requires gen.refreshZooAfter > 0 && gen'.zoo.Some? && StockLeads(sig, gen, gen', draws)
    requires Lacks(gen'.zoo.value, typ)
    ensures PickLeads(sig, gen, typ, None, gen', draws)
  {
    var zoo := gen'.zoo.value;
    if Kept(zoo, OfType(typ)) != [] {
      KeptExact(zoo, OfType(typ), Kept(zoo, OfType(typ))[0]);
    }
    forall raw: nat -> nat, pos: nat | Reads(raw, pos, draws)
      ensures PickBy(sig, gen, typ, raw, pos) == (None, gen', pos + |draws|)
    {
      LackFrom(sig, gen, typ, gen', raw, pos, pos + |draws|);
    }
  }

  lemma LackFrom(sig: Signature, gen: Generator, typ: TypeId, gen': Generator, raw: nat -> nat, pos: nat, p: nat)
    requires gen.refreshZooAfter > 0 && gen'.zoo.Some? && Stocked(sig, gen, raw, pos) == (gen', p)
    requires Kept(gen'.zoo.value, OfType(typ)) == []
    ensures PickBy(sig, gen, typ, raw, pos) == (None, gen', p)
  {
  }

  /** With these draws the scheduler performs the event and leaves the generator `gen'`. */
  ghost predicate EventLeads(cfg: Config, gen: Generator, steps: seq<Step>, e: Event, gen': Generator, draws: seq<nat>)
    requires gen.refreshZooAfter > 0
  {
    forall raw: nat -> nat, pos: nat {:trigger Reads(raw, pos, draws)} :: Reads(raw, pos, draws) ==>
      EventBy(cfg, gen, steps, raw, pos) == (e, gen', pos + |draws|)
  }

  ghost function GenerateEvent(at: TracePath, t: Option<Term>): Event {
    if t.None? then Skipped else Generated(at, t.value)
  }

  /** Whatever zoo the generator can have, every term of the place's type in it can be
      drawn, and if there is none the mutation is skipped. */
  lemma GenerationCanHappen(cfg: Config, gen: Generator, steps: seq<Step>, at: TracePath, t: Option<Term>, gen': Generator)
    returns (draws: seq<nat>)
    requires gen.Valid(cfg.signature) && Choosable(steps, cfg.constraints, at) && Stocking(cfg.signature, gen, gen')
    requires var zoo, typ := gen'.zoo.value, TypeOf(TermAt(steps, at).value);
             if t.Some? then t.value in zoo && TypeOf(t.value) == typ else Lacks(zoo, typ)
    ensures EventLeads(cfg, gen, steps, GenerateEvent(at, t), gen', draws)
  {
    var first := SampleCanHappen(steps, Anything(), cfg.constraints, at);
    var second := PickCanHappen(cfg.signature, gen, TypeOf(TermAt(steps, at).value), t, gen');
    draws := [5] + (first + second);
    GenerationServes(cfg, gen, steps, at, t, gen', first, second);
  }

  lemma GenerationServes(cfg: Config, gen: Generator, steps: seq<Step>, at: TracePath, t: Option<Term>, gen': Generator,
                         first: seq<nat>, second: seq<nat>)
    requires gen.refreshZooAfter > 0 && TermAt(steps, at).Some?
    requires SampleLeads(steps, Anything(), cfg.constraints, at, first)
    requires PickLeads(cfg.signature, gen, TypeOf(TermAt(steps, at).value), t, gen', second)
    ensures EventLeads(cfg, gen, steps, GenerateEvent(at, t), gen', [5] + (first + second))
  {
    var term, typ := TermAt(steps, at).value, TypeOf(TermAt(steps, at).value);
    var sample, pick := SampleChoice(steps, cfg.constraints), PickChoice(cfg.signature, gen, typ);
    var generate, e := GenerateChoice(cfg, gen, steps), GenerateEvent(at, t);
    SampleLeadsToo(steps, cfg.constraints, at, first);
    PickLeadsToo(cfg.signature, gen, typ, t, gen', second);
    GenerateCombines(cfg, gen, steps, Position(term, at), t, gen');
    LeadsBoth(generate, sample, Some(Position(term, at)), pick, (t, gen'), (e, gen'), first, second);
    EventSelectsGenerate(cfg, gen, steps);
    LeadsAfterDraw(EventChoice(cfg, gen, steps), 5, generate, (e, gen'), first + second);
    EventLeadsToo(cfg, gen, steps, e, gen', [5] + (first + second));
  }

  ghost function SampleChoice(steps: seq<Step>, c: TermConstraints): Choice<Option<Position>> {
    (raw, pos) => Sample(steps, Anything(), c, raw, pos)
  }

  ghost function PickChoice(sig: Signature, gen: Generator, typ: TypeId): Choice<(Option<Term>, Generator)>
    requires gen.refreshZooAfter > 0
  {
    (raw, pos) => var (t, gen', p) := PickBy(sig, gen, typ, raw, pos); ((t, gen'), p)
  }

  ghost function GenerateChoice(cfg: Config, gen: Generator, steps: seq<Step>): Choice<(Event, Generator)>
    requires gen.refreshZooAfter > 0
  {
    (raw, pos) => var (e, gen', p) := GenerateBy(cfg, gen, steps, raw, pos); ((e, gen'), p)
  }

  lemma SampleLeadsToo(steps: seq<Step>, c: TermConstraints, at: TracePath, draws: seq<nat>)
    requires TermAt(steps, at).Some? && SampleLeads(steps, Anything(), c, at, draws)
    ensures Leads(SampleChoice(steps, c), Some(Position(TermAt(steps, at).value, at)), draws)
  {
  }

  lemma PickLeadsToo(sig: Signature, gen: Generator, typ: TypeId, t: Option<Term>, gen': Generator, draws: seq<nat>)
    requires gen.refreshZooAfter > 0 && PickLeads(sig, gen, typ, t, gen', draws)
    ensures Leads(PickChoice(sig, gen, typ), (t, gen'), draws)
  {
  }

  lemma GenerateCombines(cfg: Config, gen: Generator, steps: seq<Step>, at: Position, t: Option<Term>, gen': Generator)
    requires gen.refreshZooAfter > 0
    ensures Combines(GenerateChoice(cfg, gen, steps), SampleChoice(steps, cfg.constraints), Some(at),
                     PickChoice(cfg.signature, gen, TypeOf(at.term)), (t, gen'), (GenerateEvent(at.at, t), gen'))
  {
  }

  lemma EventSelectsGenerate(cfg: Config, gen: Generator, steps: seq<Step>)
    requires gen.refreshZooAfter > 0
    ensures Selects(EventChoice(cfg, gen, steps), 5, GenerateChoice(cfg, gen, steps))
  {
  }

  lemma PlainServes(index: nat, cfg: Config, gen: Generator, steps: seq<Step>, e: Event, draws: seq<nat>)
    requires gen.refreshZooAfter > 0 && index < 7 && index != 5 && PlainLeads(index, cfg, steps, e, draws)
    ensures EventLeads(cfg, gen, steps, e, gen, [index] + draws)
  {
    PlainLeadsToo(index, cfg, gen, steps, e, draws);
    EventSelects(index, cfg, gen, steps);
    LeadsAfterDraw(EventChoice(cfg, gen, steps), index, PlainChoice(index, cfg, gen, steps), (e, gen), draws);
    EventLeadsToo(cfg, gen, steps, e, gen, [index] + draws);
  }

  ghost function EventChoice(cfg: Config, gen: Generator, steps: seq<Step>): Choice<(Event, Generator)>
    requires gen.refreshZooAfter > 0
  {
    (raw, pos) => var (e, gen', p) := EventBy(cfg, gen, steps, raw, pos); ((e, gen'), p)
  }

  ghost function PlainChoice(index: nat, cfg: Config, gen: Generator, steps: seq<Step>): Choice<(Event, Generator)> {
    (raw, pos) => var (e, p) := PlainBy(index, cfg, steps, raw, pos); ((e, gen), p)
  }

  lemma EventSelects(index: nat, cfg: Config, gen: Generator, steps: seq<Step>)
    requires gen.refreshZooAfter > 0 && index < 7 && index != 5
    ensures Selects(EventChoice(cfg, gen, steps), index, PlainChoice(index, cfg, gen, steps))
  {
  }

  lemma PlainLeadsToo(index: nat, cfg: Config, gen: Generator, steps: seq<Step>, e: Event, draws: seq<nat>)
    requires PlainLeads(index, cfg, steps, e, draws)
    ensures Leads(PlainChoice(index, cfg, gen, steps), (e, gen), draws)
  {
  }

  lemma EventLeadsToo(cfg: Config, gen: Generator, steps: seq<Step>, e: Event, gen': Generator, draws: seq<nat>)
    requires gen.refreshZooAfter > 0
    ensures EventLeads(cfg, gen, steps, e, gen', draws) <==> Leads(EventChoice(cfg, gen, steps), (e, gen'), draws)
  {
  }

  // ------------------------------------------------------------------ every transition happens

  lemma TransitionCanHappen(cfg: Config, gen: Generator, s: seq<Step>, e: Event, gen': Generator) returns (draws: seq<nat>)
    requires gen.Valid(cfg.signature) && Transition(cfg, gen, s, e, gen')
    ensures EventLeads(cfg, gen, s, e, gen', draws)
  {
    if e.Generated? {
      draws := GenerationCanHappen(cfg, gen, s, e.at, Some(e.term), gen');
    } else if e.Skipped? {
      if gen' == gen && CanSkip(cfg, s) {
        var index, own := SkipCanHappen(cfg, s);
        PlainServes(index, cfg, gen, s, e, own);
        draws := [index] + own;
      } else {
        var at :| Choosable(s, cfg.constraints, at) && Lacks(gen'.zoo.value, TypeOf(TermAt(s, at).value));
        draws := GenerationCanHappen(cfg, gen, s, at, None, gen');
      }
    } else {
      var own := EventCanHappen(cfg, s, e);
      PlainServes(MutatorOf(e), cfg, gen, s, e, own);
      draws := [MutatorOf(e)] + own;
    }
  }

  ghost predicate Performs(cfg: Config, gen: Generator, s: seq<Step>, e: Event, gen': Generator, raw: nat -> nat, pos: nat)
    requires gen.refreshZooAfter > 0
  {
    var (e', g, _) := EventBy(cfg, gen, s, raw, pos);
    e' == e && g == gen'
  }

  /** One scheduled mutation, skips and generation included: exactly the transitions happen. */
  lemma TransitionsExact(cfg: Config, gen: Generator, s: seq<Step>, e: Event, gen': Generator)
    requires gen.Valid(cfg.signature)
    ensures (exists raw, pos :: Performs(cfg, gen, s, e, gen', raw, pos)) <==> Transition(cfg, gen, s, e, gen')
  {
    if Transition(cfg, gen, s, e, gen') {
      var draws := TransitionCanHappen(cfg, gen, s, e, gen');
      var raw := Offering(draws, 0);
      assert Performs(cfg, gen, s, e, gen', raw, 0);
    }
    forall raw: nat -> nat, pos | Performs(cfg, gen, s, e, gen', raw, pos)
      ensures Transition(cfg, gen, s, e, gen')
    {
      EventIsTransition(cfg, gen, s, raw, pos);
    }
  }

  // ------------------------------------------------------------------ runs

  /** The run is a sequence of transitions that leads the generator from `gen` to `gen'`. */
  ghost predicate Possible(cfg: Config, gen: Generator, steps: seq<Step>, run: seq<Event>, gen': Generator)
    decreases |run|
  {
    if run == [] then gen' == gen
    else
      var n := |run| - 1;
      var s := After(cfg, steps, run[..n]);
      s.Some? && exists mid :: Possible(cfg, gen, steps, run[..n], mid) && mid.refreshZooAfter > 0
                               && Transition(cfg, mid, s.value, run[n], gen')
  }

  /** Such runs are runs of enabled events, so what holds of all of those holds of them. */
  lemma {:induction false} PossibleRunsAreRuns(cfg: Config, gen: Generator, steps: seq<Step>, run: seq<Event>, gen': Generator)
    requires gen.Valid(cfg.signature) && Possible(cfg, gen, steps, run, gen')
    ensures After(cfg, steps, run).Some? && gen'.Valid(cfg.signature)
    decreases |run|
  {
    if run != [] {
      var n := |run| - 1;
      var s := After(cfg, steps, run[..n]).value;
      var mid :| Possible(cfg, gen, steps, run[..n], mid) && mid.refreshZooAfter > 0 && Transition(cfg, mid, s, run[n], gen');
      PossibleRunsAreRuns(cfg, gen, steps, run[..n], mid);
      TransitionEnabled(cfg, mid, s, run[n], gen');
    }
  }

  /** The scheduler as a machine over the steps and the generator. */
  ghost function Scheduler(cfg: Config): Machine<(seq<Step>, Generator), Event> {
    Machine((s: (seq<Step>, Generator), raw, pos) => Schedule(cfg, s, raw, pos))
  }

  ghost function Schedule(cfg: Config, s: (seq<Step>, Generator), raw: nat -> nat, pos: nat)
    : (Event, (seq<Step>, Generator), nat)
  {
    if s.1.refreshZooAfter == 0 then (Skipped, s, pos)
    else
      var (e, gen, p) := EventBy(cfg, s.1, s.0, raw, pos);
      (e, (if Enabled(cfg, s.0, e) then Apply(cfg, s.0, e) else s.0, gen), p)
  }

  lemma {:induction false} RunByIsRoll(cfg: Config, gen: Generator, steps: seq<Step>, n: nat, raw: nat -> nat, pos: nat)
    requires gen.Valid(cfg.signature)
    ensures var r := RunBy(cfg, gen, steps, n, raw, pos);
            Roll(Scheduler(cfg), (steps, gen), n, raw, pos) == (r.0, (r.1, r.2), r.3)
  {
    if n > 0 {
      RunByIsRoll(cfg, gen, steps, n - 1, raw, pos);
      var (run, s, g, p) := RunBy(cfg, gen, steps, n - 1, raw, pos);
      EventSound(cfg, g, s, raw, p);
    }
  }

  lemma EventServes(cfg: Config, gen: Generator, s: seq<Step>, e: Event, gen': Generator, draws: seq<nat>)
    requires gen.refreshZooAfter > 0 && Enabled(cfg, s, e) && EventLeads(cfg, gen, s, e, gen', draws)
    ensures StepLeads(Scheduler(cfg), (s, gen), e, (Apply(cfg, s, e), gen'), draws)
  {
  }

  /** Every possible run happens. */
  lemma {:induction false} RunCanHappen(cfg: Config, gen: Generator, steps: seq<Step>, run: seq<Event>, gen': Generator)
    returns (draws: seq<nat>)
    requires gen.Valid(cfg.signature) && Possible(cfg, gen, steps, run, gen')
    ensures After(cfg, steps, run).Some?
    ensures RollLeads(Scheduler(cfg), (steps, gen), run, (After(cfg, steps, run).value, gen'), draws)
    decreases |run|
  {
    PossibleRunsAreRuns(cfg, gen, steps, run, gen');
    if run == [] {
      draws := [];
    } else {
      var n := |run| - 1;
      var s := After(cfg, steps, run[..n]).value;
      var mid :| Possible(cfg, gen, steps, run[..n], mid) && mid.refreshZooAfter > 0 && Transition(cfg, mid, s, run[n], gen');
      PossibleRunsAreRuns(cfg, gen, steps, run[..n], mid);
      var front := RunCanHappen(cfg, gen, steps, run[..n], mid);
      var back := TransitionCanHappen(cfg, mid, s, run[n], gen');
      assert run == run[..n] + [run[n]];
      EventServes(cfg, mid, s, run[n], gen', back);
      RollLeadsStep(Scheduler(cfg), (steps, gen), run[..n], (s, mid), front, run[n], (Apply(cfg, s, run[n]), gen'), back);
      draws := front + back;
    }
  }

  /** Nothing but possible runs happens. */
  lemma {:induction false} RunIsPossible(cfg: Config, gen: Generator, steps: seq<Step>, n: nat, raw: nat -> nat, pos: nat)
    requires gen.Valid(cfg.signature)
    ensures var r := RunBy(cfg, gen, steps, n, raw, pos); Possible(cfg, gen, steps, r.0, r.2)
  {
    if n > 0 {
      var (run, s, mid, p) := RunBy(cfg, gen, steps, n - 1, raw, pos);
      RunIsPossible(cfg, gen, steps, n - 1, raw, pos);
      EventIsTransition(cfg, mid, s, raw, p);
      var (e, gen', _) := EventBy(cfg, mid, s, raw, p);
      PossibleMore(cfg, gen, steps, run, mid, s, e, gen');
    }
  }

  lemma PossibleMore(cfg: Config, gen: Generator, steps: seq<Step>, run: seq<Event>, mid: Generator, s: seq<Step>,
                     e: Event, gen': Generator)
    requires Possible(cfg, gen, steps, run, mid) && mid.refreshZooAfter > 0 && After(cfg, steps, run) == Some(s)
    requires Transition(cfg, mid, s, e, gen')
    ensures Possible(cfg, gen, steps, run + [e], gen')
  {
    var longer := run + [e];
    assert longer[..|longer| - 1] == run && longer[|longer| - 1] == e;
  }

  ghost predicate Schedules(cfg: Config, gen: Generator, steps: seq<Step>, maxMutations: nat, run: seq<Event>,
                            gen': Generator, raw: nat -> nat, pos: nat)
    requires gen.Valid(cfg.signature) && maxMutations > 0
  {
    var r := ScheduledBy(cfg, gen, steps, maxMutations, raw, pos);
    r.0 == run && r.2 == gen'
  }

  /** The runs, skips and generation included, that one call of the scheduler can perform are
      exactly the possible ones below the maximum. */
  lemma ScheduledRunsExact(cfg: Config, gen: Generator, steps: seq<Step>, maxMutations: nat, run: seq<Event>, gen': Generator)
    requires gen.Valid(cfg.signature) && maxMutations > 0
    ensures (exists raw, pos :: Schedules(cfg, gen, steps, maxMutations, run, gen', raw, pos))
            <==> |run| < maxMutations && Possible(cfg, gen, steps, run, gen')
  {
    if |run| < maxMutations && Possible(cfg, gen, steps, run, gen') {
      var raw := ScheduledRunHappens(cfg, gen, steps, maxMutations, run, gen');
    }
    forall raw: nat -> nat, pos: nat | Schedules(cfg, gen, steps, maxMutations, run, gen', raw, pos)
      ensures |run| < maxMutations && Possible(cfg, gen, steps, run, gen')
    {
      RunIsPossible(cfg, gen, steps, Draw(raw, pos, maxMutations), raw, pos + 1);
    }
  }

  lemma ScheduledRunHappens(cfg: Config, gen: Generator, steps: seq<Step>, maxMutations: nat, run: seq<Event>, gen': Generator)
    returns (raw: nat -> nat)
    requires gen.Valid(cfg.signature) && |run| < maxMutations && Possible(cfg, gen, steps, run, gen')
    ensures Schedules(cfg, gen, steps, maxMutations, run, gen', raw, 0)
  {
    var draws := RunCanHappen(cfg, gen, steps, run, gen');
    raw := RollOffered(Scheduler(cfg), (steps, gen), run, (After(cfg, steps, run).value, gen'), draws);
    RunByIsRoll(cfg, gen, steps, |run|, raw, 1);
  }

  // ------------------------------------------------------------------ runs of enabled events that are possible

  ghost function Generations(run: seq<Event>): nat {
    if run == [] then 0 else Generations(run[..|run| - 1]) + if run[|run| - 1].Generated? then 1 else 0
  }

  /** No event is a skip, and each generation comes when a new zoo is due. */
  ghost predicate Fresh(gen: Generator, run: seq<Event>)
    requires gen.refreshZooAfter > 0
  {
    run == [] ||
    var n := |run| - 1;
    && Fresh(gen, run[..n])
    && !run[n].Skipped?
    && (run[n].Generated? ==> || (gen.zoo.None? && Generations(run[..n]) == 0)
                              || (gen.counter + Generations(run[..n]) + 1) % gen.refreshZooAfter == 0)
  }

  /** The generator after a run without skips, as far as it is determined. */
  ghost predicate Progressed(sig: Signature, gen: Generator, run: seq<Event>, gen': Generator) {
    && gen'.Valid(sig)
    && gen'.refreshZooAfter == gen.refreshZooAfter
    && gen'.counter == gen.counter + Generations(run)
    && (gen'.zoo.None? <==> gen.zoo.None? && Generations(run) == 0)
  }

  /** Every run of enabled events without skips is possible, if each generation comes when a
      new zoo is due: whatever its term, there is a zoo that holds it. */
  lemma {:induction false} FreshRunsPossible(cfg: Config, gen: Generator, steps: seq<Step>, run: seq<Event>)
    returns (gen': Generator)
    requires gen.Valid(cfg.signature) && Fresh(gen, run) && After(cfg, steps, run).Some?
    ensures Possible(cfg, gen, steps, run, gen') && Progressed(cfg.signature, gen, run, gen')
  {
    if run == [] {
      gen' := gen;
    } else {
      var n := |run| - 1;
      var e, s := run[n], After(cfg, steps, run[..n]).value;
      var mid := FreshRunsPossible(cfg, gen, steps, run[..n]);
      gen' := FreshTransition(cfg, mid, s, e);
      PossibleMore(cfg, gen, steps, run[..n], mid, s, e, gen');
      assert run == run[..n] + [e];
    }
  }

  lemma FreshTransition(cfg: Config, gen: Generator, s: seq<Step>, e: Event) returns (gen': Generator)
    requires gen.Valid(cfg.signature) && Enabled(cfg, s, e) && !e.Skipped? && (e.Generated? ==> Due(gen))
    ensures Transition(cfg, gen, s, e, gen')
    ensures gen'.Valid(cfg.signature) && gen'.refreshZooAfter == gen.refreshZooAfter
    ensures if e.Generated? then gen'.zoo.Some? && gen'.counter == gen.counter + 1 else gen' == gen
  {
    gen' := gen;
    if e.Generated? {
      var zoo, _ := ZooWith(cfg.signature.functions, e.term);
      gen' := Generator(gen.refreshZooAfter, gen.counter + 1, Some(zoo));
      StockingKeepsValid(cfg.signature, gen, gen');
    }
  }
}
