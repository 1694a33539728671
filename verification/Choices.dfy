/**
 The mutators as functions of the random source: which event each performs, and after
 how many draws.
 */
module Choices {
  import opened Wrappers
  import opened Terms
  import opened Traces
  import opened Sampling
  import opened Signatures
  import opened Zoo
  import opened Randomness
  import opened Mutations

  // ------------------------------------------------------------------ choosing

  function Anything(): Filter {
    t => true
  }

  function OfType(typ: TypeId): Filter {
    t => TypeOf(t) == typ
  }

  /** The filter of RemoveAndLift: some subterm has a subterm of its own type. */
  predicate Liftable(t: Term) {
    t.Application? &&
    exists i :: 0 <= i < |t.args| && HasOwnType(t.args[i])
  }

  predicate HasOwnType(subterm: Term) {
    subterm.Application? && exists g :: 0 <= g < |subterm.args| && TypeOf(subterm) == TypeOf(subterm.args[g])
  }

  /** What the sampler returns, and the number of the next draw. */
  ghost function Sample(steps: seq<Step>, f: Filter, c: TermConstraints, raw: nat -> nat, pos: nat)
    : (Option<Position>, nat)
  {
    var ps := Eligible(steps, f, c);
    var tape := TapeFrom(raw, pos, |ps|);
    (Reservoir(ps, tape), pos + |tape|)
  }

  /** A sampled place qualifies, and nothing is sampled exactly if no place does. */
  lemma SampleQualifies(steps: seq<Step>, f: Filter, c: TermConstraints, raw: nat -> nat, pos: nat)
    ensures var r := Sample(steps, f, c, raw, pos).0;
            && (r.Some? ==> Choosable(steps, c, r.value.at) && TermAt(steps, r.value.at) == Some(r.value.term)
                            && f(r.value.term))
            && (r.None? <==> forall at :: Choosable(steps, c, at) ==> !f(TermAt(steps, at).value))
  {
    var n := |Eligible(steps, f, c)|;
    OfferedTape(raw, pos, n);
    SampleIsFoundAgain(steps, f, c, TapeFrom(raw, pos, n));
  }

  /** The items that pass the filter, in order. */
  function Kept<T>(items: seq<T>, filter: T -> bool): seq<T> {
    if items == [] then []
    else
      var n := |items| - 1;
      Kept(items[..n], filter) + if filter(items[n]) then [items[n]] else []
  }

  lemma {:induction false} KeptExact<T>(items: seq<T>, filter: T -> bool, x: T)
    ensures x in Kept(items, filter) <==> x in items && filter(x)
  {
    if items != [] {
      KeptExact(items[..|items| - 1], filter, x);
    }
  }

  /** The kept items stand in their old order: `ix` lists, ascending, the indices that pass. */
  lemma {:induction false} KeptInOrder<T>(items: seq<T>, filter: T -> bool) returns (ix: seq<nat>)
    ensures |ix| == |Kept(items, filter)|
    ensures forall k :: 0 <= k < |ix| ==> ix[k] < |items| && items[ix[k]] == Kept(items, filter)[k]
    ensures forall j, k :: 0 <= j < k < |ix| ==> ix[j] < ix[k]
    ensures forall i: nat :: i < |items| && filter(items[i]) ==> i in ix
  {
    ix := [];
    if items != [] {
      var n := |items| - 1;
      ix := KeptInOrder(items[..n], filter);
      if filter(items[n]) {
        ix := ix + [n];
      }
    }
  }

  function Fitting(t: Term): Function -> bool {
    f => Fits(t, f)
  }

  datatype GrandSubterm = GrandSubterm(child: nat, grandchild: nat)

  /** The children, before number `g`, of argument number `i` that have its type. */
  function OwnTyped(subterm: Term, i: nat, g: nat): seq<GrandSubterm>
    requires subterm.Application? && g <= |subterm.args|
  {
    if g == 0 then []
    else OwnTyped(subterm, i, g - 1) + if TypeOf(subterm) == TypeOf(subterm.args[g - 1]) then [GrandSubterm(i, g - 1)] else []
  }

  function GrandSubterms(args: seq<Term>): seq<GrandSubterm> {
    if args == [] then []
    else
      var n := |args| - 1;
      GrandSubterms(args[..n]) + if args[n].Application? then OwnTyped(args[n], n, |args[n].args|) else []
  }

  lemma {:induction false} OwnTypedExact(subterm: Term, i: nat, g: nat, x: GrandSubterm)
    requires subterm.Application? && g <= |subterm.args|
    ensures x in OwnTyped(subterm, i, g) <==> x.child == i && x.grandchild < g && LiftsTo(subterm, x.grandchild)
  {
    if g > 0 {
      OwnTypedExact(subterm, i, g - 1, x);
    }
  }

  /** Exactly the grandchildren that have their parent's type are listed. */
  lemma {:induction false} GrandSubtermsExact(args: seq<Term>, x: GrandSubterm)
    ensures x in GrandSubterms(args) <==> x.child < |args| && LiftsTo(args[x.child], x.grandchild)
    ensures x in GrandSubterms(args) <==>
            && x.child < |args| && args[x.child].Application? && x.grandchild < |args[x.child].args|
            && TypeOf(args[x.child]) == TypeOf(args[x.child].args[x.grandchild])
  {
    if args != [] {
      var n := |args| - 1;
      GrandSubtermsExact(args[..n], x);
      if args[n].Application? {
        OwnTypedExact(args[n], n, |args[n].args|, x);
      }
    }
  }

  /** Ascending by child, and for one child ascending by grandchild. */
  ghost predicate Lexicographic(xs: seq<GrandSubterm>) {
    forall j, k :: 0 <= j < k < |xs| ==>
                     xs[j].child < xs[k].child || (xs[j].child == xs[k].child && xs[j].grandchild < xs[k].grandchild)
  }

  lemma {:induction false} OwnTypedInOrder(subterm: Term, i: nat, g: nat)
    requires subterm.Application? && g <= |subterm.args|
    ensures Lexicographic(OwnTyped(subterm, i, g))
    ensures forall x :: x in OwnTyped(subterm, i, g) ==> x.child == i && x.grandchild < g
  {
    if g > 0 {
      OwnTypedInOrder(subterm, i, g - 1);
    }
  }

  /** They are listed child by child, grandchild by grandchild. */
  lemma {:induction false} GrandSubtermsInOrder(args: seq<Term>)
    ensures Lexicographic(GrandSubterms(args))
    ensures forall x :: x in GrandSubterms(args) ==> x.child < |args|
  {
    if args != [] {
      var n := |args| - 1;
      GrandSubtermsInOrder(args[..n]);
      if args[n].Application? {
        OwnTypedInOrder(args[n], n, |args[n].args|);
      }
    }
  }

  // ------------------------------------------------------------------ the mutators

  /** Two places of equal type, as SwapMutator and ReplaceReuseMutator choose them. */
  ghost function PairBy(cfg: Config, steps: seq<Step>, raw: nat -> nat, pos: nat)
    : (Option<(TracePath, TracePath)>, nat)
  {
    var (a, p) := Sample(steps, Anything(), cfg.constraints, raw, pos);
    if a.None? then (None, p)
    else
      var (b, p') := Sample(steps, OfType(TypeOf(a.value.term)), cfg.constraints, raw, p);
      (if b.None? then None else Some((a.value.at, b.value.at)), p')
  }

  ghost function SwapBy(cfg: Config, steps: seq<Step>, raw: nat -> nat, pos: nat): (Event, nat) {
    var (pair, p) := PairBy(cfg, steps, raw, pos);
    (if pair.None? then Skipped else Swapped(pair.value.0, pair.value.1), p)
  }

  ghost function ReuseBy(cfg: Config, steps: seq<Step>, raw: nat -> nat, pos: nat): (Event, nat) {
    var (pair, p) := PairBy(cfg, steps, raw, pos);
    (if pair.None? then Skipped else Reused(pair.value.0, pair.value.1), p)
  }

  ghost function MatchBy(cfg: Config, steps: seq<Step>, raw: nat -> nat, pos: nat): (Event, nat) {
    var (r, p) := Sample(steps, Anything(), cfg.constraints, raw, pos);
    if r.None? then (Skipped, p)
    else
      var fitting := Kept(cfg.signature.functions, Fitting(r.value.term));
      if fitting == [] then (Skipped, p)
      else (Matched(r.value.at, fitting[Draw(raw, p, |fitting|)]), p + 1)
  }

  ghost function LiftBy(cfg: Config, steps: seq<Step>, raw: nat -> nat, pos: nat): (Event, nat) {
    var (r, p) := Sample(steps, Liftable, cfg.constraints, raw, pos);
    if r.None? || r.value.term.Variable? then (Skipped, p)
    else
      var grand := GrandSubterms(r.value.term.args);
      if grand == [] then (Skipped, p)
      else
        var pick := grand[Draw(raw, p, |grand|)];
        (Lifted(r.value.at, pick.child, pick.grandchild), p + 1)
  }

  ghost function SkipBy(cfg: Config, steps: seq<Step>, raw: nat -> nat, pos: nat): (Event, nat) {
    if |steps| <= cfg.minTraceLength then (Skipped, pos)
    else (StepRemoved(Draw(raw, pos, |steps|)), pos + 1)
  }

  ghost function RepeatBy(cfg: Config, steps: seq<Step>, raw: nat -> nat, pos: nat): (Event, nat) {
    if |steps| >= cfg.maxTraceLength || |steps| == 0 then (Skipped, pos)
    else (StepRepeated(Draw(raw, pos, |steps| + 1), Draw(raw, pos + 1, |steps|)), pos + 2)
  }

  /** The state of the generating mutator. */
  datatype Generator = Generator(refreshZooAfter: nat, counter: nat, zoo: Option<seq<Term>>) {
    ghost predicate Valid(sig: Signature) {
      && refreshZooAfter > 0
      && sig == NewSignature(sig.functions)
      && (zoo.Some? ==> AllZoo(sig.functions, zoo.value))
    }
  }

  /** The generator when it is about to use its zoo: it counts, and makes a new zoo if
      there is none or the old one is due. */
  ghost function Stocked(sig: Signature, gen: Generator, raw: nat -> nat, pos: nat): (r: (Generator, nat))
    requires gen.refreshZooAfter > 0
    ensures r.0.zoo.Some? && r.0.refreshZooAfter == gen.refreshZooAfter
  {
    var counter := gen.counter + 1;
    if counter % gen.refreshZooAfter == 0 || gen.zoo.None? then
      var (zoo, p) := ZooOf(sig, sig.functions, raw, pos);
      (Generator(gen.refreshZooAfter, counter, Some(zoo)), p)
    else (gen.(counter := counter), pos)
  }

  lemma StockedValid(sig: Signature, gen: Generator, raw: nat -> nat, pos: nat)
    requires gen.Valid(sig)
    ensures Stocked(sig, gen, raw, pos).0.Valid(sig)
  {
    var defs := sig.functions;
    ZooSound(defs, |defs|, raw, pos);
    assert defs[..|defs|] == defs;
  }

  /** The zoo term of the given type that is drawn, if there is one. */
  ghost function PickBy(sig: Signature, gen: Generator, typ: TypeId, raw: nat -> nat, pos: nat)
    : (r: (Option<Term>, Generator, nat))
    requires gen.refreshZooAfter > 0
    ensures r.1.refreshZooAfter == gen.refreshZooAfter
  {
    var (gen', p) := Stocked(sig, gen, raw, pos);
    var fitting := Kept(gen'.zoo.value, OfType(typ));
    if fitting == [] then (None, gen', p) else (Some(fitting[Draw(raw, p, |fitting|)]), gen', p + 1)
  }

  ghost function GenerateBy(cfg: Config, gen: Generator, steps: seq<Step>, raw: nat -> nat, pos: nat)
    : (r: (Event, Generator, nat))
    requires gen.refreshZooAfter > 0
    ensures r.1.refreshZooAfter == gen.refreshZooAfter
  {
    var (r, p) := Sample(steps, Anything(), cfg.constraints, raw, pos);
    if r.None? then (Skipped, gen, p)
    else
      var (t, gen', p') := PickBy(cfg.signature, gen, TypeOf(r.value.term), raw, p);
      (if t.None? then Skipped else Generated(r.value.at, t.value), gen', p')
  }

  /** One scheduled mutation: a draw for the mutator, in the order `trace_mutations` lists
      the seven, then the draws of that mutator. */
  ghost function EventBy(cfg: Config, gen: Generator, steps: seq<Step>, raw: nat -> nat, pos: nat)
    : (r: (Event, Generator, nat))
    requires gen.refreshZooAfter > 0
    ensures r.1.refreshZooAfter == gen.refreshZooAfter
  {
    var index := Draw(raw, pos, 7);
    if index == 5 then GenerateBy(cfg, gen, steps, raw, pos + 1)
    else
      var (e, p) := PlainBy(index, cfg, steps, raw, pos + 1);
      (e, gen, p)
  }

  /** The six mutators without a state of their own. */
  ghost function PlainBy(index: nat, cfg: Config, steps: seq<Step>, raw: nat -> nat, pos: nat): (Event, nat) {
    match index
    case 0 => RepeatBy(cfg, steps, raw, pos)
    case 1 => SkipBy(cfg, steps, raw, pos)
    case 2 => ReuseBy(cfg, steps, raw, pos)
    case 3 => MatchBy(cfg, steps, raw, pos)
    case 4 => LiftBy(cfg, steps, raw, pos)
    case _ => SwapBy(cfg, steps, raw, pos)
  }

  // ------------------------------------------------------------------ only enabled events happen

  lemma MatchSound(cfg: Config, steps: seq<Step>, raw: nat -> nat, pos: nat)
    ensures Enabled(cfg, steps, MatchBy(cfg, steps, raw, pos).0)
  {
    SampleQualifies(steps, Anything(), cfg.constraints, raw, pos);
    var (r, p) := Sample(steps, Anything(), cfg.constraints, raw, pos);
    if r.Some? {
      var fitting := Kept(cfg.signature.functions, Fitting(r.value.term));
      if fitting != [] {
        KeptExact(cfg.signature.functions, Fitting(r.value.term), fitting[Draw(raw, p, |fitting|)]);
      }
    }
  }

  /** No place that can be chosen has a grandchild of its parent's type. */
  ghost predicate NothingLifts(cfg: Config, steps: seq<Step>) {
    forall at :: Choosable(steps, cfg.constraints, at) ==> !Liftable(TermAt(steps, at).value)
  }

  /** A lift is enabled, and happens unless no place allows one. */
  lemma LiftSound(cfg: Config, steps: seq<Step>, raw: nat -> nat, pos: nat)
    ensures Enabled(cfg, steps, LiftBy(cfg, steps, raw, pos).0)
    ensures LiftBy(cfg, steps, raw, pos).0.Skipped? <==> NothingLifts(cfg, steps)
  {
    SampleQualifies(steps, Liftable, cfg.constraints, raw, pos);
    var (r, p) := Sample(steps, Liftable, cfg.constraints, raw, pos);
    if r.Some? {
      LiftableHasGrandSubterm(r.value.term);
      var grand := GrandSubterms(r.value.term.args);
      GrandSubtermsExact(r.value.term.args, grand[Draw(raw, p, |grand|)]);
    }
  }

  /** A term is liftable exactly if it has something to lift. */
  lemma LiftableIff(t: Term)
    ensures Liftable(t) <==> t.Application? && GrandSubterms(t.args) != []
  {
    if Liftable(t) {
      LiftableHasGrandSubterm(t);
    } else if t.Application? && GrandSubterms(t.args) != [] {
      var x := GrandSubterms(t.args)[0];
      GrandSubtermsExact(t.args, x);
      assert HasOwnType(t.args[x.child]);
    }
  }

  lemma LiftableHasGrandSubterm(t: Term)
    requires Liftable(t)
    ensures GrandSubterms(t.args) != []
  {
    var i :| 0 <= i < |t.args| && HasOwnType(t.args[i]);
    var g :| 0 <= g < |t.args[i].args| && TypeOf(t.args[i]) == TypeOf(t.args[i].args[g]);
    GrandSubtermsExact(t.args, GrandSubterm(i, g));
  }

  /** A chosen pair can be swapped or reused, and there is one unless no place can be chosen. */
  lemma PairSound(cfg: Config, steps: seq<Step>, raw: nat -> nat, pos: nat)
    ensures var pair := PairBy(cfg, steps, raw, pos).0;
            && (pair.Some? ==> Enabled(cfg, steps, Swapped(pair.value.0, pair.value.1))
                               && Enabled(cfg, steps, Reused(pair.value.0, pair.value.1)))
            && (pair.None? <==> forall at :: !Choosable(steps, cfg.constraints, at))
  {
    SampleQualifies(steps, Anything(), cfg.constraints, raw, pos);
    var (a, p) := Sample(steps, Anything(), cfg.constraints, raw, pos);
    if a.Some? {
      SampleQualifies(steps, OfType(TypeOf(a.value.term)), cfg.constraints, raw, p);
    }
  }

  lemma PickSound(sig: Signature, gen: Generator, typ: TypeId, raw: nat -> nat, pos: nat)
    requires gen.Valid(sig)
    ensures var (t, gen', _) := PickBy(sig, gen, typ, raw, pos);
            gen'.Valid(sig) && (t.Some? ==> TypeOf(t.value) == typ && ZooTerm(sig.functions, t.value, MAX_DEPTH))
  {
    StockedValid(sig, gen, raw, pos);
    var (gen', p) := Stocked(sig, gen, raw, pos);
    var fitting := Kept(gen'.zoo.value, OfType(typ));
    if fitting != [] {
      KeptExact(gen'.zoo.value, OfType(typ), fitting[Draw(raw, p, |fitting|)]);
    }
  }

  lemma GenerateSound(cfg: Config, gen: Generator, steps: seq<Step>, raw: nat -> nat, pos: nat)
    requires gen.Valid(cfg.signature)
    ensures Enabled(cfg, steps, GenerateBy(cfg, gen, steps, raw, pos).0)
    ensures GenerateBy(cfg, gen, steps, raw, pos).1.Valid(cfg.signature)
  {
    SampleQualifies(steps, Anything(), cfg.constraints, raw, pos);
    var (r, p) := Sample(steps, Anything(), cfg.constraints, raw, pos);
    if r.Some? {
      PickSound(cfg.signature, gen, TypeOf(r.value.term), raw, p);
    }
  }

  lemma PairedSound(cfg: Config, steps: seq<Step>, raw: nat -> nat, pos: nat)
    ensures Enabled(cfg, steps, SwapBy(cfg, steps, raw, pos).0)
    ensures Enabled(cfg, steps, ReuseBy(cfg, steps, raw, pos).0)
  {
    PairSound(cfg, steps, raw, pos);
  }

  lemma StepsSound(cfg: Config, steps: seq<Step>, raw: nat -> nat, pos: nat)
    ensures Enabled(cfg, steps, SkipBy(cfg, steps, raw, pos).0)
    ensures Enabled(cfg, steps, RepeatBy(cfg, steps, raw, pos).0)
  {
  }

  lemma PlainSound(index: nat, cfg: Config, steps: seq<Step>, raw: nat -> nat, pos: nat)
    ensures Enabled(cfg, steps, PlainBy(index, cfg, steps, raw, pos).0)
  {
    match index
    case 0 => StepsSound(cfg, steps, raw, pos);
    case 1 => StepsSound(cfg, steps, raw, pos);
    case 3 => MatchSound(cfg, steps, raw, pos);
    case 4 => LiftEnabled(cfg, steps, raw, pos);
    case _ => PairedSound(cfg, steps, raw, pos);
  }

  lemma LiftEnabled(cfg: Config, steps: seq<Step>, raw: nat -> nat, pos: nat)
    ensures Enabled(cfg, steps, LiftBy(cfg, steps, raw, pos).0)
  {
    LiftSound(cfg, steps, raw, pos);
  }

  /** Whatever the random source, a scheduled mutation performs an enabled event. */
  lemma EventSound(cfg: Config, gen: Generator, steps: seq<Step>, raw: nat -> nat, pos: nat)
    requires gen.Valid(cfg.signature)
    ensures Enabled(cfg, steps, EventBy(cfg, gen, steps, raw, pos).0)
    ensures EventBy(cfg, gen, steps, raw, pos).1.Valid(cfg.signature)
  {
    if Draw(raw, pos, 7) == 5 {
      GenerateSound(cfg, gen, steps, raw, pos + 1);
    } else {
      PlainSound(Draw(raw, pos, 7), cfg, steps, raw, pos + 1);
    }
  }

  /** The first `n` scheduled mutations: the events, the steps and the generator after
      them, and the number of the next draw. */
  ghost function RunBy(cfg: Config, gen: Generator, steps: seq<Step>, n: nat, raw: nat -> nat, pos: nat)
    : (r: (seq<Event>, seq<Step>, Generator, nat))
    requires gen.Valid(cfg.signature)
    ensures r.2.Valid(cfg.signature) && |r.0| == n
    ensures After(cfg, steps, r.0) == Some(r.1)
  {
    if n == 0 then ([], steps, gen, pos)
    else
      var (run, s, g, p) := RunBy(cfg, gen, steps, n - 1, raw, pos);
      var (e, g', p') := EventBy(cfg, g, s, raw, p);
      EventSound(cfg, g, s, raw, p);
      assert (run + [e])[..n - 1] == run;
      (run + [e], Apply(cfg, s, e), g', p')
  }

  lemma RunByExtends(cfg: Config, gen: Generator, steps: seq<Step>, raw: nat -> nat, pos: nat,
                     run: seq<Event>, s: seq<Step>, g: Generator, p: nat, e: Event)
    requires gen.Valid(cfg.signature) && g.Valid(cfg.signature)
    requires (run, s, g, p) == RunBy(cfg, gen, steps, |run|, raw, pos)
    requires EventBy(cfg, g, s, raw, p).0 == e
    ensures Enabled(cfg, s, e)
    ensures RunBy(cfg, gen, steps, |run| + 1, raw, pos)
            == (run + [e], Apply(cfg, s, e), EventBy(cfg, g, s, raw, p).1, EventBy(cfg, g, s, raw, p).2)
  {
    EventSound(cfg, g, s, raw, p);
  }

  // ------------------------------------------------------------------ which draw decides what

  /** The first draw decides which mutator performs its kind of event. */
  lemma MutatorByDraw(cfg: Config, gen: Generator, steps: seq<Step>, raw: nat -> nat, pos: nat)
    requires gen.refreshZooAfter > 0
    ensures var e, i := EventBy(cfg, gen, steps, raw, pos).0, Draw(raw, pos, 7);
            && (e.StepRepeated? ==> i == 0) && (e.StepRemoved? ==> i == 1)
            && (e.Reused? ==> i == 2) && (e.Matched? ==> i == 3)
            && (e.Lifted? ==> i == 4) && (e.Generated? ==> i == 5) && (e.Swapped? ==> i == 6)
  {
  }

  /** The place that the reservoir holds after the draws from number `pos` on. */
  ghost function PlaceDrawn(ps: seq<Position>, raw: nat -> nat, pos: nat): TracePath
    requires ps != []
  {
    ps[Picked(TapeFrom(raw, pos, |ps|), |ps|)].at
  }

  /** The first sample gives the first place of a swap and the source of a reuse, from all
      places; the second gives the second place and the target, from those of its type. */
  lemma RolesByDraw(cfg: Config, steps: seq<Step>, raw: nat -> nat, pos: nat)
    requires PairBy(cfg, steps, raw, pos).0.Some?
    ensures var ps := Eligible(steps, Anything(), cfg.constraints);
            && ps != []
            && var first := PlaceDrawn(ps, raw, pos);
               TermAt(steps, first).Some?
               && var qs := Eligible(steps, OfType(TypeOf(TermAt(steps, first).value)), cfg.constraints);
                  qs != []
                  && var second := PlaceDrawn(qs, raw, pos + |ps| - 1);
                     && SwapBy(cfg, steps, raw, pos).0 == Swapped(first, second)
                     && ReuseBy(cfg, steps, raw, pos).0 == Reused(first, second)
  {
    SampleQualifies(steps, Anything(), cfg.constraints, raw, pos);
  }

  /** What `PuffinScheduledMutator` does: a draw for the number of mutations, then those. */
  ghost function ScheduledBy(
    cfg: Config, gen: Generator, steps: seq<Step>, maxMutations: nat, raw: nat -> nat, pos: nat)
    : (r: (seq<Event>, seq<Step>, Generator, nat))
    requires gen.Valid(cfg.signature) && maxMutations > 0
  {
    RunBy(cfg, gen, steps, Draw(raw, pos, maxMutations), raw, pos + 1)
  }
}
