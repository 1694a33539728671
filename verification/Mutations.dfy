/**
 What the seven mutators do to the steps of a trace, as events: which event a mutator
 may perform in a given state, and the steps after it.
 */
module Mutations {
  import opened Wrappers
  import opened Terms
  import opened Traces
  import opened Sampling
  import opened Signatures
  import opened Zoo

  datatype Config = Config(
    minTraceLength: nat,
    maxTraceLength: nat,
    constraints: TermConstraints,
    signature: Signature)

  datatype Event =
    | Skipped
    | Swapped(a: TracePath, b: TracePath)
    | Lifted(at: TracePath, child: nat, grandchild: nat)
    | Matched(at: TracePath, func: Function)
    | Reused(source: TracePath, at: TracePath)
    | Generated(at: TracePath, term: Term)
    | StepRemoved(index: nat)
    | StepRepeated(insertAt: nat, index: nat)

  /** A place the sampler may return. */
  ghost predicate Choosable(steps: seq<Step>, c: TermConstraints, at: TracePath) {
    InBounds(steps, c, at) && TermAt(steps, at).Some?
  }

  /** `subterm` has a child of its own type, so that it can be replaced by that child. */
  ghost predicate LiftsTo(subterm: Term, g: nat) {
    && subterm.Application?
    && g < |subterm.args|
    && TypeOf(subterm) == TypeOf(subterm.args[g])
  }

  /** A symbol that may stand in place of the head of `t`. */
  predicate Fits(t: Term, f: Function) {
    match t
    case Variable(typ, _) => typ == f.shape.retType && f.shape.IsConstant()
    case Application(g, _) =>
      && g.shape.name != f.shape.name
      && g.shape.retType == f.shape.retType
      && g.shape.argTypes == f.shape.argTypes
  }

  function Retarget(t: Term, f: Function): Term {
    match t
    case Variable(_, _) => Application(f, [])
    case Application(_, args) => Application(f, args)
  }

  function Lift(t: Term, child: nat, g: nat): Term
    requires t.Application? && child < |t.args| && t.args[child].Application? && g < |t.args[child].args|
  {
    t.(args := t.args[child := t.args[child].args[g]])
  }

  /** Both subterms are copied first; then `b` is overwritten, then `a`, if it still exists. */
  function SwapResult(steps: seq<Step>, a: TracePath, b: TracePath): (out: seq<Step>)
    requires TermAt(steps, a).Some? && TermAt(steps, b).Some?
    ensures |out| == |steps|
  {
    var steps1 := PutAt(steps, b, TermAt(steps, a).value);
    if TermAt(steps1, a).Some? then PutAt(steps1, a, TermAt(steps, b).value) else steps1
  }

  ghost predicate Enabled(cfg: Config, steps: seq<Step>, e: Event) {
    var c := cfg.constraints;
    match e
    case Skipped => true
    case Swapped(a, b) =>
      Choosable(steps, c, a) && Choosable(steps, c, b) && TypeOf(TermAt(steps, b).value) == TypeOf(TermAt(steps, a).value)
    case Lifted(at, child, g) =>
      Choosable(steps, c, at) && var t := TermAt(steps, at).value;
      t.Application? && child < |t.args| && LiftsTo(t.args[child], g)
    case Matched(at, f) =>
      Choosable(steps, c, at) && f in cfg.signature.functions && Fits(TermAt(steps, at).value, f)
    case Reused(source, at) =>
      && Choosable(steps, c, source) && Choosable(steps, c, at)
      && TypeOf(TermAt(steps, at).value) == TypeOf(TermAt(steps, source).value)
    case Generated(at, t) =>
      && Choosable(steps, c, at) && TypeOf(TermAt(steps, at).value) == TypeOf(t)
      && ZooTerm(cfg.signature.functions, t, MAX_DEPTH)
    case StepRemoved(i) => cfg.minTraceLength < |steps| && i < |steps|
    case StepRepeated(j, i) => |steps| < cfg.maxTraceLength && i < |steps| && j <= |steps|
  }

  ghost function Apply(cfg: Config, steps: seq<Step>, e: Event): seq<Step>
    requires Enabled(cfg, steps, e)
  {
    match e
    case Skipped => steps
    case Swapped(a, b) => SwapResult(steps, a, b)
    case Lifted(at, child, g) => PutAt(steps, at, Lift(TermAt(steps, at).value, child, g))
    case Matched(at, f) => PutAt(steps, at, Retarget(TermAt(steps, at).value, f))
    case Reused(source, at) => PutAt(steps, at, TermAt(steps, source).value)
    case Generated(at, t) => PutAt(steps, at, t)
    case StepRemoved(i) => steps[..i] + steps[i + 1..]
    case StepRepeated(j, i) => steps[..j] + [steps[i]] + steps[j..]
  }

  // ------------------------------------------------------------------ what each event does, place by place

  /** The two traces have the same steps, except for what lies at or below `at` or above it. */
  ghost predicate OnlyAt(before: seq<Step>, after: seq<Step>, at: TracePath) {
    && |after| == |before|
    && (forall i :: 0 <= i < |before| ==>
          after[i].agent == before[i].agent && (after[i].action.Input? <==> before[i].action.Input?))
    && (forall i :: 0 <= i < |before| && i != at.step ==> after[i] == before[i])
    && (forall q :: Apart(at, q) ==> TermAt(after, q) == TermAt(before, q))
  }

  /** Place `p` of the recipe of the step of `at`, below `at`. */
  ghost function Below(at: TracePath, p: Path): TracePath {
    TracePath(at.step, at.path + p)
  }

  lemma PutAtOnly(steps: seq<Step>, at: TracePath, r: Term)
    requires TermAt(steps, at).Some?
    ensures OnlyAt(steps, PutAt(steps, at, r), at)
    ensures TermAt(PutAt(steps, at, r), at) == Some(r)
    ensures forall p :: TermAt(PutAt(steps, at, r), Below(at, p)) == At(r, p)
  {
    PutAtIsLocal(steps, at, r, at);
    forall q | Apart(at, q)
      ensures TermAt(PutAt(steps, at, r), q) == TermAt(steps, q)
    {
      PutAtIsLocal(steps, at, r, q);
    }
    forall p
      ensures TermAt(PutAt(steps, at, r), Below(at, p)) == At(r, p)
    {
      PutBelow(steps[at.step].action.recipe, at.path, r, p);
    }
  }

  lemma {:induction false} AtBelow(t: Term, p: Path, q: Path)
    requires At(t, p).Some?
    ensures At(t, p + q) == At(At(t, p).value, q)
    decreases |p|
  {
    if p == [] {
      assert p + q == q;
    } else {
      assert (p + q)[1..] == p[1..] + q;
      AtBelow(t.args[p[0]], p[1..], q);
    }
  }

  lemma TermBelow(steps: seq<Step>, at: TracePath, p: Path)
    requires TermAt(steps, at).Some?
    ensures TermAt(steps, Below(at, p)) == At(TermAt(steps, at).value, p)
  {
    AtBelow(steps[at.step].action.recipe, at.path, p);
  }

  /** A generated term stands where it was put, and nothing else changes. */
  lemma GeneratedEffect(cfg: Config, steps: seq<Step>, at: TracePath, t: Term)
    requires Enabled(cfg, steps, Generated(at, t))
    ensures var out := Apply(cfg, steps, Generated(at, t));
            TermAt(out, at) == Some(t) && OnlyAt(steps, out, at) && TypeOf(t) == TypeOf(TermAt(steps, at).value)
  {
    PutAtOnly(steps, at, t);
  }

  /** The target holds what the source held before, and nothing else changes. */
  lemma ReusedEffect(cfg: Config, steps: seq<Step>, source: TracePath, at: TracePath)
    requires Enabled(cfg, steps, Reused(source, at))
    ensures var out := Apply(cfg, steps, Reused(source, at));
            && TermAt(out, at) == TermAt(steps, source) && OnlyAt(steps, out, at)
            && TypeOf(TermAt(out, at).value) == TypeOf(TermAt(steps, at).value)
  {
    PutAtOnly(steps, at, TermAt(steps, source).value);
  }

  /** A symbol fits exactly if with it as head the term keeps its type, its arguments fit as
      they did, and it is not the same symbol again. */
  lemma FitsExactly(t: Term, f: Function)
    ensures t.Variable? ==> (Fits(t, f) <==> |f.shape.argTypes| == 0 && f.shape.retType == TypeOf(t))
    ensures t.Application? ==>
              (Fits(t, f) <==> f.shape == t.func.shape.(name := f.shape.name) && f.shape.name != t.func.shape.name)
  {
  }

  /** The place has the new head; its arguments, and everything else, stay. */
  lemma MatchedEffect(cfg: Config, steps: seq<Step>, at: TracePath, f: Function)
    requires Enabled(cfg, steps, Matched(at, f))
    ensures var before, out := TermAt(steps, at).value, Apply(cfg, steps, Matched(at, f));
            && OnlyAt(steps, out, at)
            && TermAt(out, at).Some? && TermAt(out, at).value.Application? && TermAt(out, at).value.func == f
            && |TermAt(out, at).value.args| == (if before.Variable? then 0 else |before.args|)
            && forall p :: p != [] ==> TermAt(out, Below(at, p)) == TermAt(steps, Below(at, p))
  {
    var before := TermAt(steps, at).value;
    PutAtOnly(steps, at, Retarget(before, f));
    forall p | p != []
      ensures At(Retarget(before, f), p) == TermAt(steps, Below(at, p))
    {
      TermBelow(steps, at, p);
    }
  }

  /** The grandchild stands in its parent's place; the head, the other children, and
      everything else stay. */
  lemma LiftedEffect(cfg: Config, steps: seq<Step>, at: TracePath, child: nat, g: nat)
    requires Enabled(cfg, steps, Lifted(at, child, g))
    ensures var before, out := TermAt(steps, at).value, Apply(cfg, steps, Lifted(at, child, g));
            && OnlyAt(steps, out, at)
            && TermAt(out, at).Some? && TermAt(out, at).value.Application?
            && TermAt(out, at).value.func == before.func && |TermAt(out, at).value.args| == |before.args|
            && TermAt(out, Below(at, [child])) == TermAt(steps, Below(at, [child, g]))
            && child < |before.args| && before.args[child].Application?
            && TypeOf(before.args[child]) == TypeOf(TermAt(out, at).value.args[child])
            && forall j: nat :: j < |before.args| && j != child ==>
                                  TermAt(out, Below(at, [j])) == TermAt(steps, Below(at, [j]))
  {
    var before := TermAt(steps, at).value;
    var after := Lift(before, child, g);
    PutAtOnly(steps, at, after);
    TermBelow(steps, at, [child, g]);
    assert [child, g][1..] == [g] && [g][1..] == [] && [child][1..] == [];
    assert At(before, [child, g]) == At(before.args[child], [g]) == Some(before.args[child].args[g]);
    assert At(after, [child]) == Some(after.args[child]);
    forall j: nat | j < |before.args| && j != child
      ensures At(after, [j]) == TermAt(steps, Below(at, [j]))
    {
      TermBelow(steps, at, [j]);
      assert [j][1..] == [];
    }
  }

  /** Removing a step moves the later ones forward by one. */
  lemma StepRemovedEffect(cfg: Config, steps: seq<Step>, index: nat)
    requires Enabled(cfg, steps, StepRemoved(index))
    ensures var out := Apply(cfg, steps, StepRemoved(index));
            && |out| == |steps| - 1
            && forall i :: 0 <= i < |out| ==> out[i] == if i < index then steps[i] else steps[i + 1]
  {
  }

  /** Repeating a step puts a copy at the drawn place and moves the steps from there back. */
  lemma StepRepeatedEffect(cfg: Config, steps: seq<Step>, insertAt: nat, index: nat)
    requires Enabled(cfg, steps, StepRepeated(insertAt, index))
    ensures var out := Apply(cfg, steps, StepRepeated(insertAt, index));
            && |out| == |steps| + 1
            && out[insertAt] == steps[index]
            && (forall i :: 0 <= i < insertAt ==> out[i] == steps[i])
            && (forall i :: insertAt <= i < |steps| ==> out[i + 1] == steps[i])
  {
  }

  // ------------------------------------------------------------------ Swap

  ghost predicate ProperlyAbove(b: TracePath, a: TracePath) {
    b.step == a.step && b.path < a.path
  }

  /** Disjoint places: the two subterms change places and everything else stays. */
  lemma SwapDisjoint(steps: seq<Step>, a: TracePath, b: TracePath, q: TracePath)
    requires TermAt(steps, a).Some? && TermAt(steps, b).Some? && Apart(a, b)
    ensures var out := SwapResult(steps, a, b);
            && TermAt(out, a) == TermAt(steps, b)
            && TermAt(out, b) == TermAt(steps, a)
            && (Apart(a, q) && Apart(b, q) ==> TermAt(out, q) == TermAt(steps, q))
            && forall i :: 0 <= i < |steps| && i != a.step && i != b.step ==> out[i] == steps[i]
  {
    var ta, tb := TermAt(steps, a).value, TermAt(steps, b).value;
    var steps1 := PutAt(steps, b, ta);
    PutAtIsLocal(steps, b, ta, a);
    PutAtIsLocal(steps, b, ta, q);
    PutAtIsLocal(steps1, a, tb, b);
    PutAtIsLocal(steps1, a, tb, q);
  }

  /** First place at or above the second: the first subterm is replaced by the second. */
  lemma SwapIntoDescendant(steps: seq<Step>, a: TracePath, b: TracePath)
    requires TermAt(steps, a).Some? && TermAt(steps, b).Some?
    requires a.step == b.step && a.path <= b.path
    ensures SwapResult(steps, a, b) == PutAt(steps, a, TermAt(steps, b).value)
  {
    var t, rel := steps[a.step].action.recipe, b.path[|a.path|..];
    assert b.path == a.path + rel;
    PutAbove(t, a.path, rel, TermAt(steps, a).value, TermAt(steps, b).value);
  }

  /** The term left at the second place when it lies above the first by `rel`: the inner
      term, into which the outer term is written again at `rel` if that place exists. */
  function Nested(inner: Term, outer: Term, rel: Path): Term {
    if At(inner, rel).Some? then Put(inner, rel, outer) else inner
  }

  /** Second place properly above the first. */
  lemma SwapIntoAncestor(steps: seq<Step>, a: TracePath, b: TracePath)
    requires TermAt(steps, a).Some? && TermAt(steps, b).Some? && ProperlyAbove(b, a)
    ensures SwapResult(steps, a, b) ==
            PutAt(steps, b, Nested(TermAt(steps, a).value, TermAt(steps, b).value, a.path[|b.path|..]))
  {
    var t, rel := steps[a.step].action.recipe, a.path[|b.path|..];
    var ta, tb := TermAt(steps, a).value, TermAt(steps, b).value;
    assert a.path == b.path + rel;
    PutBelow(t, b.path, ta, rel);
    if At(ta, rel).Some? {
      PutPut(t, b.path, ta, rel, tb);
    }
  }

  /** A rewrite inside a freshly written subterm is one rewrite. */
  lemma {:induction false} PutPut(t: Term, p: Path, x: Term, q: Path, y: Term)
    requires At(t, p).Some? && At(x, q).Some?
    ensures At(Put(t, p, x), p + q).Some?
    ensures Put(Put(t, p, x), p + q, y) == Put(t, p, Put(x, q, y))
    decreases |p|
  {
    if p == [] {
      assert p + q == q;
    } else {
      assert (p + q)[1..] == p[1..] + q;
      PutPut(t.args[p[0]], p[1..], x, q, y);
    }
  }

  /** A swap keeps typing exactly when this holds: the second place is not properly above
      the first, or the inner term has no subterm at the same relative place, or one of
      its own type. */
  ghost predicate SwapSafe(steps: seq<Step>, a: TracePath, b: TracePath)
    requires TermAt(steps, a).Some?
  {
    ProperlyAbove(b, a) ==>
      var ta := TermAt(steps, a).value;
      var below := At(ta, a.path[|b.path|..]);
      below.None? || TypeOf(below.value) == TypeOf(ta)
  }

  // ------------------------------------------------------------------ typing

  /** Who acts in each step, and the type of the recipe of an input step. */
  ghost function Outline(step: Step): (AgentName, Option<TypeId>) {
    (step.agent, if step.action.Input? then Some(TypeOf(step.action.recipe)) else None)
  }

  ghost predicate SameOutline(a: seq<Step>, b: seq<Step>) {
    |a| == |b| && forall i :: 0 <= i < |a| ==> Outline(a[i]) == Outline(b[i])
  }

  lemma ChosenWellTyped(steps: seq<Step>, at: TracePath)
    requires WellTypedSteps(steps) && TermAt(steps, at).Some?
    ensures WellTyped(TermAt(steps, at).value)
  {
    SubtermWellTyped(steps[at.step].action.recipe, at.path);
  }

  /** Overwriting a place by a term of the type found there. */
  lemma PutAtTyping(steps: seq<Step>, at: TracePath, r: Term)
    requires WellTypedSteps(steps) && TermAt(steps, at).Some?
    requires TypeOf(r) == TypeOf(TermAt(steps, at).value)
    ensures WellTypedSteps(PutAt(steps, at, r)) <==> WellTyped(r)
    ensures SameOutline(steps, PutAt(steps, at, r))
  {
    var t := steps[at.step].action.recipe;
    PutWellTyped(t, at.path, r);
    var out := PutAt(steps, at, r);
    assert out[at.step].action.recipe == Put(t, at.path, r);
    if WellTyped(r) {
      forall i | 0 <= i < |out| && out[i].action.Input?
        ensures WellTyped(out[i].action.recipe)
      {
        assert i != at.step ==> out[i] == steps[i];
      }
    }
  }

  lemma SwapTyping(steps: seq<Step>, a: TracePath, b: TracePath)
    requires WellTypedSteps(steps) && TermAt(steps, a).Some? && TermAt(steps, b).Some?
    requires TypeOf(TermAt(steps, b).value) == TypeOf(TermAt(steps, a).value)
    ensures WellTypedSteps(SwapResult(steps, a, b)) <==> SwapSafe(steps, a, b)
    ensures SameOutline(steps, SwapResult(steps, a, b))
  {
    var ta, tb := TermAt(steps, a).value, TermAt(steps, b).value;
    ChosenWellTyped(steps, a);
    ChosenWellTyped(steps, b);
    if ProperlyAbove(b, a) {
      var rel := a.path[|b.path|..];
      SwapIntoAncestor(steps, a, b);
      if At(ta, rel).Some? {
        PutWellTyped(ta, rel, tb);
        PutAtTyping(steps, b, Put(ta, rel, tb));
      } else {
        PutAtTyping(steps, b, ta);
      }
    } else if Apart(a, b) {
      PutAtTyping(steps, b, ta);
      PutAtIsLocal(steps, b, ta, a);
      PutAtTyping(PutAt(steps, b, ta), a, tb);
    } else {
      SwapIntoDescendant(steps, a, b);
      PutAtTyping(steps, a, tb);
    }
  }

  lemma LiftTyping(t: Term, child: nat, g: nat)
    requires WellTyped(t) && t.Application? && child < |t.args| && LiftsTo(t.args[child], g)
    ensures WellTyped(Lift(t, child, g)) && TypeOf(Lift(t, child, g)) == TypeOf(t)
  {
    var u := Lift(t, child, g);
    assert forall i :: 0 <= i < |u.args| && i != child ==> u.args[i] == t.args[i];
  }

  /** Every single mutation of a well-typed trace leaves it well-typed, except a swap that
      is not safe, which always breaks it. Mutations of a term keep the agents, the kinds
      of the steps and the types of their recipes. */
  lemma MutationTyping(cfg: Config, steps: seq<Step>, e: Event)
    requires WellTypedSteps(steps) && AllLinked(cfg.signature.functions) && Enabled(cfg, steps, e)
    ensures WellTypedSteps(Apply(cfg, steps, e)) <==> (e.Swapped? ==> SwapSafe(steps, e.a, e.b))
    ensures e.StepRemoved? || e.StepRepeated? || SameOutline(steps, Apply(cfg, steps, e))
  {
    match e
    case Skipped =>
    case Swapped(a, b) => SwapTyping(steps, a, b);
    case Lifted(at, child, g) =>
      ChosenWellTyped(steps, at);
      LiftTyping(TermAt(steps, at).value, child, g);
      PutAtTyping(steps, at, Lift(TermAt(steps, at).value, child, g));
    case Matched(at, f) =>
      ChosenWellTyped(steps, at);
      PutAtTyping(steps, at, Retarget(TermAt(steps, at).value, f));
    case Reused(source, at) =>
      ChosenWellTyped(steps, source);
      PutAtTyping(steps, at, TermAt(steps, source).value);
    case Generated(at, t) =>
      ZooTermWellTyped(cfg.signature.functions, t, MAX_DEPTH);
      PutAtTyping(steps, at, t);
    case StepRemoved(i) =>
    case StepRepeated(j, i) =>
  }

  /** An enabled swap that loses typing: in f(g(x)) with f : A -> A and g : B -> A, the
      first place is g(x) and the second the root; the result g(f(g(x))) hands g an A. */
  lemma UnsafeSwapWitness(cfg: Config)
    requires cfg.constraints == TermConstraints(0, 9000)
    ensures var f := Function(Shape("f", [0], 0), DynamicFn([0], 0, 0));
            var g := Function(Shape("g", [1], 0), DynamicFn([1], 0, 1));
            var inner := Application(g, [Variable(1, Query(0, None, 0))]);
            var steps := [Step(0, Input(Application(f, [inner])))];
            var e := Swapped(TracePath(0, [0]), TracePath(0, []));
            WellTypedSteps(steps) && Enabled(cfg, steps, e) && !WellTypedSteps(Apply(cfg, steps, e))
  {
    var f := Function(Shape("f", [0], 0), DynamicFn([0], 0, 0));
    var g := Function(Shape("g", [1], 0), DynamicFn([1], 0, 1));
    var x := Variable(1, Query(0, None, 0));
    var inner := Application(g, [x]);
    var outer := Application(f, [inner]);
    var steps := [Step(0, Input(outer))];
    var a, b := TracePath(0, [0]), TracePath(0, []);
    assert [x][1..] == [] && [inner][1..] == [];
    assert SizeSum([x]) == 1 && SizeSum([inner]) == 2;
    assert a.path[1..] == [] && a.path[|b.path|..] == a.path;
    assert At(outer, a.path) == Some(inner) && At(inner, a.path) == Some(x);
    assert WellTyped(x) && WellTyped(inner) && WellTyped(outer);
    SwapTyping(steps, a, b);
  }

  // ------------------------------------------------------------------ sizes

  /** The recipe at the rewritten step changes size by the difference of the subterms. */
  lemma PutAtSize(steps: seq<Step>, at: TracePath, r: Term)
    requires TermAt(steps, at).Some?
    ensures var t, u := steps[at.step].action.recipe, TermAt(steps, at).value;
            && Size(PutAt(steps, at, r)[at.step].action.recipe) == Size(t) - Size(u) + Size(r)
            && Size(u) <= Size(t)
  {
    PutSize(steps[at.step].action.recipe, at.path, r);
  }

  lemma LiftSize(t: Term, child: nat, g: nat)
    requires t.Application? && child < |t.args| && LiftsTo(t.args[child], g)
    ensures Size(Lift(t, child, g)) < Size(t)
  {
    SizeSumUpdate(t.args, child, t.args[child].args[g]);
    SizeOfElement(t.args[child].args, g);
  }

  /** RemoveAndLift strictly shrinks the recipe it touches; ReplaceMatch keeps its size. */
  lemma LiftShrinksMatchKeeps(cfg: Config, steps: seq<Step>, e: Event)
    requires Enabled(cfg, steps, e) && (e.Lifted? || e.Matched?)
    ensures var before, after := Size(steps[e.at.step].action.recipe), Apply(cfg, steps, e)[e.at.step].action;
            after.Input? && if e.Lifted? then Size(after.recipe) < before else Size(after.recipe) == before
    ensures forall i :: 0 <= i < |steps| && i != e.at.step ==> Apply(cfg, steps, e)[i] == steps[i]
  {
    var t := TermAt(steps, e.at).value;
    if e.Lifted? {
      LiftSize(t, e.child, e.grandchild);
      PutAtSize(steps, e.at, Lift(t, e.child, e.grandchild));
    } else {
      PutAtSize(steps, e.at, Retarget(t, e.func));
    }
  }

  /** No recipe is larger than `bound`. */
  ghost predicate SizesAtMost(steps: seq<Step>, bound: int) {
    forall i :: 0 <= i < |steps| && steps[i].action.Input? ==> Size(steps[i].action.recipe) <= bound
  }

  /** `bound` admits one replacement of a subterm of a choosable recipe by a choosable
      subterm or by a zoo term. */
  ghost predicate Roomy(cfg: Config, arity: nat, bound: int) {
    var m := cfg.constraints.maxTermSize;
    && 2 * m - 3 <= bound
    && m - 2 + FullTree(arity, MAX_DEPTH) <= bound
  }

  lemma PutAtSizes(steps: seq<Step>, c: TermConstraints, at: TracePath, r: Term, bound: int)
    requires SizesAtMost(steps, bound) && Choosable(steps, c, at)
    requires c.maxTermSize - 2 + Size(r) <= bound || Size(r) <= Size(TermAt(steps, at).value)
    ensures SizesAtMost(PutAt(steps, at, r), bound)
  {
    PutAtSize(steps, at, r);
    var out := PutAt(steps, at, r);
    forall i | 0 <= i < |out| && out[i].action.Input?
      ensures Size(out[i].action.recipe) <= bound
    {
      assert i != at.step ==> out[i] == steps[i];
    }
  }

  lemma ChosenSize(steps: seq<Step>, c: TermConstraints, at: TracePath)
    requires Choosable(steps, c, at)
    ensures Size(TermAt(steps, at).value) <= c.maxTermSize - 1
    ensures at.path != [] ==> Size(TermAt(steps, at).value) <= c.maxTermSize - 2
  {
    PutSize(steps[at.step].action.recipe, at.path, TermAt(steps, at).value);
  }

  lemma SwapSizes(cfg: Config, steps: seq<Step>, a: TracePath, b: TracePath, bound: int)
    requires SizesAtMost(steps, bound) && 2 * cfg.constraints.maxTermSize - 3 <= bound
    requires Choosable(steps, cfg.constraints, a) && Choosable(steps, cfg.constraints, b)
    ensures SizesAtMost(SwapResult(steps, a, b), bound)
  {
    var c := cfg.constraints;
    var ta, tb := TermAt(steps, a).value, TermAt(steps, b).value;
    ChosenSize(steps, c, a);
    ChosenSize(steps, c, b);
    if ProperlyAbove(b, a) {
      var rel := a.path[|b.path|..];
      SwapIntoAncestor(steps, a, b);
      if At(ta, rel).Some? {
        PutSize(ta, rel, tb);
        PutAtSize(steps, b, Put(ta, rel, tb));
        NestedSwapSizes(steps, c, b, Put(ta, rel, tb), Size(ta), bound);
      } else {
        PutAtSizes(steps, c, b, ta, bound);
      }
    } else if Apart(a, b) {
      DisjointSwapSizes(steps, c, a, b, bound);
    } else {
      SwapIntoDescendant(steps, a, b);
      PutAtSizes(steps, c, a, tb, bound);
    }
  }

  lemma NestedSwapSizes(steps: seq<Step>, c: TermConstraints, b: TracePath, r: Term, sizeA: nat, bound: int)
    requires SizesAtMost(steps, bound) && Choosable(steps, c, b) && 2 * c.maxTermSize - 3 <= bound
    requires sizeA <= c.maxTermSize - 1 && Size(r) <= sizeA + Size(TermAt(steps, b).value) - 1
    ensures SizesAtMost(PutAt(steps, b, r), bound)
  {
    PutAtSize(steps, b, r);
    var out := PutAt(steps, b, r);
    forall i | 0 <= i < |out| && out[i].action.Input?
      ensures Size(out[i].action.recipe) <= bound
    {
      assert i != b.step ==> out[i] == steps[i];
    }
  }

  lemma DisjointSwapSizes(steps: seq<Step>, c: TermConstraints, a: TracePath, b: TracePath, bound: int)
    requires SizesAtMost(steps, bound) && 2 * c.maxTermSize - 3 <= bound
    requires Choosable(steps, c, a) && Choosable(steps, c, b) && Apart(a, b)
    ensures SizesAtMost(SwapResult(steps, a, b), bound)
  {
    var ta, tb := TermAt(steps, a).value, TermAt(steps, b).value;
    var steps1 := PutAt(steps, b, ta);
    ChosenSize(steps, c, a);
    ChosenSize(steps, c, b);
    PutAtSize(steps, b, ta);
    PutAtIsLocal(steps, b, ta, a);
    PutAtSize(steps1, a, tb);
    PutAtSize(steps, a, tb);
    var out := PutAt(steps1, a, tb);
    forall i | 0 <= i < |out| && out[i].action.Input?
      ensures Size(out[i].action.recipe) <= bound
    {
      assert i != a.step && i != b.step ==> out[i] == steps[i];
      assert a.step != b.step ==> out[b.step] == steps1[b.step] && steps1[a.step] == steps[a.step];
    }
  }

  /** A single mutation stays within any bound that has room for one replacement. */
  lemma MutationSizes(cfg: Config, steps: seq<Step>, e: Event, arity: nat, bound: int)
    requires SizesAtMost(steps, bound) && Roomy(cfg, arity, bound)
    requires ArityAtMost(cfg.signature.functions, arity) && Enabled(cfg, steps, e)
    ensures SizesAtMost(Apply(cfg, steps, e), bound)
  {
    var c := cfg.constraints;
    match e
    case Skipped =>
    case Swapped(a, b) => SwapSizes(cfg, steps, a, b, bound);
    case Lifted(at, child, g) =>
      LiftSize(TermAt(steps, at).value, child, g);
      PutAtSizes(steps, c, at, Lift(TermAt(steps, at).value, child, g), bound);
    case Matched(at, f) =>
      PutAtSizes(steps, c, at, Retarget(TermAt(steps, at).value, f), bound);
    case Reused(source, at) =>
      ChosenSize(steps, c, source);
      PutAtSizes(steps, c, at, TermAt(steps, source).value, bound);
    case Generated(at, t) =>
      ZooTermSize(cfg.signature.functions, t, MAX_DEPTH, arity);
      PutAtSizes(steps, c, at, t, bound);
    case StepRemoved(i) =>
    case StepRepeated(j, i) =>
  }

  // ------------------------------------------------------------------ runs

  /** The steps after a run of events, if each was enabled when it happened. */
  ghost function After(cfg: Config, steps: seq<Step>, run: seq<Event>): Option<seq<Step>> {
    if run == [] then Some(steps)
    else
      var n := |run| - 1;
      var s := After(cfg, steps, run[..n]);
      if s.Some? && Enabled(cfg, s.value, run[n]) then Some(Apply(cfg, s.value, run[n])) else None
  }

  /** Every swap of the run was safe when it happened. */
  ghost predicate SafeRun(cfg: Config, steps: seq<Step>, run: seq<Event>)
    requires After(cfg, steps, run).Some?
  {
    run == [] ||
    var n := |run| - 1;
    var s := After(cfg, steps, run[..n]).value;
    SafeRun(cfg, steps, run[..n]) && (run[n].Swapped? ==> SwapSafe(s, run[n].a, run[n].b))
  }

  /** Some step of `steps` has this outline. */
  ghost predicate Occurs(steps: seq<Step>, outline: (AgentName, Option<TypeId>)) {
    exists j :: 0 <= j < |steps| && Outline(steps[j]) == outline
  }

  ghost predicate OutlinesFrom(later: seq<Step>, steps: seq<Step>) {
    forall i :: 0 <= i < |later| ==> Occurs(steps, Outline(later[i]))
  }

  lemma OutlinesStep(cfg: Config, s: seq<Step>, e: Event, steps: seq<Step>)
    requires WellTypedSteps(s) && AllLinked(cfg.signature.functions) && Enabled(cfg, s, e)
    requires OutlinesFrom(s, steps)
    ensures OutlinesFrom(Apply(cfg, s, e), steps)
  {
    MutationTyping(cfg, s, e);
    var out := Apply(cfg, s, e);
    forall i | 0 <= i < |out|
      ensures Occurs(steps, Outline(out[i]))
    {
      var k := match e
        case StepRemoved(x) => if i < x then i else i + 1
        case StepRepeated(x, y) => if i < x then i else if i == x then y else i - 1
        case _ => i;
      assert Outline(out[i]) == Outline(s[k]);
    }
  }

  /** Over every run in which each swap is safe, well-typed traces stay well-typed, and
      every step keeps the agent and recipe type of a step of the original trace. */
  lemma {:induction false} RunKeepsTyping(cfg: Config, steps: seq<Step>, run: seq<Event>)
    requires WellTypedSteps(steps) && AllLinked(cfg.signature.functions)
    requires After(cfg, steps, run).Some? && SafeRun(cfg, steps, run)
    ensures WellTypedSteps(After(cfg, steps, run).value)
    ensures OutlinesFrom(After(cfg, steps, run).value, steps)
  {
    if run == [] {
      assert OutlinesFrom(steps, steps);
    } else {
      var n := |run| - 1;
      var s := After(cfg, steps, run[..n]).value;
      RunKeepsTyping(cfg, steps, run[..n]);
      MutationTyping(cfg, s, run[n]);
      OutlinesStep(cfg, s, run[n], steps);
    }
  }

  /** The trace is well-typed after each of the first events, however many. */
  ghost predicate TypedThroughout(cfg: Config, steps: seq<Step>, run: seq<Event>)
    requires After(cfg, steps, run).Some?
  {
    && WellTypedSteps(After(cfg, steps, run).value)
    && (run != [] ==> TypedThroughout(cfg, steps, run[..|run| - 1]))
  }

  /** Over every run: the trace stays well-typed throughout exactly when each swap was safe. */
  lemma {:induction false} RunTypedIffSafe(cfg: Config, steps: seq<Step>, run: seq<Event>)
    requires WellTypedSteps(steps) && AllLinked(cfg.signature.functions) && After(cfg, steps, run).Some?
    ensures TypedThroughout(cfg, steps, run) <==> SafeRun(cfg, steps, run)
  {
    if run != [] {
      var n := |run| - 1;
      RunTypedIffSafe(cfg, steps, run[..n]);
      if WellTypedSteps(After(cfg, steps, run[..n]).value) {
        MutationTyping(cfg, After(cfg, steps, run[..n]).value, run[n]);
      }
    }
  }

  /** Over every run whatsoever, the number of steps stays between the configured bounds. */
  lemma {:induction false} RunKeepsLength(cfg: Config, steps: seq<Step>, run: seq<Event>)
    requires cfg.minTraceLength <= |steps| <= cfg.maxTraceLength
    requires After(cfg, steps, run).Some?
    ensures cfg.minTraceLength <= |After(cfg, steps, run).value| <= cfg.maxTraceLength
  {
    if run != [] {
      RunKeepsLength(cfg, steps, run[..|run| - 1]);
    }
  }

  ghost function Max(a: int, b: int): int {
    if a < b then b else a
  }

  /** Over every run whatsoever, no recipe exceeds the largest of its initial bound,
      2 * max - 3, and max - 2 plus the largest zoo term. */
  lemma {:induction false} RunKeepsSizes(cfg: Config, steps: seq<Step>, run: seq<Event>, arity: nat, initial: int)
    requires SizesAtMost(steps, initial) && ArityAtMost(cfg.signature.functions, arity)
    requires After(cfg, steps, run).Some?
    ensures var m := cfg.constraints.maxTermSize;
            SizesAtMost(After(cfg, steps, run).value,
                        Max(initial, Max(2 * m - 3, m - 2 + FullTree(arity, MAX_DEPTH))))
  {
    if run != [] {
      var n := |run| - 1;
      var m := cfg.constraints.maxTermSize;
      RunKeepsSizes(cfg, steps, run[..n], arity, initial);
      MutationSizes(cfg, After(cfg, steps, run[..n]).value, run[n], arity,
                    Max(initial, Max(2 * m - 3, m - 2 + FullTree(arity, MAX_DEPTH))));
    }
  }
}
