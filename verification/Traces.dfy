/** Traces: agent descriptors, steps and positions inside the recipes of input steps. */
module Traces {
  import opened Wrappers
  import opened Terms

  datatype AgentType = Server | Client

  datatype TlsVersion = V1_3 | V1_2

  datatype AgentDescriptor = AgentDescriptor(
    name: AgentName,
    tlsVersion: TlsVersion,
    typ: AgentType,
    tryReuse: bool,
    clientAuthentication: bool,
    serverAuthentication: bool)

  datatype Action = Input(recipe: Term) | Output

  datatype Step = Step(agent: AgentName, action: Action)

  datatype Trace = Trace(descriptors: seq<AgentDescriptor>, steps: seq<Step>, priorTraces: seq<Trace>)

  datatype TracePath = TracePath(step: nat, path: Path)

  /** Every recipe is well-typed. */
  ghost predicate WellTypedSteps(steps: seq<Step>) {
    forall i :: 0 <= i < |steps| && steps[i].action.Input? ==> WellTyped(steps[i].action.recipe)
  }

  /** So are those of all prior traces, however deeply nested. */
  ghost predicate WellTypedTrace(t: Trace) {
    WellTypedSteps(t.steps) && forall i :: 0 <= i < |t.priorTraces| ==> WellTypedTrace(t.priorTraces[i])
  }

  ghost predicate HasRecipe(steps: seq<Step>, i: nat) {
    i < |steps| && steps[i].action.Input?
  }

  /** `find_term_mut`, as the term it finds. */
  function TermAt(steps: seq<Step>, p: TracePath): Option<Term> {
    if p.step < |steps| && steps[p.step].action.Input? then At(steps[p.step].action.recipe, p.path) else None
  }

  /** The steps after the term found at `p` has been overwritten by `r`. */
  function PutAt(steps: seq<Step>, p: TracePath, r: Term): (out: seq<Step>)
    requires TermAt(steps, p).Some?
    ensures |out| == |steps|
  {
    steps[p.step := Step(steps[p.step].agent, Input(Put(steps[p.step].action.recipe, p.path, r)))]
  }

  ghost predicate Apart(a: TracePath, b: TracePath) {
    a.step != b.step || Disjoint(a.path, b.path)
  }

  /** Overwriting one position is seen there, and nowhere apart from it. */
  lemma PutAtIsLocal(steps: seq<Step>, p: TracePath, r: Term, q: TracePath)
    requires TermAt(steps, p).Some?
    ensures TermAt(PutAt(steps, p, r), p) == Some(r)
    ensures Apart(p, q) ==> TermAt(PutAt(steps, p, r), q) == TermAt(steps, q)
    ensures forall i :: 0 <= i < |steps| && i != p.step ==> PutAt(steps, p, r)[i] == steps[i]
  {
    var t := steps[p.step].action.recipe;
    PutBelow(t, p.path, r, []);
    assert p.path + [] == p.path;
    if p.step == q.step && Disjoint(p.path, q.path) {
      PutElsewhere(t, p.path, r, q.path);
    }
  }
}
