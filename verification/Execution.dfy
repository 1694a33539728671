/**
 Running a trace: agents are spawned or reused, prior traces run first, input steps
 evaluate their recipe, output steps extend the attacker's knowledge.
 */
module Execution {
  import opened Wrappers
  import opened Matching
  import opened Terms
  import opened Traces
  import opened Knowing
  import opened Evaluation

  /** An agent: its current name and the descriptor its PUT was created with. */
  datatype Agent = Agent(name: AgentName, put: AgentDescriptor)

  type AgentClass = (AgentType, TlsVersion)

  function ClassOf(d: AgentDescriptor): AgentClass {
    (d.typ, d.tlsVersion)
  }

  // ------------------------------------------------------------------ spawning, as a function

  /** The first agent whose PUT `is_reusable_with` the descriptor. */
  function FindReusable(agents: seq<Agent>, d: AgentDescriptor): (r: Option<nat>)
    ensures r.Some? ==> r.value < |agents| && ClassOf(agents[r.value].put) == ClassOf(d)
    ensures r.Some? ==> agents[r.value].put.typ == d.typ && agents[r.value].put.tlsVersion == d.tlsVersion
    ensures r.None? ==> forall a :: a in agents ==> a.put.typ != d.typ || a.put.tlsVersion != d.tlsVersion
    ensures r.Some? ==> forall i :: 0 <= i < r.value ==> ClassOf(agents[i].put) != ClassOf(d)
    ensures r.None? ==> forall i :: 0 <= i < |agents| ==> ClassOf(agents[i].put) != ClassOf(d)
  {
    if agents == [] then None
    else if ClassOf(agents[0].put) == ClassOf(d) then Some(0)
    else
      var r := FindReusable(agents[1..], d);
      if r.Some? then Some(r.value + 1) else
      assert forall i :: 1 <= i < |agents| ==> agents[i] == agents[1..][i - 1];
      None
  }

  function SpawnOne(agents: seq<Agent>, d: AgentDescriptor): seq<Agent> {
    var r := FindReusable(agents, d);
    if r.Some? then agents[r.value := agents[r.value].(name := d.name)] else agents + [Agent(d.name, d)]
  }

  function Spawn(agents: seq<Agent>, ds: seq<AgentDescriptor>): seq<Agent> {
    if ds == [] then agents else SpawnOne(Spawn(agents, ds[..|ds| - 1]), ds[|ds| - 1])
  }

  /** No two agents share role and version. */
  ghost predicate OnePerClass(agents: seq<Agent>) {
    forall i, j :: 0 <= i < j < |agents| ==> ClassOf(agents[i].put) != ClassOf(agents[j].put)
  }

  /** Two roles and two versions make four classes. */
  function ClassNumber(c: AgentClass): (n: nat)
    ensures n < 4
  {
    (if c.0.Server? then 0 else 2) + (if c.1.V1_3? then 0 else 1)
  }

  lemma Pigeonhole(a: nat, b: nat, c: nat, d: nat, e: nat)
    requires a < 4 && b < 4 && c < 4 && d < 4 && e < 4
    ensures a == b || a == c || a == d || a == e || b == c || b == d || b == e || c == d || c == e || d == e
  {
  }

  lemma AtMostFourAgents(agents: seq<Agent>)
    requires OnePerClass(agents)
    ensures |agents| <= 4
  {
    if |agents| >= 5 {
      var n := (i: int) requires 0 <= i < |agents| => ClassNumber(ClassOf(agents[i].put));
      Pigeonhole(n(0), n(1), n(2), n(3), n(4));
    }
  }

  /** The name in the last descriptor of class `c`, if any. */
  ghost function LastName(ds: seq<AgentDescriptor>, c: AgentClass): Option<AgentName> {
    if ds == [] then None
    else if ClassOf(ds[|ds| - 1]) == c then Some(ds[|ds| - 1].name)
    else LastName(ds[..|ds| - 1], c)
  }

  ghost predicate HasClass(agents: seq<Agent>, c: AgentClass) {
    exists i :: 0 <= i < |agents| && ClassOf(agents[i].put) == c
  }

  /** The name agent `i` ends up with: that of the last descriptor of its class, or else
      the one it had. */
  ghost function FinalName(agents: seq<Agent>, ds: seq<AgentDescriptor>, i: nat, put: AgentDescriptor): AgentName {
    var n := LastName(ds, ClassOf(put));
    if n.Some? then n.value else if i < |agents| then agents[i].name else 0
  }

  /** Spawning keeps one agent per class, keeps old agents and their PUTs in place, gives
      every class of the descriptors an agent, adds no other class, and names each agent
      after the last descriptor of its class. */
  lemma {:induction false} SpawnExact(agents: seq<Agent>, ds: seq<AgentDescriptor>)
    requires OnePerClass(agents)
    ensures var out := Spawn(agents, ds);
            && OnePerClass(out)
            && |agents| <= |out|
            && (forall i :: 0 <= i < |agents| ==> out[i].put == agents[i].put)
            && (forall c :: LastName(ds, c).Some? ==> HasClass(out, c))
            && (forall i :: |agents| <= i < |out| ==> LastName(ds, ClassOf(out[i].put)).Some?)
            && (forall i :: 0 <= i < |out| ==> out[i].name == FinalName(agents, ds, i, out[i].put))
  {
    if ds != [] {
      var n := |ds| - 1;
      SpawnExact(agents, ds[..n]);
      SpawnOneExact(Spawn(agents, ds[..n]), ds[n]);
      var mid, out := Spawn(agents, ds[..n]), Spawn(agents, ds);
      forall c | LastName(ds, c).Some?
        ensures HasClass(out, c)
      {
        if c != ClassOf(ds[n]) {
          assert HasClass(mid, c);
          var i :| 0 <= i < |mid| && ClassOf(mid[i].put) == c;
          assert ClassOf(out[i].put) == c;
        }
      }
    }
  }

  lemma SpawnOneExact(agents: seq<Agent>, d: AgentDescriptor)
    requires OnePerClass(agents)
    ensures var out := SpawnOne(agents, d);
            && OnePerClass(out)
            && |agents| <= |out|
            && (forall i :: 0 <= i < |agents| ==> out[i].put == agents[i].put)
            && HasClass(out, ClassOf(d))
            && (|out| == |agents| <==> HasClass(agents, ClassOf(d)))
            && (forall i :: |agents| <= i < |out| ==> ClassOf(out[i].put) == ClassOf(d))
            && (forall i :: 0 <= i < |out| ==>
                  out[i].name == if ClassOf(out[i].put) == ClassOf(d) then d.name else agents[i].name)
  {
    var r, out := FindReusable(agents, d), SpawnOne(agents, d);
    if r.Some? {
      assert ClassOf(out[r.value].put) == ClassOf(d);
    } else {
      assert ClassOf(out[|agents|].put) == ClassOf(d);
    }
  }

  lemma {:induction false} SpawnKnownClasses(agents: seq<Agent>, ds: seq<AgentDescriptor>)
    requires OnePerClass(agents)
    requires forall c :: LastName(ds, c).Some? ==> HasClass(agents, c)
    ensures |Spawn(agents, ds)| == |agents|
  {
    if ds != [] {
      var n := |ds| - 1;
      forall c | LastName(ds[..n], c).Some?
        ensures HasClass(agents, c)
      {
        assert LastName(ds, c).Some?;
      }
      SpawnKnownClasses(agents, ds[..n]);
      SpawnExact(agents, ds[..n]);
      var mid := Spawn(agents, ds[..n]);
      assert LastName(ds, ClassOf(ds[n])).Some?;
      var i :| 0 <= i < |agents| && ClassOf(agents[i].put) == ClassOf(ds[n]);
      assert ClassOf(mid[i].put) == ClassOf(ds[n]);
      SpawnOneExact(mid, ds[n]);
    }
  }

  /** Spawning the same descriptors again changes nothing: not the agents, their order or
      their names. */
  lemma SpawnIdempotent(agents: seq<Agent>, ds: seq<AgentDescriptor>)
    requires OnePerClass(agents)
    ensures Spawn(Spawn(agents, ds), ds) == Spawn(agents, ds)
  {
    var once := Spawn(agents, ds);
    SpawnExact(agents, ds);
    SpawnExact(once, ds);
    SpawnKnownClasses(once, ds);
    var twice := Spawn(once, ds);
    forall i | 0 <= i < |once|
      ensures twice[i] == once[i]
    {
      assert twice[i].put == once[i].put;
    }
  }

  lemma {:induction false} SpawnConcat(agents: seq<Agent>, a: seq<AgentDescriptor>, b: seq<AgentDescriptor>)
    ensures Spawn(agents, a + b) == Spawn(Spawn(agents, a), b)
  {
    if b == [] {
      assert a + b == a;
    } else {
      assert (a + b)[..|a + b| - 1] == a + b[..|b| - 1];
      SpawnConcat(agents, a, b[..|b| - 1]);
    }
  }

  // ------------------------------------------------------------------ nested prior traces

  /** The agents after a successful run: each prior trace is spawned, then run (which
      spawns it again after its own prior traces); finally the trace itself is spawned. */
  function AgentsAfter(t: Trace, agents: seq<Agent>): seq<Agent>
    decreases t, 1
  {
    Spawn(AgentsAfterPriors(t.priorTraces, agents), t.descriptors)
  }

  function AgentsAfterPriors(priors: seq<Trace>, agents: seq<Agent>): seq<Agent>
    decreases priors, 0
  {
    if priors == [] then agents
    else
      var p := priors[|priors| - 1];
      AgentsAfter(p, Spawn(AgentsAfterPriors(priors[..|priors| - 1], agents), p.descriptors))
  }

  /** Every descriptor in the order it is spawned. */
  ghost function SpawnOrder(t: Trace): seq<AgentDescriptor>
    decreases t, 1
  {
    SpawnOrders(t.priorTraces) + t.descriptors
  }

  ghost function SpawnOrders(priors: seq<Trace>): seq<AgentDescriptor>
    decreases priors, 0
  {
    if priors == [] then []
    else
      var p := priors[|priors| - 1];
      SpawnOrders(priors[..|priors| - 1]) + p.descriptors + SpawnOrder(p)
  }

  lemma {:induction false} AgentsAfterIsSpawn(t: Trace, agents: seq<Agent>)
    ensures AgentsAfter(t, agents) == Spawn(agents, SpawnOrder(t))
    decreases t, 1
  {
    AgentsAfterPriorsIsSpawn(t.priorTraces, agents);
    SpawnConcat(agents, SpawnOrders(t.priorTraces), t.descriptors);
  }

  lemma {:induction false} AgentsAfterPriorsIsSpawn(priors: seq<Trace>, agents: seq<Agent>)
    ensures AgentsAfterPriors(priors, agents) == Spawn(agents, SpawnOrders(priors))
    decreases priors, 0
  {
    if priors != [] {
      var n := |priors| - 1;
      var p, before := priors[n], SpawnOrders(priors[..n]);
      AgentsAfterPriorsIsSpawn(priors[..n], agents);
      SpawnConcat(agents, before, p.descriptors);
      AgentsAfterIsSpawn(p, Spawn(agents, before + p.descriptors));
      SpawnConcat(agents, before + p.descriptors, SpawnOrder(p));
    }
  }

  /** For any nesting of prior traces: at most four agents, one per class, each named
      after the last descriptor of its class in spawning order. */
  lemma AgentsAfterRun(t: Trace, i: nat)
    requires i < |AgentsAfter(t, [])|
    ensures OnePerClass(AgentsAfter(t, [])) && |AgentsAfter(t, [])| <= 4
    ensures LastName(SpawnOrder(t), ClassOf(AgentsAfter(t, [])[i].put)) == Some(AgentsAfter(t, [])[i].name)
  {
    AgentsAfterIsSpawn(t, []);
    SpawnExact([], SpawnOrder(t));
    AtMostFourAgents(AgentsAfter(t, []));
  }

  // ------------------------------------------------------------------ the double spawn of prior traces

  ghost predicate HasNamed(agents: seq<Agent>, c: AgentClass, name: AgentName) {
    exists i :: 0 <= i < |agents| && ClassOf(agents[i].put) == c && agents[i].name == name
  }

  /** Which names the agents of each class have after spawning. */
  lemma SpawnNames(agents: seq<Agent>, ds: seq<AgentDescriptor>, c: AgentClass, name: AgentName)
    requires OnePerClass(agents)
    ensures HasNamed(Spawn(agents, ds), c, name) <==>
            LastName(ds, c) == Some(name) || (LastName(ds, c).None? && HasNamed(agents, c, name))
  {
    var out := Spawn(agents, ds);
    SpawnExact(agents, ds);
    if LastName(ds, c).Some? {
      var i :| 0 <= i < |out| && ClassOf(out[i].put) == c;
      assert out[i].name == LastName(ds, c).value;
    } else if HasNamed(agents, c, name) {
      var i :| 0 <= i < |agents| && ClassOf(agents[i].put) == c && agents[i].name == name;
      assert ClassOf(out[i].put) == c && out[i].name == name;
    }
  }

  lemma {:induction false} LastNameConcat(a: seq<AgentDescriptor>, b: seq<AgentDescriptor>, c: AgentClass)
    ensures LastName(a + b, c) == if LastName(b, c).Some? then LastName(b, c) else LastName(a, c)
  {
    if b == [] {
      assert a + b == a;
    } else {
      assert (a + b)[..|a + b| - 1] == a + b[..|b| - 1];
      LastNameConcat(a, b[..|b| - 1], c);
    }
  }

  /** The first spawn of a trace changes no last name: its descriptors come again. */
  lemma LastNameAgain(p: Trace, c: AgentClass)
    ensures LastName(p.descriptors + SpawnOrder(p), c) == LastName(SpawnOrder(p), c)
  {
    LastNameConcat(p.descriptors, SpawnOrder(p), c);
    LastNameConcat(SpawnOrders(p.priorTraces), p.descriptors, c);
  }

  lemma DoubleSpawnIsSpawn(p: Trace, agents: seq<Agent>)
    ensures AgentsAfter(p, Spawn(agents, p.descriptors)) == Spawn(agents, p.descriptors + SpawnOrder(p))
    ensures AgentsAfter(p, agents) == Spawn(agents, SpawnOrder(p))
  {
    AgentsAfterIsSpawn(p, Spawn(agents, p.descriptors));
    AgentsAfterIsSpawn(p, agents);
    SpawnConcat(agents, p.descriptors, SpawnOrder(p));
  }

  /** For any nesting of prior traces, spawning a prior trace once more before its run leads
      to agents of the same classes with the same names. */
  lemma DoubleSpawnKeepsNames(p: Trace, agents: seq<Agent>, c: AgentClass, name: AgentName)
    requires OnePerClass(agents)
    ensures HasNamed(AgentsAfter(p, Spawn(agents, p.descriptors)), c, name) <==> HasNamed(AgentsAfter(p, agents), c, name)
  {
    DoubleSpawnIsSpawn(p, agents);
    LastNameAgain(p, c);
    SpawnNames(agents, p.descriptors + SpawnOrder(p), c, name);
    SpawnNames(agents, SpawnOrder(p), c, name);
  }

  /** The first descriptor of each class that no agent has yet, in order. */
  ghost function Newcomers(agents: seq<Agent>, ds: seq<AgentDescriptor>): seq<AgentDescriptor> {
    if ds == [] then []
    else
      var front, d := ds[..|ds| - 1], ds[|ds| - 1];
      Newcomers(agents, front)
      + if HasClass(agents, ClassOf(d)) || LastName(front, ClassOf(d)).Some? then [] else [d]
  }

  ghost function PutsOf(agents: seq<Agent>): seq<AgentDescriptor> {
    seq(|agents|, i requires 0 <= i < |agents| => agents[i].put)
  }

  lemma SpawnOnePuts(agents: seq<Agent>, d: AgentDescriptor)
    requires OnePerClass(agents)
    ensures PutsOf(SpawnOne(agents, d)) == PutsOf(agents) + if HasClass(agents, ClassOf(d)) then [] else [d]
  {
    SpawnOneExact(agents, d);
    if FindReusable(agents, d).None? {
      assert !HasClass(agents, ClassOf(d));
    }
  }

  /** New agents get their PUTs from the newcomers, in order. */
  lemma {:induction false} SpawnPuts(agents: seq<Agent>, ds: seq<AgentDescriptor>)
    requires OnePerClass(agents)
    ensures PutsOf(Spawn(agents, ds)) == PutsOf(agents) + Newcomers(agents, ds)
  {
    if ds == [] {
      assert PutsOf(agents) + [] == PutsOf(agents);
    } else {
      var front, d := ds[..|ds| - 1], ds[|ds| - 1];
      var mid := Spawn(agents, front);
      SpawnPuts(agents, front);
      SpawnExact(agents, front);
      SpawnOnePuts(mid, d);
      SpawnedClasses(agents, front, ClassOf(d));
      Assoc(PutsOf(agents), Newcomers(agents, front), if HasClass(mid, ClassOf(d)) then [] else [d]);
    }
  }

  lemma SpawnedClasses(agents: seq<Agent>, ds: seq<AgentDescriptor>, c: AgentClass)
    requires OnePerClass(agents)
    ensures HasClass(Spawn(agents, ds), c) <==> HasClass(agents, c) || LastName(ds, c).Some?
  {
    var out := Spawn(agents, ds);
    SpawnExact(agents, ds);
    if HasClass(agents, c) {
      var i :| 0 <= i < |agents| && ClassOf(agents[i].put) == c;
      assert ClassOf(out[i].put) == c;
    }
    if HasClass(out, c) {
      var i :| 0 <= i < |out| && ClassOf(out[i].put) == c;
      assert i < |agents| ==> ClassOf(agents[i].put) == c;
    }
  }

  /** Two series of descriptors with the same last names leave the same agents exactly when
      their newcomers are the same. */
  lemma SpawnSameIff(agents: seq<Agent>, a: seq<AgentDescriptor>, b: seq<AgentDescriptor>)
    requires OnePerClass(agents) && forall c :: LastName(a, c) == LastName(b, c)
    ensures Spawn(agents, a) == Spawn(agents, b) <==> Newcomers(agents, a) == Newcomers(agents, b)
  {
    var outA, outB, old' := Spawn(agents, a), Spawn(agents, b), PutsOf(agents);
    SpawnPuts(agents, a);
    SpawnPuts(agents, b);
    SpawnExact(agents, a);
    SpawnExact(agents, b);
    Cut(old', Newcomers(agents, a));
    Cut(old', Newcomers(agents, b));
    if Newcomers(agents, a) == Newcomers(agents, b) {
      assert |outA| == |PutsOf(outA)| == |outB|;
      forall i | 0 <= i < |outA|
        ensures outA[i] == outB[i]
      {
        assert outA[i].put == PutsOf(outA)[i] == PutsOf(outB)[i] == outB[i].put;
      }
    }
  }

  /** Spawning a prior trace once more before its run changes nothing at all exactly when
      this does not change which descriptor is the first of a class not yet present, nor
      the order of these. It never does for a prior trace without prior traces. */
  lemma DoubleSpawnIsOneSpawnIff(p: Trace, agents: seq<Agent>)
    requires OnePerClass(agents)
    ensures AgentsAfter(p, Spawn(agents, p.descriptors)) == AgentsAfter(p, agents) <==>
            Newcomers(agents, p.descriptors + SpawnOrder(p)) == Newcomers(agents, SpawnOrder(p))
    ensures p.priorTraces == [] ==> AgentsAfter(p, Spawn(agents, p.descriptors)) == AgentsAfter(p, agents)
  {
    DoubleSpawnIsSpawn(p, agents);
    forall c
      ensures LastName(p.descriptors + SpawnOrder(p), c) == LastName(SpawnOrder(p), c)
    {
      LastNameAgain(p, c);
    }
    SpawnSameIff(agents, p.descriptors + SpawnOrder(p), SpawnOrder(p));
    SpawnIdempotent(agents, p.descriptors);
  }

  /** With one level of nesting it can: any two descriptors, one in the prior trace and one
      in the prior trace's own prior trace, make a difference. If they have different
      classes the agents come in another order, else the PUT is another. */
  lemma NestedDoubleSpawnDiffers(d: AgentDescriptor, e: AgentDescriptor)
    requires d != e
    ensures var p := Trace([d], [], [Trace([e], [], [])]);
            AgentsAfter(p, Spawn([], p.descriptors)) != AgentsAfter(p, [])
  {
    var inner := Trace([e], [], []);
    var p := Trace([d], [], [inner]);
    DoubleSpawnIsSpawn(p, []);
    SpawnConcat([], [d], SpawnOrder(p));
    assert p.priorTraces[..0] == [];
    assert SpawnOrders([]) == [] && SpawnOrder(inner) == [] + [e];
    assert SpawnOrder(p) == [e] + ([e] + [d]);
    SpawnConcat([], [e], [e] + [d]);
    FirstSpawned(d, SpawnOrder(p));
    FirstSpawned(e, [e] + [d]);
  }

  lemma FirstSpawned(d: AgentDescriptor, more: seq<AgentDescriptor>)
    ensures var out := Spawn(Spawn([], [d]), more); |out| > 0 && out[0].put == d
  {
    assert [d][..0] == [];
    assert Spawn([], [d]) == [Agent(d.name, d)];
    SpawnExact(Spawn([], [d]), more);
  }

  // ------------------------------------------------------------------ what PUTs do

  /** One message taken from an agent's outbound channel: the label decoded from it, what
      its structured form yields (nothing if it has none), and what its opaque form
      yields, or None if that extraction fails. */
  datatype MessageResult = MessageResult(matcher: Label, knowledge: seq<Value>, opaqueParts: Option<seq<Value>>)

  /** What a PUT does in one call: succeed or fail, raise claims, emit messages. After the
      messages its outbound channel is drained, or taking another one fails. */
  datatype Reply = Reply(ok: bool, claims: seq<Claim>, messages: seq<MessageResult>, drained: bool)

  /** The programs under test, as an arbitrary script: the reply to each call in turn. */
  type Script = nat -> Reply

  datatype ExecError =
    | AgentNotFound(name: AgentName)
    | PutFailed
    | TermFailed(error: EvalError)
    | NotAMessage
    | ExtractionFailed
    | TakeFailed
    | SecurityClaim

  /** The types that an input step may inject, the functions, and the verdict over claims. */
  datatype Protocol = Protocol(messageType: TypeId, opaqueType: TypeId, world: World, violated: seq<Claim> -> bool)

  // ------------------------------------------------------------------ a run, as a function

  datatype State = State(knowledge: seq<Knowledge>, agents: seq<Agent>, claims: seq<Claim>, calls: nat)

  datatype Run = Run(state: State, result: Result<(), ExecError>)

  /** After one call into a PUT; any call may raise claims. */
  function Called(s: State, script: Script): State {
    s.(claims := s.claims + script(s.calls).claims, calls := s.calls + 1)
  }

  predicate Knows(agents: seq<Agent>, name: AgentName) {
    exists i :: 0 <= i < |agents| && agents[i].name == name
  }

  /** A reused agent is renamed before its PUT is told, a new one added after its PUT exists. */
  function SpawnOneRun(s: State, d: AgentDescriptor, script: Script): Run {
    var spawned := Called(s, script).(agents := SpawnOne(s.agents, d));
    if script(s.calls).ok then Run(spawned, Ok(()))
    else Run(if FindReusable(s.agents, d).Some? then spawned else Called(s, script), Err(PutFailed))
  }

  function SpawnRun(s: State, ds: seq<AgentDescriptor>, script: Script): Run {
    if ds == [] then Run(s, Ok(()))
    else
      var front := SpawnRun(s, ds[..|ds| - 1], script);
      if front.result.Err? then front else SpawnOneRun(front.state, ds[|ds| - 1], script)
  }

  function ResetRun(s: State, count: nat, script: Script): Run
    decreases count
  {
    if count == 0 then Run(s, Ok(()))
    else if script(s.calls).ok then ResetRun(Called(s, script), count - 1, script)
    else Run(Called(s, script), Err(PutFailed))
  }

  function LabelAll(agent: AgentName, matcher: Label, vs: seq<Value>): seq<Knowledge> {
    seq(|vs|, i requires 0 <= i < |vs| => Knowledge(agent, matcher, vs[i]))
  }

  /** The knowledge one message adds: structured parts under its label, opaque parts
      without a label. */
  function Learned(agent: AgentName, m: MessageResult): seq<Knowledge> {
    LabelAll(agent, m.matcher, m.knowledge) + if m.opaqueParts.Some? then LabelAll(agent, None, m.opaqueParts.value) else []
  }

  function LearnRun(s: State, agent: AgentName, ms: seq<MessageResult>): Run {
    if ms == [] then Run(s, Ok(()))
    else
      var front, m := LearnRun(s, agent, ms[..|ms| - 1]), ms[|ms| - 1];
      if front.result.Err? then front
      else if m.opaqueParts.None? then Run(front.state, Err(ExtractionFailed))
      else Run(front.state.(knowledge := front.state.knowledge + Learned(agent, m)), Ok(()))
  }

  function OutputRun(s: State, agent: AgentName, script: Script): Run {
    if !Knows(s.agents, agent) then Run(s, Err(AgentNotFound(agent)))
    else if !script(s.calls).ok then Run(Called(s, script), Err(PutFailed))
    else
      var learned := LearnRun(Called(s, script), agent, script(s.calls).messages);
      if learned.result.Ok? && !script(s.calls).drained then Run(learned.state, Err(TakeFailed)) else learned
  }

  function InputRun(s: State, agent: AgentName, recipe: Term, protocol: Protocol, script: Script): Run {
    match Eval(recipe, Context(s.knowledge, s.claims), protocol.world)
    case Err(e) => Run(s, Err(TermFailed(e)))
    case Ok(v) =>
      if v.typ != protocol.messageType && v.typ != protocol.opaqueType then Run(s, Err(NotAMessage))
      else if !Knows(s.agents, agent) then Run(s, Err(AgentNotFound(agent)))
      else Run(Called(s, script), if script(s.calls).ok then Ok(()) else Err(PutFailed))
  }

  /** An input step is followed by an output of the same agent. */
  function StepRun(s: State, step: Step, protocol: Protocol, script: Script): Run {
    match step.action
    case Output => OutputRun(s, step.agent, script)
    case Input(recipe) =>
      var input := InputRun(s, step.agent, recipe, protocol, script);
      if input.result.Err? then input else OutputRun(input.state, step.agent, script)
  }

  function StepsRun(s: State, steps: seq<Step>, protocol: Protocol, script: Script): Run {
    if steps == [] then Run(s, Ok(()))
    else
      var front := StepsRun(s, steps[..|steps| - 1], protocol, script);
      if front.result.Err? then front else StepRun(front.state, steps[|steps| - 1], protocol, script)
  }

  /** Prior traces, then the trace's own agents and steps, then the oracle. */
  function ExecRun(t: Trace, s: State, protocol: Protocol, script: Script): Run
    decreases t, 1
  {
    var priors := PriorsRun(t.priorTraces, s, protocol, script);
    if priors.result.Err? then priors else BodyRun(t, priors.state, protocol, script)
  }

  function BodyRun(t: Trace, s: State, protocol: Protocol, script: Script): Run {
    var spawned := SpawnRun(s, t.descriptors, script);
    if spawned.result.Err? then spawned
    else
      var stepped := StepsRun(spawned.state, t.steps, protocol, script);
      if stepped.result.Ok? && protocol.violated(stepped.state.claims)
      then Run(stepped.state, Err(SecurityClaim)) else stepped
  }

  function PriorsRun(priors: seq<Trace>, s: State, protocol: Protocol, script: Script): Run
    decreases priors, 0
  {
    if priors == [] then Run(s, Ok(()))
    else
      var front := PriorsRun(priors[..|priors| - 1], s, protocol, script);
      if front.result.Err? then front else PriorRun(priors[|priors| - 1], front.state, protocol, script)
  }

  /** A prior trace is spawned, run and its agents are reset. */
  function PriorRun(p: Trace, s: State, protocol: Protocol, script: Script): Run
    decreases p, 2
  {
    var spawned := SpawnRun(s, p.descriptors, script);
    if spawned.result.Err? then spawned
    else
      var ran := ExecRun(p, spawned.state, protocol, script);
      if ran.result.Err? then ran else ResetRun(ran.state, |ran.state.agents|, script)
  }

  // ------------------------------------------------------------------ what every run keeps

  /** Agents keep their place and their PUT, and stay one per class. */
  ghost predicate Developed(before: seq<Agent>, now: seq<Agent>) {
    && |before| <= |now|
    && (forall i :: 0 <= i < |before| ==> now[i].put == before[i].put)
    && (OnePerClass(before) ==> OnePerClass(now))
  }

  /** Knowledge and claims are append-only. */
  ghost predicate Grew(s: State, s': State) {
    s.knowledge <= s'.knowledge && s.claims <= s'.claims && Developed(s.agents, s'.agents)
  }

  /** The run stopped because a dynamic function was handed missing or mistyped arguments. */
  ghost predicate FailedTyping(r: Result<(), ExecError>) {
    r.Err? && r.error.TermFailed? && TypeFailure(r.error.error)
  }

  /** The claims a PUT raises in one call carry values of the types they advertise, except
      perhaps for some that others of the same call hide. */
  ghost predicate Honest(script: Script) {
    forall n :: ClaimsAgree(script(n).claims)
  }

  /** What the PUTs raised in calls number `a` up to, not including, `b`. */
  ghost function Raised(script: Script, a: nat, b: nat): seq<Claim>
    decreases b
  {
    if a >= b then [] else Raised(script, a, b - 1) + script(b - 1).claims
  }

  lemma {:induction false} RaisedConcat(script: Script, a: nat, b: nat, c: nat)
    requires a <= b <= c
    ensures Raised(script, a, c) == Raised(script, a, b) + Raised(script, b, c)
    decreases c
  {
    if b < c {
      RaisedConcat(script, a, b, c - 1);
      Assoc(Raised(script, a, b), Raised(script, b, c - 1), script(c - 1).claims);
    } else {
      NoSuffix(Raised(script, a, b));
    }
  }

  /** The claims are those from before and what the calls since then raised, call by call. */
  ghost predicate ClaimsFollow(s: State, s': State, script: Script) {
    s.calls <= s'.calls && s'.claims == s.claims + Raised(script, s.calls, s'.calls)
  }

  lemma ClaimsFollowOn(s: State, s1: State, s2: State, script: Script)
    requires ClaimsFollow(s, s1, script) && ClaimsFollow(s1, s2, script)
    ensures ClaimsFollow(s, s2, script)
  {
    RaisedConcat(script, s.calls, s1.calls, s2.calls);
    Assoc(s.claims, Raised(script, s.calls, s1.calls), Raised(script, s1.calls, s2.calls));
  }

  lemma CalledFollows(s: State, script: Script)
    ensures ClaimsFollow(s, Called(s, script), script)
  {
    assert Raised(script, s.calls, s.calls) == [];
    assert Raised(script, s.calls, s.calls + 1) == [] + script(s.calls).claims;
  }

  /** The state grew, and its claims are those of the calls; claims stay honest if they were; and if the recipes were well-typed,
      no argument check failed. */
  ghost predicate Sound(s: State, run: Run, script: Script, typed: bool) {
    && Grew(s, run.state)
    && ClaimsFollow(s, run.state, script)
    && (Honest(script) && ClaimsAgree(s.claims) ==>
          ClaimsAgree(run.state.claims) && (typed ==> !FailedTyping(run.result)))
  }

  lemma SoundThen(s: State, first: Run, second: Run, script: Script, typed: bool)
    requires Sound(s, first, script, typed) && Sound(first.state, second, script, typed)
    ensures Sound(s, second, script, typed)
  {
    ClaimsFollowOn(s, first.state, second.state, script);
  }

  lemma CalledSound(s: State, script: Script, r: Result<(), ExecError>)
    requires r.Err? ==> !r.error.TermFailed?
    ensures Sound(s, Run(Called(s, script), r), script, true)
  {
    CalledFollows(s, script);
    if Honest(script) && ClaimsAgree(s.claims) {
      ClaimsAgreeConcat(s.claims, script(s.calls).claims);
    }
  }

  lemma SpawnOneSound(s: State, d: AgentDescriptor, script: Script)
    ensures Sound(s, SpawnOneRun(s, d, script), script, true)
  {
    CalledSound(s, script, Ok(()));
    if OnePerClass(s.agents) {
      SpawnOneExact(s.agents, d);
    }
  }

  lemma {:induction false} SpawnSound(s: State, ds: seq<AgentDescriptor>, script: Script)
    ensures Sound(s, SpawnRun(s, ds, script), script, true)
    ensures SpawnRun(s, ds, script).result.Ok? ==> SpawnRun(s, ds, script).state.agents == Spawn(s.agents, ds)
  {
    if ds != [] {
      var front := SpawnRun(s, ds[..|ds| - 1], script);
      SpawnSound(s, ds[..|ds| - 1], script);
      if front.result.Ok? {
        SpawnOneSound(front.state, ds[|ds| - 1], script);
        SoundThen(s, front, SpawnOneRun(front.state, ds[|ds| - 1], script), script, true);
      }
    }
  }

  lemma {:induction false} ResetSound(s: State, count: nat, script: Script)
    ensures Sound(s, ResetRun(s, count, script), script, true)
    ensures ResetRun(s, count, script).state.agents == s.agents
    decreases count
  {
    if count > 0 {
      CalledSound(s, script, Ok(()));
      CalledSound(s, script, Err(PutFailed));
      if script(s.calls).ok {
        ResetSound(Called(s, script), count - 1, script);
        SoundThen(s, Run(Called(s, script), Ok(())), ResetRun(s, count, script), script, true);
      }
    }
  }

  lemma {:induction false} LearnSound(s: State, agent: AgentName, ms: seq<MessageResult>, script: Script)
    ensures Sound(s, LearnRun(s, agent, ms), script, true)
    ensures LearnRun(s, agent, ms).state.agents == s.agents
  {
    if ms != [] {
      LearnSound(s, agent, ms[..|ms| - 1], script);
    }
  }

  lemma OutputSound(s: State, agent: AgentName, script: Script)
    ensures Sound(s, OutputRun(s, agent, script), script, true)
    ensures OutputRun(s, agent, script).state.agents == s.agents
  {
    CalledSound(s, script, Err(PutFailed));
    CalledSound(s, script, Ok(()));
    LearnSound(Called(s, script), agent, script(s.calls).messages, script);
    SoundThen(s, Run(Called(s, script), Ok(())), LearnRun(Called(s, script), agent, script(s.calls).messages), script, true);
  }

  lemma InputSound(s: State, agent: AgentName, recipe: Term, protocol: Protocol, script: Script)
    ensures Sound(s, InputRun(s, agent, recipe, protocol, script), script, WellTyped(recipe))
    ensures InputRun(s, agent, recipe, protocol, script).state.agents == s.agents
  {
    if WellTyped(recipe) && ClaimsAgree(s.claims) {
      EvalSound(recipe, Context(s.knowledge, s.claims), protocol.world);
    }
    CalledSound(s, script, Ok(()));
    CalledSound(s, script, Err(PutFailed));
  }

  lemma StepSound(s: State, step: Step, protocol: Protocol, script: Script)
    ensures Sound(s, StepRun(s, step, protocol, script), script, step.action.Input? ==> WellTyped(step.action.recipe))
    ensures StepRun(s, step, protocol, script).state.agents == s.agents
  {
    match step.action
    case Output => OutputSound(s, step.agent, script);
    case Input(recipe) =>
      var input := InputRun(s, step.agent, recipe, protocol, script);
      InputSound(s, step.agent, recipe, protocol, script);
      if input.result.Ok? {
        OutputSound(input.state, step.agent, script);
        SoundThen(s, input, OutputRun(input.state, step.agent, script), script, WellTyped(recipe));
      }
  }

  lemma {:induction false} StepsSound(s: State, steps: seq<Step>, protocol: Protocol, script: Script)
    ensures Sound(s, StepsRun(s, steps, protocol, script), script, WellTypedSteps(steps))
    ensures StepsRun(s, steps, protocol, script).state.agents == s.agents
  {
    if steps != [] {
      var n := |steps| - 1;
      var front := StepsRun(s, steps[..n], protocol, script);
      StepsSound(s, steps[..n], protocol, script);
      assert WellTypedSteps(steps) ==> WellTypedSteps(steps[..n]);
      if front.result.Ok? {
        StepSound(front.state, steps[n], protocol, script);
        SoundThen(s, front, StepRun(front.state, steps[n], protocol, script), script, WellTypedSteps(steps));
      }
    }
  }

  lemma BodySound(t: Trace, s: State, protocol: Protocol, script: Script)
    ensures Sound(s, BodyRun(t, s, protocol, script), script, WellTypedSteps(t.steps))
    ensures var run := BodyRun(t, s, protocol, script);
            run.result.Ok? ==> run.state.agents == Spawn(s.agents, t.descriptors) && !protocol.violated(run.state.claims)
  {
    var spawned := SpawnRun(s, t.descriptors, script);
    SpawnSound(s, t.descriptors, script);
    if spawned.result.Ok? {
      StepsSound(spawned.state, t.steps, protocol, script);
      SoundThen(s, spawned, StepsRun(spawned.state, t.steps, protocol, script), script, WellTypedSteps(t.steps));
    }
  }

  /** Over every run of every trace, for any nesting of prior traces and whatever the PUTs
      do, whether it succeeds or fails half-way: knowledge and claims are append-only,
      agents stay one per class, and a well-typed trace never fails an argument check. */
  lemma {:induction false} ExecSound(t: Trace, s: State, protocol: Protocol, script: Script)
    ensures Sound(s, ExecRun(t, s, protocol, script), script, WellTypedTrace(t))
    ensures ExecRun(t, s, protocol, script).result.Ok? ==>
              && ExecRun(t, s, protocol, script).state.agents == AgentsAfter(t, s.agents)
              && !protocol.violated(ExecRun(t, s, protocol, script).state.claims)
    decreases t, 1
  {
    var priors := PriorsRun(t.priorTraces, s, protocol, script);
    PriorsSound(t.priorTraces, s, protocol, script);
    if priors.result.Ok? {
      BodySound(t, priors.state, protocol, script);
      SoundThen(s, priors, BodyRun(t, priors.state, protocol, script), script, WellTypedTrace(t));
    }
  }

  ghost predicate WellTypedTraces(ts: seq<Trace>) {
    forall i :: 0 <= i < |ts| ==> WellTypedTrace(ts[i])
  }

  lemma {:induction false} PriorsSound(ts: seq<Trace>, s: State, protocol: Protocol, script: Script)
    ensures Sound(s, PriorsRun(ts, s, protocol, script), script, WellTypedTraces(ts))
    ensures PriorsRun(ts, s, protocol, script).result.Ok? ==>
              PriorsRun(ts, s, protocol, script).state.agents == AgentsAfterPriors(ts, s.agents)
    decreases ts, 0
  {
    if ts != [] {
      var n := |ts| - 1;
      var front := PriorsRun(ts[..n], s, protocol, script);
      PriorsSound(ts[..n], s, protocol, script);
      assert WellTypedTraces(ts) ==> WellTypedTraces(ts[..n]);
      if front.result.Ok? {
        PriorSound(ts[n], front.state, protocol, script);
        SoundThen(s, front, PriorRun(ts[n], front.state, protocol, script), script, WellTypedTraces(ts));
      }
    }
  }

  lemma {:induction false} PriorSound(p: Trace, s: State, protocol: Protocol, script: Script)
    ensures Sound(s, PriorRun(p, s, protocol, script), script, WellTypedTrace(p))
    ensures PriorRun(p, s, protocol, script).result.Ok? ==>
              PriorRun(p, s, protocol, script).state.agents == AgentsAfter(p, Spawn(s.agents, p.descriptors))
    decreases p, 2
  {
    var spawned := SpawnRun(s, p.descriptors, script);
    SpawnSound(s, p.descriptors, script);
    if spawned.result.Ok? {
      var ran := ExecRun(p, spawned.state, protocol, script);
      ExecSound(p, spawned.state, protocol, script);
      SoundThen(s, spawned, ran, script, WellTypedTrace(p));
      if ran.result.Ok? {
        ResetSound(ran.state, |ran.state.agents|, script);
        SoundThen(s, ran, ResetRun(ran.state, |ran.state.agents|, script), script, WellTypedTrace(p));
      }
    }
  }

  ghost predicate KeepsAnswers(s: State, s': State) {
    && (forall typ, q :: AnswerIndex(s.knowledge, typ, q).Some? && !Loose(q.matcher) ==>
                           AnswerIndex(s'.knowledge, typ, q) == AnswerIndex(s.knowledge, typ, q))
    && (forall t, world :: Anchored(t, s.knowledge) ==>
                             Eval(t, Context(s'.knowledge, s'.claims), world) == Eval(t, Context(s.knowledge, s.claims), world))
  }

  lemma GrowthKeepsAnswers(s: State, s': State)
    requires Grew(s, s')
    ensures KeepsAnswers(s, s')
  {
    var more := s'.knowledge[|s.knowledge|..];
    assert s'.knowledge == s.knowledge + more;
    forall typ, q | AnswerIndex(s.knowledge, typ, q).Some? && !Loose(q.matcher)
      ensures AnswerIndex(s'.knowledge, typ, q) == AnswerIndex(s.knowledge, typ, q)
    {
      TightAnswersNeverChange(s.knowledge, more, typ, q);
    }
    forall t, world | Anchored(t, s.knowledge)
      ensures Eval(t, Context(s'.knowledge, s'.claims), world) == Eval(t, Context(s.knowledge, s.claims), world)
    {
      AnchoredTermsKeepTheirValue(t, Context(s.knowledge, s.claims), Context(s'.knowledge, s'.claims), world);
    }
  }

  /** Over every run of every trace, successful or not, a query that is not loose keeps the
      answer it has, and a term with only such variables keeps its value. */
  lemma RunsKeepAnswers(t: Trace, s: State, protocol: Protocol, script: Script)
    ensures KeepsAnswers(s, ExecRun(t, s, protocol, script).state)
  {
    ExecSound(t, s, protocol, script);
    GrowthKeepsAnswers(s, ExecRun(t, s, protocol, script).state);
  }

  /** The same from any point within a run: after the first `i` steps, for the rest of them. */
  lemma RestOfRunKeepsAnswers(s: State, steps: seq<Step>, i: nat, protocol: Protocol, script: Script)
    requires i <= |steps|
    ensures KeepsAnswers(StepsRun(s, steps[..i], protocol, script).state, StepsRun(s, steps, protocol, script).state)
  {
    StepsGrow(s, steps, i, protocol, script);
    GrowthKeepsAnswers(StepsRun(s, steps[..i], protocol, script).state, StepsRun(s, steps, protocol, script).state);
  }

  lemma {:induction false} StepsGrow(s: State, steps: seq<Step>, i: nat, protocol: Protocol, script: Script)
    requires i <= |steps|
    ensures Grew(StepsRun(s, steps[..i], protocol, script).state, StepsRun(s, steps, protocol, script).state)
  {
    if i == |steps| {
      assert steps[..i] == steps;
    } else {
      var n := |steps| - 1;
      assert steps[..n][..i] == steps[..i];
      StepsGrow(s, steps[..n], i, protocol, script);
      LastStepGrows(s, steps, protocol, script);
      GrewOn(StepsRun(s, steps[..i], protocol, script).state, StepsRun(s, steps[..n], protocol, script).state,
             StepsRun(s, steps, protocol, script).state);
    }
  }

  lemma LastStepGrows(s: State, steps: seq<Step>, protocol: Protocol, script: Script)
    requires steps != []
    ensures Grew(StepsRun(s, steps[..|steps| - 1], protocol, script).state, StepsRun(s, steps, protocol, script).state)
  {
    var front := StepsRun(s, steps[..|steps| - 1], protocol, script);
    if front.result.Ok? {
      StepSound(front.state, steps[|steps| - 1], protocol, script);
    }
  }

  lemma GrewOn(a: State, b: State, c: State)
    requires Grew(a, b) && Grew(b, c)
    ensures Grew(a, c)
  {
  }

  /** In every context reachable from a new one there are at most four agents. */
  lemma ReachableContexts(t: Trace, protocol: Protocol, script: Script)
    ensures var s := ExecRun(t, State([], [], [], 0), protocol, script).state;
            OnePerClass(s.agents) && |s.agents| <= 4
  {
    ExecSound(t, State([], [], [], 0), protocol, script);
    AtMostFourAgents(ExecRun(t, State([], [], [], 0), protocol, script).state.agents);
  }

  // ------------------------------------------------------------------ the context

  class Puts {
    const script: Script
    var calls: nat

    constructor (script: Script)
      ensures this.script == script && calls == 0
    {
      this.script, calls := script, 0;
    }

    method Call() returns (r: Reply)
      modifies this
      ensures r == script(old(calls)) && calls == old(calls) + 1
    {
      r := script(calls);
      calls := calls + 1;
    }
  }

  class TraceContext {
    var knowledge: seq<Knowledge>
    var agents: seq<Agent>
    var claims: seq<Claim>
    const puts: Puts

    constructor (puts: Puts)
      ensures knowledge == [] && agents == [] && claims == [] && this.puts == puts
    {
      knowledge, agents, claims, this.puts := [], [], [], puts;
    }

    ghost function Now(): State
      reads this, puts
    {
      State(knowledge, agents, claims, puts.calls)
    }

    method CallPut() returns (r: Reply)
      modifies puts, this`claims
      ensures r == puts.script(old(puts.calls)) && Now() == Called(old(Now()), puts.script)
    {
      r := puts.Call();
      claims := claims + r.claims;
    }

    method SpawnAgents(ds: seq<AgentDescriptor>) returns (r: Result<(), ExecError>)
      modifies puts, this`agents, this`claims
      ensures Run(Now(), r) == SpawnRun(old(Now()), ds, puts.script)
    {
      for i := 0 to |ds|
        invariant SpawnRun(old(Now()), ds[..i], puts.script) == Run(Now(), Ok(()))
      {
        assert ds[..i + 1][..i] == ds[..i];
        r := SpawnAgent(ds[i]);
        if r.Err? {
          SpawnStopsAtFailure(old(Now()), ds, i + 1, puts.script);
          return;
        }
      }
      assert ds[..|ds|] == ds;
      r := Ok(());
    }

    method SpawnAgent(d: AgentDescriptor) returns (r: Result<(), ExecError>)
      modifies puts, this`agents, this`claims
      ensures Run(Now(), r) == SpawnOneRun(old(Now()), d, puts.script)
    {
      var reusable := FindReusable(agents, d);
      var reply := CallPut();
      if reusable.Some? {
        agents := agents[reusable.value := agents[reusable.value].(name := d.name)];
        if !reply.ok {
          return Err(PutFailed);
        }
      } else {
        if !reply.ok {
          return Err(PutFailed);
        }
        agents := agents + [Agent(d.name, d)];
      }
      r := Ok(());
    }

    method ResetAgents() returns (r: Result<(), ExecError>)
      modifies puts, this`claims
      ensures Run(Now(), r) == ResetRun(old(Now()), |agents|, puts.script)
    {
      for i := 0 to |agents|
        invariant ResetRun(old(Now()), |agents|, puts.script) == ResetRun(Now(), |agents| - i, puts.script)
      {
        var reply := CallPut();
        if !reply.ok {
          return Err(PutFailed);
        }
      }
      r := Ok(());
    }

    method AddAll(agent: AgentName, matcher: Label, vs: seq<Value>)
      modifies this`knowledge
      ensures knowledge == old(knowledge) + LabelAll(agent, matcher, vs)
    {
      for i := 0 to |vs|
        invariant knowledge == old(knowledge) + LabelAll(agent, matcher, vs[..i])
      {
        Assoc(old(knowledge), LabelAll(agent, matcher, vs[..i]), [Knowledge(agent, matcher, vs[i])]);
        knowledge := knowledge + [Knowledge(agent, matcher, vs[i])];
        assert LabelAll(agent, matcher, vs[..i + 1]) == LabelAll(agent, matcher, vs[..i]) + [Knowledge(agent, matcher, vs[i])];
      }
      assert vs[..|vs|] == vs;
    }

    /** The messages an agent emitted, one after the other. */
    method LearnAll(agent: AgentName, messages: seq<MessageResult>) returns (r: Result<(), ExecError>)
      modifies this`knowledge
      ensures Run(Now(), r) == LearnRun(old(Now()), agent, messages)
    {
      for k := 0 to |messages|
        invariant LearnRun(old(Now()), agent, messages[..k]) == Run(Now(), Ok(()))
      {
        var m := messages[k];
        assert messages[..k + 1][..k] == messages[..k];
        if m.opaqueParts.None? {
          LearnStopsAtFailure(old(Now()), agent, messages, k + 1);
          return Err(ExtractionFailed);
        }
        Assoc(knowledge, LabelAll(agent, m.matcher, m.knowledge), LabelAll(agent, None, m.opaqueParts.value));
        AddAll(agent, m.matcher, m.knowledge);
        AddAll(agent, None, m.opaqueParts.value);
      }
      assert messages[..|messages|] == messages;
      r := Ok(());
    }

    /** `OutputAction::output`. */
    method Output(agent: AgentName) returns (r: Result<(), ExecError>)
      modifies puts, this`claims, this`knowledge
      ensures Run(Now(), r) == OutputRun(old(Now()), agent, puts.script)
    {
      if !Knows(agents, agent) {
        return Err(AgentNotFound(agent));
      }
      var reply := CallPut();
      if !reply.ok {
        return Err(PutFailed);
      }
      r := LearnAll(agent, reply.messages);
      if r.Ok? && !reply.drained {
        r := Err(TakeFailed);
      }
    }

    /** `InputAction::input`. */
    method Input(agent: AgentName, recipe: Term, protocol: Protocol) returns (r: Result<(), ExecError>)
      modifies puts, this`claims
      ensures Run(Now(), r) == InputRun(old(Now()), agent, recipe, protocol, puts.script)
    {
      var evaluated := Evaluate(recipe, Context(knowledge, claims), protocol.world);
      if evaluated.Err? {
        return Err(TermFailed(evaluated.error));
      }
      if evaluated.value.typ != protocol.messageType && evaluated.value.typ != protocol.opaqueType {
        return Err(NotAMessage);
      }
      if !Knows(agents, agent) {
        return Err(AgentNotFound(agent));
      }
      var reply := CallPut();
      r := if reply.ok then Ok(()) else Err(PutFailed);
    }

    method ExecuteStep(step: Step, protocol: Protocol) returns (r: Result<(), ExecError>)
      modifies puts, this`claims, this`knowledge
      ensures Run(Now(), r) == StepRun(old(Now()), step, protocol, puts.script)
    {
      match step.action
      case Output =>
        r := Output(step.agent);
      case Input(recipe) =>
        r := Input(step.agent, recipe, protocol);
        if r.Ok? {
          r := Output(step.agent);
        }
    }

    method ExecuteSteps(steps: seq<Step>, protocol: Protocol) returns (r: Result<(), ExecError>)
      modifies puts, this`claims, this`knowledge
      ensures Run(Now(), r) == StepsRun(old(Now()), steps, protocol, puts.script)
    {
      for i := 0 to |steps|
        invariant StepsRun(old(Now()), steps[..i], protocol, puts.script) == Run(Now(), Ok(()))
      {
        assert steps[..i + 1][..i] == steps[..i];
        r := ExecuteStep(steps[i], protocol);
        if r.Err? {
          StepsStopAtFailure(old(Now()), steps, i + 1, protocol, puts.script);
          return;
        }
      }
      assert steps[..|steps|] == steps;
      r := Ok(());
    }

    /** `Trace::execute`. */
    method Execute(t: Trace, protocol: Protocol) returns (r: Result<(), ExecError>)
      modifies this, puts
      ensures Run(Now(), r) == ExecRun(t, old(Now()), protocol, puts.script)
      decreases t, 1
    {
      r := ExecutePriors(t.priorTraces, protocol);
      if r.Err? {
        return;
      }
      r := SpawnAgents(t.descriptors);
      if r.Err? {
        return;
      }
      r := ExecuteSteps(t.steps, protocol);
      if r.Ok? && protocol.violated(claims) {
        r := Err(SecurityClaim);
      }
    }

    method ExecutePriors(priors: seq<Trace>, protocol: Protocol) returns (r: Result<(), ExecError>)
      modifies this, puts
      ensures Run(Now(), r) == PriorsRun(priors, old(Now()), protocol, puts.script)
      decreases priors, 0
    {
      for i := 0 to |priors|
        invariant PriorsRun(priors[..i], old(Now()), protocol, puts.script) == Run(Now(), Ok(()))
      {
        PriorsOneMore(priors, i, old(Now()), protocol, puts.script);
        r := ExecutePrior(priors[i], protocol);
        if r.Err? {
          PriorsStopAtFailure(priors, i + 1, old(Now()), protocol, puts.script);
          return;
        }
        assert r.value == ();
      }
      assert priors[..|priors|] == priors;
      r := Ok(());
    }

    method ExecutePrior(p: Trace, protocol: Protocol) returns (r: Result<(), ExecError>)
      modifies this, puts
      ensures Run(Now(), r) == PriorRun(p, old(Now()), protocol, puts.script)
      decreases p, 2
    {
      r := SpawnAgents(p.descriptors);
      if r.Err? {
        return;
      }
      r := Execute(p, protocol);
      if r.Err? {
        return;
      }
      r := ResetAgents();
    }
  }

  lemma PriorsOneMore(ts: seq<Trace>, i: nat, s: State, protocol: Protocol, script: Script)
    requires i < |ts| && PriorsRun(ts[..i], s, protocol, script).result.Ok?
    ensures PriorsRun(ts[..i + 1], s, protocol, script)
            == PriorRun(ts[i], PriorsRun(ts[..i], s, protocol, script).state, protocol, script)
  {
    assert ts[..i + 1][..i] == ts[..i];
  }

  // The `?` operator: a failure at one element is the outcome of the whole.

  lemma {:induction false} SpawnStopsAtFailure(s: State, ds: seq<AgentDescriptor>, i: nat, script: Script)
    requires i <= |ds| && SpawnRun(s, ds[..i], script).result.Err?
    ensures SpawnRun(s, ds, script) == SpawnRun(s, ds[..i], script)
    decreases |ds| - i
  {
    if i == |ds| {
      assert ds[..i] == ds;
    } else {
      assert ds[..i + 1][..i] == ds[..i];
      SpawnStopsAtFailure(s, ds, i + 1, script);
    }
  }

  lemma {:induction false} LearnStopsAtFailure(s: State, agent: AgentName, ms: seq<MessageResult>, i: nat)
    requires i <= |ms| && LearnRun(s, agent, ms[..i]).result.Err?
    ensures LearnRun(s, agent, ms) == LearnRun(s, agent, ms[..i])
    decreases |ms| - i
  {
    if i == |ms| {
      assert ms[..i] == ms;
    } else {
      assert ms[..i + 1][..i] == ms[..i];
      LearnStopsAtFailure(s, agent, ms, i + 1);
    }
  }

  lemma {:induction false} StepsStopAtFailure(s: State, steps: seq<Step>, i: nat, protocol: Protocol, script: Script)
    requires i <= |steps| && StepsRun(s, steps[..i], protocol, script).result.Err?
    ensures StepsRun(s, steps, protocol, script) == StepsRun(s, steps[..i], protocol, script)
    decreases |steps| - i
  {
    if i == |steps| {
      assert steps[..i] == steps;
    } else {
      assert steps[..i + 1][..i] == steps[..i];
      StepsStopAtFailure(s, steps, i + 1, protocol, script);
    }
  }

  lemma {:induction false} PriorsStopAtFailure(ts: seq<Trace>, i: nat, s: State, protocol: Protocol, script: Script)
    requires i <= |ts| && PriorsRun(ts[..i], s, protocol, script).result.Err?
    ensures PriorsRun(ts, s, protocol, script) == PriorsRun(ts[..i], s, protocol, script)
    decreases |ts| - i
  {
    if i == |ts| {
      assert ts[..i] == ts;
    } else {
      assert ts[..i + 1][..i] == ts[..i];
      PriorsStopAtFailure(ts, i + 1, s, protocol, script);
    }
  }
}
