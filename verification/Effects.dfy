/** What a run does, call by call and piece by piece. */
module Effects {
  import opened Wrappers
  import opened Terms
  import opened Traces
  import opened Knowing
  import opened Evaluation
  import opened Execution

  // ------------------------------------------------------------------ outputs

  /** No message so far lacks its opaque parts. */
  ghost predicate AllExtracted(ms: seq<MessageResult>) {
    forall k :: 0 <= k < |ms| ==> ms[k].opaqueParts.Some?
  }

  /** How many pieces the messages before number `k` give. */
  ghost function Start(ms: seq<MessageResult>, k: nat): nat
    requires k <= |ms| && AllExtracted(ms)
  {
    if k == 0 then 0 else Start(ms, k - 1) + |ms[k - 1].knowledge| + |ms[k - 1].opaqueParts.value|
  }

  /** Message `k` gave its structured parts under its label, then its opaque parts without
      one, all as knowledge of the agent, from index `from` on. */
  ghost predicate GaveAt(after: seq<Knowledge>, from: nat, agent: AgentName, m: MessageResult)
    requires m.opaqueParts.Some?
  {
    && from + |m.knowledge| + |m.opaqueParts.value| <= |after|
    && (forall i :: 0 <= i < |m.knowledge| ==> after[from + i] == Knowledge(agent, m.matcher, m.knowledge[i]))
    && (forall i :: 0 <= i < |m.opaqueParts.value| ==>
          after[from + |m.knowledge| + i] == Knowledge(agent, None, m.opaqueParts.value[i]))
  }

  /** `after` is `before` with what the messages gave behind it, message by message. */
  ghost predicate LearnedFrom(before: seq<Knowledge>, after: seq<Knowledge>, agent: AgentName, ms: seq<MessageResult>)
    requires AllExtracted(ms)
  {
    && before <= after
    && |after| == |before| + Start(ms, |ms|)
    && forall k: nat :: k < |ms| ==> Gave(|before|, after, agent, ms, k)
  }

  /** Message `k` gave its pieces behind those of the messages before it. */
  ghost predicate Gave(base: nat, after: seq<Knowledge>, agent: AgentName, ms: seq<MessageResult>, k: nat)
    requires AllExtracted(ms) && k < |ms|
  {
    GaveAt(after, base + Start(ms, k), agent, ms[k])
  }

  lemma {:induction false} StartOfPrefix(ms: seq<MessageResult>, n: nat, k: nat)
    requires k <= n <= |ms| && AllExtracted(ms)
    ensures AllExtracted(ms[..n]) && Start(ms[..n], k) == Start(ms, k)
  {
    if k > 0 {
      StartOfPrefix(ms, n, k - 1);
    }
  }

  lemma GivesAt(before: seq<Knowledge>, agent: AgentName, m: MessageResult)
    requires m.opaqueParts.Some?
    ensures GaveAt(before + Learned(agent, m), |before|, agent, m)
    ensures |Learned(agent, m)| == |m.knowledge| + |m.opaqueParts.value|
  {
    var a, b := LabelAll(agent, m.matcher, m.knowledge), LabelAll(agent, None, m.opaqueParts.value);
    var after := before + Learned(agent, m);
    assert Learned(agent, m) == a + b;
    forall i | 0 <= i < |m.knowledge|
      ensures after[|before| + i] == Knowledge(agent, m.matcher, m.knowledge[i])
    {
      assert (a + b)[i] == a[i];
    }
    forall i | 0 <= i < |m.opaqueParts.value|
      ensures after[|before| + |m.knowledge| + i] == Knowledge(agent, None, m.opaqueParts.value[i])
    {
      assert (a + b)[|a| + i] == b[i];
    }
  }

  lemma GaveStill(after: seq<Knowledge>, longer: seq<Knowledge>, from: nat, agent: AgentName, m: MessageResult)
    requires m.opaqueParts.Some? && GaveAt(after, from, agent, m) && after <= longer
    ensures GaveAt(longer, from, agent, m)
  {
    assert forall i :: 0 <= i < |after| ==> longer[i] == after[i];
  }

  lemma EarlierStill(before: seq<Knowledge>, mid: seq<Knowledge>, after: seq<Knowledge>, agent: AgentName,
                     ms: seq<MessageResult>, n: nat, k: nat)
    requires k < n <= |ms| && AllExtracted(ms) && AllExtracted(ms[..n])
    requires LearnedFrom(before, mid, agent, ms[..n]) && mid <= after
    ensures Gave(|before|, after, agent, ms, k)
  {
    StartOfPrefix(ms, n, k);
    var front := ms[..n];
    assert front[k] == ms[k];
    assert Gave(|before|, mid, agent, front, k);
    GaveStill(mid, after, |before| + Start(ms, k), agent, ms[k]);
  }

  lemma LearnedMore(before: seq<Knowledge>, mid: seq<Knowledge>, agent: AgentName, ms: seq<MessageResult>)
    requires ms != [] && AllExtracted(ms) && AllExtracted(ms[..|ms| - 1])
    requires LearnedFrom(before, mid, agent, ms[..|ms| - 1])
    ensures LearnedFrom(before, mid + Learned(agent, ms[|ms| - 1]), agent, ms)
  {
    var n := |ms| - 1;
    GivesAt(mid, agent, ms[n]);
    StartOfPrefix(ms, n, n);
    LearnedOneMore(before, mid, Learned(agent, ms[n]), agent, ms);
  }

  lemma LearnedOneMore(before: seq<Knowledge>, mid: seq<Knowledge>, more: seq<Knowledge>, agent: AgentName, ms: seq<MessageResult>)
    requires ms != [] && AllExtracted(ms) && AllExtracted(ms[..|ms| - 1])
    requires LearnedFrom(before, mid, agent, ms[..|ms| - 1]) && |mid| == |before| + Start(ms, |ms| - 1)
    requires GaveAt(mid + more, |mid|, agent, ms[|ms| - 1])
    requires |more| == |ms[|ms| - 1].knowledge| + |ms[|ms| - 1].opaqueParts.value|
    ensures LearnedFrom(before, mid + more, agent, ms)
  {
    var n, after := |ms| - 1, mid + more;
    forall k: nat | k < |ms|
      ensures Gave(|before|, after, agent, ms, k)
    {
      if k < n {
        EarlierStill(before, mid, after, agent, ms, n, k);
      }
    }
  }

  /** Messages that can all be extracted are learned one after the other. */
  lemma {:induction false} LearnAllOf(s: State, agent: AgentName, ms: seq<MessageResult>)
    requires AllExtracted(ms)
    ensures var run := LearnRun(s, agent, ms);
            && run.result == Ok(()) && run.state == s.(knowledge := run.state.knowledge)
            && LearnedFrom(s.knowledge, run.state.knowledge, agent, ms)
  {
    if ms != [] {
      var front := ms[..|ms| - 1];
      assert forall k :: 0 <= k < |front| ==> front[k] == ms[k];
      LearnAllOf(s, agent, front);
      LearnedMore(s.knowledge, LearnRun(s, agent, front).state.knowledge, agent, ms);
    }
  }

  /** The first message that cannot be extracted ends it, and leaves exactly what the
      messages before it gave. */
  lemma LearnUntil(s: State, agent: AgentName, ms: seq<MessageResult>, k: nat)
    requires k < |ms| && AllExtracted(ms[..k]) && ms[k].opaqueParts.None?
    ensures var run := LearnRun(s, agent, ms);
            && run.result == Err(ExtractionFailed) && run.state == s.(knowledge := run.state.knowledge)
            && LearnedFrom(s.knowledge, run.state.knowledge, agent, ms[..k])
  {
    LearnAllOf(s, agent, ms[..k]);
    assert ms[..k + 1][..k] == ms[..k];
    LearnStopsAtFailure(s, agent, ms, k + 1);
  }

  /** What taking the messages of a reply leaves, and how it ends. */
  ghost predicate Taken(before: State, after: Run, agent: AgentName, reply: Reply) {
    && after.state == before.(knowledge := after.state.knowledge)
    && (AllExtracted(reply.messages) ==>
          && LearnedFrom(before.knowledge, after.state.knowledge, agent, reply.messages)
          && after.result == (if reply.drained then Ok(()) else Err(TakeFailed)))
    && forall k :: 0 <= k < |reply.messages| && AllExtracted(reply.messages[..k]) && reply.messages[k].opaqueParts.None? ==>
                     && LearnedFrom(before.knowledge, after.state.knowledge, agent, reply.messages[..k])
                     && after.result == Err(ExtractionFailed)
  }

  /** An output: without the agent nothing happens; a PUT that fails is only called; else its
      messages are learned piece by piece until one cannot be extracted or taken. */
  lemma OutputExact(s: State, agent: AgentName, script: Script)
    ensures var run, reply := OutputRun(s, agent, script), script(s.calls);
            var called := s.(claims := s.claims + reply.claims, calls := s.calls + 1);
            if !Knows(s.agents, agent) then run == Run(s, Err(AgentNotFound(agent)))
            else if !reply.ok then run == Run(called, Err(PutFailed))
            else Taken(called, run, agent, reply)
  {
    var reply, called := script(s.calls), Called(s, script);
    if AllExtracted(reply.messages) {
      LearnAllOf(called, agent, reply.messages);
    } else {
      var k := FirstUnextracted(reply.messages);
      LearnUntil(called, agent, reply.messages, k);
    }
    forall k | 0 <= k < |reply.messages| && AllExtracted(reply.messages[..k]) && reply.messages[k].opaqueParts.None?
      ensures LearnedFrom(called.knowledge, LearnRun(called, agent, reply.messages).state.knowledge, agent, reply.messages[..k])
      ensures LearnRun(called, agent, reply.messages).result == Err(ExtractionFailed)
    {
      LearnUntil(called, agent, reply.messages, k);
    }
  }

  lemma {:induction false} FirstUnextracted(ms: seq<MessageResult>) returns (k: nat)
    requires !AllExtracted(ms)
    ensures k < |ms| && AllExtracted(ms[..k]) && ms[k].opaqueParts.None?
  {
    var n := |ms| - 1;
    if AllExtracted(ms[..n]) {
      k := n;
      assert forall i :: 0 <= i < n ==> ms[i] == ms[..n][i];
    } else {
      k := FirstUnextracted(ms[..n]);
      assert ms[..n][..k] == ms[..k];
    }
  }

  // ------------------------------------------------------------------ inputs and steps

  /** An input succeeds exactly if its recipe evaluates to a message, the agent is known and
      its PUT goes along; it adds no knowledge, and calls the PUT once if it gets that far. */
  lemma InputExact(s: State, agent: AgentName, recipe: Term, protocol: Protocol, script: Script)
    ensures var run, v := InputRun(s, agent, recipe, protocol, script), Eval(recipe, Context(s.knowledge, s.claims), protocol.world);
            var reaches := v.Ok? && v.value.typ in {protocol.messageType, protocol.opaqueType} && Knows(s.agents, agent);
            && (run.result.Ok? <==> reaches && script(s.calls).ok)
            && run.state == (if reaches then s.(claims := s.claims + script(s.calls).claims, calls := s.calls + 1) else s)
            && (v.Err? ==> run.result == Err(TermFailed(v.error)))
  {
  }

  /** The number of the call whose reply a step's output takes, counted from the step on. */
  function OutputCall(step: Step): nat {
    if step.action.Input? then 1 else 0
  }

  /** A successful step learns exactly the messages of its agent's reply to its output, which
      for an input step comes after the reply to the input. */
  lemma StepExact(s: State, step: Step, protocol: Protocol, script: Script)
    requires StepRun(s, step, protocol, script).result.Ok?
    ensures var after, reply := StepRun(s, step, protocol, script).state, script(s.calls + OutputCall(step));
            && after.agents == s.agents && after.calls == s.calls + OutputCall(step) + 1
            && AllExtracted(reply.messages) && reply.ok && reply.drained
            && LearnedFrom(s.knowledge, after.knowledge, step.agent, reply.messages)
  {
    if step.action.Input? {
      InputExact(s, step.agent, step.action.recipe, protocol, script);
      OutputSucceeded(InputRun(s, step.agent, step.action.recipe, protocol, script).state, step.agent, script);
    } else {
      OutputSucceeded(s, step.agent, script);
    }
  }

  lemma OutputSucceeded(s: State, agent: AgentName, script: Script)
    requires OutputRun(s, agent, script).result.Ok?
    ensures var after, reply := OutputRun(s, agent, script).state, script(s.calls);
            && after.agents == s.agents && after.calls == s.calls + 1
            && AllExtracted(reply.messages) && reply.ok && reply.drained
            && LearnedFrom(s.knowledge, after.knowledge, agent, reply.messages)
  {
    OutputExact(s, agent, script);
    var ms := script(s.calls).messages;
    if !AllExtracted(ms) {
      var k := FirstUnextracted(ms);
    }
  }

  /** The whole reply was learned, piece by piece. */
  ghost predicate Learns(before: State, after: State, agent: AgentName, reply: Reply) {
    AllExtracted(reply.messages) && LearnedFrom(before.knowledge, after.knowledge, agent, reply.messages)
  }

  function StepCalls(steps: seq<Step>): nat {
    if steps == [] then 0 else StepCalls(steps[..|steps| - 1]) + OutputCall(steps[|steps| - 1]) + 1
  }

  lemma PrefixSucceeds(s: State, steps: seq<Step>, i: nat, protocol: Protocol, script: Script)
    requires i <= |steps| && StepsRun(s, steps, protocol, script).result.Ok?
    ensures StepsRun(s, steps[..i], protocol, script).result.Ok?
  {
    if StepsRun(s, steps[..i], protocol, script).result.Err? {
      StepsStopAtFailure(s, steps, i, protocol, script);
    }
  }

  lemma {:induction false} StepsCalls(s: State, steps: seq<Step>, protocol: Protocol, script: Script)
    requires StepsRun(s, steps, protocol, script).result.Ok?
    ensures StepsRun(s, steps, protocol, script).state.calls == s.calls + StepCalls(steps)
  {
    if steps != [] {
      var n := |steps| - 1;
      StepsCalls(s, steps[..n], protocol, script);
      StepExact(StepsRun(s, steps[..n], protocol, script).state, steps[n], protocol, script);
    }
  }

  /** In a successful run of steps, step `i` adds to the knowledge exactly what its agent's
      reply holds, and that is the reply to the call with this number. */
  lemma StepsByIndex(s: State, steps: seq<Step>, i: nat, protocol: Protocol, script: Script)
    requires i < |steps| && StepsRun(s, steps, protocol, script).result.Ok?
    ensures var before, after := StepsRun(s, steps[..i], protocol, script).state, StepsRun(s, steps[..i + 1], protocol, script).state;
            var reply := script(s.calls + StepCalls(steps[..i]) + OutputCall(steps[i]));
            Learns(before, after, steps[i].agent, reply)
  {
    StepsSplit(s, steps, i, protocol, script);
    StepAt(StepsRun(s, steps[..i], protocol, script).state, steps[i], StepsRun(s, steps[..i + 1], protocol, script),
           s.calls + StepCalls(steps[..i]), protocol, script);
  }

  lemma StepsSplit(s: State, steps: seq<Step>, i: nat, protocol: Protocol, script: Script)
    requires i < |steps| && StepsRun(s, steps, protocol, script).result.Ok?
    ensures var before, after := StepsRun(s, steps[..i], protocol, script), StepsRun(s, steps[..i + 1], protocol, script);
            && after.result.Ok? && after == StepRun(before.state, steps[i], protocol, script)
            && before.state.calls == s.calls + StepCalls(steps[..i])
  {
    PrefixSucceeds(s, steps, i, protocol, script);
    PrefixSucceeds(s, steps, i + 1, protocol, script);
    StepsCalls(s, steps[..i], protocol, script);
    StepsOneMore(s, steps, i, protocol, script);
  }

  lemma StepsOneMore(s: State, steps: seq<Step>, i: nat, protocol: Protocol, script: Script)
    requires i < |steps| && StepsRun(s, steps[..i], protocol, script).result.Ok?
    ensures StepsRun(s, steps[..i + 1], protocol, script)
            == StepRun(StepsRun(s, steps[..i], protocol, script).state, steps[i], protocol, script)
  {
    assert steps[..i + 1][..i] == steps[..i];
  }

  lemma StepAt(before: State, step: Step, run: Run, c: nat, protocol: Protocol, script: Script)
    requires run == StepRun(before, step, protocol, script) && run.result.Ok? && before.calls == c
    ensures Learns(before, run.state, step.agent, script(c + OutputCall(step)))
  {
    StepExact(before, step, protocol, script);
  }

  // ------------------------------------------------------------------ spawning and resetting

  /** The PUTs go along in calls number `a` up to, not including, `b`. */
  ghost predicate GoesWell(script: Script, a: nat, b: nat) {
    forall n: nat :: a <= n < b ==> script(n).ok
  }

  /** Spawning goes well exactly if every call does. */
  lemma {:induction false} SpawnGoesWell(s: State, ds: seq<AgentDescriptor>, script: Script)
    requires GoesWell(script, s.calls, s.calls + |ds|)
    ensures SpawnRun(s, ds, script).result == Ok(())
    ensures SpawnRun(s, ds, script).state.agents == Spawn(s.agents, ds)
    ensures SpawnRun(s, ds, script).state.calls == s.calls + |ds|
  {
    if ds != [] {
      SpawnGoesWell(s, ds[..|ds| - 1], script);
    }
  }

  /** The first call that fails ends it, with a reused agent already renamed and a new one
      not yet there. */
  lemma SpawnFailsAt(s: State, ds: seq<AgentDescriptor>, script: Script, k: nat)
    requires k < |ds| && GoesWell(script, s.calls, s.calls + k) && !script(s.calls + k).ok
    ensures var run := SpawnRun(s, ds, script);
            && run.result == Err(PutFailed) && run.state.calls == s.calls + k + 1
            && run.state.agents == if FindReusable(Spawn(s.agents, ds[..k]), ds[k]).Some?
                                   then Spawn(s.agents, ds[..k + 1]) else Spawn(s.agents, ds[..k])
  {
    var mid := SpawnUntil(s, ds, script, k);
    SpawnOneFails(mid, ds[k], script);
    SpawnStopsAtFailure(s, ds, k + 1, script);
  }

  lemma SpawnUntil(s: State, ds: seq<AgentDescriptor>, script: Script, k: nat) returns (mid: State)
    requires k < |ds| && GoesWell(script, s.calls, s.calls + k)
    ensures mid.calls == s.calls + k && mid.agents == Spawn(s.agents, ds[..k])
    ensures SpawnRun(s, ds[..k + 1], script) == SpawnOneRun(mid, ds[k], script)
    ensures Spawn(s.agents, ds[..k + 1]) == SpawnOne(mid.agents, ds[k])
  {
    SpawnGoesWell(s, ds[..k], script);
    mid := SpawnRun(s, ds[..k], script).state;
    SpawnOneMore(s, ds[..k], ds[k], script);
    assert ds[..k + 1] == ds[..k] + [ds[k]];
  }

  lemma SpawnOneMore(s: State, ds: seq<AgentDescriptor>, d: AgentDescriptor, script: Script)
    requires SpawnRun(s, ds, script).result.Ok?
    ensures SpawnRun(s, ds + [d], script) == SpawnOneRun(SpawnRun(s, ds, script).state, d, script)
    ensures Spawn(s.agents, ds + [d]) == SpawnOne(Spawn(s.agents, ds), d)
  {
    var longer := ds + [d];
    assert longer[..|longer| - 1] == ds;
  }

  lemma SpawnOneFails(s: State, d: AgentDescriptor, script: Script)
    requires !script(s.calls).ok
    ensures var run := SpawnOneRun(s, d, script);
            && run.result == Err(PutFailed) && run.state.calls == s.calls + 1
            && run.state.agents == if FindReusable(s.agents, d).Some? then SpawnOne(s.agents, d) else s.agents
  {
  }

  /** One call for each agent; the first that fails ends it. */
  lemma {:induction false} ResetByCalls(s: State, count: nat, script: Script)
    ensures var run := ResetRun(s, count, script);
            && (run.result.Ok? <==> GoesWell(script, s.calls, s.calls + count))
            && (run.result.Ok? ==> run.state.calls == s.calls + count)
            && run.state.knowledge == s.knowledge && run.state.agents == s.agents
    decreases count
  {
    if count > 0 {
      ResetByCalls(Called(s, script), count - 1, script);
    }
  }

  // ------------------------------------------------------------------ whole runs

  /** The calls of a successful run: for each prior trace its descriptors, its own run and a
      reset of every agent; then the trace's descriptors and its steps. */
  ghost function Calls(t: Trace, agents: seq<Agent>): nat
    decreases t, 1
  {
    PriorCalls(t.priorTraces, agents) + |t.descriptors| + StepCalls(t.steps)
  }

  ghost function PriorCalls(ts: seq<Trace>, agents: seq<Agent>): nat
    decreases ts, 0
  {
    if ts == [] then 0
    else
      var n := |ts| - 1;
      var p, spawned := ts[n], Spawn(AgentsAfterPriors(ts[..n], agents), ts[n].descriptors);
      PriorCalls(ts[..n], agents) + |p.descriptors| + Calls(p, spawned) + |AgentsAfter(p, spawned)|
  }

  lemma SpawnCalls(s: State, ds: seq<AgentDescriptor>, script: Script)
    requires SpawnRun(s, ds, script).result.Ok?
    ensures SpawnRun(s, ds, script).state.agents == Spawn(s.agents, ds)
    ensures SpawnRun(s, ds, script).state.calls == s.calls + |ds|
  {
    var k := FirstFailing(script, s.calls, |ds|);
    if k < |ds| {
      SpawnFailsAt(s, ds, script, k);
    } else {
      SpawnGoesWell(s, ds, script);
    }
  }

  lemma {:induction false} FirstFailing(script: Script, a: nat, n: nat) returns (k: nat)
    ensures k <= n && GoesWell(script, a, a + k) && (k < n ==> !script(a + k).ok)
    decreases n
  {
    k := 0;
    if n > 0 {
      k := FirstFailing(script, a, n - 1);
      if k == n - 1 && script(a + k).ok {
        k := n;
      }
    }
  }

  lemma BodyCalls(t: Trace, s: State, protocol: Protocol, script: Script)
    requires BodyRun(t, s, protocol, script).result.Ok?
    ensures BodyRun(t, s, protocol, script).state.calls == s.calls + |t.descriptors| + StepCalls(t.steps)
  {
    SpawnCalls(s, t.descriptors, script);
    StepsCalls(SpawnRun(s, t.descriptors, script).state, t.steps, protocol, script);
  }

  /** A successful run makes exactly these calls, for any nesting of prior traces. */
  lemma {:induction false} ExecCalls(t: Trace, s: State, protocol: Protocol, script: Script)
    requires ExecRun(t, s, protocol, script).result.Ok?
    ensures ExecRun(t, s, protocol, script).state.calls == s.calls + Calls(t, s.agents)
    decreases t, 1
  {
    PriorsCalls(t.priorTraces, s, protocol, script);
    BodyCalls(t, PriorsRun(t.priorTraces, s, protocol, script).state, protocol, script);
  }

  lemma {:induction false} PriorsCalls(ts: seq<Trace>, s: State, protocol: Protocol, script: Script)
    requires PriorsRun(ts, s, protocol, script).result.Ok?
    ensures PriorsRun(ts, s, protocol, script).state.calls == s.calls + PriorCalls(ts, s.agents)
    decreases ts, 0
  {
    if ts != [] {
      var n := |ts| - 1;
      var front := PriorsRun(ts[..n], s, protocol, script);
      PriorsCalls(ts[..n], s, protocol, script);
      PriorsSound(ts[..n], s, protocol, script);
      PriorRunCalls(ts[n], front.state, protocol, script);
    }
  }

  lemma {:induction false} PriorRunCalls(p: Trace, s: State, protocol: Protocol, script: Script)
    requires PriorRun(p, s, protocol, script).result.Ok?
    ensures var spawned := Spawn(s.agents, p.descriptors);
            PriorRun(p, s, protocol, script).state.calls
            == s.calls + |p.descriptors| + Calls(p, spawned) + |AgentsAfter(p, spawned)|
    decreases p, 2
  {
    var spawned := SpawnRun(s, p.descriptors, script).state;
    SpawnCalls(s, p.descriptors, script);
    var ran := ExecRun(p, spawned, protocol, script);
    ExecCalls(p, spawned, protocol, script);
    ExecSound(p, spawned, protocol, script);
    ResetByCalls(ran.state, |ran.state.agents|, script);
  }

  // ------------------------------------------------------------------ the verdict

  ghost predicate NoVerdict(r: Result<(), ExecError>) {
    r.Err? ==> !r.error.SecurityClaim?
  }

  lemma {:induction false} SpawnNoVerdict(s: State, ds: seq<AgentDescriptor>, script: Script)
    ensures NoVerdict(SpawnRun(s, ds, script).result)
  {
    if ds != [] {
      SpawnNoVerdict(s, ds[..|ds| - 1], script);
    }
  }

  lemma {:induction false} ResetNoVerdict(s: State, count: nat, script: Script)
    ensures NoVerdict(ResetRun(s, count, script).result)
    decreases count
  {
    if count > 0 {
      ResetNoVerdict(Called(s, script), count - 1, script);
    }
  }

  lemma {:induction false} LearnNoVerdict(s: State, agent: AgentName, ms: seq<MessageResult>)
    ensures NoVerdict(LearnRun(s, agent, ms).result)
  {
    if ms != [] {
      LearnNoVerdict(s, agent, ms[..|ms| - 1]);
    }
  }

  lemma {:induction false} StepsNoVerdict(s: State, steps: seq<Step>, protocol: Protocol, script: Script)
    ensures NoVerdict(StepsRun(s, steps, protocol, script).result)
  {
    if steps != [] {
      var n := |steps| - 1;
      StepsNoVerdict(s, steps[..n], protocol, script);
      StepNoVerdict(StepsRun(s, steps[..n], protocol, script).state, steps[n], protocol, script);
    }
  }

  lemma StepNoVerdict(s: State, step: Step, protocol: Protocol, script: Script)
    ensures NoVerdict(StepRun(s, step, protocol, script).result)
  {
    OutputNoVerdict(s, step.agent, script);
    if step.action.Input? {
      OutputNoVerdict(InputRun(s, step.agent, step.action.recipe, protocol, script).state, step.agent, script);
    }
  }

  lemma OutputNoVerdict(s: State, agent: AgentName, script: Script)
    ensures NoVerdict(OutputRun(s, agent, script).result)
  {
    LearnNoVerdict(Called(s, script), agent, script(s.calls).messages);
  }

  /** A trace whose agents spawn and whose steps succeed ends well exactly if the oracle finds
      nothing in its claims, and else with the verdict. */
  lemma BodyVerdict(t: Trace, s: State, protocol: Protocol, script: Script)
    ensures var spawned, run := SpawnRun(s, t.descriptors, script), BodyRun(t, s, protocol, script);
            var stepped := StepsRun(spawned.state, t.steps, protocol, script);
            && (spawned.result.Ok? && stepped.result.Ok? ==>
                  run == Run(stepped.state, if protocol.violated(stepped.state.claims) then Err(SecurityClaim) else Ok(())))
            && (run.result == Err(SecurityClaim) ==> protocol.violated(run.state.claims))
  {
    SpawnNoVerdict(s, t.descriptors, script);
    StepsNoVerdict(SpawnRun(s, t.descriptors, script).state, t.steps, protocol, script);
  }

  /** For any nesting, a run ends with the verdict only if the oracle finds a violation in
      the claims it ends with. */
  lemma {:induction false} VerdictMeansViolation(t: Trace, s: State, protocol: Protocol, script: Script)
    ensures var run := ExecRun(t, s, protocol, script);
            run.result == Err(SecurityClaim) ==> protocol.violated(run.state.claims)
    decreases t, 1
  {
    PriorsVerdict(t.priorTraces, s, protocol, script);
    BodyVerdict(t, PriorsRun(t.priorTraces, s, protocol, script).state, protocol, script);
  }

  lemma {:induction false} PriorsVerdict(ts: seq<Trace>, s: State, protocol: Protocol, script: Script)
    ensures var run := PriorsRun(ts, s, protocol, script);
            run.result == Err(SecurityClaim) ==> protocol.violated(run.state.claims)
    decreases ts, 0
  {
    if ts != [] {
      var n := |ts| - 1;
      PriorsVerdict(ts[..n], s, protocol, script);
      PriorVerdict(ts[n], PriorsRun(ts[..n], s, protocol, script).state, protocol, script);
    }
  }

  lemma {:induction false} PriorVerdict(p: Trace, s: State, protocol: Protocol, script: Script)
    ensures var run := PriorRun(p, s, protocol, script);
            run.result == Err(SecurityClaim) ==> protocol.violated(run.state.claims)
    decreases p, 2
  {
    var spawned := SpawnRun(s, p.descriptors, script);
    SpawnNoVerdict(s, p.descriptors, script);
    var ran := ExecRun(p, spawned.state, protocol, script);
    VerdictMeansViolation(p, spawned.state, protocol, script);
    ResetNoVerdict(ran.state, |ran.state.agents|, script);
  }
}
