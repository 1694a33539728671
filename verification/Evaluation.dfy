/**
 Running a term against a context: `Term::evaluate` and the argument checks of the
 closures built by `dynamic_fn!`.
 */
module Evaluation {
  import opened Wrappers
  import opened Matching
  import opened Terms
  import opened Knowing

  datatype Context = Context(knowledge: seq<Knowledge>, claims: seq<Claim>)

  datatype EvalError =
    | UnknownVariable(typ: TypeId, query: Query)
    | MissingArgument(index: nat)
    | ShapeMismatch(index: nat)
    | FnFailed(reason: string)

  /** What the statically typed functions compute on the payloads they are handed. */
  type World = (nat, seq<int>) -> Result<int, string>

  function Payloads(args: seq<Value>, n: nat): seq<int>
    requires n <= |args|
  {
    seq(n, i requires 0 <= i < n => args[i].payload)
  }

  /** The first argument check that fails at or after `i`, in order; surplus arguments
      are never looked at. */
  function FirstBadArgument(types: seq<TypeId>, args: seq<Value>, i: nat): (e: Option<EvalError>)
    requires i <= |types|
    ensures e.None? ==> |types| <= |args| || i == |types|
    decreases |types| - i
  {
    if i == |types| then None
    else if i >= |args| then Some(MissingArgument(i + 1))
    else if args[i].typ != types[i] then Some(ShapeMismatch(i + 1))
    else FirstBadArgument(types, args, i + 1)
  }

  function CallDynamic(f: DynamicFn, args: seq<Value>, world: World): Result<Value, EvalError> {
    var bad := FirstBadArgument(f.argTypes, args, 0);
    if bad.Some? then Err(bad.value)
    else
      match world(f.code, Payloads(args, |f.argTypes|))
      case Ok(x) => Ok(Value(f.retType, x))
      case Err(reason) => Err(FnFailed(reason))
  }

  function Lookup(ctx: Context, typ: TypeId, q: Query): Result<Value, EvalError> {
    var a := AnswerIndex(ctx.knowledge, typ, q);
    if a.Some? then Ok(ctx.knowledge[a.value].data)
    else
      var c := FindLastClaim(ctx.claims, q.agent, typ);
      if c.Some? then Ok(c.value.inner) else Err(UnknownVariable(typ, q))
  }

  function Eval(t: Term, ctx: Context, world: World): Result<Value, EvalError>
    decreases t, 1
  {
    match t
    case Variable(typ, q) => Lookup(ctx, typ, q)
    case Application(f, args) =>
      match EvalArgs(args, ctx, world)
      case Err(e) => Err(e)
      case Ok(vs) => CallDynamic(f.dynamicFn, vs, world)
  }

  /** Arguments from left to right; the first failure wins. */
  function EvalArgs(args: seq<Term>, ctx: Context, world: World): (r: Result<seq<Value>, EvalError>)
    ensures r.Ok? ==> |r.value| == |args|
    decreases args, 0
  {
    if args == [] then Ok([])
    else
      var n := |args| - 1;
      match EvalArgs(args[..n], ctx, world)
      case Err(e) => Err(e)
      case Ok(vs) =>
        match Eval(args[n], ctx, world)
        case Err(e) => Err(e)
        case Ok(v) => Ok(vs + [v])
  }

  lemma {:induction false} EarlyFailureWins(args: seq<Term>, i: nat, ctx: Context, world: World)
    requires i <= |args| && EvalArgs(args[..i], ctx, world).Err?
    ensures EvalArgs(args, ctx, world) == EvalArgs(args[..i], ctx, world)
    decreases |args| - i
  {
    if i == |args| {
      assert args[..i] == args;
    } else {
      assert args[..i + 1][..i] == args[..i];
      EarlyFailureWins(args, i + 1, ctx, world);
    }
  }

  /** The generated closure: an index walks over the declared argument types. */
  method InvokeDynamic(f: DynamicFn, args: seq<Value>, world: World) returns (r: Result<Value, EvalError>)
    ensures r == CallDynamic(f, args, world)
  {
    var index := 0;
    while index < |f.argTypes|
      invariant 0 <= index <= |f.argTypes|
      invariant index <= |args|
      invariant FirstBadArgument(f.argTypes, args, 0) == FirstBadArgument(f.argTypes, args, index)
    {
      if index >= |args| {
        return Err(MissingArgument(index + 1));
      }
      if args[index].typ != f.argTypes[index] {
        return Err(ShapeMismatch(index + 1));
      }
      index := index + 1;
    }
    var out := world(f.code, Payloads(args, |f.argTypes|));
    match out
    case Ok(x) => r := Ok(Value(f.retType, x));
    case Err(reason) => r := Err(FnFailed(reason));
  }

  method Evaluate(t: Term, ctx: Context, world: World) returns (r: Result<Value, EvalError>)
    ensures r == Eval(t, ctx, world)
    decreases t
  {
    match t
    case Variable(typ, q) =>
      var data := FindVariable(ctx.knowledge, typ, q);
      if data.Some? {
        r := Ok(data.value);
      } else {
        var claim := FindLastClaim(ctx.claims, q.agent, typ);
        r := if claim.Some? then Ok(claim.value.inner) else Err(UnknownVariable(typ, q));
      }
    case Application(f, args) =>
      var dynamicArgs: seq<Value> := [];
      for i := 0 to |args|
        invariant EvalArgs(args[..i], ctx, world) == Ok(dynamicArgs)
      {
        assert args[..i + 1][..i] == args[..i];
        var v := Evaluate(args[i], ctx, world);
        if v.Err? {
          EarlyFailureWins(args, i + 1, ctx, world);
          return Err(v.error);
        }
        dynamicArgs := dynamicArgs + [v.value];
      }
      assert args[..|args|] == args;
      r := InvokeDynamic(f.dynamicFn, dynamicArgs, world);
  }

  // ------------------------------------------------------------------ what is computed, place by place

  /** The first declared argument that is missing or has another type decides the error. */
  lemma {:induction false} FirstBadDecides(types: seq<TypeId>, args: seq<Value>, i: nat, k: nat)
    requires i <= k < |types| && (forall j :: i <= j < k ==> ArgumentFits(types, args, j)) && !ArgumentFits(types, args, k)
    ensures FirstBadArgument(types, args, i) == Some(if k < |args| then ShapeMismatch(k + 1) else MissingArgument(k + 1))
    decreases k - i
  {
    assert i < k ==> ArgumentFits(types, args, i);
    if i < k {
      FirstBadDecides(types, args, i + 1, k);
    }
  }

  /** Otherwise the function gets the payload of argument `i` in place `i`, for each declared
      argument, and its result gets the declared type. */
  lemma CallByPlace(f: DynamicFn, args: seq<Value>, world: World, ps: seq<int>)
    requires |ps| == |f.argTypes| && forall k :: 0 <= k < |f.argTypes| ==> ArgumentFits(f.argTypes, args, k)
    requires forall i :: 0 <= i < |ps| && i < |args| ==> ps[i] == args[i].payload
    ensures CallDynamic(f, args, world) == match world(f.code, ps)
                                           case Ok(x) => Ok(Value(f.retType, x))
                                           case Err(reason) => Err(FnFailed(reason))
  {
    ArgumentChecksExact(f.argTypes, args, 0);
    forall i | 0 <= i < |ps|
      ensures i < |args| && Payloads(args, |f.argTypes|)[i] == ps[i]
    {
      assert ArgumentFits(f.argTypes, args, i);
    }
    assert Payloads(args, |f.argTypes|) == ps;
  }

  lemma {:induction false} ArgsByPlace(args: seq<Term>, vs: seq<Value>, ctx: Context, world: World)
    requires |vs| == |args| && forall i :: 0 <= i < |args| ==> Eval(args[i], ctx, world) == Ok(vs[i])
    ensures EvalArgs(args, ctx, world) == Ok(vs)
  {
    if args == [] {
      assert vs == [];
    } else {
      var n := |args| - 1;
      ArgsByPlace(args[..n], vs[..n], ctx, world);
      assert Eval(args[n], ctx, world) == Ok(vs[n]);
      assert vs == vs[..n] + [vs[n]];
    }
  }

  /** An application whose arguments evaluate place by place to fitting values evaluates to
      what its function computes from their payloads, place by place. */
  lemma ApplicationByPlace(f: Function, args: seq<Term>, vs: seq<Value>, ps: seq<int>, ctx: Context, world: World)
    requires |vs| == |args| && forall i :: 0 <= i < |args| ==> Eval(args[i], ctx, world) == Ok(vs[i])
    requires var types := f.dynamicFn.argTypes;
             |ps| == |types| <= |vs| && forall i :: 0 <= i < |types| ==> vs[i].typ == types[i] && ps[i] == vs[i].payload
    ensures Eval(Application(f, args), ctx, world) == match world(f.dynamicFn.code, ps)
                                                      case Ok(x) => Ok(Value(f.dynamicFn.retType, x))
                                                      case Err(reason) => Err(FnFailed(reason))
  {
    ArgsByPlace(args, vs, ctx, world);
    CallByPlace(f.dynamicFn, vs, world, ps);
  }

  /** The first argument that fails decides the failure of the application. */
  lemma FirstFailureDecides(f: Function, args: seq<Term>, k: nat, ctx: Context, world: World)
    requires k < |args| && (forall i :: 0 <= i < k ==> Eval(args[i], ctx, world).Ok?) && Eval(args[k], ctx, world).Err?
    ensures Eval(Application(f, args), ctx, world) == Eval(args[k], ctx, world)
  {
    var vs := seq(k, i requires 0 <= i < k => Eval(args[i], ctx, world).value);
    ArgsByPlace(args[..k], vs, ctx, world);
    assert args[..k + 1][..k] == args[..k];
    EarlyFailureWins(args, k + 1, ctx, world);
  }

  /** A variable is the piece of knowledge of the right rank; failing that, the value of the
      latest claim of its agent and type; failing that, an error. */
  lemma VariableByRank(ctx: Context, typ: TypeId, q: Query, world: World)
    ensures forall i: nat :: i in Answering(ctx.knowledge, typ, q)
                             && |Ahead(ctx.knowledge, typ, q, i)| == q.counter ==>
                               Eval(Variable(typ, q), ctx, world) == Ok(ctx.knowledge[i].data)
    ensures |Answering(ctx.knowledge, typ, q)| <= q.counter ==>
              forall i: nat :: i < |ctx.claims| && IsLastClaim(ctx.claims, i, q.agent, typ) ==>
                                 Eval(Variable(typ, q), ctx, world) == Ok(ctx.claims[i].inner)
    ensures |Answering(ctx.knowledge, typ, q)| <= q.counter
            && (forall c :: c in ctx.claims ==> c.id != typ || c.agent != q.agent) ==>
              Eval(Variable(typ, q), ctx, world) == Err(UnknownVariable(typ, q))
  {
    AnswerRanks(ctx.knowledge, typ, q);
    FindLastClaimIsLast(ctx.claims, q.agent, typ);
    forall i: nat | i < |ctx.claims| && IsLastClaim(ctx.claims, i, q.agent, typ)
      ensures FindLastClaim(ctx.claims, q.agent, typ) == Some(ctx.claims[i])
    {
      LastClaimIsFound(ctx.claims, i, q.agent, typ);
    }
  }

  /** Claim `i` is of this agent and type, and no later one is. */
  ghost predicate IsLastClaim(cs: seq<Claim>, i: nat, agent: AgentName, typ: TypeId)
    requires i < |cs|
  {
    cs[i].id == typ && cs[i].agent == agent && forall j :: i < j < |cs| ==> cs[j].id != typ || cs[j].agent != agent
  }

  lemma {:induction false} LastClaimIsFound(cs: seq<Claim>, i: nat, agent: AgentName, typ: TypeId)
    requires i < |cs| && IsLastClaim(cs, i, agent, typ)
    ensures FindLastClaim(cs, agent, typ) == Some(cs[i])
  {
    var n := |cs| - 1;
    if i < n {
      LastClaimIsFound(cs[..n], i, agent, typ);
    }
  }

  // ------------------------------------------------------------------ type soundness

  /** The claims a variable can reach, the latest of each agent and type, carry values of
      the type they advertise. */
  ghost predicate ClaimsAgree(claims: seq<Claim>) {
    forall agent, typ :: FindLastClaim(claims, agent, typ).Some? ==> FindLastClaim(claims, agent, typ).value.inner.typ == typ
  }

  /** Claims that all do so, as TLS claims, agree. */
  lemma HonestClaimsAgree(claims: seq<Claim>)
    requires forall c :: c in claims ==> c.inner.typ == c.id
    ensures ClaimsAgree(claims)
  {
    forall agent, typ | FindLastClaim(claims, agent, typ).Some?
      ensures FindLastClaim(claims, agent, typ).value.inner.typ == typ
    {
      FindLastClaimIsLast(claims, agent, typ);
    }
  }

  lemma ClaimsAgreeConcat(a: seq<Claim>, b: seq<Claim>)
    requires ClaimsAgree(a) && ClaimsAgree(b)
    ensures ClaimsAgree(a + b)
  {
    forall agent, typ | FindLastClaim(a + b, agent, typ).Some?
      ensures FindLastClaim(a + b, agent, typ).value.inner.typ == typ
    {
      FindLastClaimConcat(a, b, agent, typ);
    }
  }

  ghost predicate TypeFailure(e: EvalError) {
    e.MissingArgument? || e.ShapeMismatch?
  }

  ghost predicate HasTypes(vs: seq<Value>, types: seq<TypeId>) {
    |vs| == |types| && forall i :: 0 <= i < |vs| ==> vs[i].typ == types[i]
  }

  ghost predicate ArgumentFits(types: seq<TypeId>, args: seq<Value>, k: nat)
    requires k < |types|
  {
    k < |args| && args[k].typ == types[k]
  }

  /** A call fails its argument checks exactly when some declared argument is missing or
      has another type. */
  lemma {:induction false} ArgumentChecksExact(types: seq<TypeId>, args: seq<Value>, i: nat)
    requires i <= |types|
    ensures FirstBadArgument(types, args, i).None? <==>
            forall k :: i <= k < |types| ==> ArgumentFits(types, args, k)
    ensures FirstBadArgument(types, args, i).Some? ==> TypeFailure(FirstBadArgument(types, args, i).value)
    decreases |types| - i
  {
    if i < |types| {
      ArgumentChecksExact(types, args, i + 1);
      var fits := ArgumentFits(types, args, i);
    }
  }

  /** A variable evaluates to a value of its own type unless its answer is a claim whose
      value has another type. */
  lemma VariableSoundIff(ctx: Context, typ: TypeId, q: Query)
    requires Lookup(ctx, typ, q).Ok?
    ensures Lookup(ctx, typ, q).value.typ == typ <==>
            || AnswerIndex(ctx.knowledge, typ, q).Some?
            || FindLastClaim(ctx.claims, q.agent, typ).value.inner.typ == FindLastClaim(ctx.claims, q.agent, typ).value.id
  {
    FindLastClaimIsLast(ctx.claims, q.agent, typ);
  }

  /** Type soundness: a well-typed term never fails an argument check, and its value has
      the term's type. */
  lemma {:induction false} EvalSound(t: Term, ctx: Context, world: World)
    requires WellTyped(t) && ClaimsAgree(ctx.claims)
    ensures Eval(t, ctx, world).Ok? ==> Eval(t, ctx, world).value.typ == TypeOf(t)
    ensures Eval(t, ctx, world).Err? ==> !TypeFailure(Eval(t, ctx, world).error)
    decreases t, 1
  {
    match t
    case Variable(typ, q) =>
      if Lookup(ctx, typ, q).Ok? {
        VariableSoundIff(ctx, typ, q);
        FindLastClaimIsLast(ctx.claims, q.agent, typ);
      }
    case Application(f, args) =>
      EvalArgsSound(args, f.shape.argTypes, ctx, world);
      if EvalArgs(args, ctx, world).Ok? {
        ArgumentChecksExact(f.dynamicFn.argTypes, EvalArgs(args, ctx, world).value, 0);
      }
  }

  lemma {:induction false} EvalArgsSound(args: seq<Term>, types: seq<TypeId>, ctx: Context, world: World)
    requires ClaimsAgree(ctx.claims) && |args| == |types|
    requires forall i :: 0 <= i < |args| ==> TypeOf(args[i]) == types[i] && WellTyped(args[i])
    ensures EvalArgs(args, ctx, world).Ok? ==> HasTypes(EvalArgs(args, ctx, world).value, types)
    ensures EvalArgs(args, ctx, world).Err? ==> !TypeFailure(EvalArgs(args, ctx, world).error)
    decreases args, 0
  {
    if args != [] {
      var n := |args| - 1;
      EvalArgsSound(args[..n], types[..n], ctx, world);
      EvalSound(args[n], ctx, world);
    }
  }

  /** An application of a one-place function to a variable that only a claim can answer. */
  ghost function Probe(ctx: Context, agent: AgentName, typ: TypeId): Term {
    Application(Function(Shape("f", [typ], typ), DynamicFn([typ], typ, 0)),
                [Variable(typ, Query(agent, None, |ctx.knowledge|))])
  }

  /** `SshClaim::inner` boxes a box, so the value's type is not the claim's `id`. In every
      context, such a claim, unless a later one hides it, makes a well-typed variable
      evaluate to a value of another type and a well-typed application fail its check. */
  lemma DoubleBoxedClaimBreaksSoundness(ctx: Context, agent: AgentName, typ: TypeId, world: World)
    requires var c := FindLastClaim(ctx.claims, agent, typ); c.Some? && c.value.inner.typ != typ
    ensures var t := Probe(ctx, agent, typ);
            && WellTyped(t) && WellTyped(t.args[0])
            && Eval(t, ctx, world) == Err(ShapeMismatch(1))
            && Eval(t.args[0], ctx, world).Ok? && Eval(t.args[0], ctx, world).value.typ != TypeOf(t.args[0])
  {
    var t, v := Probe(ctx, agent, typ), FindLastClaim(ctx.claims, agent, typ).value.inner;
    var x := t.args[0];
    AllCandidates(ctx.knowledge, typ, x.query);
    assert Eval(x, ctx, world) == Ok(v);
    assert t.args[..0] == [];
    assert EvalArgs(t.args[..0], ctx, world) == Ok([]);
    assert EvalArgs(t.args, ctx, world) == Ok([] + [v]);
  }

  ghost predicate ValueFits(t: Term, ctx: Context, world: World) {
    Eval(t, ctx, world).Ok? ==> Eval(t, ctx, world).value.typ == TypeOf(t)
  }

  ghost predicate ChecksPass(t: Term, ctx: Context, world: World) {
    Eval(t, ctx, world).Err? ==> !TypeFailure(Eval(t, ctx, world).error)
  }

  /** The exact condition for type soundness of a context: that the claims it can reach
      agree. It is needed for the values alone, and for the argument checks alone. */
  lemma SoundContextIff(ctx: Context, world: World)
    ensures ClaimsAgree(ctx.claims) <==> forall t :: WellTyped(t) ==> ValueFits(t, ctx, world)
    ensures ClaimsAgree(ctx.claims) <==> forall t :: WellTyped(t) ==> ChecksPass(t, ctx, world)
  {
    if ClaimsAgree(ctx.claims) {
      forall t | WellTyped(t)
        ensures ValueFits(t, ctx, world) && ChecksPass(t, ctx, world)
      {
        EvalSound(t, ctx, world);
      }
    } else {
      var agent, typ :| FindLastClaim(ctx.claims, agent, typ).Some? && FindLastClaim(ctx.claims, agent, typ).value.inner.typ != typ;
      var t := Probe(ctx, agent, typ);
      DoubleBoxedClaimBreaksSoundness(ctx, agent, typ, world);
      assert !ValueFits(t.args[0], ctx, world) && !ChecksPass(t, ctx, world);
    }
  }

  // ------------------------------------------------------------------ stability over a run

  /** Every variable of `t` is answered from knowledge by a query that is not loose. */
  ghost predicate Anchored(t: Term, ks: seq<Knowledge>) {
    match t
    case Variable(typ, q) => !Loose(q.matcher) && AnswerIndex(ks, typ, q).Some?
    case Application(_, args) => forall i :: 0 <= i < |args| ==> Anchored(args[i], ks)
  }

  /** Such a term evaluates the same in every later context of the run. */
  lemma {:induction false} AnchoredTermsKeepTheirValue(t: Term, ctx: Context, ctx': Context, world: World)
    requires ctx.knowledge <= ctx'.knowledge && Anchored(t, ctx.knowledge)
    ensures Eval(t, ctx', world) == Eval(t, ctx, world)
    decreases t, 1
  {
    match t
    case Variable(typ, q) =>
      var more := ctx'.knowledge[|ctx.knowledge|..];
      assert ctx'.knowledge == ctx.knowledge + more;
      TightAnswersNeverChange(ctx.knowledge, more, typ, q);
    case Application(f, args) =>
      AnchoredArgsKeepTheirValues(args, ctx, ctx', world);
  }

  lemma {:induction false} AnchoredArgsKeepTheirValues(args: seq<Term>, ctx: Context, ctx': Context, world: World)
    requires ctx.knowledge <= ctx'.knowledge
    requires forall i :: 0 <= i < |args| ==> Anchored(args[i], ctx.knowledge)
    ensures EvalArgs(args, ctx', world) == EvalArgs(args, ctx, world)
    decreases args, 0
  {
    if args != [] {
      AnchoredArgsKeepTheirValues(args[..|args| - 1], ctx, ctx', world);
      AnchoredTermsKeepTheirValue(args[|args| - 1], ctx, ctx', world);
    }
  }
}
