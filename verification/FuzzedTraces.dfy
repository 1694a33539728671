/** Mutation and evaluation together. */
module FuzzedTraces {
  import opened Terms
  import opened Traces
  import opened Evaluation
  import opened Signatures
  import opened Mutations

  /** Whatever a run of safe mutations makes of a well-typed trace, evaluating any of its
      recipes, in any context with honest claims, never fails an argument check and
      yields a value of a type that some recipe of the original trace had. */
  lemma MutatedRecipesEvaluate(cfg: Config, steps: seq<Step>, run: seq<Event>, i: nat, ctx: Context, world: World)
    requires WellTypedSteps(steps) && AllLinked(cfg.signature.functions) && ClaimsAgree(ctx.claims)
    requires After(cfg, steps, run).Some? && SafeRun(cfg, steps, run)
    requires HasRecipe(After(cfg, steps, run).value, i)
    ensures var v := Eval(After(cfg, steps, run).value[i].action.recipe, ctx, world);
            && (v.Err? ==> !TypeFailure(v.error))
            && (v.Ok? ==> exists j: nat :: HasRecipe(steps, j) && TypeOf(steps[j].action.recipe) == v.value.typ)
  {
    var later := After(cfg, steps, run).value;
    RunKeepsTyping(cfg, steps, run);
    EvalSound(later[i].action.recipe, ctx, world);
    assert Occurs(steps, Outline(later[i]));
    var j :| 0 <= j < |steps| && Outline(steps[j]) == Outline(later[i]);
    assert HasRecipe(steps, j);
  }
}
