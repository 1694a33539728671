# Verified model of a Dolev-Yao protocol fuzzer

This project models the core of a fuzzer that attacks TLS and SSH implementations with
symbolic traces, and proves properties of it in Dafny 4.11. A trace is a list of steps;
input steps carry recipes, first-order terms over dynamically typed functions. Mutators
rewrite recipes in place, terms are evaluated against the attacker's growing knowledge,
and the results travel to and from the programs under test as wire messages.

`dafny verify dfyconfig.toml` checks everything.

## Structure

| component | files | main results |
|---|---|---|
| terms, traces, signatures | `Terms.dfy`, `Traces.dfy`, `Signatures.dfy` | rewriting at a position: what changes, what does not, size, typing (both directions) |
| sampling | `Randomness.dfy`, `Sampling.dfy`, `Uniformity.dfy` | the stack traversal visits every eligible place exactly once; of the n! tapes each place is returned by (n - 1)! |
| term zoo | `Zoo.dfy` | exactly which terms can be generated, and exactly which zoos |
| mutators | `Mutations.dfy`, `Choices.dfy`, `Drawing.dfy`, `Possibilities.dfy`, `Mutators.dfy`, `FuzzedTraces.dfy` | over every run: typing, lengths, sizes; the exact conditions under which a swap and a run keep typing; exactly which events, skips included, and which runs some random source brings about |
| queries, evaluation | `Matching.dfy`, `Knowledge.dfy`, `Evaluation.dfy` | which answer a query gets and exactly when it keeps it; type soundness of evaluation |
| execution | `Execution.dfy`, `Effects.dfy` | over every run with any nesting of prior traces: append-only knowledge, one agent per class, no typing failure; what each step learns, piece by piece |
| codecs | `Codec.dfy`, `NameLists.dfy`, `SshMessages.dfy`, `SshCodec.dfy`, `SshLayout.dfy` | round trips with their exact conditions, from integers up to the full SSH stack; the place of every byte |
| channels | `SshDeframer.dfy`, `SshCuts.dfy`, `MemoryStreams.dfy`, `SshId.dfy` | conservation of bytes over any reads; exactly when reads can be cut; chunk independence of the identification line |
| agreement | `Negotiation.dfy`, `KeyDerivation.dfy`, `Violations.dfy` | both sides negotiate and derive the same; the oracle's verdict characterised |

`Wrappers.dfy` holds the result types and three facts about concatenation.

## How the model is stated

Code that updates things in place is modelled by classes and methods with loops. Each such
method is proved equal to a function of its inputs and its old state, and the properties
are proved of those functions. Randomness is an arbitrary function from draw numbers to
values (`Rand.raw`), so "for all tapes" is "for all `raw`". A program under test is an
arbitrary script of replies (`Script`): each call may fail, raise claims and emit messages.
What statically typed functions compute on payloads is an arbitrary function (`World`).
A mutator reports the event it performed; a run is a sequence of events, each enabled when
it happened. `Choices.dfy` gives each mutator as a function of the random source, and the
mutators are proved equal to it. `Enabled` is what safety needs; it lets a mutator skip at
any time and draw any zoo term. `Transition` in `Possibilities.dfy` is exact. Lengths and
casts are unbounded integers with the cast written out: `BeBytes` cuts off high-order bytes
as `as u8` and `as u32` do.

Places where the code differs from its comments or breaks an expectation; the model follows the code:

- `find_variable` sorts by specificity in ascending order, although its comment speaks of
  the highest specificity. `MoreSpecificIsPassedOver` shows the difference, `MostSpecificIff`
  for which queries there is none.
- `SwapMutator` can lose typing when the second place lies properly above the first.
  `UnsafeSwapWitness` gives an input, `SwapTyping` the exact condition.
- The SSH deframer promises to reconstruct messages from reads of any size, but keeps no
  partial message: what does not parse becomes one `OnWire` frame. `CutPacketIsLost` shows
  this for every packet and every cut, `ReadsAreOneReadIff` exactly when reads can be cut.
- `SshClaim::inner` boxes a box, so its runtime type is not its `id`.
  `DoubleBoxedClaimBreaksSoundness` shows the consequence, `SoundContextIff` the exact condition.
- `KexInitMessage` names its two encryption lists in the opposite order to section 7.1 of
  RFC 4253; the model keeps the names and the wire order of the code.
- A list of no names is the same on the wire as the list of one empty name, so negotiation
  can end differently on the two sides. `SelectAgrees` and `NegotiationAgrees` give the
  exact conditions.
- A prior trace is spawned once before it is executed and once in its own execution. If it
  has prior traces itself, this is not the same as one spawn: `NestedDoubleSpawnDiffers`
  shows how, `DoubleSpawnIsOneSpawnIff` when, `DoubleSpawnKeepsNames` what is kept.
- `BinaryPacket::read` subtracts without a check; the model wraps at 64 bits.
- `NameList` cannot represent the list of one empty name, and a name with a comma is split.
  `NameListRoundTrip` gives the exact condition.

## Model

| member | source | states |
|---|---|---|
| `Terms.SizeSumUpdate` | puffin/src/algebra/term.rs:45-52 | replacing one child changes a node's size by the difference of the two children |
| `Terms.PutBelow` | puffin/src/fuzzer/mutations.rs:670-690 | a path through an overwritten place continues inside the new term |
| `Terms.PutElsewhere` | puffin/src/algebra/term.rs:79-81 | overwriting a place leaves every disjoint place as it was |
| `Terms.PutAbove` | puffin/src/algebra/term.rs:79-81 | an overwrite is undone without trace by a later one at or above its place |
| `Terms.PutSize` | puffin/src/algebra/term.rs:45-81 | size after an overwrite; a proper subterm is strictly smaller |
| `Terms.SubtermWellTyped` | puffin/src/algebra/term.rs:65-70 | every subterm of a well-typed term is well-typed |
| `Terms.PutWellTyped` | puffin/src/algebra/term.rs:65-81 | below the root an overwrite of a well-typed term is well-typed exactly when the new term is well-typed and has the old one's type; the root type only changes at the root |
| `Traces.PutAtIsLocal` | puffin/src/fuzzer/mutations.rs:692-709 | overwriting through a trace path is seen there and nowhere apart from it |
| `Signatures.IndexByTypeExact` | puffin/src/algebra/signature.rs:49-52 | the by-type index lists exactly the definitions of each return type in order, and has a key exactly when there is one |
| `Signatures.IndexByNameExact` | puffin/src/algebra/signature.rs:43-47 | the by-name index finds the last definition of a name, and exactly the defined names |
| `Randomness.Rand.Between` | puffin/src/fuzzer/mutations.rs:654 | a draw within its bounds, recorded |
| `Sampling.ReservoirSample` | puffin/src/fuzzer/mutations.rs:605-668 | makes one draw for each eligible position after the first and returns the position those draws pick |
| `Sampling.SampleRecipe` | puffin/src/fuzzer/mutations.rs:624-659 | the stack walk over one recipe considers its matching positions in visiting order; it terminates on the stacked sizes |
| `Sampling.PushSubterms` | puffin/src/fuzzer/mutations.rs:629-641 | pushing the subterms schedules exactly the visit below the popped node and shrinks the stacked size |
| `Sampling.Consider` | puffin/src/fuzzer/mutations.rs:643-658 | the first match fills the reservoir, match number v replaces it on a draw of 1 out of v |
| `Sampling.VisitExact` | puffin/src/fuzzer/mutations.rs:627-641 | the visit of a term names exactly its subterms with their paths |
| `Sampling.VisitOrdered` | puffin/src/fuzzer/mutations.rs:627-641 | a node is visited before what is below it and its arguments from last to first, each place once; there are as many visits as the term's size |
| `Sampling.EligibleExact` | puffin/src/fuzzer/mutations.rs:614-665 | the sampler considers every place of every recipe strictly between the size bounds that passes the filter, once, in visiting order, and nothing else |
| `Sampling.PickedExact` | puffin/src/fuzzer/mutations.rs:648-656 | the reservoir ends with the last match that drew a 1, or the first match if none did |
| `Sampling.SampleIsFoundAgain` | puffin/src/fuzzer/mutations.rs:692-737 | a sampled path leads `find_term_mut` back to the sampled term, which passes the filter; nothing is sampled exactly when nothing qualifies |
| `Uniformity.TapesExact` | puffin/src/fuzzer/mutations.rs:644-656 | the counted tapes are exactly the sequences of admissible draws |
| `Uniformity.ReservoirIsUniform` | puffin/src/fuzzer/mutations.rs:604-668 | of the n! tapes each of n indices is left in the reservoir by exactly (n - 1)! |
| `Uniformity.EveryPlaceEquallyLikely` | puffin/src/fuzzer/mutations.rs:604-668 | every eligible place of a trace is sampled by exactly (n - 1)! of the n! tapes |
| `Zoo.GenerateTerm` | puffin/src/fuzzer/term_zoo.rs:47-87 | result and number of draws are those of the generation function |
| `Zoo.GenSound` | puffin/src/fuzzer/term_zoo.rs:47-87 | a generated term is closed, starts with the given symbol, matches its shape everywhere and is at most as high as the depth |
| `Zoo.GenComplete` | puffin/src/fuzzer/term_zoo.rs:47-87 | for every such term there are draws that produce it |
| `Zoo.GeneratedTermsExact` | puffin/src/fuzzer/term_zoo.rs:47-87 | generation can produce exactly those terms |
| `Zoo.ZooTermWellTyped` | puffin/src/fuzzer/term_zoo.rs:58-86 | zoo terms are well-typed |
| `Zoo.ZooTermSize` | puffin/src/fuzzer/term_zoo.rs:15-56 | a zoo term is no larger than the full tree of its height and the largest arity |
| `Zoo.ZooBound` | puffin/src/fuzzer/term_zoo.rs:15-16 | the bound on zoo terms written out for depth eight; a hundred tries |
| `Zoo.GenerateZoo` | puffin/src/fuzzer/term_zoo.rs:23-45 | one series of attempts for each definition, in order |
| `Zoo.TryGenerate` | puffin/src/fuzzer/term_zoo.rs:28-40 | the first success within the allowed tries, or none |
| `Zoo.ZooSound` | puffin/src/fuzzer/term_zoo.rs:23-45 | every zoo term is a closed well-typed term of bounded height, at most one for each definition |
| `Zoo.ZooTermsExact` | puffin/src/fuzzer/term_zoo.rs:23-45 | a zoo can hold exactly those terms |
| `Zoo.ZoosExact` | puffin/src/fuzzer/term_zoo.rs:23-45 | the zoos that can be made are exactly those with, for each definition in order, one of its terms, or nothing where an attempt can fail |
| `Zoo.GenFails` | puffin/src/fuzzer/term_zoo.rs:47-87 | an attempt fails only if the depth runs out or some argument has no symbol or one that can fail |
| `Zoo.FailComplete` | puffin/src/fuzzer/term_zoo.rs:47-87 | then there are draws on which it does |
| `Zoo.AttemptUses` | puffin/src/fuzzer/term_zoo.rs:28-87 | generation depends on no draws but those it uses up |
| `Mutators.ChooseFiltered` | puffin/src/fuzzer/mutations.rs:760-768 | the sample the draws determine; none exactly when no place qualifies |
| `Mutators.ChooseFrom` | puffin/src/fuzzer/mutations.rs:553-566 | one draw among the items that pass the filter, in order; none if none pass |
| `Mutators.Swap` | puffin/src/fuzzer/mutations.rs:75-101 | performs an enabled swap of two places of equal type, and skips exactly when no place can be chosen |
| `Mutators.RemoveAndLift` | puffin/src/fuzzer/mutations.rs:140-180 | performs the lift the draws determine: replaces a subterm by one of its own children of the same type, and skips exactly when no place allows it |
| `Mutators.FilterGrandSubterms` | puffin/src/algebra/term.rs:193-214 | lists exactly the grandchildren that have their parent's type |
| `Mutators.LiftGrandSubterm` | puffin/src/fuzzer/mutations.rs:161-172 | the drawn grandchild takes its parent's place, the other arguments stay |
| `Mutators.PushSwapRemoveIsUpdate` | puffin/src/fuzzer/mutations.rs:169-171 | push and swap-remove together replace one element in place |
| `Mutators.ReplaceMatch` | puffin/src/fuzzer/mutations.rs:226-268 | performs the replacement the draws determine: replaces a head symbol by a differently named one of the same shape, or a variable by a constant of its type |
| `Mutators.ReplaceReuse` | puffin/src/fuzzer/mutations.rs:308-327 | copies a drawn subterm over a place of the same type and changes nothing elsewhere; skips exactly when no place can be chosen |
| `Mutators.Skip` | puffin/src/fuzzer/mutations.rs:364-381 | removes the drawn step exactly when the trace is longer than the minimum |
| `Mutators.Repeat` | puffin/src/fuzzer/mutations.rs:416-434 | inserts a copy of the drawn step at the drawn place exactly when the trace is not empty and below the maximum |
| `Mutators.GenerateMutator.Mutate` | puffin/src/fuzzer/mutations.rs:483-510 | writes a drawn zoo term of the place's type there and nothing elsewhere; keeps the zoo unless it is due for a refresh |
| `Mutators.GenerateMutator.Stock` | puffin/src/fuzzer/mutations.rs:491-497 | counts the mutation and makes a new zoo from the next draws exactly when there is none or the counter is a multiple of the refresh interval |
| `Mutators.GenerateMutator.PickFromZoo` | puffin/src/fuzzer/mutations.rs:491-501 | one draw among the zoo terms of the wanted type |
| `Mutators.ApplyOne` | puffin/src/fuzzer/mutations.rs:36-44 | the draw decides which of the seven mutators performs its event; event, generator and number of draws are those of the specification |
| `Mutators.ScheduledMutate` | puffin/src/fuzzer/stages.rs:162-178 | performs exactly the run the random source determines, all events enabled, and touches nothing of the trace but its steps |
| `Mutations.GeneratedEffect` | puffin/src/fuzzer/mutations.rs:500-504 | a generated term stands where it was put, has the type found there, and nothing else changes |
| `Mutations.ReusedEffect` | puffin/src/fuzzer/mutations.rs:313-324 | the target holds what the source held before, of the same type, and nothing else changes |
| `Mutations.MatchedEffect` | puffin/src/fuzzer/mutations.rs:233-264 | the place has the new head; its arguments and everything else stay |
| `Mutations.FitsExactly` | puffin/src/fuzzer/mutations.rs:236-257 | a constant of its type fits a variable; another symbol with the same argument and return types fits an application |
| `Mutations.LiftedEffect` | puffin/src/fuzzer/mutations.rs:160-172 | the grandchild stands in its parent's place and has its type; head, other children and everything else stay |
| `Mutations.StepRemovedEffect` | puffin/src/fuzzer/mutations.rs:377-379 | the drawn step is gone and the later ones move forward |
| `Mutations.StepRepeatedEffect` | puffin/src/fuzzer/mutations.rs:428-432 | a copy of the drawn step stands at the drawn place and the steps from there move back |
| `Choices.SampleQualifies` | puffin/src/fuzzer/mutations.rs:605-709 | whatever the random source, a sampled place qualifies, and nothing is sampled exactly if no place does |
| `Choices.GrandSubtermsExact` | puffin/src/algebra/term.rs:193-214 | exactly the grandchildren that have their parent's type are listed |
| `Choices.KeptInOrder` | puffin/src/fuzzer/mutations.rs:553-566 | filtering keeps the order of the items |
| `Choices.GrandSubtermsInOrder` | puffin/src/algebra/term.rs:193-214 | they are listed child by child, grandchild by grandchild |
| `Choices.LiftableIff` | puffin/src/fuzzer/mutations.rs:147-158 | a term passes the filter exactly if it has something to lift |
| `Choices.MutatorByDraw` | puffin/src/fuzzer/mutations.rs:36-44 | the first draw decides which mutator performs its kind of event |
| `Choices.RolesByDraw` | puffin/src/fuzzer/mutations.rs:82-88 | the first sample is the first place of a swap and the source of a reuse, the second the second place and the target |
| `Choices.LiftSound` | puffin/src/fuzzer/mutations.rs:140-180 | a chosen lift is enabled, and there is one unless no place allows it |
| `Choices.PairSound` | puffin/src/fuzzer/mutations.rs:82-88 | a chosen pair has equal types, and there is one unless no place can be chosen |
| `Choices.GenerateSound` | puffin/src/fuzzer/mutations.rs:483-510 | a generated replacement is a zoo term of the replaced term's type, and the zoo stays valid |
| `Possibilities.EventCanHappen` | puffin/src/fuzzer/mutations.rs:75-434 | every enabled event other than a skip or a generation is performed by its mutator on some draws |
| `Possibilities.GenerationCanHappen` | puffin/src/fuzzer/mutations.rs:483-510 | whatever zoo the generator can have, every term of the place's type in it can be drawn, and if there is none the mutation is skipped |
| `Possibilities.PlainSkips` | puffin/src/fuzzer/mutations.rs:75-434 | a mutator without a state skips only if the length bounds forbid it, no place allows a lift, or some place has a head that nothing can replace |
| `Possibilities.SkipCanHappen` | puffin/src/fuzzer/mutations.rs:75-434 | then one does on some draws |
| `Possibilities.TransitionEnabled` | puffin/src/fuzzer/mutations.rs:75-510 | transitions perform enabled events and keep the generator valid |
| `Possibilities.TransitionsExact` | puffin/src/fuzzer/mutations.rs:75-510 | one scheduled mutation, skips and generation included, can do exactly the declared transitions of trace and generator |
| `Possibilities.PossibleRunsAreRuns` | puffin/src/fuzzer/stages.rs:162-178 | sequences of transitions are runs of enabled events |
| `Possibilities.RunCanHappen` | puffin/src/fuzzer/stages.rs:162-178 | every sequence of transitions is performed on some draws |
| `Possibilities.ScheduledRunsExact` | puffin/src/fuzzer/stages.rs:162-178 | the runs, skips and generation included, that one scheduled call can perform, and the generators they leave, are exactly the sequences of transitions below the maximum |
| `Possibilities.FreshRunsPossible` | puffin/src/fuzzer/stages.rs:162-178 | every run of enabled events without skips is possible if each generation comes when a new zoo is due |
| `Sampling.TapeRead` | puffin/src/fuzzer/mutations.rs:654 | every tape of admissible draws is offered by some random source |
| `Mutations.SwapDisjoint` | puffin/src/fuzzer/mutations.rs:82-99 | a swap of disjoint places exchanges the two subterms and leaves every other place as it was |
| `Mutations.SwapIntoDescendant` | puffin/src/fuzzer/mutations.rs:89-95 | if the first place is at or above the second, the first subterm is replaced by the second |
| `Mutations.SwapIntoAncestor` | puffin/src/fuzzer/mutations.rs:89-95 | if the second place is properly above the first, it ends up with the inner term, with the outer one written into it again where the place still exists |
| `Mutations.SwapTyping` | puffin/src/fuzzer/mutations.rs:82-99 | a swap in a well-typed trace keeps it well-typed exactly when it is safe, a condition on the two places before the call |
| `Mutations.MutationTyping` | puffin/src/fuzzer/mutations.rs:75-510 | every mutation of a well-typed trace keeps it well-typed, except exactly the unsafe swaps; term mutations keep agents, step kinds and recipe types |
| `Mutations.UnsafeSwapWitness` | puffin/src/fuzzer/mutations.rs:89-95 | an enabled swap of a well-typed trace that makes it ill-typed |
| `Mutations.LiftShrinksMatchKeeps` | puffin/src/fuzzer/mutations.rs:140-268 | RemoveAndLift strictly shrinks the recipe it touches, ReplaceMatch keeps its size, both leave all other steps |
| `Mutations.MutationSizes` | puffin/src/fuzzer/mutations.rs:75-510 | a mutation stays within any size bound that has room for one replacement |
| `Mutations.RunKeepsTyping` | puffin/src/fuzzer/mutations.rs:75-510 | over every run with safe swaps traces stay well-typed, and every step keeps the agent and recipe type of an original step |
| `Mutations.RunTypedIffSafe` | puffin/src/fuzzer/mutations.rs:75-510 | a trace stays well-typed throughout a run exactly when each swap of the run was safe |
| `Mutations.RunKeepsLength` | puffin/src/fuzzer/mutations.rs:364-434 | over every run the number of steps stays between the bounds |
| `Mutations.RunKeepsSizes` | puffin/src/fuzzer/mutations.rs:619-622 | over every run no recipe exceeds the largest of its initial bound, 2 max - 3, and max - 2 plus the largest zoo term |
| `FuzzedTraces.MutatedRecipesEvaluate` | puffin/src/algebra/term.rs:106-136 | recipes of a safely mutated well-typed trace never fail an argument check and evaluate to the type of an original recipe |
| `Matching.MatchingIsPartialOrder` | tlspuffin/src/query.rs:20-46 | matching is a partial order and specificity strictly increases along it |
| `Matching.MatchesIff` | tlspuffin/src/query.rs:20-46 | what matches what, and the specificity of each kind of label |
| `Matching.TightQueriesHaveOneLabel` | puffin/src/algebra/mod.rs:66-86 | a query admits only its own label exactly when it is neither empty nor "any handshake" |
| `Knowing.StableSortIsStable` | puffin/src/trace.rs:199 | sorting by specificity is an ascending permutation that keeps the order of equal keys |
| `Knowing.StableOrderIsUnique` | puffin/src/trace.rs:199 | there is only one such order |
| `Knowing.FindVariable` | puffin/src/trace.rs:179-204 | the matching piece with exactly `counter` matching ones ahead of it, less specific ones or equally specific earlier ones; none exactly if no more than `counter` match |
| `Knowing.AnswerRank` | puffin/src/trace.rs:177-204 | the same as an iff on the index of the answer |
| `Knowing.AnswerKeptIff` | puffin/src/trace.rs:145-204 | when knowledge grows, an answered query keeps its answer exactly if no less specific match arrives |
| `Knowing.TightAnswersNeverChange` | puffin/src/trace.rs:177-204 | for every query that is not loose an answer is final |
| `Knowing.LooseAnswersCanChange` | puffin/src/trace.rs:177-204 | every loose query, whatever its counter, can lose its answer to a later piece of knowledge |
| `Knowing.AnswersFinalIff` | puffin/src/trace.rs:177-204 | answers are final exactly for the queries that are not loose |
| `Knowing.MostSpecificIff` | puffin/src/trace.rs:177-204 | the answer is always one of the highest specificity exactly for the queries that are not loose |
| `Knowing.MoreSpecificIsPassedOver` | puffin/src/trace.rs:177-204 | for every loose query, a more specific piece behind enough others is not the answer |
| `Knowing.FindLastClaimIsLast` | puffin/src/claims.rs:40-45 | the claim found is the latest of its agent and type, and is found if there is one |
| `Evaluation.InvokeDynamic` | puffin/src/algebra/dynamic_function.rs:204-237 | the argument checks in order, then the function, then its type on the result |
| `Evaluation.CallByPlace` | puffin/src/algebra/dynamic_function.rs:204-237 | the function gets the payload of argument i in place i, and its result the declared type |
| `Evaluation.FirstBadDecides` | puffin/src/algebra/dynamic_function.rs:210-233 | the first declared argument that is missing or mistyped decides the error |
| `Evaluation.ArgumentChecksExact` | puffin/src/algebra/dynamic_function.rs:210-233 | a call fails its checks exactly when a declared argument is missing or has another type |
| `Evaluation.Evaluate` | puffin/src/algebra/term.rs:106-136 | arguments from left to right, the first failure wins, knowledge before claims |
| `Evaluation.ApplicationByPlace` | puffin/src/algebra/term.rs:113-135 | an application whose arguments evaluate place by place evaluates to what its function computes from them, place by place |
| `Evaluation.FirstFailureDecides` | puffin/src/algebra/term.rs:117-131 | the first argument that fails decides the failure |
| `Evaluation.VariableByRank` | puffin/src/trace.rs:166-204 | a variable is the piece of knowledge of its rank, else the latest claim of its agent and type, else an error |
| `Evaluation.VariableSoundIff` | puffin/src/trace.rs:166-204 | a variable's value has its type exactly unless the answer is a claim whose value has another type |
| `Evaluation.EvalSound` | puffin/src/algebra/term.rs:106-136 | a well-typed term never fails an argument check and its value has the term's type, if the claims within reach, the latest of each agent and type, carry what they advertise |
| `Evaluation.SoundContextIff` | puffin/src/algebra/term.rs:106-136 | that condition on the claims is exact: it holds if and only if all well-typed terms have values of their types, and if and only if none of them fails an argument check |
| `Evaluation.HonestClaimsAgree` | tlspuffin/src/claims.rs:160-204 | claims whose value has the type of their id, as all TLS claims, meet the condition |
| `Evaluation.DoubleBoxedClaimBreaksSoundness` | sshpuffin/src/claim.rs:19-25 | in every context a doubly boxed claim that no later one hides makes a well-typed variable and a well-typed application unsound |
| `Evaluation.AnchoredTermsKeepTheirValue` | puffin/src/trace.rs:145-204 | a term whose variables are answered by tight queries evaluates the same in every context with more knowledge |
| `Execution.FindReusable` | puffin/src/put.rs:102-105 | the first agent of the descriptor's class, if any |
| `Execution.AtMostFourAgents` | puffin/src/agent.rs:134-138 | one agent for each role and version means at most four |
| `Execution.SpawnExact` | puffin/src/trace.rs:317-342 | spawning keeps one agent per class and the old agents in place, covers the descriptors' classes and no others, and names each agent after the last descriptor of its class |
| `Execution.SpawnNames` | puffin/src/trace.rs:317-342 | which names the agents of each class have after spawning |
| `Execution.SpawnPuts` | puffin/src/trace.rs:317-342 | new agents get their PUTs from the first descriptors of the classes not yet present, in order |
| `Execution.SpawnIdempotent` | puffin/src/trace.rs:317-342 | spawning the same descriptors again right away changes nothing |
| `Execution.DoubleSpawnKeepsNames` | puffin/src/trace.rs:348-353 | for any nesting of prior traces, the extra spawn before a prior trace's run leads to agents of the same classes with the same names |
| `Execution.DoubleSpawnIsOneSpawnIff` | puffin/src/trace.rs:348-353 | it changes nothing at all, not even order and PUTs, exactly when the first descriptors of the classes not yet present are the same in the same order with and without it; always for a prior trace without prior traces |
| `Execution.NestedDoubleSpawnDiffers` | puffin/src/trace.rs:348-353 | with one level of nesting any two different descriptors make a difference |
| `Execution.AgentsAfterRun` | puffin/src/trace.rs:344-376 | for any nesting each agent ends with the name of the last descriptor of its class in spawning order |
| `Execution.ExecSound` | puffin/src/trace.rs:344-376 | over every run, successful or not: append-only knowledge, claims exactly those the calls raised in order, agents one per class, no argument check fails for well-typed traces; a successful run has the predicted agents and no violation |
| `Execution.RunsKeepAnswers` | puffin/src/trace.rs:344-376 | over every run, successful or not, answered queries that are not loose keep their answer and terms over them their value |
| `Execution.RestOfRunKeepsAnswers` | puffin/src/trace.rs:355-371 | the same from any point within the steps of a run |
| `Execution.ReachableContexts` | puffin/src/trace.rs:344-376 | every context reached from a new one has at most four agents, one per class |
| `Execution.TraceContext.SpawnAgents` | puffin/src/trace.rs:317-342 | new state and result are those of the spawning function, also when a PUT fails half-way |
| `Effects.SpawnFailsAt` | puffin/src/trace.rs:317-342 | the first call that fails ends spawning, a reused agent already renamed and a new one not yet there |
| `Execution.TraceContext.Output` | puffin/src/trace.rs:494-538 | unknown agents and failing PUTs stop it; otherwise each message adds its parts, labelled or not, in order, until the channel is drained or taking a message fails |
| `Effects.OutputExact` | puffin/src/trace.rs:494-538 | an output without its agent or with a failing PUT learns nothing; else the messages are learned, for each its parts under its label, then its opaque parts without one, by index, up to the one that cannot be extracted or taken |
| `Execution.TraceContext.Input` | puffin/src/trace.rs:566-595 | evaluates, accepts only messages, finds the agent and drives it |
| `Effects.InputExact` | puffin/src/trace.rs:566-595 | an input succeeds exactly if the recipe evaluates to a message, the agent is known and its PUT goes along; one call, no knowledge |
| `Execution.TraceContext.Execute` | puffin/src/trace.rs:344-376 | new state and result are those of the execution function |
| `Effects.StepExact` | puffin/src/trace.rs:356-368 | a successful step learns exactly its agent's reply to its output, which for an input step follows the reply to the input |
| `Effects.StepsByIndex` | puffin/src/trace.rs:354-371 | so does each step of a run, and this is the reply to the call with a given number |
| `Effects.ExecCalls` | puffin/src/trace.rs:344-376 | a successful run makes exactly the calls of its prior traces, descriptors, steps and resets, for any nesting |
| `Effects.BodyVerdict` | puffin/src/trace.rs:353-375 | a trace whose steps succeed ends well exactly if the oracle finds nothing |
| `Effects.VerdictMeansViolation` | puffin/src/trace.rs:344-376 | for any nesting a run ends with the verdict only if the oracle finds a violation in its claims |
| `Execution.TraceContext.ExecutePrior` | puffin/src/trace.rs:348-352 | a prior trace is spawned, executed and its agents reset |
| `Execution.TraceContext.ResetAgents` | puffin/src/trace.rs:286-291 | one reset for each agent until one fails |
| `Effects.ResetByCalls` | puffin/src/trace.rs:286-291 | resetting succeeds exactly if each agent's call does |
| `Codec.UintRoundTrip` | puffin/src/codec.rs:83-183 | an integer comes back from its bytes exactly when it fits the width |
| `Codec.BeBytesByDigit` | puffin/src/codec.rs:83-183 | byte i of an integer is its digit to the base 256, most significant first |
| `Codec.BytesRoundTrip` | puffin/src/codec.rs:83-183 | bytes come back from their integer |
| `Codec.ParseUintExact` | puffin/src/codec.rs:107-162 | reading an encoded integer leaves what follows it |
| `Codec.Reader.Take` | puffin/src/codec.rs:23-31 | hands out the next bytes and moves past them, or changes nothing |
| `Codec.Reader.Sub` | puffin/src/codec.rs:54-56 | a reader over the next bytes, or nothing |
| `Codec.UintCodecIsLawful` | puffin/src/codec.rs:89-183 | integers meet the laws asked of vector elements |
| `Codec.EncodeVec` | puffin/src/codec.rs:185-225 | appends length and items, with the length patched in place and earlier bytes untouched |
| `Codec.VecLayout` | puffin/src/codec.rs:185-225 | the length of the body, then each item behind the items before it |
| `Codec.ReadVec` | puffin/src/codec.rs:227-265 | reads length, limit and items as the parser says; the item loop terminates |
| `Codec.VecRoundTrip` | puffin/src/codec.rs:185-265 | a vector of round-tripping items comes back with the exact remaining input, exactly when its body fits the length field and the limit |
| `NameLists.SplitJoin` | sshpuffin/src/ssh/message.rs:69-91 | splitting undoes joining exactly for names without commas |
| `NameLists.JoinSplit` | sshpuffin/src/ssh/message.rs:69-91 | joining undoes splitting always |
| `NameLists.JoinLayout` | sshpuffin/src/ssh/message.rs:70-75 | each name stands at its offset with a comma behind it but the last |
| `NameLists.Utf8Join` | sshpuffin/src/ssh/message.rs:71-80 | joined UTF-8 names are UTF-8 |
| `NameLists.Utf8Iff` | sshpuffin/src/ssh/message.rs:83-89 | the bytes accepted as text are exactly the encodings of Unicode scalar values of RFC 3629 |
| `SshMessages.NameListRoundTrip` | sshpuffin/src/ssh/message.rs:69-91 | a name list comes back exactly when it fits its length field, no name has a comma and it is not one empty name; one that does not fit leaves more than what follows it |
| `SshMessages.KexInitRoundTrip` | sshpuffin/src/ssh/message.rs:140-180 | a key-exchange message comes back, with what follows it left, exactly when all its lists survive and fit their length fields |
| `SshMessages.MessageRoundTrip` | sshpuffin/src/ssh/message.rs:233-265 | every message comes back, with what follows it left, exactly when its names survive and its fields fit their length fields |
| `SshMessages.PacketIsFaithful` | sshpuffin/src/ssh/message.rs:30-56 | a parsed packet encodes to the bytes it was parsed from |
| `SshMessages.PacketRoundTrip` | sshpuffin/src/ssh/message.rs:30-56 | a packet comes back, with what follows it left, exactly when it has no mac and its padding and its length fit their length fields |
| `SshMessages.FullStackRoundTrip` | sshpuffin/src/ssh/message.rs:233-287 | wrapping, encoding, raw reading and unwrapping give a message back, with what follows it untouched, exactly when it fits the packet and its names survive |
| `SshMessages.NeverTheBanner` | sshpuffin/src/ssh/message.rs:275-287 | a wrapped message is never taken for the banner |
| `SshMessages.BannerLookalike` | sshpuffin/src/ssh/message.rs:368-376 | only a packet of one length above a gigabyte can look like the banner |
| `SshMessages.RawIsFaithful` | sshpuffin/src/ssh/message.rs:357-385 | a parsed raw message encodes to the bytes it was parsed from and is never `OnWire` |
| `SshCodec.EncodeNameList` | sshpuffin/src/ssh/message.rs:70-75 | appends exactly the encoding |
| `SshCodec.EncodeKexInit` | sshpuffin/src/ssh/message.rs:141-157 | appends exactly the encoding |
| `SshLayout.KexInitLayout` | sshpuffin/src/ssh/message.rs:141-157 | type 20, cookie, lists, flag and reserved word, byte by byte |
| `SshLayout.KexInitListStands` | sshpuffin/src/ssh/message.rs:141-157 | each of the ten lists stands in its place behind its length |
| `SshCodec.EncodeMessage` | sshpuffin/src/ssh/message.rs:234-252 | appends exactly the encoding |
| `SshLayout.MessageLayout` | sshpuffin/src/ssh/message.rs:234-252 | the type byte of the other messages and the place of each field |
| `SshCodec.EncodePacket` | sshpuffin/src/ssh/message.rs:31-40 | appends exactly the encoding |
| `SshLayout.PacketLayout` | sshpuffin/src/ssh/message.rs:31-40 | length, padding length, payload, padding, mac, byte by byte |
| `SshLayout.OpaqueLayout` | sshpuffin/src/ssh/message.rs:275-287 | the message, seven zero bytes of padding, no mac |
| `SshCodec.EncodeRaw` | sshpuffin/src/ssh/message.rs:358-366 | appends exactly the encoding |
| `SshCodec.ReadNameList` | sshpuffin/src/ssh/message.rs:77-90 | value and reader position are those of the parser, failures included |
| `SshCodec.ReadKexInit` | sshpuffin/src/ssh/message.rs:159-179 | value and reader position are those of the parser, failures included |
| `SshCodec.ReadMessage` | sshpuffin/src/ssh/message.rs:254-264 | value and reader position are those of the parser, failures included |
| `SshCodec.ReadPacket` | sshpuffin/src/ssh/message.rs:42-55 | value and reader position are those of the parser, failures included |
| `SshCodec.ReadRaw` | sshpuffin/src/ssh/message.rs:368-385 | value and reader position are those of the parser, failures included |
| `SshDeframer.DeframeConserves` | sshpuffin/src/ssh/deframe.rs:99-120 | the frames of some bytes encode to those bytes; only the last can be unparsed |
| `SshDeframer.DeframeWhole` | sshpuffin/src/ssh/deframe.rs:60-120 | banners and packets read in one go come out as they are, in order |
| `SshDeframer.ReadsConserve` | sshpuffin/src/ssh/deframe.rs:60-87 | over any sequence of reads the frames encode to exactly the bytes read |
| `SshCuts.TwoReadsIff` | sshpuffin/src/ssh/deframe.rs:60-120 | two reads give the frames of one exactly when the first leaves no unparsed remainder or the second brings nothing |
| `SshCuts.ReadsAreOneReadIff` | sshpuffin/src/ssh/deframe.rs:60-120 | any sequence of reads gives the frames of one read of all their bytes exactly when no read that leaves a remainder is followed by one that brings something |
| `SshCuts.CutPacketIsLost` | sshpuffin/src/ssh/deframe.rs:99-120 | every packet cut anywhere: its first part comes out unparsed, and the two reads do not give the packet |
| `SshCuts.ParseRawExtends` | sshpuffin/src/ssh/message.rs:368-385 | what parses at the front parses alike when more bytes follow |
| `SshDeframer.SshMessageDeframer.Read` | sshpuffin/src/ssh/deframe.rs:60-87 | appends the frames of everything buffered and read, empties the buffer, never sets `desynced`; an I/O error changes nothing |
| `SshDeframer.SshMessageDeframer.ReadAll` | sshpuffin/src/ssh/deframe.rs:60-87 | over any sequence of reads, failing ones among them: the frames are those of the bytes that arrived, read by read, and encode to them; the buffer is empty and `desynced` unchanged |
| `SshDeframer.SshMessageDeframer.TryDeframeOne` | sshpuffin/src/ssh/deframe.rs:99-120 | moves one frame from the buffer to the queue |
| `SshDeframer.SshMessageDeframer.BufConsume` | sshpuffin/src/ssh/deframe.rs:123-143 | the bytes behind the consumed ones move to the front |
| `SshDeframer.SshMessageDeframer.PopFrame` | sshpuffin/src/ssh/deframe.rs:149-151 | takes the oldest frame |
| `MemoryStreams.SshFramingIsLawful` | sshpuffin/src/ssh/deframe.rs:60-120 | the SSH deframer meets the laws the stream relies on |
| `MemoryStreams.SshRead` | sshpuffin/src/ssh/deframe.rs:60-87 | the SSH deframer reading a slice does exactly what the stream's deframer does with the SSH framing, failures included |
| `MemoryStreams.Deframer.Read` | puffin/src/stream.rs:92-110 | takes as much as fits, keeps frames plus held bytes equal to what came in; a failed read changes nothing |
| `MemoryStreams.MemoryStream.AddToInbound` | puffin/src/stream.rs:81-83 | the encoding joins the end of the inbound queue |
| `MemoryStreams.MemoryStream.Read` | puffin/src/stream.rs:131-146 | delivers the oldest waiting bytes, as many as fit, and keeps delivered plus waiting equal to added |
| `MemoryStreams.MemoryStream.Write` | puffin/src/stream.rs:150-152 | the outbound cursor is at the end, so writing appends |
| `MemoryStreams.MemoryStream.TakeFrame` | puffin/src/stream.rs:85-111 | returns the oldest frame, reads the deframer at most twice, returns hard failures of a read and takes one that would block for no message, and loses bytes exactly when a read succeeds that cannot accept the whole outbound buffer |
| `MemoryStreams.MemoryStream.Refill` | puffin/src/stream.rs:92-110 | one read of the deframer: the channel is cleared after a successful one and kept after a failed one |
| `SshId.ReadSshIdBuffer.Scan` | sshpuffin/src/ssh/russh/ssh_read.rs:138-154 | finds the first line end and the line without its terminator, or reports that there is none |
| `SshId.SshRead.ReadSshId` | sshpuffin/src/ssh/russh/ssh_read.rs:119-172 | for every cutting of the stream into reads: the identification line, with exactly the bytes behind it pending, or a disconnect if no line ends within the buffer; a stream that starts with preliminary lines loses them, each with up to a buffer full of what follows, until what is left does not start with one and determines the outcome in the same way; a reader that has found the line finds it again if it can read anything |
| `SshId.SshRead.PollRead` | sshpuffin/src/ssh/russh/ssh_read.rs:59-77 | delivers the pending bytes in order and loses none |
| `SshId.FirstLine` | sshpuffin/src/ssh/russh/ssh_read.rs:156-169 | a line end found in a prefix is the stream's, and the prefix decides whether the line is an identification |
| `Negotiation.ServerSelect` | sshpuffin/src/ssh/russh/negotiation.rs:213-226 | the first client name that the server lists, and whether the list heads coincide |
| `Negotiation.ClientSelect` | sshpuffin/src/ssh/russh/negotiation.rs:228-241 | the same choice from the other loop |
| `Negotiation.FirstCommonExact` | sshpuffin/src/ssh/russh/negotiation.rs:213-241 | the choice is the earliest client name in common, and is missing exactly when there is none |
| `Negotiation.SelectAgrees` | sshpuffin/src/ssh/russh/negotiation.rs:213-241 | from the wire both sides select the same name with the same flag exactly when neither list is empty while the other holds the empty name; otherwise one side finds a name and the other none |
| `Negotiation.EmptyNameBreaksAgreement` | sshpuffin/src/ssh/russh/negotiation.rs:213-241 | an instance in which they disagree |
| `Negotiation.WriteKex` | sshpuffin/src/ssh/russh/negotiation.rs:243-269 | appends type, cookie, ten lists and tail |
| `SshLayout.KexPacketLayout` | sshpuffin/src/ssh/russh/negotiation.rs:243-269 | type 20, cookie, lists, no packet follows, reserved word, byte by byte |
| `SshLayout.KexPacketListStands` | sshpuffin/src/ssh/russh/negotiation.rs:243-269 | each of the ten lists of the packet in its place |
| `SshLayout.CompressionNames` | sshpuffin/src/ssh/russh/compression.rs:22-28 | the two names that mean compression |
| `SshLayout.ConstantTexts` | sshpuffin/src/ssh/message.rs:368-376 | the texts of the banner and of the identification prefix |
| `SshLayout.NumberByDigits` | puffin/src/codec.rs:107-162 | the digits of every length field on the wire |
| `Negotiation.ReadKex` | sshpuffin/src/ssh/russh/negotiation.rs:129-207 | the outcome list by list, the first failure ending it |
| `Negotiation.AnyPacket` | sshpuffin/src/ssh/russh/negotiation.rs:129-207 | for any packet: from which list each choice comes, both compressions, and when a guessed packet is to be ignored |
| `Negotiation.NegotiationAgrees` | sshpuffin/src/ssh/russh/negotiation.rs:129-269 | server and client, each reading the other's packet, reach the same algorithms or the same error, the one the preferences determine, exactly when they choose alike from every list that decides; always for non-empty names |
| `KeyDerivation.ComputeKey` | sshpuffin/src/ssh/russh/kex.rs:185-225 | the first bytes of the hash chain, exactly as many as asked for; the loop terminates |
| `KeyDerivation.KeyByBlocks` | sshpuffin/src/ssh/russh/kex.rs:189-223 | each block of 32 bytes is the hash of secret, exchange hash and, for the first, letter and session id, for the others, all of the key before it |
| `KeyDerivation.KeyFromEnough` | sshpuffin/src/ssh/russh/kex.rs:206-223 | any sufficient amount of material gives the same key |
| `KeyDerivation.ShorterKeyIsPrefix` | sshpuffin/src/ssh/russh/kex.rs:206-223 | a shorter key is a prefix of a longer one |
| `KeyDerivation.ComputeKeys` | sshpuffin/src/ssh/russh/kex.rs:227-253 | each side gets the two directions under the letters of section 7.2 of RFC 4253 |
| `KeyDerivation.LettersByRole` | sshpuffin/src/ssh/russh/kex.rs:227-253 | the bytes 65 to 68 under which nonces and keys of each direction are derived, for both roles |
| `KeyDerivation.DirectionsMirror` | sshpuffin/src/ssh/russh/kex.rs:227-253 | what one side seals with the other opens with, in both directions, at the cipher's lengths |
| `Violations.CheckViolation` | tlspuffin/src/tls/violation.rs:14-125 | the verdict over the claims |
| `Violations.FindBestCipher` | tlspuffin/src/tls/violation.rs:71-81 | the server's first cipher that the client also offers |
| `Violations.BestCipherExact` | tlspuffin/src/tls/violation.rs:71-81 | that cipher is shared and no earlier one is; none exactly if nothing is shared |
| `Violations.MismatchNoneIff` | tlspuffin/src/tls/violation.rs:20-93 | no mismatch exactly when the endpoints agree on everything compared |
| `Violations.MismatchTexts` | tlspuffin/src/tls/violation.rs:20-93 | what the texts of the verdicts mean |
| `Violations.VerdictOfTwo` | tlspuffin/src/tls/violation.rs:14-169 | with one inbound Finished claim from each role, in either order and among any others, there is no violation exactly when the endpoints agree |
| `Violations.VerdictByPlaces` | tlspuffin/src/tls/violation.rs:14-169 | by place: with exactly two inbound Finished claims of different agents, one of each role, no violation exactly when they agree; of the same role, none |
| `Violations.OtherClaimsDoNotMatter` | tlspuffin/src/tls/violation.rs:128-143 | claims other than inbound Finished ones can be interleaved anywhere |
| `Violations.VerdictOtherwise` | tlspuffin/src/tls/violation.rs:94-122 | without exactly two inbound Finished claims of different agents only the first counts: for a server a violation exactly if it authenticates and the certificate is not bob's, for a client exactly if it is not alice's |
| `Violations.VerdictOfNone` | tlspuffin/src/tls/violation.rs:94-122 | without any inbound Finished claim there is no violation |

## Left out

- The concrete programs under test, their bindings, sockets and claim callbacks: a PUT is an arbitrary script of replies with a fixed descriptor.
- `set_deterministic` on agents: its failure is only logged.
- The LibAFL framework: only the mutators and the scheduler's two draws are modelled, with the framework's default loop around them.
- `unique_id` and `resistant_id` of terms: random tags that equality ignores.
- Serialization of traces and terms: the format belongs to libraries outside the repository.
- TLS message types, their deframer and the TLS key schedule: function symbols and hashes are arbitrary.
- `Matcher` is modelled for TLS only; the single-valued matcher of SSH would add nothing.
- An endless outbound channel: in one output action an agent emits a finite list of messages.
- `extend_list`, `read_string` and `extend_ssh_mpint` belong to a library outside the repository; a list is its names joined by commas behind a length, and the mpint of the shared secret is an arbitrary byte string.
- Cipher construction from key and nonce, and the Diffie-Hellman step itself.
- `debug_assert!` in the vector encoders: the model states what happens without it, a length field cut to its width.
- Preliminary lines before the SSH identification: the code discards its whole buffer there, so how many bytes go depends on how the stream is cut. `ReadSshId` bounds what goes and says that the rest of the stream then decides; which of these rests a given cut leads to is not modelled.
- `SshId.SshRead.ReadSshId`: promises nothing for a reader from which bytes were taken before its line was found.
- `ReadSshIdBuffer.buf` is modelled as a sequence field of fixed length, not as an array.
