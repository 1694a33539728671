/** Choices and machines driven by a random source, and which draws lead them where. */
module Drawing {
  import opened Randomness

  /** A value, and the number of the next draw, as a function of the random source. */
  type Choice<!T> = (nat -> nat, nat) -> (T, nat)

  /** With these draws the choice is `v`. */
  ghost predicate Leads<T(!new)>(f: Choice<T>, v: T, draws: seq<nat>) {
    forall raw: nat -> nat, pos: nat {:trigger Reads(raw, pos, draws)} :: Reads(raw, pos, draws) ==>
      f(raw, pos) == (v, pos + |draws|)
  }

  /** When the first draw is `x`, the choice is that of `g` from the second draw on. */
  ghost predicate Selects<T(!new)>(f: Choice<T>, x: nat, g: Choice<T>) {
    forall raw: nat -> nat, pos: nat {:trigger f(raw, pos)} :: raw(pos) == x ==> f(raw, pos) == g(raw, pos + 1)
  }

  lemma LeadsAfterDraw<T(!new)>(f: Choice<T>, x: nat, g: Choice<T>, v: T, draws: seq<nat>)
    requires Selects(f, x, g) && Leads(g, v, draws)
    ensures Leads(f, v, [x] + draws)
  {
    var all := [x] + draws;
    forall raw: nat -> nat, pos: nat | Reads(raw, pos, all)
      ensures f(raw, pos) == (v, pos + |all|)
    {
      ReadsSplit(raw, pos, [x], draws);
      assert raw(pos + 0) == [x][0];
    }
  }

  /** After `a` chose `va` and then `b` chose `vb`, `f` has chosen `v`. */
  ghost predicate Combines<A(!new), B(!new), T(!new)>(f: Choice<T>, a: Choice<A>, va: A, b: Choice<B>, vb: B, v: T) {
    forall raw: nat -> nat, pos: nat {:trigger f(raw, pos)} ::
      a(raw, pos).0 == va && b(raw, a(raw, pos).1).0 == vb ==> f(raw, pos) == (v, b(raw, a(raw, pos).1).1)
  }

  lemma LeadsBoth<A(!new), B(!new), T(!new)>(f: Choice<T>, a: Choice<A>, va: A, b: Choice<B>, vb: B, v: T,
                                             first: seq<nat>, second: seq<nat>)
    requires Combines(f, a, va, b, vb, v) && Leads(a, va, first) && Leads(b, vb, second)
    ensures Leads(f, v, first + second)
  {
    var draws := first + second;
    forall raw: nat -> nat, pos: nat | Reads(raw, pos, draws)
      ensures f(raw, pos) == (v, pos + |draws|)
    {
      ReadsSplit(raw, pos, first, second);
      assert a(raw, pos) == (va, pos + |first|);
    }
  }

  // ------------------------------------------------------------------ machines that draw

  /** Something that moves from state to state, each time using up some draws: from a state
      and a draw number, what it does, the next state and the next draw number. */
  datatype Machine<!S, !E> = Machine(step: (S, nat -> nat, nat) -> (E, S, nat))

  ghost function Roll<S, E>(m: Machine<S, E>, s: S, n: nat, raw: nat -> nat, pos: nat): (seq<E>, S, nat) {
    if n == 0 then ([], s, pos)
    else
      var (es, s', p) := Roll(m, s, n - 1, raw, pos);
      var (e, s'', p') := m.step(s', raw, p);
      (es + [e], s'', p')
  }

  /** With these draws the machine does `e` and is then in state `s'`. */
  ghost predicate StepLeads<S(!new), E(!new)>(m: Machine<S, E>, s: S, e: E, s': S, draws: seq<nat>) {
    forall raw: nat -> nat, pos: nat {:trigger Reads(raw, pos, draws)} :: Reads(raw, pos, draws) ==>
      m.step(s, raw, pos) == (e, s', pos + |draws|)
  }

  ghost predicate RollLeads<S(!new), E(!new)>(m: Machine<S, E>, s: S, es: seq<E>, s': S, draws: seq<nat>) {
    forall raw: nat -> nat, pos: nat {:trigger Reads(raw, pos, draws)} :: Reads(raw, pos, draws) ==>
      Roll(m, s, |es|, raw, pos) == (es, s', pos + |draws|)
  }

  lemma RollLeadsStep<S(!new), E(!new)>(m: Machine<S, E>, s: S, es: seq<E>, s': S, front: seq<nat>, e: E, s'': S, back: seq<nat>)
    requires RollLeads(m, s, es, s', front) && StepLeads(m, s', e, s'', back)
    ensures RollLeads(m, s, es + [e], s'', front + back)
  {
    var draws := front + back;
    forall raw: nat -> nat, pos: nat | Reads(raw, pos, draws)
      ensures Roll(m, s, |es + [e]|, raw, pos) == (es + [e], s'', pos + |draws|)
    {
      ReadsSplit(raw, pos, front, back);
    }
  }

  /** A source that offers `n` and then the draws of such a roll. */
  lemma RollOffered<S(!new), E(!new)>(m: Machine<S, E>, s: S, es: seq<E>, s': S, draws: seq<nat>) returns (raw: nat -> nat)
    requires RollLeads(m, s, es, s', draws)
    ensures raw(0) == |es| && Roll(m, s, |es|, raw, 1) == (es, s', 1 + |draws|)
  {
    raw := Offering([|es|] + draws, 0);
    ReadsSplit(raw, 0, [|es|], draws);
    assert raw(0 + 0) == [|es|][0];
  }
}
