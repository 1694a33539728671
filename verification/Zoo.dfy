/** Generating closed terms from a signature: `TermZoo`. */
module Zoo {
  import opened Wrappers
  import opened Terms
  import opened Signatures
  import opened Randomness

  const MAX_DEPTH: nat := 8
  const MAX_TRIES: nat := 100

  /** Closed terms over `defs` of height at most `depth`, well-typed by construction. */
  ghost predicate ZooTerm(defs: seq<Function>, t: Term, depth: nat)
    decreases depth
  {
    && depth > 0
    && t.Application?
    && t.func in defs
    && |t.args| == |t.func.shape.argTypes|
    && forall i :: 0 <= i < |t.args| ==>
                     TypeOf(t.args[i]) == t.func.shape.argTypes[i] && ZooTerm(defs, t.args[i], depth - 1)
  }

  /** What `generate_term` returns and where it leaves the random source, when draw
      number `p` is taken from `raw(p)`. */
  function Gen(sig: Signature, def: Function, depth: nat, raw: nat -> nat, pos: nat): (r: (Option<Term>, nat))
    decreases depth, 0
  {
    if depth == 0 then (None, pos)
    else
      var (args, p) := GenArgs(sig, def.shape.argTypes, depth - 1, raw, pos);
      (if args.None? then None else Some(Application(def, args.value)), p)
  }

  function GenArgs(sig: Signature, types: seq<TypeId>, depth: nat, raw: nat -> nat, pos: nat)
    : (r: (Option<seq<Term>>, nat))
    decreases depth, 1 + |types|
  {
    if types == [] then (Some([]), pos)
    else
      var n := |types| - 1;
      var (front, p) := GenArgs(sig, types[..n], depth, raw, pos);
      if front.None? then (None, p)
      else
        var (last, p') := GenArg(sig, types[n], depth, raw, p);
        (if last.None? then None else Some(front.value + [last.value]), p')
  }

  function GenArg(sig: Signature, typ: TypeId, depth: nat, raw: nat -> nat, pos: nat): (r: (Option<Term>, nat))
    decreases depth, 1
  {
    if typ !in sig.byType || sig.byType[typ] == [] then (None, pos)
    else
      var options := sig.byType[typ];
      Gen(sig, options[Draw(raw, pos, |options|)], depth, raw, pos + 1)
  }

  lemma {:induction false} EarlyNoneWins(sig: Signature, types: seq<TypeId>, i: nat, depth: nat, raw: nat -> nat, pos: nat)
    requires i <= |types| && GenArgs(sig, types[..i], depth, raw, pos).0.None?
    ensures GenArgs(sig, types, depth, raw, pos) == GenArgs(sig, types[..i], depth, raw, pos)
    decreases |types| - i
  {
    if i == |types| {
      assert types[..i] == types;
    } else {
      assert types[..i + 1][..i] == types[..i];
      EarlyNoneWins(sig, types, i + 1, depth, raw, pos);
    }
  }

  method GenerateTerm(sig: Signature, def: Function, depth: nat, rand: Rand) returns (r: Option<Term>)
    modifies rand
    ensures old(rand.drawn) <= rand.drawn
    ensures (r, |rand.drawn|) == Gen(sig, def, depth, rand.raw, |old(rand.drawn)|)
    decreases depth, 1
  {
    if depth == 0 {
      return None;
    }
    var types := def.shape.argTypes;
    ghost var pos := |rand.drawn|;
    var subterms: seq<Term> := [];
    for i := 0 to |types|
      invariant old(rand.drawn) <= rand.drawn
      invariant GenArgs(sig, types[..i], depth - 1, rand.raw, pos) == (Some(subterms), |rand.drawn|)
    {
      assert types[..i + 1][..i] == types[..i];
      var subterm := GenerateArgument(sig, types[i], depth - 1, rand);
      if subterm.None? {
        EarlyNoneWins(sig, types, i + 1, depth - 1, rand.raw, pos);
        return None;
      }
      subterms := subterms + [subterm.value];
    }
    assert types[..|types|] == types;
    r := Some(Application(def, subterms));
  }

  /** One argument: choose among the symbols that return its type, then generate. */
  method GenerateArgument(sig: Signature, typ: TypeId, depth: nat, rand: Rand) returns (r: Option<Term>)
    modifies rand
    ensures old(rand.drawn) <= rand.drawn
    ensures (r, |rand.drawn|) == GenArg(sig, typ, depth, rand.raw, |old(rand.drawn)|)
    decreases depth, 2
  {
    if typ !in sig.byType {
      return None;
    }
    var possibilities := sig.byType[typ];
    if possibilities == [] {
      return None;
    }
    var k := Choose(possibilities, rand);
    r := GenerateTerm(sig, possibilities[k], depth, rand);
  }

  // ------------------------------------------------------------------ which terms come out

  lemma {:induction false} GenSound(defs: seq<Function>, def: Function, depth: nat, raw: nat -> nat, pos: nat)
    requires def in defs
    ensures var t := Gen(NewSignature(defs), def, depth, raw, pos).0;
            t.Some? ==> ZooTerm(defs, t.value, depth) && t.value.func == def
    decreases depth, 0
  {
    if depth > 0 {
      GenArgsSound(defs, def.shape.argTypes, depth - 1, raw, pos);
    }
  }

  lemma {:induction false} GenArgsSound(defs: seq<Function>, types: seq<TypeId>, depth: nat, raw: nat -> nat, pos: nat)
    ensures var ts := GenArgs(NewSignature(defs), types, depth, raw, pos).0;
            ts.Some? ==> |ts.value| == |types| && forall i :: 0 <= i < |types| ==>
                           TypeOf(ts.value[i]) == types[i] && ZooTerm(defs, ts.value[i], depth)
    decreases depth, 1 + |types|
  {
    if types != [] {
      var sig, n := NewSignature(defs), |types| - 1;
      GenArgsSound(defs, types[..n], depth, raw, pos);
      var p := GenArgs(sig, types[..n], depth, raw, pos).1;
      IndexByTypeExact(defs, types[n]);
      if types[n] in sig.byType && sig.byType[types[n]] != [] {
        var options := sig.byType[types[n]];
        var f := options[Draw(raw, p, |options|)];
        ReturningExact(defs, types[n], f);
        GenSound(defs, f, depth, raw, p + 1);
      }
    }
  }

  /** Zoo terms are well-typed, and their size is bounded by the full tree of their height. */
  lemma {:induction false} ZooTermWellTyped(defs: seq<Function>, t: Term, depth: nat)
    requires ZooTerm(defs, t, depth) && AllLinked(defs)
    ensures WellTyped(t)
    decreases depth
  {
    forall i | 0 <= i < |t.args|
      ensures WellTyped(t.args[i])
    {
      ZooTermWellTyped(defs, t.args[i], depth - 1);
    }
  }

  ghost predicate ArityAtMost(defs: seq<Function>, a: nat) {
    forall f :: f in defs ==> |f.shape.argTypes| <= a
  }

  /** 1 + a + a^2 + ... with `depth` summands. */
  ghost function FullTree(a: nat, depth: nat): nat {
    if depth == 0 then 0 else 1 + a * FullTree(a, depth - 1)
  }

  lemma {:induction false} ZooTermSize(defs: seq<Function>, t: Term, depth: nat, a: nat)
    requires ZooTerm(defs, t, depth) && ArityAtMost(defs, a)
    ensures Size(t) <= FullTree(a, depth)
    decreases depth
  {
    var b := FullTree(a, depth - 1);
    forall i | 0 <= i < |t.args|
      ensures Size(t.args[i]) <= b
    {
      ZooTermSize(defs, t.args[i], depth - 1, a);
    }
    SizeSumAtMost(t.args, b);
    MulMonotone(|t.args|, a, b);
  }

  lemma MulMonotone(x: nat, y: nat, b: nat)
    requires x <= y
    ensures x * b <= y * b
  {
  }

  lemma {:induction false} SizeSumAtMost(ts: seq<Term>, b: nat)
    requires forall i :: 0 <= i < |ts| ==> Size(ts[i]) <= b
    ensures SizeSum(ts) <= |ts| * b
  {
    if ts != [] {
      assert Size(ts[0]) <= b;
      SizeSumAtMost(ts[1..], b);
      assert |ts| * b == b + (|ts| - 1) * b;
    }
  }

  /** The bound on zoo terms, written out: 1 + a + ... + a^7 for the largest arity a. */
  lemma ZooBound(a: nat)
    ensures FullTree(a, MAX_DEPTH) == 1 + a * (1 + a * (1 + a * (1 + a * (1 + a * (1 + a * (1 + a))))))
    ensures MAX_DEPTH == 8 && MAX_TRIES == 100
  {
    assert FullTree(a, 1) == 1;
    assert FullTree(a, 2) == 1 + a * FullTree(a, 1);
    assert FullTree(a, 3) == 1 + a * FullTree(a, 2);
    assert FullTree(a, 4) == 1 + a * FullTree(a, 3);
    assert FullTree(a, 5) == 1 + a * FullTree(a, 4);
    assert FullTree(a, 6) == 1 + a * FullTree(a, 5);
    assert FullTree(a, 7) == 1 + a * FullTree(a, 6);
    assert FullTree(a, 8) == 1 + a * FullTree(a, 7);
  }

  // ------------------------------------------------------------------ every such term can come out

  /** With these draws `t` is generated. */
  ghost predicate GenLeads(sig: Signature, t: Term, depth: nat, draws: seq<nat>) {
    t.Application? &&
    forall raw: nat -> nat, pos: nat {:trigger Reads(raw, pos, draws)} :: Reads(raw, pos, draws) ==>
      Gen(sig, t.func, depth, raw, pos) == (Some(t), pos + |draws|)
  }

  ghost predicate GenArgLeads(sig: Signature, u: Term, depth: nat, draws: seq<nat>) {
    forall raw: nat -> nat, pos: nat {:trigger Reads(raw, pos, draws)} :: Reads(raw, pos, draws) ==>
      GenArg(sig, TypeOf(u), depth, raw, pos) == (Some(u), pos + |draws|)
  }

  ghost predicate GenArgsLead(sig: Signature, types: seq<TypeId>, args: seq<Term>, depth: nat, draws: seq<nat>) {
    forall raw: nat -> nat, pos: nat {:trigger Reads(raw, pos, draws)} :: Reads(raw, pos, draws) ==>
      GenArgs(sig, types, depth, raw, pos) == (Some(args), pos + |draws|)
  }

  ghost predicate ZooArgs(defs: seq<Function>, types: seq<TypeId>, args: seq<Term>, depth: nat) {
    |types| == |args| && forall i :: 0 <= i < |args| ==> TypeOf(args[i]) == types[i] && ZooTerm(defs, args[i], depth)
  }

  /** For every closed well-typed term within the depth there are draws that produce it. */
  lemma {:induction false} GenComplete(defs: seq<Function>, t: Term, depth: nat) returns (draws: seq<nat>)
    requires ZooTerm(defs, t, depth)
    ensures GenLeads(NewSignature(defs), t, depth, draws)
    decreases depth, 0
  {
    assert ZooArgs(defs, t.func.shape.argTypes, t.args, depth - 1);
    draws := GenArgsComplete(defs, t.func.shape.argTypes, t.args, depth - 1);
    GenArgsServe(NewSignature(defs), t, depth, draws);
  }

  lemma GenArgsServe(sig: Signature, t: Term, depth: nat, draws: seq<nat>)
    requires t.Application? && depth > 0 && GenArgsLead(sig, t.func.shape.argTypes, t.args, depth - 1, draws)
    ensures GenLeads(sig, t, depth, draws)
  {
  }

  lemma {:induction false} GenArgComplete(defs: seq<Function>, u: Term, depth: nat) returns (draws: seq<nat>)
    requires ZooTerm(defs, u, depth)
    ensures GenArgLeads(NewSignature(defs), u, depth, draws)
    decreases depth, 1
  {
    var options := Returning(defs, TypeOf(u));
    ReturningExact(defs, TypeOf(u), u.func);
    IndexByTypeExact(defs, TypeOf(u));
    var k :| 0 <= k < |options| && options[k] == u.func;
    var own := GenComplete(defs, u, depth);
    GenServes(NewSignature(defs), u, depth, options, k, own);
    draws := [k] + own;
  }

  lemma GenServes(sig: Signature, u: Term, depth: nat, options: seq<Function>, k: nat, own: seq<nat>)
    requires GenLeads(sig, u, depth, own)
    requires TypeOf(u) in sig.byType && sig.byType[TypeOf(u)] == options && k < |options| && options[k] == u.func
    ensures GenArgLeads(sig, u, depth, [k] + own)
  {
    var draws := [k] + own;
    forall raw: nat -> nat, pos: nat | Reads(raw, pos, draws)
      ensures GenArg(sig, TypeOf(u), depth, raw, pos) == (Some(u), pos + |draws|)
    {
      ReadsSplit(raw, pos, [k], own);
      assert raw(pos + 0) == [k][0];
    }
  }

  lemma {:induction false} GenArgsComplete(defs: seq<Function>, types: seq<TypeId>, args: seq<Term>, depth: nat)
    returns (draws: seq<nat>)
    requires ZooArgs(defs, types, args, depth)
    ensures GenArgsLead(NewSignature(defs), types, args, depth, draws)
    decreases depth, 1 + |types|
  {
    if args == [] {
      draws := [];
    } else {
      var n := |args| - 1;
      var front := GenArgsComplete(defs, types[..n], args[..n], depth);
      var back := GenArgComplete(defs, args[n], depth);
      assert args == args[..n] + [args[n]];
      GenArgsLeadStep(NewSignature(defs), types, args[..n], args[n], depth, front, back);
      draws := front + back;
    }
  }

  lemma GenArgsLeadStep(sig: Signature, types: seq<TypeId>, args: seq<Term>, u: Term, depth: nat, front: seq<nat>, back: seq<nat>)
    requires types != [] && types[|types| - 1] == TypeOf(u)
    requires GenArgsLead(sig, types[..|types| - 1], args, depth, front) && GenArgLeads(sig, u, depth, back)
    ensures GenArgsLead(sig, types, args + [u], depth, front + back)
  {
    var draws := front + back;
    forall raw: nat -> nat, pos: nat | Reads(raw, pos, draws)
      ensures GenArgs(sig, types, depth, raw, pos) == (Some(args + [u]), pos + |draws|)
    {
      ReadsSplit(raw, pos, front, back);
      GenArgsStep(sig, types, depth, raw, pos, args, pos + |front|, u, pos + |front| + |back|);
    }
  }

  lemma GenArgsStep(sig: Signature, types: seq<TypeId>, depth: nat, raw: nat -> nat, pos: nat,
                    front: seq<Term>, p: nat, last: Term, p': nat)
    requires types != []
    requires GenArgs(sig, types[..|types| - 1], depth, raw, pos) == (Some(front), p)
    requires GenArg(sig, types[|types| - 1], depth, raw, p) == (Some(last), p')
    ensures GenArgs(sig, types, depth, raw, pos) == (Some(front + [last]), p')
  {
  }

  /** `generate_term` can produce exactly the closed well-typed terms of height at most
      `depth` that start with the given symbol. */
  lemma GeneratedTermsExact(defs: seq<Function>, def: Function, depth: nat, t: Term)
    requires def in defs
    ensures (exists raw, pos :: Gen(NewSignature(defs), def, depth, raw, pos).0 == Some(t))
            <==> ZooTerm(defs, t, depth) && t.func == def
  {
    if ZooTerm(defs, t, depth) && t.func == def {
      var draws := GenComplete(defs, t, depth);
      var raw := Offering(draws, 0);
      assert Gen(NewSignature(defs), def, depth, raw, 0).0 == Some(t);
    }
    forall raw: nat -> nat, pos | Gen(NewSignature(defs), def, depth, raw, pos).0 == Some(t)
      ensures ZooTerm(defs, t, depth) && t.func == def
    {
      GenSound(defs, def, depth, raw, pos);
    }
  }

  // ------------------------------------------------------------------ the zoo

  /** Up to `tries` attempts at a term for `def`; each failed attempt uses up its draws. */
  function Attempt(sig: Signature, def: Function, tries: nat, raw: nat -> nat, pos: nat): (r: (Option<Term>, nat))
    decreases tries
  {
    if tries == 0 then (None, pos)
    else
      var (t, p) := Gen(sig, def, MAX_DEPTH, raw, pos);
      if t.Some? then (t, p) else Attempt(sig, def, tries - 1, raw, p)
  }

  /** One attempt series for each definition, in order. */
  function ZooOf(sig: Signature, defs: seq<Function>, raw: nat -> nat, pos: nat): (r: (seq<Term>, nat))
  {
    if defs == [] then ([], pos)
    else
      var n := |defs| - 1;
      var (front, p) := ZooOf(sig, defs[..n], raw, pos);
      var (t, p') := Attempt(sig, defs[n], MAX_TRIES, raw, p);
      (front + (if t.Some? then [t.value] else []), p')
  }

  /** `TermZoo::generate`: for each definition, up to MAX_TRIES attempts. */
  method GenerateZoo(sig: Signature, rand: Rand) returns (terms: seq<Term>)
    modifies rand
    ensures old(rand.drawn) <= rand.drawn
    ensures (terms, |rand.drawn|) == ZooOf(sig, sig.functions, rand.raw, |old(rand.drawn)|)
  {
    terms := [];
    for i := 0 to |sig.functions|
      invariant old(rand.drawn) <= rand.drawn
      invariant (terms, |rand.drawn|) == ZooOf(sig, sig.functions[..i], rand.raw, |old(rand.drawn)|)
    {
      assert sig.functions[..i + 1][..i] == sig.functions[..i];
      var term := TryGenerate(sig, sig.functions[i], rand);
      terms := terms + if term.Some? then [term.value] else [];
    }
    assert sig.functions[..|sig.functions|] == sig.functions;
  }

  method TryGenerate(sig: Signature, def: Function, rand: Rand) returns (r: Option<Term>)
    modifies rand
    ensures old(rand.drawn) <= rand.drawn
    ensures (r, |rand.drawn|) == Attempt(sig, def, MAX_TRIES, rand.raw, |old(rand.drawn)|)
  {
    var counter := MAX_TRIES;
    while counter != 0
      invariant old(rand.drawn) <= rand.drawn
      invariant Attempt(sig, def, MAX_TRIES, rand.raw, |old(rand.drawn)|) == Attempt(sig, def, counter, rand.raw, |rand.drawn|)
      decreases counter
    {
      counter := counter - 1;
      r := GenerateTerm(sig, def, MAX_DEPTH, rand);
      if r.Some? {
        return;
      }
    }
    r := None;
  }

  lemma {:induction false} AttemptSound(defs: seq<Function>, def: Function, tries: nat, raw: nat -> nat, pos: nat)
    requires def in defs
    ensures var t := Attempt(NewSignature(defs), def, tries, raw, pos).0;
            t.Some? ==> ZooTerm(defs, t.value, MAX_DEPTH) && t.value.func == def
    decreases tries
  {
    if tries > 0 {
      GenSound(defs, def, MAX_DEPTH, raw, pos);
      AttemptSound(defs, def, tries - 1, raw, Gen(NewSignature(defs), def, MAX_DEPTH, raw, pos).1);
    }
  }

  ghost predicate AllZoo(defs: seq<Function>, terms: seq<Term>) {
    forall i :: 0 <= i < |terms| ==> ZooTerm(defs, terms[i], MAX_DEPTH)
  }

  /** Every zoo term is closed and well-typed with height at most MAX_DEPTH, and there is at
      most one for each definition. */
  lemma {:induction false} ZooSound(defs: seq<Function>, n: nat, raw: nat -> nat, pos: nat)
    requires n <= |defs|
    ensures var zoo := ZooOf(NewSignature(defs), defs[..n], raw, pos).0;
            |zoo| <= n && AllZoo(defs, zoo)
  {
    if n > 0 {
      ZooSound(defs, n - 1, raw, pos);
      assert defs[..n][..n - 1] == defs[..n - 1];
      var p := ZooOf(NewSignature(defs), defs[..n - 1], raw, pos).1;
      AttemptSound(defs, defs[n - 1], MAX_TRIES, raw, p);
    }
  }

  // ------------------------------------------------------------------ every such term can be in a zoo

  ghost function Nth(raw: nat -> nat, pos: nat, i: nat): nat {
    raw(pos + i)
  }

  /** `raw` from `pos` on and `raw'` from `pos'` on offer the same `k` draws. */
  ghost predicate Same(raw: nat -> nat, pos: nat, raw': nat -> nat, pos': nat, k: nat) {
    forall i: nat :: i < k ==> Nth(raw', pos', i) == Nth(raw, pos, i)
  }

  lemma SameSplit(raw: nat -> nat, pos: nat, raw': nat -> nat, pos': nat, k: nat, m: nat)
    requires Same(raw, pos, raw', pos', k) && m <= k
    ensures Same(raw, pos, raw', pos', m) && Same(raw, pos + m, raw', pos' + m, k - m)
  {
    var p, p' := pos + m, pos' + m;
    forall i: nat | i < k - m
      ensures Nth(raw', p', i) == Nth(raw, p, i)
    {
      assert Nth(raw', pos', m + i) == Nth(raw, pos, m + i);
    }
  }

  /** Generation looks at no draws but those it uses up. */
  ghost predicate Follows<T(!new)>(here: (T, nat), pos: nat, there: (T, nat), pos': nat) {
    here.1 >= pos && there == (here.0, pos' + (here.1 - pos))
  }

  lemma {:induction false} GenUses(sig: Signature, def: Function, depth: nat, raw: nat -> nat, pos: nat, raw': nat -> nat, pos': nat)
    ensures var here := Gen(sig, def, depth, raw, pos);
            here.1 >= pos && (Same(raw, pos, raw', pos', here.1 - pos) ==>
                                Follows(here, pos, Gen(sig, def, depth, raw', pos'), pos'))
    decreases depth, 0
  {
    if depth > 0 {
      GenArgsUses(sig, def.shape.argTypes, depth - 1, raw, pos, raw', pos');
    }
  }

  lemma {:induction false} GenArgsUses(sig: Signature, types: seq<TypeId>, depth: nat, raw: nat -> nat, pos: nat, raw': nat -> nat, pos': nat)
    ensures var here := GenArgs(sig, types, depth, raw, pos);
            here.1 >= pos && (Same(raw, pos, raw', pos', here.1 - pos) ==>
                                Follows(here, pos, GenArgs(sig, types, depth, raw', pos'), pos'))
    decreases depth, 1 + |types|
  {
    if types != [] {
      var n := |types| - 1;
      var (front, p) := GenArgs(sig, types[..n], depth, raw, pos);
      GenArgsUses(sig, types[..n], depth, raw, pos, raw', pos');
      if front.Some? {
        var here := GenArgs(sig, types, depth, raw, pos);
        GenArgUses(sig, types[n], depth, raw, p, raw', pos' + (p - pos));
        if Same(raw, pos, raw', pos', here.1 - pos) {
          SameSplit(raw, pos, raw', pos', here.1 - pos, p - pos);
        }
      }
    }
  }

  lemma {:induction false} GenArgUses(sig: Signature, typ: TypeId, depth: nat, raw: nat -> nat, pos: nat, raw': nat -> nat, pos': nat)
    ensures var here := GenArg(sig, typ, depth, raw, pos);
            here.1 >= pos && (Same(raw, pos, raw', pos', here.1 - pos) ==>
                                Follows(here, pos, GenArg(sig, typ, depth, raw', pos'), pos'))
    decreases depth, 1
  {
    if typ in sig.byType && sig.byType[typ] != [] {
      var options := sig.byType[typ];
      var here := GenArg(sig, typ, depth, raw, pos);
      GenUses(sig, options[Draw(raw, pos, |options|)], depth, raw, pos + 1, raw', pos' + 1);
      if Same(raw, pos, raw', pos', here.1 - pos) {
        SameSplit(raw, pos, raw', pos', here.1 - pos, 1);
        assert Nth(raw', pos', 0) == Nth(raw, pos, 0);
      }
    }
  }

  lemma {:induction false} AttemptUses(sig: Signature, def: Function, tries: nat, raw: nat -> nat, pos: nat, raw': nat -> nat, pos': nat)
    ensures var here := Attempt(sig, def, tries, raw, pos);
            here.1 >= pos && (Same(raw, pos, raw', pos', here.1 - pos) ==>
                                Follows(here, pos, Attempt(sig, def, tries, raw', pos'), pos'))
    decreases tries
  {
    if tries > 0 {
      var (t, p) := Gen(sig, def, MAX_DEPTH, raw, pos);
      GenUses(sig, def, MAX_DEPTH, raw, pos, raw', pos');
      if t.None? {
        var here := Attempt(sig, def, tries, raw, pos);
        AttemptUses(sig, def, tries - 1, raw, p, raw', pos' + (p - pos));
        if Same(raw, pos, raw', pos', here.1 - pos) {
          SameSplit(raw, pos, raw', pos', here.1 - pos, p - pos);
        }
      }
    }
  }

  /** With these draws the attempts at `def` end with `t`. */
  ghost predicate AttemptLeads(sig: Signature, def: Function, tries: nat, t: Option<Term>, draws: seq<nat>) {
    forall raw: nat -> nat, pos: nat {:trigger Reads(raw, pos, draws)} :: Reads(raw, pos, draws) ==>
      Attempt(sig, def, tries, raw, pos) == (t, pos + |draws|)
  }

  /** Some draws end the attempts somehow. */
  lemma SomeAttempt(sig: Signature, def: Function, tries: nat) returns (t: Option<Term>, draws: seq<nat>)
    ensures AttemptLeads(sig, def, tries, t, draws)
  {
    var zero: nat -> nat := (i: nat) => 0;
    AttemptUses(sig, def, tries, zero, 0, zero, 0);
    var here := Attempt(sig, def, tries, zero, 0);
    t, draws := here.0, seq(here.1, i => 0);
    forall raw: nat -> nat, pos: nat | Reads(raw, pos, draws)
      ensures Attempt(sig, def, tries, raw, pos) == (t, pos + |draws|)
    {
      AttemptUses(sig, def, tries, zero, 0, raw, pos);
      ReadsZeros(raw, pos, draws, zero);
    }
  }

  lemma ReadsZeros(raw: nat -> nat, pos: nat, draws: seq<nat>, zero: nat -> nat)
    requires Reads(raw, pos, draws) && forall i: nat :: zero(i) == 0
    requires forall i :: 0 <= i < |draws| ==> draws[i] == 0
    ensures Same(zero, 0, raw, pos, |draws|)
  {
    forall i: nat | i < |draws|
      ensures Nth(raw, pos, i) == Nth(zero, 0, i)
    {
      assert raw(pos + i) == draws[i];
    }
  }

  /** The right draws end them with any given zoo term. */
  lemma WantedAttempt(sig: Signature, t: Term, tries: nat, draws: seq<nat>)
    requires GenLeads(sig, t, MAX_DEPTH, draws) && tries > 0
    ensures AttemptLeads(sig, t.func, tries, Some(t), draws)
  {
    forall raw: nat -> nat, pos: nat | Reads(raw, pos, draws)
      ensures Attempt(sig, t.func, tries, raw, pos) == (Some(t), pos + |draws|)
    {
      AttemptSucceeds(sig, t, tries, raw, pos, pos + |draws|);
    }
  }

  lemma AttemptSucceeds(sig: Signature, t: Term, tries: nat, raw: nat -> nat, pos: nat, p: nat)
    requires t.Application? && tries > 0 && Gen(sig, t.func, MAX_DEPTH, raw, pos) == (Some(t), p)
    ensures Attempt(sig, t.func, tries, raw, pos) == (Some(t), p)
  {
  }

  /** With these draws the zoo over the first definitions is `zoo`. */
  ghost predicate ZooLeads(sig: Signature, defs: seq<Function>, zoo: seq<Term>, draws: seq<nat>) {
    forall raw: nat -> nat, pos: nat {:trigger Reads(raw, pos, draws)} :: Reads(raw, pos, draws) ==>
      ZooOf(sig, defs, raw, pos) == (zoo, pos + |draws|)
  }

  lemma ZooLeadsStep(sig: Signature, defs: seq<Function>, zoo: seq<Term>, front: seq<nat>, t: Option<Term>, back: seq<nat>)
    requires defs != [] && ZooLeads(sig, defs[..|defs| - 1], zoo, front)
    requires AttemptLeads(sig, defs[|defs| - 1], MAX_TRIES, t, back)
    ensures ZooLeads(sig, defs, zoo + (if t.Some? then [t.value] else []), front + back)
  {
    var draws := front + back;
    forall raw: nat -> nat, pos: nat | Reads(raw, pos, draws)
      ensures ZooOf(sig, defs, raw, pos) == (zoo + (if t.Some? then [t.value] else []), pos + |draws|)
    {
      ReadsSplit(raw, pos, front, back);
      ZooOfStep(sig, defs, raw, pos, zoo, pos + |front|, t, pos + |front| + |back|);
    }
  }

  lemma ZooOfStep(sig: Signature, defs: seq<Function>, raw: nat -> nat, pos: nat, zoo: seq<Term>, p: nat, t: Option<Term>, p': nat)
    requires defs != [] && ZooOf(sig, defs[..|defs| - 1], raw, pos) == (zoo, p)
    requires Attempt(sig, defs[|defs| - 1], MAX_TRIES, raw, p) == (t, p')
    ensures ZooOf(sig, defs, raw, pos) == (zoo + (if t.Some? then [t.value] else []), p')
  {
  }

  /** Every closed well-typed term of bounded height is in the zoo that some draws make. */
  lemma {:induction false} ZooComplete(defs: seq<Function>, n: nat, t: Term, d: nat)
    returns (zoo: seq<Term>, draws: seq<nat>)
    requires ZooTerm(defs, t, MAX_DEPTH) && n <= |defs| && d < |defs| && defs[d] == t.func
    ensures ZooLeads(NewSignature(defs), defs[..n], zoo, draws)
    ensures d < n ==> t in zoo
  {
    if n == 0 {
      zoo, draws := [], [];
    } else {
      var front, back, u;
      zoo, front := ZooComplete(defs, n - 1, t, d);
      if n - 1 == d {
        u := Some(t);
        back := MadeAttempt(defs, defs[d], t);
      } else {
        u, back := SomeAttempt(NewSignature(defs), defs[n - 1], MAX_TRIES);
      }
      assert defs[..n][..n - 1] == defs[..n - 1];
      ZooLeadsStep(NewSignature(defs), defs[..n], zoo, front, u, back);
      zoo, draws := zoo + (if u.Some? then [u.value] else []), front + back;
    }
  }

  /** A whole zoo that holds `t`. */
  lemma ZooWith(defs: seq<Function>, t: Term) returns (zoo: seq<Term>, draws: seq<nat>)
    requires ZooTerm(defs, t, MAX_DEPTH)
    ensures ZooLeads(NewSignature(defs), defs, zoo, draws) && t in zoo && PossibleZoo(defs, |defs|, zoo)
  {
    var d :| 0 <= d < |defs| && defs[d] == t.func;
    assert defs[..|defs|] == defs;
    zoo, draws := ZooComplete(defs, |defs|, t, d);
    ZooPossible(defs, |defs|, Offering(draws, 0), 0);
  }

  /** The terms that can be in a zoo are exactly the closed well-typed ones of bounded height. */
  lemma ZooTermsExact(defs: seq<Function>, t: Term)
    ensures (exists raw, pos :: InZoo(defs, t, raw, pos)) <==> ZooTerm(defs, t, MAX_DEPTH)
  {
    if ZooTerm(defs, t, MAX_DEPTH) {
      var zoo, draws := ZooWith(defs, t);
      var raw := Offering(draws, 0);
      assert InZoo(defs, t, raw, 0);
    }
    forall raw: nat -> nat, pos | InZoo(defs, t, raw, pos)
      ensures ZooTerm(defs, t, MAX_DEPTH)
    {
      InZooSound(defs, t, raw, pos);
    }
  }

  ghost predicate InZoo(defs: seq<Function>, t: Term, raw: nat -> nat, pos: nat) {
    t in ZooOf(NewSignature(defs), defs, raw, pos).0
  }

  lemma InZooSound(defs: seq<Function>, t: Term, raw: nat -> nat, pos: nat)
    requires InZoo(defs, t, raw, pos)
    ensures ZooTerm(defs, t, MAX_DEPTH)
  {
    assert defs[..|defs|] == defs;
    ZooSound(defs, |defs|, raw, pos);
  }

  // ------------------------------------------------------------------ which zoos there are

  /** Some draws make an attempt at `def` fail: the depth runs out, or an argument can fail. */
  ghost predicate CanFail(defs: seq<Function>, def: Function, depth: nat)
    decreases depth, 0
  {
    depth == 0 || exists i :: 0 <= i < |def.shape.argTypes| && ArgCanFail(defs, def.shape.argTypes[i], depth - 1)
  }

  /** No symbol returns the type, or one that does can fail. */
  ghost predicate ArgCanFail(defs: seq<Function>, typ: TypeId, depth: nat)
    decreases depth, 1
  {
    Returning(defs, typ) == [] || exists f :: f in Returning(defs, typ) && CanFail(defs, f, depth)
  }

  ghost predicate SomeArgCanFail(defs: seq<Function>, types: seq<TypeId>, depth: nat) {
    exists i :: 0 <= i < |types| && ArgCanFail(defs, types[i], depth)
  }

  lemma SomeArgCanFailSplit(defs: seq<Function>, types: seq<TypeId>, depth: nat)
    requires types != []
    ensures SomeArgCanFail(defs, types, depth) <==>
            SomeArgCanFail(defs, types[..|types| - 1], depth) || ArgCanFail(defs, types[|types| - 1], depth)
  {
    var n := |types| - 1;
    if i :| 0 <= i < n && ArgCanFail(defs, types[i], depth) {
      assert ArgCanFail(defs, types[..n][i], depth);
    }
    if i :| 0 <= i < n && ArgCanFail(defs, types[..n][i], depth) {
      assert ArgCanFail(defs, types[i], depth);
    }
  }

  lemma {:induction false} GenFails(defs: seq<Function>, def: Function, depth: nat, raw: nat -> nat, pos: nat)
    requires Gen(NewSignature(defs), def, depth, raw, pos).0.None?
    ensures CanFail(defs, def, depth)
    decreases depth, 0
  {
    if depth > 0 {
      GenArgsFail(defs, def.shape.argTypes, depth - 1, raw, pos);
    }
  }

  lemma {:induction false} GenArgFails(defs: seq<Function>, typ: TypeId, depth: nat, raw: nat -> nat, pos: nat)
    requires GenArg(NewSignature(defs), typ, depth, raw, pos).0.None?
    ensures ArgCanFail(defs, typ, depth)
    decreases depth, 1
  {
    var options := Returning(defs, typ);
    IndexByTypeExact(defs, typ);
    if options != [] {
      var f := options[Draw(raw, pos, |options|)];
      GenFails(defs, f, depth, raw, pos + 1);
      assert f in options;
    }
  }

  lemma {:induction false} GenArgsFail(defs: seq<Function>, types: seq<TypeId>, depth: nat, raw: nat -> nat, pos: nat)
    requires GenArgs(NewSignature(defs), types, depth, raw, pos).0.None?
    ensures SomeArgCanFail(defs, types, depth)
    decreases depth, 2 + |types|
  {
    var n := |types| - 1;
    var (front, p) := GenArgs(NewSignature(defs), types[..n], depth, raw, pos);
    SomeArgCanFailSplit(defs, types, depth);
    if front.None? {
      GenArgsFail(defs, types[..n], depth, raw, pos);
    } else {
      GenArgFails(defs, types[n], depth, raw, p);
    }
  }

  /** With these draws the attempt at `def` fails. */
  ghost predicate FailLeads(sig: Signature, def: Function, depth: nat, draws: seq<nat>) {
    forall raw: nat -> nat, pos: nat {:trigger Reads(raw, pos, draws)} :: Reads(raw, pos, draws) ==>
      Gen(sig, def, depth, raw, pos) == (None, pos + |draws|)
  }

  ghost predicate ArgFailLeads(sig: Signature, typ: TypeId, depth: nat, draws: seq<nat>) {
    forall raw: nat -> nat, pos: nat {:trigger Reads(raw, pos, draws)} :: Reads(raw, pos, draws) ==>
      GenArg(sig, typ, depth, raw, pos) == (None, pos + |draws|)
  }

  ghost predicate ArgsFailLead(sig: Signature, types: seq<TypeId>, depth: nat, draws: seq<nat>) {
    forall raw: nat -> nat, pos: nat {:trigger Reads(raw, pos, draws)} :: Reads(raw, pos, draws) ==>
      GenArgs(sig, types, depth, raw, pos) == (None, pos + |draws|)
  }

  lemma {:induction false} FailComplete(defs: seq<Function>, def: Function, depth: nat) returns (draws: seq<nat>)
    requires CanFail(defs, def, depth)
    ensures FailLeads(NewSignature(defs), def, depth, draws)
    decreases depth, 0
  {
    if depth == 0 {
      draws := [];
    } else {
      draws := ArgsFailComplete(defs, def.shape.argTypes, depth - 1);
      ArgsFailServe(NewSignature(defs), def, depth, draws);
    }
  }

  lemma ArgsFailServe(sig: Signature, def: Function, depth: nat, draws: seq<nat>)
    requires depth > 0 && ArgsFailLead(sig, def.shape.argTypes, depth - 1, draws)
    ensures FailLeads(sig, def, depth, draws)
  {
  }

  lemma {:induction false} ArgFailComplete(defs: seq<Function>, typ: TypeId, depth: nat) returns (draws: seq<nat>)
    requires ArgCanFail(defs, typ, depth)
    ensures ArgFailLeads(NewSignature(defs), typ, depth, draws)
    decreases depth, 1
  {
    var options := Returning(defs, typ);
    IndexByTypeExact(defs, typ);
    if options == [] {
      draws := [];
    } else {
      var f :| f in options && CanFail(defs, f, depth);
      var k :| 0 <= k < |options| && options[k] == f;
      var own := FailComplete(defs, f, depth);
      FailServes(NewSignature(defs), typ, depth, options, k, own);
      draws := [k] + own;
    }
  }

  lemma FailServes(sig: Signature, typ: TypeId, depth: nat, options: seq<Function>, k: nat, own: seq<nat>)
    requires typ in sig.byType && sig.byType[typ] == options && k < |options|
    requires FailLeads(sig, options[k], depth, own)
    ensures ArgFailLeads(sig, typ, depth, [k] + own)
  {
    var draws := [k] + own;
    forall raw: nat -> nat, pos: nat | Reads(raw, pos, draws)
      ensures GenArg(sig, typ, depth, raw, pos) == (None, pos + |draws|)
    {
      ReadsSplit(raw, pos, [k], own);
      assert raw(pos + 0) == [k][0];
    }
  }

  /** The first argument that can fail is made to; those before it cannot but succeed. */
  lemma {:induction false} ArgsFailComplete(defs: seq<Function>, types: seq<TypeId>, depth: nat) returns (draws: seq<nat>)
    requires SomeArgCanFail(defs, types, depth)
    ensures ArgsFailLead(NewSignature(defs), types, depth, draws)
    decreases depth, 2 + |types|
  {
    var n := |types| - 1;
    SomeArgCanFailSplit(defs, types, depth);
    if SomeArgCanFail(defs, types[..n], depth) {
      draws := ArgsFailComplete(defs, types[..n], depth);
      EarlyFailServes(NewSignature(defs), types, depth, draws);
    } else {
      var args, front := SomeArgs(defs, types[..n], depth);
      var back := ArgFailComplete(defs, types[n], depth);
      LateFailServes(NewSignature(defs), types, args, depth, front, back);
      draws := front + back;
    }
  }

  lemma EarlyFailServes(sig: Signature, types: seq<TypeId>, depth: nat, draws: seq<nat>)
    requires types != [] && ArgsFailLead(sig, types[..|types| - 1], depth, draws)
    ensures ArgsFailLead(sig, types, depth, draws)
  {
  }

  lemma LateFailServes(sig: Signature, types: seq<TypeId>, args: seq<Term>, depth: nat, front: seq<nat>, back: seq<nat>)
    requires types != [] && GenArgsLead(sig, types[..|types| - 1], args, depth, front)
    requires ArgFailLeads(sig, types[|types| - 1], depth, back)
    ensures ArgsFailLead(sig, types, depth, front + back)
  {
    var draws := front + back;
    forall raw: nat -> nat, pos: nat | Reads(raw, pos, draws)
      ensures GenArgs(sig, types, depth, raw, pos) == (None, pos + |draws|)
    {
      ReadsSplit(raw, pos, front, back);
      LateFail(sig, types, depth, raw, pos, args, pos + |front|, pos + |front| + |back|);
    }
  }

  lemma LateFail(sig: Signature, types: seq<TypeId>, depth: nat, raw: nat -> nat, pos: nat, args: seq<Term>, p: nat, p': nat)
    requires types != [] && GenArgs(sig, types[..|types| - 1], depth, raw, pos) == (Some(args), p)
    requires GenArg(sig, types[|types| - 1], depth, raw, p) == (None, p')
    ensures GenArgs(sig, types, depth, raw, pos) == (None, p')
  {
  }

  /** Arguments that cannot fail come out somehow. */
  lemma SomeArgs(defs: seq<Function>, types: seq<TypeId>, depth: nat) returns (args: seq<Term>, draws: seq<nat>)
    requires !SomeArgCanFail(defs, types, depth)
    ensures GenArgsLead(NewSignature(defs), types, args, depth, draws)
  {
    var sig := NewSignature(defs);
    var zero: nat -> nat := (i: nat) => 0;
    GenArgsUses(sig, types, depth, zero, 0, zero, 0);
    var here := GenArgs(sig, types, depth, zero, 0);
    if here.0.None? {
      GenArgsFail(defs, types, depth, zero, 0);
    }
    args, draws := here.0.value, seq(here.1, i => 0);
    forall raw: nat -> nat, pos: nat | Reads(raw, pos, draws)
      ensures GenArgs(sig, types, depth, raw, pos) == (Some(args), pos + |draws|)
    {
      GenArgsUses(sig, types, depth, zero, 0, raw, pos);
      ReadsZeros(raw, pos, draws, zero);
    }
  }

  /** All tries fail on the same draws over and over. */
  lemma {:induction false} AttemptCanFail(sig: Signature, def: Function, tries: nat, own: seq<nat>) returns (draws: seq<nat>)
    requires FailLeads(sig, def, MAX_DEPTH, own)
    ensures AttemptLeads(sig, def, tries, None, draws)
    decreases tries
  {
    if tries == 0 {
      draws := [];
    } else {
      var more := AttemptCanFail(sig, def, tries - 1, own);
      AttemptFailsStep(sig, def, tries, own, more);
      draws := own + more;
    }
  }

  lemma AttemptFailsStep(sig: Signature, def: Function, tries: nat, own: seq<nat>, more: seq<nat>)
    requires tries > 0 && FailLeads(sig, def, MAX_DEPTH, own) && AttemptLeads(sig, def, tries - 1, None, more)
    ensures AttemptLeads(sig, def, tries, None, own + more)
  {
    var draws := own + more;
    forall raw: nat -> nat, pos: nat | Reads(raw, pos, draws)
      ensures Attempt(sig, def, tries, raw, pos) == (None, pos + |draws|)
    {
      ReadsSplit(raw, pos, own, more);
      AttemptRetries(sig, def, tries, raw, pos, pos + |own|);
    }
  }

  lemma AttemptRetries(sig: Signature, def: Function, tries: nat, raw: nat -> nat, pos: nat, p: nat)
    requires tries > 0 && Gen(sig, def, MAX_DEPTH, raw, pos) == (None, p)
    ensures Attempt(sig, def, tries, raw, pos) == Attempt(sig, def, tries - 1, raw, p)
  {
  }

  lemma AttemptFails(defs: seq<Function>, def: Function, tries: nat, raw: nat -> nat, pos: nat)
    requires tries > 0 && Attempt(NewSignature(defs), def, tries, raw, pos).0.None?
    ensures CanFail(defs, def, MAX_DEPTH)
  {
    if Gen(NewSignature(defs), def, MAX_DEPTH, raw, pos).0.None? {
      GenFails(defs, def, MAX_DEPTH, raw, pos);
    }
  }

  /** What a zoo over the first `n` definitions can be: for each definition, in order, one
      of its terms, or nothing if it can fail. */
  ghost predicate PossibleZoo(defs: seq<Function>, n: nat, zoo: seq<Term>)
    requires n <= |defs|
  {
    if n == 0 then zoo == []
    else
      || (CanFail(defs, defs[n - 1], MAX_DEPTH) && PossibleZoo(defs, n - 1, zoo))
      || (zoo != [] && TermOf(defs, defs[n - 1], zoo[|zoo| - 1]) && PossibleZoo(defs, n - 1, zoo[..|zoo| - 1]))
  }

  ghost predicate TermOf(defs: seq<Function>, def: Function, t: Term) {
    ZooTerm(defs, t, MAX_DEPTH) && t.func == def
  }

  lemma {:induction false} ZooPossible(defs: seq<Function>, n: nat, raw: nat -> nat, pos: nat)
    requires n <= |defs|
    ensures PossibleZoo(defs, n, ZooOf(NewSignature(defs), defs[..n], raw, pos).0)
  {
    if n > 0 {
      var sig := NewSignature(defs);
      assert defs[..n][..n - 1] == defs[..n - 1];
      var (front, p) := ZooOf(sig, defs[..n - 1], raw, pos);
      var t := Attempt(sig, defs[n - 1], MAX_TRIES, raw, p).0;
      ZooPossible(defs, n - 1, raw, pos);
      if t.Some? {
        AttemptSound(defs, defs[n - 1], MAX_TRIES, raw, p);
        PossibleZooMore(defs, n, front, t.value);
      } else {
        AttemptFails(defs, defs[n - 1], MAX_TRIES, raw, p);
        NoSuffix(front);
      }
    }
  }

  lemma PossibleZooMore(defs: seq<Function>, n: nat, zoo: seq<Term>, t: Term)
    requires 0 < n <= |defs| && PossibleZoo(defs, n - 1, zoo) && TermOf(defs, defs[n - 1], t)
    ensures PossibleZoo(defs, n, zoo + [t])
  {
    var longer := zoo + [t];
    assert longer[..|longer| - 1] == zoo && longer[|longer| - 1] == t;
  }

  lemma FailedAttempt(defs: seq<Function>, def: Function) returns (draws: seq<nat>)
    requires CanFail(defs, def, MAX_DEPTH)
    ensures AttemptLeads(NewSignature(defs), def, MAX_TRIES, None, draws)
  {
    var own := FailComplete(defs, def, MAX_DEPTH);
    draws := AttemptCanFail(NewSignature(defs), def, MAX_TRIES, own);
  }

  lemma MadeAttempt(defs: seq<Function>, def: Function, t: Term) returns (draws: seq<nat>)
    requires TermOf(defs, def, t)
    ensures AttemptLeads(NewSignature(defs), def, MAX_TRIES, Some(t), draws)
  {
    draws := GenComplete(defs, t, MAX_DEPTH);
    WantedAttempt(NewSignature(defs), t, MAX_TRIES, draws);
  }

  lemma {:induction false} ZooCanBe(defs: seq<Function>, n: nat, zoo: seq<Term>) returns (draws: seq<nat>)
    requires n <= |defs| && PossibleZoo(defs, n, zoo)
    ensures ZooLeads(NewSignature(defs), defs[..n], zoo, draws)
    decreases n
  {
    if n == 0 {
      draws := [];
    } else {
      var front, back, z, t;
      if CanFail(defs, defs[n - 1], MAX_DEPTH) && PossibleZoo(defs, n - 1, zoo) {
        z, t := zoo, None;
        back := FailedAttempt(defs, defs[n - 1]);
      } else {
        z, t := zoo[..|zoo| - 1], Some(zoo[|zoo| - 1]);
        back := MadeAttempt(defs, defs[n - 1], t.value);
      }
      front := ZooCanBe(defs, n - 1, z);
      assert defs[..n][..n - 1] == defs[..n - 1];
      assert zoo == z + if t.Some? then [t.value] else [];
      ZooLeadsStep(NewSignature(defs), defs[..n], z, front, t, back);
      draws := front + back;
    }
  }

  lemma {:induction false} PossibleZooSound(defs: seq<Function>, n: nat, zoo: seq<Term>)
    requires n <= |defs| && PossibleZoo(defs, n, zoo)
    ensures AllZoo(defs, zoo)
    decreases n
  {
    if n > 0 {
      if CanFail(defs, defs[n - 1], MAX_DEPTH) && PossibleZoo(defs, n - 1, zoo) {
        PossibleZooSound(defs, n - 1, zoo);
      } else {
        PossibleZooSound(defs, n - 1, zoo[..|zoo| - 1]);
        AllZooMore(defs, zoo);
      }
    }
  }

  lemma AllZooMore(defs: seq<Function>, zoo: seq<Term>)
    requires zoo != [] && AllZoo(defs, zoo[..|zoo| - 1]) && ZooTerm(defs, zoo[|zoo| - 1], MAX_DEPTH)
    ensures AllZoo(defs, zoo)
  {
    forall i | 0 <= i < |zoo|
      ensures ZooTerm(defs, zoo[i], MAX_DEPTH)
    {
      assert i < |zoo| - 1 ==> zoo[i] == zoo[..|zoo| - 1][i];
    }
  }

  ghost predicate IsZoo(defs: seq<Function>, zoo: seq<Term>, raw: nat -> nat, pos: nat) {
    ZooOf(NewSignature(defs), defs, raw, pos).0 == zoo
  }

  /** The zoos that `TermZoo::generate` can make, exactly. */
  lemma ZoosExact(defs: seq<Function>, zoo: seq<Term>)
    ensures (exists raw, pos :: IsZoo(defs, zoo, raw, pos)) <==> PossibleZoo(defs, |defs|, zoo)
  {
    assert defs[..|defs|] == defs;
    if PossibleZoo(defs, |defs|, zoo) {
      var draws := ZooCanBe(defs, |defs|, zoo);
      var raw := Offering(draws, 0);
      assert IsZoo(defs, zoo, raw, 0);
    }
    forall raw: nat -> nat, pos | IsZoo(defs, zoo, raw, pos)
      ensures PossibleZoo(defs, |defs|, zoo)
    {
      ZooPossible(defs, |defs|, raw, pos);
    }
  }
}
