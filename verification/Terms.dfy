/**
 First-order terms over dynamically typed function symbols: shapes, sizes,
 positions and the typing discipline that mutations are meant to keep.
 */
module Terms {
  import opened Wrappers
  import opened Matching

  /** A runtime type identity. `TypeShape` equality looks at nothing else. */
  type TypeId = nat

  type AgentName = nat

  /** `DynamicFunctionShape`. Source equality on shapes compares names only. */
  datatype Shape = Shape(name: string, argTypes: seq<TypeId>, retType: TypeId) {
    predicate IsConstant() {
      |argTypes| == 0
    }
  }

  /** The closure produced by `make_dynamic`: it remembers the static types of the
      function it wraps; `code` stands for that function. */
  datatype DynamicFn = DynamicFn(argTypes: seq<TypeId>, retType: TypeId, code: nat)

  datatype Function = Function(shape: Shape, dynamicFn: DynamicFn) {
    /** Shape and closure describe the same static function, as `make_dynamic` builds them. */
    predicate Linked() {
      dynamicFn.argTypes == shape.argTypes && dynamicFn.retType == shape.retType
    }
  }

  datatype Query = Query(agent: AgentName, matcher: Label, counter: nat)

  datatype Term =
    | Variable(typ: TypeId, query: Query)
    | Application(func: Function, args: seq<Term>)

  type Path = seq<nat>

  function TypeOf(t: Term): TypeId {
    match t
    case Variable(typ, _) => typ
    case Application(f, _) => f.shape.retType
  }

  function Size(t: Term): (n: nat)
    ensures n >= 1
    decreases t, 1
  {
    match t
    case Variable(_, _) => 1
    case Application(_, args) => SizeSum(args) + 1
  }

  function SizeSum(ts: seq<Term>): (n: nat)
    ensures n >= |ts|
    decreases ts, 0
  {
    if ts == [] then 0 else Size(ts[0]) + SizeSum(ts[1..])
  }

  /** Arity and argument types agree with the shape at every node. */
  predicate WellTyped(t: Term) {
    match t
    case Variable(_, _) => true
    case Application(f, args) =>
      && f.Linked()
      && |args| == |f.shape.argTypes|
      && forall i :: 0 <= i < |args| ==> TypeOf(args[i]) == f.shape.argTypes[i] && WellTyped(args[i])
  }

  // ------------------------------------------------------------------ positions

  /** `find_term_by_term_path_mut`, as the term it finds. */
  function At(t: Term, p: Path): Option<Term>
    decreases |p|
  {
    if p == [] then Some(t)
    else match t
      case Variable(_, _) => None
      case Application(_, args) => if p[0] < |args| then At(args[p[0]], p[1..]) else None
  }

  /** The whole term after `mutate` has overwritten the subterm at `p`. */
  function Put(t: Term, p: Path, r: Term): Term
    requires At(t, p).Some?
    decreases |p|
  {
    if p == [] then r
    else t.(args := t.args[p[0] := Put(t.args[p[0]], p[1..], r)])
  }

  ghost predicate Disjoint(p: Path, q: Path) {
    !(p <= q) && !(q <= p)
  }

  lemma {:induction false} SizeSumUpdate(ts: seq<Term>, i: nat, r: Term)
    requires i < |ts|
    ensures SizeSum(ts[i := r]) == SizeSum(ts) - Size(ts[i]) + Size(r)
  {
    if i == 0 {
      assert ts[i := r][1..] == ts[1..];
    } else {
      assert ts[i := r][1..] == ts[1..][i - 1 := r];
      SizeSumUpdate(ts[1..], i - 1, r);
    }
  }

  lemma {:induction false} SizeOfElement(ts: seq<Term>, i: nat)
    requires i < |ts|
    ensures Size(ts[i]) <= SizeSum(ts)
  {
    if i > 0 {
      SizeOfElement(ts[1..], i - 1);
    }
  }

  /** Looking below a rewritten position looks into the new subterm. */
  lemma {:induction false} PutBelow(t: Term, p: Path, r: Term, q: Path)
    requires At(t, p).Some?
    ensures At(Put(t, p, r), p + q) == At(r, q)
    decreases |p|
  {
    if p == [] {
      assert p + q == q;
    } else {
      assert (p + q)[1..] == p[1..] + q;
      PutBelow(t.args[p[0]], p[1..], r, q);
    }
  }

  /** Rewriting leaves every disjoint position alone. */
  lemma {:induction false} PutElsewhere(t: Term, p: Path, r: Term, q: Path)
    requires At(t, p).Some? && Disjoint(p, q)
    ensures At(Put(t, p, r), q) == At(t, q)
    decreases |p|
  {
    if p[0] == q[0] && p[0] < |t.args| {
      assert p == [p[0]] + p[1..] && q == [q[0]] + q[1..];
      PutElsewhere(t.args[p[0]], p[1..], r, q[1..]);
    }
  }

  /** A rewrite at or below `p` is overwritten by a rewrite at `p`. */
  lemma {:induction false} PutAbove(t: Term, p: Path, q: Path, x: Term, y: Term)
    requires At(t, p + q).Some?
    ensures At(t, p).Some? && At(Put(t, p + q, x), p).Some?
    ensures Put(Put(t, p + q, x), p, y) == Put(t, p, y)
    decreases |p|
  {
    if p != [] {
      assert (p + q)[1..] == p[1..] + q;
      PutAbove(t.args[p[0]], p[1..], q, x, y);
    }
  }

  lemma {:induction false} PutSize(t: Term, p: Path, r: Term)
    requires At(t, p).Some?
    ensures Size(Put(t, p, r)) == Size(t) - Size(At(t, p).value) + Size(r)
    ensures Size(At(t, p).value) <= Size(t)
    ensures p != [] ==> Size(At(t, p).value) < Size(t)
    decreases |p|
  {
    if p != [] {
      PutSize(t.args[p[0]], p[1..], r);
      SizeSumUpdate(t.args, p[0], Put(t.args[p[0]], p[1..], r));
      SizeOfElement(t.args, p[0]);
    }
  }

  lemma {:induction false} SubtermWellTyped(t: Term, p: Path)
    requires WellTyped(t) && At(t, p).Some?
    ensures WellTyped(At(t, p).value)
    decreases |p|
  {
    if p != [] {
      SubtermWellTyped(t.args[p[0]], p[1..]);
    }
  }

  /** Below the root, a rewrite of a well-typed term is well-typed exactly when the
      new subterm is well-typed and has the type of the one it replaces. */
  lemma {:induction false} PutWellTyped(t: Term, p: Path, r: Term)
    requires WellTyped(t) && At(t, p).Some?
    ensures WellTyped(Put(t, p, r)) <==> WellTyped(r) && (p == [] || TypeOf(r) == TypeOf(At(t, p).value))
    ensures TypeOf(Put(t, p, r)) == if p == [] then TypeOf(r) else TypeOf(t)
    decreases |p|
  {
    if p != [] {
      var c := t.args[p[0]];
      PutWellTyped(c, p[1..], r);
      var c' := Put(c, p[1..], r);
      var t' := Put(t, p, r);
      assert t'.args[p[0]] == c';
      assert forall i :: 0 <= i < |t.args| && i != p[0] ==> t'.args[i] == t.args[i];
    }
  }
}
