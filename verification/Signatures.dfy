/** Signatures: the universe of function symbols and its indexes, `Signature::new`. */
module Signatures {
  import opened Terms

  datatype Signature = Signature(
    byName: map<string, Function>,
    byType: map<TypeId, seq<Function>>,
    functions: seq<Function>)

  /** Collecting into a map keyed by name: a later definition replaces an earlier one. */
  function IndexByName(defs: seq<Function>): map<string, Function> {
    if defs == [] then map[]
    else
      var n := |defs| - 1;
      IndexByName(defs[..n])[defs[n].shape.name := defs[n]]
  }

  /** Grouping by return type keeps definition order inside each group. */
  function IndexByType(defs: seq<Function>): map<TypeId, seq<Function>> {
    if defs == [] then map[]
    else
      var n := |defs| - 1;
      var m := IndexByType(defs[..n]);
      var typ := defs[n].shape.retType;
      m[typ := (if typ in m then m[typ] else []) + [defs[n]]]
  }

  function NewSignature(defs: seq<Function>): Signature {
    Signature(IndexByName(defs), IndexByType(defs), defs)
  }

  /** The definitions that return `typ`, in order. */
  ghost function Returning(defs: seq<Function>, typ: TypeId): seq<Function> {
    if defs == [] then []
    else
      var n := |defs| - 1;
      Returning(defs[..n], typ) + (if defs[n].shape.retType == typ then [defs[n]] else [])
  }

  lemma {:induction false} ReturningExact(defs: seq<Function>, typ: TypeId, f: Function)
    ensures f in Returning(defs, typ) <==> f in defs && f.shape.retType == typ
  {
    if defs != [] {
      ReturningExact(defs[..|defs| - 1], typ, f);
    }
  }

  /** The by-type index holds exactly the definitions of each return type, in order, and
      has a key for a type exactly when some definition returns it. */
  lemma {:induction false} IndexByTypeExact(defs: seq<Function>, typ: TypeId)
    ensures typ in IndexByType(defs) <==> Returning(defs, typ) != []
    ensures typ in IndexByType(defs) ==> IndexByType(defs)[typ] == Returning(defs, typ)
  {
    if defs != [] {
      IndexByTypeExact(defs[..|defs| - 1], typ);
    }
  }

  /** The by-name index finds the last definition of a name. */
  lemma {:induction false} IndexByNameExact(defs: seq<Function>, name: string)
    ensures name in IndexByName(defs) <==> exists i :: 0 <= i < |defs| && defs[i].shape.name == name
    ensures name in IndexByName(defs) ==>
              exists i :: 0 <= i < |defs| && defs[i].shape.name == name && IndexByName(defs)[name] == defs[i]
                          && forall j :: i < j < |defs| ==> defs[j].shape.name != name
  {
    if defs != [] {
      var n := |defs| - 1;
      IndexByNameExact(defs[..n], name);
      if defs[n].shape.name != name {
        assert forall i :: 0 <= i < n ==> defs[..n][i] == defs[i];
      }
    }
  }

  /** Every definition comes from `make_dynamic`. */
  ghost predicate AllLinked(defs: seq<Function>) {
    forall f :: f in defs ==> f.Linked()
  }
}
