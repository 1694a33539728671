/**
 Query matchers: `Matcher` for `HandshakeType`, `TlsQueryMatcher` and `Option<T>`.
 `Matches(k, q)` asks whether knowledge labelled `k` answers a query labelled `q`.
 */
module Matching {
  import opened Wrappers

  /** A TLS handshake type; `Unknown` keeps unrecognised ordinals apart from the named ones. */
  datatype HandshakeType = Named(code: Byte) | Unknown(code: Byte)

  datatype TlsMatcher =
    | ChangeCipherSpec
    | Alert
    | Handshake(typ: Option<HandshakeType>)
    | ApplicationData
    | Heartbeat

  type Label = Option<TlsMatcher>

  predicate HandshakeMatches(k: Option<HandshakeType>, q: Option<HandshakeType>) {
    match (k, q)
    case (Some(a), Some(b)) => b == a
    case (Some(_), None) => true
    case (None, None) => true
    case (None, Some(_)) => false
  }

  predicate TlsMatches(k: TlsMatcher, q: TlsMatcher) {
    match q
    case Handshake(qt) => k.Handshake? && HandshakeMatches(k.typ, qt)
    case ChangeCipherSpec => k.ChangeCipherSpec?
    case Alert => k.Alert?
    case Heartbeat => k.Heartbeat?
    case ApplicationData => k.ApplicationData?
  }

  predicate Matches(k: Label, q: Label) {
    match (k, q)
    case (Some(a), Some(b)) => TlsMatches(a, b)
    case (Some(_), None) => true
    case (None, None) => true
    case (None, Some(_)) => false
  }

  function TlsSpecificity(m: TlsMatcher): nat {
    match m
    case Handshake(t) => 1 + (if t.None? then 0 else 1)
    case _ => 0
  }

  function Specificity(l: Label): nat {
    if l.None? then 0 else 1 + TlsSpecificity(l.value)
  }

  /** A query whose answers can differ in specificity: no matcher at all, or any handshake. */
  predicate Loose(q: Label) {
    q == None || q == Some(Handshake(None))
  }

  /** Matching is a partial order and specificity strictly increases along it. */
  lemma MatchingIsPartialOrder(a: Label, b: Label, c: Label)
    ensures Matches(a, a)
    ensures Matches(a, b) && Matches(b, a) ==> a == b
    ensures Matches(a, b) && Matches(b, c) ==> Matches(a, c)
    ensures Matches(a, b) && a != b ==> Specificity(b) < Specificity(a)
  {
  }

  /** What matches: everything an empty query, any handshake one for any handshake, and
      otherwise only the query's own label. Specificity counts how much a label says. */
  lemma MatchesIff(k: Label, q: Label)
    ensures Matches(k, q) <==> q == None || k == q || (q == Some(Handshake(None)) && k.Some? && k.value.Handshake?)
    ensures Specificity(k) == 0 <==> k == None
    ensures Specificity(k) == 1 <==> k.Some? && !k.value.Handshake?
    ensures Specificity(k) == 2 <==> k == Some(Handshake(None))
    ensures Specificity(k) == 3 <==> k.Some? && k.value.Handshake? && k.value.typ.Some?
  {
    if k.Some? && q.Some? && k.value.Handshake? && q.value.Handshake? {
      assert k == q <==> k.value.typ == q.value.typ;
    }
  }

  /** A query pins down its answers' labels exactly when it is not loose. */
  lemma TightQueriesHaveOneLabel(q: Label)
    ensures !Loose(q) <==> forall k :: Matches(k, q) ==> k == q
  {
    if q == None {
      assert Matches(Some(Alert), q);
    } else if q == Some(Handshake(None)) {
      assert Matches(Some(Handshake(Some(Named(1)))), q);
    } else {
      forall k | Matches(k, q)
        ensures k == q
      {
        match (k.value, q.value)
        case (Handshake(a), Handshake(b)) => assert a.value == b.value;
        case _ =>
      }
    }
  }
}
