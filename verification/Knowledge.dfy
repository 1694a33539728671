/**
 The attacker's knowledge and the query that picks one piece of it:
 `TraceContext::find_variable` and `ClaimList::find_last_claim`.
 */
module Knowing {
  import opened Wrappers
  import opened Matching
  import opened Terms

  /** A boxed value together with its runtime type. */
  datatype Value = Value(typ: TypeId, payload: int)

  datatype Knowledge = Knowledge(agent: AgentName, matcher: Label, data: Value)

  datatype Claim = Claim(agent: AgentName, id: TypeId, inner: Value)

  /** A possible answer: where it is in the knowledge list, and its sort key. */
  datatype Entry = Entry(index: nat, key: nat)

  predicate Answers(k: Knowledge, typ: TypeId, q: Query) {
    typ == k.data.typ && q.agent == k.agent && Matches(k.matcher, q.matcher)
  }

  /** The possibilities in knowledge order. */
  function Candidates(ks: seq<Knowledge>, typ: TypeId, q: Query): (es: seq<Entry>)
    ensures forall e :: e in es ==> e.index < |ks|
  {
    if ks == [] then []
    else
      var n := |ks| - 1;
      Candidates(ks[..n], typ, q)
      + (if Answers(ks[n], typ, q) then [Entry(n, Specificity(ks[n].matcher))] else [])
  }

  // ------------------------------------------------------------------ stable sort

  /** Insert after every entry whose key is not larger. */
  function Insert(sorted: seq<Entry>, x: Entry): seq<Entry> {
    if sorted == [] then [x]
    else
      var n := |sorted| - 1;
      if sorted[n].key <= x.key then sorted + [x] else Insert(sorted[..n], x) + [sorted[n]]
  }

  function InsertAll(sorted: seq<Entry>, xs: seq<Entry>): seq<Entry> {
    if xs == [] then sorted
    else Insert(InsertAll(sorted, xs[..|xs| - 1]), xs[|xs| - 1])
  }

  /** `sort_by_key`, which is stable. */
  function StableSort(xs: seq<Entry>): seq<Entry> {
    InsertAll([], xs)
  }

  ghost predicate Sorted(s: seq<Entry>) {
    forall i, j :: 0 <= i < j < |s| ==> s[i].key <= s[j].key
  }

  ghost predicate Distinct(s: seq<Entry>) {
    forall i, j :: 0 <= i < j < |s| ==> s[i] != s[j]
  }

  /** The entries with key `k`, in order. */
  ghost function WithKey(s: seq<Entry>, k: nat): seq<Entry> {
    if s == [] then []
    else WithKey(s[..|s| - 1], k) + (if s[|s| - 1].key == k then [s[|s| - 1]] else [])
  }

  lemma {:induction false} InsertMembers(sorted: seq<Entry>, x: Entry)
    ensures |Insert(sorted, x)| == |sorted| + 1
    ensures multiset(Insert(sorted, x)) == multiset(sorted) + multiset{x}
    ensures forall e :: e in Insert(sorted, x) <==> e in sorted || e == x
  {
    if sorted != [] {
      var n := |sorted| - 1;
      assert sorted == sorted[..n] + [sorted[n]];
      InsertMembers(sorted[..n], x);
    }
  }

  lemma {:induction false} InsertSorts(sorted: seq<Entry>, x: Entry)
    requires Sorted(sorted)
    ensures Sorted(Insert(sorted, x))
    ensures Distinct(sorted) && x !in sorted ==> Distinct(Insert(sorted, x))
  {
    if sorted != [] {
      var n := |sorted| - 1;
      InsertMembers(sorted[..n], x);
      InsertSorts(sorted[..n], x);
      var r := Insert(sorted[..n], x);
      forall i | 0 <= i < |r|
        ensures sorted[n].key > x.key ==> r[i].key <= sorted[n].key
        ensures Distinct(sorted) && x !in sorted ==> r[i] != sorted[n]
      {
        assert r[i] in r;
      }
    }
  }

  lemma {:induction false} InsertKeepsOrder(sorted: seq<Entry>, x: Entry, k: nat)
    requires Sorted(sorted)
    ensures WithKey(Insert(sorted, x), k) == WithKey(sorted + [x], k)
  {
    assert (sorted + [x])[..|sorted|] == sorted;
    if sorted != [] {
      var n := |sorted| - 1;
      if sorted[n].key > x.key {
        InsertKeepsOrder(sorted[..n], x, k);
        var r := Insert(sorted[..n], x);
        assert (r + [sorted[n]])[..|r|] == r;
        assert (sorted[..n] + [x])[..n] == sorted[..n];
      }
    }
  }

  lemma {:induction false} WithKeyConcat(a: seq<Entry>, b: seq<Entry>, k: nat)
    ensures WithKey(a + b, k) == WithKey(a, k) + WithKey(b, k)
  {
    if b == [] {
      assert a + b == a;
    } else {
      var n := |b| - 1;
      assert (a + b)[..|a + b| - 1] == a + b[..n];
      WithKeyConcat(a, b[..n], k);
    }
  }

  /** Sorting gives an ascending permutation in which equal keys keep their order. */
  lemma {:induction false} StableSortIsStable(xs: seq<Entry>)
    ensures Sorted(StableSort(xs))
    ensures multiset(StableSort(xs)) == multiset(xs)
    ensures |StableSort(xs)| == |xs|
    ensures forall k :: WithKey(StableSort(xs), k) == WithKey(xs, k)
  {
    if xs != [] {
      var n := |xs| - 1;
      assert xs == xs[..n] + [xs[n]];
      StableSortIsStable(xs[..n]);
      var s := StableSort(xs[..n]);
      InsertSorts(s, xs[n]);
      InsertMembers(s, xs[n]);
      forall k
        ensures WithKey(StableSort(xs), k) == WithKey(xs, k)
      {
        InsertKeepsOrder(s, xs[n], k);
        WithKeyConcat(s, [xs[n]], k);
        WithKeyConcat(xs[..n], [xs[n]], k);
      }
    }
  }

  lemma {:induction false} WithKeyMember(s: seq<Entry>, k: nat, e: Entry) returns (i: nat)
    requires e in WithKey(s, k)
    ensures i < |s| && s[i] == e
  {
    var n := |s| - 1;
    if e in WithKey(s[..n], k) {
      i := WithKeyMember(s[..n], k, e);
    } else {
      i := n;
    }
  }

  lemma LastEqual(a: seq<Entry>, x: Entry, b: seq<Entry>, y: Entry)
    requires a + [x] == b + [y]
    ensures x == y && a == b
  {
    assert (a + [x])[|a|] == x && (b + [y])[|b|] == y;
    assert (a + [x])[..|a|] == a && (b + [y])[..|b|] == b;
  }

  /** If `b` holds the same entries as `a` under `a`'s largest key, `b` reaches at least that key. */
  lemma LastKeyOccurs(a: seq<Entry>, b: seq<Entry>)
    requires Sorted(b) && a != []
    requires WithKey(a, a[|a| - 1].key) == WithKey(b, a[|a| - 1].key)
    ensures b != [] && a[|a| - 1].key <= b[|b| - 1].key
  {
    var n := |a| - 1;
    assert WithKey(a, a[n].key) == WithKey(a[..n], a[n].key) + [a[n]];
    assert a[n] in WithKey(a, a[n].key);
    var i := WithKeyMember(b, a[n].key, a[n]);
  }

  /** Those properties leave no choice: there is only one stable ascending order. */
  lemma {:induction false} StableOrderIsUnique(a: seq<Entry>, b: seq<Entry>)
    requires Sorted(a) && Sorted(b)
    requires forall k :: WithKey(a, k) == WithKey(b, k)
    ensures a == b
  {
    if a != [] {
      LastKeyOccurs(a, b);
    }
    if b != [] {
      LastKeyOccurs(b, a);
      var n, m := |a| - 1, |b| - 1;
      assert WithKey(a, a[n].key) == WithKey(a[..n], a[n].key) + [a[n]];
      assert WithKey(b, b[m].key) == WithKey(b[..m], b[m].key) + [b[m]];
      LastEqual(WithKey(a[..n], a[n].key), a[n], WithKey(b[..m], b[m].key), b[m]);
      forall k
        ensures WithKey(a[..n], k) == WithKey(b[..m], k)
      {
        assert WithKey(a, k) == WithKey(b, k);
        if k != a[n].key {
          assert WithKey(a, k) == WithKey(a[..n], k) && WithKey(b, k) == WithKey(b[..m], k);
        }
      }
      StableOrderIsUnique(a[..n], b[..m]);
      assert a == a[..n] + [a[n]] && b == b[..m] + [b[m]];
    }
  }

  // ------------------------------------------------------------------ find_variable

  /** Which piece of knowledge answers the query: the `counter`-th possibility in
      stable ascending specificity. */
  function AnswerIndex(ks: seq<Knowledge>, typ: TypeId, q: Query): (r: Option<nat>)
    ensures r.Some? ==> r.value < |ks| && Answers(ks[r.value], typ, q)
    ensures r.Some? <==> q.counter < |Candidates(ks, typ, q)|
  {
    var cs := Candidates(ks, typ, q);
    StableSortIsStable(cs);
    var s := StableSort(cs);
    if q.counter < |s| then
      assert s[q.counter] in multiset(s);
      CandidatesAnswer(ks, typ, q, s[q.counter]);
      Some(s[q.counter].index)
    else None
  }

  lemma {:induction false} CandidatesAnswer(ks: seq<Knowledge>, typ: TypeId, q: Query, e: Entry)
    ensures e in Candidates(ks, typ, q) <==>
            e.index < |ks| && Answers(ks[e.index], typ, q) && e.key == Specificity(ks[e.index].matcher)
  {
    if ks != [] {
      CandidatesAnswer(ks[..|ks| - 1], typ, q, e);
    }
  }

  // ------------------------------------------------------------------ the rank of the answer

  /** In the order of specificity, then of arrival. */
  ghost predicate Less(a: Entry, b: Entry) {
    a.key < b.key || (a.key == b.key && a.index < b.index)
  }

  ghost predicate StrictlyOrdered(s: seq<Entry>) {
    forall i, j :: 0 <= i < j < |s| ==> Less(s[i], s[j])
  }

  lemma {:induction false} InsertStrictly(sorted: seq<Entry>, x: Entry)
    requires StrictlyOrdered(sorted) && forall e :: e in sorted ==> e.index < x.index
    ensures StrictlyOrdered(Insert(sorted, x))
  {
    if sorted != [] {
      var n := |sorted| - 1;
      InsertMembers(sorted[..n], x);
      InsertStrictly(sorted[..n], x);
      var r := Insert(sorted[..n], x);
      forall i | 0 <= i < |r|
        ensures sorted[n].key > x.key ==> Less(r[i], sorted[n])
      {
        assert r[i] in r;
      }
    }
  }

  lemma SortedMembers(xs: seq<Entry>)
    ensures forall e :: e in StableSort(xs) <==> e in xs
  {
    StableSortIsStable(xs);
    forall e
      ensures e in StableSort(xs) <==> e in xs
    {
      assert e in StableSort(xs) <==> e in multiset(StableSort(xs));
      assert e in xs <==> e in multiset(xs);
    }
  }

  /** The sorted possibilities are strictly ordered. */
  lemma {:induction false} SortedStrictly(ks: seq<Knowledge>, typ: TypeId, q: Query)
    ensures StrictlyOrdered(StableSort(Candidates(ks, typ, q)))
  {
    if ks != [] {
      var n := |ks| - 1;
      SortedStrictly(ks[..n], typ, q);
      if Answers(ks[n], typ, q) {
        var front, x := Candidates(ks[..n], typ, q), Entry(n, Specificity(ks[n].matcher));
        assert (front + [x])[..|front|] == front;
        SortedMembers(front);
        InsertStrictly(StableSort(front), x);
      } else {
        NoSuffix(Candidates(ks[..n], typ, q));
      }
    }
  }

  /** The pieces of knowledge of the query's agent and of the asked type that match it. */
  ghost function Answering(ks: seq<Knowledge>, typ: TypeId, q: Query): set<nat> {
    set j: nat | j < |ks| && ks[j].data.typ == typ && ks[j].agent == q.agent && Matches(ks[j].matcher, q.matcher)
  }

  /** Those that come before piece `i`: less specific ones, and equally specific ones that
      arrived earlier. */
  ghost function Ahead(ks: seq<Knowledge>, typ: TypeId, q: Query, i: nat): set<nat>
    requires i < |ks|
  {
    set j: nat | j < |ks| && j in Answering(ks, typ, q)
                 && (|| Specificity(ks[j].matcher) < Specificity(ks[i].matcher)
                     || (Specificity(ks[j].matcher) == Specificity(ks[i].matcher) && j < i))
  }

  ghost predicate DifferentIndices(s: seq<Entry>) {
    forall i, j :: 0 <= i < j < |s| ==> s[i].index != s[j].index
  }

  /** The indices of the first `c` entries. */
  ghost function Indices(s: seq<Entry>, c: nat): set<nat>
    requires c <= |s|
  {
    set a: nat | a < c :: s[a].index
  }

  lemma {:induction false} IndicesCount(s: seq<Entry>, c: nat)
    requires c <= |s| && DifferentIndices(s)
    ensures |Indices(s, c)| == c
  {
    if c > 0 {
      IndicesCount(s, c - 1);
      assert s[c - 1].index !in Indices(s, c - 1);
      assert Indices(s, c) == Indices(s, c - 1) + {s[c - 1].index};
    }
  }

  lemma SortedDiffer(ks: seq<Knowledge>, typ: TypeId, q: Query)
    ensures DifferentIndices(StableSort(Candidates(ks, typ, q)))
  {
    var s := StableSort(Candidates(ks, typ, q));
    SortedStrictly(ks, typ, q);
    forall i, j | 0 <= i < j < |s|
      ensures s[i].index != s[j].index
    {
      assert Less(s[i], s[j]);
      SortedEntryAnswers(ks, typ, q, i);
      SortedEntryAnswers(ks, typ, q, j);
    }
  }

  lemma EntryOf(ks: seq<Knowledge>, typ: TypeId, q: Query, j: nat) returns (a: nat)
    requires j < |ks| && Answers(ks[j], typ, q)
    ensures var s := StableSort(Candidates(ks, typ, q)); a < |s| && s[a] == Entry(j, Specificity(ks[j].matcher))
  {
    var f := Entry(j, Specificity(ks[j].matcher));
    CandidatesAnswer(ks, typ, q, f);
    SortedMembers(Candidates(ks, typ, q));
    var s := StableSort(Candidates(ks, typ, q));
    a :| 0 <= a < |s| && s[a] == f;
  }

  /** An answering piece stands in the sorted possibilities behind exactly those ahead of it. */
  lemma RankOf(ks: seq<Knowledge>, typ: TypeId, q: Query, c: nat)
    requires c < |StableSort(Candidates(ks, typ, q))|
    ensures var i := StableSort(Candidates(ks, typ, q))[c].index; i < |ks| && |Ahead(ks, typ, q, i)| == c
  {
    var s := StableSort(Candidates(ks, typ, q));
    var e := s[c];
    SortedStrictly(ks, typ, q);
    SortedDiffer(ks, typ, q);
    SortedEntryAnswers(ks, typ, q, c);
    forall j: nat
      ensures j in Ahead(ks, typ, q, e.index) <==> j in Indices(s, c)
    {
      if j in Ahead(ks, typ, q, e.index) {
        var a := EntryOf(ks, typ, q, j);
        assert a < c;
      }
      if j in Indices(s, c) {
        var a: nat :| a < c && s[a].index == j;
        SortedEntryAnswers(ks, typ, q, a);
        assert Less(s[a], e);
      }
    }
    assert Ahead(ks, typ, q, e.index) == Indices(s, c);
    IndicesCount(s, c);
  }

  lemma AnsweringCount(ks: seq<Knowledge>, typ: TypeId, q: Query)
    ensures |Answering(ks, typ, q)| == |StableSort(Candidates(ks, typ, q))|
  {
    var s := StableSort(Candidates(ks, typ, q));
    SortedStrictly(ks, typ, q);
    SortedDiffer(ks, typ, q);
    forall j: nat
      ensures j in Answering(ks, typ, q) <==> j in Indices(s, |s|)
    {
      if j in Answering(ks, typ, q) {
        var a := EntryOf(ks, typ, q, j);
      }
      if j in Indices(s, |s|) {
        var a: nat :| a < |s| && s[a].index == j;
        SortedEntryAnswers(ks, typ, q, a);
      }
    }
    assert Answering(ks, typ, q) == Indices(s, |s|);
    IndicesCount(s, |s|);
  }

  /** The answer is the piece that answers the query and has exactly `counter` answering
      pieces ahead of it; there is none exactly if no more than `counter` pieces answer. */
  lemma AnswerRank(ks: seq<Knowledge>, typ: TypeId, q: Query, i: nat)
    ensures AnswerIndex(ks, typ, q) == Some(i) <==>
            i in Answering(ks, typ, q) && |Ahead(ks, typ, q, i)| == q.counter
    ensures AnswerIndex(ks, typ, q).None? <==> |Answering(ks, typ, q)| <= q.counter
  {
    var s := StableSort(Candidates(ks, typ, q));
    StableSortIsStable(Candidates(ks, typ, q));
    AnsweringCount(ks, typ, q);
    if q.counter < |s| {
      RankOf(ks, typ, q, q.counter);
    }
    if i in Answering(ks, typ, q) && |Ahead(ks, typ, q, i)| == q.counter {
      var a := EntryOf(ks, typ, q, i);
      RankOf(ks, typ, q, a);
    }
  }

  lemma AnswerRanks(ks: seq<Knowledge>, typ: TypeId, q: Query)
    ensures AnswerIndex(ks, typ, q).None? <==> |Answering(ks, typ, q)| <= q.counter
    ensures forall i: nat :: i in Answering(ks, typ, q) && |Ahead(ks, typ, q, i)| == q.counter ==>
                               AnswerIndex(ks, typ, q) == Some(i)
  {
    AnswerRank(ks, typ, q, 0);
    forall i: nat | i in Answering(ks, typ, q) && |Ahead(ks, typ, q, i)| == q.counter
      ensures AnswerIndex(ks, typ, q) == Some(i)
    {
      AnswerRank(ks, typ, q, i);
    }
  }

  /** `find_variable`: fill the possibilities in a loop, sort them, take the counter-th. */
  method FindVariable(ks: seq<Knowledge>, typ: TypeId, q: Query) returns (r: Option<Value>)
    ensures r.Some? <==> AnswerIndex(ks, typ, q).Some?
    ensures r.Some? ==> r.value == ks[AnswerIndex(ks, typ, q).value].data
    ensures r.None? <==> |Answering(ks, typ, q)| <= q.counter
    ensures forall i: nat :: i in Answering(ks, typ, q) && |Ahead(ks, typ, q, i)| == q.counter ==>
                               r == Some(ks[i].data)
  {
    var possibilities: seq<Entry> := [];
    for i := 0 to |ks|
      invariant possibilities == Candidates(ks[..i], typ, q)
    {
      assert ks[..i + 1][..i] == ks[..i];
      if typ == ks[i].data.typ && q.agent == ks[i].agent && Matches(ks[i].matcher, q.matcher) {
        possibilities := possibilities + [Entry(i, Specificity(ks[i].matcher))];
      }
    }
    assert ks[..|ks|] == ks;
    AnswerRanks(ks, typ, q);
    StableSortIsStable(possibilities);
    possibilities := StableSort(possibilities);
    if q.counter < |possibilities| {
      SortedEntryAnswers(ks, typ, q, q.counter);
      r := Some(ks[possibilities[q.counter].index].data);
    } else {
      r := None;
    }
  }

  // ------------------------------------------------------------------ growing knowledge

  /** The possibilities that `more` adds behind `ks`. */
  ghost function NewCandidates(ks: seq<Knowledge>, more: seq<Knowledge>, typ: TypeId, q: Query): seq<Entry>
  {
    if more == [] then []
    else
      var n := |more| - 1;
      NewCandidates(ks, more[..n], typ, q)
      + (if Answers(more[n], typ, q) then [Entry(|ks| + n, Specificity(more[n].matcher))] else [])
  }

  lemma {:induction false} NewCandidatesAnswer(ks: seq<Knowledge>, more: seq<Knowledge>, typ: TypeId, q: Query, e: Entry)
    ensures e in NewCandidates(ks, more, typ, q) <==>
            |ks| <= e.index < |ks| + |more| && Answers(more[e.index - |ks|], typ, q)
            && e.key == Specificity(more[e.index - |ks|].matcher)
  {
    if more != [] {
      NewCandidatesAnswer(ks, more[..|more| - 1], typ, q, e);
    }
  }

  lemma {:induction false} CandidatesAppend(ks: seq<Knowledge>, more: seq<Knowledge>, typ: TypeId, q: Query)
    ensures Candidates(ks + more, typ, q) == Candidates(ks, typ, q) + NewCandidates(ks, more, typ, q)
  {
    if more == [] {
      assert ks + more == ks;
    } else {
      var n := |more| - 1;
      assert (ks + more)[..|ks + more| - 1] == ks + more[..n];
      CandidatesAppend(ks, more[..n], typ, q);
    }
  }

  lemma {:induction false} InsertAllConcat(s: seq<Entry>, a: seq<Entry>, b: seq<Entry>)
    ensures InsertAll(s, a + b) == InsertAll(InsertAll(s, a), b)
  {
    if b == [] {
      assert a + b == a;
    } else {
      assert (a + b)[..|a + b| - 1] == a + b[..|b| - 1];
      InsertAllConcat(s, a, b[..|b| - 1]);
    }
  }

  /** One insertion moves an entry right by one place, exactly when a smaller key arrives. */
  lemma {:induction false} InsertMoves(sorted: seq<Entry>, x: Entry, j: nat)
    requires Sorted(sorted) && j < |sorted|
    ensures |Insert(sorted, x)| == |sorted| + 1
    ensures Insert(sorted, x)[if x.key < sorted[j].key then j + 1 else j] == sorted[j]
  {
    InsertMembers(sorted, x);
    var n := |sorted| - 1;
    if sorted[n].key > x.key {
      InsertMembers(sorted[..n], x);
      if j < n {
        InsertMoves(sorted[..n], x, j);
      }
    }
  }

  ghost predicate SomeSmaller(xs: seq<Entry>, key: nat) {
    exists e :: e in xs && e.key < key
  }

  lemma {:induction false} InsertAllSorted(sorted: seq<Entry>, xs: seq<Entry>)
    requires Sorted(sorted)
    ensures Sorted(InsertAll(sorted, xs))
  {
    if xs != [] {
      var n := |xs| - 1;
      InsertAllSorted(sorted, xs[..n]);
      InsertSorts(InsertAll(sorted, xs[..n]), xs[n]);
    }
  }

  lemma {:induction false} StableSortDistinct(xs: seq<Entry>)
    requires Distinct(xs)
    ensures Distinct(StableSort(xs))
  {
    if xs != [] {
      var n := |xs| - 1;
      StableSortDistinct(xs[..n]);
      StableSortIsStable(xs[..n]);
      var s := StableSort(xs[..n]);
      assert xs[n] !in multiset(xs[..n]) && multiset(s) == multiset(xs[..n]);
      InsertSorts(s, xs[n]);
    }
  }

  /** Over many insertions an entry only ever moves right, and stays put exactly when
      no smaller key arrives. */
  lemma {:induction false} InsertAllMoves(sorted: seq<Entry>, xs: seq<Entry>, j: nat) returns (j': nat)
    requires Sorted(sorted) && j < |sorted|
    ensures j <= j' < |InsertAll(sorted, xs)| && InsertAll(sorted, xs)[j'] == sorted[j]
    ensures j' == j <==> !SomeSmaller(xs, sorted[j].key)
  {
    j' := j;
    if xs != [] {
      var n := |xs| - 1;
      j' := InsertAllMoves(sorted, xs[..n], j);
      InsertAllSorted(sorted, xs[..n]);
      InsertMoves(InsertAll(sorted, xs[..n]), xs[n], j');
      SomeSmallerSplit(xs, sorted[j].key);
      if xs[n].key < sorted[j].key {
        j' := j' + 1;
      }
    }
  }

  lemma SomeSmallerSplit(xs: seq<Entry>, key: nat)
    requires xs != []
    ensures SomeSmaller(xs, key) <==> SomeSmaller(xs[..|xs| - 1], key) || xs[|xs| - 1].key < key
  {
    var n := |xs| - 1;
    assert forall e :: e in xs <==> e in xs[..n] || e == xs[n];
  }

  lemma {:induction false} CandidatesDistinct(ks: seq<Knowledge>, typ: TypeId, q: Query)
    ensures Distinct(Candidates(ks, typ, q))
  {
    if ks != [] {
      CandidatesDistinct(ks[..|ks| - 1], typ, q);
    }
  }

  /** The sorted possibilities after growth, and where the old answer went. */
  lemma AnswerMoves(ks: seq<Knowledge>, more: seq<Knowledge>, typ: TypeId, q: Query) returns (j': nat)
    requires AnswerIndex(ks, typ, q).Some?
    ensures var s := StableSort(Candidates(ks, typ, q));
            var s' := StableSort(Candidates(ks + more, typ, q));
            && q.counter < |s| && q.counter <= j' < |s'| && s'[j'] == s[q.counter]
            && Distinct(s')
            && (j' == q.counter <==> !SomeSmaller(NewCandidates(ks, more, typ, q), s[q.counter].key))
  {
    var cs, news := Candidates(ks, typ, q), NewCandidates(ks, more, typ, q);
    CandidatesAppend(ks, more, typ, q);
    CandidatesDistinct(ks + more, typ, q);
    StableSortDistinct(cs + news);
    InsertAllConcat([], cs, news);
    StableSortIsStable(cs);
    j' := InsertAllMoves(StableSort(cs), news, q.counter);
  }

  /** An answered query keeps pointing at the same piece of knowledge, however the
      knowledge grows, exactly as long as no less specific possibility arrives. */
  lemma {:induction false} AnswerKeptIff(ks: seq<Knowledge>, more: seq<Knowledge>, typ: TypeId, q: Query)
    requires AnswerIndex(ks, typ, q).Some?
    ensures AnswerIndex(ks + more, typ, q).Some?
    ensures AnswerIndex(ks + more, typ, q) == AnswerIndex(ks, typ, q) <==>
            !exists i :: 0 <= i < |more| && Answers(more[i], typ, q)
                         && Specificity(more[i].matcher)
                            < Specificity(ks[AnswerIndex(ks, typ, q).value].matcher)
  {
    var j' := AnswerMoves(ks, more, typ, q);
    var s, s' := StableSort(Candidates(ks, typ, q)), StableSort(Candidates(ks + more, typ, q));
    var news := NewCandidates(ks, more, typ, q);
    var e := s[q.counter];
    SortedEntryAnswers(ks, typ, q, q.counter);
    SortedEntryAnswers(ks + more, typ, q, q.counter);
    SortedEntryAnswers(ks + more, typ, q, j');
    if j' != q.counter {
      assert s'[q.counter] != s'[j'];
      var f :| f in news && f.key < e.key;
      NewCandidatesAnswer(ks, more, typ, q, f);
      assert Answers(more[f.index - |ks|], typ, q);
    } else {
      forall i | 0 <= i < |more| && Answers(more[i], typ, q)
        ensures Specificity(more[i].matcher) >= e.key
      {
        var f := Entry(|ks| + i, Specificity(more[i].matcher));
        NewCandidatesAnswer(ks, more, typ, q, f);
        assert f in news;
      }
    }
  }

  lemma SortedEntryAnswers(ks: seq<Knowledge>, typ: TypeId, q: Query, i: nat)
    requires i < |StableSort(Candidates(ks, typ, q))|
    ensures var e := StableSort(Candidates(ks, typ, q))[i];
            e.index < |ks| && Answers(ks[e.index], typ, q) && e.key == Specificity(ks[e.index].matcher)
  {
    var s := StableSort(Candidates(ks, typ, q));
    StableSortIsStable(Candidates(ks, typ, q));
    assert s[i] in multiset(s);
    CandidatesAnswer(ks, typ, q, s[i]);
  }

  /** For every query that is not loose all possibilities tie, so its answer never changes. */
  lemma TightAnswersNeverChange(ks: seq<Knowledge>, more: seq<Knowledge>, typ: TypeId, q: Query)
    requires AnswerIndex(ks, typ, q).Some? && !Loose(q.matcher)
    ensures AnswerIndex(ks + more, typ, q) == AnswerIndex(ks, typ, q)
  {
    AnswerKeptIff(ks, more, typ, q);
    TightQueriesHaveOneLabel(q.matcher);
  }

  lemma {:induction false} AllCandidates(ks: seq<Knowledge>, typ: TypeId, q: Query)
    ensures |Candidates(ks, typ, q)| <= |ks|
    ensures (forall i :: 0 <= i < |ks| ==> Answers(ks[i], typ, q)) ==> |Candidates(ks, typ, q)| == |ks|
  {
    if ks != [] {
      AllCandidates(ks[..|ks| - 1], typ, q);
    }
  }

  /** Loose queries can lose their answer, whatever their counter: a later, less specific
      piece comes first. */
  lemma LooseAnswersCanChange(q: Query)
    requires Loose(q.matcher)
    ensures exists ks, more, typ :: AnswerIndex(ks, typ, q).Some? && !Kept(ks, more, typ, q)
  {
    var k0 := Knowledge(q.agent, Some(Handshake(Some(Named(1)))), Value(0, 0));
    var k1 := Knowledge(q.agent, Some(Handshake(None)), Value(0, 1));
    LessSpecificComesFirst(seq(q.counter + 1, _ => k0), k0, k1, 0, q);
  }

  lemma LessSpecificComesFirst(ks: seq<Knowledge>, k0: Knowledge, k1: Knowledge, typ: TypeId, q: Query)
    requires |ks| == q.counter + 1 && forall i :: 0 <= i < |ks| ==> ks[i] == k0
    requires Answers(k0, typ, q) && Answers(k1, typ, q) && Specificity(k1.matcher) < Specificity(k0.matcher)
    ensures AnswerIndex(ks, typ, q).Some? && !Kept(ks, [k1], typ, q)
  {
    AllCandidates(ks, typ, q);
    assert [k1][0] == k1;
    AnswerKeptIff(ks, [k1], typ, q);
  }

  /** The answer of a query outlives the arrival of more knowledge. */
  ghost predicate Kept(ks: seq<Knowledge>, more: seq<Knowledge>, typ: TypeId, q: Query) {
    AnswerIndex(ks + more, typ, q) == AnswerIndex(ks, typ, q)
  }

  /** The queries whose answers are final are exactly those that are not loose. */
  lemma AnswersFinalIff(q: Query)
    ensures !Loose(q.matcher) <==> forall ks, more, typ :: AnswerIndex(ks, typ, q).Some? ==> Kept(ks, more, typ, q)
  {
    if Loose(q.matcher) {
      LooseAnswersCanChange(q);
    } else {
      forall ks, more, typ | AnswerIndex(ks, typ, q).Some?
        ensures Kept(ks, more, typ, q)
      {
        TightAnswersNeverChange(ks, more, typ, q);
      }
    }
  }

  /** No piece of knowledge that answers the query is more specific than its answer. */
  ghost predicate MostSpecific(ks: seq<Knowledge>, typ: TypeId, q: Query)
    requires AnswerIndex(ks, typ, q).Some?
  {
    forall i :: 0 <= i < |ks| && Answers(ks[i], typ, q) ==>
                  Specificity(ks[i].matcher) <= Specificity(ks[AnswerIndex(ks, typ, q).value].matcher)
  }

  /** A more specific piece that arrives after enough others does not become the answer. */
  lemma MoreSpecificIsPassedOver(ks: seq<Knowledge>, k0: Knowledge, k1: Knowledge, typ: TypeId, q: Query)
    requires |ks| == q.counter + 1 && forall i :: 0 <= i < |ks| ==> ks[i] == k0
    requires Answers(k0, typ, q) && Answers(k1, typ, q) && Specificity(k0.matcher) < Specificity(k1.matcher)
    ensures AnswerIndex(ks + [k1], typ, q).Some? && !MostSpecific(ks + [k1], typ, q)
  {
    AllCandidates(ks, typ, q);
    AnswerKeptIff(ks, [k1], typ, q);
    var all := ks + [k1];
    assert all[|ks|] == k1 && all[AnswerIndex(ks, typ, q).value] == k0;
  }

  /** The comment on `find_variable` promises the highest specificity. The code keeps that
      promise exactly for the queries that are not loose, for which all answers tie. */
  lemma MostSpecificIff(q: Query)
    ensures !Loose(q.matcher) <==>
            forall ks, typ :: AnswerIndex(ks, typ, q).Some? ==> MostSpecific(ks, typ, q)
  {
    if Loose(q.matcher) {
      var k0 := Knowledge(q.agent, Some(Handshake(None)), Value(0, 0));
      var k1 := Knowledge(q.agent, Some(Handshake(Some(Named(1)))), Value(0, 1));
      var ks := seq(q.counter + 1, _ => k0);
      MoreSpecificIsPassedOver(ks, k0, k1, 0, q);
      var all := ks + [k1];
      assert !MostSpecific(all, 0, q);
    } else {
      TightQueriesHaveOneLabel(q.matcher);
    }
  }

  // ------------------------------------------------------------------ claims

  /** `find_last_claim`. */
  function FindLastClaim(cs: seq<Claim>, agent: AgentName, typ: TypeId): Option<Claim> {
    if cs == [] then None
    else
      var c := cs[|cs| - 1];
      if c.id == typ && c.agent == agent then Some(c) else FindLastClaim(cs[..|cs| - 1], agent, typ)
  }

  /** The claim found is the latest of its agent and type, and one is found if any exists. */
  lemma {:induction false} FindLastClaimIsLast(cs: seq<Claim>, agent: AgentName, typ: TypeId)
    ensures FindLastClaim(cs, agent, typ).None? <==> forall c :: c in cs ==> c.id != typ || c.agent != agent
    ensures FindLastClaim(cs, agent, typ).Some? ==>
              exists i :: 0 <= i < |cs| && cs[i] == FindLastClaim(cs, agent, typ).value
                          && cs[i].id == typ && cs[i].agent == agent
                          && forall j :: i < j < |cs| ==> cs[j].id != typ || cs[j].agent != agent
  {
    if cs != [] {
      var n := |cs| - 1;
      if cs[n].id == typ && cs[n].agent == agent {
      } else {
        FindLastClaimIsLast(cs[..n], agent, typ);
        assert forall c :: c in cs <==> c in cs[..n] || c == cs[n];
        if FindLastClaim(cs[..n], agent, typ).Some? {
          var i :| 0 <= i < n && cs[..n][i] == FindLastClaim(cs[..n], agent, typ).value
                   && cs[..n][i].id == typ && cs[..n][i].agent == agent
                   && forall j :: i < j < n ==> cs[..n][j].id != typ || cs[..n][j].agent != agent;
          assert cs[i] == cs[..n][i];
          assert forall j :: i < j < n ==> cs[j] == cs[..n][j];
        }
      }
    }
  }

  /** A later part of the claims takes precedence over an earlier one. */
  lemma {:induction false} FindLastClaimConcat(a: seq<Claim>, b: seq<Claim>, agent: AgentName, typ: TypeId)
    ensures FindLastClaim(a + b, agent, typ)
            == if FindLastClaim(b, agent, typ).Some? then FindLastClaim(b, agent, typ) else FindLastClaim(a, agent, typ)
  {
    if b == [] {
      assert a + b == a;
    } else {
      assert (a + b)[..|a + b| - 1] == a + b[..|b| - 1];
      FindLastClaimConcat(a, b[..|b| - 1], agent, typ);
    }
  }
}
