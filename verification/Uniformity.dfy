/** Reservoir sampling is exactly uniform: a count of tapes. */
module Uniformity {
  import opened Wrappers
  import opened Traces
  import opened Sampling

  function Factorial(n: nat): nat {
    if n == 0 then 1 else n * Factorial(n - 1)
  }

  /** Every sequence of `s` followed by every draw from `lo` to `hi`. */
  ghost function Extend(s: set<seq<nat>>, lo: nat, hi: nat): (r: set<seq<nat>>)
    ensures forall x :: x in r <==> Extends(s, lo, hi, x)
  {
    var r := set t, d | t in s && lo <= d <= hi :: t + [d];
    assert forall x :: x in r <==> Extends(s, lo, hi, x) by {
      forall x
        ensures x in r <==> Extends(s, lo, hi, x)
      {
        if x in r {
          var t, d :| t in s && lo <= d <= hi && x == t + [d];
          assert x[..|x| - 1] == t;
        }
        if Extends(s, lo, hi, x) {
          var t, d := x[..|x| - 1], x[|x| - 1];
          assert x == t + [d];
        }
      }
    }
    r
  }

  ghost predicate Extends(s: set<seq<nat>>, lo: nat, hi: nat, x: seq<nat>) {
    |x| > 0 && x[..|x| - 1] in s && lo <= x[|x| - 1] <= hi
  }

  /** All tapes the sampler can be given for `n` eligible positions. */
  ghost function Tapes(n: nat): set<seq<nat>> {
    if n <= 1 then {[]} else Extend(Tapes(n - 1), 1, n)
  }

  /** The tapes that leave position `k` in the reservoir. */
  ghost function TapesPicking(n: nat, k: nat): set<seq<nat>>
    requires n >= 1
  {
    set t | t in Tapes(n) && |t| == n - 1 && Picked(t, n) == k
  }

  lemma {:induction false} ExtendByOneSize(s: set<seq<nat>>, d: nat)
    ensures |Extend(s, d, d)| == |s|
  {
    if s == {} {
      assert Extend(s, d, d) == {};
    } else {
      var t :| t in s;
      var s', e := s - {t}, t + [d];
      ExtendByOneSize(s', d);
      assert e[..|e| - 1] == t;
      forall x
        ensures x in Extend(s, d, d) <==> x in Extend(s', d, d) || x == e
      {
        if Extends(s, d, d, x) {
          assert x == x[..|x| - 1] + [d];
        }
      }
      assert Extend(s, d, d) == Extend(s', d, d) + {e};
      assert e !in Extend(s', d, d);
    }
  }

  lemma ExtendSplit(s: set<seq<nat>>, lo: nat, hi: nat)
    requires lo < hi
    ensures |Extend(s, lo, hi)| == |Extend(s, lo, hi - 1)| + |Extend(s, hi, hi)|
  {
    var a, b := Extend(s, lo, hi - 1), Extend(s, hi, hi);
    assert Extend(s, lo, hi) == a + b;
    assert a !! b;
  }

  lemma {:induction false} ExtendSize(s: set<seq<nat>>, lo: nat, n: nat)
    requires n >= 1
    ensures |Extend(s, lo, lo + n - 1)| == n * |s|
  {
    if n == 1 {
      ExtendByOneSize(s, lo);
    } else {
      ExtendSize(s, lo, n - 1);
      ExtendSplit(s, lo, lo + n - 1);
      ExtendByOneSize(s, lo + n - 1);
    }
  }

  /** The set of tapes is the set of sequences of admissible draws. */
  lemma {:induction false} TapesExact(n: nat, t: seq<nat>)
    requires n >= 1
    ensures t in Tapes(n) <==> IsTape(t, n)
  {
    if n > 1 && |t| > 0 {
      var u := t[..|t| - 1];
      TapesExact(n - 1, u);
      assert t == u + [t[|t| - 1]];
    }
  }

  /** How the picking tapes for `n` positions come from those for `n - 1`. */
  lemma {:induction false} PickingSplit(n: nat, k: nat)
    requires n >= 2 && k < n
    ensures k == n - 1 ==> TapesPicking(n, k) == Extend(Tapes(n - 1), 1, 1)
    ensures k < n - 1 ==> TapesPicking(n, k) == Extend(TapesPicking(n - 1, k), 2, n)
  {
    forall t
      ensures t in TapesPicking(n, k) <==>
              if k == n - 1 then Extends(Tapes(n - 1), 1, 1, t) else Extends(TapesPicking(n - 1, k), 2, n, t)
    {
      PickingSplitAt(n, k, t);
    }
  }

  lemma PickingSplitAt(n: nat, k: nat, t: seq<nat>)
    requires n >= 2 && k < n
    ensures t in TapesPicking(n, k) <==>
            if k == n - 1 then Extends(Tapes(n - 1), 1, 1, t) else Extends(TapesPicking(n - 1, k), 2, n, t)
  {
    TapesExact(n, t);
    if |t| > 0 {
      TapesExact(n - 1, t[..|t| - 1]);
    }
  }

  lemma {:induction false} CountTapes(n: nat)
    requires n >= 1
    ensures |Tapes(n)| == Factorial(n)
  {
    if n > 1 {
      CountTapes(n - 1);
      ExtendSize(Tapes(n - 1), 1, n);
    }
  }

  lemma CountPickingStep(m: nat, k: nat)
    requires k < m && |TapesPicking(m, k)| == Factorial(m - 1)
    ensures |TapesPicking(m + 1, k)| == Factorial(m)
  {
    PickingSplit(m + 1, k);
    ExtendSize(TapesPicking(m, k), 2, m);
    assert m * |TapesPicking(m, k)| == m * Factorial(m - 1);
  }

  lemma CountPickingLast(m: nat)
    requires m >= 1
    ensures |TapesPicking(m + 1, m)| == Factorial(m)
  {
    PickingSplit(m + 1, m);
    CountTapes(m);
    ExtendByOneSize(Tapes(m), 1);
  }

  lemma {:induction false} CountPicking(m: nat, k: nat)
    requires k <= m
    ensures |TapesPicking(m + 1, k)| == Factorial(m)
  {
    if m == 0 {
      assert TapesPicking(1, 0) == {[]};
    } else if k == m {
      CountPickingLast(m);
    } else {
      CountPicking(m - 1, k);
      CountPickingStep(m, k);
    }
  }

  /** Of the n! tapes, each of the n positions is picked by exactly (n - 1)!. */
  lemma ReservoirIsUniform(n: nat, k: nat)
    requires k < n
    ensures |TapesPicking(n, k)| == Factorial(n - 1)
    ensures |Tapes(n)| == Factorial(n)
    ensures forall t :: t in Tapes(n) <==> IsTape(t, n)
  {
    CountTapes(n);
    CountPicking(n - 1, k);
    forall t
      ensures t in Tapes(n) <==> IsTape(t, n)
    {
      TapesExact(n, t);
    }
  }

  /** The tapes with which the sampler returns `p`. */
  ghost function TapesSampling(ps: seq<Position>, p: Position): set<seq<nat>>
    requires ps != []
  {
    set t | t in Tapes(|ps|) && |t| == |ps| - 1 && Reservoir(ps, t) == Some(p)
  }

  lemma SamplingIsPicking(ps: seq<Position>, k: nat)
    requires k < |ps| && DistinctPlaces(ps)
    ensures TapesSampling(ps, ps[k]) == TapesPicking(|ps|, k)
  {
    forall t | |t| == |ps| - 1
      ensures Reservoir(ps, t) == Some(ps[k]) <==> Picked(t, |ps|) == k
    {
      var i := Picked(t, |ps|);
      assert i < k ==> ps[i].at != ps[k].at;
      assert k < i ==> ps[k].at != ps[i].at;
    }
  }

  /** So every eligible place of a trace is sampled by the same number of tapes. */
  lemma EveryPlaceEquallyLikely(steps: seq<Step>, f: Filter, c: TermConstraints, p: Position)
    requires p in Eligible(steps, f, c)
    ensures var n := |Eligible(steps, f, c)|;
            |Tapes(n)| == Factorial(n) && |TapesSampling(Eligible(steps, f, c), p)| == Factorial(n - 1)
  {
    var ps := Eligible(steps, f, c);
    var k :| 0 <= k < |ps| && ps[k] == p;
    EligibleExact(steps, f, c, p);
    SamplingIsPicking(ps, k);
    CountTapes(|ps|);
    CountPicking(|ps| - 1, k);
  }
}
