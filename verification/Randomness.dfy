/**
 The random source. Every draw is recorded, so that what a method does can be stated
 as a function of the draws it made; `raw` is arbitrary, so every tape occurs.
 */
module Randomness {
  /** Draw number `pos` below `bound`: what `raw` offers, if it is in range. */
  function Draw(raw: nat -> nat, pos: nat, bound: nat): (r: nat)
    requires bound > 0
    ensures r < bound
  {
    if raw(pos) < bound then raw(pos) else 0
  }

  /** From draw number `pos` on, `raw` offers the values of `tape`. */
  ghost predicate Reads(raw: nat -> nat, pos: nat, tape: seq<nat>) {
    forall i :: 0 <= i < |tape| ==> raw(pos + i) == tape[i]
  }

  lemma ReadsSplit(raw: nat -> nat, pos: nat, a: seq<nat>, b: seq<nat>)
    requires Reads(raw, pos, a + b)
    ensures Reads(raw, pos, a) && Reads(raw, pos + |a|, b)
  {
    assert forall i :: 0 <= i < |a| ==> a[i] == (a + b)[i];
    forall i | 0 <= i < |b|
      ensures raw(pos + |a| + i) == b[i]
    {
      assert (a + b)[|a| + i] == b[i];
    }
  }

  /** A random source that offers `tape` from draw number `pos` on. */
  ghost function Offering(tape: seq<nat>, pos: nat): (raw: nat -> nat)
    ensures Reads(raw, pos, tape)
  {
    i => if pos <= i < pos + |tape| then tape[i - pos] else 0
  }

  class Rand {
    const raw: nat -> nat
    var drawn: seq<nat>

    constructor (raw: nat -> nat)
      ensures this.raw == raw && drawn == []
    {
      this.raw := raw;
      drawn := [];
    }

    method Between(lower: nat, upper: nat) returns (r: nat)
      requires lower <= upper
      modifies this
      ensures lower <= r <= upper
      ensures drawn == old(drawn) + [r]
      ensures r == lower + Draw(raw, |old(drawn)|, upper - lower + 1)
    {
      r := lower + Draw(raw, |drawn|, upper - lower + 1);
      drawn := drawn + [r];
    }

    method Below(bound: nat) returns (r: nat)
      requires bound > 0
      modifies this
      ensures r < bound
      ensures drawn == old(drawn) + [r]
      ensures r == Draw(raw, |old(drawn)|, bound)
    {
      r := Between(0, bound - 1);
    }
  }

  /** `Choosable::choose` on a list. */
  method Choose<T>(items: seq<T>, rand: Rand) returns (r: nat)
    requires items != []
    modifies rand
    ensures r < |items|
    ensures rand.drawn == old(rand.drawn) + [r]
    ensures r == Draw(rand.raw, |old(rand.drawn)|, |items|)
  {
    r := rand.Below(|items|);
  }
}
