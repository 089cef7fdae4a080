/**
 * The solver's piece-order generator: a linear congruential generator over
 * a 32-bit unsigned state.
 */
module Lcg {

  type uint32 = x: int | 0 <= x < 0x1_0000_0000

  const Multiplier: uint32 := 1103515245
  const Increment: uint32 := 12345

  /** The value `next()` returns for state `s`: bits 16 to 30 of `s`. */
  function Output(s: uint32): (r: uint32)
    ensures r < 0x8000
  {
    (s / 0x1_0000) % 0x8000
  }

  /** `Multiplier * Inverse == 1 + 1029054899 * 0x1_0000_0000`: the inverse of `Multiplier` modulo 2^32. */
  const Inverse: uint32 := 4005161829

  /**
   * The state after `s`: `s * Multiplier + Increment` with unsigned 32-bit
   * wrap-around. No two states have the same successor: `Unstep` undoes it.
   */
  function Step(s: uint32): (r: uint32)
    ensures Unstep(r) == s
  {
    StepUndone(s);
    (s * Multiplier + Increment) % 0x1_0000_0000
  }

  /** The state before `s`: every 32-bit state has exactly one predecessor. */
  function Unstep(s: uint32): (r: uint32)
    ensures (r * Multiplier + Increment) % 0x1_0000_0000 == s
  {
    UnstepUndone(s);
    ((s - Increment) * Inverse) % 0x1_0000_0000
  }

  /** Adding a multiple of 2^32 to a 32-bit value does not change its remainder. */
  lemma ModShift(x: int, k: int)
    requires 0 <= x < 0x1_0000_0000
    ensures (x + k * 0x1_0000_0000) % 0x1_0000_0000 == x
  {
  }

  lemma StepUndone(s: uint32)
    ensures (((s * Multiplier + Increment) % 0x1_0000_0000 - Increment) * Inverse) % 0x1_0000_0000 == s
  {
    var t := s * 1103515245 + 12345;
    var q := t / 0x1_0000_0000;
    assert t == t % 0x1_0000_0000 + q * 0x1_0000_0000;
    assert (t % 0x1_0000_0000 - 12345) * 4005161829 == s + (s * 1029054899 - q * 4005161829) * 0x1_0000_0000;
    ModShift(s, s * 1029054899 - q * 4005161829);
  }

  lemma UnstepUndone(s: uint32)
    ensures ((((s - Increment) * Inverse) % 0x1_0000_0000) * Multiplier + Increment) % 0x1_0000_0000 == s
  {
    var t := (s - 12345) * 4005161829;
    var q := t / 0x1_0000_0000;
    assert t == t % 0x1_0000_0000 + q * 0x1_0000_0000;
    assert (t % 0x1_0000_0000) * 1103515245 + 12345 == s + ((s - 12345) * 1029054899 - q * 1103515245) * 0x1_0000_0000;
    ModShift(s, (s - 12345) * 1029054899 - q * 1103515245);
  }

  /** Two states with the same successor are the same state. */
  lemma StepInjective(a: uint32, b: uint32)
    requires Step(a) == Step(b)
    ensures a == b
  {
    assert Unstep(Step(a)) == a && Unstep(Step(b)) == b;
  }

  /** The values of `n` successive calls of `next()` from state `s`: `n` of them, each below 32768. */
  function Draws(s: uint32, n: nat): (r: seq<uint32>)
    ensures |r| == n
    ensures forall k :: 0 <= k < n ==> r[k] < 0x8000
    decreases n
  {
    if n == 0 then [] else [Output(s)] + Draws(Step(s), n - 1)
  }

  /** The state after `n` successive calls of `next()` from state `s`. */
  function Steps(s: uint32, n: nat): uint32
    decreases n
  {
    if n == 0 then s else Steps(Step(s), n - 1)
  }

  /**
   * Drawing `a + b` values is drawing `a` values and then `b` more from the
   * state reached: the sequence depends on nothing but the current state.
   */
  lemma {:induction false} DrawsSplit(s: uint32, a: nat, b: nat)
    ensures Draws(s, a + b) == Draws(s, a) + Draws(Steps(s, a), b)
    ensures Steps(s, a + b) == Steps(Steps(s, a), b)
    decreases a
  {
    if a > 0 {
      DrawsSplit(Step(s), a - 1, b);
      assert Draws(s, a + b) == [Output(s)] + Draws(Step(s), (a - 1) + b);
      assert Steps(s, a + b) == Steps(Step(s), (a - 1) + b);
    }
  }

  /** A run of states linked by `Step` yields their outputs as its draws. */
  lemma {:induction false} DrawsFollowStates(states: seq<uint32>, outs: seq<uint32>)
    requires |states| == |outs| > 0
    requires forall k :: 0 <= k < |states| - 1 ==> (states[k] * Multiplier + Increment) % 0x1_0000_0000 == states[k + 1]
    requires forall k :: 0 <= k < |states| ==> Output(states[k]) == outs[k]
    ensures Draws(states[0], |outs|) == outs
    decreases |outs|
  {
    if |outs| > 1 {
      DrawsFollowStates(states[1..], outs[1..]);
    }
  }

  /** The states reached by the first nine calls of `next()` from seed 17. */
  lemma StatesFromSeventeen()
    ensures (17 * Multiplier + Increment) % 0x1_0000_0000 == 1579902326
      && (1579902326 * Multiplier + Increment) % 0x1_0000_0000 == 3232257911
      && (3232257911 * Multiplier + Increment) % 0x1_0000_0000 == 794669028
      && (794669028 * Multiplier + Increment) % 0x1_0000_0000 == 2765327437
      && (2765327437 * Multiplier + Increment) % 0x1_0000_0000 == 3009438466
      && (3009438466 * Multiplier + Increment) % 0x1_0000_0000 == 3552637971
      && (3552637971 * Multiplier + Increment) % 0x1_0000_0000 == 2369250896
      && (2369250896 * Multiplier + Increment) % 0x1_0000_0000 == 2597953609
      && (2597953609 * Multiplier + Increment) % 0x1_0000_0000 == 3203771726
  {
  }

  /** The numbers drawn in those states. */
  lemma OutputsFromSeventeen()
    ensures Output(17) == 0
      && Output(1579902326) == 24107
      && Output(3232257911) == 16552
      && Output(794669028) == 12125
      && Output(2765327437) == 9427
      && Output(3009438466) == 13152
      && Output(3552637971) == 21440
      && Output(2369250896) == 3383
      && Output(2597953609) == 6873
      && Output(3203771726) == 16117
  {
  }

  /** The first ten draws from seed 17. */
  lemma SeedSeventeen()
    ensures Draws(17, 10) == [0, 24107, 16552, 12125, 9427, 13152, 21440, 3383, 6873, 16117]
  {
    var states: seq<uint32> := [17, 1579902326, 3232257911, 794669028, 2765327437, 3009438466, 3552637971, 2369250896, 2597953609, 3203771726];
    var outs: seq<uint32> := [0, 24107, 16552, 12125, 9427, 13152, 21440, 3383, 6873, 16117];
    StatesFromSeventeen();
    OutputsFromSeventeen();
    DrawsFollowStates(states, outs);
  }

  class Random {
    var seed: uint32

    constructor (seed: uint32)
      ensures this.seed == seed
    {
      this.seed := seed;
    }

    /** Return bits 16 to 30 of the current state, then advance the state. */
    method Next() returns (ans: uint32)
      modifies this
      ensures ans == Output(old(seed)) && ans < 0x8000
      ensures seed == Step(old(seed))
    {
      ans := (seed / 0x1_0000) % 0x8000;
      seed := (seed * Multiplier + Increment) % 0x1_0000_0000;
    }
  }
}
