/**
 * `generateSource`: the order in which the units are dealt, drawn without
 * replacement with `next() % count` from a copy of the unit list.
 */
module Source {
  import opened Lcg

  /** The list without its element at `index`, as `List.RemoveAt`. */
  function RemoveAt<T>(s: seq<T>, index: nat): (r: seq<T>)
    requires index < |s|
    ensures |r| == |s| - 1
    ensures multiset(r) + multiset{s[index]} == multiset(s)
  {
    assert s == s[..index] + [s[index]] + s[index + 1..];
    s[..index] + s[index + 1..]
  }

  /**
   * The dealt order and the final generator state for `units` and state
   * `seed`: every unit is dealt exactly once and exactly one number is drawn
   * per unit.
   */
  function Deal<T>(units: seq<T>, seed: uint32): (r: (seq<T>, uint32))
    ensures |r.0| == |units|
    ensures multiset(r.0) == multiset(units)
    ensures r.1 == Steps(seed, |units|)
    decreases |units|
  {
    if units == [] then ([], seed)
    else
      var index := Output(seed) % |units|;
      var rest := Deal(RemoveAt(units, index), Step(seed));
      assert multiset([units[index]] + rest.0) == multiset{units[index]} + multiset(rest.0);
      ([units[index]] + rest.0, rest.1)
  }

  /** The first unit dealt is the one the first draw selects. */
  lemma DealFirst<T>(units: seq<T>, seed: uint32)
    requires units != []
    ensures Deal(units, seed).0[0] == units[Draws(seed, |units|)[0] % |units|]
  {
  }

  /** Every unit of the input is dealt, and nothing else is. */
  lemma DealMembers<T>(units: seq<T>, seed: uint32, u: T)
    ensures u in Deal(units, seed).0 <==> u in units
  {
    assert u in multiset(Deal(units, seed).0) <==> u in multiset(units);
  }

  /** One draw of the deal: the selected unit, then the deal of the others. */
  lemma DealStep<T>(dealt: seq<T>, units: seq<T>, seed: uint32)
    requires units != []
    ensures var index := Output(seed) % |units|;
      var rest := Deal(RemoveAt(units, index), Step(seed));
      && dealt + [units[index]] + rest.0 == dealt + Deal(units, seed).0
      && rest.1 == Deal(units, seed).1
  {
    var index := Output(seed) % |units|;
    var rest := Deal(RemoveAt(units, index), Step(seed));
    assert dealt + [units[index]] + rest.0 == dealt + ([units[index]] + rest.0);
  }

  /**
   * `generateSource`: deal `units` in the order given by `rand`, leaving
   * the caller's list as it was (sequences are values).
   */
  method GenerateSource<T>(units: seq<T>, rand: Random) returns (ans: seq<T>)
    modifies rand
    ensures ans == Deal(units, old(rand.seed)).0
    ensures rand.seed == Deal(units, old(rand.seed)).1
  {
    var work := units;
    ans := [];
    while |work| > 0
      invariant ans + Deal(work, rand.seed).0 == Deal(units, old(rand.seed)).0
      invariant Deal(work, rand.seed).1 == Deal(units, old(rand.seed)).1
      decreases |work|
    {
      DealStep(ans, work, rand.seed);
      var n := rand.Next();
      var index := n % |work|;
      ans := ans + [work[index]];
      work := RemoveAt(work, index);
    }
  }
}
