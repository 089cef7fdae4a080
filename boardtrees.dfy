/**
 * The search tree of boards, held as an arena: node `i` has an optional
 * parent, an optional list of children (absent until the node is expanded),
 * a mark used by pruning, the score of its board and the path of its edge.
 * A node is always created after its parent, so parents have smaller ids
 * than their children.
 */
module BoardTrees {
  import opened Wrappers

  /** What a successful `generatePath` yields: the new board's score and the edge's moves. */
  datatype Candidate = Candidate(score: int, path: string)

  /** Every parent id is smaller than the child's id. */
  predicate ParentsOrdered(parent: seq<Option<nat>>)
  {
    forall i :: 0 <= i < |parent| && parent[i].Some? ==> parent[i].value < i
  }

  /** Every child id is larger than its parent's id and inside the arena. */
  predicate ChildrenOrdered(children: seq<Option<seq<nat>>>)
  {
    forall i, c :: 0 <= i < |children| && children[i].Some? && c in children[i].value ==> i < c < |children|
  }

  /** A node listed as a child has that node as its parent. */
  predicate ParentsAgree(parent: seq<Option<nat>>, children: seq<Option<seq<nat>>>)
    requires |parent| == |children| && ChildrenOrdered(children)
  {
    forall i, c :: 0 <= i < |children| && children[i].Some? && c in children[i].value ==> parent[c] == Some(i)
  }

  predicate WellFormed(parent: seq<Option<nat>>, children: seq<Option<seq<nat>>>)
  {
    |parent| == |children| && ParentsOrdered(parent) && ChildrenOrdered(children) && ParentsAgree(parent, children)
  }

  /**
   * `walk`: the nodes `fn` is applied to, in order. A node without a
   * children list is skipped together with everything below it; otherwise
   * the node comes first, then the walk of each child in turn.
   */
  function Walk(children: seq<Option<seq<nat>>>, i: nat): (r: seq<nat>)
    requires ChildrenOrdered(children) && i < |children|
    ensures forall j :: j in r ==> i <= j < |children| && children[j].Some?
    decreases |children| - i, 1
  {
    match children[i]
    case None => []
    case Some(cs) => [i] + WalkEach(children, cs, i)
  }

  /** The walks of the children `cs` of node `p`, one after the other. */
  function WalkEach(children: seq<Option<seq<nat>>>, cs: seq<nat>, p: nat): (r: seq<nat>)
    requires ChildrenOrdered(children) && p < |children|
    requires forall c :: c in cs ==> p < c < |children|
    ensures forall j :: j in r ==> p < j < |children| && children[j].Some?
    decreases |children| - p, 0, |cs|
  {
    if cs == [] then []
    else
      assert cs[0] in cs;
      assert forall c :: c in cs[1..] ==> c in cs;
      Walk(children, cs[0]) + WalkEach(children, cs[1..], p)
  }

  /** `walkFromRoot`: the ancestors of `j`, outermost first, then `j` itself. */
  function WalkFromRoot(parent: seq<Option<nat>>, j: nat): (r: seq<nat>)
    requires ParentsOrdered(parent) && j < |parent|
    ensures r != [] && r[|r| - 1] == j
    ensures forall k :: 0 <= k < |r| ==> r[k] <= j
    ensures forall m :: m in r ==> m <= j
    ensures parent[r[0]] == None
    ensures forall k :: 0 <= k < |r| - 1 ==> parent[r[k + 1]] == Some(r[k])
    decreases j
  {
    match parent[j]
    case None => [j]
    case Some(p) => WalkFromRoot(parent, p) + [j]
  }

  /** `CompareTo`: `other.score - this.score` in 32-bit two's-complement arithmetic. */
  function CompareScores(thisScore: int, otherScore: int): (r: int)
    ensures -0x8000_0000 <= r < 0x8000_0000
    ensures (r - (otherScore - thisScore)) % 0x1_0000_0000 == 0
  {
    (otherScore - thisScore + 0x8000_0000) % 0x1_0000_0000 - 0x8000_0000
  }

  /**
   * While the difference of the scores fits in 32 bits, a node sorts before
   * another exactly when its score is higher.
   */
  lemma CompareScoresOrdersDescending(thisScore: int, otherScore: int)
    requires -0x8000_0000 < otherScore - thisScore < 0x8000_0000
    ensures CompareScores(thisScore, otherScore) < 0 <==> thisScore > otherScore
    ensures CompareScores(thisScore, otherScore) == 0 <==> thisScore == otherScore
    ensures CompareScores(thisScore, otherScore) == -CompareScores(otherScore, thisScore)
  {
  }

  /** Beyond that range the subtraction wraps: here the lower score sorts first. */
  lemma CompareScoresWraps()
    ensures CompareScores(-0x8000_0000, 1) < 0
  {
  }

  /** Ids ordered by non-increasing score. */
  predicate SortedByScore(score: seq<int>, s: seq<nat>)
  {
    forall a, b :: 0 <= a < b < |s| && s[a] < |score| && s[b] < |score| ==> score[s[a]] >= score[s[b]]
  }

  /** A head scoring at least as high as everything after it keeps the order. */
  lemma PrependSorted(score: seq<int>, h: nat, s: seq<nat>)
    requires h < |score| && forall k :: 0 <= k < |s| ==> s[k] < |score|
    requires SortedByScore(score, s)
    requires forall k :: 0 <= k < |s| ==> score[h] >= score[s[k]]
    ensures SortedByScore(score, [h] + s)
  {
    var r := [h] + s;
    forall a, b | 0 <= a < b < |r| ensures score[r[a]] >= score[r[b]] {
      if a == 0 {
        assert r[b] == s[b - 1];
      } else {
        assert r[a] == s[a - 1] && r[b] == s[b - 1];
      }
    }
  }

  /** The head of a sorted list outscores the rest of it with a lower-scoring `x` added. */
  lemma HeadDominates(score: seq<int>, x: nat, s: seq<nat>, rest: seq<nat>)
    requires x < |score| && forall k :: 0 <= k < |s| ==> s[k] < |score|
    requires s != [] && SortedByScore(score, s) && score[x] < score[s[0]]
    requires forall k :: 0 <= k < |rest| ==> rest[k] < |score|
    requires multiset(rest) == multiset(s[1..]) + multiset{x}
    ensures forall k :: 0 <= k < |rest| ==> score[s[0]] >= score[rest[k]]
  {
    var tail := s[1..];
    forall k | 0 <= k < |rest| ensures score[s[0]] >= score[rest[k]] {
      assert rest[k] in multiset(rest);
      if rest[k] != x {
        assert rest[k] in multiset(tail);
        var m :| 0 <= m < |tail| && tail[m] == rest[k];
        assert s[m + 1] == rest[k];
      }
    }
  }

  function Insert(score: seq<int>, x: nat, s: seq<nat>): (r: seq<nat>)
    requires x < |score| && forall k :: 0 <= k < |s| ==> s[k] < |score|
    requires SortedByScore(score, s)
    ensures multiset(r) == multiset(s) + multiset{x}
    ensures forall k :: 0 <= k < |r| ==> r[k] < |score|
    ensures SortedByScore(score, r)
    decreases |s|
  {
    if s == [] || score[x] >= score[s[0]] then
      PrependSorted(score, x, s);
      [x] + s
    else
      var rest := Insert(score, x, s[1..]);
      HeadDominates(score, x, s, rest);
      PrependSorted(score, s[0], rest);
      assert s == [s[0]] + s[1..];
      assert multiset(s) == multiset{s[0]} + multiset(s[1..]);
      [s[0]] + rest
  }

  /** `List.Sort` with `CompareTo`: a permutation of `s` by non-increasing score. */
  function SortByScore(score: seq<int>, s: seq<nat>): (r: seq<nat>)
    requires forall x :: x in s ==> x < |score|
    ensures multiset(r) == multiset(s)
    ensures forall k :: 0 <= k < |r| ==> r[k] < |score|
    ensures SortedByScore(score, r)
    decreases |s|
  {
    if s == [] then []
    else
      assert s[0] in s && forall x :: x in s[1..] ==> x in s;
      var sorted := SortByScore(score, s[1..]);
      assert s == [s[0]] + s[1..];
      assert multiset(s) == multiset(s[1..]) + multiset{s[0]};
      Insert(score, s[0], sorted)
  }

  /** `Take(n)`: the first `n` elements, all of them if there are fewer, none if `n <= 0`. */
  function Take(s: seq<nat>, n: int): (r: seq<nat>)
    ensures |r| == if n <= 0 then 0 else if n < |s| then n else |s|
    ensures r <= s
  {
    if n <= 0 then [] else if n < |s| then s[..n] else s
  }

  /** `children.Where(child => !child.mark)`: the unmarked children, in order. */
  function Unmarked(cs: seq<nat>, mark: seq<bool>): (r: seq<nat>)
    requires forall c :: c in cs ==> c < |mark|
    ensures forall c :: c in r <==> c in cs && !mark[c]
    decreases |cs|
  {
    if cs == [] then []
    else
      assert cs[0] in cs && forall c :: c in cs[1..] ==> c in cs;
      (if mark[cs[0]] then [] else [cs[0]]) + Unmarked(cs[1..], mark)
  }

  /** The nodes `walkFromRoot` visits for each of `ts`. */
  function Lineages(parent: seq<Option<nat>>, ts: seq<nat>): (r: set<nat>)
    requires ParentsOrdered(parent) && forall k :: 0 <= k < |ts| ==> ts[k] < |parent|
    ensures forall k, m :: 0 <= k < |ts| && m in WalkFromRoot(parent, ts[k]) ==> m in r
    decreases |ts|
  {
    if ts == [] then {}
    else
      var line := WalkFromRoot(parent, ts[|ts| - 1]);
      Lineages(parent, ts[..|ts| - 1]) + (set k | 0 <= k < |line| :: line[k])
  }

  /** A node is in `Lineages` exactly when it is on the lineage of one of `ts`. */
  lemma {:induction false} LineagesExactly(parent: seq<Option<nat>>, ts: seq<nat>, m: nat)
    requires ParentsOrdered(parent) && forall k :: 0 <= k < |ts| ==> ts[k] < |parent|
    ensures m in Lineages(parent, ts) <==> exists k :: 0 <= k < |ts| && m in WalkFromRoot(parent, ts[k])
    decreases |ts|
  {
    if ts != [] {
      var front := ts[..|ts| - 1];
      var line := WalkFromRoot(parent, ts[|ts| - 1]);
      LineagesExactly(parent, front, m);
      if m in Lineages(parent, ts) && m !in line {
        var k :| 0 <= k < |front| && m in WalkFromRoot(parent, front[k]);
        assert ts[k] == front[k];
      }
    }
  }

  /** `walk` applies `fn` to nothing at all below a node whose children list is absent. */
  lemma WalkUnexpanded(children: seq<Option<seq<nat>>>, i: nat)
    requires ChildrenOrdered(children) && i < |children| && children[i].None?
    ensures Walk(children, i) == []
  {
  }

  /** A node is in the walk of its children's list exactly when it is in the walk of one child. */
  lemma {:induction false} WalkEachMember(children: seq<Option<seq<nat>>>, cs: seq<nat>, p: nat, j: nat)
    requires ChildrenOrdered(children) && p < |children|
    requires forall c :: c in cs ==> p < c < |children|
    ensures j in WalkEach(children, cs, p) <==> exists c :: c in cs && j in Walk(children, c)
    decreases |cs|
  {
    if cs != [] {
      var tail := cs[1..];
      assert forall c :: c in tail ==> c in cs;
      assert cs[0] in cs;
      WalkEachMember(children, tail, p, j);
      assert WalkEach(children, cs, p) == Walk(children, cs[0]) + WalkEach(children, tail, p);
      if j in WalkEach(children, cs, p) {
        if j !in Walk(children, cs[0]) {
          var c :| c in tail && j in Walk(children, c);
          assert c in cs;
        }
      }
      if exists c :: c in cs && j in Walk(children, c) {
        var c :| c in cs && j in Walk(children, c);
        if c != cs[0] {
          assert c in tail;
        }
      }
    }
  }

  /** The walk of a listed child lies inside the walk of the parent. */
  lemma WalkOfChild(children: seq<Option<seq<nat>>>, i: nat, c: nat)
    requires ChildrenOrdered(children) && i < |children| && children[i].Some? && c in children[i].value
    ensures forall j :: j in Walk(children, c) ==> j in Walk(children, i)
  {
    forall j | j in Walk(children, c) ensures j in Walk(children, i) {
      WalkEachMember(children, children[i].value, i, j);
    }
  }

  /** A listed parent of a node on a lineage is itself on that lineage. */
  lemma {:induction false} LineageParent(parent: seq<Option<nat>>, j: nat, m: nat, q: nat)
    requires ParentsOrdered(parent) && j < |parent|
    requires m in WalkFromRoot(parent, j) && parent[m] == Some(q)
    ensures q in WalkFromRoot(parent, j)
    decreases j
  {
    if m != j {
      LineageParent(parent, parent[j].value, m, q);
    }
  }

  /** The lineage of a node on the lineage of `j` is part of the lineage of `j`. */
  lemma {:induction false} LineageTransitive(parent: seq<Option<nat>>, j: nat, k: nat, m: nat)
    requires ParentsOrdered(parent) && j < |parent|
    requires k in WalkFromRoot(parent, j) && m in WalkFromRoot(parent, k)
    ensures m in WalkFromRoot(parent, j)
    decreases j
  {
    if k != j {
      LineageTransitive(parent, parent[j].value, k, m);
    }
  }

  /** On one lineage, every node no deeper than `m` is on the lineage of `m`. */
  lemma {:induction false} LineageBelow(parent: seq<Option<nat>>, j: nat, m: nat, k: nat)
    requires ParentsOrdered(parent) && j < |parent|
    requires m in WalkFromRoot(parent, j) && k in WalkFromRoot(parent, j) && k <= m
    ensures k in WalkFromRoot(parent, m)
    decreases j
  {
    if m != j {
      LineageBelow(parent, parent[j].value, m, k);
    }
  }

  /** Every node the walk from `i` reaches has `i` on its lineage. */
  lemma {:induction false} WalkReachesBack(parent: seq<Option<nat>>, children: seq<Option<seq<nat>>>, i: nat, j: nat)
    requires WellFormed(parent, children) && i < |children|
    requires j in Walk(children, i)
    ensures i in WalkFromRoot(parent, j)
    decreases |children| - i
  {
    if j != i {
      var cs := children[i].value;
      WalkEachMember(children, cs, i, j);
      var c :| c in cs && j in Walk(children, c);
      WalkReachesBack(parent, children, c, j);
      LineageParent(parent, j, c, i);
    }
  }

  /** Every node on the lineage of a walked node, from `i` down, is walked too. */
  lemma {:induction false} WalkClosedUpward(parent: seq<Option<nat>>, children: seq<Option<seq<nat>>>, i: nat, j: nat, k: nat)
    requires WellFormed(parent, children) && i < |children|
    requires j in Walk(children, i) && k in WalkFromRoot(parent, j) && k >= i
    ensures k in Walk(children, i)
    decreases |children| - i
  {
    var cs := children[i].value;
    assert Walk(children, i) == [i] + WalkEach(children, cs, i);
    if j == i {
      assert k <= i;
    } else {
      assert j in WalkEach(children, cs, i);
      WalkEachMember(children, cs, i, j);
      var c :| c in cs && j in Walk(children, c);
      WalkOfChild(children, i, c);
      if k >= c {
        WalkClosedUpward(parent, children, c, j, k);
      } else {
        WalkReachesBack(parent, children, c, j);
        LineageBelow(parent, j, c, k);
        assert parent[c] == Some(i);
        assert WalkFromRoot(parent, c) == WalkFromRoot(parent, i) + [c];
        assert k in WalkFromRoot(parent, i);
        assert k == i;
      }
    }
  }

  /**
   * Filtering the children lists of the walked nodes by `mark` keeps in the
   * walk every walked node whose lineage from `i` down is unmarked.
   */
  lemma {:induction false} UnmarkedLineageSurvives(parent: seq<Option<nat>>, children: seq<Option<seq<nat>>>,
                                                   filtered: seq<Option<seq<nat>>>, mark: seq<bool>, i: nat, j: nat)
    requires WellFormed(parent, children) && ChildrenOrdered(filtered)
    requires |filtered| == |children| == |mark| && i < |children|
    requires forall k :: k in Walk(children, i) ==> filtered[k] == Some(Unmarked(children[k].value, mark))
    requires j in Walk(children, i)
    requires forall k :: k in WalkFromRoot(parent, j) && k >= i ==> !mark[k]
    ensures j in Walk(filtered, i)
    decreases |children| - i
  {
    if j != i {
      var cs := children[i].value;
      WalkEachMember(children, cs, i, j);
      var c :| c in cs && j in Walk(children, c);
      WalkReachesBack(parent, children, c, j);
      assert c in filtered[i].value;
      WalkOfChild(children, i, c);
      UnmarkedLineageSurvives(parent, children, filtered, mark, c, j);
      WalkOfChild(filtered, i, c);
    }
  }

  /**
   * After `prune`: every node on the lineage of a kept node, from the node
   * pruned at down, is still walked from there.
   */
  lemma PruneKeepsLineages(parent: seq<Option<nat>>, children: seq<Option<seq<nat>>>,
                           filtered: seq<Option<seq<nat>>>, mark: seq<bool>, top: seq<nat>, root: nat)
    requires WellFormed(parent, children) && ChildrenOrdered(filtered)
    requires |filtered| == |children| == |mark| && root < |children|
    requires forall k :: k in Walk(children, root) ==> filtered[k] == Some(Unmarked(children[k].value, mark))
    requires forall t :: t in top ==> t in Walk(children, root)
    requires forall t, m :: t in top && m in WalkFromRoot(parent, t) ==> !mark[m]
    ensures forall t, k :: t in top && k in WalkFromRoot(parent, t) && k >= root ==> k in Walk(filtered, root)
  {
    forall t, k | t in top && k in WalkFromRoot(parent, t) && k >= root ensures k in Walk(filtered, root) {
      WalkClosedUpward(parent, children, root, t, k);
      forall m | m in WalkFromRoot(parent, k) ensures !mark[m] {
        LineageTransitive(parent, t, k, m);
      }
      UnmarkedLineageSurvives(parent, children, filtered, mark, root, k);
    }
  }

  /** Filtering twice by the same marks is filtering once. */
  lemma {:induction false} UnmarkedIdempotent(cs: seq<nat>, mark: seq<bool>)
    requires forall c :: c in cs ==> c < |mark|
    ensures Unmarked(Unmarked(cs, mark), mark) == Unmarked(cs, mark)
    decreases |cs|
  {
    if cs != [] {
      assert cs[0] in cs && forall c :: c in cs[1..] ==> c in cs;
      UnmarkedIdempotent(cs[1..], mark);
      var tail := Unmarked(cs[1..], mark);
      if mark[cs[0]] {
        assert Unmarked(cs, mark) == tail;
      } else {
        assert Unmarked(cs, mark) == [cs[0]] + tail;
        assert ([cs[0]] + tail)[1..] == tail;
      }
    }
  }

  /** The ids `base`, `base + 1`, ... of `count` nodes appended to the arena. */
  function NewIds(base: nat, count: nat): (r: seq<nat>)
    ensures |r| == count && forall k :: 0 <= k < count ==> r[k] == base + k
  {
    seq(count, k => base + k)
  }

  /** `Where(child => child != null)`: the results that are present, in order. */
  function Present(results: seq<Option<Candidate>>): (r: seq<Candidate>)
    ensures |r| <= |results|
    ensures forall c :: c in r <==> Some(c) in results
    decreases |results|
  {
    if results == [] then []
    else (if results[0].Some? then [results[0].value] else []) + Present(results[1..])
  }

  /** The first `n` of a reordering of `w` are members of `w`. */
  lemma TakeOfReordering(ranked: seq<nat>, w: seq<nat>, n: int)
    requires multiset(ranked) == multiset(w)
    ensures forall k :: 0 <= k < |ranked| ==> ranked[k] in w
    ensures forall k :: 0 <= k < |Take(ranked, n)| ==> Take(ranked, n)[k] in w
  {
    forall k | 0 <= k < |ranked| ensures ranked[k] in w {
      assert ranked[k] in multiset(ranked);
    }
    forall k | 0 <= k < |Take(ranked, n)| ensures Take(ranked, n)[k] in w {
      assert Take(ranked, n)[k] == ranked[k];
    }
  }

  /**
   * The mark of node `j` after `prune` at `root` keeps the lineages of `top`:
   * set exactly when `j` was walked or already marked, and lies on the
   * lineage of none of `top`.
   */
  function PrunedMark(parent: seq<Option<nat>>, children: seq<Option<seq<nat>>>, mark: seq<bool>,
                      root: nat, top: seq<nat>, j: nat): (r: bool)
    requires WellFormed(parent, children) && root < |children| && j < |mark|
    requires forall k :: 0 <= k < |top| ==> top[k] < |parent|
    ensures r <==> (j in Walk(children, root) || mark[j]) && forall k :: 0 <= k < |top| ==> j !in WalkFromRoot(parent, top[k])
  {
    LineagesExactly(parent, top, j);
    if j in Lineages(parent, top) then false else j in Walk(children, root) || mark[j]
  }

  /** The marks after the three steps of `prune` are the ones `PrunedMark` gives. */
  lemma PrunedMarksAre(parent: seq<Option<nat>>, children: seq<Option<seq<nat>>>, mark: seq<bool>,
                       marked: seq<bool>, final: seq<bool>, root: nat, top: seq<nat>)
    requires WellFormed(parent, children) && root < |children|
    requires forall k :: 0 <= k < |top| ==> top[k] < |parent|
    requires |mark| == |marked| == |final|
    requires forall j :: 0 <= j < |marked| ==> marked[j] == (j in Walk(children, root) || mark[j])
    requires forall j :: 0 <= j < |final| ==> final[j] == if j in Lineages(parent, top) then false else marked[j]
    ensures forall j :: 0 <= j < |final| ==> final[j] == PrunedMark(parent, children, mark, root, top, j)
  {
  }

  /**
   * The three steps of `prune` at `root`, from marks `mark` through
   * `marked` to `final` and from children lists `before` to `after`, give
   * the marks of `PrunedMark` and keep the lineages of `top` walked.
   */
  lemma PruneOutcome(parent: seq<Option<nat>>, before: seq<Option<seq<nat>>>, after: seq<Option<seq<nat>>>,
                     mark: seq<bool>, marked: seq<bool>, final: seq<bool>, root: nat, top: seq<nat>)
    requires WellFormed(parent, before) && ChildrenOrdered(after) && root < |before|
    requires |mark| == |marked| == |final| == |after| == |before|
    requires forall k :: 0 <= k < |top| ==> top[k] in Walk(before, root) && top[k] < |parent|
    requires forall j :: 0 <= j < |marked| ==> marked[j] == (j in Walk(before, root) || mark[j])
    requires forall j :: 0 <= j < |final| ==> final[j] == if j in Lineages(parent, top) then false else marked[j]
    requires forall j :: 0 <= j < |after| ==>
      after[j] == if j in Walk(before, root) then Some(Unmarked(before[j].value, final)) else before[j]
    ensures forall j :: 0 <= j < |final| ==> final[j] == PrunedMark(parent, before, mark, root, top, j)
    ensures forall t, k :: t in top && k in WalkFromRoot(parent, t) && k >= root ==> k in Walk(after, root)
  {
    PrunedMarksAre(parent, before, mark, marked, final, root, top);
    LineagesCleared(parent, top, final);
    PruneKeepsLineages(parent, before, after, final, top, root);
  }

  /** Marks cleared on the lineages of `ts` are clear along each `walkFromRoot`. */
  lemma LineagesCleared(parent: seq<Option<nat>>, ts: seq<nat>, mark: seq<bool>)
    requires ParentsOrdered(parent) && forall k :: 0 <= k < |ts| ==> ts[k] < |parent|
    requires forall j :: 0 <= j < |mark| && j in Lineages(parent, ts) ==> !mark[j]
    requires |mark| == |parent|
    ensures forall t, m :: t in ts && m in WalkFromRoot(parent, t) ==> !mark[m]
  {
    forall t, m | t in ts && m in WalkFromRoot(parent, t) ensures !mark[m] {
      var k :| 0 <= k < |ts| && ts[k] == t;
    }
  }

  /** Filtering one node's children list keeps the arena well formed. */
  lemma DropMarkedWellFormed(parent: seq<Option<nat>>, children: seq<Option<seq<nat>>>, mark: seq<bool>, node: nat)
    requires WellFormed(parent, children) && |mark| == |children|
    requires node < |children| && children[node].Some?
    ensures WellFormed(parent, children[node := Some(Unmarked(children[node].value, mark))])
  {
    var filtered := children[node := Some(Unmarked(children[node].value, mark))];
    assert ChildrenOrdered(filtered);
    assert ParentsAgree(parent, filtered) by {
      forall i, c | 0 <= i < |filtered| && filtered[i].Some? && c in filtered[i].value
        ensures parent[c] == Some(i)
      {
        assert c in children[i].value;
      }
    }
  }

  class Arena {
    var parent: seq<Option<nat>>
    var children: seq<Option<seq<nat>>>
    var mark: seq<bool>
    var score: seq<int>
    var path: seq<string>

    ghost predicate Valid()
      reads this
    {
      WellFormed(parent, children) && |mark| == |parent| && |score| == |parent| && |path| == |parent|
    }

    constructor ()
      ensures Valid() && parent == [] && children == [] && mark == [] && score == [] && path == []
    {
      parent, children, mark, score, path := [], [], [], [], [];
    }

    /**
     * The `BoardTree` constructor: a new node for a board with score
     * `boardScore`, reached by `edge`, under `up` (none for a root). It has
     * no children list and no mark.
     */
    method NewNode(boardScore: int, edge: string, up: Option<nat>) returns (id: nat)
      requires Valid() && (up.Some? ==> up.value < |parent|)
      modifies this
      ensures Valid() && id == old(|parent|)
      ensures parent == old(parent) + [up] && children == old(children) + [None]
      ensures mark == old(mark) + [false] && score == old(score) + [boardScore] && path == old(path) + [edge]
    {
      id := |parent|;
      parent, children, mark := parent + [up], children + [None], mark + [false];
      score, path := score + [boardScore], path + [edge];
    }

    /**
     * `expand`, with the results `generatePath` gives for the goals in
     * order (none where it gives null). A node that already has a children
     * list is left alone and the answer is false; otherwise each result
     * becomes a new child of `i`, in order, and the answer is true.
     */
    method Expand(i: nat, results: seq<Option<Candidate>>) returns (expanded: bool)
      requires Valid() && i < |children|
      modifies this
      ensures Valid()
      ensures expanded == old(children[i]).None?
      ensures !expanded ==>
        parent == old(parent) && children == old(children) && mark == old(mark) && score == old(score) && path == old(path)
      ensures expanded ==>
        var added := Present(results);
        var base: nat := old(|parent|);
        && parent == old(parent) + seq(|added|, _ => Some(i))
        && children == old(children)[i := Some(NewIds(base, |added|))] + seq(|added|, _ => None)
        && mark == old(mark) + seq(|added|, _ => false)
        && score == old(score) + seq(|added|, k requires 0 <= k < |added| => added[k].score)
        && path == old(path) + seq(|added|, k requires 0 <= k < |added| => added[k].path)
    {
      if children[i].Some? {
        return false;
      }
      var added := Present(results);
      var base := |parent|;
      var ids := NewIds(base, |added|);
      var parent' := parent + seq(|added|, _ => Some(i));
      var children' := children[i := Some(ids)] + seq(|added|, _ => None);
      assert ChildrenOrdered(children');
      assert ParentsAgree(parent', children') by {
        forall j, c | 0 <= j < |children'| && children'[j].Some? && c in children'[j].value
          ensures parent'[c] == Some(j)
        {
          if j != i {
            assert children'[j] == children[j];
          }
        }
      }
      parent, children := parent', children';
      mark := mark + seq(|added|, _ => false);
      score := score + seq(|added|, k requires 0 <= k < |added| => added[k].score);
      path := path + seq(|added|, k requires 0 <= k < |added| => added[k].path);
      return true;
    }

    /** `getBestNodes`: the walked nodes ordered by non-increasing score. */
    method GetBestNodes(root: nat) returns (best: seq<nat>)
      requires Valid() && root < |children|
      ensures multiset(best) == multiset(Walk(children, root))
      ensures SortedByScore(score, best)
    {
      best := SortByScore(score, Walk(children, root));
    }

    /** `walk(i => i.mark = true)`: set the mark of each node of `w`. */
    method MarkAll(w: seq<nat>)
      requires Valid() && forall j :: j in w ==> j < |mark|
      modifies this
      ensures Valid() && parent == old(parent) && children == old(children) && score == old(score) && path == old(path)
      ensures |mark| == old(|mark|) && forall j :: 0 <= j < |mark| ==> mark[j] == (j in w || old(mark)[j])
    {
      for k := 0 to |w|
        invariant parent == old(parent) && children == old(children) && score == old(score) && path == old(path)
        invariant |mark| == |parent|
        invariant forall j :: 0 <= j < |mark| ==> mark[j] == (j in w[..k] || old(mark)[j])
      {
        assert w[k] in w;
        mark := mark[w[k] := true];
      }
      assert w[..|w|] == w;
    }

    /** `node.walkFromRoot(i => i.mark = false)` for each node of `best` in turn. */
    method UnmarkLineages(best: seq<nat>)
      requires Valid() && forall k :: 0 <= k < |best| ==> best[k] < |parent|
      modifies this
      ensures Valid() && parent == old(parent) && children == old(children) && score == old(score) && path == old(path)
      ensures |mark| == old(|mark|)
      ensures forall j :: 0 <= j < |mark| ==> mark[j] == (if j in Lineages(parent, best) then false else old(mark)[j])
    {
      for t := 0 to |best|
        invariant parent == old(parent) && children == old(children) && score == old(score) && path == old(path)
        invariant |mark| == |parent|
        invariant forall j :: 0 <= j < |mark| ==> mark[j] == (if j in Lineages(parent, best[..t]) then false else old(mark)[j])
      {
        var line := WalkFromRoot(parent, best[t]);
        for k := 0 to |line|
          invariant parent == old(parent) && children == old(children) && score == old(score) && path == old(path)
          invariant |mark| == |parent|
          invariant forall j :: 0 <= j < |mark| ==>
            mark[j] == (if j in Lineages(parent, best[..t]) || j in line[..k] then false else old(mark)[j])
        {
          mark := mark[line[k] := false];
        }
        assert best[..t + 1][..t] == best[..t];
        assert line[..|line|] == line;
      }
      assert best[..|best|] == best;
    }

    /**
     * `walk(i => i.children = i.children.Where(child => !child.mark))` over
     * the nodes `w` the walk visits: `walk` reads a node's children list
     * before `fn` replaces it, so it visits the nodes of the unfiltered tree.
     */
    method DropMarked(w: seq<nat>)
      requires Valid() && forall j :: j in w ==> j < |children| && children[j].Some?
      modifies this
      ensures Valid() && parent == old(parent) && mark == old(mark) && score == old(score) && path == old(path)
      ensures |children| == old(|children|)
      ensures forall j :: 0 <= j < |children| ==>
        children[j] == if j in w then Some(Unmarked(old(children)[j].value, mark)) else old(children)[j]
    {
      for k := 0 to |w|
        invariant parent == old(parent) && mark == old(mark) && score == old(score) && path == old(path)
        invariant |children| == old(|children|) && Valid()
        invariant forall j :: 0 <= j < |children| ==>
          children[j] == if j in w[..k] then Some(Unmarked(old(children)[j].value, mark)) else old(children)[j]
      {
        var node := w[k];
        assert node in w;
        UnmarkedIdempotent(old(children)[node].value, mark);
        DropMarkedWellFormed(parent, children, mark, node);
        children := children[node := Some(Unmarked(children[node].value, mark))];
      }
      assert w[..|w|] == w;
    }

    /**
     * `prune(n)`: mark every walked node, unmark the lineage of each of the
     * first `n` walked nodes in the order `getBestNodes` gives, returned as
     * `ranked`, then drop the marked children from the children list of
     * every walked node. Any order by non-increasing score is allowed, as
     * `List.Sort` does not fix the order of equal scores.
     */
    method Prune(root: nat, n: int) returns (ghost ranked: seq<nat>)
      requires Valid() && root < |children|
      modifies this
      ensures Valid()
      ensures multiset(ranked) == multiset(old(Walk(children, root))) && SortedByScore(score, ranked)
      ensures parent == old(parent) && score == old(score) && path == old(path) && |mark| == old(|mark|)
      ensures forall k :: 0 <= k < |ranked| ==> ranked[k] < |parent|
      ensures forall j :: 0 <= j < |mark| ==>
        mark[j] == PrunedMark(old(parent), old(children), old(mark), root, Take(ranked, n), j)
      ensures forall j :: 0 <= j < |children| ==>
        children[j] == if j in old(Walk(children, root)) then Some(Unmarked(old(children)[j].value, mark))
                       else old(children)[j]
      ensures forall t, k ::
        t in Take(ranked, n) && k in WalkFromRoot(parent, t) && k >= root ==> k in Walk(children, root)
    {
      var w := Walk(children, root);
      MarkAll(w);
      ghost var marked := mark;
      var sorted := GetBestNodes(root);
      ranked := sorted;
      TakeOfReordering(sorted, w, n);
      UnmarkLineages(Take(sorted, n));
      ghost var before := children;
      DropMarked(w);
      PruneOutcome(parent, before, children, old(mark), marked, mark, root, Take(sorted, n));
    }
  }
}
