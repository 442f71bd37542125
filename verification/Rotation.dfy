/**
 Smooth weighted rotation inside one tier of nodes (internal/backend/routing.go, weighted).

 The counters are kept by node id; the theory below keeps them as a sequence beside the weights.
 */
module Rotation {

  datatype Node = Node(id: string, weight: int, priority: int, enabled: bool, draining: bool, status: string,
                       role: string, region: string, capabilities: set<string>)

  /** A weight that is not positive counts as 1. */
  function Effective(n: Node): (w: int)
    ensures w >= 1
  {
    if n.weight <= 0 then 1 else n.weight
  }

  function Weights(nodes: seq<Node>): (w: seq<int>)
    ensures |w| == |nodes| && Positive(w) && forall i :: 0 <= i < |nodes| ==> w[i] == Effective(nodes[i])
  {
    if nodes == [] then [] else Weights(nodes[..|nodes| - 1]) + [Effective(nodes[|nodes| - 1])]
  }

  predicate Positive(w: seq<int>) {
    forall i :: 0 <= i < |w| ==> w[i] >= 1
  }

  function Sum(s: seq<int>): int {
    if s == [] then 0 else Sum(s[..|s| - 1]) + s[|s| - 1]
  }

  /** The scan's starting value. */
  const Lowest := -0x4000_0000

  /**
   The pick on counters c: the first of the largest after each has grown by its weight, or the first
   node if none of them is above the scan's starting value.
   */
  ghost predicate Picked(c: seq<int>, w: seq<int>, s: nat)
    requires |c| == |w|
  {
    && s < |w|
    && if exists j :: 0 <= j < |w| && c[j] + w[j] > Lowest then
         && (forall j :: 0 <= j < |w| ==> c[j] + w[j] <= c[s] + w[s])
         && (forall j :: 0 <= j < s ==> c[j] + w[j] < c[s] + w[s])
       else s == 0
  }

  /** One pick: every counter grows by its weight and the picked one, s, pays the total. */
  ghost predicate IsStep(w: seq<int>, c: seq<int>, s: nat, c': seq<int>) {
    && |c| == |w| == |c'| && Picked(c, w, s)
    && forall i :: 0 <= i < |w| ==> c'[i] == c[i] + w[i] - if i == s then Sum(w) else 0
  }

  /** A run of the rotation from cleared counters: the picks, and the counters before and after each. */
  ghost predicate IsRun(w: seq<int>, counters: seq<seq<int>>, picks: seq<nat>) {
    && |w| > 0 && Positive(w)
    && |counters| == |picks| + 1
    && |counters[0]| == |w| && (forall i :: 0 <= i < |w| ==> counters[0][i] == 0)
    && forall k :: 0 <= k < |picks| ==> IsStep(w, counters[k], picks[k], counters[k + 1])
  }

  function Count(picks: seq<nat>, i: nat): nat {
    if picks == [] then 0
    else Count(picks[..|picks| - 1], i) + if picks[|picks| - 1] == i then 1 else 0
  }

  // ---------------------------------------------------------------------
  // Sums and counts
  // ---------------------------------------------------------------------

  /** A step keeps the sum of the counters. */
  lemma {:induction false} SumStep(w: seq<int>, c: seq<int>, c': seq<int>, s: nat, paid: int)
    requires |c| == |w| == |c'|
    requires forall i :: 0 <= i < |w| ==> c'[i] == c[i] + w[i] - if i == s then paid else 0
    ensures Sum(c') == Sum(c) + Sum(w) - if s < |w| then paid else 0
  {
    if |w| > 0 {
      var n := |w| - 1;
      SumStep(w[..n], c[..n], c'[..n], s, paid);
    }
  }

  lemma {:induction false} SumPlusOne(a: seq<int>, b: seq<int>, s: nat)
    requires |a| == |b| && forall i :: 0 <= i < |a| ==> b[i] == a[i] + if i == s then 1 else 0
    ensures Sum(b) == Sum(a) + if s < |a| then 1 else 0
  {
    if a != [] {
      SumPlusOne(a[..|a| - 1], b[..|a| - 1], s);
    }
  }

  lemma {:induction false} SumBounds(s: seq<int>, lo: int, hi: int)
    requires forall i :: 0 <= i < |s| ==> lo <= s[i] <= hi
    ensures |s| * lo <= Sum(s) <= |s| * hi
  {
    if s != [] {
      SumBounds(s[..|s| - 1], lo, hi);
      assert |s| * hi == (|s| - 1) * hi + hi && |s| * lo == (|s| - 1) * lo + lo;
    }
  }

  lemma {:induction false} SumPositive(w: seq<int>)
    requires Positive(w)
    ensures Sum(w) >= |w| && forall i :: 0 <= i < |w| ==> w[i] <= Sum(w)
  {
    if w != [] {
      SumPositive(w[..|w| - 1]);
    }
  }

  /** Sequences bounded pointwise with equal sums are equal. */
  lemma {:induction false} EqualByBound(a: seq<int>, b: seq<int>)
    requires |a| == |b| && forall i :: 0 <= i < |a| ==> a[i] <= b[i]
    ensures Sum(a) <= Sum(b)
    ensures Sum(a) == Sum(b) ==> a == b
  {
    var n := |a| - 1;
    if n >= 0 {
      EqualByBound(a[..n], b[..n]);
      if Sum(a) == Sum(b) {
        assert a == a[..n] + [a[n]] && b == b[..n] + [b[n]];
      }
    }
  }

  lemma {:induction false} CountSplit(a: seq<nat>, b: seq<nat>, i: nat)
    ensures Count(a + b, i) == Count(a, i) + Count(b, i)
  {
    if b == [] {
      assert a + b == a;
    } else {
      var n := |b| - 1;
      CountSplit(a, b[..n], i);
      assert (a + b)[..|a + b| - 1] == a + b[..n];
    }
  }

  /** How often each of n nodes occurs among the picks. */
  function Tally(picks: seq<nat>, n: nat): (t: seq<int>)
    ensures |t| == n && forall i :: 0 <= i < n ==> t[i] == Count(picks, i)
  {
    if n == 0 then [] else Tally(picks, n - 1) + [Count(picks, n - 1)]
  }

  lemma {:induction false} TallySums(picks: seq<nat>, n: nat)
    requires forall k :: 0 <= k < |picks| ==> picks[k] < n
    ensures Sum(Tally(picks, n)) == |picks|
  {
    if picks == [] {
      SumBounds(Tally(picks, n), 0, 0);
    } else {
      var rest, s := picks[..|picks| - 1], picks[|picks| - 1];
      TallySums(rest, n);
      SumPlusOne(Tally(rest, n), Tally(picks, n), s);
    }
  }

  // ---------------------------------------------------------------------
  // The rotation
  // ---------------------------------------------------------------------

  /** What every pick keeps: the counters sum to 0 and none owes a full round. */
  ghost predicate Balanced(c: seq<int>, w: seq<int>) {
    |c| == |w| && Sum(c) == 0 && forall i :: 0 <= i < |c| ==> c[i] > -Sum(w)
  }

  lemma StepKeepsBalance(w: seq<int>, c: seq<int>, s: nat, c': seq<int>)
    requires |w| > 0 && Positive(w) && Balanced(c, w) && IsStep(w, c, s, c')
    ensures Balanced(c', w)
  {
    SumStep(w, c, c', s, Sum(w));
    SumPositive(w);
    if forall j :: 0 <= j < |c| ==> c[j] < 0 {
      SumBounds(c, -Sum(w), -1);
    }
    var j :| 0 <= j < |c| && c[j] >= 0;
    assert c[j] + w[j] > Lowest;
    assert c[j] + w[j] <= c[s] + w[s];
  }

  lemma {:induction false} AlwaysBalanced(w: seq<int>, counters: seq<seq<int>>, picks: seq<nat>, k: nat)
    requires IsRun(w, counters, picks) && k <= |picks|
    ensures Balanced(counters[k], w)
  {
    SumPositive(w);
    if k == 0 {
      SumBounds(counters[0], 0, 0);
    } else {
      AlwaysBalanced(w, counters, picks, k - 1);
      StepKeepsBalance(w, counters[k - 1], picks[k - 1], counters[k]);
    }
  }

  /** The counter c is what a node of this weight earned in k picks, minus what its own n picks paid. */
  ghost predicate EarnedMinusPaid(c: int, k: int, weight: int, total: int, n: int) {
    c == k * weight - total * n
  }

  lemma {:induction false} CounterMeaning(w: seq<int>, counters: seq<seq<int>>, picks: seq<nat>, i: nat, k: nat)
    requires IsRun(w, counters, picks) && k <= |picks| && i < |w|
    ensures |counters[k]| == |w|
    ensures EarnedMinusPaid(counters[k][i], k, w[i], Sum(w), Count(picks[..k], i))
  {
    if k > 0 {
      CounterMeaning(w, counters, picks, i, k - 1);
      assert IsStep(w, counters[k - 1], picks[k - 1], counters[k]);
      assert picks[..k][..k - 1] == picks[..k - 1];
      Distribute(k - 1, w[i], Sum(w), Count(picks[..k - 1], i));
    }
  }

  lemma Distribute(k: int, weight: int, total: int, n: int)
    ensures (k + 1) * weight == k * weight + weight
    ensures total * (n + 1) == total * n + total
  {
  }

  lemma {:induction false} MulAtLeast(m: int, d: nat)
    requires m > 0
    ensures m * d >= d
  {
    if d > 0 {
      MulAtLeast(m, d - 1);
      assert m * d == m * (d - 1) + m;
    }
  }

  lemma MulMono(m: int, a: int, b: int)
    requires m > 0 && a >= b
    ensures m * a >= m * b + (a - b)
  {
    MulAtLeast(m, a - b);
    assert m * (a - b) == m * a - m * b;
  }

  /** Paying `total` for each pick, a node that owes less than one pick has made no more than its weight. */
  lemma NoMoreThanWeight(total: int, t: int, weight: int)
    requires total > 0 && total * t < total * weight + total
    ensures t <= weight
  {
    if t >= weight + 1 {
      MulMono(total, t, weight + 1);
    }
  }

  /** Two moments with the same counter, `total` picks apart, are `weight` picks of the node apart. */
  lemma SameCounter(c: int, total: int, k: int, later: int, weight: int, a: int, b: int)
    requires total > 0 && later == k + total
    requires EarnedMinusPaid(c, k, weight, total, a) && EarnedMinusPaid(c, later, weight, total, b)
    ensures b == a + weight
  {
    assert later * weight == k * weight + total * weight;
    assert total * (a + weight) == total * a + total * weight;
    if b > a + weight {
      MulMono(total, b, a + weight);
    } else if b < a + weight {
      MulMono(total, a + weight, b);
    }
  }

  /** After any number of picks no node is a full pick ahead of its share. */
  lemma NeverAhead(w: seq<int>, counters: seq<seq<int>>, picks: seq<nat>, i: nat, k: nat)
    requires IsRun(w, counters, picks) && k <= |picks| && i < |w|
    ensures Sum(w) * Count(picks[..k], i) < k * w[i] + Sum(w)
  {
    AlwaysBalanced(w, counters, picks, k);
    CounterMeaning(w, counters, picks, i, k);
  }

  /** The first full round picks every node exactly as often as it weighs. */
  lemma FirstRound(w: seq<int>, counters: seq<seq<int>>, picks: seq<nat>, i: nat)
    requires IsRun(w, counters, picks) && Sum(w) <= |picks| && i < |w|
    ensures Sum(w) > 0 && Count(picks[..Sum(w)], i) == w[i]
  {
    SumPositive(w);
    var total := Sum(w);
    var t := Tally(picks[..total], |w|);
    forall j | 0 <= j < |w| ensures t[j] <= w[j] {
      NeverAhead(w, counters, picks, j, total);
      NoMoreThanWeight(total, t[j], w[j]);
    }
    forall k | 0 <= k < total ensures picks[..total][k] < |w| {
      assert IsStep(w, counters[k], picks[k], counters[k + 1]);
    }
    TallySums(picks[..total], |w|);
    EqualByBound(t, w);
    assert t[i] == w[i];
  }

  /** A full round clears every counter, and from there the rotation repeats itself. */
  lemma {:induction false} Repeats(w: seq<int>, counters: seq<seq<int>>, picks: seq<nat>, k: nat)
    requires IsRun(w, counters, picks) && k + Sum(w) <= |picks|
    ensures Sum(w) > 0 && counters[k + Sum(w)] == counters[k]
  {
    SumPositive(w);
    var total := Sum(w);
    if k == 0 {
      assert |counters[total]| == |w| by {
        CounterMeaning(w, counters, picks, 0, total);
      }
      forall i | 0 <= i < |w| ensures counters[total][i] == 0 {
        FirstRound(w, counters, picks, i);
        CounterMeaning(w, counters, picks, i, total);
      }
    } else {
      Repeats(w, counters, picks, k - 1);
      var j := k - 1 + total;
      SameStep(w, counters[k - 1], picks[k - 1], counters[k], picks[j], counters[j + 1]);
    }
  }

  lemma SameStep(w: seq<int>, c: seq<int>, s1: nat, c1: seq<int>, s2: nat, c2: seq<int>)
    requires IsStep(w, c, s1, c1) && IsStep(w, c, s2, c2)
    ensures s1 == s2 && c1 == c2
  {
  }

  /** Any run of as many picks as the weights sum to, wherever it starts, picks each node exactly as often as it weighs. */
  lemma EveryRoundIsExact(w: seq<int>, counters: seq<seq<int>>, picks: seq<nat>, i: nat, k: nat)
    requires IsRun(w, counters, picks) && k + Sum(w) <= |picks| && i < |w|
    ensures Sum(w) > 0 && Count(picks[k..k + Sum(w)], i) == w[i]
  {
    hide IsStep, Positive, Count, Sum;
    var later := k + Sum(w);
    SumPositive(w);
    RoundGap(w, counters, picks, i, k, later);
    var before, round := picks[..k], picks[k..later];
    assert picks[..later] == before + round;
    CountSplit(before, round, i);
  }

  lemma RoundGap(w: seq<int>, counters: seq<seq<int>>, picks: seq<nat>, i: nat, k: nat, later: nat)
    requires IsRun(w, counters, picks) && later == k + Sum(w) && k <= later <= |picks| && i < |w|
    ensures Count(picks[..later], i) == Count(picks[..k], i) + w[i]
  {
    Repeats(w, counters, picks, k);
    CounterMeaning(w, counters, picks, i, k);
    CounterMeaning(w, counters, picks, i, later);
    SameCounter(counters[k][i], Sum(w), k, later, w[i], Count(picks[..k], i), Count(picks[..later], i));
  }

  // ---------------------------------------------------------------------
  // The router
  // ---------------------------------------------------------------------

  /** What one call of weighted does: a step on the nodes' counters, and the picked node. */
  ghost predicate Turned(before: map<string, int>, after: map<string, int>, nodes: seq<Node>, picked: Node) {
    exists at: nat :: at < |nodes| && picked == nodes[at] && IsStep(Weights(nodes), Counters(before, nodes), at, Counters(after, nodes))
  }

  /** Successive calls on one tier, from cleared counters: the counters before and after each, and the nodes picked. */
  ghost predicate AreCalls(nodes: seq<Node>, states: seq<map<string, int>>, picked: seq<Node>) {
    && nodes != [] && DistinctIds(nodes) && |states| == |picked| + 1
    && (forall j :: 0 <= j < |nodes| ==> Counter(states[0], nodes[j].id) == 0)
    && forall t :: 0 <= t < |picked| ==> Turned(states[t], states[t + 1], nodes, picked[t])
  }

  /** How many calls make a round: the weights' sum, a weight that is not positive being 1. */
  function RoundLength(nodes: seq<Node>): nat {
    if nodes == [] then 0
    else
      var n := nodes[|nodes| - 1];
      RoundLength(nodes[..|nodes| - 1]) + if n.weight > 0 then n.weight else 1
  }

  lemma {:induction false} RoundIsSum(nodes: seq<Node>)
    ensures Sum(Weights(nodes)) == RoundLength(nodes)
  {
    if nodes != [] {
      RoundIsSum(nodes[..|nodes| - 1]);
      assert Weights(nodes)[..|nodes| - 1] == Weights(nodes[..|nodes| - 1]);
    }
  }

  function CountersOf(nodes: seq<Node>, states: seq<map<string, int>>): (c: seq<seq<int>>)
    ensures |c| == |states| && forall t :: 0 <= t < |states| ==> c[t] == Counters(states[t], nodes)
  {
    if states == [] then []
    else CountersOf(nodes, states[..|states| - 1]) + [Counters(states[|states| - 1], nodes)]
  }

  /** Where in the tier the picked nodes stand. */
  lemma {:induction false} PicksOf(nodes: seq<Node>, states: seq<map<string, int>>, picked: seq<Node>, n: nat) returns (picks: seq<nat>)
    requires AreCalls(nodes, states, picked) && n <= |picked|
    ensures |picks| == n
    ensures forall t :: 0 <= t < n ==>
              && picks[t] < |nodes| && picked[t] == nodes[picks[t]]
              && IsStep(Weights(nodes), Counters(states[t], nodes), picks[t], Counters(states[t + 1], nodes))
  {
    hide IsStep;
    if n == 0 {
      picks := [];
    } else {
      picks := PicksOf(nodes, states, picked, n - 1);
      assert Turned(states[n - 1], states[n], nodes, picked[n - 1]);
      var at: nat :| at < |nodes| && picked[n - 1] == nodes[at]
                     && IsStep(Weights(nodes), Counters(states[n - 1], nodes), at, Counters(states[n], nodes));
      picks := picks + [at];
    }
  }

  lemma {:induction false} SameCount(nodes: seq<Node>, picks: seq<nat>, picked: seq<Node>, i: nat)
    requires DistinctIds(nodes) && i < |nodes| && |picks| == |picked|
    requires forall t :: 0 <= t < |picks| ==> picks[t] < |nodes| && picked[t] == nodes[picks[t]]
    ensures multiset(picked)[nodes[i]] == Count(picks, i)
  {
    if picks != [] {
      var n := |picks| - 1;
      SameCount(nodes, picks[..n], picked[..n], i);
      assert picked == picked[..n] + [picked[n]];
      assert picked[n] == nodes[i] <==> picks[n] == i;
    }
  }

  /**
   In any run of calls on one tier, of as many consecutive calls as the nodes' weights sum to each node
   is picked exactly as often as it weighs, and once if its weight is not positive.
   */
  lemma CallsAreFair(nodes: seq<Node>, states: seq<map<string, int>>, picked: seq<Node>, k: nat, i: nat)
    requires AreCalls(nodes, states, picked) && k + RoundLength(nodes) <= |picked| && i < |nodes|
    ensures multiset(picked[k..k + RoundLength(nodes)])[nodes[i]] == if nodes[i].weight > 0 then nodes[i].weight else 1
  {
    hide IsStep, Turned, IsRun, Weights, Counters, CountersOf, DistinctIds, RoundLength, Sum, Count;
    var picks := PicksOf(nodes, states, picked, |picked|);
    CallsAreRun(nodes, states, picked, picks);
    RoundIsSum(nodes);
    RoundIsFair(nodes, CountersOf(nodes, states), picks, i, k, k + RoundLength(nodes));
    SameCountFrom(nodes, picks, picked, i, k, k + RoundLength(nodes));
  }

  lemma RoundIsFair(nodes: seq<Node>, counters: seq<seq<int>>, picks: seq<nat>, i: nat, k: nat, later: nat)
    requires IsRun(Weights(nodes), counters, picks) && i < |nodes|
    requires later == k + Sum(Weights(nodes)) && k <= later <= |picks|
    ensures Count(picks[k..later], i) == if nodes[i].weight > 0 then nodes[i].weight else 1
  {
    hide IsRun, Weights, Sum, Count, Positive;
    EveryRoundIsExact(Weights(nodes), counters, picks, i, k);
  }

  lemma SameCountFrom(nodes: seq<Node>, picks: seq<nat>, picked: seq<Node>, i: nat, k: nat, later: nat)
    requires DistinctIds(nodes) && i < |nodes| && |picks| == |picked| && k <= later <= |picks|
    requires forall t :: 0 <= t < |picks| ==> picks[t] < |nodes| && picked[t] == nodes[picks[t]]
    ensures multiset(picked[k..later])[nodes[i]] == Count(picks[k..later], i)
  {
    hide DistinctIds, Count;
    SameCount(nodes, picks[k..later], picked[k..later], i);
  }

  lemma CallsAreRun(nodes: seq<Node>, states: seq<map<string, int>>, picked: seq<Node>, picks: seq<nat>)
    requires AreCalls(nodes, states, picked) && |picks| == |picked|
    requires forall t :: 0 <= t < |picked| ==>
               IsStep(Weights(nodes), Counters(states[t], nodes), picks[t], Counters(states[t + 1], nodes))
    ensures IsRun(Weights(nodes), CountersOf(nodes, states), picks)
  {
    hide IsStep, Turned, Weights, Counters, CountersOf;
  }

  /** Weights 3 and 1: the heavier node twice, the lighter, the heavier. */
  lemma ThreeToOne(a: Node, b: Node, states: seq<map<string, int>>, picked: seq<Node>)
    requires a.weight == 3 && b.weight == 1 && AreCalls([a, b], states, picked) && |picked| == 4
    ensures picked == [a, a, b, a]
  {
    hide IsStep, Turned, Sum, Weights, Counters, CountersOf;
    var nodes := [a, b];
    var picks := PicksOf(nodes, states, picked, 4);
    var w := Weights(nodes);
    assert w == [3, 1];
    var c := CountersOf(nodes, states);
    assert c[0] == [0, 0];
    FourPicks(c, picks);
    assert picked == [picked[0], picked[1], picked[2], picked[3]];
  }

  lemma FourPicks(c: seq<seq<int>>, picks: seq<nat>)
    requires |c| == 5 && |picks| == 4 && c[0] == [0, 0]
    requires forall t :: 0 <= t < 4 ==> IsStep([3, 1], c[t], picks[t], c[t + 1])
    ensures picks == [0, 0, 1, 0]
  {
    hide IsStep;
    OneOfTwo(c[0], picks[0], c[1]);
    OneOfTwo(c[1], picks[1], c[2]);
    OneOfTwo(c[2], picks[2], c[3]);
    OneOfTwo(c[3], picks[3], c[4]);
  }

  lemma OneOfTwo(c: seq<int>, s: nat, c': seq<int>)
    requires IsStep([3, 1], c, s, c') && |c| == 2 && c[0] > Lowest
    ensures |c| == |c'| == 2 && s == if c[0] + 3 >= c[1] + 1 then 0 else 1
    ensures c'[0] == c[0] + 3 - (if s == 0 then 4 else 0) && c'[1] == c[1] + 1 - (if s == 1 then 4 else 0)
  {
    assert [3, 1][..1] == [3] && Sum([3]) == 3 && Sum([3, 1]) == 4;
    var w := [3, 1];
    assert c[0] + w[0] > Lowest;
  }

  predicate DistinctIds(nodes: seq<Node>) {
    forall i, j :: 0 <= i < j < |nodes| ==> nodes[i].id != nodes[j].id
  }

  function Ids(nodes: seq<Node>): (ids: set<string>)
    ensures forall i :: 0 <= i < |nodes| ==> nodes[i].id in ids
  {
    set n | n in nodes :: n.id
  }

  /** A node's counter; 0 if it was never seen. */
  function Counter(cur: map<string, int>, id: string): int {
    if id in cur then cur[id] else 0
  }

  function Counters(cur: map<string, int>, nodes: seq<Node>): (c: seq<int>)
    ensures |c| == |nodes| && forall i :: 0 <= i < |nodes| ==> c[i] == Counter(cur, nodes[i].id)
  {
    if nodes == [] then []
    else Counters(cur, nodes[..|nodes| - 1]) + [Counter(cur, nodes[|nodes| - 1].id)]
  }

  /**
   How the scan stands after k nodes: their counters have grown, the others are still c, and best is
   the largest so far, first reached at `at`.
   */
  ghost predicate Scanned(cur: map<string, int>, nodes: seq<Node>, c: seq<int>, w: seq<int>, k: nat, best: int, at: nat)
    requires |c| == |w| == |nodes|
  {
    && (forall j :: 0 <= j < |nodes| ==> Counter(cur, nodes[j].id) == if j < k then c[j] + w[j] else c[j])
    && best >= Lowest
    && (forall j :: 0 <= j < k && j < |nodes| ==> c[j] + w[j] <= best)
    && (if best == Lowest then at == 0
        else at < k && at < |nodes| && c[at] + w[at] == best && forall j :: 0 <= j < at ==> c[j] + w[j] < best)
  }

  /** The nodes' counters are the only ones that may differ. */
  ghost predicate OnlyNodes(cur0: map<string, int>, cur: map<string, int>, nodes: seq<Node>) {
    forall id :: id !in Ids(nodes) ==> Counter(cur, id) == Counter(cur0, id)
  }

  lemma ScanOne(cur0: map<string, int>, cur: map<string, int>, nodes: seq<Node>, c: seq<int>, w: seq<int>,
                k: nat, best: int, at: nat, cur': map<string, int>)
    requires DistinctIds(nodes) && |c| == |w| == |nodes| && k < |nodes|
    requires Scanned(cur, nodes, c, w, k, best, at) && OnlyNodes(cur0, cur, nodes)
    requires cur' == cur[nodes[k].id := Counter(cur, nodes[k].id) + w[k]]
    ensures var value := cur'[nodes[k].id];
            if value > best then Scanned(cur', nodes, c, w, k + 1, value, k) else Scanned(cur', nodes, c, w, k + 1, best, at)
    ensures OnlyNodes(cur0, cur', nodes)
  {
  }

  /** When the scan is over and its choice has paid, one step of the rotation is done. */
  lemma ScanIsStep(cur0: map<string, int>, cur: map<string, int>, nodes: seq<Node>, c: seq<int>, w: seq<int>,
                   best: int, at: nat, cur': map<string, int>)
    requires nodes != [] && DistinctIds(nodes) && |c| == |w| == |nodes|
    requires Scanned(cur, nodes, c, w, |nodes|, best, at) && OnlyNodes(cur0, cur, nodes)
    requires cur' == cur[nodes[at].id := Counter(cur, nodes[at].id) - Sum(w)]
    ensures IsStep(w, c, at, Counters(cur', nodes)) && OnlyNodes(cur0, cur', nodes)
  {
    assert Picked(c, w, at);
  }

  class Router {
    var cur: map<string, int>

    constructor ()
      ensures cur == map[]
    {
      cur := map[];
    }

    /** The loop of weighted: every counter grows, and the first largest one is found. */
    method Scan(nodes: seq<Node>, ghost c: seq<int>, ghost w: seq<int>)
      returns (total: int, selected: nat, ghost best: int)
      requires nodes != [] && DistinctIds(nodes) && |c| == |w| == |nodes|
      requires forall i :: 0 <= i < |nodes| ==> c[i] == Counter(cur, nodes[i].id) && w[i] == Effective(nodes[i])
      modifies this
      ensures total == Sum(w) && Scanned(cur, nodes, c, w, |nodes|, best, selected) && OnlyNodes(old(cur), cur, nodes)
      ensures selected < |nodes|
    {
      hide Effective, Ids;
      var highest := Lowest;
      total, selected := 0, 0;
      for i := 0 to |nodes|
        invariant total == Sum(w[..i]) && selected < |nodes|
        invariant Scanned(cur, nodes, c, w, i, highest, selected) && OnlyNodes(old(cur), cur, nodes)
      {
        ghost var before := cur;
        var id, weight := nodes[i].id, Effective(nodes[i]);
        cur := cur[id := Counter(cur, id) + weight];
        total := total + weight;
        assert w[..i + 1][..i] == w[..i];
        ScanOne(old(cur), before, nodes, c, w, i, highest, selected, cur);
        if cur[id] > highest {
          highest, selected := cur[id], i;
        }
      }
      assert w[..|nodes|] == w;
      best := highest;
    }

    /** weighted: one pick among the nodes of a tier is one step of the rotation on their counters. */
    method Weighted(nodes: seq<Node>) returns (picked: Node, ghost at: nat)
      requires nodes != [] && DistinctIds(nodes)
      modifies this
      ensures IsStep(Weights(nodes), Counters(old(cur), nodes), at, Counters(cur, nodes))
      ensures at < |nodes| && picked == nodes[at]
      ensures Turned(old(cur), cur, nodes, picked)
      ensures OnlyNodes(old(cur), cur, nodes)
    {
      ghost var cur0, c, w := cur, Counters(cur, nodes), Weights(nodes);
      var total, selected;
      ghost var best;
      total, selected, best := Scan(nodes, c, w);
      at := selected;
      picked := nodes[selected];
      ghost var grown := cur;
      cur := cur[picked.id := Counter(cur, picked.id) - total];
      ScanIsStep(cur0, grown, nodes, c, w, best, at, cur);
    }
  }
}
