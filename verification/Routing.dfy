/**
 The order in which nodes are tried for a request (internal/backend/routing.go: Candidates, byWeight,
 roleOK): higher priorities first, and in the first tier the one whose turn it is. A node's
 capabilities are a set of names.
 */
module Routing {
  import opened Rotation

  datatype Request = Request(role: string, roles: seq<string>, capability: string, region: string)

  datatype Result<T> = Ok(value: T) | NoHealthyNode

  predicate RoleOK(q: Request, role: string) {
    !(q.role != "" && role != q.role) && (q.roles == [] || role in q.roles)
  }

  predicate Eligible(q: Request, n: Node) {
    && n.enabled && !n.draining && n.status == "healthy" && RoleOK(q, n.role)
    && (q.region == "" || n.region == q.region)
    && (q.capability == "" || q.capability in n.capabilities)
  }

  // ---------------------------------------------------------------------
  // Lists of nodes
  // ---------------------------------------------------------------------

  /** x is somewhere before y. */
  ghost predicate Before(s: seq<Node>, x: Node, y: Node) {
    exists i, j :: 0 <= i < j < |s| && s[i] == x && s[j] == y
  }

  /** Heavier nodes first. */
  ghost predicate Sorted(s: seq<Node>) {
    forall i, j :: 0 <= i < j < |s| ==> s[i].weight >= s[j].weight
  }

  /** How many nodes of a sorted list x goes behind: those that weigh as much or more. */
  function Place(s: seq<Node>, x: Node): (k: nat)
    ensures k <= |s|
  {
    if s == [] || s[|s| - 1].weight >= x.weight then |s| else Place(s[..|s| - 1], x)
  }

  function Insert(s: seq<Node>, x: Node): seq<Node> {
    s[..Place(s, x)] + [x] + s[Place(s, x)..]
  }

  /** byWeight: a stable sort. */
  function ByWeight(s: seq<Node>): seq<Node> {
    if s == [] then [] else Insert(ByWeight(s[..|s| - 1]), s[|s| - 1])
  }

  lemma {:induction false} PlaceIsRight(s: seq<Node>, x: Node)
    requires Sorted(s)
    ensures forall i :: 0 <= i < |s| ==> (i < Place(s, x) <==> s[i].weight >= x.weight)
  {
    if s != [] && s[|s| - 1].weight < x.weight {
      PlaceIsRight(s[..|s| - 1], x);
    }
  }

  lemma InsertSorts(s: seq<Node>, x: Node)
    requires Sorted(s)
    ensures Sorted(Insert(s, x)) && multiset(Insert(s, x)) == multiset(s) + multiset{x}
  {
    PlaceIsRight(s, x);
    assert s == s[..Place(s, x)] + s[Place(s, x)..];
  }

  /** Where the node at i stands once x is in its place. */
  function Moved(s: seq<Node>, x: Node, i: nat): nat {
    if i < Place(s, x) then i else i + 1
  }

  lemma InsertMoves(s: seq<Node>, x: Node, i: nat)
    requires i < |s|
    ensures Moved(s, x, i) < |Insert(s, x)| && Insert(s, x)[Moved(s, x, i)] == s[i]
    ensures Place(s, x) < |Insert(s, x)| && Insert(s, x)[Place(s, x)] == x
  {
  }

  /** Whatever stood before another node still does, and x stands behind what weighs as much. */
  lemma InsertKeepsOrder(s: seq<Node>, x: Node, a: Node)
    requires Sorted(s) && a in s
    ensures forall b :: Before(s, a, b) ==> Before(Insert(s, x), a, b)
    ensures a.weight >= x.weight ==> Before(Insert(s, x), a, x)
  {
    hide Place, Insert;
    forall b | Before(s, a, b) ensures Before(Insert(s, x), a, b) {
      var i, j :| 0 <= i < j < |s| && s[i] == a && s[j] == b;
      InsertMoves(s, x, i);
      InsertMoves(s, x, j);
    }
    var i :| 0 <= i < |s| && s[i] == a;
    InsertMoves(s, x, i);
    PlaceIsRight(s, x);
  }

  lemma {:induction false} ByWeightSorts(s: seq<Node>)
    ensures Sorted(ByWeight(s)) && multiset(ByWeight(s)) == multiset(s)
  {
    if s != [] {
      var n := |s| - 1;
      assert s == s[..n] + [s[n]];
      ByWeightSorts(s[..n]);
      InsertSorts(ByWeight(s[..n]), s[n]);
    }
  }

  /** Nodes of the same weight stay in their order. */
  lemma {:induction false} ByWeightIsStable(s: seq<Node>, i: nat, j: nat)
    requires i < j < |s| && s[i].weight == s[j].weight
    ensures Before(ByWeight(s), s[i], s[j])
  {
    hide Place, Insert;
    var n := |s| - 1;
    ByWeightSorts(s[..n]);
    assert s[i] == s[..n][i] && s[i] in multiset(s[..n]);
    InsertKeepsOrder(ByWeight(s[..n]), s[n], s[i]);
    if j < n {
      ByWeightIsStable(s[..n], i, j);
    }
  }

  // ---------------------------------------------------------------------
  // Tiers
  // ---------------------------------------------------------------------

  function Tier(nodes: seq<Node>, p: int): seq<Node> {
    if nodes == [] then []
    else if nodes[|nodes| - 1].priority == p then Tier(nodes[..|nodes| - 1], p) + [nodes[|nodes| - 1]]
    else Tier(nodes[..|nodes| - 1], p)
  }

  /** The nodes a request may go to, in the order they are registered in. */
  function EligibleOf(q: Request, nodes: seq<Node>): seq<Node> {
    if nodes == [] then []
    else if Eligible(q, nodes[|nodes| - 1]) then EligibleOf(q, nodes[..|nodes| - 1]) + [nodes[|nodes| - 1]]
    else EligibleOf(q, nodes[..|nodes| - 1])
  }

  /** The nodes other than the one with that id. */
  function Others(nodes: seq<Node>, id: string): seq<Node> {
    if nodes == [] then []
    else if nodes[|nodes| - 1].id != id then Others(nodes[..|nodes| - 1], id) + [nodes[|nodes| - 1]]
    else Others(nodes[..|nodes| - 1], id)
  }

  lemma {:induction false} EligibleIs(q: Request, nodes: seq<Node>)
    ensures forall n :: n in EligibleOf(q, nodes) <==> n in nodes && Eligible(q, n)
    ensures DistinctIds(nodes) ==> DistinctIds(EligibleOf(q, nodes))
  {
    if nodes != [] {
      EligibleIs(q, nodes[..|nodes| - 1]);
      LastOne(nodes);
    }
  }

  lemma {:induction false} TierIs(nodes: seq<Node>, p: int)
    ensures forall n :: n in Tier(nodes, p) <==> n in nodes && n.priority == p
    ensures DistinctIds(nodes) ==> DistinctIds(Tier(nodes, p))
  {
    if nodes != [] {
      TierIs(nodes[..|nodes| - 1], p);
      LastOne(nodes);
    }
  }

  lemma {:induction false} OthersAre(nodes: seq<Node>, id: string)
    requires DistinctIds(nodes) && Sorted(nodes)
    ensures forall n :: n in Others(nodes, id) <==> n in nodes && n.id != id
    ensures DistinctIds(Others(nodes, id)) && Sorted(Others(nodes, id))
  {
    if nodes != [] {
      OthersAre(nodes[..|nodes| - 1], id);
      LastOne(nodes);
      forall n | n in nodes[..|nodes| - 1] ensures n.weight >= nodes[|nodes| - 1].weight {
      }
    }
  }

  /** Joining lists keeps the order in each. */
  lemma BeforeIn(s: seq<Node>, t: seq<Node>, a: Node, b: Node)
    ensures Before(s, a, b) || Before(t, a, b) || (a in s && b in t) ==> Before(s + t, a, b)
  {
    var st := s + t;
    if Before(s, a, b) {
      var i, j :| 0 <= i < j < |s| && s[i] == a && s[j] == b;
      assert st[i] == a && st[j] == b;
    } else if Before(t, a, b) {
      var i, j :| 0 <= i < j < |t| && t[i] == a && t[j] == b;
      assert st[|s| + i] == a && st[|s| + j] == b;
    } else if a in s && b in t {
      var i :| 0 <= i < |s| && s[i] == a;
      var j :| 0 <= j < |t| && t[j] == b;
      assert st[i] == a && st[|s| + j] == b;
    }
  }

  /** Of a list that ends in n, a stands before n or in the rest. */
  lemma BeforeLast(s: seq<Node>, a: Node, b: Node)
    requires Before(s, a, b)
    ensures a in s[..|s| - 1] && (b == s[|s| - 1] || Before(s[..|s| - 1], a, b))
  {
    var i, j :| 0 <= i < j < |s| && s[i] == a && s[j] == b;
    assert s[..|s| - 1][i] == a;
    if j < |s| - 1 {
      assert s[..|s| - 1][j] == b;
    }
  }

  lemma {:induction false} TierKeepsOrder(nodes: seq<Node>, p: int, a: Node, b: Node)
    requires Before(nodes, a, b) && a.priority == b.priority == p
    ensures Before(Tier(nodes, p), a, b)
  {
    var rest, last := nodes[..|nodes| - 1], nodes[|nodes| - 1];
    BeforeLast(nodes, a, b);
    TierIs(rest, p);
    if Before(rest, a, b) {
      TierKeepsOrder(rest, p, a, b);
    }
    BeforeIn(Tier(rest, p), [last], a, b);
  }

  lemma {:induction false} EligibleKeepsOrder(q: Request, nodes: seq<Node>, a: Node, b: Node)
    requires Before(nodes, a, b) && Eligible(q, a) && Eligible(q, b)
    ensures Before(EligibleOf(q, nodes), a, b)
  {
    var rest, last := nodes[..|nodes| - 1], nodes[|nodes| - 1];
    BeforeLast(nodes, a, b);
    EligibleIs(q, rest);
    if Before(rest, a, b) {
      EligibleKeepsOrder(q, rest, a, b);
    }
    BeforeIn(EligibleOf(q, rest), [last], a, b);
  }

  lemma {:induction false} OthersKeepOrder(nodes: seq<Node>, id: string, a: Node, b: Node)
    requires Before(nodes, a, b) && a.id != id && b.id != id && DistinctIds(nodes) && Sorted(nodes)
    ensures Before(Others(nodes, id), a, b)
  {
    var rest, last := nodes[..|nodes| - 1], nodes[|nodes| - 1];
    BeforeLast(nodes, a, b);
    LastOne(nodes);
    OthersAre(rest, id);
    if Before(rest, a, b) {
      OthersKeepOrder(rest, id, a, b);
    }
    BeforeIn(Others(rest, id), [last], a, b);
  }

  lemma LastOne(nodes: seq<Node>)
    requires nodes != []
    ensures nodes == nodes[..|nodes| - 1] + [nodes[|nodes| - 1]]
    ensures DistinctIds(nodes) ==> DistinctIds(nodes[..|nodes| - 1])
                                   && forall n :: n in nodes[..|nodes| - 1] ==> n.id != nodes[|nodes| - 1].id
  {
  }

  /** Sorting by weight keeps the nodes, each once. */
  lemma ByWeightKeeps(s: seq<Node>)
    requires DistinctIds(s)
    ensures Sorted(ByWeight(s)) && DistinctIds(ByWeight(s)) && forall n :: n in ByWeight(s) <==> n in s
  {
    ByWeightSorts(s);
    var r := ByWeight(s);
    forall n ensures n in r <==> n in s {
      assert n in multiset(r) <==> n in multiset(s);
    }
    forall i, j | 0 <= i < j < |r| ensures r[i].id != r[j].id {
      OnceEach(s, r, i, j);
    }
  }

  lemma OnceEach(s: seq<Node>, r: seq<Node>, i: nat, j: nat)
    requires DistinctIds(s) && multiset(r) == multiset(s) && i < j < |r|
    ensures r[i].id != r[j].id
  {
    Twins(r, i, j);
    NoTwins(s, r[i]);
    assert r[i] in multiset(s) && r[j] in multiset(s);
    var a :| 0 <= a < |s| && s[a] == r[i];
    var b :| 0 <= b < |s| && s[b] == r[j];
  }

  lemma Twins(r: seq<Node>, i: nat, j: nat)
    requires i < j < |r|
    ensures r[i] == r[j] ==> multiset(r)[r[i]] >= 2
  {
    assert r == r[..i] + [r[i]] + r[i + 1..j] + [r[j]] + r[j + 1..];
  }

  lemma {:induction false} NoTwins(s: seq<Node>, n: Node)
    requires DistinctIds(s)
    ensures multiset(s)[n] <= 1
  {
    if s != [] {
      LastOne(s);
      NoTwins(s[..|s| - 1], n);
    }
  }

  // ---------------------------------------------------------------------
  // Candidates
  // ---------------------------------------------------------------------

  /** Higher priorities first, and within one, but for the very first node, heavier nodes first. */
  ghost predicate InRoutingOrder(out: seq<Node>) {
    forall i, j :: 0 <= i < j < |out| ==>
      out[i].priority > out[j].priority || (out[i].priority == out[j].priority && (i == 0 || out[i].weight >= out[j].weight))
  }

  /** The first i tiers are listed: each of their nodes once, in routing order. */
  ghost predicate Listed(nodes: seq<Node>, prios: seq<int>, i: nat, out: seq<Node>)
    requires i <= |prios|
  {
    && DistinctIds(out) && InRoutingOrder(out)
    && forall n :: n in out <==> n in nodes && n.priority in prios[..i]
  }

  ghost predicate Falling(prios: seq<int>) {
    forall i, j :: 0 <= i < j < |prios| ==> prios[i] > prios[j]
  }

  /** A whole tier, sorted. */
  ghost predicate IsTier(nodes: seq<Node>, p: int, block: seq<Node>) {
    DistinctIds(block) && forall n :: n in block <==> n in nodes && n.priority == p
  }

  lemma ListTier(nodes: seq<Node>, prios: seq<int>, i: nat, out: seq<Node>, block: seq<Node>)
    requires i < |prios| && Falling(prios) && Listed(nodes, prios, i, out) && DistinctIds(nodes)
    requires IsTier(nodes, prios[i], block) && (if i == 0 then out == [] && FirstSorted(block) else out != [] && Sorted(block))
    ensures Listed(nodes, prios, i + 1, out + block)
  {
    assert prios[..i + 1] == prios[..i] + [prios[i]];
    var more := out + block;
    forall a, b | 0 <= a < b < |more| ensures more[a].id != more[b].id {
      if a < |out| <= b {
        assert more[a] in out && more[b] in block;
        SameId(nodes, more[a], more[b]);
      }
    }
    forall a, b | 0 <= a < b < |more|
      ensures more[a].priority > more[b].priority
              || (more[a].priority == more[b].priority && (a == 0 || more[a].weight >= more[b].weight))
    {
      if a >= |out| {
        assert more[a] in block && more[b] in block;
      } else if b >= |out| {
        assert more[a] in out && more[b] in block;
      }
    }
  }

  lemma SameId(nodes: seq<Node>, m: Node, n: Node)
    requires DistinctIds(nodes) && m in nodes && n in nodes
    ensures m.id == n.id ==> m == n
  {
  }

  /** Sorted but for its first node. */
  ghost predicate FirstSorted(s: seq<Node>) {
    forall i, j :: 0 < i < j < |s| ==> s[i].weight >= s[j].weight
  }

  /** Nodes of the same priority and weight keep the order they are registered in, but for the very first of the list. */
  ghost predicate Steady(nodes: seq<Node>, out: seq<Node>) {
    forall a, b :: Before(nodes, a, b) && a.priority == b.priority && a.weight == b.weight && a in out && b in out && b != out[0] ==>
      Before(out, a, b)
  }

  /** The same of a tier, without the exception. */
  ghost predicate SteadyTier(nodes: seq<Node>, p: int, block: seq<Node>) {
    forall a, b :: Before(nodes, a, b) && a.priority == b.priority == p && a.weight == b.weight ==> Before(block, a, b)
  }

  lemma TierIsSteady(nodes: seq<Node>, p: int)
    ensures SteadyTier(nodes, p, ByWeight(Tier(nodes, p)))
  {
    hide Tier, ByWeight;
    var tier := Tier(nodes, p);
    forall a, b | Before(nodes, a, b) && a.priority == b.priority == p && a.weight == b.weight
      ensures Before(ByWeight(tier), a, b)
    {
      TierKeepsOrder(nodes, p, a, b);
      var i, j :| 0 <= i < j < |tier| && tier[i] == a && tier[j] == b;
      ByWeightIsStable(tier, i, j);
    }
  }

  lemma FirstTierIsSteady(nodes: seq<Node>, p: int, first: Node)
    requires DistinctIds(nodes) && first in Tier(nodes, p)
    ensures Steady(nodes, [first] + Others(ByWeight(Tier(nodes, p)), first.id))
  {
    hide Tier, ByWeight, Others, Before;
    var sorted := ByWeight(Tier(nodes, p));
    var rest := Others(sorted, first.id);
    TierIs(nodes, p);
    ByWeightKeeps(Tier(nodes, p));
    OthersAre(sorted, first.id);
    TierIsSteady(nodes, p);
    forall a, b | Before(nodes, a, b) && a.priority == b.priority && a.weight == b.weight
                  && a in [first] + rest && b in [first] + rest && b != first
      ensures Before([first] + rest, a, b)
    {
      if a != first {
        OthersKeepOrder(sorted, first.id, a, b);
      }
      BeforeIn([first], rest, a, b);
    }
  }

  /** Another tier behind what is listed. */
  lemma TierBehind(nodes: seq<Node>, p: int, out: seq<Node>, block: seq<Node>)
    requires Steady(nodes, out) && SteadyTier(nodes, p, block) && out != []
    requires (forall n :: n in block ==> n.priority == p) && forall n :: n in out ==> n.priority != p
    ensures Steady(nodes, out + block)
  {
    hide Before;
    forall a, b | Before(nodes, a, b) && a.priority == b.priority && a.weight == b.weight
                  && a in out + block && b in out + block && b != (out + block)[0]
      ensures Before(out + block, a, b)
    {
      BeforeIn(out, block, a, b);
    }
  }

  lemma FirstTier(nodes: seq<Node>, p: int, first: Node)
    requires DistinctIds(nodes) && first in Tier(nodes, p)
    ensures var block := [first] + Others(ByWeight(Tier(nodes, p)), first.id);
            IsTier(nodes, p, block) && FirstSorted(block)
  {
    hide Tier, ByWeight, Others;
    var tier := Tier(nodes, p);
    TierIs(nodes, p);
    ByWeightKeeps(tier);
    var rest := Others(ByWeight(tier), first.id);
    OthersAre(ByWeight(tier), first.id);
    forall n ensures n in [first] + rest <==> n in tier {
      if n in tier && n.id == first.id {
        SameId(nodes, n, first);
      }
    }
  }

  lemma LaterTier(nodes: seq<Node>, p: int)
    requires DistinctIds(nodes)
    ensures IsTier(nodes, p, ByWeight(Tier(nodes, p))) && Sorted(ByWeight(Tier(nodes, p)))
  {
    TierIs(nodes, p);
    ByWeightKeeps(Tier(nodes, p));
  }

  /** The tiers found among nodes, and the priorities that have one. */
  ghost predicate Tiered(nodes: seq<Node>, tiers: map<int, seq<Node>>, prios: seq<int>) {
    && (forall p :: p in prios <==> p in tiers)
    && (forall i, j :: 0 <= i < j < |prios| ==> prios[i] != prios[j])
    && (forall p :: Tier(nodes, p) == if p in tiers then tiers[p] else [])
    && (forall p :: p in tiers ==> tiers[p] != [])
  }

  lemma TierOfMore(nodes: seq<Node>, n: Node, p: int)
    ensures Tier(nodes + [n], p) == if n.priority == p then Tier(nodes, p) + [n] else Tier(nodes, p)
  {
    assert (nodes + [n])[..|nodes|] == nodes;
  }

  lemma TierWith(nodes: seq<Node>, tiers: map<int, seq<Node>>, prios: seq<int>, n: Node)
    requires Tiered(nodes, tiers, prios)
    ensures Tiered(nodes + [n], tiers[n.priority := (if n.priority in tiers then tiers[n.priority] else []) + [n]],
                   if n.priority in tiers then prios else prios + [n.priority])
  {
    hide Tier;
    forall p ensures Tier(nodes + [n], p) == if n.priority == p then Tier(nodes, p) + [n] else Tier(nodes, p) {
      TierOfMore(nodes, n, p);
    }
  }

  /** The first loop: the eligible nodes by their priority. */
  method Collect(nodes: seq<Node>, q: Request) returns (tiers: map<int, seq<Node>>, prios: seq<int>)
    ensures Tiered(EligibleOf(q, nodes), tiers, prios)
  {
    hide Tiered;
    tiers, prios := map[], [];
    NoTiers();
    for i := 0 to |nodes|
      invariant Tiered(EligibleOf(q, nodes[..i]), tiers, prios)
    {
      assert nodes[..i + 1][..i] == nodes[..i];
      var node := nodes[i];
      if !node.enabled || node.draining || node.status != "healthy" || !RoleOK(q, node.role) {
        continue;
      }
      if q.region != "" && node.region != q.region {
        continue;
      }
      if q.capability != "" && q.capability !in node.capabilities {
        continue;
      }
      TierWith(EligibleOf(q, nodes[..i]), tiers, prios, node);
      if node.priority !in tiers {
        prios := prios + [node.priority];
        tiers := tiers[node.priority := [] + [node]];
      } else {
        tiers := tiers[node.priority := tiers[node.priority] + [node]];
      }
    }
    assert nodes[..|nodes|] == nodes;
  }

  lemma NoTiers()
    ensures Tiered([], map[], [])
  {
  }

  /** sort.Sort(sort.Reverse(…)) of the priorities, which are all different. */
  method SortDown(prios: seq<int>) returns (sorted: seq<int>)
    requires forall i, j :: 0 <= i < j < |prios| ==> prios[i] != prios[j]
    ensures Falling(sorted) && forall p :: p in sorted <==> p in prios
  {
    sorted := [];
    for i := 0 to |prios|
      invariant Falling(sorted) && forall p :: p in sorted <==> p in prios[..i]
    {
      assert prios[i] !in prios[..i] && prios[..i + 1] == prios[..i] + [prios[i]];
      var k := |sorted|;
      while k > 0 && sorted[k - 1] < prios[i]
        invariant 0 <= k <= |sorted| && forall j :: k <= j < |sorted| ==> sorted[j] < prios[i]
      {
        k := k - 1;
      }
      PutIn(sorted, k, prios[i]);
      sorted := sorted[..k] + [prios[i]] + sorted[k..];
    }
    assert prios[..|prios|] == prios;
  }

  /** Element i of the list with p put in before index k. */
  function PutAt(sorted: seq<int>, k: nat, p: int, i: nat): int
    requires k <= |sorted| && i <= |sorted|
  {
    if i < k then sorted[i] else if i == k then p else sorted[i - 1]
  }

  lemma PutIn(sorted: seq<int>, k: nat, p: int)
    requires Falling(sorted) && k <= |sorted| && p !in sorted
    requires k > 0 ==> sorted[k - 1] >= p
    requires forall j :: k <= j < |sorted| ==> sorted[j] < p
    ensures Falling(sorted[..k] + [p] + sorted[k..])
    ensures forall o :: o in sorted[..k] + [p] + sorted[k..] <==> o in sorted || o == p
  {
    var out := sorted[..k] + [p] + sorted[k..];
    forall i | 0 <= i < k ensures sorted[i] > p {
      assert sorted[i] in sorted && sorted[i] >= sorted[k - 1];
    }
    forall i | 0 <= i < |out| ensures out[i] == PutAt(sorted, k, p, i) {
    }
    PutInKeeps(sorted, k, p, out);
  }

  /** The same list, index by index. */
  lemma PutInKeeps(sorted: seq<int>, k: nat, p: int, out: seq<int>)
    requires Falling(sorted) && k <= |sorted| && |out| == |sorted| + 1
    requires (forall i :: 0 <= i < k ==> sorted[i] > p) && (forall i :: k <= i < |sorted| ==> sorted[i] < p)
    requires forall i :: 0 <= i < |out| ==> out[i] == PutAt(sorted, k, p, i)
    ensures Falling(out)
    ensures forall o :: o in out <==> o in sorted || o == p
  {
    forall i, j | 0 <= i < j < |out| ensures out[i] > out[j] {
      assert out[i] == PutAt(sorted, k, p, i) && out[j] == PutAt(sorted, k, p, j);
    }
    forall o | o in sorted ensures o in out {
      var i :| 0 <= i < |sorted| && sorted[i] == o;
      var j := if i < k then i else i + 1;
      assert out[j] == PutAt(sorted, k, p, j) == o;
    }
    assert out[k] == PutAt(sorted, k, p, k) == p;
  }

  /** The loop over the first tier without the node whose turn it is. */
  method Rest(nodes: seq<Node>, id: string) returns (out: seq<Node>)
    ensures out == Others(nodes, id)
  {
    out := [];
    for i := 0 to |nodes|
      invariant out == Others(nodes[..i], id)
    {
      assert nodes[..i + 1][..i] == nodes[..i];
      if nodes[i].id != id {
        out := out + [nodes[i]];
      }
    }
    assert nodes[..|nodes|] == nodes;
  }

  /** The turn in a tier, and the counters it leaves: one step of the rotation on the tier's own. */
  ghost predicate Turn(before: map<string, int>, after: map<string, int>, tier: seq<Node>, at: nat, first: Node) {
    && at < |tier| && first == tier[at]
    && IsStep(Weights(tier), Counters(before, tier), at, Counters(after, tier)) && OnlyNodes(before, after, tier)
  }

  /** What Candidates answers for the eligible nodes. */
  ghost predicate Routed(eligible: seq<Node>, out: seq<Node>, before: map<string, int>, after: map<string, int>, at: nat) {
    && DistinctIds(out) && InRoutingOrder(out) && (forall n :: n in out <==> n in eligible)
    && out != [] && Turn(before, after, Tier(eligible, out[0].priority), at, out[0])
  }

  /** The first node's turn is one call of the rotation on the highest eligible tier, and that tier is always the same. */
  lemma FirstIsTurned(eligible: seq<Node>, out: seq<Node>, before: map<string, int>, after: map<string, int>, at: nat)
    requires Routed(eligible, out, before, after, at)
    ensures out[0] in eligible && forall n :: n in eligible ==> n.priority <= out[0].priority
    ensures Turned(before, after, Tier(eligible, out[0].priority), out[0])
  {
    hide Tier, IsStep;
    assert out[0] in out;
    forall n | n in eligible ensures n.priority <= out[0].priority {
      assert n in out;
      var i :| 0 <= i < |out| && out[i] == n;
    }
  }

  /** Successive answers for the same eligible nodes, from cleared counters. */
  ghost predicate AreAnswers(eligible: seq<Node>, states: seq<map<string, int>>, outs: seq<seq<Node>>, p: int) {
    && DistinctIds(eligible) && (forall n :: n in eligible ==> n.priority <= p)
    && |states| == |outs| + 1
    && (forall n :: n in eligible ==> Counter(states[0], n.id) == 0)
    && forall t :: 0 <= t < |outs| ==> Answered(eligible, outs[t], states[t], states[t + 1])
  }

  ghost predicate Answered(eligible: seq<Node>, out: seq<Node>, before: map<string, int>, after: map<string, int>) {
    exists at: nat :: Routed(eligible, out, before, after, at)
  }

  function Heads(outs: seq<seq<Node>>): (heads: seq<Node>)
    requires forall t :: 0 <= t < |outs| ==> outs[t] != []
    ensures |heads| == |outs| && forall t :: 0 <= t < |outs| ==> heads[t] == outs[t][0]
  {
    if outs == [] then [] else Heads(outs[..|outs| - 1]) + [outs[|outs| - 1][0]]
  }

  /**
   Of as many successive answers as the highest tier's weights sum to, each of its nodes heads exactly
   as many as it weighs.
   */
  lemma AnswersAreFair(eligible: seq<Node>, states: seq<map<string, int>>, outs: seq<seq<Node>>, p: int, k: nat, n: Node)
    requires AreAnswers(eligible, states, outs, p) && n in eligible && n.priority == p
    requires k + RoundLength(Tier(eligible, p)) <= |outs|
    ensures forall t :: 0 <= t < |outs| ==> outs[t] != []
    ensures multiset(Heads(outs)[k..k + RoundLength(Tier(eligible, p))])[n] == if n.weight > 0 then n.weight else 1
  {
    hide AreAnswers, AreCalls, Tier, RoundLength, Heads;
    HeadsAreCalls(eligible, states, outs, p, n);
    var tier := Tier(eligible, p);
    TierIs(eligible, p);
    var i :| 0 <= i < |tier| && tier[i] == n;
    CallsAreFair(tier, states, Heads(outs), k, i);
  }

  lemma HeadsAreCalls(eligible: seq<Node>, states: seq<map<string, int>>, outs: seq<seq<Node>>, p: int, n: Node)
    requires AreAnswers(eligible, states, outs, p) && n in eligible && n.priority == p
    ensures |states| == |outs| + 1 && forall t :: 0 <= t < |outs| ==> outs[t] != []
    ensures AreCalls(Tier(eligible, p), states, Heads(outs))
  {
    hide Turned, Answered, Tier, DistinctIds, Counter, Heads;
    TierIs(eligible, p);
    forall t | 0 <= t < |outs| ensures outs[t] != [] && Turned(states[t], states[t + 1], Tier(eligible, p), outs[t][0]) {
      HeadIsTurned(eligible, outs[t], states[t], states[t + 1], p, n);
    }
  }

  lemma HeadIsTurned(eligible: seq<Node>, out: seq<Node>, before: map<string, int>, after: map<string, int>, p: int, n: Node)
    requires Answered(eligible, out, before, after) && n in eligible && n.priority == p
    requires forall m :: m in eligible ==> m.priority <= p
    ensures out != [] && Turned(before, after, Tier(eligible, p), out[0])
  {
    hide Turned, Turn, Tier, DistinctIds, InRoutingOrder;
    var at: nat :| Routed(eligible, out, before, after, at);
    FirstIsTurned(eligible, out, before, after, at);
  }

  lemma EachOnce(nodes: seq<Node>, tiers: map<int, seq<Node>>, prios: seq<int>)
    requires Tiered(nodes, tiers, prios)
    ensures forall i, j :: 0 <= i < j < |prios| ==> prios[i] != prios[j]
  {
  }

  lemma Resorted(nodes: seq<Node>, tiers: map<int, seq<Node>>, prios: seq<int>, sorted: seq<int>)
    requires Tiered(nodes, tiers, prios) && Falling(sorted) && forall p :: p in sorted <==> p in prios
    ensures Tiered(nodes, tiers, sorted)
  {
  }

  /** The tier of a priority that is listed, and there is one for each of them. */
  lemma TierAt(nodes: seq<Node>, tiers: map<int, seq<Node>>, prios: seq<int>, i: nat)
    requires Tiered(nodes, tiers, prios) && i < |prios|
    ensures prios[i] in tiers && tiers[prios[i]] == Tier(nodes, prios[i]) != []
  {
    assert prios[i] in prios;
  }

  lemma AllListed(nodes: seq<Node>, tiers: map<int, seq<Node>>, prios: seq<int>, out: seq<Node>)
    requires Tiered(nodes, tiers, prios) && Listed(nodes, prios, |prios|, out)
    ensures forall n :: n in out <==> n in nodes
  {
    hide Tier;
    assert prios[..|prios|] == prios;
    forall n | n in nodes ensures n.priority in prios {
      TierIs(nodes, n.priority);
      assert n in Tier(nodes, n.priority);
    }
  }

  lemma NoTiersNoNodes(nodes: seq<Node>, tiers: map<int, seq<Node>>)
    requires Tiered(nodes, tiers, [])
    ensures forall n :: n !in nodes
  {
    AllListed(nodes, tiers, [], []);
  }

  /** The highest tier: the node whose turn it is, and then the others. */
  method ListFirst(router: Router, tier: seq<Node>, ghost nodes: seq<Node>, p: int) returns (out: seq<Node>, ghost at: nat)
    requires tier == Tier(nodes, p) != [] && DistinctIds(nodes)
    modifies router
    ensures IsTier(nodes, p, out) && FirstSorted(out) && out != [] && Steady(nodes, out)
    ensures Turn(old(router.cur), router.cur, tier, at, out[0])
  {
    hide IsStep, OnlyNodes, Weights, Counters, ByWeight, Others, Tier, Steady;
    TierIs(nodes, p);
    var first;
    first, at := router.Weighted(tier);
    TurnIs(old(router.cur), router.cur, tier, at, first);
    var rest := Rest(ByWeight(tier), first.id);
    out := [first] + rest;
    FirstTier(nodes, p, first);
    FirstTierIsSteady(nodes, p, first);
  }

  lemma TurnIs(before: map<string, int>, after: map<string, int>, tier: seq<Node>, at: nat, first: Node)
    requires IsStep(Weights(tier), Counters(before, tier), at, Counters(after, tier)) && OnlyNodes(before, after, tier)
    requires at < |tier| && first == tier[at]
    ensures Turn(before, after, tier, at, first) && first in tier
  {
  }

  /** The loop over the tiers. */
  method ListTiers(router: Router, tiers: map<int, seq<Node>>, prios: seq<int>, ghost nodes: seq<Node>)
    returns (out: seq<Node>, ghost at: nat)
    requires Tiered(nodes, tiers, prios) && Falling(prios) && prios != [] && DistinctIds(nodes)
    modifies router
    ensures Listed(nodes, prios, |prios|, out) && out != [] && Steady(nodes, out)
    ensures Turn(old(router.cur), router.cur, Tier(nodes, prios[0]), at, out[0])
  {
    hide Tiered, Listed, Turn, Tier, ByWeight, Steady;
    TierAt(nodes, tiers, prios, 0);
    out, at := ListFirst(router, tiers[prios[0]], nodes, prios[0]);
    ghost var first, cur := out[0], router.cur;
    NoneListed(nodes, prios);
    ListTier(nodes, prios, 0, [], out);
    assert [] + out == out;
    for i := 1 to |prios|
      invariant Listed(nodes, prios, i, out) && out != [] && out[0] == first && router.cur == cur
      invariant Steady(nodes, out)
    {
      TierAt(nodes, tiers, prios, i);
      LaterTier(nodes, prios[i]);
      NextTier(nodes, prios, i, out);
      ListTier(nodes, prios, i, out, ByWeight(tiers[prios[i]]));
      out := out + ByWeight(tiers[prios[i]]);
    }
  }

  lemma NextTier(nodes: seq<Node>, prios: seq<int>, i: nat, out: seq<Node>)
    requires 0 < i < |prios| && Falling(prios) && Listed(nodes, prios, i, out) && out != [] && Steady(nodes, out)
    ensures Steady(nodes, out + ByWeight(Tier(nodes, prios[i])))
  {
    hide Steady, Before, Tier, ByWeight, DistinctIds;
    TierIs(nodes, prios[i]);
    ByWeightSorts(Tier(nodes, prios[i]));
    TierIsSteady(nodes, prios[i]);
    forall n | n in ByWeight(Tier(nodes, prios[i])) ensures n.priority == prios[i] {
      assert n in multiset(Tier(nodes, prios[i]));
    }
    TierBehind(nodes, prios[i], out, ByWeight(Tier(nodes, prios[i])));
  }

  lemma NoneListed(nodes: seq<Node>, prios: seq<int>)
    ensures Listed(nodes, prios, 0, [])
  {
  }

  /** The first node of the list is of the first tier. */
  lemma FirstListed(nodes: seq<Node>, prios: seq<int>, out: seq<Node>, at: nat, before: map<string, int>, after: map<string, int>)
    requires prios != [] && out != [] && Turn(before, after, Tier(nodes, prios[0]), at, out[0])
    ensures out[0].priority == prios[0]
  {
    TierIs(nodes, prios[0]);
    assert out[0] in Tier(nodes, prios[0]);
  }

  /**
   Candidates: every eligible node once, in routing order, the first being the one whose turn it is in
   the highest tier. Without an eligible node nothing changes.
   */
  method Candidates(router: Router, nodes: seq<Node>, q: Request) returns (r: Result<seq<Node>>, ghost at: nat)
    requires DistinctIds(nodes)
    modifies router
    ensures r.NoHealthyNode? <==> forall n :: n in nodes ==> !Eligible(q, n)
    ensures r.NoHealthyNode? ==> router.cur == old(router.cur)
    ensures r.Ok? ==> Routed(EligibleOf(q, nodes), r.value, old(router.cur), router.cur, at)
    ensures r.Ok? ==> forall n :: n in r.value <==>
              && n in nodes && n.enabled && !n.draining && n.status == "healthy"
              && (q.role == "" || n.role == q.role) && (q.roles == [] || n.role in q.roles)
              && (q.region == "" || n.region == q.region) && (q.capability == "" || q.capability in n.capabilities)
    ensures r.Ok? ==> Steady(nodes, r.value)
  {
    hide Tiered, Turn, EligibleOf, Tier, Steady;
    at := 0;
    EligibleIs(q, nodes);
    var tiers, prios := Collect(nodes, q);
    if prios == [] {
      NoTiersNoNodes(EligibleOf(q, nodes), tiers);
      return NoHealthyNode, at;
    }
    EachOnce(EligibleOf(q, nodes), tiers, prios);
    var sorted := SortDown(prios);
    Resorted(EligibleOf(q, nodes), tiers, prios, sorted);
    assert prios[0] in sorted;
    var out;
    out, at := ListTiers(router, tiers, sorted, EligibleOf(q, nodes));
    AllListed(EligibleOf(q, nodes), tiers, sorted, out);
    FirstListed(EligibleOf(q, nodes), sorted, out, at, old(router.cur), router.cur);
    assert out[0] in out;
    StillSteady(q, nodes, out);
    r := Ok(out);
  }

  lemma StillSteady(q: Request, nodes: seq<Node>, out: seq<Node>)
    requires Steady(EligibleOf(q, nodes), out) && forall n :: n in out <==> n in EligibleOf(q, nodes)
    ensures Steady(nodes, out)
  {
    hide EligibleOf, Before;
    EligibleIs(q, nodes);
    forall a, b | Before(nodes, a, b) && a in out && b in out ensures Before(EligibleOf(q, nodes), a, b) {
      EligibleKeepsOrder(q, nodes, a, b);
    }
  }
}
