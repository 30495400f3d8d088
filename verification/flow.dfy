/**
 * The flow network inside the baseball-elimination solver: capacitated
 * edges with a mutable flow, adjacency lists that list every edge at both of
 * its endpoints, breadth-first search for augmenting paths in the residual
 * graph, and the Ford-Fulkerson loop that pushes the bottleneck along each
 * path it finds.
 *
 * Edges live in one sequence (`edges`) and the adjacency lists hold indices
 * into it, so updating an edge's flow is visible from both endpoints, as
 * sharing one `FlowEdge` object between two lists is in the source.
 */
module FlowNetworks {
  import opened Wrappers

  /** `Integer.MAX_VALUE`, used as the capacity of game-to-team edges and as the initial bottleneck. */
  const INF: int := 2147483647

  datatype FlowEdge = FlowEdge(from: nat, to: nat, capacity: int, flow: int)

  /** A fresh edge carries no flow. */
  function NewEdge(from: nat, to: nat, capacity: int): FlowEdge {
    FlowEdge(from, to, capacity, 0)
  }

  predicate Incident(e: FlowEdge, v: int) {
    v == e.from || v == e.to
  }

  /** The endpoint of `e` that is not `v` (for an endpoint `v`). */
  function Opposite(e: FlowEdge, v: int): nat {
    if v == e.from then e.to else e.from
  }

  /** How much more flow can travel along `e` towards `w`. */
  function Residual(e: FlowEdge, w: int): int {
    if w == e.to then e.capacity - e.flow else e.flow
  }

  /** `other`: the opposite endpoint; a vertex that is not an endpoint is rejected. */
  function Other(e: FlowEdge, v: int): (r: Result<nat>)
    ensures r.Ok? <==> Incident(e, v)
    ensures r.Err? ==> r.error == IllegalArgument
    ensures r.Ok? ==> {v, r.value} == {e.from, e.to}
    ensures r.Ok? ==> r.value == Opposite(e, v)
  {
    if v == e.from then Ok(e.to)
    else if v == e.to then Ok(e.from)
    else Err(IllegalArgument)
  }

  /**
   * `residualCapacityTo`: towards the head it is the unused capacity, towards
   * the tail it is the flow that could be cancelled.
   */
  function ResidualCapacityTo(e: FlowEdge, v: int): (r: Result<int>)
    ensures r.Ok? <==> Incident(e, v)
    ensures r.Err? ==> r.error == IllegalArgument
    ensures r.Ok? ==> r.value == Residual(e, v)
  {
    if v == e.to then Ok(e.capacity - e.flow)
    else if v == e.from then Ok(e.flow)
    else Err(IllegalArgument)
  }

  /** The two residual capacities of an edge add up to its capacity, and both are non-negative for a feasible flow. */
  lemma ResidualsSplitCapacity(e: FlowEdge)
    requires e.from != e.to
    ensures Residual(e, e.to) + Residual(e, e.from) == e.capacity
    ensures 0 <= e.flow <= e.capacity <==> Residual(e, e.to) >= 0 && Residual(e, e.from) >= 0
  {
  }

  /**
   * `addResidualFlowTo`: pushing `delta` towards `v` uses up `delta` of the
   * residual capacity towards `v`, frees the same amount in the opposite
   * direction, and keeps the flow within `[0, capacity]` when `delta` fits.
   */
  function AddResidualFlowTo(e: FlowEdge, v: int, delta: int): (r: Result<FlowEdge>)
    ensures r.Ok? <==> Incident(e, v)
    ensures r.Err? ==> r.error == IllegalArgument
    ensures r.Ok? ==> r.value.from == e.from && r.value.to == e.to && r.value.capacity == e.capacity
    ensures r.Ok? && e.from != e.to ==>
              && Residual(r.value, v) == Residual(e, v) - delta
              && Residual(r.value, Opposite(e, v)) == Residual(e, Opposite(e, v)) + delta
    ensures r.Ok? && 0 <= e.flow <= e.capacity && 0 <= delta <= Residual(e, v) ==>
              0 <= r.value.flow <= r.value.capacity
  {
    if v == e.to then Ok(e.(flow := e.flow + delta))
    else if v == e.from then Ok(e.(flow := e.flow - delta))
    else Err(IllegalArgument)
  }

  // ---------------------------------------------------------------------------
  // The network

  datatype FlowNetwork = FlowNetwork(v: nat, edges: seq<FlowEdge>, adj: seq<seq<nat>>)

  /**
   * Every edge joins two distinct vertices of the network and is listed at
   * both of them, and every adjacency entry names an edge at that vertex.
   */
  predicate WF(net: FlowNetwork) {
    && |net.adj| == net.v
    && EndpointsIn(net.edges, net.v)
    && (forall x, k :: 0 <= x < |net.adj| && 0 <= k < |net.adj[x]| ==>
          net.adj[x][k] < |net.edges| && Incident(net.edges[net.adj[x][k]], x))
    && (forall i :: 0 <= i < |net.edges| ==>
          i in net.adj[net.edges[i].from] && i in net.adj[net.edges[i].to])
  }

  predicate EndpointsIn(E: seq<FlowEdge>, n: nat) {
    forall i :: 0 <= i < |E| ==> E[i].from < n && E[i].to < n && E[i].from != E[i].to
  }

  /** A network of `n` vertices and no edges. */
  function NewNetwork(n: nat): (net: FlowNetwork)
    ensures WF(net) && net.v == n && net.edges == []
  {
    FlowNetwork(n, [], seq(n, _ => []))
  }

  /**
   * `addEdge`: the edge is appended and listed at both endpoints; an endpoint
   * outside the network is an array index out of bounds.
   */
  function AddEdge(net: FlowNetwork, e: FlowEdge): (r: Result<FlowNetwork>)
    requires |net.adj| == net.v
    ensures r.Ok? <==> e.from < net.v && e.to < net.v
    ensures r.Err? ==> r.error == IndexOutOfBounds
    ensures r.Ok? ==> r.value.v == net.v && r.value.edges == net.edges + [e]
    ensures r.Ok? && WF(net) && e.from != e.to ==> WF(r.value)
  {
    if e.from < net.v && e.to < net.v then
      var i := |net.edges|;
      var tail := net.adj[e.from := net.adj[e.from] + [i]];
      var adj := tail[e.to := tail[e.to] + [i]];
      AddEdgeKeepsWF(net, e, tail, adj);
      Ok(FlowNetwork(net.v, net.edges + [e], adj))
    else
      Err(IndexOutOfBounds)
  }

  lemma AddEdgeKeepsWF(net: FlowNetwork, e: FlowEdge, tail: seq<seq<nat>>, adj: seq<seq<nat>>)
    requires |net.adj| == net.v && e.from < net.v && e.to < net.v
    requires tail == net.adj[e.from := net.adj[e.from] + [|net.edges|]]
    requires adj == tail[e.to := tail[e.to] + [|net.edges|]]
    ensures WF(net) && e.from != e.to ==> WF(FlowNetwork(net.v, net.edges + [e], adj))
  {
    if WF(net) && e.from != e.to {
      AddEdgeKeepsWFCase(net, e, adj);
    }
  }

  lemma AddEdgeKeepsWFCase(net: FlowNetwork, e: FlowEdge, adj: seq<seq<nat>>)
    requires WF(net) && e.from < net.v && e.to < net.v && e.from != e.to
    requires adj == net.adj[e.from := net.adj[e.from] + [|net.edges|]][e.to := net.adj[e.to] + [|net.edges|]]
    ensures WF(FlowNetwork(net.v, net.edges + [e], adj))
  {
    var E := net.edges + [e];
    var i := |net.edges|;
    assert forall x :: 0 <= x < net.v ==> adj[x][..|net.adj[x]|] == net.adj[x];
    forall x, k | 0 <= x < |adj| && 0 <= k < |adj[x]|
      ensures adj[x][k] < |E| && Incident(E[adj[x][k]], x)
    {
      if k < |net.adj[x]| {
        assert adj[x][k] == net.adj[x][k];
      }
    }
    forall j | 0 <= j < |E|
      ensures j in adj[E[j].from] && j in adj[E[j].to]
    {
      if j < i {
        assert E[j] == net.edges[j];
        assert j in net.adj[E[j].from] && j in net.adj[E[j].to];
        assert adj[E[j].from][..|net.adj[E[j].from]|] == net.adj[E[j].from];
        assert adj[E[j].to][..|net.adj[E[j].to]|] == net.adj[E[j].to];
      } else {
        assert adj[e.from][|adj[e.from]| - 1] == i;
        assert adj[e.to][|adj[e.to]| - 1] == i;
      }
    }
  }

  /** Same endpoints and capacities; only flows may differ. */
  predicate SameShape(E: seq<FlowEdge>, F: seq<FlowEdge>) {
    && |E| == |F|
    && forall i :: 0 <= i < |E| ==>
         E[i].from == F[i].from && E[i].to == F[i].to && E[i].capacity == F[i].capacity
  }

  /** Every flow lies within `[0, capacity]`. */
  predicate FlowBounds(E: seq<FlowEdge>) {
    forall i :: 0 <= i < |E| ==> 0 <= E[i].flow <= E[i].capacity
  }

  // ---------------------------------------------------------------------------
  // Net flow out of a vertex, and across a cut

  /** The flow `e` carries out of `x` (negative when it carries flow into `x`). */
  function Contribution(e: FlowEdge, x: int): int {
    (if e.from == x then e.flow else 0) - (if e.to == x then e.flow else 0)
  }

  /** Flow leaving `x` minus flow entering `x`. */
  function NetOut(E: seq<FlowEdge>, x: int): int {
    if |E| == 0 then 0 else Contribution(E[0], x) + NetOut(E[1..], x)
  }

  /** The capacity `e` offers out of `x`. */
  function OutEdge(e: FlowEdge, x: int): int {
    if e.from == x && e.to != x then e.capacity else 0
  }

  /** Total capacity of the edges leaving `x` for another vertex. */
  function OutCap(E: seq<FlowEdge>, x: int): int {
    if |E| == 0 then 0 else OutEdge(E[0], x) + OutCap(E[1..], x)
  }

  /** Conservation everywhere except at the source and the sink. */
  ghost predicate Conserved(E: seq<FlowEdge>, s: int, t: int) {
    forall x :: x != s && x != t ==> NetOut(E, x) == 0
  }

  lemma {:induction false} NetOutZero(E: seq<FlowEdge>, x: int)
    requires forall i :: 0 <= i < |E| ==> E[i].flow == 0
    ensures NetOut(E, x) == 0
  {
    if |E| > 0 {
      NetOutZero(E[1..], x);
    }
  }

  /** A feasible flow never sends out of `x` more than the capacity leaving `x`. */
  lemma {:induction false} NetOutAtMostOutCap(E: seq<FlowEdge>, x: int)
    requires FlowBounds(E)
    ensures NetOut(E, x) <= OutCap(E, x)
  {
    if |E| > 0 {
      NetOutAtMostOutCap(E[1..], x);
    }
  }

  lemma {:induction false} OutCapOfShape(E: seq<FlowEdge>, F: seq<FlowEdge>, x: int)
    requires SameShape(E, F)
    ensures OutCap(E, x) == OutCap(F, x)
  {
    if |E| > 0 {
      OutCapOfShape(E[1..], F[1..], x);
    }
  }

  /** Changing the flow of one edge changes the net outflow of `x` by that edge's change of contribution. */
  lemma {:induction false} NetOutUpdate(E: seq<FlowEdge>, i: nat, e: FlowEdge, x: int)
    requires i < |E| && e.from == E[i].from && e.to == E[i].to
    ensures NetOut(E[i := e], x) == NetOut(E, x) - Contribution(E[i], x) + Contribution(e, x)
  {
    if i > 0 {
      assert E[i := e][1..] == E[1..][i - 1 := e];
      NetOutUpdate(E[1..], i - 1, e, x);
    } else {
      assert E[i := e][1..] == E[1..];
    }
  }

  /** Membership in a vertex set given as a boolean sequence. */
  predicate InSet(S: seq<bool>, x: int) {
    0 <= x < |S| && S[x]
  }

  /** The set holding only `x`. */
  function Singleton(n: nat, x: nat): seq<bool> {
    seq(n, y => y == x)
  }

  /** Net flow out of the vertex set `S`, counted edge by edge. */
  function CutNet(E: seq<FlowEdge>, S: seq<bool>): int {
    if |E| == 0 then 0
    else
      (if InSet(S, E[0].from) then E[0].flow else 0) - (if InSet(S, E[0].to) then E[0].flow else 0)
      + CutNet(E[1..], S)
  }

  /** The capacity `e` contributes to the cut around `S`. */
  function CutEdge(e: FlowEdge, S: seq<bool>): int {
    if InSet(S, e.from) && !InSet(S, e.to) then e.capacity else 0
  }

  /** Capacity of the edges leaving the vertex set `S`. */
  function CutCapacity(E: seq<FlowEdge>, S: seq<bool>): int {
    if |E| == 0 then 0 else CutEdge(E[0], S) + CutCapacity(E[1..], S)
  }

  /** The sum of the net outflows of the vertices of `S` below `k`. */
  function VertexSum(E: seq<FlowEdge>, S: seq<bool>, k: nat): int {
    if k == 0 then 0
    else VertexSum(E, S, k - 1) + (if InSet(S, k - 1) then NetOut(E, k - 1) else 0)
  }

  function EdgeVertexSum(e: FlowEdge, S: seq<bool>, k: nat): int {
    if k == 0 then 0
    else EdgeVertexSum(e, S, k - 1) + (if InSet(S, k - 1) then Contribution(e, k - 1) else 0)
  }

  lemma {:induction false} EdgeVertexSumIsCrossing(e: FlowEdge, S: seq<bool>, k: nat)
    ensures EdgeVertexSum(e, S, k)
            == (if InSet(S, e.from) && e.from < k then e.flow else 0)
             - (if InSet(S, e.to) && e.to < k then e.flow else 0)
  {
    if k > 0 {
      EdgeVertexSumIsCrossing(e, S, k - 1);
    }
  }

  lemma {:induction false} VertexSumSplit(E: seq<FlowEdge>, S: seq<bool>, k: nat)
    requires |E| > 0
    ensures VertexSum(E, S, k) == EdgeVertexSum(E[0], S, k) + VertexSum(E[1..], S, k)
  {
    if k > 0 {
      VertexSumSplit(E, S, k - 1);
    }
  }

  lemma {:induction false} VertexSumEmpty(E: seq<FlowEdge>, S: seq<bool>, k: nat)
    requires |E| == 0
    ensures VertexSum(E, S, k) == 0
  {
    if k > 0 {
      VertexSumEmpty(E, S, k - 1);
    }
  }

  /** Summing net outflows over the vertices of `S` counts only the edges that cross the cut. */
  lemma {:induction false} VertexSumIsCutNet(E: seq<FlowEdge>, S: seq<bool>, n: nat)
    requires EndpointsIn(E, n)
    ensures VertexSum(E, S, n) == CutNet(E, S)
  {
    if |E| == 0 {
      VertexSumEmpty(E, S, n);
    } else {
      VertexSumSplit(E, S, n);
      EdgeVertexSumIsCrossing(E[0], S, n);
      assert EndpointsIn(E[1..], n) by {
        forall i | 0 <= i < |E[1..]|
          ensures E[1..][i].from < n && E[1..][i].to < n && E[1..][i].from != E[1..][i].to
        {
          assert E[1..][i] == E[i + 1];
        }
      }
      VertexSumIsCutNet(E[1..], S, n);
    }
  }

  /** Under conservation only the source contributes to the vertex sum of a cut that separates it from the sink. */
  lemma {:induction false} VertexSumOfConserved(E: seq<FlowEdge>, S: seq<bool>, s: nat, t: nat, k: nat)
    requires Conserved(E, s, t) && InSet(S, s) && !InSet(S, t)
    ensures VertexSum(E, S, k) == (if s < k then NetOut(E, s) else 0)
  {
    if k > 0 {
      VertexSumOfConserved(E, S, s, t, k - 1);
    }
  }

  lemma {:induction false} CutNetAtMostCapacity(E: seq<FlowEdge>, S: seq<bool>)
    requires FlowBounds(E)
    ensures CutNet(E, S) <= CutCapacity(E, S)
  {
    if |E| > 0 {
      CutNetAtMostCapacity(E[1..], S);
    }
  }

  /** Every edge leaving `S` is saturated and every edge entering `S` is empty. */
  predicate Saturated(E: seq<FlowEdge>, S: seq<bool>) {
    forall i :: 0 <= i < |E| ==>
      && (InSet(S, E[i].from) && !InSet(S, E[i].to) ==> E[i].flow == E[i].capacity)
      && (InSet(S, E[i].to) && !InSet(S, E[i].from) ==> E[i].flow == 0)
  }

  lemma {:induction false} CutNetOfSaturated(E: seq<FlowEdge>, S: seq<bool>)
    requires Saturated(E, S)
    ensures CutNet(E, S) == CutCapacity(E, S)
  {
    if |E| > 0 {
      assert Saturated(E[1..], S) by {
        forall i | 0 <= i < |E[1..]|
          ensures InSet(S, E[1..][i].from) && !InSet(S, E[1..][i].to) ==> E[1..][i].flow == E[1..][i].capacity
          ensures InSet(S, E[1..][i].to) && !InSet(S, E[1..][i].from) ==> E[1..][i].flow == 0
        {
          assert E[1..][i] == E[i + 1];
        }
      }
      CutNetOfSaturated(E[1..], S);
    }
  }

  /** The value of a flow is its net flow across any cut separating source from sink. */
  lemma ValueIsCutNet(E: seq<FlowEdge>, n: nat, s: nat, t: nat, S: seq<bool>)
    requires EndpointsIn(E, n) && s < n && Conserved(E, s, t) && InSet(S, s) && !InSet(S, t)
    ensures NetOut(E, s) == CutNet(E, S)
  {
    VertexSumOfConserved(E, S, s, t, n);
    VertexSumIsCutNet(E, S, n);
  }

  /**
   * Weak duality: the value of a feasible flow is at most the capacity of any
   * cut that separates the source from the sink.
   */
  lemma FlowAtMostCut(E: seq<FlowEdge>, n: nat, s: nat, t: nat, S: seq<bool>)
    requires EndpointsIn(E, n) && s < n && FlowBounds(E) && Conserved(E, s, t)
    requires InSet(S, s) && !InSet(S, t)
    ensures NetOut(E, s) <= CutCapacity(E, S)
  {
    ValueIsCutNet(E, n, s, t, S);
    CutNetAtMostCapacity(E, S);
  }

  lemma {:induction false} CutCapacityOfShape(E: seq<FlowEdge>, F: seq<FlowEdge>, S: seq<bool>)
    requires SameShape(E, F)
    ensures CutCapacity(E, S) == CutCapacity(F, S)
  {
    if |E| > 0 {
      CutCapacityOfShape(E[1..], F[1..], S);
    }
  }

  // ---------------------------------------------------------------------------
  // Breadth-first search in the residual graph

  function CountTrue(m: seq<bool>): (c: nat)
    ensures c <= |m|
  {
    if |m| == 0 then 0 else (if m[0] then 1 else 0) + CountTrue(m[1..])
  }

  lemma {:induction false} CountTrueMark(m: seq<bool>, w: nat)
    requires w < |m| && !m[w]
    ensures CountTrue(m[w := true]) == CountTrue(m) + 1
  {
    if w > 0 {
      assert m[w := true][1..] == m[1..][w - 1 := true];
      CountTrueMark(m[1..], w - 1);
    } else {
      assert m[w := true][1..] == m[1..];
    }
  }

  /**
   * `v` was reached through edge `edgeTo[v]`, which still has residual
   * capacity towards `v` and whose other end was reached earlier (at a
   * smaller depth).
   */
  predicate Witnessed(E: seq<FlowEdge>, marked: seq<bool>, edgeTo: seq<int>, depth: seq<nat>, v: nat) {
    && v < |marked| && v < |edgeTo| && v < |depth|
    && 0 <= edgeTo[v] < |E|
    && Incident(E[edgeTo[v]], v)
    && Residual(E[edgeTo[v]], v) > 0
    && var u := Opposite(E[edgeTo[v]], v);
       u < |marked| && u < |depth| && marked[u] && depth[u] < depth[v]
  }

  /** The marks and `edgeTo` entries form a tree of residual paths rooted at `s`. */
  predicate SearchTree(E: seq<FlowEdge>, n: nat, s: nat, marked: seq<bool>, edgeTo: seq<int>, depth: seq<nat>) {
    && |marked| == n && |edgeTo| == n && |depth| == n && s < n && marked[s]
    && forall v :: 0 <= v < n && marked[v] && v != s ==> Witnessed(E, marked, edgeTo, depth, v)
  }

  /** The first `k` edges at `v` lead to a marked vertex or have no residual capacity towards it. */
  predicate ExploredUpTo(net: FlowNetwork, marked: seq<bool>, v: nat, k: nat) {
    && v < |net.adj| && k <= |net.adj[v]|
    && forall j :: 0 <= j < k ==>
         net.adj[v][j] < |net.edges|
         && var e := net.edges[net.adj[v][j]];
            InSet(marked, Opposite(e, v)) || Residual(e, Opposite(e, v)) <= 0
  }

  predicate Explored(net: FlowNetwork, marked: seq<bool>, v: nat) {
    v < |net.adj| && ExploredUpTo(net, marked, v, |net.adj[v]|)
  }

  /** The search stops only when no residual edge leaves the marked set. */
  predicate Closed(net: FlowNetwork, marked: seq<bool>) {
    forall v :: 0 <= v < |marked| && marked[v] ==> Explored(net, marked, v)
  }

  /** The bookkeeping of the search: the queue lists exactly the marked vertices, which form a search tree. */
  ghost predicate Frontier(net: FlowNetwork, s: nat, marked: seq<bool>, edgeTo: seq<int>, depth: seq<nat>, queue: seq<nat>) {
    && |marked| == net.v
    && |queue| == CountTrue(marked)
    && (forall j :: 0 <= j < |queue| ==> queue[j] < net.v && marked[queue[j]])
    && (forall v :: 0 <= v < net.v && marked[v] ==> v in queue)
    && SearchTree(net.edges, net.v, s, marked, edgeTo, depth)
  }

  /** The first `h` queued vertices have been explored. */
  ghost predicate ExploredPrefix(net: FlowNetwork, marked: seq<bool>, queue: seq<nat>, h: nat) {
    h <= |queue| && forall j :: 0 <= j < h ==> Explored(net, marked, queue[j])
  }

  /**
   * `hasAugmentingPath`: breadth-first search from `s` over edges with
   * positive residual capacity. The ghost `depth` records the order of
   * discovery that makes the `edgeTo` links a tree.
   */
  method HasAugmentingPath(net: FlowNetwork, s: nat, t: nat)
    returns (found: bool, marked: seq<bool>, edgeTo: seq<int>, ghost depth: seq<nat>)
    requires WF(net) && s < net.v && t < net.v
    ensures SearchTree(net.edges, net.v, s, marked, edgeTo, depth)
    ensures found == marked[t]
    ensures Closed(net, marked)
  {
    var n := net.v;
    var queue;
    marked, edgeTo, depth, queue := StartSearch(net, s);
    var head := 0;
    while head < |queue|
      invariant Frontier(net, s, marked, edgeTo, depth, queue) && ExploredPrefix(net, marked, queue, head)
      decreases n - head
    {
      marked, edgeTo, depth, queue := VisitNext(net, s, marked, edgeTo, depth, queue, head);
      head := head + 1;
    }
    FrontierClosed(net, s, marked, edgeTo, depth, queue);
    found := marked[t];
  }

  /** One round of the outer loop: the vertex at the head of the queue has all its edges explored. */
  method VisitNext(net: FlowNetwork, s: nat, marked0: seq<bool>, edgeTo0: seq<int>, ghost depth0: seq<nat>,
                   queue0: seq<nat>, head: nat)
    returns (marked: seq<bool>, edgeTo: seq<int>, ghost depth: seq<nat>, queue: seq<nat>)
    requires WF(net) && Frontier(net, s, marked0, edgeTo0, depth0, queue0)
    requires head < |queue0| && ExploredPrefix(net, marked0, queue0, head)
    ensures Frontier(net, s, marked, edgeTo, depth, queue) && ExploredPrefix(net, marked, queue, head + 1)
  {
    var v, next := queue0[head], head + 1;
    marked, edgeTo, depth, queue := VisitEdges(net, s, marked0, edgeTo0, depth0, queue0, next, v);
    ExploredPrefixGrows(net, marked, queue, next);
  }

  /**
   * The inner loop of `hasAugmentingPath`: every edge at `v` with residual
   * capacity towards an unmarked vertex marks that vertex, records the edge
   * and queues the vertex.
   */
  method VisitEdges(net: FlowNetwork, s: nat, marked0: seq<bool>, edgeTo0: seq<int>, ghost depth0: seq<nat>,
                    queue0: seq<nat>, head: nat, v: nat)
    returns (marked: seq<bool>, edgeTo: seq<int>, ghost depth: seq<nat>, queue: seq<nat>)
    requires WF(net) && Frontier(net, s, marked0, edgeTo0, depth0, queue0)
    requires 1 <= head <= |queue0| && v == queue0[head - 1]
    requires ExploredPrefix(net, marked0, queue0, head - 1)
    ensures Frontier(net, s, marked, edgeTo, depth, queue) && |queue0| <= |queue| && queue[head - 1] == v
    ensures ExploredPrefix(net, marked, queue, head - 1) && Explored(net, marked, v)
  {
    marked, edgeTo, depth, queue := marked0, edgeTo0, depth0, queue0;
    var k := 0;
    while k < |net.adj[v]|
      invariant Frontier(net, s, marked, edgeTo, depth, queue)
      invariant |queue0| <= |queue| && v == queue[head - 1]
      invariant ExploredPrefix(net, marked, queue, head - 1) && ExploredUpTo(net, marked, v, k)
      decreases |net.adj[v]| - k
    {
      var i := net.adj[v][k];
      var edge := net.edges[i];
      var w := Other(edge, v).value;
      var residual := ResidualCapacityTo(edge, w).value;
      if !marked[w] && residual > 0 {
        MarkStep(net, s, marked, edgeTo, depth, queue, head, v, k);
        marked := marked[w := true];
        edgeTo := edgeTo[w := i];
        depth := depth[w := depth[v] + 1];
        queue := queue + [w];
      } else {
        SkipStep(net, marked, v, k);
      }
      k := k + 1;
    }
  }

  /** The search starts with only `s` marked and queued, and no `edgeTo` links. */
  method StartSearch(net: FlowNetwork, s: nat)
    returns (marked: seq<bool>, edgeTo: seq<int>, ghost depth: seq<nat>, queue: seq<nat>)
    requires s < net.v
    ensures Frontier(net, s, marked, edgeTo, depth, queue) && ExploredPrefix(net, marked, queue, 0)
    ensures marked == seq(net.v, x => x == s) && edgeTo == seq(net.v, x => -1) && queue == [s]
  {
    marked := seq(net.v, x => x == s);
    edgeTo := seq(net.v, x => -1);
    depth := seq(net.v, x => 0);
    queue := [s];
    StartFrontier(net, s, marked, edgeTo, depth, queue);
  }

  lemma StartFrontier(net: FlowNetwork, s: nat, marked: seq<bool>, edgeTo: seq<int>, depth: seq<nat>, queue: seq<nat>)
    requires s < net.v && marked == seq(net.v, x => x == s) && queue == [s]
    requires |edgeTo| == net.v && depth == seq(net.v, x => 0)
    ensures Frontier(net, s, marked, edgeTo, depth, queue)
  {
    var none := seq(net.v, x => false);
    CountTrueNone(net.v);
    CountTrueMark(none, s);
    assert none[s := true] == marked;
  }

  lemma ExploredPrefixGrows(net: FlowNetwork, marked: seq<bool>, queue: seq<nat>, head: nat)
    requires 1 <= head <= |queue| && ExploredPrefix(net, marked, queue, head - 1)
    requires Explored(net, marked, queue[head - 1])
    ensures ExploredPrefix(net, marked, queue, head)
  {
  }

  lemma SkipStep(net: FlowNetwork, marked: seq<bool>, v: nat, k: nat)
    requires WF(net) && v < net.v && k < |net.adj[v]| && ExploredUpTo(net, marked, v, k)
    requires var e := net.edges[net.adj[v][k]];
             InSet(marked, Opposite(e, v)) || Residual(e, Opposite(e, v)) <= 0
    ensures ExploredUpTo(net, marked, v, k + 1)
  {
  }

  /** Marking a newly reached vertex keeps the search bookkeeping intact and explores one more edge. */
  lemma MarkStep(net: FlowNetwork, s: nat, marked: seq<bool>, edgeTo: seq<int>, depth: seq<nat>,
                 queue: seq<nat>, head: nat, v: nat, k: nat)
    requires WF(net) && Frontier(net, s, marked, edgeTo, depth, queue)
    requires 1 <= head <= |queue| && v == queue[head - 1] && k < |net.adj[v]|
    requires ExploredPrefix(net, marked, queue, head - 1) && ExploredUpTo(net, marked, v, k)
    requires var e := net.edges[net.adj[v][k]];
             !marked[Opposite(e, v)] && Residual(e, Opposite(e, v)) > 0
    ensures var i := net.adj[v][k];
            var w := Opposite(net.edges[i], v);
            var marked' := marked[w := true];
            var queue' := queue + [w];
            && Frontier(net, s, marked', edgeTo[w := i], depth[w := depth[v] + 1], queue')
            && ExploredPrefix(net, marked', queue', head - 1)
            && ExploredUpTo(net, marked', v, k + 1)
  {
    var i := net.adj[v][k];
    var e := net.edges[i];
    var w := Opposite(e, v);
    EdgeAt(net, v, k);
    assert v < net.v && marked[v];
    MarkKeepsFrontier(net, s, marked, edgeTo, depth, queue, w, i, v);
    MarkKeepsPrefix(net, marked, queue, head - 1, w);
    MarkExtends(net, marked, v, k, w);
  }

  /** The `k`-th edge at `v` joins `v` to another vertex of the network. */
  lemma EdgeAt(net: FlowNetwork, v: nat, k: nat)
    requires WF(net) && v < net.v && k < |net.adj[v]|
    ensures var i := net.adj[v][k];
            && i < |net.edges| && Incident(net.edges[i], v)
            && var w := Opposite(net.edges[i], v);
               w < net.v && Incident(net.edges[i], w) && Opposite(net.edges[i], w) == v
  {
  }

  /** The edge just followed leads to a marked vertex. */
  lemma MarkExtends(net: FlowNetwork, marked: seq<bool>, v: nat, k: nat, w: nat)
    requires ExploredUpTo(net, marked, v, k) && k < |net.adj[v]| && net.adj[v][k] < |net.edges|
    requires Opposite(net.edges[net.adj[v][k]], v) == w && w < |marked|
    ensures ExploredUpTo(net, marked[w := true], v, k + 1)
  {
    ExploredMonotone(net, marked, marked[w := true], v, k);
  }

  /** Queueing a newly reached vertex `w`, reached from `v` along edge `i`, keeps the bookkeeping. */
  lemma MarkKeepsFrontier(net: FlowNetwork, s: nat, marked: seq<bool>, edgeTo: seq<int>, depth: seq<nat>,
                          queue: seq<nat>, w: nat, i: nat, v: nat)
    requires Frontier(net, s, marked, edgeTo, depth, queue)
    requires w < net.v && !marked[w] && v < net.v && marked[v]
    requires i < |net.edges| && Incident(net.edges[i], w) && Opposite(net.edges[i], w) == v && Residual(net.edges[i], w) > 0
    ensures Frontier(net, s, marked[w := true], edgeTo[w := i], depth[w := depth[v] + 1], queue + [w])
  {
    var marked', queue' := marked[w := true], queue + [w];
    CountTrueMark(marked, w);
    TreeGrows(net.edges, net.v, s, marked, edgeTo, depth, w, i, v);
    forall x | 0 <= x < net.v && marked'[x]
      ensures x in queue'
    {
      if x != w {
        assert x in queue;
      }
    }
  }

  /** Marking one more vertex keeps explored vertices explored. */
  lemma MarkKeepsPrefix(net: FlowNetwork, marked: seq<bool>, queue: seq<nat>, h: nat, w: nat)
    requires ExploredPrefix(net, marked, queue, h) && w < |marked|
    ensures ExploredPrefix(net, marked[w := true], queue + [w], h)
  {
    var marked', queue' := marked[w := true], queue + [w];
    forall j | 0 <= j < h
      ensures Explored(net, marked', queue'[j])
    {
      assert queue'[j] == queue[j];
      ExploredMonotone(net, marked, marked', queue[j], |net.adj[queue[j]]|);
    }
  }

  /** Attaching an unmarked vertex below a marked one keeps the tree a tree. */
  lemma TreeGrows(E: seq<FlowEdge>, n: nat, s: nat, marked: seq<bool>, edgeTo: seq<int>, depth: seq<nat>,
                  w: nat, i: nat, v: nat)
    requires SearchTree(E, n, s, marked, edgeTo, depth)
    requires w < n && !marked[w] && v < n && marked[v]
    requires i < |E| && Incident(E[i], w) && Opposite(E[i], w) == v && Residual(E[i], w) > 0
    ensures SearchTree(E, n, s, marked[w := true], edgeTo[w := i], depth[w := depth[v] + 1])
  {
    var marked', edgeTo', depth' := marked[w := true], edgeTo[w := i], depth[w := depth[v] + 1];
    forall x | 0 <= x < n && marked'[x] && x != s
      ensures Witnessed(E, marked', edgeTo', depth', x)
    {
      if x != w {
        assert Witnessed(E, marked, edgeTo, depth, x);
        assert Opposite(E[edgeTo[x]], x) != w;
      }
    }
  }

  lemma ExploredMonotone(net: FlowNetwork, m: seq<bool>, m': seq<bool>, v: nat, k: nat)
    requires |m| <= |m'| && forall x :: 0 <= x < |m| && m[x] ==> m'[x]
    requires ExploredUpTo(net, m, v, k)
    ensures ExploredUpTo(net, m', v, k)
  {
  }

  /** Once every queued vertex is explored, no marked vertex has an unexplored residual edge. */
  lemma FrontierClosed(net: FlowNetwork, s: nat, marked: seq<bool>, edgeTo: seq<int>, depth: seq<nat>, queue: seq<nat>)
    requires Frontier(net, s, marked, edgeTo, depth, queue) && ExploredPrefix(net, marked, queue, |queue|)
    ensures Closed(net, marked)
  {
    forall v | 0 <= v < |marked| && marked[v]
      ensures Explored(net, marked, v)
    {
      var j :| 0 <= j < |queue| && queue[j] == v;
    }
  }

  lemma {:induction false} CountTrueNone(n: nat)
    ensures CountTrue(seq(n, x => false)) == 0
  {
    if n > 0 {
      assert seq(n, x => false)[1..] == seq(n - 1, x => false);
      CountTrueNone(n - 1);
    }
  }

  /** A closed search leaves every edge out of the marked set saturated and every edge into it empty. */
  lemma ClosedIsSaturated(net: FlowNetwork, marked: seq<bool>)
    requires WF(net) && |marked| == net.v && Closed(net, marked) && FlowBounds(net.edges)
    ensures Saturated(net.edges, marked)
  {
    var E := net.edges;
    forall i | 0 <= i < |E|
      ensures InSet(marked, E[i].from) && !InSet(marked, E[i].to) ==> E[i].flow == E[i].capacity
      ensures InSet(marked, E[i].to) && !InSet(marked, E[i].from) ==> E[i].flow == 0
    {
      if InSet(marked, E[i].from) && !InSet(marked, E[i].to) {
        var k :| 0 <= k < |net.adj[E[i].from]| && net.adj[E[i].from][k] == i;
        assert Explored(net, marked, E[i].from);
      }
      if InSet(marked, E[i].to) && !InSet(marked, E[i].from) {
        var k :| 0 <= k < |net.adj[E[i].to]| && net.adj[E[i].to][k] == i;
        assert Explored(net, marked, E[i].to);
      }
    }
  }

  // ---------------------------------------------------------------------------
  // Augmenting along the search tree

  function Min(a: int, b: int): int {
    if a <= b then a else b
  }

  /** The smallest residual capacity on the tree path from `s` to `v`, capped at `INF`. */
  function PathMin(E: seq<FlowEdge>, n: nat, s: nat, marked: seq<bool>, edgeTo: seq<int>, depth: seq<nat>, v: nat): (m: int)
    requires SearchTree(E, n, s, marked, edgeTo, depth) && v < n && marked[v]
    ensures 0 < m <= INF
    decreases depth[v]
  {
    if v == s then INF
    else
      var e := E[edgeTo[v]];
      Min(Residual(e, v), PathMin(E, n, s, marked, edgeTo, depth, Opposite(e, v)))
  }

  /**
   * The bottleneck loop: walking from `t` back to `s` along `edgeTo`, the
   * minimum residual capacity met, starting from `INF`.
   */
  method Bottleneck(E: seq<FlowEdge>, n: nat, s: nat, t: nat, marked: seq<bool>, edgeTo: seq<int>, ghost depth: seq<nat>)
    returns (bottle: int)
    requires SearchTree(E, n, s, marked, edgeTo, depth) && t < n && marked[t]
    ensures bottle == PathMin(E, n, s, marked, edgeTo, depth, t)
    ensures 0 < bottle <= INF
  {
    bottle := INF;
    var v: nat := t;
    while v != s
      invariant v < n && marked[v] && bottle <= INF
      invariant Min(bottle, PathMin(E, n, s, marked, edgeTo, depth, v)) == PathMin(E, n, s, marked, edgeTo, depth, t)
      decreases depth[v]
    {
      assert Witnessed(E, marked, edgeTo, depth, v);
      var e := E[edgeTo[v]];
      bottle := Min(bottle, ResidualCapacityTo(e, v).value);
      v := Other(e, v).value;
    }
  }

  /** Tree edges of distinct vertices are distinct: a shared edge would make each vertex the parent of the other. */
  lemma TreeEdgesDistinct(E: seq<FlowEdge>, n: nat, s: nat, marked: seq<bool>, edgeTo: seq<int>, depth: seq<nat>, u: nat, w: nat)
    requires EndpointsIn(E, n) && SearchTree(E, n, s, marked, edgeTo, depth)
    requires u < n && w < n && marked[u] && marked[w] && u != s && w != s && u != w
    ensures edgeTo[u] != edgeTo[w]
  {
    assert Witnessed(E, marked, edgeTo, depth, u) && Witnessed(E, marked, edgeTo, depth, w);
  }

  /** The tree edges of vertices no deeper than `d` still hold their original flow. */
  ghost predicate Untouched(E0: seq<FlowEdge>, E: seq<FlowEdge>, n: nat, s: nat, marked: seq<bool>, edgeTo: seq<int>, depth: seq<nat>, d: nat) {
    forall u ::
      (0 <= u < n && u < |marked| && u < |edgeTo| && u < |depth| && marked[u] && u != s && depth[u] <= d
       && 0 <= edgeTo[u] < |E0| && edgeTo[u] < |E|) ==> E[edgeTo[u]] == E0[edgeTo[u]]
  }

  lemma UntouchedStep(E0: seq<FlowEdge>, E: seq<FlowEdge>, n: nat, s: nat, marked: seq<bool>, edgeTo: seq<int>, depth: seq<nat>,
                      v: nat, e: FlowEdge)
    requires EndpointsIn(E0, n) && SearchTree(E0, n, s, marked, edgeTo, depth) && |E| == |E0|
    requires v < n && marked[v] && v != s
    requires Untouched(E0, E, n, s, marked, edgeTo, depth, depth[v])
    ensures Untouched(E0, E[edgeTo[v] := e], n, s, marked, edgeTo, depth, depth[Opposite(E0[edgeTo[v]], v)])
  {
    var p := Opposite(E0[edgeTo[v]], v);
    assert Witnessed(E0, marked, edgeTo, depth, v);
    forall u | 0 <= u < n && marked[u] && u != s && depth[u] <= depth[p] && 0 <= edgeTo[u] < |E0|
      ensures E[edgeTo[v] := e][edgeTo[u]] == E0[edgeTo[u]]
    {
      TreeEdgesDistinct(E0, n, s, marked, edgeTo, depth, u, v);
    }
  }

  /**
   * The push loop: `bottle` more units travel along the tree path from `s`
   * to `t`. Only the net outflows of `s` and `t` change.
   */
  method Augment(E0: seq<FlowEdge>, n: nat, s: nat, t: nat, marked: seq<bool>, edgeTo: seq<int>, ghost depth: seq<nat>, bottle: int)
    returns (E: seq<FlowEdge>)
    requires EndpointsIn(E0, n) && FlowBounds(E0)
    requires SearchTree(E0, n, s, marked, edgeTo, depth) && t < n && marked[t]
    requires 0 < bottle <= PathMin(E0, n, s, marked, edgeTo, depth, t)
    ensures SameShape(E0, E) && FlowBounds(E)
    ensures forall x :: NetOut(E, x) == NetOut(E0, x) + (if x == s then bottle else 0) - (if x == t then bottle else 0)
  {
    E := E0;
    var v: nat := t;
    while v != s
      invariant v < n && marked[v]
      invariant SameShape(E0, E) && FlowBounds(E)
      invariant bottle <= PathMin(E0, n, s, marked, edgeTo, depth, v)
      invariant Untouched(E0, E, n, s, marked, edgeTo, depth, depth[v])
      invariant forall x :: NetOut(E, x) == NetOut(E0, x) + (if x == v then bottle else 0) - (if x == t then bottle else 0)
      decreases depth[v]
    {
      assert Witnessed(E0, marked, edgeTo, depth, v);
      var i := edgeTo[v];
      assert E[i] == E0[i];
      var pushed := AddResidualFlowTo(E[i], v, bottle).value;
      forall x
        ensures NetOut(E[i := pushed], x) == NetOut(E, x) - Contribution(E[i], x) + Contribution(pushed, x)
      {
        NetOutUpdate(E, i, pushed, x);
      }
      UntouchedStep(E0, E, n, s, marked, edgeTo, depth, v, pushed);
      E := E[i := pushed];
      v := Other(E[i], v).value;
    }
  }

  lemma WFOfShape(net: FlowNetwork, E: seq<FlowEdge>)
    requires WF(net) && SameShape(net.edges, E)
    ensures WF(FlowNetwork(net.v, E, net.adj))
  {
    var net' := FlowNetwork(net.v, E, net.adj);
    forall x, k | 0 <= x < |net.adj| && 0 <= k < |net.adj[x]|
      ensures net.adj[x][k] < |E| && Incident(E[net.adj[x][k]], x)
    {
    }
  }

  /**
   * `FordFulkerson`: augment along breadth-first paths until the sink is no
   * longer reachable. The result is a feasible flow whose value equals the
   * capacity of the cut around the vertices the last search marked.
   */
  method FordFulkerson(net: FlowNetwork, s: nat, t: nat)
    returns (res: FlowNetwork, value: int, marked: seq<bool>, edgeTo: seq<int>, ghost depth: seq<nat>)
    requires WF(net) && s < net.v && t < net.v && s != t
    requires forall i :: 0 <= i < |net.edges| ==> net.edges[i].flow == 0 && net.edges[i].capacity >= 0
    ensures res.v == net.v && res.adj == net.adj && SameShape(net.edges, res.edges) && WF(res)
    ensures FlowBounds(res.edges) && Conserved(res.edges, s, t)
    ensures value == NetOut(res.edges, s)
    ensures |marked| == net.v && marked[s] && !marked[t]
    ensures value == CutCapacity(res.edges, marked)
    ensures SearchTree(res.edges, net.v, s, marked, edgeTo, depth) && Closed(res, marked)
  {
    forall x ensures NetOut(net.edges, x) == 0 {
      NetOutZero(net.edges, x);
    }
    value := 0;
    res := net;
    NetOutAtMostOutCap(net.edges, s);
    var found;
    found, marked, edgeTo, depth := HasAugmentingPath(res, s, t);
    while found
      invariant res.v == net.v && res.adj == net.adj && SameShape(net.edges, res.edges) && WF(res)
      invariant FlowBounds(res.edges) && Conserved(res.edges, s, t)
      invariant value == NetOut(res.edges, s) <= OutCap(net.edges, s)
      invariant SearchTree(res.edges, net.v, s, marked, edgeTo, depth) && found == marked[t] && Closed(res, marked)
      decreases OutCap(net.edges, s) - value
    {
      var bottle := Bottleneck(res.edges, net.v, s, t, marked, edgeTo, depth);
      var edges := Augment(res.edges, net.v, s, t, marked, edgeTo, depth, bottle);
      value := value + bottle;
      WFOfShape(res, edges);
      res := FlowNetwork(res.v, edges, res.adj);
      NetOutAtMostOutCap(res.edges, s);
      OutCapOfShape(net.edges, res.edges, s);
      found, marked, edgeTo, depth := HasAugmentingPath(res, s, t);
    }
    ClosedIsSaturated(res, marked);
    CutNetOfSaturated(res.edges, marked);
    ValueIsCutNet(res.edges, net.v, s, t, marked);
  }

  /**
   * Max-flow min-cut: no feasible flow on the same network beats the one
   * Ford-Fulkerson returns, and no cut is smaller than the marked one.
   */
  lemma FordFulkersonIsOptimal(net: FlowNetwork, res: FlowNetwork, value: int, marked: seq<bool>, s: nat, t: nat,
                               other: seq<FlowEdge>, S: seq<bool>)
    requires WF(net) && s < net.v && t < net.v
    requires SameShape(net.edges, res.edges) && value == CutCapacity(res.edges, marked)
    requires InSet(marked, s) && !InSet(marked, t)
    requires FlowBounds(res.edges) && Conserved(res.edges, s, t) && value == NetOut(res.edges, s)
    requires SameShape(net.edges, other) && FlowBounds(other) && Conserved(other, s, t)
    requires InSet(S, s) && !InSet(S, t)
    ensures NetOut(other, s) <= value <= CutCapacity(net.edges, S)
  {
    CutCapacityOfShape(net.edges, res.edges, marked);
    CutCapacityOfShape(net.edges, other, marked);
    assert EndpointsIn(other, net.v);
    assert EndpointsIn(res.edges, net.v);
    FlowAtMostCut(other, net.v, s, t, marked);
    CutCapacityOfShape(net.edges, res.edges, S);
    FlowAtMostCut(res.edges, net.v, s, t, S);
  }

  // ---------------------------------------------------------------------------
  // Facts used to read a certificate off the final search

  lemma {:induction false} CutCapacityAppend(A: seq<FlowEdge>, B: seq<FlowEdge>, S: seq<bool>)
    ensures CutCapacity(A + B, S) == CutCapacity(A, S) + CutCapacity(B, S)
  {
    if |A| > 0 {
      assert (A + B)[1..] == A[1..] + B;
      CutCapacityAppend(A[1..], B, S);
    } else {
      assert A + B == B;
    }
  }

  lemma {:induction false} OutCapAppend(A: seq<FlowEdge>, B: seq<FlowEdge>, x: int)
    ensures OutCap(A + B, x) == OutCap(A, x) + OutCap(B, x)
  {
    if |A| > 0 {
      assert (A + B)[1..] == A[1..] + B;
      OutCapAppend(A[1..], B, x);
    } else {
      assert A + B == B;
    }
  }

  lemma {:induction false} CutCapacityNonNegative(E: seq<FlowEdge>, S: seq<bool>)
    requires forall i :: 0 <= i < |E| ==> E[i].capacity >= 0
    ensures CutCapacity(E, S) >= 0
  {
    if |E| > 0 {
      CutCapacityNonNegative(E[1..], S);
    }
  }

  /** One unsaturated edge out of `x` keeps the net outflow of `x` strictly below the capacity out of `x`. */
  lemma {:induction false} NetOutBelowOutCap(E: seq<FlowEdge>, x: int, k: nat)
    requires FlowBounds(E) && k < |E|
    requires E[k].from == x && E[k].to != x && E[k].flow < E[k].capacity
    ensures NetOut(E, x) < OutCap(E, x)
  {
    if k == 0 {
      NetOutAtMostOutCap(E[1..], x);
    } else {
      NetOutBelowOutCap(E[1..], x, k - 1);
    }
  }

  /** Every vertex the search reached other than the root hangs below some child of the root. */
  lemma {:induction false} RootChild(E: seq<FlowEdge>, n: nat, s: nat, marked: seq<bool>, edgeTo: seq<int>, depth: seq<nat>, v: nat)
    returns (u: nat)
    requires SearchTree(E, n, s, marked, edgeTo, depth) && v < n && marked[v] && v != s
    ensures u < n && marked[u] && u != s && Witnessed(E, marked, edgeTo, depth, u)
    ensures Opposite(E[edgeTo[u]], u) == s
    decreases depth[v]
  {
    assert Witnessed(E, marked, edgeTo, depth, v);
    var p := Opposite(E[edgeTo[v]], v);
    if p == s {
      u := v;
    } else {
      u := RootChild(E, n, s, marked, edgeTo, depth, p);
    }
  }

  lemma CutCapacityTriple(a: FlowEdge, b: FlowEdge, c: FlowEdge, S: seq<bool>)
    ensures CutCapacity([a], S) == CutEdge(a, S)
    ensures CutCapacity([a, b, c], S) == CutEdge(a, S) + CutEdge(b, S) + CutEdge(c, S)
  {
    assert [a, b, c][1..] == [b, c] && [b, c][1..] == [c] && [c][1..] == [] && [a][1..] == [];
    assert CutCapacity([a], S) == CutEdge(a, S) + CutCapacity([], S);
    assert CutCapacity([c], S) == CutEdge(c, S) + CutCapacity([], S);
    assert CutCapacity([b, c], S) == CutEdge(b, S) + CutCapacity([c], S);
  }

  lemma OutCapTriple(a: FlowEdge, b: FlowEdge, c: FlowEdge, x: int)
    ensures OutCap([a], x) == OutEdge(a, x)
    ensures OutCap([a, b, c], x) == OutEdge(a, x) + OutEdge(b, x) + OutEdge(c, x)
  {
    assert [a, b, c][1..] == [b, c] && [b, c][1..] == [c] && [c][1..] == [] && [a][1..] == [];
    assert OutCap([a], x) == OutEdge(a, x) + OutCap([], x);
    assert OutCap([c], x) == OutEdge(c, x) + OutCap([], x);
    assert OutCap([b, c], x) == OutEdge(b, x) + OutCap([c], x);
  }
}
