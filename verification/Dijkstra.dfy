/** Shortest routes over the adjacency lists, and Dijkstra's algorithm with a linear search for the
    closest node. */
module Dijkstra {
  import opened Graph
  import opened Options
  import opened SpanningTree

  type Network = seq<seq<Edge>>

  ghost predicate ValidNetwork(g: Network) {
    forall a :: 0 <= a < |g| ==> forall e :: e in g[a] ==> e.w < |g| && e.latency >= 0.0
  }

  /** Following the cables `es` leads from `a` to `b`. */
  ghost predicate IsRoute(g: Network, a: nat, es: seq<Edge>, b: nat)
    decreases |es|
  {
    if es == [] then a == b
    else a < |g| && es[0] in g[a] && IsRoute(g, es[0].w, es[1..], b)
  }

  ghost predicate HasRoute(g: Network, a: nat, b: nat) {
    exists es :: IsRoute(g, a, es, b)
  }

  /** The nodes of a route behind its start. */
  ghost function Stops(es: seq<Edge>): seq<nat> {
    if es == [] then [] else [es[0].w] + Stops(es[1..])
  }

  lemma {:induction false} RouteSnoc(g: Network, a: nat, es: seq<Edge>, b: nat, e: Edge)
    requires IsRoute(g, a, es, b) && b < |g| && e in g[b]
    ensures IsRoute(g, a, es + [e], e.w)
    ensures Weight(es + [e]) == Weight(es) + e.latency
    decreases |es|
  {
    if es == [] {
      assert (es + [e])[1..] == [];
    } else {
      assert (es + [e])[1..] == es[1..] + [e];
      RouteSnoc(g, es[0].w, es[1..], b, e);
    }
  }

  // ----- distances -----

  /** A distance; `Far` is Double.MAX_VALUE, which no sum of latencies reaches. */
  datatype Distance = Near(d: real) | Far

  predicate Less(x: Distance, y: Distance) {
    x.Near? && (y.Far? || x.d < y.d)
  }

  function Plus(x: Distance, l: real): Distance {
    if x.Near? then Near(x.d + l) else Far
  }

  /** Every distance that is not far is the weight of a recorded route, every parent is the last
      stop before the node on its route, and only the start has a route but no parent. */
  ghost predicate Recorded(g: Network, u: nat, dist: seq<Distance>, parent: seq<int>, routes: seq<seq<Edge>>) {
    && u < |g| == |dist| == |parent| == |routes|
    && dist[u] == Near(0.0) && routes[u] == [] && parent[u] == -1
    && (forall v :: 0 <= v < |g| && dist[v].Near? ==> IsRoute(g, u, routes[v], v) && Weight(routes[v]) == dist[v].d)
    && (forall v :: 0 <= v < |g| ==> -1 <= parent[v] < |g|)
    && (forall v :: 0 <= v < |g| && parent[v] == -1 && v != u ==> dist[v] == Far)
    && (forall v :: 0 <= v < |g| && parent[v] != -1 ==> IsParentOn(routes, parent[v], v) && dist[v].Near? && dist[parent[v]].Near?)
  }

  ghost predicate IsParentOn(routes: seq<seq<Edge>>, p: nat, v: nat)
    requires p < |routes| && v < |routes|
  {
    exists e: Edge :: routes[v] == routes[p] + [e] && e.w == v
  }

  /** The first `k` cables of `x` cannot shorten any distance. */
  ghost predicate Relaxed(g: Network, dist: seq<Distance>, x: nat, k: nat)
    requires x < |g| == |dist|
  {
    forall j :: 0 <= j < k <= |g[x]| && g[x][j].w < |g| ==> !Less(Plus(dist[x], g[x][j].latency), dist[g[x][j].w])
  }

  /** The checked nodes are relaxed, and none of the others is closer than any of them. */
  ghost predicate Settled(g: Network, dist: seq<Distance>, checked: seq<bool>) {
    && |g| == |dist| == |checked|
    && (forall x :: 0 <= x < |g| && checked[x] ==> Relaxed(g, dist, x, |g[x]|))
    && (forall x, y :: 0 <= x < |g| && 0 <= y < |g| && checked[x] && !checked[y] ==> !Less(dist[y], dist[x]))
  }

  /** Parents are checked nodes, or the one being checked. */
  ghost predicate ParentsChecked(parent: seq<int>, checked: seq<bool>, curr: int) {
    |parent| == |checked| && forall v :: 0 <= v < |parent| && 0 <= parent[v] < |checked| ==> checked[parent[v]] || parent[v] == curr
  }

  ghost predicate IsChecked(seen: set<nat>, checked: seq<bool>) {
    forall k: nat :: k in seen <==> k < |checked| && checked[k]
  }

  ghost predicate AllRelaxed(g: Network, dist: seq<Distance>)
  {
    |g| == |dist| && forall x :: 0 <= x < |g| ==> Relaxed(g, dist, x, |g[x]|)
  }

  ghost predicate Closest(dist: seq<Distance>, checked: seq<bool>, curr: nat)
    requires |dist| == |checked|
  {
    curr < |dist| && !checked[curr] && forall y :: 0 <= y < |dist| && !checked[y] ==> !Less(dist[y], dist[curr])
  }

  // ----- one relaxation -----

  /** Only an unchecked node other than the start can come closer. */
  lemma ShortenedIsOpen(g: Network, u: nat, dist: seq<Distance>, parent: seq<int>, routes: seq<seq<Edge>>,
                        checked: seq<bool>, curr: nat, e: Edge)
    requires ValidNetwork(g) && Recorded(g, u, dist, parent, routes) && Settled(g, dist, checked)
    requires Closest(dist, checked, curr)
    requires e in g[curr] && Less(Plus(dist[curr], e.latency), dist[e.w])
    ensures dist[curr].Near? && !checked[e.w] && e.w != curr && e.w != u
  {
    RouteWeight(g, u, routes[curr], curr);
  }

  /** The route to `curr` is prolonged by the cable `e`. */
  lemma RecordedStep(g: Network, u: nat, dist: seq<Distance>, parent: seq<int>, routes: seq<seq<Edge>>,
                     checked: seq<bool>, curr: nat, e: Edge)
    requires ValidNetwork(g) && Recorded(g, u, dist, parent, routes) && ParentsChecked(parent, checked, curr)
    requires curr < |g| && e in g[curr] && dist[curr].Near? && !checked[e.w] && e.w != curr && e.w != u
    ensures Recorded(g, u, dist[e.w := Plus(dist[curr], e.latency)], parent[e.w := curr],
                     routes[e.w := routes[curr] + [e]])
  {
    var routes', parent' := routes[e.w := routes[curr] + [e]], parent[e.w := curr];
    RouteSnoc(g, u, routes[curr], curr, e);
    assert IsParentOn(routes', curr, e.w);
    forall v | 0 <= v < |g| && parent'[v] != -1
      ensures IsParentOn(routes', parent'[v], v)
    {
      if v != e.w {
        assert IsParentOn(routes, parent[v], v);
        var d: Edge :| routes[v] == routes[parent[v]] + [d] && d.w == v;
        assert parent[v] != e.w;
      }
    }
  }

  lemma RelaxedStep(g: Network, dist: seq<Distance>, x: nat, k: nat, w: nat, d: Distance)
    requires x < |g| == |dist| && w < |g| && w != x && Relaxed(g, dist, x, k) && !Less(dist[w], d)
    ensures Relaxed(g, dist[w := d], x, k)
  {
  }

  lemma SettledStep(g: Network, dist: seq<Distance>, checked: seq<bool>, curr: nat, e: Edge)
    requires ValidNetwork(g) && Settled(g, dist, checked) && Closest(dist, checked, curr)
    requires e in g[curr] && Less(Plus(dist[curr], e.latency), dist[e.w])
    requires !checked[e.w] && e.w != curr
    ensures Settled(g, dist[e.w := Plus(dist[curr], e.latency)], checked)
    ensures Closest(dist[e.w := Plus(dist[curr], e.latency)], checked, curr)
  {
    var d := Plus(dist[curr], e.latency);
    forall x | 0 <= x < |g| && checked[x]
      ensures Relaxed(g, dist[e.w := d], x, |g[x]|)
    {
      RelaxedStep(g, dist, x, |g[x]|, e.w, d);
    }
    assert !Less(d, dist[curr]);
  }

  /** What the search keeps while the cables of `curr`, the closest unchecked node, are relaxed. */
  ghost predicate Relaxing(g: Network, u: nat, dist: seq<Distance>, parent: seq<int>, routes: seq<seq<Edge>>,
                           checked: seq<bool>, curr: nat, k: nat)
  {
    && Recorded(g, u, dist, parent, routes)
    && Settled(g, dist, checked)
    && ParentsChecked(parent, checked, curr)
    && Closest(dist, checked, curr)
    && curr < |g| && k <= |g[curr]| && Relaxed(g, dist, curr, k)
  }

  lemma RelaxStep(g: Network, u: nat, dist: seq<Distance>, parent: seq<int>, routes: seq<seq<Edge>>,
                  checked: seq<bool>, curr: nat, k: nat)
    returns (routes': seq<seq<Edge>>)
    requires ValidNetwork(g) && Relaxing(g, u, dist, parent, routes, checked, curr, k) && k < |g[curr]|
    requires g[curr][k].w < |g|
    requires Less(Plus(dist[curr], g[curr][k].latency), dist[g[curr][k].w])
    ensures Relaxing(g, u, dist[g[curr][k].w := Plus(dist[curr], g[curr][k].latency)], parent[g[curr][k].w := curr],
                     routes', checked, curr, k + 1)
  {
    var e := g[curr][k];
    assert e in g[curr];
    var d := Plus(dist[curr], e.latency);
    ShortenedIsOpen(g, u, dist, parent, routes, checked, curr, e);
    RecordedStep(g, u, dist, parent, routes, checked, curr, e);
    SettledStep(g, dist, checked, curr, e);
    RelaxedStep(g, dist, curr, k, e.w, d);
    routes' := routes[e.w := routes[curr] + [e]];
    RelaxedNext(g, dist[e.w := d], curr, k);
    assert ParentsChecked(parent[e.w := curr], checked, curr);
  }

  lemma RelaxedNext(g: Network, dist: seq<Distance>, x: nat, k: nat)
    requires x < |g| == |dist| && k < |g[x]| && Relaxed(g, dist, x, k) && g[x][k].w < |g|
    requires !Less(Plus(dist[x], g[x][k].latency), dist[g[x][k].w])
    ensures Relaxed(g, dist, x, k + 1)
  {
  }

  lemma {:induction false} RouteWeight(g: Network, a: nat, es: seq<Edge>, b: nat)
    requires ValidNetwork(g) && IsRoute(g, a, es, b)
    ensures Weight(es) >= 0.0
    decreases |es|
  {
    if es != [] {
      RouteWeight(g, es[0].w, es[1..], b);
    }
  }

  /** The closest node counts as checked once its cables are relaxed. */
  lemma CheckStep(g: Network, u: nat, dist: seq<Distance>, parent: seq<int>, routes: seq<seq<Edge>>,
                  checked: seq<bool>, curr: nat)
    requires curr < |g| && Relaxing(g, u, dist, parent, routes, checked, curr, |g[curr]|)
    ensures Recorded(g, u, dist, parent, routes)
    ensures Settled(g, dist, checked[curr := true])
    ensures ParentsChecked(parent, checked[curr := true], -1)
  {
  }

  /** Before the first round no node is checked, and only the start has a distance. */
  lemma ExploreStart(g: Network, u: nat, dist: seq<Distance>, parent: seq<int>, routes: seq<seq<Edge>>, checked: seq<bool>)
    requires u < |g| == |dist| == |parent| == |routes| == |checked|
    requires forall i :: 0 <= i < |g| ==>
               parent[i] == -1 && !checked[i] && routes[i] == [] && dist[i] == if i == u then Near(0.0) else Far
    ensures Recorded(g, u, dist, parent, routes) && Settled(g, dist, checked) && ParentsChecked(parent, checked, -1)
    ensures Closest(dist, checked, u) && IsChecked({}, checked)
  {
  }

  lemma RelaxingStart(g: Network, u: nat, dist: seq<Distance>, parent: seq<int>, routes: seq<seq<Edge>>, checked: seq<bool>, curr: nat)
    requires Recorded(g, u, dist, parent, routes) && Settled(g, dist, checked) && ParentsChecked(parent, checked, -1)
    requires |dist| == |checked| && Closest(dist, checked, curr)
    ensures Relaxing(g, u, dist, parent, routes, checked, curr, 0)
  {
  }

  lemma NextIsSeen(seen: set<nat>, dist: seq<Distance>, checked: seq<bool>, curr: nat)
    requires IsChecked(seen, checked) && |dist| == |checked| && Closest(dist, checked, curr)
    ensures curr < |checked| && curr !in seen && IsChecked(seen + {curr}, checked[curr := true])
  {
  }

  lemma SettledIsRelaxed(g: Network, dist: seq<Distance>, checked: seq<bool>)
    requires Settled(g, dist, checked) && forall k :: 0 <= k < |checked| ==> checked[k]
    ensures AllRelaxed(g, dist)
  {
  }

  // ----- at the end -----

  /** As many checked nodes as there are nodes: none is left. */
  lemma {:induction false} AllAreChecked(seen: set<nat>, checked: seq<bool>)
    requires IsChecked(seen, checked)
    ensures |seen| <= |checked|
    ensures |seen| == |checked| ==> forall k :: 0 <= k < |checked| ==> checked[k]
    decreases |checked|
  {
    if checked == [] {
      assert seen == {};
    } else {
      var last := |checked| - 1;
      AllAreChecked(seen - {last}, checked[..last]);
    }
  }

  /** With every node checked, no route is shorter than the recorded distance. */
  lemma {:induction false} NoShorterRoute(g: Network, dist: seq<Distance>, a: nat, es: seq<Edge>, b: nat)
    requires ValidNetwork(g) && |dist| == |g| && a < |g| && IsRoute(g, a, es, b) && dist[a].Near?
    requires AllRelaxed(g, dist)
    ensures b < |g| && dist[b].Near? && dist[b].d <= dist[a].d + Weight(es)
    decreases |es|
  {
    if es != [] {
      var j :| 0 <= j < |g[a]| && g[a][j] == es[0];
      assert Relaxed(g, dist, a, |g[a]|);
      NoShorterRoute(g, dist, es[0].w, es[1..], b);
    }
  }

  lemma NoShorterRoutes(g: Network, u: nat, dist: seq<Distance>, w: nat)
    requires ValidNetwork(g) && |dist| == |g| && u < |g| && w < |g| && dist[u] == Near(0.0) && AllRelaxed(g, dist)
    ensures forall es :: IsRoute(g, u, es, w) ==> dist[w].Near? && dist[w].d <= Weight(es)
  {
    forall es | IsRoute(g, u, es, w)
      ensures dist[w].Near? && dist[w].d <= Weight(es)
    {
      NoShorterRoute(g, dist, u, es, w);
    }
  }

  /** `path` goes from `u` to `w`, and the cables `es` lead from each of its nodes to the next one. */
  ghost predicate IsPathAlong(g: Network, u: nat, w: nat, path: seq<nat>, es: seq<Edge>) {
    && |path| == |es| + 1 && path[0] == u && path[|es|] == w
    && forall i :: 0 <= i < |es| ==> path[i] < |g| && es[i] in g[path[i]] && es[i].w == path[i + 1]
  }

  /** `path` is a list of nodes along cables whose latency no route from `u` to `w` undercuts. */
  ghost predicate IsShortestPath(g: Network, u: nat, w: nat, path: seq<nat>) {
    exists es :: IsPathAlong(g, u, w, path, es) && forall fs :: IsRoute(g, u, fs, w) ==> Weight(es) <= Weight(fs)
  }

  /** The stops of a route, behind its start, are the nodes of a path along it. */
  lemma {:induction false} StopsArePath(g: Network, u: nat, es: seq<Edge>, w: nat)
    requires IsRoute(g, u, es, w)
    ensures IsPathAlong(g, u, w, [u] + Stops(es), es)
    decreases |es|
  {
    if es != [] {
      StopsArePath(g, es[0].w, es[1..], w);
      var path := [u] + Stops(es);
      assert path[1..] == [es[0].w] + Stops(es[1..]);
      forall i | 0 <= i < |es|
        ensures path[i] < |g| && es[i] in g[path[i]] && es[i].w == path[i + 1]
      {
        if i > 0 {
          assert es[i] == es[1..][i - 1] && path[i] == path[1..][i - 1] && path[i + 1] == path[1..][i];
        }
      }
      assert path[|es|] == path[1..][|es| - 1];
    }
  }

  /** Only routes have paths along them. */
  lemma {:induction false} PathIsRoute(g: Network, u: nat, w: nat, path: seq<nat>, es: seq<Edge>)
    requires IsPathAlong(g, u, w, path, es)
    ensures IsRoute(g, u, es, w)
    decreases |es|
  {
    if es != [] {
      assert forall i :: 0 <= i < |es[1..]| ==> path[1..][i] == path[i + 1] && es[1..][i] == es[i + 1];
      PathIsRoute(g, es[0].w, w, path[1..], es[1..]);
    }
  }

  /** One step from a node to its parent, with the route walked so far. */
  lemma ParentStep(g: Network, u: nat, dist: seq<Distance>, parent: seq<int>, routes: seq<seq<Edge>>,
                   w: nat, node: nat, rest: seq<Edge>)
    returns (rest': seq<Edge>)
    requires Recorded(g, u, dist, parent, routes) && w < |g| && node < |g| && parent[node] != -1
    requires routes[w] == routes[node] + rest
    ensures dist[node].Near? && dist[parent[node]].Near?
    ensures routes[w] == routes[parent[node]] + rest' && Stops(rest') == [node] + Stops(rest)
    ensures |routes[parent[node]]| < |routes[node]|
  {
    assert IsParentOn(routes, parent[node], node);
    var e: Edge :| routes[node] == routes[parent[node]] + [e] && e.w == node;
    rest' := [e] + rest;
    assert rest'[1..] == rest;
  }

  /** The node the parents end at tells whether there is a route at all. */
  lemma PathEnds(g: Network, u: nat, dist: seq<Distance>, parent: seq<int>, routes: seq<seq<Edge>>,
                 w: nat, node: nat, rest: seq<Edge>)
    requires ValidNetwork(g) && Recorded(g, u, dist, parent, routes) && AllRelaxed(g, dist)
    requires w < |g| && node < |g| && parent[node] == -1 && routes[w] == routes[node] + rest
    requires dist[node].Near? <==> dist[w].Near?
    ensures node == u <==> HasRoute(g, u, w)
    ensures node == u ==> IsShortestPath(g, u, w, [u] + Stops(rest))
  {
    NoShorterRoutes(g, u, dist, w);
    if node == u {
      assert routes[w] == rest && IsRoute(g, u, rest, w);
      StopsArePath(g, u, rest, w);
    }
  }

  class Search {
    const graph: Network
    const nodeCount: nat
    const parentOf: array<int>
    const distance: array<Distance>
    const checked: array<bool>

    constructor (g: Network, u: nat)
      ensures graph == g && Valid() && IsStart(u)
      ensures fresh(parentOf) && fresh(distance) && fresh(checked)
    {
      graph, nodeCount := g, |g|;
      parentOf := new int[|g|](_ => -1);
      distance := new Distance[|g|](i => if i == u then Near(0.0) else Far);
      checked := new bool[|g|](_ => false);
    }

    /** No node is checked, and only `u` has a distance. */
    ghost predicate IsStart(u: nat)
      requires Valid()
      reads this, parentOf, distance, checked
    {
      forall i :: 0 <= i < nodeCount ==>
        parentOf[i] == -1 && !checked[i] && distance[i] == if i == u then Near(0.0) else Far
    }

    ghost predicate Valid()
      reads this
    {
      nodeCount == |graph| && parentOf.Length == distance.Length == checked.Length == nodeCount
    }

    /** Relaxes all cables of `currNode`. */
    method Relax(u: nat, currNode: nat, ghost routes: seq<seq<Edge>>) returns (ghost routes': seq<seq<Edge>>)
      requires Valid() && ValidNetwork(graph)
      requires Relaxing(graph, u, distance[..], parentOf[..], routes, checked[..], currNode, 0)
      modifies parentOf, distance
      ensures checked[..] == old(checked[..])
      ensures Relaxing(graph, u, distance[..], parentOf[..], routes', checked[..], currNode, |graph[currNode]|)
    {
      routes' := routes;
      ghost var ch := checked[..];
      for j := 0 to |graph[currNode]|
        invariant checked[..] == ch
        invariant Relaxing(graph, u, distance[..], parentOf[..], routes', ch, currNode, j)
      {
        ghost var dist, parent := distance[..], parentOf[..];
        var currEdge := graph[currNode][j];
        assert currEdge in graph[currNode];
        var adjNode := currEdge.w;
        if Less(Plus(distance[currNode], currEdge.latency), distance[adjNode]) {
          routes' := RelaxStep(graph, u, dist, parent, routes', ch, currNode, j);
          distance[adjNode] := Plus(distance[currNode], currEdge.latency);
          parentOf[adjNode] := currNode;
          assert distance[..] == dist[adjNode := Plus(dist[currNode], currEdge.latency)];
          assert parentOf[..] == parent[adjNode := currNode];
        } else {
          RelaxedNext(graph, dist, currNode, j);
        }
      }
    }

    /** The unchecked node with the smallest distance; -1 if all nodes are checked. */
    method FindClosest() returns (smallNode: int)
      requires Valid()
      ensures -1 <= smallNode < nodeCount
      ensures smallNode == -1 ==> forall k :: 0 <= k < nodeCount ==> checked[k]
      ensures smallNode != -1 ==> Closest(distance[..], checked[..], smallNode)
    {
      smallNode := -1;
      var smallDist := Far;
      for k := 0 to nodeCount
        invariant -1 <= smallNode < k
        invariant smallNode == -1 ==> smallDist == Far && forall i :: 0 <= i < k ==> checked[i]
        invariant smallNode != -1 ==> !checked[smallNode] && smallDist == distance[smallNode]
        invariant forall i :: 0 <= i < k && !checked[i] ==> !Less(distance[i], smallDist)
      {
        if !Less(smallDist, distance[k]) && !checked[k] {
          smallNode := k;
          smallDist := distance[k];
        }
      }
    }

    /** Checks the nodes in order of distance until all are checked. */
    method Explore(u: nat) returns (ghost routes: seq<seq<Edge>>)
      requires Valid() && ValidNetwork(graph) && u < nodeCount && IsStart(u)
      modifies parentOf, distance, checked
      ensures Recorded(graph, u, distance[..], parentOf[..], routes)
      ensures AllRelaxed(graph, distance[..])
    {
      hide Recorded, Settled, ParentsChecked, Relaxing, Closest, IsChecked, AllRelaxed, ValidNetwork;
      routes := seq(nodeCount, _ => []);
      var currNode: nat := u;
      ghost var seen: set<nat> := {};
      ExploreStart(graph, u, distance[..], parentOf[..], routes, checked[..]);
      for i := 0 to nodeCount
        invariant Recorded(graph, u, distance[..], parentOf[..], routes)
        invariant Settled(graph, distance[..], checked[..])
        invariant ParentsChecked(parentOf[..], checked[..], -1)
        invariant i < nodeCount ==> Closest(distance[..], checked[..], currNode)
        invariant |seen| == i && IsChecked(seen, checked[..])
      {
        ghost var before := checked[..];
        NextIsSeen(seen, distance[..], before, currNode);
        RelaxingStart(graph, u, distance[..], parentOf[..], routes, before, currNode);
        routes := Relax(u, currNode, routes);
        CheckStep(graph, u, distance[..], parentOf[..], routes, before, currNode);
        checked[currNode] := true;
        assert checked[..] == before[currNode := true];
        seen := seen + {currNode};
        var smallNode := FindClosest();
        if smallNode == -1 {
          break;
        }
        currNode := smallNode;
      }
      AllAreChecked(seen, checked[..]);
      SettledIsRelaxed(graph, distance[..], checked[..]);
    }

    /** Follows the parents from `w` back to `u`. */
    method PathTo(u: nat, w: nat, ghost routes: seq<seq<Edge>>) returns (path: Option<seq<nat>>)
      requires Valid() && ValidNetwork(graph) && w < nodeCount && u != w
      requires Recorded(graph, u, distance[..], parentOf[..], routes) && AllRelaxed(graph, distance[..])
      ensures path.None? <==> !HasRoute(graph, u, w)
      ensures path.Some? ==> IsShortestPath(graph, u, w, path.value)
    {
      var nodes: seq<nat> := [];
      var node: nat := w;
      ghost var rest: seq<Edge> := [];
      while parentOf[node] != -1
        invariant node < nodeCount
        invariant distance[node].Near? <==> distance[w].Near?
        invariant routes[w] == routes[node] + rest && nodes == Stops(rest)
        decreases |routes[node]|
      {
        rest := ParentStep(graph, u, distance[..], parentOf[..], routes, w, node, rest);
        nodes := [node] + nodes;
        node := parentOf[node];
      }
      PathEnds(graph, u, distance[..], parentOf[..], routes, w, node, rest);
      if node != u {
        path := None;
      } else {
        path := Some([u] + nodes);
      }
    }

    /** The nodes on a shortest path from `u` to `w`, if there is one. */
    static method LowestLatencyPath(graph: Network, u: int, w: int) returns (path: Option<seq<nat>>)
      requires ValidNetwork(graph)
      ensures !(0 <= u < |graph| && 0 <= w < |graph| && u != w) ==> path.None?
      ensures 0 <= u < |graph| && 0 <= w < |graph| && u != w ==>
                && (path.None? <==> !HasRoute(graph, u, w))
                && (path.Some? ==> IsShortestPath(graph, u, w, path.value))
    {
      if !(0 <= u < |graph|) || !(0 <= w < |graph|) || u == w {
        return None;
      }
      var search := new Search(graph, u);
      ghost var routes := search.Explore(u);
      path := search.PathTo(u, w, routes);
    }
  }
}
