/** The network: adjacency lists of cables, its minimum spanning tree and its copper connectivity. */
module Networks {
  import opened Graph
  import opened HeapOrder
  import opened MinHeaps
  import opened Options
  import opened SpanningTree
  import opened UnionFinds

  /** The ends of a cable chosen for the spanning tree. */
  datatype STE = STE(u: nat, w: nat)

  function GetSTE(e: Edge): (t: STE)
    ensures t.u == e.u && t.w == e.w
  {
    STE(e.u, e.w)
  }

  /** All entries of the first `k` adjacency lists. */
  ghost function Entries(graph: seq<seq<Edge>>, k: nat): seq<Edge>
    requires k <= |graph|
  {
    if k == 0 then [] else Entries(graph, k - 1) + graph[k - 1]
  }

  ghost function Cables(graph: seq<seq<Edge>>): seq<Edge> {
    Entries(graph, |graph|)
  }

  lemma NoEntries(graph: seq<seq<Edge>>)
    ensures Entries(graph, 0) == []
  {
  }

  lemma NextEntries(graph: seq<seq<Edge>>, i: nat)
    requires i < |graph|
    ensures Entries(graph, i + 1) == Entries(graph, i) + graph[i]
  {
  }

  lemma {:induction false} EntryInEntries(graph: seq<seq<Edge>>, k: nat, i: nat, j: nat)
    requires i < k <= |graph| && j < |graph[i]|
    ensures graph[i][j] in Entries(graph, k)
  {
    if i < k - 1 {
      EntryInEntries(graph, k - 1, i, j);
    }
  }

  /** `t` is a spanning tree of the graph with the edges `es`, and no set of edges that connects all
      nodes is lighter. */
  ghost predicate IsMinimumSpanningTree(n: nat, es: seq<Edge>, t: seq<Edge>) {
    && (forall e :: e in t ==> e in es)
    && Connects(n, t) && Acyclic(t) && |t| == n - 1
    && forall f: seq<Edge> :: (forall e :: e in f ==> e in es) && Connects(n, f) ==> Weight(t) <= Weight(f)
  }

  ghost function Copper(es: seq<Edge>): seq<Edge> {
    if es == [] then [] else (if es[0].copper then [es[0]] else []) + Copper(es[1..])
  }

  lemma {:induction false} CopperSnoc(es: seq<Edge>, e: Edge)
    ensures Copper(es + [e]) == Copper(es) + if e.copper then [e] else []
  {
    if es == [] {
      assert (es + [e])[1..] == [];
    } else {
      assert (es + [e])[1..] == es[1..] + [e];
      CopperSnoc(es[1..], e);
      var first, last := if es[0].copper then [es[0]] else [], if e.copper then [e] else [];
      assert first + (Copper(es[1..]) + last) == (first + Copper(es[1..])) + last;
    }
  }

  lemma {:induction false} CopperMembers(es: seq<Edge>)
    ensures forall e :: e in Copper(es) <==> e in es && e.copper
  {
    if es != [] {
      CopperMembers(es[1..]);
    }
  }

  class NetAnalysis {
    const graph: seq<seq<Edge>>
    const nodeCount: nat

    constructor (lists: seq<seq<Edge>>)
      ensures graph == lists && nodeCount == |lists|
    {
      graph, nodeCount := lists, |lists|;
    }

    /** A queue with all entries of the adjacency lists. */
    method FillQueue() returns (edges: PQ)
      requires nodeCount == |graph|
      ensures fresh(edges) && fresh(edges.heap) && edges.Holds(multiset(Cables(graph)))
    {
      hide HeapOrdered, Entries;
      edges := new PQ();
      NoEntries(graph);
      EmptyIsOrdered();
      for i := 0 to nodeCount
        invariant fresh(edges.heap) && edges.Holds(multiset(Entries(graph, i)))
      {
        NextEntries(graph, i);
        AddAll(edges, graph[i], multiset(Entries(graph, i)));
      }
    }

    /** Adds one adjacency list to the queue. */
    method AddAll(edges: PQ, list: seq<Edge>, ghost before: multiset<Edge>)
      requires edges.Holds(before)
      modifies edges, edges.heap
      ensures edges.heap == old(edges.heap) || fresh(edges.heap)
      ensures edges.Holds(before + multiset(list))
    {
      hide HeapOrdered, PQ.Items;
      for j := 0 to |list|
        invariant edges.heap == old(edges.heap) || fresh(edges.heap)
        invariant edges.Holds(before + multiset(list[..j]))
      {
        assert list[..j + 1] == list[..j] + [list[j]];
        edges.Add(list[j]);
      }
      assert list[..|list|] == list;
    }

    /** Takes the edge with the lowest latency out of the queue. */
    method NextEdge(edges: PQ) returns (nextEdge: Edge)
      requires edges.Valid() && HeapOrdered(edges.Items()) && edges.Size() > 0
      modifies edges`heapLength, edges.heap
      ensures edges.Valid() && HeapOrdered(edges.Items()) && edges.heapLength < old(edges.heapLength)
      ensures nextEdge in old(edges.Items())
      ensures multiset(edges.Items()) == multiset(old(edges.Items())) - multiset{nextEdge}
      ensures forall e :: e in old(edges.Items()) ==> nextEdge.latency <= e.latency
    {
      ghost var items := edges.Items();
      nextEdge := edges.Get(0).value;
      assert nextEdge == items[0];
      RootIsLeast(items);
      edges.Remove(0);
      assert |multiset(edges.Items())| == |multiset(items)| - 1;
    }

    /** Kruskal's algorithm: a minimum spanning tree, or None if the network is not connected. */
    method LowestAvgLatST() returns (tree: Option<seq<STE>>)
      requires nodeCount == |graph| && 0 < nodeCount && ValidEdges(nodeCount, Cables(graph))
      ensures tree == None <==> !Connects(nodeCount, Cables(graph))
      ensures tree.Some? ==> exists chosen: seq<Edge> ::
                && IsMinimumSpanningTree(nodeCount, Cables(graph), chosen)
                && |tree.value| == |chosen| && forall i :: 0 <= i < |chosen| ==> tree.value[i].u == chosen[i].u && tree.value[i].w == chosen[i].w
    {
      hide HeapOrdered, Represents, Balanced, Connects, OneClass, IsMinimumSpanningTree, Building;
      var picked: seq<STE> := [];
      var u := new UnionFind(nodeCount);
      var edges := FillQueue();
      ghost var all, p := Cables(graph), Singletons(nodeCount);
      ghost var order: seq<Edge> := [];
      BuildStart(nodeCount, all, edges.Items());
      while edges.Size() > 0
        invariant u.Valid() && edges.Valid() && HeapOrdered(edges.Items())
        invariant fresh(u.parentOf) && fresh(u.rank) && fresh(edges.heap)
        invariant Building(nodeCount, all, order, edges.Items(), u.classes, picked)
        decreases edges.heapLength
      {
        ghost var items := edges.Items();
        var nextEdge := NextEdge(edges);
        BuildStep(nodeCount, all, order, items, u.classes, picked, nextEdge, edges.Items());
        var together := u.Connected(nextEdge.u, nextEdge.w);
        if !together {
          u.Union(nextEdge);
          picked := picked + [GetSTE(nextEdge)];
        }
        order := order + [nextEdge];
      }
      assert edges.Items() == [];
      BuildEnd(nodeCount, all, order, u.classes, picked);
      var connected := u.ConnectedGraph();
      tree := if connected then Some(picked) else None;
    }

    /** Whether the copper cables alone connect the network. */
    method CopperOnlyConnected() returns (b: bool)
      requires nodeCount == |graph| && 0 < nodeCount && ValidEdges(nodeCount, Cables(graph))
      ensures b <==> Connects(nodeCount, Copper(Cables(graph)))
    {
      hide Represents, Balanced, Connects, OneClass, Merge, MergeAll;
      var u := new UnionFind(nodeCount);
      CopperStart(nodeCount);
      for i := 0 to nodeCount
        invariant u.Valid() && fresh(u.parentOf) && fresh(u.rank)
        invariant CopperClasses(nodeCount, Entries(graph, i), u.classes)
      {
        UnionCopper(u, graph[i], Entries(graph, i)) by {
          forall j | 0 <= j < |graph[i]|
            ensures ValidEdge(nodeCount, graph[i][j])
          {
            EntryInEntries(graph, |graph|, i, j);
          }
        }
      }
      b := u.ConnectedGraph();
      OneClassIsConnected(nodeCount, Copper(Cables(graph)));
    }

    method UnionCopper(u: UnionFind, list: seq<Edge>, ghost before: seq<Edge>)
      requires u.Valid() && ValidEdges(u.nodeCount, list) && CopperClasses(u.nodeCount, before, u.classes)
      modifies u, u.parentOf, u.rank
      ensures u.Valid() && CopperClasses(u.nodeCount, before + list, u.classes)
    {
      hide Represents, Balanced, CopperClasses;
      assert before + list[..0] == before;
      for j := 0 to |list|
        invariant u.Valid() && CopperClasses(u.nodeCount, before + list[..j], u.classes)
      {
        ghost var seen := before + list[..j];
        assert before + list[..j + 1] == seen + [list[j]];
        CopperStep(u.nodeCount, seen, u.classes, list[j]);
        if list[j].copper {
          u.Union(list[j]);
        }
      }
      assert list[..|list|] == list;
    }
  }

  /** `cl` has merged exactly the copper edges among `seen`. */
  ghost predicate CopperClasses(n: nat, seen: seq<Edge>, cl: Partition) {
    ValidEdges(n, Copper(seen)) && cl == MergeAll(Singletons(n), Copper(seen))
  }

  lemma CopperStart(n: nat)
    ensures CopperClasses(n, [], Singletons(n))
  {
  }

  lemma CopperStep(n: nat, seen: seq<Edge>, cl: Partition, e: Edge)
    requires CopperClasses(n, seen, cl) && ValidEdge(n, e)
    ensures CopperClasses(n, seen + [e], if e.copper then Merge(cl, e.u, e.w) else cl)
  {
    CopperSnoc(seen, e);
    MergeAllSnoc(Singletons(n), Copper(seen), e);
    assert Copper(seen) + [] == Copper(seen);
  }

  /** The state of Kruskal's algorithm after the edges `order` have been drawn. */
  ghost predicate Building(n: nat, all: seq<Edge>, order: seq<Edge>, left: seq<Edge>, cl: Partition, picked: seq<STE>) {
    && ValidEdges(n, all) && Drawn(all, order, left) && ValidEdges(n, order)
    && cl == MergeAll(Singletons(n), Greedy(Singletons(n), order))
    && picked == Ends(Greedy(Singletons(n), order))
  }

  lemma BuildStart(n: nat, all: seq<Edge>, left: seq<Edge>)
    requires ValidEdges(n, all) && multiset(left) == multiset(all)
    ensures Building(n, all, [], left, Singletons(n), [])
  {
  }

  lemma BuildStep(n: nat, all: seq<Edge>, order: seq<Edge>, left: seq<Edge>, cl: Partition, picked: seq<STE>, e: Edge, left': seq<Edge>)
    requires Building(n, all, order, left, cl, picked)
    requires e in left && multiset(left') == multiset(left) - multiset{e}
    requires forall d :: d in left ==> e.latency <= d.latency
    ensures ValidEdge(n, e)
    ensures if cl[e.u] == cl[e.w] then Building(n, all, order + [e], left', cl, picked)
            else Building(n, all, order + [e], left', Merge(cl, e.u, e.w), picked + [GetSTE(e)])
  {
    var p := Singletons(n);
    DrawnNext(all, order, left, e, left');
    GreedySnoc(p, order, e);
    MergeAllSnoc(p, Greedy(p, order), e);
    assert Greedy(p, order) + [] == Greedy(p, order);
  }

  ghost function Ends(es: seq<Edge>): (t: seq<STE>)
    ensures |t| == |es| && forall i :: 0 <= i < |es| ==> t[i] == GetSTE(es[i])
  {
    seq(|es|, i requires 0 <= i < |es| => GetSTE(es[i]))
  }

  lemma RootIsLeast(s: seq<Edge>)
    requires HeapOrdered(s) && s != []
    ensures forall e :: e in s ==> s[0].latency <= e.latency
  {
    forall i | 0 <= i < |s|
      ensures s[0].latency <= s[i].latency
    {
      RootIsSmallest(Ranks(s), i);
    }
  }

  /** `order` has been drawn from all edges by latency and `left` is still in the queue. */
  ghost predicate Drawn(all: seq<Edge>, order: seq<Edge>, left: seq<Edge>) {
    && multiset(order) + multiset(left) == multiset(all)
    && ByLatency(order)
    && forall i, e :: 0 <= i < |order| && e in left ==> order[i].latency <= e.latency
  }

  lemma DrawnNext(all: seq<Edge>, order: seq<Edge>, left: seq<Edge>, e: Edge, left': seq<Edge>)
    requires Drawn(all, order, left) && e in left && multiset(left') == multiset(left) - multiset{e}
    requires forall d :: d in left ==> e.latency <= d.latency
    ensures Drawn(all, order + [e], left') && e in all
  {
    assert e in multiset(left) && e in multiset(all);
    forall d | d in left'
      ensures d in left
    {
      assert d in multiset(left') && d in multiset(left);
    }
  }

  /** What the greedy choice has kept once all edges are drawn. */
  lemma GreedyResult(n: nat, all: seq<Edge>, order: seq<Edge>)
    requires 0 < n && ValidEdges(n, all) && ValidEdges(n, order) && Drawn(all, order, [])
    ensures var t := Greedy(Singletons(n), order);
            && (OneClass(MergeAll(Singletons(n), t)) <==> Connects(n, all))
            && (OneClass(MergeAll(Singletons(n), t)) ==> IsMinimumSpanningTree(n, all, t))
  {
    var p := Singletons(n);
    var t := Greedy(p, order);
    forall e
      ensures e in order <==> e in all
    {
      assert e in multiset(order) <==> e in multiset(all);
    }
    GreedyKeepsClasses(p, order);
    OneClassIsConnected(n, order);
    SameConnects(n, order, all);
    if OneClass(MergeAll(p, t)) {
      OneClassIsConnected(n, t);
      GreedyIsForest(p, order);
      SpanningForestIsTree(n, t);
      forall f: seq<Edge> | (forall e :: e in f ==> e in all) && Connects(n, f)
        ensures Weight(t) <= Weight(f)
      {
        assert ValidEdges(n, f);
        OneClassIsConnected(n, f);
        GreedyIsLightest(p, order, f);
      }
    }
  }

  lemma BuildEnd(n: nat, all: seq<Edge>, order: seq<Edge>, cl: Partition, picked: seq<STE>)
    requires 0 < n && Building(n, all, order, [], cl, picked)
    ensures OneClass(cl) <==> Connects(n, all)
    ensures OneClass(cl) ==> exists chosen :: IsMinimumSpanningTree(n, all, chosen) && picked == Ends(chosen)
  {
    GreedyResult(n, all, order);
  }

  lemma SameConnects(n: nat, es: seq<Edge>, fs: seq<Edge>)
    requires forall e :: e in es <==> e in fs
    ensures Connects(n, es) <==> Connects(n, fs)
  {
    forall a: nat, b: nat | a < n && b < n
      ensures Joined(es, a, b) <==> Joined(fs, a, b)
    {
      if Joined(es, a, b) {
        JoinedMore(es, fs, a, b);
      }
      if Joined(fs, a, b) {
        JoinedMore(fs, es, a, b);
      }
    }
  }
}
