/** Greedy choice of edges in order of latency, and why it yields a minimum spanning tree. */
module SpanningTree {
  import opened Graph

  ghost function Weight(es: seq<Edge>): real {
    if es == [] then 0.0 else es[0].latency + Weight(es[1..])
  }

  ghost predicate ByLatency(es: seq<Edge>) {
    forall i, j :: 0 <= i < j < |es| ==> es[i].latency <= es[j].latency
  }

  /** The edges kept of `rest`: those that join two classes of what has been kept before. */
  ghost function Greedy(p: Partition, rest: seq<Edge>): (kept: seq<Edge>)
    requires ValidEdges(|p|, rest)
    ensures ValidEdges(|p|, kept) && forall e :: e in kept ==> e in rest
    decreases |rest|
  {
    if rest == [] then []
    else
      var e := rest[0];
      assert e in rest;
      if p[e.u] == p[e.w] then Greedy(p, rest[1..])
      else [e] + Greedy(Merge(p, e.u, e.w), rest[1..])
  }

  lemma {:induction false} GreedySnoc(p: Partition, rest: seq<Edge>, e: Edge)
    requires ValidEdges(|p|, rest) && ValidEdge(|p|, e)
    ensures ValidEdges(|p|, rest + [e])
    ensures var q := MergeAll(p, Greedy(p, rest));
            Greedy(p, rest + [e]) == Greedy(p, rest) + if q[e.u] == q[e.w] then [] else [e]
    decreases |rest|
  {
    if rest == [] {
      assert (rest + [e])[1..] == [];
    } else {
      var d := rest[0];
      assert d in rest && (rest + [e])[1..] == rest[1..] + [e];
      if p[d.u] == p[d.w] {
        GreedySnoc(p, rest[1..], e);
      } else {
        GreedySnoc(Merge(p, d.u, d.w), rest[1..], e);
        assert ([d] + Greedy(Merge(p, d.u, d.w), rest[1..]))[1..] == Greedy(Merge(p, d.u, d.w), rest[1..]);
      }
    }
  }

  /** The edges left out change no class. */
  lemma {:induction false} GreedyKeepsClasses(p: Partition, rest: seq<Edge>)
    requires ValidEdges(|p|, rest)
    ensures MergeAll(p, Greedy(p, rest)) == MergeAll(p, rest)
    decreases |rest|
  {
    if rest != [] {
      var e := rest[0];
      assert e in rest;
      if p[e.u] == p[e.w] {
        MergeRedundant(p, e.u, e.w);
        GreedyKeepsClasses(p, rest[1..]);
      } else {
        var kept := Greedy(Merge(p, e.u, e.w), rest[1..]);
        assert ([e] + kept)[1..] == kept;
        GreedyKeepsClasses(Merge(p, e.u, e.w), rest[1..]);
      }
    }
  }

  // ----- minimality -----

  lemma {:induction false} WeightConcat(a: seq<Edge>, b: seq<Edge>)
    ensures Weight(a + b) == Weight(a) + Weight(b)
  {
    if a == [] {
      assert a + b == b;
    } else {
      assert (a + b)[1..] == a[1..] + b;
      WeightConcat(a[1..], b);
    }
  }

  lemma WeightWithout(f: seq<Edge>, j: nat)
    requires j < |f|
    ensures Weight(f) == Weight(f[..j] + f[j + 1..]) + f[j].latency
  {
    assert f == f[..j] + ([f[j]] + f[j + 1..]);
    WeightConcat(f[..j], [f[j]] + f[j + 1..]);
    WeightConcat([f[j]], f[j + 1..]);
    WeightConcat(f[..j], f[j + 1..]);
    assert [f[j]][1..] == [];
  }

  lemma {:induction false} WeightNonNegative(n: nat, es: seq<Edge>)
    requires ValidEdges(n, es)
    ensures Weight(es) >= 0.0
  {
    if es != [] {
      assert es[0] in es;
      WeightNonNegative(n, es[1..]);
    }
  }

  /** If merging in `f` brings `u` and `w` together, one edge of `f` does it: the first one after
      which they are together. */
  lemma {:induction false} JoiningEdge(p: Partition, f: seq<Edge>, u: nat, w: nat) returns (j: nat)
    requires ValidEdges(|p|, f) && u < |p| && w < |p| && p[u] != p[w]
    requires MergeAll(p, f)[u] == MergeAll(p, f)[w]
    ensures j < |f| && ValidEdge(|p|, f[j]) && ValidEdges(|p|, f[..j])
    ensures MergeAll(p, f[..j])[u] != MergeAll(p, f[..j])[w]
    ensures Merge(MergeAll(p, f[..j]), f[j].u, f[j].w)[u] == Merge(MergeAll(p, f[..j]), f[j].u, f[j].w)[w]
    decreases |f|
  {
    assert f[0] in f;
    var q := Merge(p, f[0].u, f[0].w);
    if q[u] == q[w] {
      j := 0;
    } else {
      var k := JoiningEdge(q, f[1..], u, w);
      j := k + 1;
      assert f[..j][1..] == f[1..][..k];
    }
  }

  /** Two edges that bring the same two nodes together merge the same classes. */
  lemma SameMerge(p: Partition, u: nat, w: nat, a: nat, b: nat)
    requires u < |p| && w < |p| && a < |p| && b < |p| && p[u] != p[w]
    requires Merge(p, a, b)[u] == Merge(p, a, b)[w]
    ensures SameClasses(Merge(p, a, b), Merge(p, u, w))
  {
    MergeClasses(p, a, b, u, w);
    forall x, y | 0 <= x < |p| && 0 <= y < |p|
      ensures Merge(p, a, b)[x] == Merge(p, a, b)[y] <==> Merge(p, u, w)[x] == Merge(p, u, w)[y]
    {
      MergeClasses(p, a, b, x, y);
      MergeClasses(p, u, w, x, y);
    }
  }

  /** The exchange step: the edge of `f` that joins the ends of `e` can be replaced by `e`. */
  lemma Exchange(p: Partition, f: seq<Edge>, e: Edge) returns (j: nat)
    requires ValidEdges(|p|, f) && ValidEdge(|p|, e) && p[e.u] != p[e.w]
    requires OneClass(MergeAll(p, f))
    ensures j < |f| && ValidEdge(|p|, f[j]) && p[f[j].u] != p[f[j].w]
    ensures ValidEdges(|p|, f[..j] + f[j + 1..])
    ensures OneClass(MergeAll(Merge(p, e.u, e.w), f[..j] + f[j + 1..]))
  {
    j := JoiningEdge(p, f, e.u, e.w);
    var before, after := f[..j], f[j + 1..];
    assert f[j] in f;
    if p[f[j].u] == p[f[j].w] {
      MergeAllKeeps(p, before, f[j].u, f[j].w);
      MergeRedundant(MergeAll(p, before), f[j].u, f[j].w);
      assert false;
    }
    assert ValidEdges(|p|, after);
    var q := MergeAll(p, before);
    SameMerge(q, e.u, e.w, f[j].u, f[j].w);
    MergeFirstOrLast(p, before, e.u, e.w);
    MergeAllSnoc(p, before, f[j]);
    assert f == (before + [f[j]]) + after;
    MergeAllConcat(p, before + [f[j]], after);
    MergeAllConcat(Merge(p, e.u, e.w), before, after);
    MergeAllSame(Merge(q, f[j].u, f[j].w), MergeAll(Merge(p, e.u, e.w), before), after);
  }

  /** What the greedy choice keeps of edges in order of latency weighs no more than any set of edges
      `f` that connects as much: edges of `f` are still to come or useless. */
  lemma {:induction false} GreedyIsLightest(p: Partition, rest: seq<Edge>, f: seq<Edge>)
    requires ValidEdges(|p|, rest) && ByLatency(rest) && ValidEdges(|p|, f)
    requires OneClass(MergeAll(p, f))
    requires forall e :: e in f ==> e in rest || p[e.u] == p[e.w]
    ensures Weight(Greedy(p, rest)) <= Weight(f)
    decreases |rest|
  {
    if rest == [] {
      WeightNonNegative(|p|, f);
    } else {
      var e := rest[0];
      assert e in rest;
      if p[e.u] == p[e.w] {
        GreedyIsLightest(p, rest[1..], f);
      } else {
        var q := Merge(p, e.u, e.w);
        var j := Exchange(p, f, e);
        var g := f[..j] + f[j + 1..];
        assert f[j] in f && f[j] in rest;
        WeightWithout(f, j);
        forall d | d in g
          ensures d in rest[1..] || q[d.u] == q[d.w]
        {
          assert d in f;
        }
        GreedyIsLightest(q, rest[1..], g);
        assert ([e] + Greedy(q, rest[1..]))[1..] == Greedy(q, rest[1..]);
      }
    }
  }

  // ----- trees -----

  /** `f` without its edge at position `k`. */
  ghost function Without(f: seq<Edge>, k: nat): seq<Edge>
    requires k < |f|
  {
    f[..k] + f[k + 1..]
  }

  /** No edge of `t` closes a cycle: without it its ends are not joined. */
  ghost predicate Acyclic(t: seq<Edge>) {
    forall k :: 0 <= k < |t| ==> !Joined(Without(t, k), t[k].u, t[k].w)
  }

  /** Every edge joins two different classes when it comes. */
  ghost predicate Forest(p: Partition, t: seq<Edge>)
    requires ValidEdges(|p|, t)
    decreases |t|
  {
    t == [] ||
    (assert t[0] in t; p[t[0].u] != p[t[0].w] && Forest(Merge(p, t[0].u, t[0].w), t[1..]))
  }

  lemma {:induction false} GreedyIsForest(p: Partition, rest: seq<Edge>)
    requires ValidEdges(|p|, rest)
    ensures Forest(p, Greedy(p, rest))
    decreases |rest|
  {
    if rest != [] {
      var e := rest[0];
      assert e in rest;
      if p[e.u] == p[e.w] {
        GreedyIsForest(p, rest[1..]);
      } else {
        GreedyIsForest(Merge(p, e.u, e.w), rest[1..]);
        assert ([e] + Greedy(Merge(p, e.u, e.w), rest[1..]))[1..] == Greedy(Merge(p, e.u, e.w), rest[1..]);
      }
    }
  }

  ghost function Classes(p: Partition): set<nat> {
    set i | 0 <= i < |p| :: p[i]
  }

  lemma MergeCount(p: Partition, u: nat, w: nat)
    requires u < |p| && w < |p|
    ensures |Classes(Merge(p, u, w))| == |Classes(p)| - if p[u] == p[w] then 0 else 1
  {
    var q := Merge(p, u, w);
    if p[u] == p[w] {
      MergeRedundant(p, u, w);
    } else {
      forall x
        ensures x in Classes(q) <==> x in Classes(p) - {p[w]}
      {
        if x in Classes(q) {
          var i :| 0 <= i < |q| && q[i] == x;
        }
        if x in Classes(p) - {p[w]} {
          var i :| 0 <= i < |p| && p[i] == x;
          assert q[i] == x;
        }
      }
      assert Classes(q) == Classes(p) - {p[w]};
    }
  }

  lemma {:induction false} ForestCount(p: Partition, t: seq<Edge>)
    requires ValidEdges(|p|, t)
    ensures |Classes(MergeAll(p, t))| >= |Classes(p)| - |t|
    ensures Forest(p, t) ==> |Classes(MergeAll(p, t))| == |Classes(p)| - |t|
    decreases |t|
  {
    if t != [] {
      assert t[0] in t;
      MergeCount(p, t[0].u, t[0].w);
      ForestCount(Merge(p, t[0].u, t[0].w), t[1..]);
    }
  }

  lemma {:induction false} SingletonCount(n: nat)
    ensures |Classes(Singletons(n))| == n
  {
    if n > 0 {
      SingletonCount(n - 1);
      forall x
        ensures x in Classes(Singletons(n)) <==> x in Classes(Singletons(n - 1)) + {n - 1}
      {
        if x in Classes(Singletons(n - 1)) + {n - 1} {
          assert Singletons(n)[x] == x;
        }
        if x in Classes(Singletons(n)) {
          var i :| 0 <= i < n && Singletons(n)[i] == x;
          if i < n - 1 {
            assert Singletons(n - 1)[i] == x;
          }
        }
      }
      assert Classes(Singletons(n)) == Classes(Singletons(n - 1)) + {n - 1};
    }
  }

  lemma TwoElements(s: set<nat>, a: nat, b: nat)
    requires a in s && b in s && a != b
    ensures |s| >= 2
  {
    assert s == {a, b} + (s - {a, b});
  }

  lemma OneClassCount(p: Partition)
    requires 0 < |p|
    ensures OneClass(p) <==> |Classes(p)| == 1
  {
    assert p[0] in Classes(p);
    if OneClass(p) {
      assert Classes(p) == {p[0]};
    }
    if |Classes(p)| == 1 {
      forall x | 0 <= x < |p|
        ensures p[x] == p[0]
      {
        assert p[x] in Classes(p);
        if p[x] != p[0] {
          TwoElements(Classes(p), p[x], p[0]);
        }
      }
    }
  }

  /** A connected forest on n nodes has n - 1 edges, and none of them can be spared. */
  lemma SpanningForestIsTree(n: nat, t: seq<Edge>)
    requires 0 < n && ValidEdges(n, t) && Forest(Singletons(n), t) && Connects(n, t)
    ensures |t| == n - 1 && Acyclic(t)
  {
    var p := Singletons(n);
    OneClassIsConnected(n, t);
    OneClassCount(MergeAll(p, t));
    ForestCount(p, t);
    SingletonCount(n);
    forall k | 0 <= k < |t|
      ensures !Joined(Without(t, k), t[k].u, t[k].w)
    {
      if Joined(Without(t, k), t[k].u, t[k].w) {
        assert ValidEdges(n, Without(t, k));
        DetourConnects(n, t, k);
        OneClassIsConnected(n, Without(t, k));
        OneClassCount(MergeAll(p, Without(t, k)));
        ForestCount(p, Without(t, k));
        assert false;
      }
    }
  }

  /** If the ends of one edge are joined without it, nothing is lost by leaving it out. */
  lemma DetourConnects(n: nat, t: seq<Edge>, k: nat)
    requires ValidEdges(n, t) && Connects(n, t) && k < |t|
    requires Joined(Without(t, k), t[k].u, t[k].w)
    ensures Connects(n, Without(t, k))
  {
    var s, e := Without(t, k), t[k];
    assert e in t && ValidEdges(n, s);
    ComponentsAreWalks(n, s, e.u, e.w);
    forall a: nat, b: nat | a < n && b < n
      ensures Joined(s, a, b)
    {
      assert Joined(t, a, b);
      var w :| IsWalk(t, w, a, b);
      Detour(n, t, k, w, a, b);
      ComponentsAreWalks(n, s, a, b);
    }
  }

  lemma {:induction false} Detour(n: nat, t: seq<Edge>, k: nat, w: seq<nat>, a: nat, b: nat)
    requires ValidEdges(n, t) && k < |t| && ValidEdges(n, Without(t, k)) && a < n && b < n
    requires IsWalk(t, w, a, b)
    requires ValidEdge(n, t[k])
    requires Components(n, Without(t, k))[t[k].u] == Components(n, Without(t, k))[t[k].w]
    ensures Components(n, Without(t, k))[a] == Components(n, Without(t, k))[b]
    decreases |w|
  {
    if |w| > 1 {
      var s := Without(t, k);
      assert Linked(t, w[0], w[1]);
      var e :| e in t && ((e.u == w[0] && e.w == w[1]) || (e.u == w[1] && e.w == w[0]));
      var i :| 0 <= i < |t| && t[i] == e;
      if i != k {
        assert s[if i < k then i else i - 1] == e;
        EdgeWithinClass(Singletons(n), s, e);
      }
      forall j | 0 <= j < |w[1..]| - 1
        ensures Linked(t, w[1..][j], w[1..][j + 1])
      {
        assert Linked(t, w[j + 1], w[j + 2]);
      }
      assert IsWalk(t, w[1..], w[1], b);
      Detour(n, t, k, w[1..], w[1], b);
    }
  }
}
