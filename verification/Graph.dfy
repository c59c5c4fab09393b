/** Edges, walks, and the partition of the nodes into connected components. */
module Graph {

  /** A cable from u to w; every cable is stored once in each direction. */
  datatype Edge = Edge(u: nat, w: nat, copper: bool, latency: real)

  ghost predicate ValidEdge(n: nat, e: Edge) {
    e.u < n && e.w < n && e.latency >= 0.0
  }

  ghost predicate ValidEdges(n: nat, es: seq<Edge>) {
    forall e :: e in es ==> ValidEdge(n, e)
  }

  // ----- walks -----

  /** Some edge joins `a` and `b`, in either direction. */
  ghost predicate Linked(es: seq<Edge>, a: nat, b: nat) {
    exists e :: e in es && ((e.u == a && e.w == b) || (e.u == b && e.w == a))
  }

  ghost predicate IsWalk(es: seq<Edge>, p: seq<nat>, a: nat, b: nat) {
    && p != [] && p[0] == a && p[|p| - 1] == b
    && forall i :: 0 <= i < |p| - 1 ==> Linked(es, p[i], p[i + 1])
  }

  ghost predicate Joined(es: seq<Edge>, a: nat, b: nat) {
    exists p :: IsWalk(es, p, a, b)
  }

  /** Any two of the nodes 0 .. n-1 are joined by a walk. */
  ghost predicate Connects(n: nat, es: seq<Edge>) {
    forall a: nat, b: nat :: a < n && b < n ==> Joined(es, a, b)
  }

  lemma JoinedSelf(es: seq<Edge>, a: nat)
    ensures Joined(es, a, a)
  {
    assert IsWalk(es, [a], a, a);
  }

  lemma JoinedEdge(es: seq<Edge>, e: Edge)
    requires e in es
    ensures Joined(es, e.u, e.w) && Joined(es, e.w, e.u)
  {
    assert Linked(es, e.u, e.w) && Linked(es, e.w, e.u);
    assert IsWalk(es, [e.u, e.w], e.u, e.w) && IsWalk(es, [e.w, e.u], e.w, e.u);
  }

  lemma JoinedTrans(es: seq<Edge>, a: nat, b: nat, c: nat)
    requires Joined(es, a, b) && Joined(es, b, c)
    ensures Joined(es, a, c)
  {
    var p :| IsWalk(es, p, a, b);
    var q :| IsWalk(es, q, b, c);
    var r := p + q[1..];
    forall i | 0 <= i < |r| - 1
      ensures Linked(es, r[i], r[i + 1])
    {
      if i < |p| - 1 {
        assert Linked(es, p[i], p[i + 1]);
      } else {
        assert Linked(es, q[i - |p| + 1], q[i - |p| + 2]);
      }
    }
    assert IsWalk(es, r, a, c);
  }

  lemma JoinedMore(es: seq<Edge>, fs: seq<Edge>, a: nat, b: nat)
    requires Joined(es, a, b) && forall e :: e in es ==> e in fs
    ensures Joined(fs, a, b)
  {
    var p :| IsWalk(es, p, a, b);
    forall i | 0 <= i < |p| - 1
      ensures Linked(fs, p[i], p[i + 1])
    {
      assert Linked(es, p[i], p[i + 1]);
    }
    assert IsWalk(fs, p, a, b);
  }

  // ----- partitions, as a class number for every node -----

  type Partition = seq<nat>

  function Singletons(n: nat): Partition {
    seq(n, i => i)
  }

  /** The classes of `u` and `w` become one. */
  function Merge(p: Partition, u: nat, w: nat): (q: Partition)
    requires u < |p| && w < |p|
    ensures |q| == |p|
  {
    seq(|p|, i requires 0 <= i < |p| => if p[i] == p[w] then p[u] else p[i])
  }

  /** All edges are merged into `p`, one after the other. */
  ghost function MergeAll(p: Partition, es: seq<Edge>): (q: Partition)
    requires ValidEdges(|p|, es)
    ensures |q| == |p|
    decreases |es|
  {
    if es == [] then p
    else
      assert es[0] in es;
      MergeAll(Merge(p, es[0].u, es[0].w), es[1..])
  }

  ghost predicate SameClasses(p: Partition, q: Partition) {
    |p| == |q| && forall x, y :: 0 <= x < |p| && 0 <= y < |p| ==> (p[x] == p[y] <==> q[x] == q[y])
  }

  ghost predicate OneClass(p: Partition) {
    forall x, y :: 0 <= x < |p| && 0 <= y < |p| ==> p[x] == p[y]
  }

  lemma MergeClasses(p: Partition, u: nat, w: nat, x: nat, y: nat)
    requires u < |p| && w < |p| && x < |p| && y < |p|
    ensures Merge(p, u, w)[x] == Merge(p, u, w)[y] <==>
            p[x] == p[y] || (p[x] == p[u] && p[y] == p[w]) || (p[x] == p[w] && p[y] == p[u])
  {
  }

  lemma {:induction false} MergeAllSnoc(p: Partition, es: seq<Edge>, e: Edge)
    requires ValidEdges(|p|, es) && ValidEdge(|p|, e)
    ensures ValidEdges(|p|, es + [e])
    ensures MergeAll(p, es + [e]) == Merge(MergeAll(p, es), e.u, e.w)
    decreases |es|
  {
    if es == [] {
      assert (es + [e])[1..] == [];
    } else {
      assert es[0] in es && (es + [e])[1..] == es[1..] + [e];
      MergeAllSnoc(Merge(p, es[0].u, es[0].w), es[1..], e);
    }
  }

  lemma {:induction false} MergeAllConcat(p: Partition, es: seq<Edge>, fs: seq<Edge>)
    requires ValidEdges(|p|, es) && ValidEdges(|p|, fs)
    ensures ValidEdges(|p|, es + fs) && MergeAll(p, es + fs) == MergeAll(MergeAll(p, es), fs)
    decreases |es|
  {
    if es == [] {
      assert es + fs == fs;
    } else {
      assert es[0] in es && (es + fs)[1..] == es[1..] + fs;
      MergeAllConcat(Merge(p, es[0].u, es[0].w), es[1..], fs);
    }
  }

  /** What is together stays together. */
  lemma {:induction false} MergeAllKeeps(p: Partition, es: seq<Edge>, x: nat, y: nat)
    requires ValidEdges(|p|, es) && x < |p| && y < |p| && p[x] == p[y]
    ensures MergeAll(p, es)[x] == MergeAll(p, es)[y]
    decreases |es|
  {
    if es != [] {
      assert es[0] in es;
      MergeAllKeeps(Merge(p, es[0].u, es[0].w), es[1..], x, y);
    }
  }

  lemma MergeSame(p: Partition, q: Partition, u: nat, w: nat)
    requires SameClasses(p, q) && u < |p| && w < |p|
    ensures SameClasses(Merge(p, u, w), Merge(q, u, w))
  {
    forall x, y | 0 <= x < |p| && 0 <= y < |p|
      ensures Merge(p, u, w)[x] == Merge(p, u, w)[y] <==> Merge(q, u, w)[x] == Merge(q, u, w)[y]
    {
      MergeClasses(p, u, w, x, y);
      MergeClasses(q, u, w, x, y);
    }
  }

  lemma {:induction false} MergeAllSame(p: Partition, q: Partition, es: seq<Edge>)
    requires SameClasses(p, q) && ValidEdges(|p|, es)
    ensures SameClasses(MergeAll(p, es), MergeAll(q, es))
    decreases |es|
  {
    if es != [] {
      assert es[0] in es;
      MergeSame(p, q, es[0].u, es[0].w);
      MergeAllSame(Merge(p, es[0].u, es[0].w), Merge(q, es[0].u, es[0].w), es[1..]);
    }
  }

  /** The order in which two pairs of classes are merged does not matter. */
  lemma MergeCommutes(p: Partition, a: nat, b: nat, c: nat, d: nat)
    requires a < |p| && b < |p| && c < |p| && d < |p|
    ensures SameClasses(Merge(Merge(p, a, b), c, d), Merge(Merge(p, c, d), a, b))
  {
    var q, r := Merge(p, a, b), Merge(p, c, d);
    forall x, y | 0 <= x < |p| && 0 <= y < |p|
      ensures Merge(q, c, d)[x] == Merge(q, c, d)[y] <==> Merge(r, a, b)[x] == Merge(r, a, b)[y]
    {
      MergeClasses(q, c, d, x, y);
      MergeClasses(r, a, b, x, y);
    }
  }

  lemma {:induction false} MergeFirstOrLast(p: Partition, es: seq<Edge>, u: nat, w: nat)
    requires ValidEdges(|p|, es) && u < |p| && w < |p|
    ensures SameClasses(MergeAll(Merge(p, u, w), es), Merge(MergeAll(p, es), u, w))
    decreases |es|
  {
    if es != [] {
      var e := es[0];
      assert e in es;
      MergeCommutes(p, u, w, e.u, e.w);
      MergeAllSame(Merge(Merge(p, u, w), e.u, e.w), Merge(Merge(p, e.u, e.w), u, w), es[1..]);
      MergeFirstOrLast(Merge(p, e.u, e.w), es[1..], u, w);
    }
  }

  /** Merging in an edge within a class changes nothing. */
  lemma MergeRedundant(p: Partition, u: nat, w: nat)
    requires u < |p| && w < |p| && p[u] == p[w]
    ensures Merge(p, u, w) == p
  {
  }

  // ----- classes are connected components -----

  ghost function Components(n: nat, es: seq<Edge>): (p: Partition)
    requires ValidEdges(n, es)
    ensures |p| == n
  {
    MergeAll(Singletons(n), es)
  }

  lemma {:induction false} EdgeWithinClass(p: Partition, es: seq<Edge>, e: Edge)
    requires ValidEdges(|p|, es) && e in es
    ensures MergeAll(p, es)[e.u] == MergeAll(p, es)[e.w]
    decreases |es|
  {
    assert es[0] in es;
    var q := Merge(p, es[0].u, es[0].w);
    if e == es[0] {
      MergeAllKeeps(q, es[1..], e.u, e.w);
    } else {
      EdgeWithinClass(q, es[1..], e);
    }
  }

  lemma {:induction false} WalkWithinClass(n: nat, es: seq<Edge>, p: seq<nat>, a: nat, b: nat)
    requires ValidEdges(n, es) && IsWalk(es, p, a, b) && a < n
    ensures b < n && Components(n, es)[a] == Components(n, es)[b]
    decreases |p|
  {
    if |p| > 1 {
      assert Linked(es, p[0], p[1]);
      var e :| e in es && ((e.u == p[0] && e.w == p[1]) || (e.u == p[1] && e.w == p[0]));
      EdgeWithinClass(Singletons(n), es, e);
      forall i | 0 <= i < |p[1..]| - 1
        ensures Linked(es, p[1..][i], p[1..][i + 1])
      {
        assert Linked(es, p[i + 1], p[i + 2]);
      }
      assert IsWalk(es, p[1..], p[1], b);
      WalkWithinClass(n, es, p[1..], p[1], b);
    }
  }

  lemma {:induction false} ClassIsJoined(n: nat, es: seq<Edge>, k: nat, a: nat, b: nat)
    requires ValidEdges(n, es) && k <= |es| && a < n && b < n
    requires ValidEdges(n, es[..k]) && Components(n, es[..k])[a] == Components(n, es[..k])[b]
    ensures Joined(es, a, b)
    decreases k
  {
    if k == 0 {
      JoinedSelf(es, a);
    } else {
      var e, before := es[k - 1], es[..k - 1];
      assert e in es && es[..k] == before + [e];
      assert ValidEdges(n, before);
      MergeAllSnoc(Singletons(n), before, e);
      var p := Components(n, before);
      MergeClasses(p, e.u, e.w, a, b);
      JoinedEdge(es, e);
      if p[a] == p[b] {
        ClassIsJoined(n, es, k - 1, a, b);
      } else if p[a] == p[e.u] {
        ClassIsJoined(n, es, k - 1, a, e.u);
        ClassIsJoined(n, es, k - 1, e.w, b);
        JoinedTrans(es, a, e.u, e.w);
        JoinedTrans(es, a, e.w, b);
      } else {
        ClassIsJoined(n, es, k - 1, a, e.w);
        ClassIsJoined(n, es, k - 1, e.u, b);
        JoinedTrans(es, a, e.w, e.u);
        JoinedTrans(es, a, e.u, b);
      }
    }
  }

  /** Two nodes are in one class of the merged partition exactly when a walk joins them. */
  lemma ComponentsAreWalks(n: nat, es: seq<Edge>, a: nat, b: nat)
    requires ValidEdges(n, es) && a < n && b < n
    ensures Components(n, es)[a] == Components(n, es)[b] <==> Joined(es, a, b)
  {
    if Joined(es, a, b) {
      var p :| IsWalk(es, p, a, b);
      WalkWithinClass(n, es, p, a, b);
    }
    if Components(n, es)[a] == Components(n, es)[b] {
      assert es[..|es|] == es;
      ClassIsJoined(n, es, |es|, a, b);
    }
  }

  lemma OneClassIsConnected(n: nat, es: seq<Edge>)
    requires ValidEdges(n, es)
    ensures OneClass(Components(n, es)) <==> Connects(n, es)
  {
    forall a: nat, b: nat | a < n && b < n
      ensures Components(n, es)[a] == Components(n, es)[b] <==> Joined(es, a, b)
    {
      ComponentsAreWalks(n, es, a, b);
    }
  }
}
