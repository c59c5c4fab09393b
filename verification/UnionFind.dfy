/** Union-find over two parallel arrays, with union by rank and compression of the searched node. */
module UnionFinds {
  import opened Graph
  import Numerals

  /** The parent array `ps` and the rank array `rs` represent the partition `cl`: ranks grow toward the
      root, nodes of one tree are in one class, and different roots are in different classes. */
  ghost predicate Represents(ps: seq<nat>, rs: seq<nat>, cl: Partition, top: nat) {
    && |ps| == |rs| == |cl|
    && (forall i :: 0 <= i < |ps| ==> ps[i] < |ps|)
    && (forall i :: 0 <= i < |ps| ==> rs[i] <= top)
    && (forall i :: 0 <= i < |ps| ==> ps[i] == i || rs[i] < rs[ps[i]])
    && (forall i :: 0 <= i < |ps| ==> cl[i] == cl[ps[i]])
    && (forall i, j :: 0 <= i < |ps| && 0 <= j < |ps| && ps[i] == i && ps[j] == j && cl[i] == cl[j] ==> i == j)
  }

  lemma CompressKeeps(ps: seq<nat>, rs: seq<nat>, cl: Partition, top: nat, node: nat, root: nat)
    requires Represents(ps, rs, cl, top) && node < |ps| && root < |ps| && ps[root] == root && cl[root] == cl[node]
    requires node == root || rs[node] < rs[root]
    ensures Represents(ps[node := root], rs, cl, top)
  {
  }

  /** Hanging the root `b` below the root `a` of larger rank merges their classes. */
  lemma LinkMerges(ps: seq<nat>, rs: seq<nat>, cl: Partition, top: nat, a: nat, b: nat, u: nat, w: nat)
    requires Represents(ps, rs, cl, top) && a < |ps| && b < |ps| && a != b && ps[a] == a && ps[b] == b && rs[b] < rs[a]
    requires u < |ps| && w < |ps| && {cl[u], cl[w]} == {cl[a], cl[b]}
    ensures Represents(ps[b := a], rs, Merge(cl, u, w), top)
  {
    var qs, dl := ps[b := a], Merge(cl, u, w);
    forall i, j | 0 <= i < |qs| && 0 <= j < |qs| && qs[i] == i && qs[j] == j && dl[i] == dl[j]
      ensures i == j
    {
      MergeClasses(cl, u, w, i, j);
    }
  }

  lemma RaiseRank(ps: seq<nat>, rs: seq<nat>, cl: Partition, top: nat, a: nat)
    requires Represents(ps, rs, cl, top) && a < |ps| && ps[a] == a
    ensures Represents(ps, rs[a := rs[a] + 1], cl, top + 1)
  {
  }

  /** Two roots are the same exactly when their classes are. */
  lemma RootsAgree(ps: seq<nat>, rs: seq<nat>, cl: Partition, top: nat, a: nat, b: nat)
    requires Represents(ps, rs, cl, top) && a < |ps| && b < |ps| && ps[a] == a && ps[b] == b
    ensures |cl| == |ps| && (a == b <==> cl[a] == cl[b])
  {
  }

  // ----- union by rank keeps the trees flat -----

  ghost function Members(cl: Partition, c: nat): set<nat> {
    set i: nat | i < |cl| && cl[i] == c
  }

  /** A root of rank r has at least 2^(r - 1) nodes in its class, and no rank is higher than all nodes allow. */
  ghost predicate Balanced(ps: seq<nat>, rs: seq<nat>, cl: Partition) {
    && |ps| == |rs| == |cl|
    && forall i :: 0 <= i < |ps| ==>
         && 1 <= rs[i] && Numerals.Pow(2, rs[i] - 1) <= |cl|
         && (ps[i] == i ==> Numerals.Pow(2, rs[i] - 1) <= |Members(cl, cl[i])|)
  }

  lemma SingletonsBalanced(ps: seq<nat>, rs: seq<nat>)
    requires |ps| == |rs| && forall i :: 0 <= i < |ps| ==> rs[i] == 1
    ensures Balanced(ps, rs, Singletons(|ps|))
  {
    var cl := Singletons(|ps|);
    assert Numerals.Pow(2, 0) == 1;
    forall i | 0 <= i < |ps|
      ensures |Members(cl, cl[i])| >= 1
    {
      assert i in Members(cl, cl[i]);
    }
  }

  lemma CompressBalanced(ps: seq<nat>, rs: seq<nat>, cl: Partition, node: nat, root: nat)
    requires Balanced(ps, rs, cl) && node < |ps| && (node == root ==> ps[node] == node)
    ensures Balanced(ps[node := root], rs, cl)
  {
  }

  lemma {:induction false} MembersBound(s: set<nat>, n: nat)
    requires forall i :: i in s ==> i < n
    ensures |s| <= n
  {
    if n > 0 {
      MembersBound(s - {n - 1}, n - 1);
    } else {
      assert s == {};
    }
  }

  /** The merged class has the members of both, and the other classes keep theirs. */
  lemma MergedMembers(cl: Partition, u: nat, w: nat, i: nat)
    requires u < |cl| && w < |cl| && cl[u] != cl[w] && i < |cl|
    ensures var dl := Merge(cl, u, w);
            |Members(dl, dl[i])| == if cl[i] == cl[u] || cl[i] == cl[w] then |Members(cl, cl[u])| + |Members(cl, cl[w])|
                                    else |Members(cl, cl[i])|
  {
    var dl := Merge(cl, u, w);
    if cl[i] == cl[u] || cl[i] == cl[w] {
      assert Members(dl, dl[i]) == Members(cl, cl[u]) + Members(cl, cl[w]);
      assert Members(cl, cl[u]) !! Members(cl, cl[w]);
    } else {
      assert Members(dl, dl[i]) == Members(cl, cl[i]);
    }
  }

  /** Hanging the root `b` below the root `a`, whose rank grows if both are equal. */
  lemma LinkBalanced(ps: seq<nat>, rs: seq<nat>, cl: Partition, top: nat, a: nat, b: nat, u: nat, w: nat)
    requires Represents(ps, rs, cl, top) && Balanced(ps, rs, cl)
    requires a < |ps| && b < |ps| && a != b && ps[a] == a && ps[b] == b && rs[b] <= rs[a]
    requires u < |ps| && w < |ps| && {cl[u], cl[w]} == {cl[a], cl[b]}
    ensures Balanced(ps[b := a], if rs[a] == rs[b] then rs[a := rs[a] + 1] else rs, Merge(cl, u, w))
  {
    hide Represents, Merge, Members, Numerals.Pow;
    var qs, dl := ps[b := a], Merge(cl, u, w);
    var ts := if rs[a] == rs[b] then rs[a := rs[a] + 1] else rs;
    RootsAgree(ps, rs, cl, top, a, b);
    MergedMembers(cl, u, w, a);
    MembersBound(Members(dl, dl[a]), |dl|) by {
      assert forall i :: i in Members(dl, dl[a]) ==> i < |dl| by {
        MembersAreNodes(dl, dl[a]);
      }
    }
    PowDoubles(rs[a]);
    forall i | 0 <= i < |qs|
      ensures 1 <= ts[i] && Numerals.Pow(2, ts[i] - 1) <= |dl|
      ensures qs[i] == i ==> Numerals.Pow(2, ts[i] - 1) <= |Members(dl, dl[i])|
    {
      if qs[i] == i && i != a {
        RootsAgree(ps, rs, cl, top, a, i);
        RootsAgree(ps, rs, cl, top, b, i);
        MergedMembers(cl, u, w, i);
      }
    }
  }

  lemma MembersAreNodes(cl: Partition, c: nat)
    ensures forall i :: i in Members(cl, c) ==> i < |cl|
  {
  }

  lemma PowDoubles(e: nat)
    ensures e > 0 ==> Numerals.Pow(2, e) == 2 * Numerals.Pow(2, e - 1)
  {
  }

  /** The steps from a node to its root. */
  ghost function Steps(ps: seq<nat>, rs: seq<nat>, cl: Partition, top: nat, i: nat): nat
    requires Represents(ps, rs, cl, top) && i < |ps|
    decreases top - rs[i]
  {
    if ps[i] == i then 0 else 1 + Steps(ps, rs, cl, top, ps[i])
  }

  /** The walk to a root takes at most as many steps as the number of nodes has binary digits. */
  lemma {:induction false} WalkIsShort(ps: seq<nat>, rs: seq<nat>, cl: Partition, top: nat, i: nat)
    requires Represents(ps, rs, cl, top) && Balanced(ps, rs, cl) && i < |ps|
    ensures Numerals.Pow(2, Steps(ps, rs, cl, top, i) + rs[i] - 1) <= |ps|
    ensures Numerals.Pow(2, Steps(ps, rs, cl, top, i)) <= |ps|
    decreases top - rs[i]
  {
    if ps[i] != i {
      WalkIsShort(ps, rs, cl, top, ps[i]);
      PowMonotone(Steps(ps, rs, cl, top, i) + rs[i] - 1, Steps(ps, rs, cl, top, ps[i]) + rs[ps[i]] - 1);
    }
    PowMonotone(Steps(ps, rs, cl, top, i), Steps(ps, rs, cl, top, i) + rs[i] - 1);
  }

  lemma PowMonotone(k: nat, n: nat)
    requires k <= n
    ensures Numerals.Pow(2, k) <= Numerals.Pow(2, n)
  {
    if k < n {
      Numerals.PowMono(k, n);
    }
  }

  class UnionFind {
    const parentOf: array<nat>
    const rank: array<nat>
    const nodeCount: nat
    /** The partition the arrays represent. */
    ghost var classes: Partition
    /** No rank is larger. */
    ghost var top: nat

    ghost predicate Valid()
      reads this, parentOf, rank
    {
      && parentOf != rank && parentOf.Length == rank.Length == nodeCount
      && Represents(parentOf[..], rank[..], classes, top) && Balanced(parentOf[..], rank[..], classes)
    }

    constructor (numNodes: nat)
      ensures Valid() && fresh(parentOf) && fresh(rank)
      ensures nodeCount == numNodes && classes == Singletons(numNodes)
    {
      nodeCount := numNodes;
      parentOf := new nat[numNodes];
      rank := new nat[numNodes];
      new;
      for i := 0 to numNodes
        invariant forall k :: 0 <= k < i ==> parentOf[k] == k && rank[k] == 1
      {
        parentOf[i] := i;
        rank[i] := 1;
      }
      SingletonsBalanced(parentOf[..], rank[..]);
      classes, top := Singletons(numNodes), 1;
    }

    predicate IsParent(node: nat)
      requires node < parentOf.Length
      reads this, parentOf
    {
      parentOf[node] == node
    }

    /** The root of the tree `node` is in; `node` then hangs directly below it. */
    method FindParent(node: nat) returns (r: nat)
      requires Valid() && node < nodeCount
      modifies parentOf
      ensures Valid() && r < nodeCount && parentOf[r] == r && classes[r] == classes[node]
      ensures parentOf[..] == old(parentOf[..])[node := r]
      ensures old(parentOf[node]) == node ==> r == node
    {
      hide Balanced;
      var currNode: nat := node;
      ghost var ps, rs := parentOf[..], rank[..];
      while !IsParent(currNode)
        invariant currNode < nodeCount && classes[currNode] == classes[node]
        invariant currNode == node || (rs[node] < rs[currNode] && ps[node] != node)
        invariant parentOf[..] == ps
        decreases top - rs[currNode]
      {
        assert ps[currNode] == parentOf[currNode];
        currNode := parentOf[currNode];
      }
      CompressKeeps(ps, rs, classes, top, node, currNode);
      CompressBalanced(ps, rs, classes, node, currNode);
      parentOf[node] := currNode;
      assert parentOf[..] == ps[node := currNode];
      r := currNode;
    }

    /** Two nodes are connected exactly when the edges unioned so far put them in one class. */
    method Connected(node1: nat, node2: nat) returns (b: bool)
      requires Valid() && node1 < nodeCount && node2 < nodeCount
      modifies parentOf
      ensures Valid() && b == (classes[node1] == classes[node2])
    {
      var parent1 := FindParent(node1);
      var parent2 := FindParent(node2);
      b := parent1 == parent2;
      assert parentOf[..][parent1] == parent1 && parentOf[..][parent2] == parent2;
    }

    method Union(newEdge: Edge)
      requires Valid() && ValidEdge(nodeCount, newEdge)
      modifies this, parentOf, rank
      ensures Valid() && classes == Merge(old(classes), newEdge.u, newEdge.w)
    {
      hide Represents, Balanced;
      var sourceParent := FindParent(newEdge.u);
      var destinationParent := FindParent(newEdge.w);
      ghost var ps, rs := parentOf[..], rank[..];
      RootsAgree(ps, rs, classes, top, sourceParent, destinationParent);
      if sourceParent != destinationParent {
        if rank[sourceParent] > rank[destinationParent] {
          LinkMerges(ps, rs, classes, top, sourceParent, destinationParent, newEdge.u, newEdge.w);
          LinkBalanced(ps, rs, classes, top, sourceParent, destinationParent, newEdge.u, newEdge.w);
          parentOf[destinationParent] := sourceParent;
          assert parentOf[..] == ps[destinationParent := sourceParent];
        } else if rank[destinationParent] > rank[sourceParent] {
          LinkMerges(ps, rs, classes, top, destinationParent, sourceParent, newEdge.u, newEdge.w);
          LinkBalanced(ps, rs, classes, top, destinationParent, sourceParent, newEdge.u, newEdge.w);
          parentOf[sourceParent] := destinationParent;
          assert parentOf[..] == ps[sourceParent := destinationParent];
        } else {
          RaiseRank(ps, rs, classes, top, sourceParent);
          LinkBalanced(ps, rs, classes, top, sourceParent, destinationParent, newEdge.u, newEdge.w);
          LinkMerges(ps, rs[sourceParent := rs[sourceParent] + 1], classes, top + 1,
                     sourceParent, destinationParent, newEdge.u, newEdge.w);
          parentOf[destinationParent] := sourceParent;
          rank[sourceParent] := rank[sourceParent] + 1;
          top := top + 1;
          assert parentOf[..] == ps[destinationParent := sourceParent] && rank[..] == rs[sourceParent := rs[sourceParent] + 1];
        }
      } else {
        MergeRedundant(classes, newEdge.u, newEdge.w);
      }
      classes := Merge(classes, newEdge.u, newEdge.w);
    }

    /** Whether all nodes have the same root. */
    method ConnectedGraph() returns (connected: bool)
      requires Valid() && 0 < nodeCount
      modifies parentOf
      ensures Valid() && connected == OneClass(classes)
    {
      hide Represents;
      connected := true;
      var currParent := FindParent(0);
      RootsAgree(parentOf[..], rank[..], classes, top, currParent, currParent);
      for i := 0 to nodeCount
        invariant Valid() && currParent < nodeCount && parentOf[currParent] == currParent
        invariant classes[currParent] == classes[0]
        invariant connected == forall k :: 0 <= k < i ==> classes[k] == classes[0]
      {
        var parent := FindParent(i);
        RootsAgree(parentOf[..], rank[..], classes, top, currParent, parent);
        if currParent != parent {
          connected := false;
        }
      }
    }
  }
}
