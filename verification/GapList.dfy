/** The receiver's list of missing ranges of sequence numbers: doubly linked nodes that are split,
    shrunk and unlinked in place. */
module GapLists {
  import opened Sequences

  /** The numbers from `start` up to but not including `end`. */
  datatype Gap = Gap(start: int, end: int)

  predicate In(x: int, g: Gap) {
    g.start <= x < g.end
  }

  ghost predicate Covers(gaps: seq<Gap>, x: int) {
    exists i :: 0 <= i < |gaps| && In(x, gaps[i])
  }

  /** The gaps are not empty, ascend, and at least one received number lies between any two. */
  ghost predicate Separated(gaps: seq<Gap>) {
    && (forall i :: 0 <= i < |gaps| ==> gaps[i].start < gaps[i].end)
    && (forall i, j :: 0 <= i < j < |gaps| ==> gaps[i].end < gaps[j].start)
  }

  /** What is left of a gap once `p` has arrived: the part below and the part above, if not empty. */
  function Pieces(g: Gap, p: int): seq<Gap> {
    (if g.start < p then [Gap(g.start, p)] else []) + (if p + 1 < g.end then [Gap(p + 1, g.end)] else [])
  }

  /** The gap at position `i` is replaced by its pieces. */
  function SplitAt(gaps: seq<Gap>, i: nat, p: int): seq<Gap>
    requires i < |gaps|
  {
    gaps[..i] + Pieces(gaps[i], p) + gaps[i + 1..]
  }

  /** Where the other gaps are after the split. */
  lemma SplitPositions(gaps: seq<Gap>, i: nat, p: int) returns (extra: int)
    requires i < |gaps| && In(p, gaps[i])
    ensures extra == |Pieces(gaps[i], p)| - 1 && |SplitAt(gaps, i, p)| == |gaps| + extra
    ensures forall k :: 0 <= k < i ==> SplitAt(gaps, i, p)[k] == gaps[k]
    ensures forall k :: i <= k <= i + extra ==> SplitAt(gaps, i, p)[k] == Pieces(gaps[i], p)[k - i]
    ensures forall k :: i + extra < k < |gaps| + extra ==> SplitAt(gaps, i, p)[k] == gaps[k - extra]
  {
    extra := |Pieces(gaps[i], p)| - 1;
  }

  lemma SplitIsSeparated(gaps: seq<Gap>, i: nat, p: int)
    requires Separated(gaps) && i < |gaps| && In(p, gaps[i])
    ensures Separated(SplitAt(gaps, i, p))
  {
    var extra := SplitPositions(gaps, i, p);
  }

  /** Splitting at `p` takes exactly `p` out of the covered numbers. */
  lemma SplitUncovers(gaps: seq<Gap>, i: nat, p: int, x: int)
    requires Separated(gaps) && i < |gaps| && In(p, gaps[i])
    ensures Covers(SplitAt(gaps, i, p), x) <==> Covers(gaps, x) && x != p
  {
    if Covers(gaps, x) && x != p {
      SplitStillCovers(gaps, i, p, x);
    }
    if Covers(SplitAt(gaps, i, p), x) {
      var s := SplitAt(gaps, i, p);
      var extra := SplitPositions(gaps, i, p);
      var k :| 0 <= k < |s| && In(x, s[k]);
      var j := if k < i then k else if k > i + extra then k - extra else i;
      assert In(x, gaps[j]) && x != p;
    }
  }

  lemma SplitStillCovers(gaps: seq<Gap>, i: nat, p: int, x: int)
    requires i < |gaps| && In(p, gaps[i]) && Covers(gaps, x) && x != p
    ensures Covers(SplitAt(gaps, i, p), x)
  {
    var s := SplitAt(gaps, i, p);
      var extra := SplitPositions(gaps, i, p);
    var j :| 0 <= j < |gaps| && In(x, gaps[j]);
    var k := if j < i || (j == i && x < p) then j else j + extra;
    assert s[k] == if j != i then gaps[j] else if x < p then Gap(gaps[i].start, p) else Gap(p + 1, gaps[i].end);
  }

  /** The three ways in which SplitGap changes the list. */
  lemma SplitForms(gaps: seq<Gap>, i: nat, p: int)
    requires i < |gaps| && In(p, gaps[i])
    ensures gaps[i].start == p && p + 1 == gaps[i].end ==> SplitAt(gaps, i, p) == gaps[..i] + gaps[i + 1..]
    ensures gaps[i].start == p && p + 1 < gaps[i].end ==> SplitAt(gaps, i, p) == gaps[i := Gap(p + 1, gaps[i].end)]
    ensures gaps[i].start < p && p + 1 == gaps[i].end ==> SplitAt(gaps, i, p) == gaps[i := Gap(gaps[i].start, p)]
    ensures gaps[i].start < p && p + 1 < gaps[i].end ==>
              SplitAt(gaps, i, p) == gaps[..i] + [Gap(gaps[i].start, p), Gap(p + 1, gaps[i].end)] + gaps[i + 1..]
  {
  }

  /** What SplitGap makes of the gaps: the one that holds `p`, if any, is replaced by its pieces. */
  ghost predicate IsSplit(gaps: seq<Gap>, p: int, gaps': seq<Gap>) {
    && (!Covers(gaps, p) ==> gaps' == gaps)
    && forall i :: 0 <= i < |gaps| && In(p, gaps[i]) ==> gaps' == SplitAt(gaps, i, p)
  }

  lemma IsSplitUncovers(gaps: seq<Gap>, p: int, gaps': seq<Gap>)
    requires Separated(gaps) && IsSplit(gaps, p, gaps')
    ensures Separated(gaps')
    ensures forall x :: Covers(gaps', x) <==> Covers(gaps, x) && x != p
  {
    if Covers(gaps, p) {
      var i :| 0 <= i < |gaps| && In(p, gaps[i]);
      SplitIsSeparated(gaps, i, p);
      forall x
        ensures Covers(gaps', x) <==> Covers(gaps, x) && x != p
      {
        SplitUncovers(gaps, i, p, x);
      }
    }
  }

  /** A gap behind all others covers its own numbers in addition. */
  lemma AppendCovers(gaps: seq<Gap>, g: Gap)
    requires Separated(gaps) && g.start < g.end
    requires forall i :: 0 <= i < |gaps| ==> gaps[i].end < g.start
    ensures Separated(gaps + [g])
    ensures forall x :: Covers(gaps + [g], x) <==> Covers(gaps, x) || In(x, g)
  {
    forall x
      ensures Covers(gaps + [g], x) <==> Covers(gaps, x) || In(x, g)
    {
      if Covers(gaps, x) {
        var i :| 0 <= i < |gaps| && In(x, gaps[i]);
        assert In(x, (gaps + [g])[i]);
      }
      if In(x, g) {
        assert In(x, (gaps + [g])[|gaps|]);
      }
    }
  }

  class GapNode {
    var gapData: Gap
    var next: GapNode?
    var prev: GapNode?

    constructor (g: Gap)
      ensures gapData == g && next == null && prev == null
    {
      gapData, next, prev := g, null, null;
    }
  }

  /** The node at position `i`, or null beyond either end. */
  ghost function Nth(nodes: seq<GapNode>, i: int): GapNode? {
    if 0 <= i < |nodes| then nodes[i] else null
  }

  lemma NthIs(nodes: seq<GapNode>, i: int)
    ensures Nth(nodes, i) == if 0 <= i < |nodes| then nodes[i] else null
  {
  }

  ghost predicate Chained(nodes: seq<GapNode>)
    reads nodes`next, nodes`prev
  {
    && (forall i {:trigger nodes[i].next} :: 0 <= i < |nodes| ==> nodes[i].next == Nth(nodes, i + 1))
    && (forall i {:trigger nodes[i].prev} :: 0 <= i < |nodes| ==> nodes[i].prev == Nth(nodes, i - 1))
  }

  /** The nodes hold these gaps. */
  ghost predicate Shows(nodes: seq<GapNode>, view: seq<Gap>)
    reads nodes`gapData
  {
    |view| == |nodes| && forall i :: 0 <= i < |nodes| ==> nodes[i].gapData == view[i]
  }

  lemma ShowsAfterDivision(nodes: seq<GapNode>, view: seq<Gap>, k: nat, newNode: GapNode)
    requires k < |nodes| == |view|
    requires forall i :: 0 <= i < |nodes| && i != k ==> nodes[i].gapData == view[i]
    ensures Shows(nodes[..k + 1] + [newNode] + nodes[k + 1..], view[..k] + [nodes[k].gapData, newNode.gapData] + view[k + 1..])
  {
    var more, gaps := nodes[..k + 1] + [newNode] + nodes[k + 1..], view[..k] + [nodes[k].gapData, newNode.gapData] + view[k + 1..];
    forall i | 0 <= i < |more|
      ensures more[i].gapData == gaps[i]
    {
      if i > k + 1 {
        assert more[i] == nodes[i - 1] && gaps[i] == view[i - 1];
      }
    }
  }

  lemma ShowsAfterRemoval(nodes: seq<GapNode>, view: seq<Gap>, k: nat)
    requires Shows(nodes, view) && k < |nodes|
    ensures Shows(nodes[..k] + nodes[k + 1..], view[..k] + view[k + 1..])
  {
  }

  lemma ChainedAfterInsert(nodes: seq<GapNode>, k: nat, newNode: GapNode)
    requires k < |nodes|
    requires forall i :: 0 <= i < |nodes| ==> nodes[i].next == if i == k then newNode else Nth(nodes, i + 1)
    requires forall i :: 0 <= i < |nodes| ==> nodes[i].prev == if i == k + 1 then newNode else Nth(nodes, i - 1)
    requires newNode.prev == nodes[k] && newNode.next == Nth(nodes, k + 1)
    ensures Chained(nodes[..k + 1] + [newNode] + nodes[k + 1..])
  {
    var more := nodes[..k + 1] + [newNode] + nodes[k + 1..];
    forall i | 0 <= i < |more|
      ensures more[i].next == Nth(more, i + 1) && more[i].prev == Nth(more, i - 1)
    {
      assert i != k + 1 ==> more[i] == nodes[if i <= k then i else i - 1];
    }
  }

  lemma ChainedAfterAppend(nodes: seq<GapNode>, newNode: GapNode)
    requires forall i :: 0 <= i < |nodes| ==> nodes[i].next == if i == |nodes| - 1 then newNode else Nth(nodes, i + 1)
    requires forall i :: 0 <= i < |nodes| ==> nodes[i].prev == Nth(nodes, i - 1)
    requires newNode.prev == Nth(nodes, |nodes| - 1) && newNode.next == null
    ensures Chained(nodes + [newNode])
  {
  }

  lemma ChainedAfterRemove(nodes: seq<GapNode>, k: nat)
    requires k < |nodes|
    requires forall i :: 0 <= i < |nodes| && i != k ==> nodes[i].next == if i == k - 1 then Nth(nodes, k + 1) else Nth(nodes, i + 1)
    requires forall i :: 0 <= i < |nodes| && i != k ==> nodes[i].prev == if i == k + 1 then Nth(nodes, k - 1) else Nth(nodes, i - 1)
    ensures Chained(nodes[..k] + nodes[k + 1..])
  {
    var fewer := nodes[..k] + nodes[k + 1..];
    forall i | 0 <= i < |fewer|
      ensures fewer[i].next == Nth(fewer, i + 1) && fewer[i].prev == Nth(fewer, i - 1)
    {
      assert fewer[i] == nodes[if i < k then i else i + 1];
    }
  }

  class GapList {
    var head: GapNode?
    var tail: GapNode?
    var size: int
    ghost var nodes: seq<GapNode>
    ghost var repr: set<GapNode>
    /** The gaps in order. */
    ghost var view: seq<Gap>

    ghost predicate Linked()
      reads this, repr`next, repr`prev
    {
      && head == Nth(nodes, 0) && tail == Nth(nodes, |nodes| - 1) && size == |nodes|
      && (forall i :: 0 <= i < |nodes| ==> nodes[i] in repr)
      && Distinct(nodes)
      && Chained(nodes)
    }

    ghost predicate Valid()
      reads this, repr
    {
      Linked() && Shows(nodes, view)
    }

    constructor ()
      ensures Valid() && repr == {} && view == []
    {
      head, tail, size := null, null, 0;
      nodes, repr, view := [], {}, [];
    }

    /** Sets the links of a new last node and of the one in front. */
    method SetLast(newNode: GapNode)
      requires Linked() && newNode !in repr && newNode.next == null && newNode.prev == null
      modifies this`head, this`tail, this`size, repr`next, newNode`prev
      ensures forall i :: 0 <= i < |nodes| ==> nodes[i].next == if i == |nodes| - 1 then newNode else Nth(nodes, i + 1)
      ensures forall i :: 0 <= i < |nodes| ==> nodes[i].prev == Nth(nodes, i - 1)
      ensures newNode.prev == Nth(nodes, |nodes| - 1) && newNode.next == null
      ensures head == (if nodes == [] then newNode else nodes[0]) && tail == newNode && size == |nodes| + 1
    {
      hide Distinct;
      if head == null {
        head := newNode;
        tail := newNode;
      } else {
        OthersDiffer(nodes, |nodes| - 1);
        tail.next := newNode;
        newNode.prev := tail;
        tail := newNode;
      }
      size := size + 1;
    }

    /** Links a new node in at the end. */
    method LinkLast(newNode: GapNode)
      requires Linked() && newNode !in repr && newNode.next == null && newNode.prev == null
      modifies this`head, this`tail, this`size, this`nodes, this`repr, repr`next, newNode`prev
      ensures Linked() && nodes == old(nodes) + [newNode] && repr == old(repr) + {newNode}
    {
      hide Distinct;
      AppendedDiffer(nodes, newNode);
      SetLast(newNode);
      ChainedAfterAppend(nodes, newNode);
      nodes, repr := nodes + [newNode], repr + {newNode};
    }

    /** Appends a gap; new gaps only appear at the end. */
    method Insert(newGap: Gap)
      requires Valid()
      modifies this, repr
      ensures Valid() && fresh(repr - old(repr))
      ensures view == old(view) + [newGap]
    {
      hide Distinct, Chained;
      var newNode := new GapNode(newGap);
      LinkLast(newNode);
      view := view + [newGap];
    }

    /** Sets the links of a new node and of its neighbours. */
    method SetLinks(curr: GapNode, newNode: GapNode, ghost k: nat)
      requires Linked() && k < |nodes| && nodes[k] == curr && newNode !in repr
      modifies this`tail, this`size, repr`next, repr`prev, newNode`next, newNode`prev
      ensures forall i :: 0 <= i < |nodes| ==> nodes[i].next == if i == k then newNode else Nth(nodes, i + 1)
      ensures forall i :: 0 <= i < |nodes| ==> nodes[i].prev == if i == k + 1 then newNode else Nth(nodes, i - 1)
      ensures newNode.prev == curr && newNode.next == Nth(nodes, k + 1)
      ensures tail == (if k + 1 == |nodes| then newNode else old(tail)) && size == |nodes| + 1
    {
      hide Distinct;
      OthersDiffer(nodes, k);
      var after := curr.next;
      assert after == Nth(nodes, k + 1);
      newNode.prev := curr;
      if after == null {
        tail := newNode;
      } else {
        OthersDiffer(nodes, k + 1);
        after.prev := newNode;
      }
      newNode.next := after;
      curr.next := newNode;
      size := size + 1;
    }

    /** Links a new node in behind the one at position `k`. */
    method LinkBehind(curr: GapNode, newNode: GapNode, ghost k: nat)
      requires Linked() && k < |nodes| && nodes[k] == curr && newNode !in repr
      modifies this`tail, this`size, this`nodes, this`repr, repr`next, repr`prev, newNode`next, newNode`prev
      ensures Linked() && nodes == old(nodes)[..k + 1] + [newNode] + old(nodes)[k + 1..]
      ensures repr == old(repr) + {newNode}
    {
      hide Distinct, Chained, Nth;
      NthIs(nodes, 0);
      NthIs(nodes, |nodes| - 1);
      InsertedDiffer(nodes, k + 1, newNode);
      InsertedIn(nodes, k, newNode, repr);
      ghost var more := nodes[..k + 1] + [newNode] + nodes[k + 1..];
      NthIs(more, 0);
      NthIs(more, |nodes|);
      SetLinks(curr, newNode, k);
      ChainedAfterInsert(nodes, k, newNode);
      nodes, repr := more, repr + {newNode};
    }

    /** Makes the neighbours of a node, and the ends of the list, point past it. */
    method Bypass(curr: GapNode, ghost k: nat)
      requires Linked() && k < |nodes| && nodes[k] == curr
      modifies this`head, this`tail, this`size, repr`next, repr`prev
      ensures forall i :: 0 <= i < |nodes| && i != k ==> nodes[i].next == if i == k - 1 then Nth(nodes, k + 1) else Nth(nodes, i + 1)
      ensures forall i :: 0 <= i < |nodes| && i != k ==> nodes[i].prev == if i == k + 1 then Nth(nodes, k - 1) else Nth(nodes, i - 1)
      ensures head == Nth(nodes, if k == 0 then 1 else 0) && size == |nodes| - 1
      ensures tail == Nth(nodes, if k + 1 == |nodes| then k - 1 else |nodes| - 1)
    {
      hide Distinct, Nth;
      NthIs(nodes, k - 1);
      NthIs(nodes, k + 1);
      NthIs(nodes, 0);
      NthIs(nodes, |nodes| - 1);
      if 0 < k {
        OthersDiffer(nodes, k - 1);
      }
      if k + 1 < |nodes| {
        OthersDiffer(nodes, k + 1);
      }
      size := size - 1;
      if curr.next == null && curr.prev == null {
        size, tail, head := 0, null, null;
      } else if curr.next == null {
        tail := curr.prev;
        curr.prev.next := null;
      } else if curr.prev == null {
        head := curr.next;
        curr.next.prev := null;
      } else {
        curr.prev.next := curr.next;
        curr.next.prev := curr.prev;
      }
    }

    /** Takes the node at position `k` out. */
    method Unlink(curr: GapNode, ghost k: nat)
      requires Linked() && k < |nodes| && nodes[k] == curr
      modifies this`head, this`tail, this`size, this`nodes, repr`next, repr`prev
      ensures Linked() && nodes == old(nodes)[..k] + old(nodes)[k + 1..]
    {
      hide Distinct;
      RemovedDiffer(nodes, k);
      Bypass(curr, k);
      ChainedAfterRemove(nodes, k);
      nodes := nodes[..k] + nodes[k + 1..];
    }

    /** Takes `splitPoint` out of the gap that contains it; false if no gap does. */
    method SplitGap(splitPoint: int) returns (split: bool)
      requires Valid() && Separated(view)
      modifies this, repr
      ensures Valid() && fresh(repr - old(repr))
      ensures split <==> Covers(old(view), splitPoint)
      ensures IsSplit(old(view), splitPoint, view)
    {
      var curr := head;
      ghost var k := 0;
      while curr != null
        invariant k <= |nodes| && curr == Nth(nodes, k)
        invariant forall i :: 0 <= i < k ==> view[i].end <= splitPoint
        decreases |nodes| - k
        modifies {}
      {
        assert curr.gapData == view[k];
        if splitPoint < curr.gapData.start {
          return false;
        }
        if splitPoint < curr.gapData.end {
          break;
        }
        curr := curr.next;
        k := k + 1;
      }
      if curr == null {
        return false;
      }
      SplitNode(curr, splitPoint, k);
      split := true;
    }

    /** A gap with the split point in its middle becomes two. */
    method Divide(curr: GapNode, splitPoint: int, ghost k: nat)
      requires Valid() && k < |nodes| && nodes[k] == curr
      modifies this, repr
      ensures Valid() && fresh(repr - old(repr))
      ensures view == old(view)[..k] + [Gap(old(view)[k].start, splitPoint), Gap(splitPoint + 1, old(view)[k].end)]
                      + old(view)[k + 1..]
    {
      hide Distinct, Chained, Nth;
      OthersDiffer(nodes, k);
      ghost var was, gaps := nodes, view;
      var newNode := new GapNode(Gap(splitPoint + 1, curr.gapData.end));
      LinkBehind(curr, newNode, k);
      curr.gapData := curr.gapData.(end := splitPoint);
      ShowsAfterDivision(was, gaps, k, newNode);
      view := gaps[..k] + [Gap(gaps[k].start, splitPoint), Gap(splitPoint + 1, gaps[k].end)] + gaps[k + 1..];
    }

    /** The work of SplitGap on the node that holds the split point. */
    method SplitNode(curr: GapNode, splitPoint: int, ghost k: nat)
      requires Valid() && k < |nodes| && nodes[k] == curr && In(splitPoint, curr.gapData)
      modifies this, repr
      ensures Valid() && fresh(repr - old(repr))
      ensures view == SplitAt(old(view), k, splitPoint)
    {
      hide SplitAt, Distinct, Chained, Nth;
      SplitForms(view, k, splitPoint);
      OthersDiffer(nodes, k);
      if splitPoint == curr.gapData.start {
        curr.gapData := curr.gapData.(start := curr.gapData.start + 1);
      } else if splitPoint == curr.gapData.end - 1 {
        curr.gapData := curr.gapData.(end := curr.gapData.end - 1);
      } else {
        Divide(curr, splitPoint, k);
        return;
      }
      view := view[k := curr.gapData];
      if curr.gapData.start >= curr.gapData.end {
        ShowsAfterRemoval(nodes, view, k);
        Unlink(curr, k);
        view := view[..k] + view[k + 1..];
      }
    }
  }
}
