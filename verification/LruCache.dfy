/** The LRU stack: a doubly linked list between two sentinels, with a table from pages to nodes. */
module LruPaging {
  import opened Belady
  import opened Options
  import opened Sequences

  class Node {
    var frame: Frame
    var next: Node?
    var prev: Node?

    constructor (frameNum: Frame)
      ensures frame == frameNum && next == null && prev == null
    {
      frame, next, prev := frameNum, null, null;
    }
  }

  /** The nodes between the sentinels hold the pages of `recency`, each once, and `table` finds them. */
  ghost predicate Represents(nodes: seq<Node>, recency: seq<Frame>, table: map<Frame, Node>)
    reads nodes`frame
  {
    && |recency| == |nodes| - 2
    && (forall i :: 0 < i < |nodes| - 1 ==> nodes[i].frame == recency[i - 1])
    && Distinct(recency)
    && (forall f :: f in table <==> f in recency)
    && (forall i :: 0 < i < |nodes| - 1 ==> table[nodes[i].frame] == nodes[i])
  }

  lemma NodeOf(nodes: seq<Node>, recency: seq<Frame>, table: map<Frame, Node>, f: Frame) returns (k: nat)
    requires Represents(nodes, recency, table) && f in table
    ensures k < |recency| == |nodes| - 2 && recency[k] == f && table[f] == nodes[k + 1] && Distinct(recency)
  {
    k :| 0 <= k < |recency| && recency[k] == f;
    assert nodes[k + 1].frame == f;
  }

  lemma LengthOf(nodes: seq<Node>, recency: seq<Frame>, table: map<Frame, Node>)
    requires Represents(nodes, recency, table)
    ensures |recency| == |nodes| - 2
  {
  }

  lemma PutInFront(nodes: seq<Node>, recency: seq<Frame>, table: map<Frame, Node>, n: Node)
    requires Represents(nodes, recency, table) && |nodes| >= 2 && n.frame !in table
    ensures Represents([nodes[0], n] + nodes[1..], [n.frame] + recency, table[n.frame := n])
  {
    var more, order := [nodes[0], n] + nodes[1..], [n.frame] + recency;
    forall i | 0 < i < |more| - 1
      ensures more[i].frame == order[i - 1] && order[i - 1] in order && table[n.frame := n][more[i].frame] == more[i]
    {
      if i > 1 {
        assert more[i] == nodes[i - 1] && recency[i - 2] in recency;
      }
    }
    assert forall f :: f in order <==> f == n.frame || f in recency;
  }

  lemma TakenFromRear(nodes: seq<Node>, recency: seq<Frame>, table: map<Frame, Node>)
    requires Represents(nodes, recency, table) && |nodes| > 2
    ensures var last := |nodes| - 2;
            && nodes[last].frame == recency[last - 1]
            && Represents(nodes[..last] + nodes[last + 1..], recency[..last - 1], table - {nodes[last].frame})
  {
  }

  lemma MovedInFront(nodes: seq<Node>, recency: seq<Frame>, table: map<Frame, Node>, k: nat, nodes': seq<Node>, recency': seq<Frame>)
    requires Represents(nodes, recency, table) && k < |recency| == |recency'| && |nodes'| == |nodes| && Distinct(recency')
    requires forall i :: 0 < i < |nodes| - 1 ==> nodes'[i] == nodes[if i == 1 then k + 1 else if i <= k + 1 then i - 1 else i]
    requires forall i :: 0 <= i < |recency| ==> recency'[i] == recency[if i == 0 then k else if i <= k then i - 1 else i]
    requires forall f :: f in recency' <==> f in recency
    ensures Represents(nodes', recency', table)
  {
  }

  class LruCache {
    var table: map<Frame, Node>
    var head: Node
    var tail: Node
    var length: int
    /** All nodes from `head` to `tail`, both included. */
    ghost var nodes: seq<Node>
    /** The cached pages, most recently used first. */
    ghost var recency: seq<Frame>

    ghost function Repr(): set<Node>
      reads this
    {
      set n | n in nodes
    }

    ghost predicate Linked()
      reads this, nodes`next, nodes`prev
    {
      && |nodes| >= 2 && nodes[0] == head && nodes[|nodes| - 1] == tail
      && Distinct(nodes)
      && (forall i {:trigger nodes[i].next} :: 0 <= i < |nodes| - 1 ==> nodes[i].next == nodes[i + 1])
      && (forall i {:trigger nodes[i].prev} :: 0 < i < |nodes| ==> nodes[i].prev == nodes[i - 1])
    }

    /** The list is well linked, holds no page twice, and the table finds exactly its nodes. */
    ghost predicate Valid()
      reads this, nodes
    {
      Linked() && length == |nodes| - 2 && Represents(nodes, recency, table)
    }

    /** The table and the length tell what is cached. */
    lemma TableAgrees()
      requires Valid()
      ensures length == |recency| && Distinct(recency) && forall f :: f in table <==> f in recency
    {
    }

    constructor ()
      ensures Valid() && fresh(Repr()) && recency == []
    {
      var h := new Node(0);
      var t := new Node(0);
      h.next := t;
      t.prev := h;
      head, tail, length, table := h, t, 0, map[];
      nodes, recency := [h, t], [];
    }

    /** Links a node in between the front sentinel and the first page. */
    method LinkInFront(n: Node)
      requires Linked() && n !in nodes
      modifies this`nodes, nodes`next, nodes`prev, n`next, n`prev
      ensures Linked() && nodes == [head, n] + old(nodes)[1..]
    {
      var front := head.next;
      assert front == nodes[1];
      n.next := front;
      front.prev := n;
      n.prev := head;
      head.next := n;
      nodes := [head, n] + nodes[1..];
    }

    /** Unlinks the page node at position `k` of the list. */
    method Unlink(n: Node, ghost k: nat)
      requires Linked() && 0 < k < |nodes| - 1 && nodes[k] == n
      modifies this`nodes, nodes`next, nodes`prev
      ensures Linked() && nodes == old(nodes)[..k] + old(nodes)[k + 1..]
    {
      var prevNode := n.prev;
      var nextNode := n.next;
      assert prevNode == nodes[k - 1] && nextNode == nodes[k + 1];
      prevNode.next := nextNode;
      nextNode.prev := prevNode;
      nodes := nodes[..k] + nodes[k + 1..];
    }

    /** Puts a page that is not cached in front. */
    method Add(frameNum: Frame)
      requires Valid() && frameNum !in table
      modifies this, Repr()
      ensures Valid() && fresh(Repr() - old(Repr()))
      ensures recency == [frameNum] + old(recency)
    {
      hide Distinct, Represents;
      var nextNode := new Node(frameNum);
      PutInFront(nodes, recency, table, nextNode);
      LinkInFront(nextNode);
      length := length + 1;
      table := table[nextNode.frame := nextNode];
      recency := [frameNum] + recency;
    }

    /** Takes the page at the rear out; None models the exception for an empty list. */
    method Remove() returns (r: Option<Frame>)
      requires Valid()
      modifies this, Repr()
      ensures Valid() && Repr() <= old(Repr())
      ensures old(recency) == [] ==> r == None && recency == []
      ensures old(recency) != [] ==>
                && r == Some(old(recency)[|old(recency)| - 1])
                && recency == old(recency)[..|old(recency)| - 1]
    {
      hide Distinct, Represents;
      LengthOf(nodes, recency, table);
      OthersDiffer(nodes, 0);
      var toRemove := tail.prev;
      if toRemove == head {
        return None;
      }
      ghost var last := |nodes| - 2;
      assert toRemove == nodes[last];
      TakenFromRear(nodes, recency, table);
      Unlink(toRemove, last);
      length := length - 1;
      table := table - {toRemove.frame};
      recency := recency[..last - 1];
      r := Some(toRemove.frame);
    }

    /** Moves a cached page to the front. */
    method UpdatePos(frameNum: Frame)
      requires Valid() && frameNum in table
      modifies this, Repr()
      ensures Valid() && Repr() <= old(Repr())
      ensures recency == [frameNum] + Without(old(recency), frameNum)
      ensures table == old(table)
    {
      hide Distinct, Represents;
      var toUpdate := table[frameNum];
      ghost var k := NodeOf(nodes, recency, table, frameNum);
      ghost var moved := MoveToFront(recency, k);
      ghost var was := nodes;
      Relink(toUpdate, k);
      MovedInFront(was, recency, table, k, nodes, moved);
      recency := moved;
    }

    /** Moves the node of the page at position `k` of the recency order behind the front sentinel. */
    method Relink(n: Node, ghost k: nat)
      requires Linked() && k < |nodes| - 2 && nodes[k + 1] == n
      modifies this`nodes, nodes`next, nodes`prev
      ensures Linked() && |nodes| == |old(nodes)| && Repr() <= old(Repr())
      ensures forall i :: 0 < i < |nodes| - 1 ==> nodes[i] == old(nodes)[if i == 1 then k + 1 else if i <= k + 1 then i - 1 else i]
    {
      Unlink(n, k + 1);
      LinkInFront(n);
    }

    predicate Contains(frameNum: Frame)
      reads this
    {
      frameNum in table
    }
  }

  ghost function Without(s: seq<Frame>, f: Frame): seq<Frame> {
    if s == [] then [] else if s[0] == f then Without(s[1..], f) else [s[0]] + Without(s[1..], f)
  }

  lemma {:induction false} WithoutAbsent(s: seq<Frame>, f: Frame)
    requires f !in s
    ensures Without(s, f) == s
  {
    if s != [] {
      WithoutAbsent(s[1..], f);
    }
  }

  lemma {:induction false} WithoutAt(s: seq<Frame>, k: nat)
    requires k < |s| && Distinct(s)
    ensures Without(s, s[k]) == s[..k] + s[k + 1..]
  {
    if k == 0 {
      WithoutAbsent(s[1..], s[0]);
    } else {
      WithoutAt(s[1..], k - 1);
      assert s[..k] + s[k + 1..] == [s[0]] + (s[1..][..k - 1] + s[1..][k..]);
    }
  }

  /** The order after position `k` moved to the front, and what it has in common with the one before. */
  lemma MoveToFront(s: seq<Frame>, k: nat) returns (t: seq<Frame>)
    requires k < |s| && Distinct(s)
    ensures |t| == |s| && Distinct(t) && (forall f :: f in t <==> f in s) && t == [s[k]] + Without(s, s[k])
    ensures forall i :: 0 <= i < |t| ==> t[i] == s[if i == 0 then k else if i <= k then i - 1 else i]
  {
    WithoutAt(s, k);
    t := [s[k]] + (s[..k] + s[k + 1..]);
    assert forall i :: 0 <= i < |s| ==> s[i] == t[if i == k then 0 else if i < k then i + 1 else i];
  }
}
