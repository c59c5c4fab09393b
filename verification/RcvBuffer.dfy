/** The receiver's buffer of packets that arrived ahead of the window: a singly linked list in order
    of sequence numbers. */
module RcvBuffers {
  import opened Packets
  import opened Sequences

  ghost predicate Ascending(ps: seq<Packet>) {
    forall i, j :: 0 <= i < j < |ps| ==> ps[i].seqNo < ps[j].seqNo
  }

  ghost predicate Has(ps: seq<Packet>, s: int) {
    exists i :: 0 <= i < |ps| && ps[i].seqNo == s
  }

  /** `qs` is `ps` with `p` put in at position `k`, behind all smaller sequence numbers. */
  ghost predicate PutAt(ps: seq<Packet>, p: Packet, qs: seq<Packet>, k: nat) {
    && k <= |ps| && qs == ps[..k] + [p] + ps[k..]
    && (forall i :: 0 <= i < k ==> ps[i].seqNo < p.seqNo)
    && (forall i :: k <= i < |ps| ==> p.seqNo < ps[i].seqNo)
  }

  ghost predicate PutIn(ps: seq<Packet>, p: Packet, qs: seq<Packet>) {
    exists k: nat :: PutAt(ps, p, qs, k)
  }

  lemma PutInKeeps(ps: seq<Packet>, p: Packet, qs: seq<Packet>)
    requires Ascending(ps) && PutIn(ps, p, qs)
    ensures Ascending(qs)
    ensures forall q :: q in qs <==> q in ps || q == p
  {
    var k: nat :| PutAt(ps, p, qs, k);
    assert forall i :: 0 <= i < |qs| ==> qs[i] == if i < k then ps[i] else if i == k then p else ps[i - 1];
    PutAtMembers(ps, p, qs, k);
  }

  lemma PutAtMembers(ps: seq<Packet>, p: Packet, qs: seq<Packet>, k: nat)
    requires k <= |ps| && qs == ps[..k] + [p] + ps[k..]
    ensures forall q :: q in qs <==> q in ps || q == p
  {
    assert ps == ps[..k] + ps[k..];
  }

  class BufferNode {
    var packet: Packet
    var next: BufferNode?

    constructor (p: Packet)
      ensures packet == p && next == null
    {
      packet, next := p, null;
    }
  }

  class RcvBuffer {
    var head: BufferNode?
    ghost var nodes: seq<BufferNode>
    ghost var repr: set<BufferNode>
    /** The packets in order. */
    ghost var view: seq<Packet>

    ghost function At(i: int): BufferNode?
      reads this
    {
      if 0 <= i < |nodes| then nodes[i] else null
    }

    ghost predicate Linked()
      reads this, repr
    {
      && head == At(0)
      && (forall i :: 0 <= i < |nodes| ==> nodes[i] in repr)
      && Distinct(nodes)
      && (forall i {:trigger nodes[i].next} :: 0 <= i < |nodes| ==> nodes[i].next == At(i + 1))
    }

    ghost predicate Valid()
      reads this, repr
    {
      Linked() && |view| == |nodes| && forall i :: 0 <= i < |nodes| ==> nodes[i].packet == view[i]
    }

    constructor ()
      ensures Valid() && repr == {} && view == []
    {
      head, nodes, repr, view := null, [], {}, [];
    }

    /** Links a new node in at position `k`; `before` is the node in front of it, if there is one. */
    method LinkNode(before: BufferNode?, newNode: BufferNode, ghost k: nat)
      requires Linked() && k <= |nodes| && before == At(k - 1) && newNode !in repr
      modifies this`head, this`nodes, this`repr, repr`next, newNode`next
      ensures Linked() && nodes == old(nodes)[..k] + [newNode] + old(nodes)[k..]
      ensures repr == old(repr) + {newNode}
    {
      if before == null {
        newNode.next := head;
        head := newNode;
      } else {
        newNode.next := before.next;
        before.next := newNode;
      }
      nodes, repr := nodes[..k] + [newNode] + nodes[k..], repr + {newNode};
    }

    method LinkAt(before: BufferNode?, packet: Packet, ghost k: nat)
      requires Valid() && k <= |nodes| && before == At(k - 1)
      modifies this, repr
      ensures Valid() && fresh(repr - old(repr))
      ensures view == old(view)[..k] + [packet] + old(view)[k..]
    {
      var newNode := new BufferNode(packet);
      LinkNode(before, newNode, k);
      view := view[..k] + [packet] + view[k..];
    }

    /** Keeps a packet; false if one with its sequence number is here already. */
    method Insert(packet: Packet) returns (stored: bool)
      requires Valid() && Ascending(view)
      modifies this, repr
      ensures Valid() && fresh(repr - old(repr))
      ensures stored <==> !Has(old(view), packet.seqNo)
      ensures if stored then PutIn(old(view), packet, view) else view == old(view)
    {
      ghost var ps := view;
      if head == null {
        LinkAt(null, packet, 0);
        assert PutAt(ps, packet, view, 0);
        return true;
      }
      assert ps[0] == head.packet;
      if head.packet.seqNo == packet.seqNo {
        return false;
      }
      if head.packet.seqNo > packet.seqNo {
        LinkAt(null, packet, 0);
        assert PutAt(ps, packet, view, 0);
        return true;
      }
      var curr := head;
      var next := curr.next;
      ghost var k := 1;
      while next != null && next.packet.seqNo < packet.seqNo
        invariant 1 <= k <= |nodes| && curr == At(k - 1) && next == At(k)
        invariant forall i :: 0 <= i < k ==> ps[i].seqNo < packet.seqNo
        decreases |nodes| - k
        modifies {}
      {
        assert next.packet == ps[k];
        curr := next;
        next := curr.next;
        k := k + 1;
      }
      assert next != null ==> next.packet == ps[k];
      if next != null && next.packet.seqNo == packet.seqNo {
        return false;
      }
      LinkAt(curr, packet, k);
      assert PutAt(ps, packet, view, k);
      stored := true;
    }

    /** Drops the packet in front; false if there is none. */
    method FreeHead() returns (freed: bool)
      requires Valid()
      modifies this
      ensures Valid() && repr == old(repr)
      ensures freed <==> old(view) != []
      ensures view == if freed then old(view)[1..] else []
    {
      if head == null {
        return false;
      }
      head := head.next;
      nodes, view := nodes[1..], view[1..];
      freed := true;
    }
  }
}
