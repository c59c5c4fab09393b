/** The priority queue of edges: a binary heap in a growing array. */
module MinHeaps {
  import opened Graph
  import opened HeapOrder
  import opened Options

  const INIT_LEN := 10

  /** The latencies by position. */
  ghost function Ranks(s: seq<Edge>): (r: seq<real>)
    ensures |r| == |s| && forall i :: 0 <= i < |s| ==> r[i] == s[i].latency
  {
    seq(|s|, i requires 0 <= i < |s| => s[i].latency)
  }

  ghost predicate HeapOrdered(s: seq<Edge>) {
    Ordered(Ranks(s))
  }

  lemma RanksSwapped(s: seq<Edge>, i: nat, j: nat)
    requires i < |s| && j < |s|
    ensures Ranks(Swapped(s, i, j)) == Swapped(Ranks(s), i, j)
  {
  }

  lemma RanksWithout(s: seq<Edge>, t: nat)
    requires t < |s|
    ensures Ranks(Without(s, t)) == Without(Ranks(s), t)
  {
  }

  lemma EmptyIsOrdered()
    ensures HeapOrdered([])
  {
  }

  lemma AppendedOrder(s: seq<Edge>, key: Edge)
    requires HeapOrdered(s)
    ensures OrderedAbove(Ranks(s + [key]), |s|)
  {
    assert Ranks(s + [key]) == Ranks(s) + [key.latency];
  }

  class PQ {
    var heap: array<Edge>
    var heapLength: nat

    ghost predicate Valid()
      reads this, heap
    {
      heapLength <= heap.Length && 0 < heap.Length
    }

    ghost function Items(): seq<Edge>
      requires Valid()
      reads this, heap
    {
      heap[..heapLength]
    }

    /** A queue in heap order with exactly the items `m`. */
    ghost predicate Holds(m: multiset<Edge>)
      reads this, heap
    {
      Valid() && HeapOrdered(Items()) && multiset(Items()) == m
    }

    constructor ()
      ensures Valid() && fresh(heap) && Items() == []
    {
      heap := new Edge[INIT_LEN];
      heapLength := 0;
    }

    function Size(): nat
      reads this
    {
      heapLength
    }

    function Get(index: int): Option<Edge>
      requires Valid()
      reads this, heap
    {
      if 0 <= index < heapLength then Some(heap[index]) else None
    }

    method Swap(x: nat, y: nat)
      requires Valid() && x < heapLength && y < heapLength
      modifies heap
      ensures Items() == Swapped(old(Items()), x, y)
    {
      var temp := heap[x];
      heap[x] := heap[y];
      heap[y] := temp;
    }

    method Resize()
      requires Valid()
      modifies this
      ensures Valid() && fresh(heap) && heap.Length == 2 * old(heap.Length)
      ensures heapLength == old(heapLength) && Items() == old(Items())
    {
      var newHeap := new Edge[2 * heap.Length];
      for i := 0 to heapLength
        invariant heapLength <= heap.Length && newHeap.Length == 2 * heap.Length
        invariant newHeap[..i] == heap[..i]
        modifies newHeap
      {
        newHeap[i] := heap[i];
      }
      assert newHeap[..heapLength] == heap[..heapLength];
      heap := newHeap;
    }

    /** Swaps the key at `child`, the last position in use, upward as far as possible. */
    method PullUp(child: nat)
      requires Valid() && child + 1 == heapLength
      modifies heap
      ensures multiset(Items()) == multiset(old(Items()))
      ensures OrderedAbove(Ranks(old(Items())), child) ==> HeapOrdered(Items())
    {
      ghost var before := Items();
      var childIndex: nat, parentIndex: nat := child, Parent(child);
      while heap[childIndex].latency < heap[parentIndex].latency
        invariant childIndex < heapLength && parentIndex == Parent(childIndex)
        invariant OrderedAbove(Ranks(before), child) ==> OrderedAbove(Ranks(Items()), childIndex)
        invariant multiset(Items()) == multiset(before)
        decreases childIndex
      {
        ghost var s := Items();
        if OrderedAbove(Ranks(s), childIndex) {
          StepUp(Ranks(s), childIndex);
        }
        SwapContents(s, parentIndex, childIndex);
        RanksSwapped(s, parentIndex, childIndex);
        Swap(parentIndex, childIndex);
        childIndex := parentIndex;
        parentIndex := Parent(childIndex);
      }
    }

    /** Adds an edge; the queue grows by exactly it, and an ordered heap stays ordered. */
    method Add(key: Edge)
      requires Valid()
      modifies this, heap
      ensures Valid() && (heap == old(heap) || fresh(heap))
      ensures multiset(Items()) == multiset(old(Items())) + multiset{key}
      ensures HeapOrdered(old(Items())) ==> HeapOrdered(Items())
    {
      hide HeapOrdered, OrderedAbove, Ranks;
      ghost var before := Items();
      if HeapOrdered(before) {
        AppendedOrder(before, key);
      }
      if heapLength == heap.Length {
        Resize();
      }
      Append(key);
      PullUp(heapLength - 1);
    }

    method Append(key: Edge)
      requires Valid() && heapLength < heap.Length
      modifies this`heapLength, heap
      ensures Valid() && Items() == old(Items()) + [key]
    {
      ghost var before := Items();
      heap[heapLength] := key;
      heapLength := heapLength + 1;
      assert Items() == before + [key];
    }

    /** Whether a child of `curr` is smaller than it. */
    predicate ChildSmaller(curr: nat): (b: bool)
      requires Valid() && curr < heapLength
      reads this, heap
      ensures b == !Settled(Ranks(Items()), curr)
    {
      ghost var s := Items();
      assert forall i :: 0 < i < |s| && Parent(i) == curr ==> i == 2 * curr + 1 || i == 2 * curr + 2;
      2 * curr + 1 < heapLength
      && ((2 * curr + 2 < heapLength && heap[2 * curr + 2].latency < heap[curr].latency)
          || heap[2 * curr + 1].latency < heap[curr].latency)
    }

    /** The smaller child of `curr`. */
    method SmallestBelow(curr: nat) returns (smallest: nat)
      requires Valid() && curr < heapLength && ChildSmaller(curr)
      ensures curr < smallest < heapLength && SmallestChild(Ranks(Items()), curr, smallest)
    {
      var left, right := 2 * curr + 1, 2 * curr + 2;
      smallest := curr;
      if heap[left].latency < heap[curr].latency {
        smallest := left;
      }
      if right < heapLength && heap[right].latency < heap[smallest].latency {
        smallest := right;
      }
    }

    /** Pushes the key at `target` down as far as possible. */
    method PushDown(target: nat)
      requires Valid() && target < heapLength
      modifies heap
      ensures multiset(Items()) == multiset(old(Items()))
      ensures OrderedBelow(Ranks(old(Items())), target, target) ==>
                (HeapOrdered(Items()) <==> FitsBelow(Ranks(old(Items())), target, old(Items())[target].latency))
    {
      var curr: nat := target;
      ghost var before := Items();
      while ChildSmaller(curr)
        invariant curr < heapLength && multiset(Items()) == multiset(before)
        invariant OrderedBelow(Ranks(before), target, target) ==> Sinking(Ranks(before), Ranks(Items()), target, curr)
        decreases heapLength - curr
      {
        var smallest := SmallestBelow(curr);
        if Sinking(Ranks(before), Ranks(Items()), target, curr) {
          SinkStep(Ranks(before), Ranks(Items()), target, curr, smallest);
        }
        RanksSwapped(Items(), curr, smallest);
        SwapContents(Items(), curr, smallest);
        Swap(curr, smallest);
        curr := smallest;
      }
      if Sinking(Ranks(before), Ranks(Items()), target, curr) {
        SinkEnd(Ranks(before), Ranks(Items()), target, curr);
      }
    }

    /** Takes the edge at `target` out, filling its place with the last one.  The order of an ordered heap
        survives exactly when that one fits below the parent of the place, as at the root it always does. */
    method Remove(target: int)
      requires Valid()
      modifies this`heapLength, heap
      ensures Valid()
      ensures !(0 <= target < old(heapLength)) ==> Items() == old(Items())
      ensures 0 <= target < old(heapLength) ==>
                multiset(Items()) == multiset(old(Items())) - multiset{old(Items())[target]}
      ensures HeapOrdered(old(Items())) && 0 <= target < old(heapLength) ==>
                (HeapOrdered(Items()) <==> SurvivesRemoval(Ranks(old(Items())), target))
    {
      if target < 0 || target >= heapLength {
        return;
      }
      WithoutContents(Items(), target);
      if HeapOrdered(Items()) {
        WithoutOrder(Ranks(Items()), target);
      }
      RanksWithout(Items(), target);
      ReplaceByLast(target);
      if target < heapLength {
        PushDown(target);
      }
    }

    /** The last key takes the place of the one at `target`. */
    method ReplaceByLast(target: nat)
      requires Valid() && target < heapLength
      modifies this`heapLength, heap
      ensures Valid() && heapLength == old(heapLength) - 1 && Items() == Without(old(Items()), target)
    {
      Swap(target, heapLength - 1);
      ghost var swapped := Items();
      heapLength := heapLength - 1;
      assert Items() == swapped[..heapLength];
    }
  }
}
