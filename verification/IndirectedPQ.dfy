/** The priority queue with a table from keys to heap positions. */
module IndirectedPQs {
  import opened HeapOrder
  import opened LinearProbing
  import opened Options
  import opened ProbeTables

  /** A value with its key; `rank` is what compareTo compares. Values are never shared, since the
      queue stores and returns copies. */
  datatype Item = Item(key: Key, rank: real)

  const INIT_LEN := 10

  ghost function Ranks(s: seq<Item>): (r: seq<real>)
    ensures |r| == |s| && forall i :: 0 <= i < |s| ==> r[i] == s[i].rank
  {
    seq(|s|, i requires 0 <= i < |s| => s[i].rank)
  }

  lemma RanksSwapped(s: seq<Item>, i: nat, j: nat)
    requires i < |s| && j < |s|
    ensures Ranks(Swapped(s, i, j)) == Swapped(Ranks(s), i, j)
  {
  }

  /** The table finds exactly the keys in the heap, each at its position; `items` is what they stand for. */
  ghost predicate Indexed(s: seq<Item>, t: map<Key, int>, items: map<Key, Item>) {
    && t.Keys == items.Keys
    && (forall k :: k in t ==> 0 <= t[k] < |s| && s[t[k]] == items[k] && items[k].key == k)
    && (forall i :: 0 <= i < |s| ==> s[i].key in t && t[s[i].key] == i)
  }

  lemma KeysOf(s: seq<Item>, t: map<Key, int>, items: map<Key, Item>)
    requires Indexed(s, t, items)
    ensures t.Keys == items.Keys
    ensures forall i :: 0 <= i < |s| ==> s[i].key in t && t[s[i].key] == i && items[s[i].key] == s[i]
  {
  }

  lemma PositionOf(s: seq<Item>, t: map<Key, int>, items: map<Key, Item>)
    requires Indexed(s, t, items)
    ensures t.Keys == items.Keys
    ensures forall k :: k in t ==> 0 <= t[k] < |s| && s[t[k]] == items[k] && items[k].key == k
  {
  }

  lemma SwapIndexed(s: seq<Item>, t: map<Key, int>, items: map<Key, Item>, x: nat, y: nat)
    requires Indexed(s, t, items) && x < |s| && y < |s|
    ensures Indexed(Swapped(s, x, y), t[s[x].key := y][s[y].key := x], items)
  {
  }

  lemma AddIndexed(s: seq<Item>, t: map<Key, int>, items: map<Key, Item>, a: Item)
    requires Indexed(s, t, items) && a.key !in t
    ensures Indexed(s + [a], t[a.key := |s|], items[a.key := a])
  {
  }

  /** Without the last item. */
  lemma DropIndexed(s: seq<Item>, t: map<Key, int>, items: map<Key, Item>)
    requires Indexed(s, t, items) && s != []
    ensures Indexed(s[..|s| - 1], t - {s[|s| - 1].key}, items - {s[|s| - 1].key})
  {
  }

  lemma ReplaceIndexed(s: seq<Item>, t: map<Key, int>, items: map<Key, Item>, i: nat, a: Item)
    requires Indexed(s, t, items) && i < |s| && a.key == s[i].key
    ensures Indexed(s[i := a], t, items[a.key := a])
  {
  }

  lemma RanksWithout(s: seq<Item>, t: nat)
    requires t < |s|
    ensures Ranks(Without(s, t)) == Without(Ranks(s), t)
  {
  }

  /** A smaller rank in an ordered heap may only be too small for its parent; a rank that is not too
      small may only be too great for its children. */
  lemma ReplaceOrder(r: seq<real>, i: nat, x: real)
    requires Ordered(r) && i < |r|
    ensures x < r[Parent(i)] && i > 0 ==> OrderedAbove(r[i := x], i)
    ensures OrderedBelow(r[i := x], i, i)
    ensures FitsBelow(r[i := x], i, x) <==> i == 0 || r[Parent(i)] <= x
  {
    var r' := r[i := x];
    forall j | 0 < j < |r'| && Parent(j) == i
      ensures i > 0 ==> r'[Parent(i)] <= r'[j]
    {
      assert i > 0 ==> r[Parent(i)] <= r[i];
      assert r[Parent(j)] <= r[j];
    }
  }

  class IndirectedPQ {
    var heap: array<Item>
    var heapLength: nat
    const table: LinearProbingHashST<int>
    ghost var items: map<Key, Item>

    ghost function Items(): seq<Item>
      requires heapLength <= heap.Length
      reads this, heap
    {
      heap[..heapLength]
    }

    /** The index agrees with the heap, apart from the keys in `gone`. */
    ghost predicate Agrees(gone: set<Key>)
      reads this, heap, table, table.keys, table.vals
    {
      && heapLength <= heap.Length && 0 < heap.Length && table.Valid()
      && Indexed(Items(), table.contents - gone, items)
    }

    ghost predicate IsOrdered()
      reads this, heap
    {
      heapLength <= heap.Length && Ordered(Ranks(Items()))
    }

    constructor ()
      ensures Agrees({}) && IsOrdered() && items == map[]
      ensures fresh(heap) && fresh(table) && fresh(table.keys) && fresh(table.vals)
    {
      heap := new Item[INIT_LEN](_ => Item(Key("", 0), 0.0));
      heapLength, items := 0, map[];
      table := new LinearProbingHashST<int>(16);
    }

    /** The table has the position of every item. */
    lemma PositionsAgree()
      requires Agrees({})
      ensures table.Valid() && heapLength <= heap.Length && table.contents.Keys == items.Keys
      ensures forall k :: k in items ==>
                && 0 <= table.contents[k] < heapLength
                && Items()[table.contents[k]] == items[k] && items[k].key == k
    {
      assert table.contents - {} == table.contents;
      PositionOf(Items(), table.contents, items);
    }

    method Contains(key: Key) returns (b: bool)
      requires Agrees({})
      ensures b <==> key in items
    {
      b := table.Contains(key);
    }

    method Get(key: Key) returns (item: Option<Item>)
      requires Agrees({})
      ensures item == if key in items then Some(items[key]) else None
    {
      var target := table.Get(key);
      if target == None || target.value < 0 || target.value >= heapLength {
        return None;
      }
      item := Some(heap[target.value]);
    }

    /** The value at the root, which in an ordered heap has the smallest rank. */
    method GetMin() returns (item: Option<Item>)
      requires Agrees({})
      ensures item == None <==> items == map[]
      ensures item == if heapLength == 0 then None else Some(heap[0])
      ensures item.Some? ==> item.value.key in items && items[item.value.key] == item.value
      ensures item.Some? && IsOrdered() ==> forall k :: k in items ==> item.value.rank <= items[k].rank
    {
      if heapLength == 0 {
        return None;
      }
      item := Some(heap[0]);
      if IsOrdered() {
        forall k | k in items
          ensures heap[0].rank <= items[k].rank
        {
          RootIsSmallest(Ranks(Items()), table.contents[k]);
        }
      }
    }

    method Swap(x: nat, y: nat, ghost gone: set<Key>)
      requires Agrees(gone) && x < heapLength && y < heapLength
      requires heap[x].key !in gone && heap[y].key !in gone
      modifies heap, table, table.keys, table.vals
      ensures Agrees(gone) && Items() == Swapped(old(Items()), x, y)
      ensures table.contents.Keys == old(table.contents.Keys)
      ensures table.keys == old(table.keys) || fresh(table.keys)
      ensures table.vals == old(table.vals) || fresh(table.vals)
    {
      hide Indexed, LinearProbingHashST.Valid;
      ghost var s, t := Items(), table.contents;
      KeysOf(s, t - gone, items);
      SwapIndexed(s, t - gone, items, x, y);
      var xVal, yVal := heap[x], heap[y];
      table.Put(xVal.key, y);
      table.Put(yVal.key, x);
      assert table.contents - gone == (t - gone)[s[x].key := y][s[y].key := x];
      heap[x] := yVal;
      heap[y] := xVal;
      assert Items() == Swapped(s, x, y);
    }

    method Resize()
      requires Agrees({})
      modifies this`heap
      ensures Agrees({}) && fresh(heap) && heap.Length == 2 * old(heap.Length) && Items() == old(Items())
    {
      var filler := heap[0];
      var newHeap := new Item[2 * heap.Length](_ => filler);
      for i := 0 to heapLength
        invariant heapLength <= heap.Length && newHeap.Length == 2 * heap.Length
        invariant newHeap[..i] == heap[..i]
        modifies newHeap
      {
        newHeap[i] := heap[i];
      }
      assert newHeap[..heapLength] == heap[..heapLength];
      heap := newHeap;
    }

    /** Swaps the item at `child` upward as far as possible. */
    method PullUp(child: nat)
      requires Agrees({}) && child < heapLength
      modifies heap, table, table.keys, table.vals
      ensures Agrees({})
      ensures OrderedAbove(Ranks(old(Items())), child) ==> IsOrdered()
      ensures table.keys == old(table.keys) || fresh(table.keys)
      ensures table.vals == old(table.vals) || fresh(table.vals)
    {
      hide Indexed, LinearProbingHashST.Valid;
      ghost var before := Items();
      var childIndex: nat, parentIndex: nat := child, Parent(child);
      while heap[childIndex].rank < heap[parentIndex].rank
        invariant Agrees({}) && childIndex < heapLength && parentIndex == Parent(childIndex)
        invariant OrderedAbove(Ranks(before), child) ==> OrderedAbove(Ranks(Items()), childIndex)
        invariant table.keys == old(table.keys) || fresh(table.keys)
        invariant table.vals == old(table.vals) || fresh(table.vals)
        decreases childIndex
      {
        if OrderedAbove(Ranks(Items()), childIndex) {
          StepUp(Ranks(Items()), childIndex);
        }
        RanksSwapped(Items(), parentIndex, childIndex);
        Swap(parentIndex, childIndex, {});
        childIndex := parentIndex;
        parentIndex := Parent(childIndex);
      }
    }

    /** Adds an item; one with the key of another is ignored. */
    method Add(target: Item)
      requires Agrees({})
      modifies this, heap, table, table.keys, table.vals
      ensures Agrees({}) && (old(IsOrdered()) ==> IsOrdered())
      ensures items == if target.key in old(items) then old(items) else old(items)[target.key := target]
      ensures heap == old(heap) || fresh(heap)
      ensures table.keys == old(table.keys) || fresh(table.keys)
      ensures table.vals == old(table.vals) || fresh(table.vals)
    {
      hide Indexed, Ordered, OrderedAbove, Ranks, LinearProbingHashST.Valid;
      PositionsAgree();
      var present := table.Contains(target.key);
      if present {
        return;
      }
      if heapLength == heap.Length {
        Resize();
      }
      Append(target);
      PullUp(heapLength - 1);
    }

    /** Puts a new item behind all others. */
    method Append(target: Item)
      requires Agrees({}) && target.key !in items && heapLength < heap.Length
      modifies this`heapLength, this`items, heap, table, table.keys, table.vals
      ensures Agrees({}) && heapLength == old(heapLength) + 1
      ensures old(IsOrdered()) ==> OrderedAbove(Ranks(Items()), heapLength - 1)
      ensures items == old(items)[target.key := target]
      ensures table.keys == old(table.keys) || fresh(table.keys)
      ensures table.vals == old(table.vals) || fresh(table.vals)
    {
      hide Indexed, LinearProbingHashST.Valid;
      ghost var s, t := Items(), table.contents;
      assert t - {} == t;
      KeysOf(s, t, items);
      AddIndexed(s, t, items, target);
      heap[heapLength] := target;
      table.Put(target.key, heapLength);
      heapLength := heapLength + 1;
      items := items[target.key := target];
      assert Items() == s + [target] && table.contents - {} == table.contents;
    }

    /** Whether a child of `curr` is smaller than it. */
    predicate ChildSmaller(curr: nat): (b: bool)
      requires curr < heapLength <= heap.Length
      reads this, heap
      ensures b == !Settled(Ranks(Items()), curr)
    {
      ghost var s := Ranks(Items());
      assert forall i :: 0 < i < |s| && Parent(i) == curr ==> i == 2 * curr + 1 || i == 2 * curr + 2;
      2 * curr + 1 < heapLength
      && ((2 * curr + 2 < heapLength && heap[2 * curr + 2].rank < heap[curr].rank)
          || heap[2 * curr + 1].rank < heap[curr].rank)
    }

    /** The smaller child of `curr`. */
    method SmallestBelow(curr: nat) returns (smallest: nat)
      requires curr < heapLength <= heap.Length && ChildSmaller(curr)
      ensures curr < smallest < heapLength && SmallestChild(Ranks(Items()), curr, smallest)
    {
      var left, right := 2 * curr + 1, 2 * curr + 2;
      smallest := curr;
      if heap[left].rank < heap[curr].rank {
        smallest := left;
      }
      if right < heapLength && heap[right].rank < heap[smallest].rank {
        smallest := right;
      }
    }

    /** Pushes the item at `target` down as far as possible. */
    method PushDown(target: nat, ghost gone: set<Key>)
      requires Agrees(gone) && target < heapLength
      requires forall k :: k in gone ==> k !in items
      modifies heap, table, table.keys, table.vals
      ensures Agrees(gone) && table.contents.Keys == old(table.contents.Keys)
      ensures OrderedBelow(Ranks(old(Items())), target, target) ==>
                (IsOrdered() <==> FitsBelow(Ranks(old(Items())), target, old(Items())[target].rank))
      ensures table.keys == old(table.keys) || fresh(table.keys)
      ensures table.vals == old(table.vals) || fresh(table.vals)
    {
      hide LinearProbingHashST.Valid, Indexed, Sinking, OrderedBelow, SmallestChild, Settled, Ordered, FitsBelow;
      var curr: nat := target;
      ghost var before := Items();
      if OrderedBelow(Ranks(before), target, target) {
        SinkStart(Ranks(before), target);
      }
      while ChildSmaller(curr)
        invariant Agrees(gone) && table.contents.Keys == old(table.contents.Keys)
        invariant curr < heapLength
        invariant OrderedBelow(Ranks(before), target, target) ==> Sinking(Ranks(before), Ranks(Items()), target, curr)
        invariant table.keys == old(table.keys) || fresh(table.keys)
        invariant table.vals == old(table.vals) || fresh(table.vals)
        decreases heapLength - curr
      {
        var smallest := SmallestBelow(curr);
        if Sinking(Ranks(before), Ranks(Items()), target, curr) {
          SinkStep(Ranks(before), Ranks(Items()), target, curr, smallest);
        }
        RanksSwapped(Items(), curr, smallest);
        KeysOf(Items(), table.contents - gone, items);
        Swap(curr, smallest, gone);
        curr := smallest;
      }
      if Sinking(Ranks(before), Ranks(Items()), target, curr) {
        SinkEnd(Ranks(before), Ranks(Items()), target, curr);
      }
    }

    /** Puts the last item in the place of the one at `target`; the table still has the key taken out. */
    method ReplaceByLast(target: nat) returns (value: Item)
      requires Agrees({}) && target < heapLength
      modifies this`heapLength, this`items, heap, table, table.keys, table.vals
      ensures value == old(Items()[target]) && value.key in old(items) && items == old(items) - {value.key}
      ensures Agrees({value.key}) && Items() == Without(old(Items()), target)
      ensures table.keys == old(table.keys) || fresh(table.keys)
      ensures table.vals == old(table.vals) || fresh(table.vals)
    {
      hide Indexed, LinearProbingHashST.Valid;
      ghost var s := Items();
      KeysOf(s, table.contents - {}, items);
      value := heap[target];
      Swap(target, heapLength - 1, {});
      ghost var swapped := Items();
      DropIndexed(swapped, table.contents - {}, items);
      assert table.contents - {} - {value.key} == table.contents - {value.key};
      heapLength := heapLength - 1;
      items := items - {value.key};
      assert Items() == swapped[..heapLength];
    }

    /** Takes the item at `target` out of the heap; the table still has its key. */
    method RemoveAt(target: nat) returns (value: Item)
      requires Agrees({}) && target < heapLength
      modifies this`heapLength, this`items, heap, table, table.keys, table.vals
      ensures value == old(Items()[target]) && value.key in old(items) && items == old(items) - {value.key}
      ensures Agrees({value.key})
      ensures old(IsOrdered()) ==> (IsOrdered() <==> SurvivesRemoval(Ranks(old(Items())), target))
      ensures table.keys == old(table.keys) || fresh(table.keys)
      ensures table.vals == old(table.vals) || fresh(table.vals)
    {
      hide Indexed, LinearProbingHashST.Valid;
      ghost var s := Items();
      if Ordered(Ranks(s)) {
        WithoutOrder(Ranks(s), target);
      }
      RanksWithout(s, target);
      value := ReplaceByLast(target);
      if target < heapLength {
        PushDown(target, {value.key});
      }
    }

    /** Drops the key of the item taken out from the table. */
    method Forget(key: Key)
      requires Agrees({key})
      modifies table, table.keys, table.vals
      ensures Agrees({}) && Items() == old(Items())
      ensures table.keys == old(table.keys) || fresh(table.keys)
      ensures table.vals == old(table.vals) || fresh(table.vals)
    {
      hide Indexed, LinearProbingHashST.Valid;
      table.Delete(key);
      assert table.contents - {} == old(table.contents) - {key};
    }

    lemma RootSurvives()
      requires heapLength <= heap.Length
      ensures heapLength > 0 ==> SurvivesRemoval(Ranks(Items()), 0)
    {
    }

    /** Removes the value at the root, in an ordered heap the one with the smallest rank; the order survives. */
    method RemoveMin() returns (value: Option<Item>)
      requires Agrees({})
      modifies this`heapLength, this`items, heap, table, table.keys, table.vals
      ensures Agrees({}) && (old(IsOrdered()) ==> IsOrdered())
      ensures value == None <==> old(items) == map[]
      ensures value == None ==> items == old(items)
      ensures value.Some? ==>
                && value.value.key in old(items) && old(items)[value.value.key] == value.value
                && items == old(items) - {value.value.key}
      ensures value.Some? && old(IsOrdered()) ==> forall k :: k in old(items) ==> value.value.rank <= old(items)[k].rank
      ensures table.keys == old(table.keys) || fresh(table.keys)
      ensures table.vals == old(table.vals) || fresh(table.vals)
    {
      hide Agrees, IsOrdered, Ranks, SurvivesRemoval, LinearProbingHashST.Valid;
      PositionsAgree();
      RootSurvives();
      var min := GetMin();
      if heapLength == 0 {
        return None;
      }
      assert min == Some(heap[0]);
      var minVal := RemoveAt(0);
      Forget(minVal.key);
      value := Some(minVal);
    }

    /** Removes the value with the given key. The index agrees afterwards in any case; the order of an ordered
        heap survives exactly when the last item fits below the parent of the place that it takes. */
    method Remove(key: Key) returns (value: Option<Item>)
      requires Agrees({})
      modifies this`heapLength, this`items, heap, table, table.keys, table.vals
      ensures Agrees({}) && items == old(items) - {key}
      ensures value == if key in old(items) then Some(old(items)[key]) else None
      ensures key !in old(items) ==> Items() == old(Items())
      ensures key in old(items) ==>
                key in old(table.contents) && 0 <= old(table.contents)[key] < old(heapLength)
                && (old(IsOrdered()) ==> (IsOrdered() <==> SurvivesRemoval(Ranks(old(Items())), old(table.contents)[key])))
      ensures table.keys == old(table.keys) || fresh(table.keys)
      ensures table.vals == old(table.vals) || fresh(table.vals)
    {
      hide Agrees, IsOrdered, Ranks, LinearProbingHashST.Valid, SurvivesRemoval;
      PositionsAgree();
      var targetIndex := table.Get(key);
      if targetIndex == None {
        return None;
      }
      var targetValue := RemoveAt(targetIndex.value);
      Forget(key);
      value := Some(targetValue);
    }

    /** Replaces the item with key `target`; an unknown key, or a new item with another key, is ignored. */
    method Update(target: Key, newVal: Item)
      requires Agrees({})
      modifies this`items, heap, table, table.keys, table.vals
      ensures Agrees({}) && (old(IsOrdered()) ==> IsOrdered())
      ensures items == if target in old(items) && newVal.key == target then old(items)[target := newVal] else old(items)
      ensures table.keys == old(table.keys) || fresh(table.keys)
      ensures table.vals == old(table.vals) || fresh(table.vals)
    {
      assert table.contents - {} == table.contents;
      PositionOf(Items(), table.contents, items);
      hide Indexed, LinearProbingHashST.Valid;
      var targetIndex := table.Get(target);
      if targetIndex == None {
        return;
      }
      if newVal.key != target {
        return;
      }
      UpdateAt(targetIndex.value, newVal);
    }

    /** Puts a new item with the same key in a place and restores the order in the direction needed. */
    method UpdateAt(target: nat, newVal: Item)
      requires Agrees({}) && target < heapLength && newVal.key == heap[target].key
      modifies this`items, heap, table, table.keys, table.vals
      ensures Agrees({}) && (old(IsOrdered()) ==> IsOrdered()) && items == old(items)[newVal.key := newVal]
      ensures table.keys == old(table.keys) || fresh(table.keys)
      ensures table.vals == old(table.vals) || fresh(table.vals)
    {
      hide Indexed, LinearProbingHashST.Valid;
      ghost var s := Items();
      ReplaceIndexed(s, table.contents - {}, items, target, newVal);
      if Ordered(Ranks(s)) {
        ReplaceOrder(Ranks(s), target, newVal.rank);
      }
      heap[target] := newVal;
      items := items[newVal.key := newVal];
      assert Items() == s[target := newVal] && Ranks(Items()) == Ranks(s)[target := newVal.rank];
      var parent := Parent(target);
      if heap[target].rank < heap[parent].rank {
        PullUp(target);
        if IsOrdered() {
          OrderedIsBelow(Ranks(Items()), target);
        }
      }
      if ChildSmaller(target) {
        PushDown(target, {});
      } else if OrderedBelow(Ranks(Items()), target, target) {
        SinkStart(Ranks(Items()), target);
        SinkEnd(Ranks(Items()), Ranks(Items()), target, target);
      }
    }
  }
}
