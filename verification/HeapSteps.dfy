/** What the operations of the allocator do to a well-formed heap, on values. */
module HeapSteps {
  import opened HeapLayout
  import opened Sequences

  lemma FreeListIsOdd(l: Layout, end: int, fl: seq<int>)
    requires BlocksFit(l, end) && forall f :: f in fl ==> f in l
    ensures Odd(fl)
  {
    forall i | 0 <= i < |fl|
      ensures fl[i] % 2 == 1 && 1 <= fl[i]
    {
      assert fl[i] in fl;
    }
  }

  /** Taking entry `k` off the list. */
  lemma Detach(m: seq<nat>, end: int, head: int, l: Layout, fl: seq<int>, gone: set<int>, k: nat)
    requires HeapOk(m, end, head, l, fl, gone) && k < |fl|
    ensures forall i :: k - 1 <= i <= k + 1 && 0 <= i < |fl| ==> 1 <= fl[i] < |m| - 2
    ensures HeapOk(RemoveLinks(m, fl, k), end, if Entry(fl, k - 1) == NULL then Entry(fl, k + 1) else head, l,
                   fl[..k] + fl[k + 1..], gone + {fl[k]})
    ensures LiveKept(m, RemoveLinks(m, fl, k), l, l, NULL) && EndsKept(m, RemoveLinks(m, fl, k), end)
  {
    hide HasPrev, Tagged, BlocksFit, Linked, Distinct;
    FreeListIsOdd(l, end, fl);
    RemoveLinked(m, head, fl, k);
    RemoveLinksOnly(m, l, end, fl, k);
    RemoveExactly(l, fl, gone, k);
  }

  /** Putting the missing block on the list. */
  lemma Attach(m: seq<nat>, end: int, head: int, l: Layout, fl: seq<int>, a: nat)
    requires HeapOk(m, end, head, l, fl, {a}) && IsFreeIn(l, a)
    ensures a + 2 < |m| && (fl != [] ==> 1 <= fl[0] < |m| - 2) && head == Entry(fl, 0)
    ensures HeapOk(InsertLinks(m, fl, a), end, a, l, [a] + fl, {})
    ensures LiveKept(m, InsertLinks(m, fl, a), l, l, NULL) && EndsKept(m, InsertLinks(m, fl, a), end)
  {
    hide HasPrev, Tagged, Linked, LinkAt;
    FreeListIsOdd(l, end, fl);
    HeadIsFirst(m, head, fl);
    InsertLinksOnly(m, l, end, fl, a);
    InsertLinked(m, head, fl, a);
  }

  /** Writing the tags of one block of a changed layout. */
  lemma TagBlock(m: seq<nat>, end: int, head: int, l: Layout, fl: seq<int>, l': Layout, a: int)
    requires Tagged(m, l) && Linked(m, head, fl) && BlocksFit(l', end) && 1 <= end < |m| && SameBut(l, l', a) && a in l'
    requires forall f :: f in fl ==> f in l'
    ensures 1 <= a && a + l'[a].words <= |m| && l'[a].words >= 4
    ensures var m' := Tag(m, a, l'[a].words, l'[a].alloc);
            && Tagged(m', l') && Linked(m', head, fl) && EndsKept(m, m', end)
            && forall b :: b in l' ==> PayloadKept(m, m', l', b)
  {
    hide Tagged, BlocksFit, Linked;
    BlockBounds(l', end, a);
    TagKeepsTags(m, l, l', end, a);
    TagKeepsLinks(m, head, fl, l', end, a);
    forall b | b in l'
      ensures PayloadKept(m, Tag(m, a, l'[a].words, l'[a].alloc), l', b)
    {
      TagKeepsPayload(m, l', end, a, b);
    }
  }

  /** The block off the list becomes a live one. */
  lemma Occupy(m: seq<nat>, end: int, head: int, l: Layout, fl: seq<int>, a: int)
    requires HeapOk(m, end, head, l, fl, {a}) && IsFreeIn(l, a)
    ensures 1 <= a && a + l[a].words <= |m| && l[a].words >= 4
    ensures var m' := Tag(m, a, l[a].words, true);
            && HeapOk(m', end, head, Retag(l, a, true), fl, {})
            && LiveKept(m, m', l, Retag(l, a, true), NULL) && EndsKept(m, m', end)
    ensures NoFreeNeighbours(l) ==> NoFreeNeighbours(Retag(l, a, true))
  {
    hide HasPrev, Tagged, Linked, Distinct;
    RetagTiles(l, end, a, true);
    TagBlock(m, end, head, l, fl, Retag(l, a, true), a);
    hide BlocksFit;
  }

  /** A live block becomes a free one that is not listed yet. */
  lemma Release(m: seq<nat>, end: int, head: int, l: Layout, fl: seq<int>, a: int)
    requires HeapOk(m, end, head, l, fl, {}) && IsLive(l, a)
    ensures 1 <= a && a + l[a].words <= |m| && l[a].words >= 4
    ensures var m' := Tag(m, a, l[a].words, false);
            && HeapOk(m', end, head, Retag(l, a, false), fl, {a})
            && LiveKept(m, m', l, Retag(l, a, false), a) && EndsKept(m, m', end)
  {
    hide HasPrev, Tagged, Linked, Distinct;
    RetagTiles(l, end, a, false);
    TagBlock(m, end, head, l, fl, Retag(l, a, false), a);
    hide BlocksFit;
  }

  /** A live block is cut in two; the second part is a free block that is not listed yet. */
  lemma CutLive(m: seq<nat>, end: int, head: int, l: Layout, fl: seq<int>, a: int, words: int)
    requires HeapOk(m, end, head, l, fl, {}) && IsLive(l, a) && 4 <= words <= l[a].words - 4 && words % 2 == 0
    ensures 1 <= a && a + l[a].words <= |m|
    ensures var m1 := Tag(m, a, words, true);
            var m2 := Tag(m1, a + words, l[a].words - words, false);
            && HeapOk(m2, end, head, Split(l, a, words), fl, {a + words})
            && LiveKept(m, m2, l, Split(l, a, words), a) && EndsKept(m, m2, end)
            && a + words !in l
  {
    hide HasPrev, Tagged, Linked, Distinct;
    var l1, l2 := l[a := Block(words, true)], Split(l, a, words);
    SplitTiles(l, end, a, words);
    TagBlock(m, end, head, l, fl, l1, a);
    var m1 := Tag(m, a, words, true);
    TagBlock(m1, end, head, l1, fl, l2, a + words);
    hide BlocksFit;
    var m2 := Tag(m1, a + words, l[a].words - words, false);
    forall b | IsLive(l, b) && b != a
      ensures b in l2 && l2[b] == l[b] && PayloadKept(m, m2, l, b)
    {
      assert PayloadKept(m, m1, l1, b) && PayloadKept(m1, m2, l2, b);
    }
  }

  /** A block off the list is joined to the free block in front of it. */
  lemma Join(m: seq<nat>, end: int, head: int, l: Layout, fl: seq<int>, p: int, a: int)
    requires HeapOk(m, end, head, l, fl, {a}) && IsFreeIn(l, p) && IsFreeIn(l, a) && Behind(l, p) == a
    ensures 1 <= p && p + l[p].words + l[a].words <= |m| && l[p].words + l[a].words >= 4
    ensures var m' := Tag(m, p, l[p].words + l[a].words, false);
            && HeapOk(m', end, head, Merge(l, p, a), fl, {})
            && LiveKept(m, m', l, Merge(l, p, a), NULL) && EndsKept(m, m', end)
  {
    hide HasPrev, Tagged, Linked, Distinct;
    MergeTiles(l, end, p, a);
    TagBlock(m, end, head, l, fl, Merge(l, p, a), p);
    hide BlocksFit;
  }

  /** A block off the list and the one behind it, also off the list, are joined to the one in front. */
  lemma JoinBoth(m: seq<nat>, end: int, head: int, l: Layout, fl: seq<int>, p: int, a: int, n: int)
    requires HeapOk(m, end, head, l, fl, {a, n}) && IsFreeIn(l, p) && IsFreeIn(l, a) && IsFreeIn(l, n)
    requires Behind(l, p) == a && Behind(l, a) == n
    ensures 1 <= p && p + l[p].words + l[a].words + l[n].words <= |m| && l[p].words + l[a].words + l[n].words >= 4
    ensures var m' := Tag(m, p, l[p].words + l[a].words + l[n].words, false);
            var l' := Merge(Merge(l, p, a), p, n);
            && p in Merge(l, p, a) && n in Merge(l, p, a)
            && HeapOk(m', end, head, l', fl, {}) && LiveKept(m, m', l, l', NULL) && EndsKept(m, m', end)
  {
    hide HasPrev, Tagged, Linked, Distinct;
    BlockBounds(l, end, p);
    BlockBounds(l, end, a);
    MergeTiles(l, end, p, a);
    var l1 := Merge(l, p, a);
    assert p in l1 && n in l1 && Behind(l1, p) == n;
    MergeTiles(l1, end, p, n);
    TagBlock(m, end, head, l, fl, Merge(l1, p, n), p);
    hide BlocksFit;
  }

  /** A client stores into the payload of a live block. */
  lemma StorePayload(m: seq<nat>, end: int, head: int, l: Layout, fl: seq<int>, a: int, x: int, v: nat)
    requires HeapOk(m, end, head, l, fl, {}) && IsLive(l, a) && a < x < Behind(l, a) - 1
    ensures 1 <= a && x < end && HeapOk(m[x := v], end, head, l, fl, {}) && EndsKept(m, m[x := v], end)
  {
    hide HasPrev, Distinct, BlocksFit;
    BlockBounds(l, end, a);
    var m' := m[x := v];
    forall b | b in l
      ensures HasTags(m', b, l[b])
    {
      assert HasTags(m, b, l[b]);
      if b != a {
        Apart(l, end, a, b);
      }
    }
    forall i | 0 <= i < |fl|
      ensures LinkAt(m', fl, i)
    {
      assert LinkAt(m, fl, i) && fl[i] in fl;
      Apart(l, end, a, fl[i]);
    }
  }

  /** Writing the epilogue behind all blocks. */
  lemma WriteEpilogue(m: seq<nat>, end: int, head: int, l: Layout, fl: seq<int>, gone: set<int>)
    requires HeapOk(m, end, head, l, fl, gone) && m[0] == Pack(0, true)
    ensures var m' := m[end := Pack(0, true)];
            HeapOk(m', end, head, l, fl, gone) && HasEnds(m', end) && LiveKept(m, m', l, l, NULL)
  {
    hide HasPrev, Distinct;
    var m' := m[end := Pack(0, true)];
    forall b | b in l
      ensures HasTags(m', b, l[b]) && PayloadKept(m, m', l, b)
    {
      assert HasTags(m, b, l[b]);
      BlockBounds(l, end, b);
    }
    forall i | 0 <= i < |fl|
      ensures LinkAt(m', fl, i)
    {
      assert LinkAt(m, fl, i) && fl[i] in fl;
      BlockBounds(l, end, fl[i]);
    }
  }

  /** The free block at the end grows into new words. */
  lemma GrowLast(m: seq<nat>, end: int, head: int, l: Layout, fl: seq<int>, p: int, words: int)
    requires HeapOk(m, end, head, l, fl, {}) && IsFreeIn(l, p) && Behind(l, p) == end
    requires words >= 4 && words % 2 == 0 && end + words < |m|
    ensures 1 <= p && p + l[p].words + words <= |m|
    ensures var m' := Tag(m, p, l[p].words + words, false);
            && HeapOk(m', end + words, head, Grow(l, p, words), fl, {})
            && LiveKept(m, m', l, Grow(l, p, words), NULL) && m'[0] == m[0]
  {
    hide HasPrev, Tagged, Linked, Distinct;
    GrowTiles(l, end, p, words);
    TagBlock(m, end + words, head, l, fl, Grow(l, p, words), p);
    hide BlocksFit;
  }

  /** The new words become a free block that is not listed yet. */
  lemma NewLast(m: seq<nat>, end: int, head: int, l: Layout, fl: seq<int>, words: int)
    requires HeapOk(m, end, head, l, fl, {}) && words >= 4 && words % 2 == 0 && end + words < |m|
    ensures 1 <= end && end + words <= |m| && end !in l
    ensures var m' := Tag(m, end, words, false);
            && HeapOk(m', end + words, head, Append(l, end, words), fl, {end})
            && LiveKept(m, m', l, Append(l, end, words), NULL) && m'[0] == m[0]
  {
    hide HasPrev, Tagged, Linked, Distinct;
    AppendTiles(l, end, words);
    TagBlock(m, end + words, head, l, fl, Append(l, end, words), end);
    hide BlocksFit;
  }

  // ----- no two neighbouring free blocks -----

  /** No two neighbouring free blocks, but perhaps `a` and a neighbour. */
  ghost predicate NoFreeNeighboursBut(l: Layout, a: int) {
    forall x {:trigger Behind(l, x)} :: IsFreeIn(l, x) && x != a && Behind(l, x) != a ==> !IsFreeIn(l, Behind(l, x))
  }

  lemma SplitNeighbours(l: Layout, end: int, a: int, words: int)
    requires BlocksFit(l, end) && IsLive(l, a) && 4 <= words <= l[a].words - 4
    requires NoFreeNeighbours(l) && !IsFreeIn(l, Behind(l, a))
    ensures NoFreeNeighbours(Split(l, a, words))
  {
    var l', r := Split(l, a, words), a + words;
    forall x | IsFreeIn(l', x)
      ensures !IsFreeIn(l', Behind(l', x))
    {
      if x == r {
        assert Behind(l', r) == Behind(l, a);
      } else {
        assert Behind(l', x) == Behind(l, x);
        Apart(l, end, x, a);
      }
    }
  }

  lemma ReleasedNeighbours(l: Layout, a: int)
    requires a in l && NoFreeNeighbours(l)
    ensures NoFreeNeighboursBut(Retag(l, a, false), a)
  {
    var l' := Retag(l, a, false);
    forall x | IsFreeIn(l', x) && x != a && Behind(l', x) != a
      ensures !IsFreeIn(l', Behind(l', x))
    {
      assert Behind(l', x) == Behind(l, x);
    }
  }

  /** Joining a free block with the one behind it leaves only the neighbours of the result open. */
  lemma MergedNeighbours(l: Layout, end: int, p: int, a: int, open: int)
    requires BlocksFit(l, end) && IsFreeIn(l, p) && IsFreeIn(l, a) && Behind(l, p) == a && NoFreeNeighboursBut(l, open)
    requires open == p || open == a
    ensures NoFreeNeighboursBut(Merge(l, p, a), p)
  {
    var l' := Merge(l, p, a);
    forall x | IsFreeIn(l', x) && x != p && Behind(l', x) != p
      ensures !IsFreeIn(l', Behind(l', x))
    {
      assert Behind(l', x) == Behind(l, x);
      Apart(l, end, x, p);
      Apart(l, end, x, a);
    }
  }

  /** No free block ends where `a` starts. */
  ghost predicate NoFreeInFront(l: Layout, a: int) {
    forall x {:trigger Behind(l, x)} :: x in l && Behind(l, x) == a ==> l[x].alloc
  }

  /** A free block with live blocks, or the ends of the heap, on both sides. */
  lemma Settled(l: Layout, a: int)
    requires IsFreeIn(l, a) && NoFreeNeighboursBut(l, a) && NoFreeInFront(l, a) && !IsFreeIn(l, Behind(l, a))
    ensures NoFreeNeighbours(l)
  {
  }

  lemma OnePrev(l: Layout, end: int, p: int, a: int)
    requires BlocksFit(l, end) && ((IsLive(l, p) && Behind(l, p) == a) || a == 1)
    ensures NoFreeInFront(l, a)
  {
    forall x | x in l && Behind(l, x) == a
      ensures l[x].alloc
    {
      BlockBounds(l, end, x);
      if x != p {
        Apart(l, end, x, p);
      }
    }
  }

  lemma FrontAfterMerge(l: Layout, end: int, p: int, a: int, b: int)
    requires BlocksFit(l, end) && p in l && a in l && p != a && b <= p && NoFreeInFront(l, b)
    requires l[p].words + l[a].words >= 0
    ensures NoFreeInFront(Merge(l, p, a), b)
  {
    var l' := Merge(l, p, a);
    BlockBounds(l, end, p);
    BlockBounds(l, end, a);
    forall x | x in l' && Behind(l', x) == b
      ensures l'[x].alloc
    {
      assert x != p;
      assert Behind(l, x) == b;
    }
  }

  /** The three ways in which a freed block is joined to free neighbours leave no two of them. */
  lemma JoinedBefore(l: Layout, end: int, p: int, a: int)
    requires BlocksFit(l, end) && NoFreeNeighboursBut(l, a) && IsFreeIn(l, p) && IsFreeIn(l, a) && Behind(l, p) == a
    requires !IsFreeIn(l, Behind(l, a))
    ensures NoFreeNeighbours(Merge(l, p, a))
  {
    MergedNeighbours(l, end, p, a, a);
    FreeInFront(l, end, p, a);
    FrontAfterMerge(l, end, p, a, p);
    BlockBounds(l, end, a);
    BlockBounds(l, end, p);
    assert Behind(Merge(l, p, a), p) == Behind(l, a);
    Settled(Merge(l, p, a), p);
  }

  lemma FreeInFront(l: Layout, end: int, p: int, a: int)
    requires BlocksFit(l, end) && NoFreeNeighboursBut(l, a) && IsFreeIn(l, p) && IsFreeIn(l, a) && Behind(l, p) == a
    ensures NoFreeInFront(l, p)
  {
    forall x | x in l && Behind(l, x) == p
      ensures l[x].alloc
    {
      BlockBounds(l, end, p);
      BlockBounds(l, end, x);
      BlockBounds(l, end, a);
    }
  }

  lemma JoinedAfter(l: Layout, end: int, a: int, n: int)
    requires BlocksFit(l, end) && NoFreeNeighboursBut(l, a) && IsFreeIn(l, a) && IsFreeIn(l, n) && Behind(l, a) == n
    requires NoFreeInFront(l, a)
    ensures NoFreeNeighbours(Merge(l, a, n))
  {
    MergedNeighbours(l, end, a, n, a);
    BlockBounds(l, end, a);
    BlockBounds(l, end, n);
    FrontAfterMerge(l, end, a, n, a);
    assert Behind(Merge(l, a, n), a) == Behind(l, n);
    Settled(Merge(l, a, n), a);
  }

  lemma JoinedBoth(l: Layout, end: int, p: int, a: int, n: int)
    requires Tiles(l, end) && NoFreeNeighboursBut(l, a) && IsFreeIn(l, p) && IsFreeIn(l, a) && IsFreeIn(l, n)
    requires Behind(l, p) == a && Behind(l, a) == n
    ensures p in Merge(l, p, a) && n in Merge(l, p, a) && NoFreeNeighbours(Merge(Merge(l, p, a), p, n))
  {
    hide HasPrev;
    var l1 := Merge(l, p, a);
    BlockBounds(l, end, p);
    BlockBounds(l, end, a);
    BlockBounds(l, end, n);
    MergedNeighbours(l, end, p, a, a);
    FreeInFront(l, end, p, a);
    FrontAfterMerge(l, end, p, a, p);
    MergeTiles(l, end, p, a);
    assert Behind(l1, p) == n && Behind(l1, n) == Behind(l, n);
    JoinedAfter(l1, end, p, n);
  }

  lemma FitsIn(m: seq<nat>, end: int, head: int, l: Layout, fl: seq<int>, gone: set<int>)
    requires HeapOk(m, end, head, l, fl, gone)
    ensures BlocksFit(l, end) && 1 <= end < |m| && end !in l
  {
    hide HasPrev, Tagged, Linked;
  }
}
