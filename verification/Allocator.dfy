/** The explicit-free-list allocator over one flat array of words. Addresses count words from the
    start of the heap; position 0 is the footer of the prologue, so 0 can stand for NULL. */
module Allocators {
  import opened HeapLayout
  import opened HeapSteps

  const WSIZE := 8
  const DSIZE := 16
  const MIN_BLOCK_SIZE := 32
  const CHUNKSIZE := 4096
  const SIZE_LIMIT := 0x1_0000_0000_0000_0000

  /** The next multiple of 16, in 64-bit arithmetic. */
  function RoundUp(size: nat): nat {
    DSIZE * ((size + (DSIZE - 1)) % SIZE_LIMIT / DSIZE)
  }

  /** The block size for a request, in 64-bit arithmetic. */
  function AdjustedSize(size: nat): nat {
    if size <= DSIZE then MIN_BLOCK_SIZE else RoundUp((size + DSIZE) % SIZE_LIMIT)
  }

  /** The block size has room for the request and both tags exactly when the request is below
      2^64 - 31: from there on the sums wrap around. */
  lemma AdjustedSizeIsEnough(size: nat)
    requires 0 < size < SIZE_LIMIT
    ensures AdjustedSize(size) >= size + DSIZE <==> size < SIZE_LIMIT - 31
    ensures size >= SIZE_LIMIT - 31 ==> AdjustedSize(size) <= 16 && AdjustedSize(size) % 16 == 0
    ensures AdjustedSize(SIZE_LIMIT - 31) == 0 && AdjustedSize(SIZE_LIMIT - 1) == 16
    ensures size < SIZE_LIMIT - 31 ==>
              MIN_BLOCK_SIZE <= AdjustedSize(size) < (if size <= DSIZE then DSIZE else size) + 2 * DSIZE && AdjustedSize(size) % 16 == 0
  {
    if DSIZE < size < SIZE_LIMIT - 31 {
      assert AdjustedSize(size) == 16 * ((size + 31) / 16);
    } else if size >= SIZE_LIMIT - 31 {
      assert AdjustedSize(size) <= 16;
    }
  }

  lemma ChunkIsRound()
    ensures RoundUp(CHUNKSIZE) == CHUNKSIZE
  {
  }

  /** Of the free blocks that are large enough, none is smaller; NULL if there is none. */
  ghost predicate IsBestFit(l: Layout, asize: nat, best: int) {
    if best == NULL then forall a :: IsFreeIn(l, a) ==> 8 * l[a].words < asize
    else
      && IsFreeIn(l, best) && 8 * l[best].words >= asize
      && forall a :: IsFreeIn(l, a) && 8 * l[a].words >= asize ==> l[best].words <= l[a].words
  }

  /** The best fit among the first `n` entries of the list, found at position `k`. */
  ghost predicate IsBestSoFar(l: Layout, fl: seq<int>, n: nat, asize: nat, best: int, bestSize: nat, k: nat) {
    if best == NULL then forall j :: 0 <= j < n <= |fl| ==> 8 * WordsOf(l, fl[j]) < asize
    else
      && k < n <= |fl| && fl[k] == best && bestSize == 8 * WordsOf(l, best) >= asize
      && forall j :: 0 <= j < n && 8 * WordsOf(l, fl[j]) >= asize ==> bestSize <= 8 * WordsOf(l, fl[j])
  }

  lemma NoneYet(l: Layout, fl: seq<int>, asize: nat)
    ensures IsBestSoFar(l, fl, 0, asize, NULL, 0, 0)
  {
  }

  lemma OneMore(l: Layout, fl: seq<int>, i: nat, asize: nat, best: int, bestSize: nat, k: nat)
    requires i < |fl| && fl[i] != NULL && IsBestSoFar(l, fl, i, asize, best, bestSize, k) && WordsOf(l, fl[i]) >= 0
    ensures var size := 8 * WordsOf(l, fl[i]);
            if size >= asize && (best == NULL || size < bestSize) then IsBestSoFar(l, fl, i + 1, asize, fl[i], size, i)
            else IsBestSoFar(l, fl, i + 1, asize, best, bestSize, k)
  {
  }

  lemma BestOfAll(l: Layout, fl: seq<int>, asize: nat, best: int, bestSize: nat, k: nat)
    requires FreeExactly(l, fl, {}) && IsBestSoFar(l, fl, |fl|, asize, best, bestSize, k)
    ensures IsBestFit(l, asize, best) && (best != NULL ==> k < |fl| && fl[k] == best)
  {
    forall a | IsFreeIn(l, a)
      ensures best == NULL ==> 8 * l[a].words < asize
      ensures best != NULL && 8 * l[a].words >= asize ==> bestSize <= 8 * l[a].words
    {
      assert a in fl;
      var j :| 0 <= j < |fl| && fl[j] == a;
    }
    if best != NULL {
      assert best in fl;
    }
  }

  /** Where a growing heap gets its next free block: at the free block in front of the epilogue, if there is
      one, else at the epilogue. */
  ghost predicate GrowsAt(l: Layout, end: int, a: int) {
    if IsFreeIn(l, a) then Behind(l, a) == end else a == end && NoFreeInFront(l, end)
  }

  /** Only the block at which the heap has grown can have become sufficient. */
  lemma GrownFit(l: Layout, end: int, l1: Layout, end1: int, asize: nat, grown: int, a: int)
    requires IsBestFit(l, asize, NULL) && SameBut(l, l1, grown) && GrowsAt(l, end, grown)
    requires BlocksFit(l1, end1) && IsFreeIn(l1, grown) && Behind(l1, grown) == end1
    requires if IsBestFit(l1, asize, NULL) then GrowsAt(l1, end1, a) else IsBestFit(l1, asize, a)
    ensures a == grown
  {
    if a in l1 && Behind(l1, a) == end1 && a != grown {
      Apart(l1, end1, a, grown);
    }
  }

  /** A block that starts where the heap grows and has enough words ends behind the old end. */
  lemma GrownEnd(l: Layout, end: int, a: int, words: nat)
    requires IsBestFit(l, 8 * words, NULL) && BlocksFit(l, end) && GrowsAt(l, end, a) && words > 0
    ensures a <= end < a + words
  {
  }

  class Allocator {
    const mem: array<nat>
    /** The end of the words handed out by mem_sbrk. */
    var brk: nat
    var freeListHead: int
    ghost var layout: Layout
    ghost var freeList: seq<int>

    constructor (capacity: nat)
      ensures mem.Length == capacity && brk == 0 && fresh(mem)
    {
      mem := new nat[capacity](_ => 0);
      brk, freeListHead, layout, freeList := 0, NULL, map[], [];
    }

    /** A well-formed heap whose epilogue is at `end`; the free blocks in `gone` are off the list. */
    ghost predicate IsHeap(end: int, gone: set<int>)
      reads this, mem
    {
      HasEnds(mem[..], end) && HeapOk(mem[..], end, freeListHead, layout, freeList, gone)
    }

    ghost predicate Consistent(gone: set<int>)
      reads this, mem
    {
      2 <= brk <= mem.Length && IsHeap(brk - 1, gone)
    }

    ghost predicate Valid()
      reads this, mem
    {
      Consistent({}) && NoFreeNeighbours(layout)
    }

    function GetSize(a: int): nat
      requires 0 <= a < mem.Length
      reads mem
    {
      ExtractSize(mem[a])
    }

    function GetAlloc(a: int): bool
      requires 0 <= a < mem.Length
      reads mem
    {
      ExtractAlloc(mem[a])
    }

    method MemSbrk(incr: nat) returns (start: int)
      modifies this`brk
      ensures if old(brk) + incr > mem.Length then start == -1 && brk == old(brk)
              else start == old(brk) && brk == old(brk) + incr
    {
      if brk + incr > mem.Length {
        return -1;
      }
      start := brk;
      brk := brk + incr;
    }

    /** Writes header and footer of a block. */
    method WriteTags(a: int, size: nat, alloc: bool)
      requires 1 <= a < mem.Length && size % 16 == 0 && a + size / WSIZE <= mem.Length
      modifies mem
      ensures mem[..] == Tag(old(mem[..]), a, size / WSIZE, alloc)
    {
      mem[a] := Pack(size, alloc);
      PackRoundTrip(size, alloc);
      var footer := a + GetSize(a) / WSIZE - 1;
      mem[footer] := Pack(size, alloc);
      assert 8 * (size / WSIZE) == size;
    }

    method InsertBlock(a: int)
      requires 0 <= a < mem.Length - 2 && freeListHead == Entry(freeList, 0)
      requires freeList != [] ==> 1 <= freeList[0] < mem.Length - 2
      modifies this`freeListHead, this`freeList, mem
      ensures mem[..] == InsertLinks(old(mem[..]), old(freeList), a)
      ensures freeListHead == a && freeList == [a] + old(freeList)
    {
      if freeListHead == NULL {
        mem[a + 2] := NULL;
        mem[a + 1] := NULL;
      } else {
        var oldRoot := freeListHead;
        mem[a + 2] := oldRoot;
        mem[a + 1] := NULL;
        mem[oldRoot + 1] := a;
      }
      freeListHead := a;
      freeList := [a] + freeList;
    }

    /** Takes the block at position `k` of the free list off it. */
    method RemoveBlock(a: int, ghost k: nat)
      requires k < |freeList| && freeList[k] == a && Linked(mem[..], freeListHead, freeList)
      modifies this`freeListHead, this`freeList, mem
      ensures forall i :: k - 1 <= i <= k + 1 && 0 <= i < |old(freeList)| ==> 1 <= old(freeList)[i] < mem.Length - 2
      ensures mem[..] == RemoveLinks(old(mem[..]), old(freeList), k)
      ensures freeList == old(freeList)[..k] + old(freeList)[k + 1..]
      ensures freeListHead == if Entry(old(freeList), k - 1) == NULL then Entry(old(freeList), k + 1) else old(freeListHead)
    {
      ghost var m := mem[..];
      assert LinkAt(m, freeList, k) && (k > 0 ==> LinkAt(m, freeList, k - 1)) && (k < |freeList| - 1 ==> LinkAt(m, freeList, k + 1));
      var previous := mem[a + 1];
      var next := mem[a + 2];
      if previous == NULL && next == NULL {
        freeListHead := NULL;
      } else if previous == NULL {
        freeListHead := next;
        mem[next + 1] := NULL;
      } else if next == NULL {
        mem[previous + 2] := NULL;
      } else {
        mem[previous + 2] := next;
        mem[next + 1] := previous;
      }
      freeList := freeList[..k] + freeList[k + 1..];
    }

    /** A smallest free block of at least `asize` bytes, the first such in the list; NULL if there is none. */
    method FindFit(asize: nat) returns (bestFit: int, ghost k: nat)
      requires Consistent({})
      ensures IsBestFit(layout, asize, bestFit)
      ensures bestFit != NULL ==> k < |freeList| && freeList[k] == bestFit
    {
      hide IsBestSoFar, IsBestFit, HasEnds, HeapOk, FreeExactly, ExtractSize, ExtractAlloc;
      k := 0;
      bestFit := NULL;
      var bestSize: nat := 0;
      var currBlock := freeListHead;
      ghost var i: nat := 0;
      NoneYet(layout, freeList, asize);
      FirstEntry();
      while currBlock != NULL
        invariant i <= |freeList| && currBlock == Entry(freeList, i) && (i < |freeList| ==> currBlock != NULL)
        invariant IsBestSoFar(layout, freeList, i, asize, bestFit, bestSize, k)
        decreases |freeList| - i
      {
        TagsOfFree(i);
        OneMore(layout, freeList, i, asize, bestFit, bestSize, k);
        var currSize := GetSize(currBlock);
        if currSize >= asize && !GetAlloc(currBlock) {
          if bestFit == NULL {
            bestFit, bestSize, k := currBlock, currSize, i;
          }
          if currSize < bestSize {
            bestFit, bestSize, k := currBlock, currSize, i;
          }
        }
        currBlock := mem[currBlock + 2];
        i := i + 1;
        if i < |freeList| {
          TagsOfFree(i);
        }
      }
      BestOfAll(layout, freeList, asize, bestFit, bestSize, k);
    }

    lemma FirstEntry()
      requires Consistent({})
      ensures freeListHead == Entry(freeList, 0) && FreeExactly(layout, freeList, {})
      ensures freeList != [] ==> freeListHead != NULL
    {
      if freeList != [] {
        TagsOfFree(0);
      }
    }

    /** What the words of an entry of the free list say. */
    lemma TagsOfFree(i: nat)
      requires Consistent({}) && i < |freeList|
      ensures IsFreeIn(layout, freeList[i]) && 1 <= freeList[i] < mem.Length - 2
      ensures GetSize(freeList[i]) == 8 * layout[freeList[i]].words && !GetAlloc(freeList[i])
      ensures mem[freeList[i] + 2] == Entry(freeList, i + 1)
    {
      hide HasPrev;
      var a := freeList[i];
      assert a in freeList && LinkAt(mem[..], freeList, i) && HasTags(mem[..], a, layout[a]);
      PackRoundTrip(8 * layout[a].words, false);
    }

    /** What the tags of a block say. */
    lemma TagsOf(a: int, end: int, gone: set<int>)
      requires IsHeap(end, gone) && a in layout
      ensures 1 <= a && a + layout[a].words <= end < mem.Length && layout[a].words >= 4 && layout[a].words % 2 == 0
      ensures GetSize(a) == 8 * layout[a].words && GetAlloc(a) == layout[a].alloc
      ensures ExtractSize(mem[a + layout[a].words - 1]) == 8 * layout[a].words
    {
      hide HasPrev;
      assert HasTags(mem[..], a, layout[a]);
      PackRoundTrip(8 * layout[a].words, layout[a].alloc);
    }

    /** The position of the next header, which may be that of the epilogue. */
    method FindNext(a: int, ghost end: int, ghost gone: set<int>) returns (next: int)
      requires IsHeap(end, gone) && a in layout
      ensures next == Behind(layout, a) && 0 <= next < mem.Length
      ensures next in layout || next == end
      ensures GetAlloc(next) == !IsFreeIn(layout, next)
      ensures next in layout ==> GetSize(next) == 8 * layout[next].words && next + layout[next].words <= end
    {
      hide HasPrev;
      TagsOf(a, end, gone);
      next := a + GetSize(a) / WSIZE;
      NextBlock(layout, end, a);
      if next in layout {
        TagsOf(next, end, gone);
      } else {
        EndIsNoBlock(layout, end);
      }
    }

    /** The position of the header in front, or that of the prologue's footer. */
    method FindPrev(a: int, ghost end: int, ghost gone: set<int>) returns (prev: int)
      requires IsHeap(end, gone) && (a in layout || a == end)
      ensures if a == 1 then prev == 0 && prev !in layout else prev in layout && Behind(layout, prev) == a
      ensures 0 <= prev < mem.Length && GetAlloc(prev) == !IsFreeIn(layout, prev)
      ensures prev in layout ==> GetSize(prev) == 8 * layout[prev].words
    {
      var footer := a - 1;
      hide HeapOk, HasEnds, ExtractSize, ExtractAlloc;
      ghost var p := PrevTag(a, end, gone);
      var size := ExtractSize(mem[footer]);
      if size == 0 {
        prev := footer;
      } else {
        prev := a - size / WSIZE;
      }
    }

    /** The block in front and the footer that leads to it, or the prologue. */
    lemma PrevTag(a: int, end: int, gone: set<int>) returns (p: int)
      requires IsHeap(end, gone) && (a in layout || a == end)
      ensures 1 <= a <= end < mem.Length && 0 !in layout
      ensures a == 1 ==> GetAlloc(0) && ExtractSize(mem[0]) == 0
      ensures a != 1 ==> p in layout && Behind(layout, p) == a && 1 <= p && layout[p].words >= 4
      ensures a != 1 ==> ExtractSize(mem[a - 1]) == GetSize(p) == 8 * layout[p].words && GetAlloc(p) == layout[p].alloc
    {
      hide HasPrev, Tagged;
      if a in layout {
        BlockBounds(layout, end, a);
      }
      p := 0;
      if a != 1 {
        p := PrevBlock(layout, a);
        TagsOf(p, end, gone);
      }
    }

    /** Cuts what a live block has beyond `asize` off, if that is enough for a block. An `asize` too small
        for a block leaves a block of at most 32 bytes, or one that is marked as free again. */
    method SplitBlock(a: int, asize: nat)
      requires Valid() && IsLive(layout, a) && !IsFreeIn(layout, Behind(layout, a))
      requires asize % 16 == 0 && asize <= 8 * layout[a].words
      modifies this`freeListHead, this`freeList, this`layout, mem
      ensures asize >= MIN_BLOCK_SIZE ==>
                && Valid() && IsLive(layout, a) && asize <= 8 * layout[a].words < asize + MIN_BLOCK_SIZE
                && LiveKept(old(mem[..]), mem[..], old(layout), layout, a)
                && forall b :: IsLive(layout, b) <==> IsLive(old(layout), b)
      ensures asize < MIN_BLOCK_SIZE ==> 0 <= a < mem.Length && (GetAlloc(a) ==> GetSize(a) <= MIN_BLOCK_SIZE)
    {
      hide HasPrev, HeapOk, HasEnds, EndsKept, NoFreeNeighbours, LiveKept, BlocksFit;
      TagsOf(a, brk - 1, {});
      var blockSize := GetSize(a);
      var splitSize := blockSize - asize;
      if splitSize >= MIN_BLOCK_SIZE {
        if asize >= MIN_BLOCK_SIZE {
          CutOff(a, asize, splitSize);
        } else {
          CutShort(a, asize, splitSize);
        }
      } else {
        SameLive(mem[..], layout, a);
      }
    }

    /** The writes of split_block for a first part that is large enough for a block. */
    method CutOff(a: int, asize: nat, splitSize: nat)
      requires Valid() && IsLive(layout, a) && !IsFreeIn(layout, Behind(layout, a))
      requires asize % 16 == 0 && MIN_BLOCK_SIZE <= asize && MIN_BLOCK_SIZE <= splitSize == 8 * layout[a].words - asize
      modifies this`freeListHead, this`freeList, this`layout, mem
      ensures Valid() && IsLive(layout, a) && asize == 8 * layout[a].words
      ensures LiveKept(old(mem[..]), mem[..], old(layout), layout, a)
      ensures forall b :: IsLive(layout, b) <==> IsLive(old(layout), b)
    {
      hide HasPrev, HeapOk, HasEnds, EndsKept, ExtractSize, NoFreeNeighbours, LiveKept, BlocksFit;
      ghost var m, l, fl, end := mem[..], layout, freeList, brk - 1;
      TagsOf(a, end, {});
      CutLive(m, end, freeListHead, l, fl, a, asize / 8);
      SplitNeighboursOf(m, end, freeListHead, l, fl, a, asize / 8);
      WriteTags(a, asize, true);
      PackRoundTrip(asize, true);
      var nextBlock := a + GetSize(a) / WSIZE;
      WriteTags(nextBlock, splitSize, false);
      ghost var m1 := mem[..];
      EndsStay(m, m1, end);
      layout := Split(l, a, asize / 8);
      FitsIn(m1, end, freeListHead, layout, fl, {nextBlock});
      AttachBlock(nextBlock, end);
      EndsStay(m1, mem[..], end);
      LiveKeptBut(m1, mem[..], layout, layout, end, a);
      LiveKeptTrans(m, m1, mem[..], l, layout, layout, a);
    }

    /** The same writes for a first part of 16 bytes, or of none: the second part overlaps the first or
        starts where it does, and the heap is no longer well formed. */
    method CutShort(a: int, asize: nat, splitSize: nat)
      requires Valid() && IsLive(layout, a)
      requires (asize == 0 || asize == 16) && MIN_BLOCK_SIZE <= splitSize == 8 * layout[a].words - asize
      modifies this`freeListHead, this`freeList, mem
      ensures 0 <= a < mem.Length && (GetAlloc(a) ==> GetSize(a) == 16)
      ensures asize == 0 ==> !GetAlloc(a) && mem[a - 1] == Pack(0, true)
    {
      hide HasPrev, HeapOk, HasEnds, EndsKept, NoFreeNeighbours, BlocksFit, Tag, InsertLinks, ExtractSize, ExtractAlloc;
      TagsOf(a, brk - 1, {});
      FirstEntryApart(a);
      ShortParts(mem[..], freeList, a, asize / 8, splitSize / 8);
      PackRoundTrip(asize, true);
      PackRoundTrip(splitSize, false);
      WriteTags(a, asize, true);
      var nextBlock := a + GetSize(a) / WSIZE;
      WriteTags(nextBlock, splitSize, false);
      InsertBlock(nextBlock);
    }

    /** The head of the free list does not overlap a live block. */
    lemma FirstEntryApart(a: int)
      requires Valid() && IsLive(layout, a)
      ensures freeListHead == Entry(freeList, 0)
      ensures freeList != [] ==> 1 <= freeList[0] < mem.Length - 2 && (freeList[0] + 1 < a - 1 || a + layout[a].words <= freeList[0])
    {
      hide HasPrev, HeapOk, HasEnds, NoFreeNeighbours, BlocksFit, FreeExactly;
      FirstEntry();
      if freeList != [] {
        TagsOfFree(0);
        FitsIn(mem[..], brk - 1, freeListHead, layout, freeList, {});
        Apart(layout, brk - 1, a, freeList[0]);
      }
    }

    /** Puts the free block that the list lacks on it. */
    method AttachBlock(a: int, ghost end: int)
      requires HeapOk(mem[..], end, freeListHead, layout, freeList, {a}) && IsFreeIn(layout, a)
      modifies this`freeListHead, this`freeList, mem
      ensures HeapOk(mem[..], end, freeListHead, layout, freeList, {})
      ensures LiveKept(old(mem[..]), mem[..], layout, layout, NULL) && EndsKept(old(mem[..]), mem[..], end)
    {
      Attach(mem[..], end, freeListHead, layout, freeList, a);
      hide HeapOk, LiveKept, EndsKept, InsertLinks;
      InsertBlock(a);
    }

    /** Takes a free block off the list. */
    method DetachBlock(a: int, ghost k: nat, ghost gone: set<int>)
      requires HeapOk(mem[..], brk - 1, freeListHead, layout, freeList, gone) && k < |freeList| && freeList[k] == a
      modifies this`freeListHead, this`freeList, mem
      ensures HeapOk(mem[..], brk - 1, freeListHead, layout, freeList, gone + {a})
      ensures LiveKept(old(mem[..]), mem[..], layout, layout, NULL) && EndsKept(old(mem[..]), mem[..], brk - 1)
    {
      Detach(mem[..], brk - 1, freeListHead, layout, freeList, gone, k);
      assert Linked(mem[..], freeListHead, freeList);
      hide HeapOk, LiveKept, EndsKept, RemoveLinks, Linked;
      RemoveBlock(a, k);
    }

    lemma InList(a: int) returns (k: nat)
      requires Consistent({}) && IsFreeIn(layout, a)
      ensures k < |freeList| && freeList[k] == a
    {
      hide HasPrev;
      assert a in freeList;
      k :| 0 <= k < |freeList| && freeList[k] == a;
    }

    lemma InListBut(a: int, gone: int) returns (k: nat)
      requires Consistent({gone}) && IsFreeIn(layout, a) && a != gone
      ensures k < |freeList| && freeList[k] == a
    {
      hide HasPrev;
      assert a in freeList;
      k :| 0 <= k < |freeList| && freeList[k] == a;
    }

    /** Joins a free block with the free ones around it. */
    method CoalesceBlock(a: int) returns (coalesced: int)
      requires Consistent({}) && IsFreeIn(layout, a) && NoFreeNeighboursBut(layout, a)
      modifies this`freeListHead, this`freeList, this`layout, mem
      ensures Valid() && LiveKept(old(mem[..]), mem[..], old(layout), layout, NULL)
      ensures forall b :: IsLive(layout, b) <==> IsLive(old(layout), b)
      ensures IsFreeIn(layout, coalesced) && coalesced <= a < Behind(layout, coalesced)
    {
      hide HasPrev, HeapOk, HasEnds, NoFreeNeighbours, NoFreeNeighboursBut, NoFreeInFront, LiveKept, BlocksFit;
      var blockBefore := FindPrev(a, brk - 1, {});
      var blockAfter := FindNext(a, brk - 1, {});
      ghost var m, l, end := mem[..], layout, brk - 1;
      FitsIn(m, end, freeListHead, l, freeList, {});
      BlockBounds(l, end, a);
      if !GetAlloc(blockBefore) && GetAlloc(blockAfter) {
        JoinFront(a, blockBefore);
        coalesced := blockBefore;
      } else if GetAlloc(blockBefore) && !GetAlloc(blockAfter) {
        OnePrev(l, end, blockBefore, a);
        JoinBehind(a, blockAfter);
        coalesced := a;
      } else if !GetAlloc(blockBefore) && !GetAlloc(blockAfter) {
        JoinAll(a, blockBefore, blockAfter);
        coalesced := blockBefore;
      } else {
        OnePrev(l, end, blockBefore, a);
        HeapSteps.Settled(l, a);
        SameLive(m, l, NULL);
        coalesced := a;
      }
    }

    method JoinFront(a: int, blockBefore: int)
      requires Consistent({}) && NoFreeNeighboursBut(layout, a) && IsFreeIn(layout, a) && IsFreeIn(layout, blockBefore)
      requires Behind(layout, blockBefore) == a && !IsFreeIn(layout, Behind(layout, a))
      modifies this`freeListHead, this`freeList, this`layout, mem
      ensures Valid() && LiveKept(old(mem[..]), mem[..], old(layout), layout, NULL)
      ensures (forall b :: IsLive(layout, b) <==> IsLive(old(layout), b)) && IsFreeIn(layout, blockBefore)
      ensures layout[blockBefore].words == old(layout[blockBefore].words + layout[a].words)
    {
      hide HasPrev, HeapOk, HasEnds, EndsKept, ExtractSize, NoFreeNeighbours, NoFreeNeighboursBut, LiveKept, BlocksFit;
      ghost var m, l, end := mem[..], layout, brk - 1;
      FitsIn(m, end, freeListHead, l, freeList, {});
      ghost var k := InList(a);
      DetachBlock(a, k, {});
      assert {} + {a} == {a};
      ghost var m1 := mem[..];
      EndsStay(m, m1, end);
      TagsOf(blockBefore, brk - 1, {a});
      TagsOf(a, brk - 1, {a});
      Join(m1, end, freeListHead, l, freeList, blockBefore, a);
      JoinedBefore(l, end, blockBefore, a);
      var newSize := GetSize(blockBefore) + GetSize(a);
      WriteTags(blockBefore, newSize, false);
      layout := Merge(l, blockBefore, a);
      MergeKeepsLive(l, blockBefore, a);
      EndsStay(m1, mem[..], end);
      LiveKeptTrans(m, m1, mem[..], l, l, layout, NULL);
    }

    method JoinBehind(a: int, blockAfter: int)
      requires Consistent({}) && NoFreeNeighboursBut(layout, a) && IsFreeIn(layout, a) && IsFreeIn(layout, blockAfter)
      requires Behind(layout, a) == blockAfter && NoFreeInFront(layout, a)
      modifies this`freeListHead, this`freeList, this`layout, mem
      ensures Valid() && LiveKept(old(mem[..]), mem[..], old(layout), layout, NULL)
      ensures (forall b :: IsLive(layout, b) <==> IsLive(old(layout), b)) && IsFreeIn(layout, a)
      ensures layout[a].words == old(layout[a].words + layout[blockAfter].words)
    {
      hide HasPrev, HeapOk, HasEnds, EndsKept, ExtractSize, NoFreeNeighbours, NoFreeNeighboursBut, NoFreeInFront, LiveKept, BlocksFit;
      ghost var m, l, end := mem[..], layout, brk - 1;
      FitsIn(m, end, freeListHead, l, freeList, {});
      ghost var k := InList(blockAfter);
      DetachBlock(blockAfter, k, {});
      assert {} + {blockAfter} == {blockAfter};
      ghost var m1 := mem[..];
      EndsStay(m, m1, end);
      TagsOf(a, brk - 1, {blockAfter});
      TagsOf(blockAfter, brk - 1, {blockAfter});
      Join(m1, end, freeListHead, l, freeList, a, blockAfter);
      JoinedAfter(l, end, a, blockAfter);
      var newSize := GetSize(a) + GetSize(blockAfter);
      WriteTags(a, newSize, false);
      layout := Merge(l, a, blockAfter);
      MergeKeepsLive(l, a, blockAfter);
      EndsStay(m1, mem[..], end);
      LiveKeptTrans(m, m1, mem[..], l, l, layout, NULL);
    }

    method JoinAll(a: int, blockBefore: int, blockAfter: int)
      requires Consistent({}) && NoFreeNeighboursBut(layout, a)
      requires IsFreeIn(layout, a) && IsFreeIn(layout, blockBefore) && IsFreeIn(layout, blockAfter)
      requires Behind(layout, blockBefore) == a && Behind(layout, a) == blockAfter
      modifies this`freeListHead, this`freeList, this`layout, mem
      ensures Valid() && LiveKept(old(mem[..]), mem[..], old(layout), layout, NULL)
      ensures (forall b :: IsLive(layout, b) <==> IsLive(old(layout), b)) && IsFreeIn(layout, blockBefore)
      ensures layout[blockBefore].words == old(layout[blockBefore].words + layout[a].words + layout[blockAfter].words)
    {
      hide HasPrev, HeapOk, HasEnds, EndsKept, NoFreeNeighbours, NoFreeNeighboursBut, LiveKept, BlocksFit, Merge, ExtractSize;
      ghost var m, l, end := mem[..], layout, brk - 1;
      TilesOf(m, end, freeListHead, l, freeList, {});
      JoinedBoth(l, end, blockBefore, a, blockAfter);
      TagsOf(blockBefore, brk - 1, {});
      TagsOf(a, brk - 1, {});
      TagsOf(blockAfter, brk - 1, {});
      var newSize := GetSize(blockBefore) + GetSize(a) + GetSize(blockAfter);
      ghost var k := InList(a);
      DetachBlock(a, k, {});
      assert {} + {a} == {a};
      ghost var m1 := mem[..];
      EndsStay(m, m1, end);
      k := InListBut(blockAfter, a);
      DetachBlock(blockAfter, k, {a});
      assert {a} + {blockAfter} == {a, blockAfter};
      ghost var m2 := mem[..];
      EndsStay(m1, m2, end);
      JoinBoth(m2, end, freeListHead, l, freeList, blockBefore, a, blockAfter);
      WriteTags(blockBefore, newSize, false);
      MergeKeepsLive(l, blockBefore, a);
      MergeKeepsLive(Merge(l, blockBefore, a), blockBefore, blockAfter);
      layout := Merge(Merge(l, blockBefore, a), blockBefore, blockAfter);
      EndsStay(m2, mem[..], end);
      LiveKeptTrans(m, m1, m2, l, l, l, NULL);
      LiveKeptTrans(m, m2, mem[..], l, l, layout, NULL);
    }

    /** Grows the heap by at least `size` bytes, which become part of a free block; NULL if mem_sbrk fails. */
    method ExtendHeap(size: nat) returns (block: int)
      requires Valid() && size + 15 < SIZE_LIMIT
      modifies this, mem
      ensures var words := if size <= 16 then 4 else RoundUp(size) / 8;
              if old(brk) + words > mem.Length then block == NULL && brk == old(brk) && layout == old(layout) && mem[..] == old(mem[..])
              else
                && block != NULL && IsFreeIn(layout, block) && brk == old(brk) + words && Behind(layout, block) == brk - 1
                && GrowsAt(old(layout), old(brk) - 1, block) && SameBut(old(layout), layout, block)
      ensures Valid() && LiveKept(old(mem[..]), mem[..], old(layout), layout, NULL)
      ensures forall b :: IsLive(layout, b) <==> IsLive(old(layout), b)
    {
      hide HasPrev, HeapOk, NoFreeNeighbours, NoFreeInFront, LiveKept, BlocksFit, SameBut;
      var adjusted := RoundUp(size);
      if adjusted < MIN_BLOCK_SIZE {
        adjusted := MIN_BLOCK_SIZE;
      }
      SameLive(mem[..], layout, NULL);
      ghost var end := brk - 1;
      var bp := MemSbrk(adjusted / WSIZE);
      if bp == -1 {
        return NULL;
      }
      var newBlock := bp - 1;
      var lastBlock := FindPrev(newBlock, end, {});
      FitsIn(mem[..], end, freeListHead, layout, freeList, {});
      if !GetAlloc(lastBlock) {
        BlockBounds(layout, end, lastBlock);
        GrowLastBlock(lastBlock, adjusted, end);
        block := lastBlock;
      } else {
        OnePrev(layout, end, lastBlock, newBlock);
        AddLastBlock(newBlock, adjusted);
        block := newBlock;
      }
    }

    /** The new words become part of the free block in front of them. */
    method GrowLastBlock(lastBlock: int, size: nat, ghost end: int)
      requires IsHeap(end, {}) && NoFreeNeighbours(layout) && IsFreeIn(layout, lastBlock) && Behind(layout, lastBlock) == end
      requires size % 16 == 0 && size >= MIN_BLOCK_SIZE && 1 <= end && end + size / 8 == brk - 1 < mem.Length
      modifies this`layout, mem
      ensures Valid() && LiveKept(old(mem[..]), mem[..], old(layout), layout, NULL)
      ensures IsFreeIn(layout, lastBlock) && Behind(layout, lastBlock) == brk - 1 && SameBut(old(layout), layout, lastBlock)
      ensures forall b :: IsLive(layout, b) <==> IsLive(old(layout), b)
    {
      hide HasPrev, HeapOk, NoFreeNeighbours, LiveKept, BlocksFit;
      ghost var m, l, words := mem[..], layout, size / 8;
      TagsOf(lastBlock, end, {});
      GrowLast(m, end, freeListHead, l, freeList, lastBlock, words);
      GrownNeighbours(m, end, freeListHead, l, freeList, lastBlock, words);
      var lastSize := GetSize(lastBlock);
      WriteTags(lastBlock, lastSize + size, false);
      layout := Grow(l, lastBlock, words);
      ghost var m1 := mem[..];
      PackRoundTrip(lastSize + size, false);
      var epilogue := lastBlock + GetSize(lastBlock) / WSIZE;
      WriteEpilogue(m1, brk - 1, freeListHead, layout, freeList, {});
      mem[epilogue] := Pack(0, true);
      LiveKeptTrans(m, m1, mem[..], l, layout, layout, NULL);
    }

    /** The new words become a free block of their own. */
    method AddLastBlock(newBlock: int, size: nat)
      requires IsHeap(newBlock, {}) && NoFreeNeighbours(layout) && NoFreeInFront(layout, newBlock)
      requires size % 16 == 0 && size >= MIN_BLOCK_SIZE && 1 <= newBlock && newBlock + size / 8 == brk - 1 < mem.Length
      modifies this`layout, this`freeList, this`freeListHead, mem
      ensures Valid() && LiveKept(old(mem[..]), mem[..], old(layout), layout, NULL)
      ensures IsFreeIn(layout, newBlock) && Behind(layout, newBlock) == brk - 1 && SameBut(old(layout), layout, newBlock)
      ensures forall b :: IsLive(layout, b) <==> IsLive(old(layout), b)
    {
      hide HasPrev, HeapOk, NoFreeNeighbours, NoFreeInFront, LiveKept, BlocksFit;
      ghost var m, l, words, end := mem[..], layout, size / 8, newBlock;
      NewLast(m, end, freeListHead, l, freeList, words);
      AppendedNeighbours(m, end, freeListHead, l, freeList, words);
      WriteTags(newBlock, size, false);
      layout := Append(l, end, words);
      ghost var m1 := mem[..];
      AttachBlock(newBlock, brk - 1);
      ghost var m2 := mem[..];
      FitsIn(m2, brk - 1, freeListHead, layout, freeList, {});
      TagOfNew(m2, brk - 1, freeListHead, layout, freeList, newBlock);
      var epilogue := newBlock + GetSize(newBlock) / WSIZE;
      WriteEpilogue(m2, brk - 1, freeListHead, layout, freeList, {});
      mem[epilogue] := Pack(0, true);
      LiveKeptTrans(m, m1, m2, l, layout, layout, NULL);
      LiveKeptTrans(m, m2, mem[..], l, layout, layout, NULL);
    }

    /** Sets up an empty heap with one free block; -1 if there is not enough room. */
    method Init() returns (status: int)
      requires brk == 0
      modifies this, mem
      ensures if mem.Length < 514 then status == -1
              else status == 0 && Valid() && brk == 514 && forall b :: !IsLive(layout, b)
    {
      hide HeapOk, HasEnds, NoFreeNeighbours, LiveKept;
      freeListHead := NULL;
      var start := MemSbrk(2);
      if start == -1 {
        return -1;
      }
      mem[start] := Pack(0, true);
      mem[start + 1] := Pack(0, true);
      layout, freeList := map[], [];
      EmptyHeap(mem[..]);
      var freeBlock := ExtendHeap(CHUNKSIZE);
      if freeBlock == NULL {
        return -1;
      }
      status := 0;
    }

    lemma HeapFits()
      requires Valid()
      ensures Consistent({}) && 2 <= brk <= mem.Length && BlocksFit(layout, brk - 1)
    {
      FitsIn(mem[..], brk - 1, freeListHead, layout, freeList, {});
    }

    /** Allocates a block with at least `size` bytes of payload; the result is the position of its payload.
        For the greatest sizes the block size wraps around, and what is returned is a block of at most 32
        bytes, or one that is marked as free. */
    method Malloc(size: nat) returns (bp: int)
      requires Valid() && size < SIZE_LIMIT
      modifies this, mem
      ensures size < SIZE_LIMIT - 31 || bp == NULL ==>
                && Valid() && LiveKept(old(mem[..]), mem[..], old(layout), layout, NULL)
                && forall b :: IsLive(layout, b) <==> IsLive(old(layout), b) || (bp != NULL && b == bp - 1)
      ensures size < SIZE_LIMIT - 31 && bp != NULL ==>
                && size > 0 && !IsLive(old(layout), bp - 1) && bp % 2 == 0 && size <= 8 * (WordsOf(layout, bp - 1) - 2)
                && 8 * WordsOf(layout, bp - 1) <= AdjustedSize(size) + 16
      ensures bp == NULL && size > 0 ==>
                IsBestFit(layout, AdjustedSize(size), NULL) && brk + 512 > mem.Length
      ensures size > 0 && !IsBestFit(old(layout), AdjustedSize(size), NULL) ==>
                && bp != NULL && brk == old(brk)
                && IsBestFit(old(layout), AdjustedSize(size), bp - 1)
      ensures bp != NULL && IsBestFit(old(layout), AdjustedSize(size), NULL) ==>
                && GrowsAt(old(layout), old(brk) - 1, bp - 1)
                && (size < SIZE_LIMIT - 31 ==> bp - 1 <= old(brk) - 1 < bp - 1 + AdjustedSize(size) / WSIZE)
      ensures size >= SIZE_LIMIT - 31 && bp != NULL ==>
                1 <= bp <= mem.Length && (GetAlloc(bp - 1) ==> GetSize(bp - 1) <= MIN_BLOCK_SIZE)
      ensures old(brk) <= brk && (brk - old(brk)) % 512 == 0
      ensures bp != NULL && brk > old(brk) && size < SIZE_LIMIT - 31 ==> bp - 1 + AdjustedSize(size) / WSIZE > brk - 1 - 512
      decreases mem.Length - brk, 1
    {
      hide HasPrev, HeapOk, NoFreeNeighbours, LiveKept, BlocksFit, IsBestFit, GrowsAt, SameBut, AdjustedSize, RoundUp, HasEnds, ExtractSize, ExtractAlloc, IsFreeIn;
      HeapFits();
      if size == 0 {
        SameLive(mem[..], layout, NULL);
        return NULL;
      }
      AdjustedSizeIsEnough(size);
      var asize := AdjustedSize(size);
      ghost var l := layout;
      var allocBlock, k := FindFit(asize);
      if allocBlock == NULL {
        bp := MallocGrown(size);
        return;
      }
      BestIsFree(l, asize, allocBlock);
      HandOut(allocBlock, asize, k);
      bp := allocBlock + 1;
    }

    /** What malloc does when no block fits: it grows the heap by a chunk and starts again. */
    method MallocGrown(size: nat) returns (bp: int)
      requires Valid() && 0 < size < SIZE_LIMIT && IsBestFit(layout, AdjustedSize(size), NULL)
      modifies this, mem
      ensures size < SIZE_LIMIT - 31 || bp == NULL ==>
                && Valid() && LiveKept(old(mem[..]), mem[..], old(layout), layout, NULL)
                && forall b :: IsLive(layout, b) <==> IsLive(old(layout), b) || (bp != NULL && b == bp - 1)
      ensures size < SIZE_LIMIT - 31 && bp != NULL ==>
                && !IsLive(old(layout), bp - 1) && bp % 2 == 0 && size <= 8 * (WordsOf(layout, bp - 1) - 2)
                && 8 * WordsOf(layout, bp - 1) <= AdjustedSize(size) + 16
      ensures bp == NULL ==> IsBestFit(layout, AdjustedSize(size), NULL) && brk + 512 > mem.Length
      ensures bp != NULL ==>
                && GrowsAt(old(layout), old(brk) - 1, bp - 1)
                && (size < SIZE_LIMIT - 31 ==> bp - 1 <= old(brk) - 1 < bp - 1 + AdjustedSize(size) / WSIZE)
      ensures size >= SIZE_LIMIT - 31 && bp != NULL ==>
                1 <= bp <= mem.Length && (GetAlloc(bp - 1) ==> GetSize(bp - 1) <= MIN_BLOCK_SIZE)
      ensures old(brk) <= brk && (brk - old(brk)) % 512 == 0
      ensures bp != NULL && size < SIZE_LIMIT - 31 ==> bp - 1 + AdjustedSize(size) / WSIZE > brk - 1 - 512
      decreases mem.Length - brk, 0
    {
      hide Allocator.Valid, Allocator.Consistent, LiveKept, BlocksFit, IsBestFit, GrowsAt, SameBut, AdjustedSize, RoundUp, HasEnds, ExtractSize, ExtractAlloc, IsFreeIn, IsLive;
      HeapFits();
      AdjustedSizeIsEnough(size);
      ghost var m, l, end, asize := mem[..], layout, brk - 1, AdjustedSize(size);
      ChunkIsRound();
      var extended := ExtendHeap(CHUNKSIZE);
      if extended == NULL {
        return NULL;
      }
      ghost var m1, l1, end1 := mem[..], layout, brk - 1;
      HeapFits();
      bp := Malloc(size);
      if bp == NULL || size < SIZE_LIMIT - 31 {
        LiveKeptTrans(m, m1, mem[..], l, l1, layout, NULL);
      }
      if bp != NULL {
        GrownFit(l, end, l1, end1, asize, extended, bp - 1);
        if size < SIZE_LIMIT - 31 {
          GrownEnd(l, end, bp - 1, asize / WSIZE);
        }
      }
    }

    /** Makes a free block live and cuts off what it has beyond `asize`. */
    method HandOut(allocBlock: int, asize: nat, ghost k: nat)
      requires Valid() && k < |freeList| && freeList[k] == allocBlock && IsFreeIn(layout, allocBlock)
      requires asize % 16 == 0 && asize <= 8 * layout[allocBlock].words
      modifies this`freeListHead, this`freeList, this`layout, mem
      ensures asize >= MIN_BLOCK_SIZE ==>
                && Valid() && LiveKept(old(mem[..]), mem[..], old(layout), layout, NULL)
                && (forall b :: IsLive(layout, b) <==> IsLive(old(layout), b) || b == allocBlock)
                && 1 <= allocBlock && allocBlock % 2 == 1 && asize <= 8 * WordsOf(layout, allocBlock) <= asize + 16
      ensures asize < MIN_BLOCK_SIZE ==>
                0 <= allocBlock < mem.Length && (GetAlloc(allocBlock) ==> GetSize(allocBlock) <= MIN_BLOCK_SIZE)
    {
      hide HasPrev, HeapOk, NoFreeNeighbours, LiveKept, BlocksFit, HasEnds;
      ghost var m, l := mem[..], layout;
      Place(allocBlock, k);
      ghost var m1, l1 := mem[..], layout;
      SplitBlock(allocBlock, asize);
      if asize >= MIN_BLOCK_SIZE {
        LiveKeptOfNew(m, m1, mem[..], l, l1, layout, allocBlock);
        OddPosition(mem[..], brk - 1, freeListHead, layout, freeList, allocBlock);
      }
    }

    /** A client writes to word `i` of the payload at `bp`. */
    method Store(bp: int, i: nat, v: nat)
      requires Valid() && IsLive(layout, bp - 1) && i < WordsOf(layout, bp - 1) - 2
      modifies mem
      ensures Valid() && 0 <= bp && bp + i < mem.Length && mem[..] == old(mem[..])[bp + i := v]
    {
      hide HasPrev, HeapOk, HasEnds, NoFreeNeighbours, BlocksFit;
      StorePayload(mem[..], brk - 1, freeListHead, layout, freeList, bp - 1, bp + i, v);
      ghost var m := mem[..];
      mem[bp + i] := v;
      assert mem[..] == m[bp + i := v];
      EndsStay(m, mem[..], brk - 1);
    }

    /** Takes a free block off the list and marks it as allocated. */
    method Place(allocBlock: int, ghost k: nat)
      requires Valid() && k < |freeList| && freeList[k] == allocBlock && IsFreeIn(layout, allocBlock)
      modifies this`freeListHead, this`freeList, this`layout, mem
      ensures Valid() && LiveKept(old(mem[..]), mem[..], old(layout), layout, NULL)
      ensures layout == Retag(old(layout), allocBlock, true) && !IsFreeIn(layout, Behind(layout, allocBlock))
    {
      hide HasPrev, HeapOk, LiveKept, BlocksFit;
      ghost var m, l, end := mem[..], layout, brk - 1;
      assert !IsFreeIn(l, Behind(l, allocBlock));
      hide NoFreeNeighbours;
      DetachBlock(allocBlock, k, {});
      assert {} + {allocBlock} == {allocBlock};
      ghost var m1 := mem[..];
      TagsOf(allocBlock, end, {allocBlock});
      Occupy(m1, end, freeListHead, l, freeList, allocBlock);
      var blockSize := GetSize(allocBlock);
      WriteTags(allocBlock, blockSize, true);
      layout := Retag(l, allocBlock, true);
      LiveKeptTrans(m, m1, mem[..], l, l, layout, NULL);
    }

    /** Frees a block. NULL is ignored; for a block that is free already, or the dummy blocks at the
        ends, the code only reports an error. */
    method Free(bp: int)
      requires Valid() && (bp == NULL || bp - 1 in layout || bp - 1 == 0 || bp - 1 == brk - 1)
      modifies this`freeListHead, this`freeList, this`layout, mem
      ensures Valid()
      ensures bp == NULL || !IsLive(old(layout), bp - 1) ==>
                mem[..] == old(mem[..]) && layout == old(layout) && freeList == old(freeList)
      ensures bp != NULL && IsLive(old(layout), bp - 1) ==>
                && LiveKept(old(mem[..]), mem[..], old(layout), layout, bp - 1)
                && forall b :: IsLive(layout, b) <==> IsLive(old(layout), b) && b != bp - 1
    {
      hide HasPrev, HeapOk, NoFreeNeighbours, NoFreeNeighboursBut, LiveKept, BlocksFit;
      if bp == NULL {
        NoBlockAtMinusOne(mem[..], brk - 1, freeListHead, layout, freeList);
        return;
      }
      var toFree := bp - 1;
      ghost var m, l, end := mem[..], layout, brk - 1;
      FitsIn(m, end, freeListHead, l, freeList, {});
      if toFree in l {
        TagsOf(toFree, end, {});
      } else {
        PackRoundTrip(0, true);
      }
      if GetAlloc(toFree) == false {
        return;
      }
      if GetSize(toFree) == 0 {
        return;
      }
      Release(m, end, freeListHead, l, freeList, toFree);
      ReleasedNeighbours(l, toFree);
      WriteTags(toFree, GetSize(toFree), false);
      layout := Retag(l, toFree, false);
      ghost var m1 := mem[..];
      AttachBlock(toFree, end);
      ghost var m2, l1 := mem[..], layout;
      FitsIn(m2, end, freeListHead, l1, freeList, {});
      var coalesced := CoalesceBlock(toFree);
      LiveKeptBut(m1, m2, l1, l1, end, toFree);
      LiveKeptBut(m2, mem[..], l1, layout, end, toFree);
      LiveKeptTrans(m, m1, m2, l, l1, l1, toFree);
      LiveKeptTrans(m, m2, mem[..], l, l1, layout, toFree);
    }
  }

  /** The header of a block after it has been cut into a first part of `words` words, at most two, and the rest. */
  lemma ShortParts(m: seq<nat>, fl: seq<int>, a: nat, words: nat, rest: nat)
    requires words == 0 || words == 2
    requires 1 <= a && rest >= 4 && a + words + rest <= |m|
    requires fl != [] ==> 1 <= fl[0] < |m| - 2 && (fl[0] + 1 < a - 1 || a + words + rest <= fl[0])
    ensures var m1 := Tag(m, a, words, true);
            var m2 := InsertLinks(Tag(m1, a + words, rest, false), fl, a + words);
            && m1[a] == Pack(8 * words, true)
            && m2[a] == (if words == 0 then Pack(8 * rest, false) else m1[a])
            && (words == 0 ==> m2[a - 1] == Pack(0, true))
  {
  }

  lemma EmptyHeap(m: seq<nat>)
    requires 2 <= |m| && m[0] == Pack(0, true) && m[1] == Pack(0, true)
    ensures HasEnds(m, 1) && HeapOk(m, 1, NULL, map[], [], {}) && NoFreeNeighbours(map[])
  {
  }

  lemma EndsStay(m: seq<nat>, m': seq<nat>, end: int)
    requires HasEnds(m, end) && EndsKept(m, m', end)
    ensures HasEnds(m', end)
  {
  }

  lemma BestIsFree(l: Layout, asize: nat, best: int)
    requires IsBestFit(l, asize, best) && best != NULL
    ensures IsFreeIn(l, best) && best in l && 8 * l[best].words >= asize && !IsBestFit(l, asize, NULL) && !IsLive(l, best)
  {
  }

  /** Making a free block live and then cutting it keeps all blocks that were live before. */
  lemma LiveKeptOfNew(m0: seq<nat>, m1: seq<nat>, m2: seq<nat>, l0: Layout, l1: Layout, l2: Layout, a: int)
    requires LiveKept(m0, m1, l0, l1, NULL) && LiveKept(m1, m2, l1, l2, a) && !IsLive(l0, a)
    ensures LiveKept(m0, m2, l0, l2, NULL)
  {
    forall b | IsLive(l0, b) && b != NULL
      ensures b in l2 && l2[b] == l0[b] && PayloadKept(m0, m2, l0, b)
    {
      assert PayloadKept(m0, m1, l0, b) && PayloadKept(m1, m2, l1, b);
    }
  }

  lemma OddPosition(m: seq<nat>, end: int, head: int, l: Layout, fl: seq<int>, a: int)
    requires HeapOk(m, end, head, l, fl, {}) && a in l
    ensures 1 <= a && a % 2 == 1 && l[a].words % 2 == 0
  {
    hide HasPrev;
  }

  lemma NoBlockAtMinusOne(m: seq<nat>, end: int, head: int, l: Layout, fl: seq<int>)
    requires HeapOk(m, end, head, l, fl, {})
    ensures -1 !in l
  {
    hide HasPrev;
  }

  lemma GrownNeighbours(m: seq<nat>, end: int, head: int, l: Layout, fl: seq<int>, p: int, words: int)
    requires HeapOk(m, end, head, l, fl, {}) && NoFreeNeighbours(l) && IsFreeIn(l, p) && Behind(l, p) == end && words > 0
    ensures NoFreeNeighbours(Grow(l, p, words))
  {
    hide HasPrev;
    var l' := Grow(l, p, words);
    forall x | IsFreeIn(l', x)
      ensures !IsFreeIn(l', Behind(l', x))
    {
      BlockBounds(l, end, x);
      if x == p {
        if Behind(l', p) in l {
          BlockBounds(l, end, Behind(l', p));
        }
      } else {
        assert Behind(l', x) == Behind(l, x);
      }
    }
  }

  lemma AppendedNeighbours(m: seq<nat>, end: int, head: int, l: Layout, fl: seq<int>, words: int)
    requires HeapOk(m, end, head, l, fl, {}) && NoFreeNeighbours(l) && NoFreeInFront(l, end) && words > 0
    ensures NoFreeNeighbours(Append(l, end, words))
    ensures forall b :: IsLive(Append(l, end, words), b) <==> IsLive(l, b)
  {
    hide HasPrev;
    var l' := Append(l, end, words);
    FitsIn(m, end, head, l, fl, {});
    forall x | IsFreeIn(l', x)
      ensures !IsFreeIn(l', Behind(l', x))
    {
      if x == end {
        if end + words in l {
          BlockBounds(l, end, end + words);
        }
      } else {
        assert Behind(l', x) == Behind(l, x);
      }
    }
  }

  lemma TagOfNew(m: seq<nat>, end: int, head: int, l: Layout, fl: seq<int>, a: int)
    requires HeapOk(m, end, head, l, fl, {}) && IsFreeIn(l, a)
    ensures 1 <= a < |m| && ExtractSize(m[a]) == 8 * l[a].words
  {
    hide HasPrev;
    assert HasTags(m, a, l[a]);
    PackRoundTrip(8 * l[a].words, false);
  }

  lemma EndIsNoBlock(l: Layout, end: int)
    requires BlocksFit(l, end)
    ensures end !in l
  {
  }

  lemma SameLive(m: seq<nat>, l: Layout, a: int)
    ensures LiveKept(m, m, l, l, a)
  {
  }

  lemma SplitNeighboursOf(m: seq<nat>, end: int, head: int, l: Layout, fl: seq<int>, a: int, words: int)
    requires HeapOk(m, end, head, l, fl, {}) && IsLive(l, a) && 4 <= words <= l[a].words - 4
    requires NoFreeNeighbours(l) && !IsFreeIn(l, Behind(l, a))
    ensures NoFreeNeighbours(Split(l, a, words))
  {
    hide HasPrev;
    SplitNeighbours(l, end, a, words);
  }

  lemma TilesOf(m: seq<nat>, end: int, head: int, l: Layout, fl: seq<int>, gone: set<int>)
    requires HeapOk(m, end, head, l, fl, gone)
    ensures Tiles(l, end)
  {
  }
}
