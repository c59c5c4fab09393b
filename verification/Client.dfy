/** Whole histories of a client that allocates, stores and frees: what it can rely on. */
module Clients {
  import opened Allocators
  import opened HeapLayout
  import opened HeapSteps

  /** What a client does: ask for `size` bytes, return what its request number `h` got, or store into a word of it. */
  datatype Request = Ask(size: nat) | Return(h: nat) | Write(h: nat, i: nat, v: nat)

  /** What the client has for one request: nothing, or a payload, with the words last stored there. */
  datatype Holding = Nothing | Held(bp: int, size: nat, words: map<nat, nat>)

  predicate Holds(hs: seq<Holding>, h: nat) {
    h < |hs| && hs[h].Held?
  }

  /** The client may store into whole words of the size it asked for. */
  predicate MayWrite(hs: seq<Holding>, h: nat, i: nat) {
    Holds(hs, h) && 8 * i + 8 <= hs[h].size
  }

  /** What the client has after a request with the answer `bp`.  A client that returns or writes what it
      does not hold breaks the rules of malloc; such a request is taken to be left out. */
  function After(hs: seq<Holding>, r: Request, bp: int): seq<Holding> {
    match r
    case Ask(size) => hs + [if bp == NULL then Nothing else Held(bp, size, map[])]
    case Return(h) => if Holds(hs, h) then hs[h := Nothing] else hs
    case Write(h, i, v) => if MayWrite(hs, h, i) then hs[h := hs[h].(words := hs[h].words[i := v])] else hs
  }

  /** What the client has after a whole history. */
  ghost function Holdings(rs: seq<Request>, answers: seq<int>): seq<Holding>
    requires |rs| == |answers|
  {
    if rs == [] then []
    else After(Holdings(rs[..|rs| - 1], answers[..|rs| - 1]), rs[|rs| - 1], answers[|rs| - 1])
  }

  /** The payload of a holding is a live block with room for what was asked for, at an even word, in which
      every word holds what was last stored in it. */
  ghost predicate IsServed(x: Holding, m: seq<nat>, l: Layout) {
    x.Held? ==>
      && 1 <= x.bp && x.bp % 2 == 0 && IsLive(l, x.bp - 1) && x.bp + WordsOf(l, x.bp - 1) - 2 <= |m|
      && x.size <= 8 * (WordsOf(l, x.bp - 1) - 2)
      && forall i :: i in x.words ==> 8 * i + 8 <= x.size && m[x.bp + i] == x.words[i]
  }

  ghost predicate EachIsServed(hs: seq<Holding>, m: seq<nat>, l: Layout) {
    forall h :: 0 <= h < |hs| ==> IsServed(hs[h], m, l)
  }

  /** The block of a holding. */
  ghost predicate HasBlock(hs: seq<Holding>, h: int, a: int) {
    0 <= h < |hs| && hs[h].Held? && hs[h].bp == a + 1
  }

  ghost predicate AreDifferent(hs: seq<Holding>) {
    forall h, k, a :: HasBlock(hs, h, a) && HasBlock(hs, k, a) ==> h == k
  }

  ghost predicate AllAreHeld(hs: seq<Holding>, l: Layout) {
    forall a :: IsLive(l, a) ==> exists h :: HasBlock(hs, h, a)
  }

  /** All holdings are served, by different blocks, and every live block is held. */
  ghost predicate AllServed(hs: seq<Holding>, m: seq<nat>, l: Layout) {
    EachIsServed(hs, m, l) && AreDifferent(hs) && AllAreHeld(hs, l)
  }

  /** Different holdings share no word. */
  lemma HoldingsAreApart(hs: seq<Holding>, m: seq<nat>, l: Layout, end: int, h: nat, k: nat)
    requires EachIsServed(hs, m, l) && AreDifferent(hs) && BlocksFit(l, end)
    requires h < |hs| && k < |hs| && h != k && hs[h].Held? && hs[k].Held?
    ensures hs[h].bp + WordsOf(l, hs[h].bp - 1) - 2 < hs[k].bp || hs[k].bp + WordsOf(l, hs[k].bp - 1) - 2 < hs[h].bp
  {
    hide BlocksFit;
    var a, b := hs[h].bp - 1, hs[k].bp - 1;
    assert IsServed(hs[h], m, l) && IsServed(hs[k], m, l);
    assert HasBlock(hs, h, a) && HasBlock(hs, k, b);
    Apart(l, end, a, b);
  }

  lemma KeptIsServed(x: Holding, m: seq<nat>, m': seq<nat>, l: Layout, l': Layout, freed: int)
    requires IsServed(x, m, l) && LiveKept(m, m', l, l', freed) && |m| == |m'| && (x.Held? ==> x.bp - 1 != freed)
    ensures IsServed(x, m', l')
  {
    if x.Held? {
      assert PayloadKept(m, m', l, x.bp - 1);
    }
  }

  lemma LiveHasHolder(hs: seq<Holding>, l: Layout, a: int) returns (h: nat)
    requires AllAreHeld(hs, l) && IsLive(l, a)
    ensures HasBlock(hs, h, a)
  {
    var k :| HasBlock(hs, k, a);
    h := k;
  }

  lemma AskIsServed(hs: seq<Holding>, m: seq<nat>, m': seq<nat>, l: Layout, l': Layout, size: nat, bp: int)
    requires AllServed(hs, m, l) && LiveKept(m, m', l, l', NULL) && |m| == |m'| && !IsLive(l, NULL)
    requires forall a :: IsLive(l', a) <==> IsLive(l, a) || (bp != NULL && a == bp - 1)
    requires bp != NULL ==> !IsLive(l, bp - 1) && IsServed(Held(bp, size, map[]), m', l')
    ensures AllServed(After(hs, Ask(size), bp), m', l')
  {
    hide IsServed, LiveKept, IsLive, AllAreHeld;
    var hs' := After(hs, Ask(size), bp);
    forall h | 0 <= h < |hs'|
      ensures IsServed(hs'[h], m', l')
    {
      if h < |hs| {
        HoldsLive(hs, m, l, h);
        KeptIsServed(hs[h], m, m', l, l', NULL);
      } else {
        NothingIsServed(m', l');
      }
    }
    forall h, k, a | HasBlock(hs', h, a) && HasBlock(hs', k, a)
      ensures h == k
    {
      if h < |hs| {
        HoldsLive(hs, m, l, h);
      }
      if k < |hs| {
        HoldsLive(hs, m, l, k);
      }
      assert h < |hs| && k < |hs| ==> HasBlock(hs, h, a) && HasBlock(hs, k, a);
    }
    AskHolds(hs, l, l', size, bp);
  }

  lemma HoldsLive(hs: seq<Holding>, m: seq<nat>, l: Layout, h: nat)
    requires EachIsServed(hs, m, l) && h < |hs|
    ensures IsServed(hs[h], m, l) && (hs[h].Held? ==> IsLive(l, hs[h].bp - 1))
  {
  }

  lemma NothingIsServed(m: seq<nat>, l: Layout)
    ensures IsServed(Nothing, m, l)
  {
  }

  lemma AskHolds(hs: seq<Holding>, l: Layout, l': Layout, size: nat, bp: int)
    requires AllAreHeld(hs, l)
    requires forall a :: IsLive(l', a) <==> IsLive(l, a) || (bp != NULL && a == bp - 1)
    ensures AllAreHeld(After(hs, Ask(size), bp), l')
  {
    hide IsLive;
    var hs' := After(hs, Ask(size), bp);
    forall a | IsLive(l', a)
      ensures exists h :: HasBlock(hs', h, a)
    {
      if IsLive(l, a) {
        var h := LiveHasHolder(hs, l, a);
        assert HasBlock(hs', h, a);
      } else {
        assert HasBlock(hs', |hs|, a);
      }
    }
  }

  lemma ReturnIsServed(hs: seq<Holding>, m: seq<nat>, m': seq<nat>, l: Layout, l': Layout, h: nat)
    requires AllServed(hs, m, l) && Holds(hs, h) && LiveKept(m, m', l, l', hs[h].bp - 1) && |m| == |m'|
    requires forall a :: IsLive(l', a) <==> IsLive(l, a) && a != hs[h].bp - 1
    ensures AllServed(After(hs, Return(h), NULL), m', l')
  {
    hide IsServed, LiveKept, IsLive, AllAreHeld;
    var hs' := After(hs, Return(h), NULL);
    assert HasBlock(hs, h, hs[h].bp - 1);
    forall k | 0 <= k < |hs'|
      ensures IsServed(hs'[k], m', l')
    {
      HoldsLive(hs, m, l, k);
      if k != h {
        assert hs[k].Held? ==> HasBlock(hs, k, hs[k].bp - 1);
        KeptIsServed(hs[k], m, m', l, l', hs[h].bp - 1);
      } else {
        NothingIsServed(m', l');
      }
    }
    assert forall k, a :: HasBlock(hs', k, a) ==> HasBlock(hs, k, a);
    forall a | IsLive(l', a)
      ensures exists k :: HasBlock(hs', k, a)
    {
      var k := LiveHasHolder(hs, l, a);
      assert HasBlock(hs', k, a);
    }
    Holders(hs', l');
  }

  lemma Holders(hs: seq<Holding>, l: Layout)
    requires forall a :: IsLive(l, a) ==> exists h :: HasBlock(hs, h, a)
    ensures AllAreHeld(hs, l)
  {
  }

  lemma PayloadBounds(x: Holding, m: seq<nat>, l: Layout)
    requires IsServed(x, m, l) && x.Held?
    ensures 1 <= x.bp <= x.bp + WordsOf(l, x.bp - 1) - 2 <= |m| && x.size <= 8 * (WordsOf(l, x.bp - 1) - 2)
  {
  }

  lemma WrittenIsServed(x: Holding, m: seq<nat>, l: Layout, i: nat, v: nat)
    requires IsServed(x, m, l) && x.Held? && 8 * i + 8 <= x.size
    ensures x.bp + i < |m| && IsServed(x.(words := x.words[i := v]), m[x.bp + i := v], l)
  {
  }

  lemma OtherIsServed(x: Holding, m: seq<nat>, l: Layout, at: nat, v: nat)
    requires IsServed(x, m, l) && at < |m| && (x.Held? ==> at < x.bp || x.bp + WordsOf(l, x.bp - 1) - 2 <= at)
    ensures IsServed(x, m[at := v], l)
  {
  }

  lemma WriteIsServed(hs: seq<Holding>, m: seq<nat>, l: Layout, end: int, h: nat, i: nat, v: nat)
    requires AllServed(hs, m, l) && BlocksFit(l, end) && MayWrite(hs, h, i)
    ensures 0 <= hs[h].bp + i < |m| && i < WordsOf(l, hs[h].bp - 1) - 2
    ensures AllServed(After(hs, Write(h, i, v), NULL), m[hs[h].bp + i := v], l)
  {
    hide BlocksFit, AllAreHeld, IsLive, IsServed;
    HoldsLive(hs, m, l, h);
    PayloadBounds(hs[h], m, l);
    var hs', m' := After(hs, Write(h, i, v), NULL), m[hs[h].bp + i := v];
    forall k | 0 <= k < |hs'|
      ensures IsServed(hs'[k], m', l)
    {
      HoldsLive(hs, m, l, k);
      if k == h {
        WrittenIsServed(hs[h], m, l, i, v);
      } else {
        if hs[k].Held? {
          HoldingsAreApart(hs, m, l, end, h, k);
        }
        OtherIsServed(hs[k], m, l, hs[h].bp + i, v);
      }
    }
    assert forall k, a :: HasBlock(hs', k, a) <==> HasBlock(hs, k, a);
    forall a | IsLive(l, a)
      ensures exists k :: HasBlock(hs', k, a)
    {
      var k := LiveHasHolder(hs, l, a);
      assert HasBlock(hs', k, a);
    }
    Holders(hs', l);
  }

  lemma NothingHeld(m: seq<nat>, l: Layout)
    requires forall a :: !IsLive(l, a)
    ensures AllServed([], m, l)
  {
  }

  lemma NothingYet()
    ensures Holdings([], []) == []
  {
  }

  lemma HoldingsStep(rs: seq<Request>, answers: seq<int>, r: Request, bp: int)
    requires |rs| == |answers|
    ensures Holdings(rs + [r], answers + [bp]) == After(Holdings(rs, answers), r, bp)
  {
    assert (rs + [r])[..|rs|] == rs && (answers + [bp])[..|rs|] == answers;
  }

  lemma NoBlockAtNull(l: Layout, end: int)
    requires BlocksFit(l, end)
    ensures NULL !in l
  {
  }

  lemma HeldIsServed(hs: seq<Holding>, m: seq<nat>, l: Layout, h: nat)
    requires AllServed(hs, m, l) && Holds(hs, h)
    ensures IsServed(hs[h], m, l) && hs[h].bp != NULL && IsLive(l, hs[h].bp - 1)
  {
  }

  /** What malloc returns. */
  lemma NewIsServed(heap: Allocator, bp: int, size: nat)
    requires heap.Valid()
    requires bp != NULL ==> IsLive(heap.layout, bp - 1) && bp % 2 == 0 && size <= 8 * (WordsOf(heap.layout, bp - 1) - 2)
    ensures bp != NULL ==> IsServed(Held(bp, size, map[]), heap.mem[..], heap.layout)
  {
    hide HasPrev, HeapOk, HasEnds, NoFreeNeighbours, BlocksFit;
    if bp != NULL {
      FitsIn(heap.mem[..], heap.brk - 1, heap.freeListHead, heap.layout, heap.freeList, {});
      BlockBounds(heap.layout, heap.brk - 1, bp - 1);
    }
  }

  /** A request for memory that was answered with NULL. */
  predicate IsRefused(r: Request, bp: int) {
    r.Ask? && r.size > 0 && bp == NULL
  }

  /** Runs a history on a new heap: in the end, and so after every request, all holdings are served, and a
      request was refused only if the memory does not suffice for another chunk. `ok` is whether there is room
      for a heap at all. */
  method Serve(capacity: nat, requests: seq<Request>) returns (ok: bool, answers: seq<int>, heap: Allocator)
    requires forall r :: r in requests && r.Ask? ==> r.size < SIZE_LIMIT - 31
    ensures fresh(heap) && fresh(heap.mem) && heap.mem.Length == capacity && |answers| == |requests|
    ensures ok <==> capacity >= 2 + 512
    ensures ok ==> heap.Valid() && AllServed(Holdings(requests, answers), heap.mem[..], heap.layout)
    ensures ok ==> forall n :: 0 <= n < |requests| && IsRefused(requests[n], answers[n]) ==> heap.brk + 512 > capacity
  {
    hide Allocator.Valid, AllServed, Holdings, After, IsLive;
    heap := new Allocator(capacity);
    answers := seq(|requests|, _ => NULL);
    var status := heap.Init();
    ok := status == 0;
    if !ok {
      return;
    }
    answers := [];
    var hs: seq<Holding> := [];
    NothingYet();
    NothingHeld(heap.mem[..], heap.layout);
    for n := 0 to |requests|
      invariant |answers| == n && heap.Valid() && hs == Holdings(requests[..n], answers)
      invariant AllServed(hs, heap.mem[..], heap.layout)
      invariant fresh(heap) && fresh(heap.mem)
      invariant forall j :: 0 <= j < n && IsRefused(requests[j], answers[j]) ==> heap.brk + 512 > capacity
    {
      assert requests[n] in requests;
      var bp := ServeOne(heap, requests[n], hs);
      HoldingsStep(requests[..n], answers, requests[n], bp);
      assert requests[..n] + [requests[n]] == requests[..n + 1];
      hs := After(hs, requests[n], bp);
      answers := answers + [bp];
    }
    assert requests[..|requests|] == requests;
  }

  /** Passes one request on to the allocator. */
  method ServeOne(heap: Allocator, r: Request, hs: seq<Holding>) returns (bp: int)
    requires heap.Valid() && AllServed(hs, heap.mem[..], heap.layout) && (r.Ask? ==> r.size < SIZE_LIMIT - 31)
    modifies heap, heap.mem
    ensures heap.Valid() && AllServed(After(hs, r, bp), heap.mem[..], heap.layout) && old(heap.brk) <= heap.brk
    ensures IsRefused(r, bp) ==> heap.brk + 512 > heap.mem.Length
  {
    hide HasPrev, HeapOk, HasEnds, NoFreeNeighbours, LiveKept, BlocksFit, EachIsServed, AreDifferent, AllAreHeld, IsServed, AdjustedSize, IsBestFit, GrowsAt;
    bp := NULL;
    ghost var m, l := heap.mem[..], heap.layout;
    FitsIn(m, heap.brk - 1, heap.freeListHead, l, heap.freeList, {});
    NoBlockAtNull(l, heap.brk - 1);
    match r
    case Ask(size) =>
      bp := heap.Malloc(size);
      NewIsServed(heap, bp, size);
      AskIsServed(hs, m, heap.mem[..], l, heap.layout, size, bp);
    case Return(h) =>
      if Holds(hs, h) {
        HeldIsServed(hs, m, l, h);
        heap.Free(hs[h].bp);
        ReturnIsServed(hs, m, heap.mem[..], l, heap.layout, h);
      }
    case Write(h, i, v) =>
      if MayWrite(hs, h, i) {
        HeldIsServed(hs, m, l, h);
        WriteIsServed(hs, m, l, heap.brk - 1, h, i, v);
        heap.Store(hs[h].bp, i, v);
      }
  }
}
