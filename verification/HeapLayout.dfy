/** The allocator's heap as a layout of blocks over a sequence of words: what boundary tags, tiling and
    the free list mean, and what single writes do to them. Positions count words of 8 bytes. */
module HeapLayout {
  import opened Sequences

  /** A block of `words` words, header and footer included. */
  datatype Block = Block(words: int, alloc: bool)

  /** The blocks by the positions of their headers. */
  type Layout = map<int, Block>

  const NULL := 0

  function Pack(size: nat, alloc: bool): nat {
    if alloc then size + 1 else size
  }

  function ExtractSize(word: nat): nat {
    word - word % 16
  }

  function ExtractAlloc(word: nat): bool {
    word % 2 == 1
  }

  lemma PackRoundTrip(size: nat, alloc: bool)
    requires size % 16 == 0
    ensures ExtractSize(Pack(size, alloc)) == size && ExtractAlloc(Pack(size, alloc)) == alloc
  {
  }

  /** The position right behind a block. */
  function Behind(l: Layout, a: int): int
    requires a in l
  {
    a + l[a].words
  }

  function WordsOf(l: Layout, a: int): int {
    if a in l then l[a].words else 0
  }

  predicate IsFreeIn(l: Layout, a: int) {
    a in l && !l[a].alloc
  }

  predicate IsLive(l: Layout, a: int) {
    a in l && l[a].alloc
  }

  /** The blocks are large enough, aligned, in bounds and apart. */
  ghost predicate BlocksFit(l: Layout, end: int) {
    && (forall a :: a in l ==> 1 <= a && a % 2 == 1 && l[a].words >= 4 && l[a].words % 2 == 0 && Behind(l, a) <= end)
    && (forall a, b :: a in l && b in l && a < b ==> Behind(l, a) <= b)
  }

  ghost predicate HasPrev(l: Layout, b: int) {
    exists a :: a in l && Behind(l, a) == b
  }

  /** The blocks tile the heap from position 1 up to the epilogue at `end`: each of them, and the
      epilogue, starts where another one ends. */
  ghost predicate Tiles(l: Layout, end: int) {
    && BlocksFit(l, end) && 1 <= end && end % 2 == 1
    && (forall b :: b in l && b != 1 ==> HasPrev(l, b))
    && (end != 1 ==> HasPrev(l, end))
  }

  lemma PrevBlock(l: Layout, b: int) returns (a: int)
    requires HasPrev(l, b)
    ensures a in l && Behind(l, a) == b
  {
    a :| a in l && Behind(l, a) == b;
  }

  lemma PrevIs(l: Layout, a: int, b: int)
    requires a in l && Behind(l, a) == b
    ensures HasPrev(l, b)
  {
  }

  /** Every word between prologue and epilogue belongs to exactly one block. */
  lemma EveryWordIsInABlock(l: Layout, end: int, x: int) returns (a: int)
    requires Tiles(l, end) && 1 <= x < end
    ensures a in l && a <= x < Behind(l, a)
    ensures forall b :: b in l && b <= x < Behind(l, b) ==> b == a
  {
    hide HasPrev;
    a := BlockBelow(l, end, x, end);
  }

  lemma {:induction false} BlockBelow(l: Layout, end: int, x: int, b: int) returns (a: int)
    requires Tiles(l, end) && 1 <= x < b && (b in l || b == end)
    ensures a in l && a <= x < Behind(l, a)
    decreases b
  {
    hide HasPrev;
    a := PrevBlock(l, b);
    if x < a {
      a := BlockBelow(l, end, x, a);
    }
  }

  /** Where a block ends the next one starts, or the heap ends. */
  lemma NextBlock(l: Layout, end: int, a: int)
    requires Tiles(l, end) && a in l
    ensures Behind(l, a) in l || Behind(l, a) == end
  {
    hide HasPrev;
    if Behind(l, a) != end {
      var b := EveryWordIsInABlock(l, end, Behind(l, a));
    }
  }

  /** Header and footer of every block tell its size and whether it is allocated. */
  ghost predicate Tagged(m: seq<nat>, l: Layout) {
    forall a :: a in l ==> HasTags(m, a, l[a])
  }

  /** The footer of the prologue and the header of the epilogue. */
  ghost predicate HasEnds(m: seq<nat>, end: int) {
    1 <= end < |m| && m[0] == Pack(0, true) && m[end] == Pack(0, true)
  }

  ghost predicate HasTags(m: seq<nat>, a: int, b: Block) {
    && 0 <= a && b.words >= 4 && a + b.words <= |m|
    && m[a] == Pack(8 * b.words, b.alloc) && m[a + b.words - 1] == m[a]
  }

  /** Writing both tags of a block. */
  function Tag(m: seq<nat>, a: nat, words: nat, alloc: bool): seq<nat>
    requires a < |m| && 1 <= a + words <= |m|
  {
    m[a := Pack(8 * words, alloc)][a + words - 1 := Pack(8 * words, alloc)]
  }

  // ----- the free list -----

  /** The list holds exactly the free blocks but those in `gone`, each once. */
  ghost predicate FreeExactly(l: Layout, fl: seq<int>, gone: set<int>) {
    Distinct(fl) && forall a :: a in fl <==> IsFreeIn(l, a) && a !in gone
  }

  /** The entry at position `i`, or NULL beyond either end. */
  function Entry(fl: seq<int>, i: int): int {
    if 0 <= i < |fl| then fl[i] else NULL
  }

  /** The two words behind the header of entry `i` name the entry in front and the one behind. */
  ghost predicate LinkAt(m: seq<nat>, fl: seq<int>, i: int) {
    && 0 <= i < |fl| && 1 <= fl[i] < |m| - 2
    && m[fl[i] + 1] == Entry(fl, i - 1) && m[fl[i] + 2] == Entry(fl, i + 1)
  }

  ghost predicate Linked(m: seq<nat>, head: int, fl: seq<int>) {
    head == Entry(fl, 0) && forall i :: 0 <= i < |fl| ==> LinkAt(m, fl, i)
  }

  ghost predicate NoFreeNeighbours(l: Layout) {
    forall a {:trigger Behind(l, a)} :: IsFreeIn(l, a) ==> !IsFreeIn(l, Behind(l, a))
  }

  /** A tiled and tagged heap with a linked list of its free blocks but those in `gone`. */
  ghost predicate HeapOk(m: seq<nat>, end: int, head: int, l: Layout, fl: seq<int>, gone: set<int>) {
    Tiles(l, end) && end < |m| && Tagged(m, l) && Linked(m, head, fl) && FreeExactly(l, fl, gone)
  }

  /** The words that prologue and epilogue occupy. */
  ghost predicate EndsKept(m: seq<nat>, m': seq<nat>, end: int) {
    0 <= end < |m| == |m'| && m'[0] == m[0] && m'[end] == m[end]
  }

  /** Only tags and links are written: the payload words of a block stay as they are. */
  ghost predicate PayloadKept(m: seq<nat>, m': seq<nat>, l: Layout, a: int)
    requires a in l
  {
    |m'| == |m| && forall x :: 0 <= x < |m| && a < x < Behind(l, a) - 1 ==> m'[x] == m[x]
  }

  /** The live blocks of `l`, apart from `freed`, are still there with the same payload. */
  ghost predicate LiveKept(m: seq<nat>, m': seq<nat>, l: Layout, l': Layout, freed: int) {
    forall a :: IsLive(l, a) && a != freed ==> a in l' && l'[a] == l[a] && PayloadKept(m, m', l, a)
  }

  lemma LiveKeptTrans(m0: seq<nat>, m1: seq<nat>, m2: seq<nat>, l0: Layout, l1: Layout, l2: Layout, freed: int)
    requires LiveKept(m0, m1, l0, l1, freed) && LiveKept(m1, m2, l1, l2, freed)
    ensures LiveKept(m0, m2, l0, l2, freed)
  {
    forall a | IsLive(l0, a) && a != freed
      ensures a in l2 && l2[a] == l0[a] && PayloadKept(m0, m2, l0, a)
    {
      assert PayloadKept(m0, m1, l0, a) && PayloadKept(m1, m2, l1, a);
    }
  }

  /** What is kept of all live blocks is kept of all but one. */
  lemma LiveKeptBut(m: seq<nat>, m': seq<nat>, l: Layout, l': Layout, end: int, freed: int)
    requires LiveKept(m, m', l, l', NULL) && BlocksFit(l, end)
    ensures LiveKept(m, m', l, l', freed)
  {
  }

  lemma HeadIsFirst(m: seq<nat>, head: int, fl: seq<int>)
    requires Linked(m, head, fl)
    ensures head == Entry(fl, 0)
  {
  }

  // ----- writing the tags of one block -----

  /** The blocks of `l'` other than `a` are as in `l`. */
  ghost predicate SameBut(l: Layout, l': Layout, a: int) {
    forall b :: b in l' && b != a ==> b in l && l[b] == l'[b]
  }

  lemma Apart(l: Layout, end: int, a: int, b: int)
    requires BlocksFit(l, end) && a in l && b in l && a != b
    ensures Behind(l, a) <= b || Behind(l, b) <= a
    ensures l[a].words >= 4 && l[b].words >= 4 && 1 <= a && 1 <= b && Behind(l, a) <= end && Behind(l, b) <= end
  {
  }

  lemma TagKeepsTags(m: seq<nat>, l: Layout, l': Layout, end: int, a: int)
    requires Tagged(m, l) && BlocksFit(l', end) && end <= |m| && SameBut(l, l', a) && a in l'
    ensures 1 <= a && a + l'[a].words <= |m| && l'[a].words >= 4
    ensures Tagged(Tag(m, a, l'[a].words, l'[a].alloc), l')
  {
    hide BlocksFit;
    BlockBounds(l', end, a);
    var m' := Tag(m, a, l'[a].words, l'[a].alloc);
    forall b | b in l'
      ensures HasTags(m', b, l'[b])
    {
      if b != a {
        assert HasTags(m, b, l[b]);
        Apart(l', end, a, b);
      }
    }
  }

  lemma BlockBounds(l: Layout, end: int, a: int)
    requires BlocksFit(l, end) && a in l
    ensures 1 <= a && l[a].words >= 4 && Behind(l, a) <= end
  {
  }

  lemma TagKeepsLinks(m: seq<nat>, head: int, fl: seq<int>, l: Layout, end: int, a: int)
    requires Linked(m, head, fl) && BlocksFit(l, end) && end <= |m| && a in l && forall f :: f in fl ==> f in l
    ensures 1 <= a && a + l[a].words <= |m| && l[a].words >= 4
    ensures Linked(Tag(m, a, l[a].words, l[a].alloc), head, fl)
  {
    hide BlocksFit;
    BlockBounds(l, end, a);
    var m' := Tag(m, a, l[a].words, l[a].alloc);
    forall i | 0 <= i < |fl|
      ensures LinkAt(m', fl, i)
    {
      assert LinkAt(m, fl, i) && fl[i] in l;
      if fl[i] != a {
        Apart(l, end, a, fl[i]);
      }
    }
  }

  lemma TagKeepsPayload(m: seq<nat>, l: Layout, end: int, a: int, b: int)
    requires BlocksFit(l, end) && end <= |m| && a in l && b in l
    ensures 1 <= a && a + l[a].words <= |m| && l[a].words >= 4
    ensures PayloadKept(m, Tag(m, a, l[a].words, l[a].alloc), l, b)
  {
    hide BlocksFit;
    BlockBounds(l, end, a);
    if a != b {
      Apart(l, end, a, b);
    }
  }

  // ----- writing a link -----

  /** Tags, the two ends and the payload of live blocks are the same in both. */
  ghost predicate LinksOnly(m: seq<nat>, m': seq<nat>, l: Layout, end: int) {
    && EndsKept(m, m', end) && (Tagged(m, l) ==> Tagged(m', l))
    && forall b :: IsLive(l, b) ==> PayloadKept(m, m', l, b)
  }

  lemma LinksOnlyTrans(m0: seq<nat>, m1: seq<nat>, m2: seq<nat>, l: Layout, end: int)
    requires LinksOnly(m0, m1, l, end) && LinksOnly(m1, m2, l, end)
    ensures LinksOnly(m0, m2, l, end)
  {
    hide Tagged;
    forall b | IsLive(l, b)
      ensures PayloadKept(m0, m2, l, b)
    {
      assert PayloadKept(m0, m1, l, b) && PayloadKept(m1, m2, l, b);
    }
  }

  /** A write behind the header and in front of the footer of a free block. */
  lemma LinkWrite(m: seq<nat>, l: Layout, end: int, f: int, x: int, v: nat)
    requires BlocksFit(l, end) && end < |m| && IsFreeIn(l, f) && f < x < Behind(l, f) - 1
    ensures 0 <= x < |m| && LinksOnly(m, m[x := v], l, end)
  {
    hide BlocksFit;
    BlockBounds(l, end, f);
    forall b | b in l && HasTags(m, b, l[b])
      ensures HasTags(m[x := v], b, l[b])
    {
      if b != f {
        Apart(l, end, f, b);
      }
    }
    forall b | IsLive(l, b)
      ensures PayloadKept(m, m[x := v], l, b)
    {
      Apart(l, end, f, b);
    }
  }

  /** The words after a block has been linked in front of the list. */
  function InsertLinks(m: seq<nat>, fl: seq<int>, a: nat): seq<nat>
    requires a + 2 < |m| && (fl != [] ==> 1 <= fl[0] < |m| - 2)
  {
    var m1 := m[a + 2 := if fl == [] then NULL else fl[0]][a + 1 := NULL];
    if fl == [] then m1 else m1[fl[0] + 1 := a]
  }

  /** The words after the block at position `k` of the list has been bypassed. */
  function RemoveLinks(m: seq<nat>, fl: seq<int>, k: nat): seq<nat>
    requires k < |fl| && forall i :: k - 1 <= i <= k + 1 && 0 <= i < |fl| ==> 1 <= fl[i] < |m| - 2
  {
    var prev, next := Entry(fl, k - 1), Entry(fl, k + 1);
    var m1 := if prev != NULL then m[prev + 2 := next] else m;
    if next != NULL then m1[next + 1 := prev] else m1
  }

  lemma InsertLinksOnly(m: seq<nat>, l: Layout, end: int, fl: seq<int>, a: nat)
    requires BlocksFit(l, end) && end < |m| && IsFreeIn(l, a) && forall f :: f in fl ==> IsFreeIn(l, f)
    ensures a + 2 < |m| && (fl != [] ==> 1 <= fl[0] < |m| - 2)
    ensures LinksOnly(m, InsertLinks(m, fl, a), l, end)
  {
    BlockBounds(l, end, a);
    var next := if fl == [] then NULL else fl[0];
    assert fl != [] ==> fl[0] in fl;
    hide LinksOnly, BlocksFit;
    if fl != [] {
      BlockBounds(l, end, fl[0]);
    }
    LinkWrite(m, l, end, a, a + 2, next);
    var m1 := m[a + 2 := next];
    LinkWrite(m1, l, end, a, a + 1, NULL);
    var m2 := m1[a + 1 := NULL];
    LinksOnlyTrans(m, m1, m2, l, end);
    if fl != [] {
      LinkWrite(m2, l, end, fl[0], fl[0] + 1, a);
      LinksOnlyTrans(m, m2, m2[fl[0] + 1 := a], l, end);
    }
  }

  lemma RemoveLinksOnly(m: seq<nat>, l: Layout, end: int, fl: seq<int>, k: nat)
    requires BlocksFit(l, end) && 1 <= end < |m| && k < |fl| && forall f :: f in fl ==> IsFreeIn(l, f)
    ensures forall i :: k - 1 <= i <= k + 1 && 0 <= i < |fl| ==> 1 <= fl[i] < |m| - 2
    ensures LinksOnly(m, RemoveLinks(m, fl, k), l, end)
  {
    forall i | k - 1 <= i <= k + 1 && 0 <= i < |fl|
      ensures 1 <= fl[i] < |m| - 2 && fl[i] in fl
    {
      assert fl[i] in fl;
      BlockBounds(l, end, fl[i]);
    }
    var prev, next := Entry(fl, k - 1), Entry(fl, k + 1);
    hide LinksOnly, BlocksFit;
    BypassWrites(m, l, end, prev, next);
  }

  /** The writes that make two entries, or the ends of the list, point past the one between them. */
  lemma BypassWrites(m: seq<nat>, l: Layout, end: int, prev: nat, next: nat)
    requires BlocksFit(l, end) && 1 <= end < |m|
    requires (prev == NULL || IsFreeIn(l, prev)) && (next == NULL || IsFreeIn(l, next))
    ensures prev != NULL ==> prev + 2 < |m|
    ensures next != NULL ==> next + 1 < |m|
    ensures var m1 := if prev != NULL then m[prev + 2 := next] else m;
            LinksOnly(m, if next != NULL then m1[next + 1 := prev] else m1, l, end)
  {
    hide LinksOnly, BlocksFit;
    SameLinks(m, l, end);
    var m1 := m;
    if prev != NULL {
      BlockBounds(l, end, prev);
      LinkWrite(m, l, end, prev, prev + 2, next);
      m1 := m[prev + 2 := next];
    }
    if next != NULL {
      BlockBounds(l, end, next);
      LinkWrite(m1, l, end, next, next + 1, prev);
      LinksOnlyTrans(m, m1, m1[next + 1 := prev], l, end);
    }
  }

  lemma SameLinks(m: seq<nat>, l: Layout, end: int)
    requires 0 <= end < |m|
    ensures LinksOnly(m, m, l, end)
  {
  }

  ghost predicate Odd(fl: seq<int>) {
    forall i :: 0 <= i < |fl| ==> fl[i] % 2 == 1 && 1 <= fl[i]
  }

  lemma InsertLinked(m: seq<nat>, head: int, fl: seq<int>, a: nat)
    requires Linked(m, head, fl) && Odd(fl) && Distinct(fl) && a !in fl && a % 2 == 1 && a < |m| - 2
    ensures fl != [] ==> 1 <= fl[0] < |m| - 2
    ensures Linked(InsertLinks(m, fl, a), a, [a] + fl)
  {
    assert fl != [] ==> LinkAt(m, fl, 0);
    var m', fl' := InsertLinks(m, fl, a), [a] + fl;
    forall i | 0 <= i < |fl'|
      ensures LinkAt(m', fl', i)
    {
      if i > 0 {
        var f := fl[i - 1];
        assert LinkAt(m, fl, i - 1) && f in fl && f != a;
      }
    }
  }

  lemma RemoveLinked(m: seq<nat>, head: int, fl: seq<int>, k: nat)
    requires Linked(m, head, fl) && Odd(fl) && Distinct(fl) && k < |fl|
    ensures forall i :: k - 1 <= i <= k + 1 && 0 <= i < |fl| ==> 1 <= fl[i] < |m| - 2
    ensures var head' := if Entry(fl, k - 1) == NULL then Entry(fl, k + 1) else head;
            Linked(RemoveLinks(m, fl, k), head', fl[..k] + fl[k + 1..])
  {
    hide Odd, Distinct, RemoveLinks;
    assert LinkAt(m, fl, k) && (k > 0 ==> LinkAt(m, fl, k - 1)) && (k < |fl| - 1 ==> LinkAt(m, fl, k + 1));
    var m', fl' := RemoveLinks(m, fl, k), fl[..k] + fl[k + 1..];
    forall i | 0 <= i < |fl'|
      ensures LinkAt(m', fl', i)
    {
      var j := if i < k then i else i + 1;
      assert LinkAt(m, fl, j);
      RemoveLinkedAt(m, fl, k, j);
      assert fl'[i] == fl[j] && Entry(fl', i - 1) == Entry(fl, if j == k + 1 then k - 1 else j - 1)
          && Entry(fl', i + 1) == Entry(fl, if j == k - 1 then k + 1 else j + 1);
    }
  }

  /** The links of another entry `j` after the removal of entry `k`. */
  lemma RemoveLinkedAt(m: seq<nat>, fl: seq<int>, k: nat, j: nat)
    requires Odd(fl) && Distinct(fl) && k < |fl| && j < |fl| && j != k && LinkAt(m, fl, j)
    requires forall i :: k - 1 <= i <= k + 1 && 0 <= i < |fl| ==> 1 <= fl[i] < |m| - 2
    ensures |RemoveLinks(m, fl, k)| == |m|
    ensures RemoveLinks(m, fl, k)[fl[j] + 1] == Entry(fl, if j == k + 1 then k - 1 else j - 1)
    ensures RemoveLinks(m, fl, k)[fl[j] + 2] == Entry(fl, if j == k - 1 then k + 1 else j + 1)
  {
  }

  // ----- what the list loses and gains -----

  lemma RemoveExactly(l: Layout, fl: seq<int>, gone: set<int>, k: nat)
    requires FreeExactly(l, fl, gone) && k < |fl|
    ensures FreeExactly(l, fl[..k] + fl[k + 1..], gone + {fl[k]})
  {
    var fl' := fl[..k] + fl[k + 1..];
    assert forall i :: 0 <= i < |fl'| ==> fl'[i] == fl[if i < k then i else i + 1];
    forall a | a in fl && a != fl[k]
      ensures a in fl'
    {
      var i :| 0 <= i < |fl| && fl[i] == a;
      assert fl'[if i < k then i else i - 1] == a;
    }
  }

  // ----- how the layout changes -----

  function Merge(l: Layout, p: int, a: int): Layout
    requires p in l && a in l
  {
    (l - {a})[p := Block(l[p].words + l[a].words, false)]
  }

  lemma MergeTiles(l: Layout, end: int, p: int, a: int)
    requires Tiles(l, end) && p in l && a in l && Behind(l, p) == a
    ensures Tiles(Merge(l, p, a), end)
  {
    hide HasPrev;
    var l' := Merge(l, p, a);
    forall b | (b in l' && b != 1) || (b == end && end != 1)
      ensures HasPrev(l', b)
    {
      var q := PrevBlock(l, b);
      PrevIs(l', if q == a then p else q, b);
    }
  }

  lemma MergeKeepsLive(l: Layout, p: int, a: int)
    requires IsFreeIn(l, p) && IsFreeIn(l, a) && p != a
    ensures forall b :: IsLive(Merge(l, p, a), b) <==> IsLive(l, b)
    ensures forall b :: b != p && b != a ==> (b in Merge(l, p, a) <==> b in l) && WordsOf(Merge(l, p, a), b) == WordsOf(l, b)
    ensures IsFreeIn(Merge(l, p, a), p) && WordsOf(Merge(l, p, a), p) == l[p].words + l[a].words
    ensures forall b :: b != p && b != a && IsFreeIn(l, b) ==> IsFreeIn(Merge(l, p, a), b)
  {
  }

  function Retag(l: Layout, a: int, alloc: bool): Layout
    requires a in l
  {
    l[a := Block(l[a].words, alloc)]
  }

  lemma RetagTiles(l: Layout, end: int, a: int, alloc: bool)
    requires Tiles(l, end) && a in l
    ensures Tiles(Retag(l, a, alloc), end)
  {
    hide HasPrev;
    var l' := Retag(l, a, alloc);
    forall b | (b in l' && b != 1) || (b == end && end != 1)
      ensures HasPrev(l', b)
    {
      var q := PrevBlock(l, b);
      PrevIs(l', q, b);
    }
  }

  /** The first `words` words of a block, and the rest as a free block. */
  function Split(l: Layout, a: int, words: int): Layout
    requires a in l
  {
    l[a := Block(words, true)][a + words := Block(l[a].words - words, false)]
  }

  lemma SplitTiles(l: Layout, end: int, a: int, words: int)
    requires Tiles(l, end) && a in l && 4 <= words <= l[a].words - 4 && words % 2 == 0
    ensures Tiles(Split(l, a, words), end) && a + words !in l
  {
    hide HasPrev;
    var l', r := Split(l, a, words), a + words;
    forall b | (b in l' && b != 1) || (b == end && end != 1)
      ensures HasPrev(l', b)
    {
      if b == r {
        PrevIs(l', a, b);
      } else {
        var q := PrevBlock(l, b);
        PrevIs(l', if q == a then r else q, b);
      }
    }
  }

  /** A new free block at the end. */
  function Append(l: Layout, end: int, words: int): Layout {
    l[end := Block(words, false)]
  }

  lemma AppendTiles(l: Layout, end: int, words: int)
    requires Tiles(l, end) && words >= 4 && words % 2 == 0
    ensures Tiles(Append(l, end, words), end + words) && end !in l
  {
    hide HasPrev;
    var l' := Append(l, end, words);
    forall b | (b in l' && b != 1) || b == end + words
      ensures HasPrev(l', b)
    {
      if b == end + words {
        PrevIs(l', end, b);
      } else {
        var q := PrevBlock(l, b);
        PrevIs(l', q, b);
      }
    }
  }

  /** The last block, which is free, grows. */
  function Grow(l: Layout, p: int, words: int): Layout
    requires p in l
  {
    l[p := Block(l[p].words + words, false)]
  }

  lemma GrowTiles(l: Layout, end: int, p: int, words: int)
    requires Tiles(l, end) && p in l && Behind(l, p) == end && words >= 4 && words % 2 == 0
    ensures Tiles(Grow(l, p, words), end + words)
  {
    hide HasPrev;
    var l' := Grow(l, p, words);
    forall b | (b in l' && b != 1) || b == end + words
      ensures HasPrev(l', b)
    {
      if b == end + words {
        PrevIs(l', p, b);
      } else {
        var q := PrevBlock(l, b);
        PrevIs(l', q, b);
      }
    }
  }
}
