/** The order of binary heaps, on the ranks of their items by position: what one exchange upward or
    downward keeps. */
module HeapOrder {

  /** The parent position; integer division makes the root its own parent. */
  function Parent(i: nat): nat {
    if i == 0 then 0 else (i - 1) / 2
  }

  ghost predicate Ordered(s: seq<real>) {
    forall i :: 0 < i < |s| ==> s[Parent(i)] <= s[i]
  }

  function Swapped<T>(s: seq<T>, i: nat, j: nat): (t: seq<T>)
    requires i < |s| && j < |s|
    ensures |t| == |s|
  {
    s[i := s[j]][j := s[i]]
  }

  lemma SwapContents<T>(s: seq<T>, i: nat, j: nat)
    requires i < |s| && j < |s|
    ensures multiset(Swapped(s, i, j)) == multiset(s)
  {
  }

  // ----- moving up -----

  /** Heap order everywhere except above `c`, and the children of `c` fit below its parent. */
  ghost predicate OrderedAbove(s: seq<real>, c: nat) {
    && (forall i :: 0 < i < |s| && i != c ==> s[Parent(i)] <= s[i])
    && (forall i :: 0 < i < |s| && Parent(i) == c && c < |s| ==> s[Parent(c)] <= s[i])
  }

  lemma StepUp(s: seq<real>, c: nat)
    requires 0 < c < |s| && OrderedAbove(s, c) && s[c] < s[Parent(c)]
    ensures OrderedAbove(Swapped(s, Parent(c), c), Parent(c))
  {
    var t, p := Swapped(s, Parent(c), c), Parent(c);
    forall i | 0 < i < |t| && i != p
      ensures t[Parent(i)] <= t[i]
    {
      if Parent(i) == c {
        assert s[Parent(c)] <= s[i];
      } else if Parent(i) == p && i != c {
        assert s[p] <= s[i];
      } else if i != c {
        assert s[Parent(i)] <= s[i];
      }
    }
    forall i | 0 < i < |t| && Parent(i) == p
      ensures t[Parent(p)] <= t[i]
    {
      if p > 0 {
        assert s[Parent(p)] <= s[p];
        assert i != c ==> s[p] <= s[i];
      }
    }
  }

  // ----- moving down -----

  /** Heap order everywhere except below `c` and above `t`; the children of `c` fit below its parent. */
  ghost predicate OrderedBelow(s: seq<real>, c: nat, t: nat) {
    && (forall i :: 0 < i < |s| && Parent(i) != c && i != t ==> s[Parent(i)] <= s[i])
    && (forall i :: 0 < i < |s| && Parent(i) == c && 0 < c < |s| ==> s[Parent(c)] <= s[i])
  }

  /** `j` is a child of `c`, smaller than it and not larger than its sibling. */
  ghost predicate SmallestChild(s: seq<real>, c: nat, j: nat) {
    && 0 < j < |s| && Parent(j) == c && s[j] < s[c]
    && forall i :: 0 < i < |s| && Parent(i) == c ==> s[j] <= s[i]
  }

  lemma StepDown(s: seq<real>, c: nat, t: nat, j: nat)
    requires OrderedBelow(s, c, t) && c < |s| && SmallestChild(s, c, j) && t <= c
    requires c != t && c > 0 ==> s[Parent(c)] <= s[c]
    ensures var r := Swapped(s, c, j);
            && OrderedBelow(r, j, t) && r[Parent(j)] <= r[j]
            && (c == t && t > 0 ==> r[Parent(t)] <= r[t])
            && (forall i :: 0 <= i < |s| && i < c ==> r[i] == s[i])
  {
    var r := Swapped(s, c, j);
    forall i | 0 < i < |r| && Parent(i) != j && i != t
      ensures r[Parent(i)] <= r[i]
    {
      if Parent(i) == c {
        assert s[j] <= s[i];
      } else if i == c {
        assert s[Parent(c)] <= s[j];
      } else {
        assert s[Parent(i)] <= s[i];
      }
    }
    forall i | 0 < i < |r| && Parent(i) == j
      ensures r[Parent(j)] <= r[i]
    {
      assert s[Parent(i)] <= s[i];
    }
  }

  /** No child of `c` is smaller than it. */
  ghost predicate Settled(s: seq<real>, c: nat) {
    c < |s| && forall i :: 0 < i < |s| && Parent(i) == c ==> s[c] <= s[i]
  }

  /** The keys left when the last one replaces the one at `t`. */
  ghost function Without<T>(s: seq<T>, t: nat): (r: seq<T>)
    requires t < |s|
    ensures |r| == |s| - 1 && forall i :: 0 <= i < |r| ==> r[i] == if i == t then s[|s| - 1] else s[i]
  {
    Swapped(s, t, |s| - 1)[..|s| - 1]
  }

  lemma WithoutContents<T>(s: seq<T>, t: nat)
    requires t < |s|
    ensures multiset(Without(s, t)) == multiset(s) - multiset{s[t]}
  {
    SwapContents(s, t, |s| - 1);
    assert Swapped(s, t, |s| - 1) == Without(s, t) + [s[t]];
  }

  /** The order that removing position `t` leaves: at the root it always survives, elsewhere exactly
      when the last key fits below the parent of the place. */
  ghost predicate SurvivesRemoval(s: seq<real>, t: nat)
    requires t < |s|
  {
    t == |s| - 1 || FitsBelow(s, t, s[|s| - 1])
  }

  /** It need not survive: 3 moves below 10. */
  lemma RemovalCanFail()
    ensures exists s, t: nat :: t < |s| && Ordered(s) && !SurvivesRemoval(s, t)
  {
    var s := [1.0, 10.0, 2.0, 11.0, 12.0, 3.0];
    assert Parent(3) == 1 && Parent(1) == 0 && Parent(2) == 0 && Parent(4) == 1 && Parent(5) == 2;
    assert Ordered(s) && !SurvivesRemoval(s, 3);
  }

  /** Filling the place `t` with the last key leaves order everywhere but around that place. */
  lemma WithoutOrder(s: seq<real>, t: nat)
    requires Ordered(s) && t < |s|
    ensures t == |s| - 1 ==> Ordered(Without(s, t))
    ensures OrderedBelow(Without(s, t), t, t)
    ensures t < |s| - 1 ==> (FitsBelow(Without(s, t), t, Without(s, t)[t]) <==> FitsBelow(s, t, s[|s| - 1]))
  {
    var r := Without(s, t);
    forall i | 0 < i < |r| && Parent(i) == t && 0 < t
      ensures r[Parent(t)] <= r[i]
    {
      assert s[Parent(t)] <= s[t] && s[Parent(i)] <= s[i];
    }
  }

  /** Pushing down the key at `t` has turned `s0` into `s`, with the key now at `c`. */
  ghost predicate Sinking(s0: seq<real>, s: seq<real>, t: nat, c: nat) {
    && t <= c < |s| == |s0|
    && OrderedBelow(s, c, t)
    && (c == t ==> s == s0)
    && (c != t ==> s[Parent(c)] <= s[c])
    && (c != t && t > 0 ==> s[Parent(t)] <= s[t] && s0[Parent(t)] <= s0[t])
  }

  lemma OrderedIsBelow(s: seq<real>, t: nat)
    requires Ordered(s) && t < |s|
    ensures OrderedBelow(s, t, t) && FitsBelow(s, t, s[t])
  {
    forall i | 0 < i < |s| && Parent(i) == t && 0 < t
      ensures s[Parent(t)] <= s[i]
    {
      assert s[Parent(t)] <= s[t] && s[Parent(i)] <= s[i];
    }
  }

  lemma SinkStart(s: seq<real>, t: nat)
    requires t < |s| && OrderedBelow(s, t, t)
    ensures Sinking(s, s, t, t)
  {
  }

  lemma SinkStep(s0: seq<real>, s: seq<real>, t: nat, c: nat, j: nat)
    requires Sinking(s0, s, t, c) && SmallestChild(s, c, j)
    ensures Sinking(s0, Swapped(s, c, j), t, j)
  {
    StepDown(s, c, t, j);
    var r := Swapped(s, c, j);
    if t > 0 {
      if c == t {
        assert s[Parent(t)] <= s[j];
      } else {
        assert r[t] == s[t] && r[Parent(t)] == s[Parent(t)];
      }
    }
  }

  /** `x` may stand at `t` as far as the parent of that place is concerned. */
  ghost predicate FitsBelow(s: seq<real>, t: nat, x: real)
    requires t < |s|
  {
    t == 0 || s[Parent(t)] <= x
  }

  /** Once no child is smaller, the order holds again if and only if the key fits below its parent. */
  lemma SinkEnd(s0: seq<real>, s: seq<real>, t: nat, c: nat)
    requires Sinking(s0, s, t, c)
    requires Settled(s, c)
    ensures Ordered(s) <==> FitsBelow(s0, t, s0[t])
  {
    if t == 0 || s0[Parent(t)] <= s0[t] {
      forall i | 0 < i < |s|
        ensures s[Parent(i)] <= s[i]
      {
        if Parent(i) != c && i != t {
        }
      }
    } else {
      assert !(s[Parent(t)] <= s[t]);
    }
  }

  /** The root has the smallest rank. */
  lemma {:induction false} RootIsSmallest(s: seq<real>, i: nat)
    requires Ordered(s) && i < |s|
    ensures s[0] <= s[i]
  {
    if i > 0 {
      RootIsSmallest(s, Parent(i));
    }
  }
}
