/** Open addressing with linear probing, on sequences: where keys are found and what one step of the
    table's operations keeps. */
module ProbeTables {
  import opened Options

  /** A key with the number its hashCode gives. */
  datatype Key = Key(name: string, hashCode: int)

  type Slots = seq<Option<Key>>

  /** The 31 low bits of the hash code, reduced to a position. */
  function Hash(k: Key, size: nat): (h: nat)
    requires size > 0
    ensures h < size
  {
    k.hashCode % 0x8000_0000 % size
  }

  function Next(i: nat, size: nat): (j: nat)
    requires i < size
    ensures j == (i + 1) % size < size
  {
    if i + 1 == size then 0 else i + 1
  }

  /** The number of steps from `a` to `b` around the table. */
  function Dist(a: nat, b: nat, size: nat): nat
    requires a < size && b < size
  {
    if a <= b then b - a else b - a + size
  }

  ghost predicate Full(keys: Slots, p: int) {
    0 <= p < |keys| && keys[p].Some?
  }

  /** Everything from `h` up to but not including `j` is occupied. */
  ghost predicate PathFull(keys: Slots, h: nat, j: nat)
    requires h < |keys| && j < |keys|
  {
    forall p :: 0 <= p < |keys| && Dist(h, p, |keys|) < Dist(h, j, |keys|) ==> Full(keys, p)
  }

  /** A probe for the key at `j` gets there. */
  ghost predicate Reachable(keys: Slots, j: nat) {
    j < |keys| && keys[j].Some? && PathFull(keys, Hash(keys[j].value, |keys|), j)
  }

  ghost predicate AllReachable(keys: Slots) {
    forall j :: Full(keys, j) ==> Reachable(keys, j)
  }

  ghost predicate NoDuplicates(keys: Slots) {
    forall i, j :: Full(keys, i) && Full(keys, j) && keys[i] == keys[j] ==> i == j
  }

  function Occupied(keys: Slots): (n: nat)
    ensures n <= |keys|
  {
    if keys == [] then 0 else (if keys[0].Some? then 1 else 0) + Occupied(keys[1..])
  }

  /** The contents as a map. */
  ghost predicate Represents<V>(keys: Slots, vals: seq<V>, m: map<Key, V>) {
    && |vals| == |keys|
    && (forall j :: Full(keys, j) ==> keys[j].value in m && m[keys[j].value] == vals[j])
    && (forall k :: k in m ==> Holds(keys, k))
  }

  ghost predicate Holds(keys: Slots, k: Key) {
    exists j :: 0 <= j < |keys| && keys[j] == Some(k)
  }

  lemma {:induction false} OccupiedUpdate(keys: Slots, i: nat, k: Option<Key>)
    requires i < |keys|
    ensures Occupied(keys[i := k]) == Occupied(keys) - (if keys[i].Some? then 1 else 0) + if k.Some? then 1 else 0
  {
    if i == 0 {
      assert keys[i := k][1..] == keys[1..];
    } else {
      assert keys[i := k][1..] == keys[1..][i - 1 := k];
      OccupiedUpdate(keys[1..], i - 1, k);
    }
  }

  lemma {:induction false} SomeEmpty(keys: Slots) returns (e: nat)
    requires Occupied(keys) < |keys|
    ensures e < |keys| && keys[e] == None
  {
    if keys[0] == None {
      e := 0;
    } else {
      e := SomeEmpty(keys[1..]);
      e := e + 1;
    }
  }

  /** A key that is there lies before the first empty slot behind its hash. */
  lemma FoundBefore(keys: Slots, k: Key, i: nat)
    requires AllReachable(keys) && i < |keys| && keys[i] == None && Holds(keys, k)
    ensures exists j :: 0 <= j < |keys| && keys[j] == Some(k)
              && Dist(Hash(k, |keys|), j, |keys|) < Dist(Hash(k, |keys|), i, |keys|)
  {
    var j :| 0 <= j < |keys| && keys[j] == Some(k);
    assert Full(keys, j) && Reachable(keys, j);
    assert !Full(keys, i);
  }

  /** What a probe for `k` has passed: occupied slots with other keys. */
  ghost predicate Passed(keys: Slots, k: Key, i: nat) {
    && i < |keys|
    && forall p :: 0 <= p < |keys| && Dist(Hash(k, |keys|), p, |keys|) < Dist(Hash(k, |keys|), i, |keys|) ==>
         Full(keys, p) && keys[p] != Some(k)
  }

  lemma PassedNext(keys: Slots, k: Key, i: nat, e: nat)
    requires Passed(keys, k, i) && Full(keys, i) && keys[i] != Some(k) && e < |keys| && keys[e] == None
    ensures Passed(keys, k, Next(i, |keys|))
    ensures Dist(Next(i, |keys|), e, |keys|) < Dist(i, e, |keys|)
  {
    var size, h := |keys|, Hash(k, |keys|);
    assert !Full(keys, e);
    // the probe has not been all around, since it would have met the empty slot
    assert Dist(h, i, size) < Dist(h, e, size);
    assert Dist(h, Next(i, size), size) == Dist(h, i, size) + 1;
  }

  /** A probe that ends at an empty slot has found out that the key is not there. */
  lemma PassedAll(keys: Slots, k: Key, i: nat)
    requires AllReachable(keys) && Passed(keys, k, i) && keys[i] == None
    ensures !Holds(keys, k)
  {
    if Holds(keys, k) {
      FoundBefore(keys, k, i);
    }
  }

  /** A new key goes to the first empty slot behind its hash. */
  lemma InsertKeeps<V>(keys: Slots, vals: seq<V>, m: map<Key, V>, k: Key, v: V, i: nat)
    requires AllReachable(keys) && NoDuplicates(keys) && Represents(keys, vals, m)
    requires Passed(keys, k, i) && keys[i] == None && k !in m
    ensures AllReachable(keys[i := Some(k)]) && NoDuplicates(keys[i := Some(k)])
    ensures Represents(keys[i := Some(k)], vals[i := v], m[k := v])
  {
    var keys' := keys[i := Some(k)];
    forall j | Full(keys', j)
      ensures Reachable(keys', j)
    {
      if j != i {
        assert Full(keys, j) && Reachable(keys, j);
      }
    }
    RepresentsInserted(keys, vals, m, k, v, i, keys');
  }

  lemma RepresentsInserted<V>(keys: Slots, vals: seq<V>, m: map<Key, V>, k: Key, v: V, i: nat, keys': Slots)
    requires Represents(keys, vals, m) && i < |keys| && keys[i] == None && k !in m && keys' == keys[i := Some(k)]
    ensures Represents(keys', vals[i := v], m[k := v])
    ensures forall j :: Full(keys', j) && j != i ==> keys'[j] != Some(k)
  {
    var m' := m[k := v];
    forall j | Full(keys', j)
      ensures keys'[j].value in m' && m'[keys'[j].value] == vals[i := v][j]
      ensures j != i ==> keys'[j] != Some(k)
    {
      assert j != i ==> Full(keys, j);
    }
    forall q | q in m'
      ensures Holds(keys', q)
    {
      HoldsAfter(keys, k, i, q);
    }
  }

  /** The key at an occupied slot goes, and with it its entry of the map. */
  lemma RepresentsRemoved<V>(keys: Slots, vals: seq<V>, m: map<Key, V>, i: nat)
    requires Represents(keys, vals, m) && NoDuplicates(keys) && Full(keys, i)
    ensures Represents(keys[i := None], vals, m - {keys[i].value}) && NoDuplicates(keys[i := None])
  {
    var keys', k := keys[i := None], keys[i].value;
    forall j | Full(keys', j)
      ensures Full(keys, j) && keys'[j].value in m - {k}
    {
      assert Full(keys, j);
    }
    forall q | q in m - {k}
      ensures Holds(keys', q)
    {
      var j :| 0 <= j < |keys| && keys[j] == Some(q);
      assert keys'[j] == Some(q);
    }
  }

  lemma HoldsAfter(keys: Slots, k: Key, i: nat, q: Key)
    requires i < |keys| && keys[i] == None
    ensures Holds(keys[i := Some(k)], q) <==> Holds(keys, q) || q == k
  {
    var keys' := keys[i := Some(k)];
    assert keys'[i] == Some(k);
    if Holds(keys, q) {
      var j :| 0 <= j < |keys| && keys[j] == Some(q);
      assert keys'[j] == Some(q);
    }
    if Holds(keys', q) {
      var j :| 0 <= j < |keys| && keys'[j] == Some(q);
      assert j != i ==> keys[j] == Some(q);
    }
  }

  // ----- deletion: the cluster behind the deleted key is inserted again -----

  /** `p` is from `i` on but before `e`, counted from `i0`. */
  predicate Pending(i0: nat, i: nat, e: nat, p: nat, size: nat)
    requires i0 < size && i < size && e < size && p < size
  {
    Dist(i0, i, size) <= Dist(i0, p, size) < Dist(i0, e, size)
  }

  /** The path of a key that is still to be moved has gaps only where keys have been moved already. */
  ghost predicate NearlyReachable(keys: Slots, i0: nat, i: nat, j: nat)
    requires i0 < |keys| && i < |keys|
  {
    j < |keys| && keys[j].Some? &&
    var h := Hash(keys[j].value, |keys|);
    forall p :: 0 <= p < |keys| && Dist(h, p, |keys|) < Dist(h, j, |keys|) ==>
      Full(keys, p) || Dist(i0, p, |keys|) < Dist(i0, i, |keys|)
  }

  /** After the slot `i0` was emptied and the keys from there up to `i` were inserted again: the ones
      from `i` up to the empty slot `e` are nearly reachable, all others reachable. */
  ghost predicate Moving(keys: Slots, i0: nat, i: nat, e: nat) {
    && i0 < |keys| && i < |keys| && e < |keys| && keys[e] == None && Dist(i0, i, |keys|) <= Dist(i0, e, |keys|)
    && (forall p :: 0 <= p < |keys| && Pending(i0, i, e, p, |keys|) ==> Full(keys, p))
    && (forall j :: Full(keys, j) ==>
          if Pending(i0, i, e, j, |keys|) then NearlyReachable(keys, i0, i, j) else Reachable(keys, j))
  }

  /** The first empty slot behind an occupied one. */
  lemma {:induction false} FirstEmpty(keys: Slots, i0: nat, i: nat, e0: nat) returns (e: nat)
    requires i0 < |keys| && i < |keys| && e0 < |keys| && keys[e0] == None && i0 != e0
    requires 0 < Dist(i0, i, |keys|) <= Dist(i0, e0, |keys|)
    ensures e < |keys| && keys[e] == None && Dist(i0, i, |keys|) <= Dist(i0, e, |keys|)
    ensures forall p :: 0 <= p < |keys| && Pending(i0, i, e, p, |keys|) ==> Full(keys, p)
    decreases Dist(i0, e0, |keys|) - Dist(i0, i, |keys|)
  {
    if keys[i] == None {
      e := i;
    } else {
      var n := Next(i, |keys|);
      e := FirstEmpty(keys, i0, n, e0);
      forall p | 0 <= p < |keys| && Pending(i0, i, e, p, |keys|)
        ensures Full(keys, p)
      {
        assert p != i ==> Pending(i0, n, e, p, |keys|);
      }
    }
  }

  lemma MovingStarts(keys: Slots, i0: nat) returns (e: nat)
    requires AllReachable(keys) && Full(keys, i0) && Occupied(keys) < |keys|
    ensures Moving(keys[i0 := None], i0, Next(i0, |keys|), e)
  {
    hide Hash, Occupied;
    var e0 := SomeEmpty(keys);
    var n := Next(i0, |keys|);
    assert Dist(i0, n, |keys|) == 1;
    e := FirstEmpty(keys, i0, n, e0);
    var keys' := keys[i0 := None];
    assert e != i0;
    forall p | 0 <= p < |keys| && Pending(i0, n, e, p, |keys|)
      ensures Full(keys', p)
    {
      assert Full(keys, p);
    }
    forall j | Full(keys', j)
      ensures if Pending(i0, n, e, j, |keys|) then NearlyReachable(keys', i0, n, j) else Reachable(keys', j)
    {
      assert Full(keys, j) && Reachable(keys, j) && !Full(keys, e);
    }
  }

  /** A key that is not pending keeps its path when slot `i` is emptied: had the path led through `i`,
      the key would lie in the cluster. */
  lemma OthersKeepPath(keys: Slots, i0: nat, i: nat, e: nat, j: nat)
    requires Moving(keys, i0, i, e) && i != e && Full(keys, j) && j != i
    requires !Pending(i0, i, e, j, |keys|)
    ensures Reachable(keys[i := None], j)
  {
    assert Reachable(keys, j) && !Full(keys, e);
  }

  lemma MovingStep(keys: Slots, i0: nat, i: nat, e: nat, k: Key, q: nat)
    requires Moving(keys, i0, i, e) && i != e && keys[i] == Some(k)
    requires Passed(keys[i := None], k, q) && keys[i := None][q] == None
    ensures Moving(keys[i := None][q := Some(k)], i0, Next(i, |keys|), e) && q != e
  {
    var size, n, h := |keys|, Next(i, |keys|), Hash(k, |keys|);
    assert Pending(i0, i, e, i, size);
    assert Full(keys, i) && NearlyReachable(keys, i0, i, i);
    var keys1 := keys[i := None];
    var keys2 := keys1[q := Some(k)];
    assert Dist(h, q, size) <= Dist(h, i, size) by {
      assert !Full(keys1, i);
    }
    assert q != e by {
      assert !Full(keys, e);
    }
    forall p | 0 <= p < size && Pending(i0, n, e, p, size)
      ensures Full(keys2, p)
    {
      assert Pending(i0, i, e, p, size) && p != i;
      assert Full(keys, p);
    }
    forall j | Full(keys2, j)
      ensures if Pending(i0, n, e, j, size) then NearlyReachable(keys2, i0, n, j) else Reachable(keys2, j)
    {
      MovedKey(keys, i0, i, e, k, q, j);
    }
  }

  lemma MovedKey(keys: Slots, i0: nat, i: nat, e: nat, k: Key, q: nat, j: nat)
    requires Moving(keys, i0, i, e) && i != e && keys[i] == Some(k)
    requires Passed(keys[i := None], k, q) && keys[i := None][q] == None && q != e
    requires Full(keys[i := None][q := Some(k)], j)
    ensures if Pending(i0, Next(i, |keys|), e, j, |keys|) then NearlyReachable(keys[i := None][q := Some(k)], i0, Next(i, |keys|), j)
            else Reachable(keys[i := None][q := Some(k)], j)
  {
    hide Hash;
    var size, n := |keys|, Next(i, |keys|);
    var keys1 := keys[i := None];
    var keys2 := keys1[q := Some(k)];
    if j == q {
      assert Reachable(keys2, j);
    } else {
      assert Full(keys, j) && j != i;
      if Pending(i0, n, e, j, size) {
        assert Pending(i0, i, e, j, size);
        assert NearlyReachable(keys, i0, i, j);
      } else {
        OthersKeepPath(keys, i0, i, e, j);
        assert Reachable(keys1, j);
      }
    }
  }

  lemma MovingEnds(keys: Slots, i0: nat, i: nat, e: nat)
    requires Moving(keys, i0, i, e) && keys[i] == None
    ensures AllReachable(keys) && i == e
  {
    assert !Full(keys, i);
    assert !Pending(i0, i, e, i, |keys|);
  }

  // ----- the rest -----

  lemma {:induction false} AllEmpty(keys: Slots)
    requires forall i :: 0 <= i < |keys| ==> keys[i] == None
    ensures Occupied(keys) == 0
  {
    if keys != [] {
      AllEmpty(keys[1..]);
    }
  }

  /** Another value for a key that is there. */
  lemma ReplaceKeeps<V>(keys: Slots, vals: seq<V>, m: map<Key, V>, i: nat, v: V)
    requires NoDuplicates(keys) && Represents(keys, vals, m) && Full(keys, i)
    ensures keys[i].value in m && Represents(keys, vals[i := v], m[keys[i].value := v])
  {
    var k := keys[i].value;
    forall j | Full(keys, j)
      ensures keys[j].value in m[k := v] && m[k := v][keys[j].value] == vals[i := v][j]
    {
      assert keys[j] == keys[i] ==> j == i;
    }
  }

  lemma {:induction false} OccupiedPrefix(keys: Slots, i: nat)
    requires i < |keys|
    ensures Occupied(keys[..i + 1]) == Occupied(keys[..i]) + if keys[i].Some? then 1 else 0
    ensures Occupied(keys[..i + 1]) <= Occupied(keys)
  {
    if i == 0 {
      assert keys[..1] == [keys[0]] && keys[..0] == [];
      assert keys[..1][1..] == [];
    } else {
      assert keys[..i + 1][1..] == keys[1..][..i] && keys[..i][1..] == keys[1..][..i - 1];
      OccupiedPrefix(keys[1..], i - 1);
    }
  }

  /** What slot `i` adds to the pairs found so far. */
  lemma NextMoved<V>(keys: Slots, vals: seq<V>, m: map<Key, V>, i: nat)
    requires NoDuplicates(keys) && Represents(keys, vals, m) && i < |keys|
    ensures keys[i].Some? ==> keys[i].value in m && m[keys[i].value] == vals[i] && !Holds(keys[..i], keys[i].value)
    ensures forall k :: Holds(keys[..i + 1], k) <==> Holds(keys[..i], k) || keys[i] == Some(k)
  {
    assert keys[i].Some? ==> Full(keys, i);
    assert forall j :: 0 <= j < i && keys[..i][j].Some? && keys[i].Some? ==> Full(keys, j) && keys[..i][j] != keys[i];
    forall k
      ensures Holds(keys[..i + 1], k) <==> Holds(keys[..i], k) || keys[i] == Some(k)
    {
      if Holds(keys[..i], k) {
        var j :| 0 <= j < i && keys[..i][j] == Some(k);
        assert keys[..i + 1][j] == Some(k);
      }
      if keys[i] == Some(k) {
        assert keys[..i + 1][i] == Some(k);
      }
      if Holds(keys[..i + 1], k) {
        var j :| 0 <= j < i + 1 && keys[..i + 1][j] == Some(k);
        assert j < i ==> keys[..i][j] == Some(k);
      }
    }
  }

  /** The pairs of the first `i` slots have been moved to a table with the contents `t`. */
  ghost predicate IsMoved<V>(keys: Slots, m: map<Key, V>, i: nat, t: map<Key, V>, n: int)
    requires i <= |keys|
  {
    && n == Occupied(keys[..i])
    && (forall k :: k in t <==> Holds(keys[..i], k))
    && (forall k :: k in t ==> k in m && t[k] == m[k])
  }

  lemma MoveStarts<V>(keys: Slots, m: map<Key, V>)
    ensures IsMoved(keys, m, 0, map[], 0)
  {
    assert keys[..0] == [];
  }

  lemma MoveStep<V>(keys: Slots, vals: seq<V>, m: map<Key, V>, i: nat, t: map<Key, V>, n: int)
    requires NoDuplicates(keys) && Represents(keys, vals, m) && i < |keys| && IsMoved(keys, m, i, t, n)
    ensures n + (if keys[i].Some? then 1 else 0) <= Occupied(keys)
    ensures keys[i].Some? ==> keys[i].value !in t && IsMoved(keys, m, i + 1, t[keys[i].value := vals[i]], n + 1)
    ensures keys[i].None? ==> IsMoved(keys, m, i + 1, t, n)
  {
    hide Represents, NoDuplicates, Holds, Occupied;
    OccupiedPrefix(keys, i);
    NextMoved(keys, vals, m, i);
  }

  lemma MoveEnds<V>(keys: Slots, vals: seq<V>, m: map<Key, V>, t: map<Key, V>, n: int)
    requires Represents(keys, vals, m) && IsMoved(keys, m, |keys|, t, n)
    ensures t == m && n == Occupied(keys)
  {
    assert keys[..|keys|] == keys;
    forall j | Full(keys, j)
      ensures Holds(keys, keys[j].value)
    {
    }
  }

  lemma NotHeld<V>(keys: Slots, m: map<Key, V>, vals: seq<V>, k: Key, q: nat)
    requires Represents(keys, vals, m) && k !in m && q < |keys| && (keys[q] == None || keys[q] == Some(k))
    ensures keys[q] == None
  {
    assert keys[q] == Some(k) ==> Full(keys, q);
  }

  lemma InsertedKey<V>(keys: Slots, vals: seq<V>, m: map<Key, V>, k: Key, v: V, q: nat)
    requires Represents(keys, vals, m) && NoDuplicates(keys) && q < |keys| && keys[q] == None && k !in m
    ensures Represents(keys[q := Some(k)], vals[q := v], m[k := v]) && NoDuplicates(keys[q := Some(k)])
  {
    var keys' := keys[q := Some(k)];
    RepresentsInserted(keys, vals, m, k, v, q, keys');
    forall i, j | Full(keys', i) && Full(keys', j) && keys'[i] == keys'[j]
      ensures i == j
    {
      assert i != q ==> Full(keys, i);
      assert j != q ==> Full(keys, j);
    }
  }

  lemma HeldIsFound<V>(keys: Slots, vals: seq<V>, m: map<Key, V>, k: Key, i: nat)
    requires AllReachable(keys) && Represents(keys, vals, m) && k in m
    requires Passed(keys, k, i) && (keys[i] == None || keys[i] == Some(k))
    ensures Full(keys, i) && keys[i] == Some(k)
  {
    if keys[i] == None {
      PassedAll(keys, k, i);
    }
  }

  lemma EndBound(keys: Slots, i0: nat, i: nat, e: nat)
    requires Moving(keys, i0, i, e)
    ensures i0 < |keys| && i < |keys| && e < |keys|
  {
  }

  lemma StoredValue<V>(keys: Slots, vals: seq<V>, m: map<Key, V>, i: nat)
    requires Represents(keys, vals, m) && Full(keys, i)
    ensures |vals| == |keys| && i < |keys| && keys[i].Some? && keys[i].value in m && m[keys[i].value] == vals[i]
  {
  }

  lemma CloserToEnd(keys: Slots, i0: nat, i: nat, e: nat)
    requires Moving(keys, i0, i, e) && Full(keys, i)
    ensures Dist(Next(i, |keys|), e, |keys|) < Dist(i, e, |keys|) && i != e
  {
  }
}
