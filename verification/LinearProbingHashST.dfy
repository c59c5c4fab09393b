/** The linear-probing hash table. */
module LinearProbing {
  import opened Options
  import opened ProbeTables

  class LinearProbingHashST<V(0,==)> {
    /** The number of key-value pairs. */
    var N: int
    /** The size of the table. */
    var M: int
    var keys: array<Option<Key>>
    var vals: array<V>
    /** The contents. */
    ghost var contents: map<Key, V>

    /** Room, counted pairs, and the contents in the slots; the paths are stated separately. */
    ghost predicate Stores()
      reads this, keys, vals
    {
      && M == keys.Length == vals.Length && keys != vals && 2 <= M
      && NoDuplicates(keys[..]) && Represents(keys[..], vals[..], contents)
    }

    ghost predicate Valid()
      reads this, keys, vals
    {
      Stores() && AllReachable(keys[..]) && N == Occupied(keys[..]) && 2 * N <= M
    }

    constructor (cap: nat)
      requires 2 <= cap
      ensures Valid() && M == cap && N == 0 && contents == map[] && fresh(keys) && fresh(vals)
    {
      M, N := cap, 0;
      keys := new Option<Key>[cap](_ => None);
      vals := new V[cap];
      contents := map[];
      new;
      AllEmpty(keys[..]);
    }

    /** Probes from the hash of the key to the key or an empty slot. */
    method Probe(key: Key) returns (i: nat)
      requires M == keys.Length && 0 < M && Occupied(keys[..]) < M
      ensures Passed(keys[..], key, i) && (keys[i] == None || keys[i] == Some(key))
    {
      ghost var e := SomeEmpty(keys[..]);
      i := Hash(key, M);
      while keys[i].Some? && keys[i].value != key
        invariant Passed(keys[..], key, i)
        decreases Dist(i, e, M)
      {
        PassedNext(keys[..], key, i, e);
        i := (i + 1) % M;
      }
    }

    /** Stores a pair without a look at the size of the table. */
    method Insert(key: Key, val: V)
      requires Valid() && 2 * (N + 1) <= M
      modifies this`N, this`contents, keys, vals
      ensures Valid() && contents == old(contents)[key := val]
      ensures N == old(N) + if key in old(contents) then 0 else 1
    {
      var i := Probe(key);
      ghost var ks, vs := keys[..], vals[..];
      if keys[i] == Some(key) {
        ReplaceKeeps(ks, vs, contents, i, val);
        vals[i] := val;
        assert vals[..] == vs[i := val];
        contents := contents[key := val];
        return;
      }
      PassedAll(ks, key, i);
      InsertKeeps(ks, vs, contents, key, val, i);
      OccupiedUpdate(ks, i, Some(key));
      keys[i] := Some(key);
      vals[i] := val;
      N := N + 1;
      assert keys[..] == ks[i := Some(key)] && vals[..] == vs[i := val];
      contents := contents[key := val];
    }

    /** Moves all pairs to a table of another size. */
    method Resize(cap: nat)
      requires Valid() && 2 * N <= cap && 2 <= cap
      modifies this`M, this`keys, this`vals
      ensures Valid() && M == cap && N == old(N) && contents == old(contents) && fresh(keys) && fresh(vals)
    {
      hide IsMoved, AllReachable, NoDuplicates, Represents;
      var t: LinearProbingHashST<V> := new LinearProbingHashST<V>(cap);
      ghost var ks, vs := keys[..], vals[..];
      MoveStarts(ks, contents);
      for i := 0 to M
        invariant M == keys.Length == vals.Length && keys[..] == ks && vals[..] == vs
        invariant fresh(t) && fresh(t.keys) && fresh(t.vals) && t.Valid() && t.M == cap
        invariant IsMoved(ks, contents, i, t.contents, t.N)
        modifies t`N, t`contents, t.keys, t.vals
      {
        MoveStep(ks, vs, contents, i, t.contents, t.N);
        if keys[i].Some? {
          t.Insert(keys[i].value, vals[i]);
        }
      }
      MoveEnds(ks, vs, contents, t.contents, t.N);
      keys, vals, M := t.keys, t.vals, t.M;
    }

    method Put(key: Key, val: V)
      requires Valid()
      modifies this, keys, vals
      ensures Valid() && contents == old(contents)[key := val]
      ensures N == old(N) + (if key in old(contents) then 0 else 1)
      ensures M == if old(N) >= old(M) / 2 then 2 * old(M) else old(M)
      ensures keys == old(keys) || fresh(keys)
      ensures vals == old(vals) || fresh(vals)
    {
      if N >= M / 2 {
        Resize(2 * M);
      }
      Insert(key, val);
    }

    method Get(key: Key) returns (val: Option<V>)
      requires Valid()
      ensures val == if key in contents then Some(contents[key]) else None
    {
      var i := Probe(key);
      if keys[i] == Some(key) {
        assert Full(keys[..], i);
        return Some(vals[i]);
      }
      PassedAll(keys[..], key, i);
      val := None;
    }

    method Contains(key: Key) returns (b: bool)
      requires Valid()
      ensures b <==> key in contents
    {
      var val := Get(key);
      b := val.Some?;
    }

    /** Empties the slot of a key that is there. */
    method Clear(i: nat)
      requires Stores() && Full(keys[..], i)
      modifies this`contents, keys, vals
      ensures Stores() && keys[..] == old(keys[..])[i := None] && contents == old(contents) - {old(keys[i]).value}
    {
      ghost var ks, vs := keys[..], vals[..];
      RepresentsRemoved(ks, vs, contents, i);
      contents := contents - {keys[i].value};
      keys[i] := None;
      assert keys[..] == ks[i := None];
    }

    /** Fills an empty slot. */
    method Fill(q: nat, key: Key, val: V)
      requires Stores() && q < M && keys[q] == None && key !in contents
      modifies this`contents, keys, vals
      ensures Stores() && keys[..] == old(keys[..])[q := Some(key)] && contents == old(contents)[key := val]
    {
      ghost var ks, vs := keys[..], vals[..];
      InsertedKey(ks, vs, contents, key, val, q);
      keys[q] := Some(key);
      vals[q] := val;
      assert keys[..] == ks[q := Some(key)] && vals[..] == vs[q := val];
      contents := contents[key := val];
    }

    /** Stores a pair with a new key in the first empty slot, while other keys may be out of reach. */
    method Reinsert(key: Key, val: V) returns (q: nat)
      requires Stores() && Occupied(keys[..]) < M && key !in contents
      modifies this`contents, keys, vals
      ensures Stores() && contents == old(contents)[key := val]
      ensures Passed(old(keys[..]), key, q) && old(keys[..])[q] == None && keys[..] == old(keys[..])[q := Some(key)]
      ensures Occupied(keys[..]) == old(Occupied(keys[..])) + 1
    {
      hide Represents, NoDuplicates, Occupied;
      q := Probe(key);
      NotHeld(keys[..], contents, vals[..], key, q);
      OccupiedUpdate(keys[..], q, Some(key));
      Fill(q, key, val);
    }

    /** Inserts the key at `i` again, while the cluster behind the empty slot `i0` is being moved. */
    method Redo(i: nat, ghost i0: nat, ghost e: nat)
      requires Stores() && Moving(keys[..], i0, i, e) && Full(keys[..], i) && Occupied(keys[..]) < M
      modifies this`contents, keys, vals
      ensures Stores() && contents == old(contents) && Occupied(keys[..]) == old(Occupied(keys[..]))
      ensures Moving(keys[..], i0, Next(i, M), e) && Dist(Next(i, M), e, M) < Dist(i, e, M)
    {
      hide Moving, Represents, NoDuplicates, Occupied, Passed, Dist, Next, Full;
      ghost var ks, m := keys[..], contents;
      EndBound(ks, i0, i, e);
      StoredValue(ks, vals[..], contents, i);
      OccupiedUpdate(ks, i, None);
      CloserToEnd(ks, i0, i, e);
      var keyToRedo, valToRedo := keys[i].value, vals[i];
      Clear(i);
      var q := Reinsert(keyToRedo, valToRedo);
      assert contents == m;
      MovingStep(ks, i0, i, e, keyToRedo, q);
    }

    /** Inserts the keys behind the emptied slot `i0` again, up to the next empty slot. */
    method MoveCluster(i0: nat, ghost e: nat)
      requires Stores() && i0 < M && Moving(keys[..], i0, Next(i0, M), e) && Occupied(keys[..]) < M
      modifies this`contents, keys, vals
      ensures Stores() && contents == old(contents) && Occupied(keys[..]) == old(Occupied(keys[..]))
      ensures AllReachable(keys[..])
    {
      EndBound(keys[..], i0, Next(i0, M), e);
      hide Moving, Represents, NoDuplicates, AllReachable, Occupied;
      var i: nat := (i0 + 1) % M;
      while keys[i].Some?
        invariant Stores() && i < M && e < M && Moving(keys[..], i0, i, e)
        invariant Occupied(keys[..]) == old(Occupied(keys[..])) && contents == old(contents)
        decreases Dist(i, e, M)
      {
        Redo(i, i0, e);
        i := (i + 1) % M;
      }
      MovingEnds(keys[..], i0, i, e);
    }

    /** Removes a key, and moves the keys of the cluster behind it. */
    method Delete(key: Key)
      requires Valid()
      modifies this, keys, vals
      ensures Valid() && contents == old(contents) - {key}
      ensures N == old(N) - (if key in old(contents) then 1 else 0)
      ensures M == if key in old(contents) && N > 0 && N == old(M) / 8 then old(M) / 2 else old(M)
      ensures keys == old(keys) || fresh(keys)
      ensures vals == old(vals) || fresh(vals)
    {
      var present := Contains(key);
      if !present {
        return;
      }
      TakeOut(key);
      if N > 0 && N == M / 8 {
        Resize(M / 2);
      }
    }

    method TakeOut(key: Key)
      requires Valid() && key in contents
      modifies this`N, this`contents, keys, vals
      ensures Valid() && contents == old(contents) - {key} && N == old(N) - 1
    {
      hide Represents, NoDuplicates, AllReachable, Occupied, Moving;
      var i0 := Probe(key);
      HeldIsFound(keys[..], vals[..], contents, key, i0);
      ghost var e := MovingStarts(keys[..], i0);
      OccupiedUpdate(keys[..], i0, None);
      Clear(i0);
      MoveCluster(i0, e);
      N := N - 1;
    }
  }
}
