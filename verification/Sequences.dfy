/** Sequences without repetitions. */
module Sequences {

  ghost predicate Distinct<T>(s: seq<T>) {
    forall i, j :: 0 <= i < j < |s| ==> s[i] != s[j]
  }

  lemma OthersDiffer<T>(s: seq<T>, k: nat)
    requires Distinct(s) && k < |s|
    ensures forall i :: 0 <= i < |s| && i != k ==> s[i] != s[k]
  {
  }

  lemma InsertedDiffer<T>(s: seq<T>, k: nat, x: T)
    requires Distinct(s) && x !in s && k <= |s|
    ensures Distinct(s[..k] + [x] + s[k..])
  {
  }

  lemma InsertedIn<T>(s: seq<T>, k: nat, x: T, all: set<T>)
    requires k < |s| && forall i :: 0 <= i < |s| ==> s[i] in all
    ensures
      var more := s[..k + 1] + [x] + s[k + 1..];
      && |more| == |s| + 1 && more[0] == s[0] && more[|s|] == (if k + 1 == |s| then x else s[|s| - 1])
      && forall i :: 0 <= i < |more| ==> more[i] in all + {x}
  {
  }

  lemma AppendedDiffer<T>(s: seq<T>, x: T)
    requires Distinct(s) && x !in s
    ensures Distinct(s + [x])
  {
  }

  lemma RemovedDiffer<T>(s: seq<T>, k: nat)
    requires Distinct(s) && k < |s|
    ensures Distinct(s[..k] + s[k + 1..])
  {
  }
}
