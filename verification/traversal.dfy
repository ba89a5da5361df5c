/** The traversal primitive `_.each` and the search built directly on it, `_.indexOf`. */
module Traversal {

  /** `_.each` over an array: the iterator is called once per element, in index
      order, with the element and its index. What the iterator's side effects
      build up is threaded through as a state of type `S`, starting at `init`. */
  function Each<T, S>(s: seq<T>, visit: (S, nat, T) -> S, init: S): S
    decreases |s|
  {
    if |s| == 0 then init
    else visit(Each(s[..|s| - 1], visit, init), |s| - 1, s[|s| - 1])
  }

  /** An iterator that records every call it receives as an (index, value) pair. */
  function Record<T>(): (seq<(nat, T)>, nat, T) -> seq<(nat, T)>
  {
    (calls: seq<(nat, T)>, key: nat, value: T) => calls + [(key, value)]
  }

  /** Appending one element adds exactly one iterator call, at the new last index. */
  lemma EachSnoc<T, S>(s: seq<T>, x: T, visit: (S, nat, T) -> S, init: S)
    ensures Each(s + [x], visit, init) == visit(Each(s, visit, init), |s|, x)
  {
    assert (s + [x])[..|s|] == s;
  }

  /** `_.each` calls the iterator exactly once per element, in index order,
      passing each element together with its own index. */
  lemma {:induction false} EachVisitsInIndexOrder<T>(s: seq<T>)
    ensures |Each(s, Record(), [])| == |s|
    ensures forall i :: 0 <= i < |s| ==> Each(s, Record(), [])[i] == (i, s[i])
  {
    if |s| > 0 {
      var p := s[..|s| - 1];
      EachVisitsInIndexOrder(p);
      assert s == p + [s[|s| - 1]];
    }
  }

  /** The iterator `_.indexOf` hands to `_.each`: it remembers the first matching key. */
  function IndexOfVisit<T(==)>(target: T): (int, nat, T) -> int
  {
    (found: int, key: nat, value: T) => if target == value && found == -1 then key else found
  }

  /** The facts `_.indexOf` relies on, proved about its traversal directly. */
  lemma {:induction false} IndexOfFindsFirst<T>(s: seq<T>, target: T)
    ensures var r := Each(s, IndexOfVisit(target), -1);
      && (r == -1 <==> target !in s)
      && (r != -1 ==> 0 <= r < |s| && s[r] == target && forall j :: 0 <= j < r ==> s[j] != target)
  {
    if |s| > 0 {
      var p := s[..|s| - 1];
      IndexOfFindsFirst(p, target);
      assert s == p + [s[|s| - 1]];
      var rp := Each(p, IndexOfVisit(target), -1);
      if rp != -1 {
        assert s[..rp] == p[..rp];
      } else {
        assert s[..|p|] == p;
      }
    }
  }

  /** `_.indexOf`: the index of the first element equal to `target`, or -1 when there is none. */
  function IndexOf<T(==)>(s: seq<T>, target: T): (r: int)
    ensures r == -1 <==> target !in s
    ensures r != -1 ==> 0 <= r < |s| && s[r] == target && forall j :: 0 <= j < r ==> s[j] != target
  {
    IndexOfFindsFirst(s, target);
    Each(s, IndexOfVisit(target), -1)
  }

  /** The first index is unique: any position holding `target` with no earlier
      occurrence is the one `IndexOf` reports. */
  lemma IndexOfIsFirstOccurrence<T>(s: seq<T>, target: T, k: int)
    requires 0 <= k < |s| && s[k] == target && forall j :: 0 <= j < k ==> s[j] != target
    ensures IndexOf(s, target) == k
  {
  }

  /** Searching an array extended by one element: earlier occurrences win,
      and the new element is found at the old length. */
  lemma IndexOfSnoc<T>(s: seq<T>, x: T, target: T)
    ensures IndexOf(s + [x], target) ==
      if target in s then IndexOf(s, target) else if target == x then |s| else -1
  {
    EachSnoc(s, x, IndexOfVisit(target), -1);
  }
}
