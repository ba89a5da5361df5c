/** The reduction primitive `_.reduce` and the tests built on it:
    `_.contains`, `_.every` and `_.some`. */
module Reduction {
  import opened Values
  import opened Traversal

  /** A left fold written head first, independently of `_.each`. */
  function FoldLeft<T, A>(f: (A, T) -> A, acc: A, s: seq<T>): A
    decreases |s|
  {
    if |s| == 0 then acc else FoldLeft(f, f(acc, s[0]), s[1..])
  }

  lemma {:induction false} FoldLeftSnoc<T, A>(f: (A, T) -> A, acc: A, s: seq<T>, x: T)
    ensures FoldLeft(f, acc, s + [x]) == f(FoldLeft(f, acc, s), x)
    decreases |s|
  {
    if |s| > 0 {
      assert (s + [x])[1..] == s[1..] + [x];
      FoldLeftSnoc(f, f(acc, s[0]), s[1..], x);
    }
  }

  /** The seed `initialValue || 0`: a missing or falsy initial value is
      replaced by the accumulator type's zero. */
  function Seed<A>(initialValue: Option<A>, truthy: A -> bool, zero: A): A
  {
    if initialValue.Some? && truthy(initialValue.value) then initialValue.value else zero
  }

  /** The iterator `_.reduce` hands to `_.each`: the context becomes the
      iterator's result on the context and the value. */
  function ReduceVisit<T, A>(callback: (A, T) -> A): (A, nat, T) -> A
  {
    (context: A, key: nat, value: T) => callback(context, value)
  }

  lemma {:induction false} EachIsFoldLeft<T, A>(s: seq<T>, callback: (A, T) -> A, acc: A)
    ensures Each(s, ReduceVisit(callback), acc) == FoldLeft(callback, acc, s)
    decreases |s|
  {
    if |s| > 0 {
      var p := s[..|s| - 1];
      assert s == p + [s[|s| - 1]];
      EachIsFoldLeft(p, callback, acc);
      FoldLeftSnoc(callback, acc, p, s[|s| - 1]);
    }
  }

  /** `_.reduce`: folds the array left to right with the callback, starting from
      the initial value when it is truthy and from zero otherwise (an omitted
      initial value counts as falsy). `truthy` is JavaScript truthiness on the
      accumulator type and `zero` its number 0. */
  function Reduce<T, A>(s: seq<T>, callback: (A, T) -> A, initialValue: Option<A>,
                        truthy: A -> bool, zero: A): (r: A)
    requires !truthy(zero)
    ensures initialValue.Some? && truthy(initialValue.value) ==> r == FoldLeft(callback, initialValue.value, s)
    ensures !(initialValue.Some? && truthy(initialValue.value)) ==> r == FoldLeft(callback, zero, s)
  {
    var context := Seed(initialValue, truthy, zero);
    EachIsFoldLeft(s, callback, context);
    Each(s, ReduceVisit(callback), context)
  }

  /** Truthiness of a boolean accumulator. The number 0 that `_.reduce` may
      substitute for a falsy seed is falsy as well, so it is modelled as `false`. */
  function Truthy(b: bool): bool
  {
    b
  }

  /** The iterator `_.contains` hands to `_.reduce`. */
  function ContainsStep<T(==)>(target: T): (bool, T) -> bool
  {
    (wasFound: bool, item: T) => if wasFound then true else item == target
  }

  lemma {:induction false} ContainsFold<T>(target: T, wasFound: bool, s: seq<T>)
    ensures FoldLeft(ContainsStep(target), wasFound, s) == (wasFound || target in s)
    decreases |s|
  {
    if |s| > 0 {
      assert s == [s[0]] + s[1..];
      ContainsFold(target, ContainsStep(target)(wasFound, s[0]), s[1..]);
    }
  }

  /** `_.contains`: whether some element is `===` the target. The seed `false`
      is falsy and becomes 0, so an empty array yields the falsy 0, modelled as
      `false`. */
  function Contains<T(==)>(s: seq<T>, target: T): (r: bool)
    ensures r <==> target in s
  {
    ContainsFold(target, false, s);
    Reduce(s, ContainsStep(target), Some(false), Truthy, false)
  }

  /** The iterator `_.every` hands to `_.reduce`. */
  function EveryStep<T>(callback: T -> bool): (bool, T) -> bool
  {
    (allTrue: bool, item: T) => if !allTrue then false else callback(item)
  }

  lemma {:induction false} EveryFold<T>(callback: T -> bool, allTrue: bool, s: seq<T>)
    ensures FoldLeft(EveryStep(callback), allTrue, s) <==>
      allTrue && forall i :: 0 <= i < |s| ==> callback(s[i])
    decreases |s|
  {
    if |s| > 0 {
      EveryFold(callback, EveryStep(callback)(allTrue, s[0]), s[1..]);
      assert forall i :: 1 <= i < |s| ==> s[i] == s[1..][i - 1];
    }
  }

  /** `_.every`: with no callback, `true` whatever the collection; otherwise
      whether every element passes, hence `true` on an empty array. */
  function Every<T>(s: seq<T>, callback: Option<T -> bool>): (r: bool)
    ensures callback.None? ==> r
    ensures callback.Some? ==> (r <==> forall i :: 0 <= i < |s| ==> callback.value(s[i]))
  {
    match callback
    case None => true
    case Some(pass) =>
      EveryFold(pass, true, s);
      Reduce(s, EveryStep(pass), Some(true), Truthy, false)
  }

  /** The negated iterator `_.some` hands to `_.every`. */
  function Fails<T>(callback: T -> bool): T -> bool
  {
    item => !callback(item)
  }

  /** `_.some`: whether at least one element passes, hence `false` on an empty
      array. With no callback, the element's own truthiness (`truthy`) is used. */
  function SomePass<T>(s: seq<T>, callback: Option<T -> bool>, truthy: T -> bool): (r: bool)
    ensures callback.Some? ==> (r <==> exists i :: 0 <= i < |s| && callback.value(s[i]))
    ensures callback.None? ==> (r <==> exists i :: 0 <= i < |s| && truthy(s[i]))
  {
    var pass := if callback.None? then truthy else callback.value;
    !Every(s, Some(Fails(pass)))
  }
}
