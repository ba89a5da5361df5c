/** The array operations of the COLLECTIONS section: `filter`, `reject`, `uniq`
    and `map` built on `_.each`, `pluck` built on `map`, and `first` and `last`
    built on indexing and `slice`. */
module Collections {
  import opened Values
  import opened Traversal

  /** What `_.first` and `_.last` return: a single element (possibly
      `undefined`) when no count is given, otherwise an array. */
  datatype Taken<T> = Element(item: Option<T>) | Items(items: seq<T>)

  /** JavaScript's index normalisation for `Array.prototype.slice`: a negative
      index counts back from the end, and the result is clamped to `[0, len]`. */
  function ClampIndex(k: int, len: nat): (r: nat)
    ensures r <= len
    ensures 0 <= k <= len ==> r == k
    ensures k < 0 && len + k >= 0 ==> r == len + k
  {
    if k < 0 then (if len + k < 0 then 0 else len + k)
    else if k > len then len
    else k
  }

  /** `Array.prototype.slice(start, end)`. */
  function Slice<T>(s: seq<T>, start: int, end: int): seq<T>
  {
    var from := ClampIndex(start, |s|);
    var to := ClampIndex(end, |s|);
    if from < to then s[from..to] else []
  }

  /** The element at index 0, `undefined` for an empty array. */
  function Head<T>(s: seq<T>): Option<T>
  {
    if |s| == 0 then None else Some(s[0])
  }

  /** `_.first`: with no count, the first element; with a count `n >= 0`, the
      first `n` elements (all of them when `n` exceeds the length); with a
      negative count, everything except the last `-n` elements. */
  function First<T>(s: seq<T>, n: Option<int>): (r: Taken<T>)
    ensures n.None? <==> r.Element?
    ensures r.Element? ==> (r.item.Some? <==> |s| > 0) && (r.item.Some? ==> r.item.value == s[0])
    ensures r.Items? ==> r.items <= s
    ensures r.Items? && n.value >= 0 ==> |r.items| == if n.value > |s| then |s| else n.value
    ensures r.Items? && n.value < 0 ==> |r.items| == if |s| + n.value < 0 then 0 else |s| + n.value
  {
    match n
    case None => Element(Head(s))
    case Some(k) => Items(Slice(s, 0, k))
  }

  /** `_.last`: with no count, the last element; with a count `n`, the last `n`
      elements (all of them when `n` exceeds the length, none when `n <= 0`). */
  function Last<T>(s: seq<T>, n: Option<int>): (r: Taken<T>)
    ensures n.None? <==> r.Element?
    ensures r.Element? ==> (r.item.Some? <==> |s| > 0) && (r.item.Some? ==> r.item.value == s[|s| - 1])
    ensures r.Items? ==> |r.items| <= |s| && r.items == s[|s| - |r.items|..]
    ensures r.Items? ==> |r.items| == if n.value > |s| then |s| else if n.value < 0 then 0 else n.value
  {
    match n
    case None => Element(if |s| == 0 then None else Some(s[|s| - 1]))
    case Some(k) =>
      if k > |s| then Items(s)
      else Items(Slice(s, |s| - k, |s|))
  }

  /** The first `k` and the last `|s| - k` elements put back together give the array. */
  lemma FirstLastSplit<T>(s: seq<T>, k: int)
    requires 0 <= k <= |s|
    ensures First(s, Some(k)).items + Last(s, Some(|s| - k)).items == s
  {
    assert s[..k] + s[k..] == s;
  }

  /** The iterator `_.filter` hands to `_.each`: push the value when it passes. */
  function FilterVisit<T>(pred: T -> bool): (seq<T>, nat, T) -> seq<T>
  {
    (kept: seq<T>, key: nat, value: T) => if pred(value) then kept + [value] else kept
  }

  /** Filtering an array extended by one element. */
  lemma FilterVisitSnoc<T>(s: seq<T>, x: T, pred: T -> bool)
    ensures Each(s + [x], FilterVisit(pred), []) ==
      Each(s, FilterVisit(pred), []) + if pred(x) then [x] else []
  {
    EachSnoc(s, x, FilterVisit(pred), []);
  }

  lemma {:induction false} FilterMembers<T>(s: seq<T>, pred: T -> bool)
    ensures var r := Each(s, FilterVisit(pred), []);
      && |r| <= |s|
      && (forall i :: 0 <= i < |r| ==> r[i] in s && pred(r[i]))
      && (forall i :: 0 <= i < |s| && pred(s[i]) ==> s[i] in r)
  {
    if |s| > 0 {
      var p := s[..|s| - 1];
      assert s == p + [s[|s| - 1]];
      FilterMembers(p, pred);
      FilterVisitSnoc(p, s[|s| - 1], pred);
    }
  }

  /** `_.filter`: the elements whose predicate is truthy. The predicate sees
      only the value. */
  function Filter<T>(s: seq<T>, pred: T -> bool): (r: seq<T>)
    ensures |r| <= |s|
    ensures forall i :: 0 <= i < |r| ==> r[i] in s && pred(r[i])
    ensures forall i :: 0 <= i < |s| && pred(s[i]) ==> s[i] in r
  {
    FilterMembers(s, pred);
    Each(s, FilterVisit(pred), [])
  }

  lemma FilterSnoc<T>(s: seq<T>, x: T, pred: T -> bool)
    ensures Filter(s + [x], pred) == Filter(s, pred) + if pred(x) then [x] else []
  {
    FilterVisitSnoc(s, x, pred);
  }

  /** Filtering distributes over concatenation; together with `FilterSnoc` on a
      single element this says the kept elements stay in their original order. */
  lemma {:induction false} FilterAppend<T>(a: seq<T>, b: seq<T>, pred: T -> bool)
    ensures Filter(a + b, pred) == Filter(a, pred) + Filter(b, pred)
    decreases |b|
  {
    if |b| == 0 {
      assert a + b == a;
      assert Filter(b, pred) == [];
    } else {
      var q := b[..|b| - 1];
      var y := b[|b| - 1];
      assert b == q + [y];
      assert a + b == (a + q) + [y];
      FilterAppend(a, q, pred);
      FilterSnoc(a + q, y, pred);
      FilterSnoc(q, y, pred);
    }
  }

  /** Every occurrence of a passing value is kept, every occurrence of a failing one dropped. */
  lemma {:induction false} FilterCount<T>(s: seq<T>, pred: T -> bool, x: T)
    ensures multiset(Filter(s, pred))[x] == if pred(x) then multiset(s)[x] else 0
  {
    if |s| > 0 {
      var p := s[..|s| - 1];
      assert s == p + [s[|s| - 1]];
      FilterCount(p, pred, x);
      FilterSnoc(p, s[|s| - 1], pred);
    }
  }

  /** When every element passes, filtering keeps the whole array. */
  lemma {:induction false} FilterAll<T>(s: seq<T>, pred: T -> bool)
    requires forall i :: 0 <= i < |s| ==> pred(s[i])
    ensures Filter(s, pred) == s
  {
    if |s| > 0 {
      var p := s[..|s| - 1];
      assert s == p + [s[|s| - 1]];
      FilterAll(p, pred);
      FilterSnoc(p, s[|s| - 1], pred);
    }
  }

  /** The complement of a predicate. */
  function Not<T>(pred: T -> bool): T -> bool
  {
    x => !pred(x)
  }

  /** A predicate and its complement split the array: lengths add up and every
      element lands on exactly one side. */
  lemma {:induction false} FilterPartition<T>(s: seq<T>, pred: T -> bool)
    ensures |Filter(s, pred)| + |Filter(s, Not(pred))| == |s|
    ensures multiset(Filter(s, pred)) + multiset(Filter(s, Not(pred))) == multiset(s)
  {
    if |s| > 0 {
      var p := s[..|s| - 1];
      var x := s[|s| - 1];
      assert s == p + [x];
      FilterPartition(p, pred);
      FilterSnoc(p, x, pred);
      FilterSnoc(p, x, Not(pred));
    }
  }

  /** The iterator `_.reject` hands to `_.each`: keep the value unless it is
      among the values `_.filter` kept. */
  function RejectVisit<T(==)>(dropped: seq<T>): (seq<T>, nat, T) -> seq<T>
  {
    (kept: seq<T>, key: nat, value: T) => if IndexOf(dropped, value) == -1 then kept + [value] else kept
  }

  lemma {:induction false} RejectPrefix<T>(t: seq<T>, dropped: seq<T>, pred: T -> bool)
    requires forall x :: x in t ==> (x in dropped <==> pred(x))
    ensures Each(t, RejectVisit(dropped), []) == Filter(t, Not(pred))
  {
    if |t| > 0 {
      var p := t[..|t| - 1];
      var x := t[|t| - 1];
      assert t == p + [x];
      RejectPrefix(p, dropped, pred);
      EachSnoc(p, x, RejectVisit(dropped), []);
      FilterSnoc(p, x, Not(pred));
    }
  }

  /** `_.reject`: the elements not equal to any element `_.filter` kept. As the
      predicate sees only the value, this is the filter by its complement. */
  function Reject<T(==)>(s: seq<T>, pred: T -> bool): (r: seq<T>)
    ensures r == Filter(s, Not(pred))
    ensures forall i :: 0 <= i < |r| ==> r[i] in s && !pred(r[i])
    ensures forall i :: 0 <= i < |s| && !pred(s[i]) ==> s[i] in r
  {
    var dropped := Filter(s, pred);
    RejectPrefix(s, dropped, pred);
    Each(s, RejectVisit(dropped), [])
  }

  /** `_.filter` and `_.reject` partition the array. */
  lemma FilterRejectPartition<T>(s: seq<T>, pred: T -> bool)
    ensures |Filter(s, pred)| + |Reject(s, pred)| == |s|
    ensures multiset(Filter(s, pred)) + multiset(Reject(s, pred)) == multiset(s)
  {
    FilterPartition(s, pred);
  }

  /** No value occurs twice. */
  ghost predicate Distinct<T>(s: seq<T>)
  {
    forall i, j :: 0 <= i < j < |s| ==> s[i] != s[j]
  }

  /** The iterator `_.uniq` hands to `_.each`: push the value unless already pushed. */
  function UniqVisit<T(==)>(): (seq<T>, nat, T) -> seq<T>
  {
    (seen: seq<T>, key: nat, value: T) => if IndexOf(seen, value) == -1 then seen + [value] else seen
  }

  /** Running `_.uniq`'s traversal on an array extended by one element. */
  lemma UniqVisitSnoc<T>(s: seq<T>, x: T)
    ensures Each(s + [x], UniqVisit(), []) ==
      var u := Each(s, UniqVisit(), []); if x in u then u else u + [x]
  {
    EachSnoc(s, x, UniqVisit(), []);
  }

  lemma {:induction false} UniqMembers<T>(s: seq<T>)
    ensures var u := Each(s, UniqVisit(), []);
      && (forall i :: 0 <= i < |u| ==> u[i] in s)
      && (forall i :: 0 <= i < |s| ==> s[i] in u)
  {
    if |s| > 0 {
      var p := s[..|s| - 1];
      assert s == p + [s[|s| - 1]];
      UniqMembers(p);
      UniqVisitSnoc(p, s[|s| - 1]);
    }
  }

  lemma {:induction false} UniqDistinct<T>(s: seq<T>)
    ensures Distinct(Each(s, UniqVisit(), []))
  {
    if |s| > 0 {
      var p := s[..|s| - 1];
      assert s == p + [s[|s| - 1]];
      UniqDistinct(p);
      UniqVisitSnoc(p, s[|s| - 1]);
    }
  }

  lemma {:induction false} UniqOrder<T>(s: seq<T>)
    ensures var u := Each(s, UniqVisit(), []);
      forall i, j :: 0 <= i < j < |u| ==> IndexOf(s, u[i]) < IndexOf(s, u[j])
  {
    if |s| > 0 {
      var p := s[..|s| - 1];
      var x := s[|s| - 1];
      assert s == p + [x];
      UniqOrder(p);
      UniqMembers(p);
      UniqVisitSnoc(p, x);
      var up := Each(p, UniqVisit(), []);
      var u := Each(s, UniqVisit(), []);
      forall i, j | 0 <= i < j < |u|
        ensures IndexOf(s, u[i]) < IndexOf(s, u[j])
      {
        assert u[i] == up[i] && up[i] in up;
        IndexOfSnoc(p, x, u[i]);
        IndexOfSnoc(p, x, u[j]);
        if j < |up| {
          assert u[j] == up[j] && up[j] in up;
        } else {
          assert u[j] == x && x !in p;
        }
      }
    }
  }

  /** `_.uniq`: a duplicate-free array with the same elements, listed in the
      order of their first occurrence in the input. */
  function Uniq<T(==)>(s: seq<T>): (r: seq<T>)
    ensures Distinct(r)
    ensures forall i :: 0 <= i < |r| ==> r[i] in s
    ensures forall i :: 0 <= i < |s| ==> s[i] in r
    ensures forall i, j :: 0 <= i < j < |r| ==> IndexOf(s, r[i]) < IndexOf(s, r[j])
  {
    UniqMembers(s);
    UniqDistinct(s);
    UniqOrder(s);
    Each(s, UniqVisit(), [])
  }

  lemma UniqSnoc<T>(s: seq<T>, x: T)
    ensures Uniq(s + [x]) == if x in s then Uniq(s) else Uniq(s) + [x]
  {
    UniqVisitSnoc(s, x);
  }

  /** An array without duplicates is its own `_.uniq`. */
  lemma {:induction false} UniqOfDistinct<T>(s: seq<T>)
    requires Distinct(s)
    ensures Uniq(s) == s
  {
    if |s| > 0 {
      var p := s[..|s| - 1];
      var x := s[|s| - 1];
      assert s == p + [x];
      assert Distinct(p);
      UniqOfDistinct(p);
      UniqSnoc(p, x);
    }
  }

  /** `_.uniq` is idempotent. */
  lemma UniqIdempotent<T>(s: seq<T>)
    ensures Uniq(Uniq(s)) == Uniq(s)
  {
    UniqOfDistinct(Uniq(s));
  }

  /** The iterator `_.map` hands to `_.each`: push the iterator's result on the value alone. */
  function MapVisit<T, U>(f: T -> U): (seq<U>, nat, T) -> seq<U>
  {
    (mapped: seq<U>, key: nat, value: T) => mapped + [f(value)]
  }

  lemma {:induction false} MapFacts<T, U>(s: seq<T>, f: T -> U)
    ensures var r := Each(s, MapVisit(f), []);
      |r| == |s| && forall i :: 0 <= i < |s| ==> r[i] == f(s[i])
  {
    if |s| > 0 {
      var p := s[..|s| - 1];
      assert s == p + [s[|s| - 1]];
      MapFacts(p, f);
      EachSnoc(p, s[|s| - 1], MapVisit(f), []);
    }
  }

  /** `_.map`: the iterator's result for every element, same length, same order. */
  function Map<T, U>(s: seq<T>, f: T -> U): (r: seq<U>)
    ensures |r| == |s|
    ensures forall i :: 0 <= i < |s| ==> r[i] == f(s[i])
  {
    MapFacts(s, f);
    Each(s, MapVisit(f), [])
  }

  /** Mapping the identity gives back the array. */
  lemma MapIdentity<T>(s: seq<T>)
    ensures Map(s, (x: T) => x) == s
  {
  }

  /** A property read `value[propertyName]`, `undefined` when the object lacks it. */
  function Property<K, V>(obj: map<K, V>, name: K): Option<V>
  {
    if name in obj then Some(obj[name]) else None
  }

  /** `_.pluck`: the named property of every object, `undefined` where it is missing. */
  function Pluck<K, V>(s: seq<map<K, V>>, name: K): (r: seq<Option<V>>)
    ensures |r| == |s|
    ensures forall i :: 0 <= i < |s| ==> (r[i].Some? <==> name in s[i])
    ensures forall i :: 0 <= i < |s| && name in s[i] ==> r[i] == Some(s[i][name])
  {
    Map(s, (obj: map<K, V>) => Property(obj, name))
  }
}
