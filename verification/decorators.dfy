/** The FUNCTIONS section: the decorators `_.once` and `_.memoize`. The state
    their closures hold is an explicit record, and one call of the decorated
    function is a step from one state to the next. */
module Decorators {
  import opened Values

  /** One call of a decorated function: the state afterwards, the value
      returned, and whether the wrapped function was evaluated. */
  datatype Call<S, R> = Call(state: S, value: R, invoked: bool)

  /** The closure state of `_.once`: the `alreadyCalled` flag and the cached
      `result`, `undefined` until the first call. */
  datatype OnceState<R> = OnceState(alreadyCalled: bool, result: Option<R>)

  /** The state right after `_.once(func)`. */
  function OnceInit<R>(): OnceState<R>
  {
    OnceState(false, None)
  }

  /** A call of the function `_.once(func)` returned, with arguments `args`. */
  function OnceCall<A, R>(st: OnceState<R>, func: A -> R, args: A): (c: Call<OnceState<R>, Option<R>>)
    ensures c.state.alreadyCalled
    ensures c.value == c.state.result
    ensures c.invoked <==> !st.alreadyCalled
    ensures !st.alreadyCalled ==> c.value == Some(func(args))
    ensures st.alreadyCalled ==> c.state == st
  {
    if !st.alreadyCalled then
      var result := func(args);
      Call(OnceState(true, Some(result)), Some(result), true)
    else
      Call(st, st.result, false)
  }

  /** A run of calls with the given argument lists: the values returned, the
      final state and how many times `func` was evaluated. */
  datatype Run<S, R> = Run(values: seq<R>, state: S, evaluations: nat)

  function OnceRun<A, R>(st: OnceState<R>, func: A -> R, calls: seq<A>): Run<OnceState<R>, Option<R>>
    decreases |calls|
  {
    if |calls| == 0 then Run([], st, 0)
    else
      var c := OnceCall(st, func, calls[0]);
      var rest := OnceRun(c.state, func, calls[1..]);
      Run([c.value] + rest.values, rest.state, rest.evaluations + if c.invoked then 1 else 0)
  }

  /** Once called, the state never changes and every later call, whatever its
      arguments, returns the cached result without evaluating `func`. */
  lemma {:induction false} OnceRunAfterFirst<A, R>(st: OnceState<R>, func: A -> R, calls: seq<A>)
    requires st.alreadyCalled
    ensures var run := OnceRun(st, func, calls);
      && run.state == st
      && run.evaluations == 0
      && |run.values| == |calls|
      && forall i :: 0 <= i < |calls| ==> run.values[i] == st.result
    decreases |calls|
  {
    if |calls| > 0 {
      OnceRunAfterFirst(st, func, calls[1..]);
    }
  }

  /** A fresh `_.once(func)` called any number of times (at least once)
      evaluates `func` exactly once, on the first call's arguments, and every
      call returns that first result. */
  lemma OnceEvaluatesOnce<A, R>(func: A -> R, calls: seq<A>)
    requires |calls| > 0
    ensures var run := OnceRun(OnceInit(), func, calls);
      && run.evaluations == 1
      && |run.values| == |calls|
      && forall i :: 0 <= i < |calls| ==> run.values[i] == Some(func(calls[0]))
  {
    var c := OnceCall(OnceInit(), func, calls[0]);
    OnceRunAfterFirst(c.state, func, calls[1..]);
    var run := OnceRun(OnceInit(), func, calls);
    assert forall i :: 1 <= i < |calls| ==> run.values[i] == OnceRun(c.state, func, calls[1..]).values[i - 1];
  }

  /** Every cached result is what `func` gives for its key. */
  ghost predicate Faithful<K, R>(results: map<K, R>, func: K -> R)
  {
    forall k :: k in results ==> results[k] == func(k)
  }

  /** A call of the function `_.memoize(func)` returned, with argument `key`:
      `func` is evaluated only for a key the cache lacks, exactly that one entry
      is added, and no existing entry is altered. */
  function MemoCall<K(!new), R>(results: map<K, R>, func: K -> R, key: K): (c: Call<map<K, R>, R>)
    ensures key in c.state && c.value == c.state[key]
    ensures c.invoked <==> key !in results
    ensures c.state.Keys == results.Keys + {key}
    ensures forall k :: k in results ==> c.state[k] == results[k]
    ensures key !in results ==> c.value == func(key)
  {
    if key !in results then
      var results' := results[key := func(key)];
      Call(results', results'[key], true)
    else
      Call(results, results[key], false)
  }

  /** A faithful cache stays faithful, so a call with key `k` returns `func(k)`. */
  lemma MemoCallFaithful<K(!new), R>(results: map<K, R>, func: K -> R, key: K)
    requires Faithful(results, func)
    ensures Faithful(MemoCall(results, func, key).state, func)
    ensures MemoCall(results, func, key).value == func(key)
  {
  }

  function MemoRun<K(!new), R>(results: map<K, R>, func: K -> R, keys: seq<K>): Run<map<K, R>, R>
    decreases |keys|
  {
    if |keys| == 0 then Run([], results, 0)
    else
      var c := MemoCall(results, func, keys[0]);
      var rest := MemoRun(c.state, func, keys[1..]);
      Run([c.value] + rest.values, rest.state, rest.evaluations + if c.invoked then 1 else 0)
  }

  /** Starting from a faithful cache, every call returns `func` of its key and
      the cache stays faithful. */
  lemma {:induction false} MemoRunFaithful<K(!new), R>(results: map<K, R>, func: K -> R, keys: seq<K>)
    requires Faithful(results, func)
    ensures var run := MemoRun(results, func, keys);
      && |run.values| == |keys|
      && (forall i :: 0 <= i < |keys| ==> run.values[i] == func(keys[i]))
      && Faithful(run.state, func)
    decreases |keys|
  {
    if |keys| > 0 {
      var c := MemoCall(results, func, keys[0]);
      MemoRunFaithful(c.state, func, keys[1..]);
      var run := MemoRun(results, func, keys);
      var rest := MemoRun(c.state, func, keys[1..]);
      assert forall i :: 1 <= i < |keys| ==> run.values[i] == rest.values[i - 1];
    }
  }

  /** The cache ends up holding exactly the old keys and the called ones. */
  lemma {:induction false} MemoRunKeys<K(!new), R>(results: map<K, R>, func: K -> R, keys: seq<K>)
    ensures forall k :: k in MemoRun(results, func, keys).state <==> k in results || k in keys
    decreases |keys|
  {
    if |keys| > 0 {
      var c := MemoCall(results, func, keys[0]);
      MemoRunKeys(c.state, func, keys[1..]);
      assert keys == [keys[0]] + keys[1..];
    }
  }

  /** `func` is evaluated once per entry the run adds to the cache, that is,
      once per distinct called key the cache lacked. */
  lemma {:induction false} MemoRunEvaluations<K(!new), R>(results: map<K, R>, func: K -> R, keys: seq<K>)
    ensures var run := MemoRun(results, func, keys);
      results.Keys <= run.state.Keys && run.evaluations == |run.state| - |results|
    decreases |keys|
  {
    if |keys| > 0 {
      var c := MemoCall(results, func, keys[0]);
      MemoRunEvaluations(c.state, func, keys[1..]);
      if c.invoked {
        assert c.state == results[keys[0] := func(keys[0])];
        assert |c.state| == |results| + 1;
      } else {
        assert c.state == results;
      }
    }
  }
}
