# Underbar collection layer in Dafny

A Dafny model of the pure core of the underbar toolkit (`src/underbar.js`): the
array operations built on the traversal primitive `_.each` and the reduction
primitive `_.reduce`, the object merges `_.extend` and `_.defaults`, the
decorators `_.once` and `_.memoize`, and the array algebra `_.zip`,
`_.flatten`, `_.intersection` and `_.difference`.

Modules follow the sections of the source file:

- `Values` (values.dfy): `Option` for JavaScript's `undefined` slots and
  `Result` for the TypeError thrown when an operation reads `.length` of a
  missing first argument.
- `Traversal` (traversal.dfy): `_.each` as `Each(s, visit, init)`. Each call of
  the iterator is a step `visit(state, index, value)`, and the state threads
  whatever the iterator's side effects build. `_.indexOf` is built on it.
- `Collections` (collections.dfy): `filter`, `reject`, `uniq` and `map`,
  each defined through `Each` with the iterator the source passes to `_.each`;
  `pluck` through `Map`; `first` and `last` through indexing and JavaScript
  `slice`.
- `Reduction` (reduction.dfy): `_.reduce` through `Each`, keeping the seed
  quirk `initialValue || 0`, and `contains`, `every`, `some` built on it.
- `Objects` (objects.dfy): `_.extend` and `_.defaults` over `map<K, V>`.
- `Decorators` (decorators.dfy): the closure state of `_.once` and
  `_.memoize` as explicit records, with one call as a step function. The step
  also reports whether the wrapped function was evaluated.
- `Advanced` (advanced.dfy): `zip`, `flatten`, `intersection`, `difference`,
  written as methods with the loops of the source.

Modelling conventions:

- Predicates and iterators are total Dafny functions on the value alone. The
  source calls them as `iterator(value)`, so they never see the key. A
  predicate returns `bool`, which stands for the truthiness of its JavaScript
  result.
- `_.reduce` receives the accumulator type's truthiness `truthy` and its
  number `zero`, required to be falsy, so that `initialValue || 0` can be
  written out. `contains` and `every` use a `bool` accumulator. The falsy `0` that `contains` returns
  on an empty array is modelled as `false`.
- Equality is Dafny's `==`. It stands for both the loose `==` of `_.indexOf`
  and the strict `===` of `_.contains`, as the model has one element type.

Behaviour worth noting, which the model keeps as the code has it:

- `_.zip()` with no arguments returns `[]`. It does not raise an error.
- `_.every` with no iterator returns `true` at once. It does not test the
  truthiness of the elements.
- `_.intersection` walks the first of the shortest arguments and keeps that
  array's duplicates. It does not walk the first argument and does not
  collapse duplicates.
- `_.flatten` returns `undefined` when its work list becomes empty (see
  Findings).

## Model

| member | source | states |
|---|---|---|
| `Traversal.EachVisitsInIndexOrder` | src/underbar.js:44-48 | about `Traversal.Each`, the model of `_.each`: it calls the iterator exactly once per element, in index order, with each element's own index |
| `Traversal.IndexOf` | src/underbar.js:52-63 | the result is -1 exactly when the target is absent; otherwise it is an index holding the target with no earlier occurrence |
| `Traversal.IndexOfIsFirstOccurrence` | src/underbar.js:52-63 | any position holding the target with no earlier occurrence is the index `indexOf` returns |
| `Traversal.IndexOfSnoc` | src/underbar.js:52-63 | after appending an element, earlier occurrences still win, and the new element is found at the old length |
| `Collections.First` | src/underbar.js:19-26 | with no count, the first element or `undefined` on an empty array; with a count, a prefix of length `min(n, len)`, or all but the last `-n` elements for a negative count |
| `Collections.Last` | src/underbar.js:30-40 | with no count, the last element or `undefined`; with a count, a suffix of length `n` clamped to `[0, len]` |
| `Collections.FirstLastSplit` | src/underbar.js:19-40 | the first `k` and the last `len - k` elements concatenate back to the array |
| `Collections.Filter` | src/underbar.js:66-74 | every kept element is from the input and passes; every passing input element is kept; the result is no longer than the input |
| `Collections.FilterSnoc` | src/underbar.js:66-74 | an appended element is kept at the end exactly when it passes |
| `Collections.FilterAppend` | src/underbar.js:66-74 | filtering distributes over concatenation, so kept elements keep their original order |
| `Collections.FilterCount` | src/underbar.js:66-74 | a passing value keeps all its occurrences; a failing value keeps none |
| `Collections.FilterAll` | src/underbar.js:66-74 | when every element passes, the whole array is kept |
| `Collections.FilterPartition` | src/underbar.js:66-74 | a predicate and its complement split the array: lengths add up and the multisets sum to the input's |
| `Collections.Reject` | src/underbar.js:77-87 | dropping the values `filter` kept is filtering by the complement: exactly the failing elements, in order |
| `Collections.FilterRejectPartition` | src/underbar.js:66-87 | `filter` and `reject` partition the input: lengths sum to its length and multisets to its multiset |
| `Collections.Uniq` | src/underbar.js:90-98 | the result has no duplicates, holds exactly the input's values, and lists them in order of first occurrence |
| `Collections.UniqSnoc` | src/underbar.js:90-98 | an appended element is added at the end exactly when it is new |
| `Collections.UniqOfDistinct` | src/underbar.js:90-98 | a duplicate-free array is returned unchanged |
| `Collections.UniqIdempotent` | src/underbar.js:90-98 | `uniq(uniq(s)) == uniq(s)` |
| `Collections.Map` | src/underbar.js:102-111 | the result has the input's length and holds the iterator's result on each value at the same index |
| `Collections.MapIdentity` | src/underbar.js:102-111 | mapping the identity returns the array |
| `Collections.Pluck` | src/underbar.js:122-129 | one entry per object: that object's property value, or `undefined` exactly when the object lacks the property |
| `Reduction.Reduce` | src/underbar.js:151-157 | a left fold over the array, equal to an independent head-first fold; it starts from the initial value when that is truthy, and from zero when it is omitted or falsy |
| `Reduction.Contains` | src/underbar.js:160-169 | true exactly when some element equals the target, hence false on an empty array |
| `Reduction.Every` | src/underbar.js:173-185 | true with no iterator; otherwise true exactly when every element passes, hence true on an empty array |
| `Reduction.SomePass` | src/underbar.js:189-200 | true exactly when some element passes the iterator, or is truthy when no iterator is given; hence false on an empty array |
| `Objects.Extend` | src/underbar.js:221-232 | the result's keys are the union of the target's and the sources' keys; each key takes its value from the last argument holding it |
| `Objects.Defaults` | src/underbar.js:236-249 | the same key union; a key already in the target keeps its value; any key takes its value from the first argument holding it |
| `Objects.ExtendDefaultsAgree` | src/underbar.js:221-249 | `extend` and `defaults` give the same key set, and agree on a key that only one argument holds |
| `Decorators.OnceCall` | src/underbar.js:262-280 | the first call evaluates the function and caches its result; a later call returns the cached result without evaluating and leaves the state unchanged |
| `Decorators.OnceRunAfterFirst` | src/underbar.js:262-280 | after the first call, any number of calls with any arguments return the cached result, evaluate nothing and change nothing |
| `Decorators.OnceEvaluatesOnce` | src/underbar.js:262-280 | a fresh decorated function called n >= 1 times evaluates the wrapped function exactly once, and every call returns the first call's result |
| `Decorators.MemoCall` | src/underbar.js:288-298 | the function is evaluated only for a key the cache lacks; exactly that entry is added; no existing entry changes; the returned value is the cached one |
| `Decorators.MemoCallFaithful` | src/underbar.js:288-298 | a cache holding only true results stays so, and a call with key k returns func(k) |
| `Decorators.MemoRunFaithful` | src/underbar.js:288-298 | from a faithful cache, every call in a run returns func of its key |
| `Decorators.MemoRunKeys` | src/underbar.js:288-298 | after a run, the cache holds exactly the old keys and the called keys |
| `Decorators.MemoRunEvaluations` | src/underbar.js:288-298 | the number of evaluations in a run equals the number of entries the run adds to the cache |
| `Advanced.MaxLength` | src/underbar.js:367-373 | the result is at least every argument's length, is attained by some argument, and is 0 with no arguments |
| `Advanced.Zip` | src/underbar.js:366-383 | as many rows as the longest argument, each with one entry per argument; entry j of row i is argument j's element i, or `undefined` past its end |
| `Advanced.Flatten` | src/underbar.js:389-412 | the caller's `result` array ends up holding the given prefix followed by all leaves in depth-first order on every path; the return value is `undefined` when the work list ends in an empty array (including `[]` and `[1, []]`), and that array otherwise |
| `Advanced.SpliceFacts` | src/underbar.js:394-402 | splicing a sub-array into the work list shrinks the list, keeps the leaves in order, and does not change whether the list ends empty |
| `Advanced.FlattenAll` | src/underbar.js:389-412 | with the fall-through fixed, the result is always the prefix followed by all leaves in depth-first order |
| `Advanced.TrailingEmptyArrayLosesLeaves` | src/underbar.js:393-411 | `[1, []]` has the leaf 1, yet its work list ends empty |
| `Advanced.FirstShortestUnique` | src/underbar.js:418-425 | only one index is the first of the shortest arguments |
| `Advanced.Intersection` | src/underbar.js:416-444 | TypeError exactly with no arguments; otherwise the elements of the first shortest argument that occur in every argument, in order and with its duplicates |
| `Advanced.Difference` | src/underbar.js:448-466 | TypeError exactly with no arguments; otherwise the first argument's elements found in no other argument, in order, each kept with its full multiplicity; with one argument, that argument unchanged |

## Left out

- `_.delay`: it schedules through `setTimeout` and the host event loop, which the model does not have.
- `_.throttle`: the source body is empty, so there is no window logic to model.
- `_.shuffle`: it draws `Math.random` floats and sorts with the host sort.
- `_.sortBy`: an in-place host sort with a subtracting comparator, which gives NaN for non-numeric keys.
- `_.invoke`: dynamic method lookup and `Function.prototype.apply` have no counterpart in the model.
- `_.each` uses `for...in`, whose enumeration details are not modelled. On plain objects this means enumeration order, string keys and inherited properties. On arrays it means skipped holes and visited non-index enumerable properties. A model array is dense and holds only its indices, so `Collections.Map` keeps the length where `_.map([, 1], f)` in the source has length 1. The object case appears only inside `Objects.Extend` and `Objects.Defaults`, as map merges. `reduce`, `contains`, `every` and `some` are modelled on arrays only.
- Loose `==` coercion in `_.indexOf` is not modelled, and neither is the prototype chain: `in` walking it in `_.defaults` and `_.memoize`, and `value[propertyName]` reading inherited properties in `_.pluck`. The memo keys are not coerced to strings.
- The scratch slots `_.index` and `_.filteredArray` are globals in the source; the model treats them as locals. The unused return value of `_.each` is not modelled.
- `this` binding is not modelled. The extra arguments `_.once` and `_.memoize` forward through `apply` are reduced to one argument value.
- `Collections.First` and `Collections.Last` take whole-number counts only; non-integer or string counts are not modelled.
- `Decorators.OnceCall` and `Decorators.MemoCall`: the wrapped function is a pure, total Dafny function, so exceptions from it and re-entrant calls into the decorated function are not modelled. In the source a first call of `_.once` that throws leaves `alreadyCalled` false and is retried, `_.memoize` caches nothing for a call that throws, and a memoized function that recurses through its own wrapper can add many entries in one call.
- `Advanced.Flatten`: the guard `typeof(result) === 'null'` is never true. A `null` prefix would make `push` throw; the model has only "given" or `undefined`.
- `Collections.Last`: with a count larger than the length, the source returns the caller's array itself, not a copy, so later pushes to the result change the argument. A value sequence cannot show this aliasing; every other path of `_.first` and `_.last` returns a fresh `slice`.
- `Objects.Extend` and `Objects.Defaults` return the merged map rather than mutating the target in place.

## Findings

| source | as written | input that shows it | evidently intended | confidence | as-written member | corrected member |
|---|---|---|---|---|---|---|
| src/underbar.js:393-411 | The loop returns only from inside its body, so an empty work list falls through to `undefined`. The work list is empty for `[]`, and it becomes empty for any array that ends in an empty sub-array. | `_.flatten([1, []])` gives `undefined` rather than `[1]`; `_.flatten([])` gives `undefined` rather than `[]` | return the accumulated `result` | high, not executed | `Advanced.Flatten` (with `Advanced.TrailingEmptyArrayLosesLeaves`) | `Advanced.FlattenAll` |
