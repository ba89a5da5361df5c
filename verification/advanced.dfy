/** The ADVANCED COLLECTION OPERATIONS section: `_.zip`, `_.flatten`,
    `_.intersection` and `_.difference`. The variadic `arguments` of each is a
    sequence of arrays. */
module Advanced {
  import opened Values
  import opened Traversal
  import opened Collections
  import opened Reduction

  // ---------------------------------------------------------------- zip

  /** The iterator `_.zip` hands to `_.each` to find the longest argument. */
  function MaxLengthVisit<T>(): (nat, nat, seq<T>) -> nat
  {
    (maxLength: nat, argNum: nat, arg: seq<T>) => if |arg| > maxLength then |arg| else maxLength
  }

  lemma {:induction false} MaxLengthFacts<T>(arrays: seq<seq<T>>)
    ensures var m := Each(arrays, MaxLengthVisit(), 0);
      && (forall j :: 0 <= j < |arrays| ==> |arrays[j]| <= m)
      && (|arrays| == 0 ==> m == 0)
      && (|arrays| > 0 ==> exists j :: 0 <= j < |arrays| && |arrays[j]| == m)
  {
    if |arrays| > 0 {
      var p := arrays[..|arrays| - 1];
      assert arrays == p + [arrays[|arrays| - 1]];
      MaxLengthFacts(p);
      EachSnoc(p, arrays[|arrays| - 1], MaxLengthVisit(), 0);
      if |p| > 0 {
        var j :| 0 <= j < |p| && |p[j]| == Each(p, MaxLengthVisit(), 0);
        assert arrays[j] == p[j];
      }
    }
  }

  /** The length of the longest argument, 0 when there are none. */
  function MaxLength<T>(arrays: seq<seq<T>>): (m: nat)
    ensures forall j :: 0 <= j < |arrays| ==> |arrays[j]| <= m
    ensures |arrays| == 0 ==> m == 0
    ensures |arrays| > 0 ==> exists j :: 0 <= j < |arrays| && |arrays[j]| == m
  {
    MaxLengthFacts(arrays);
    Each(arrays, MaxLengthVisit(), 0)
  }

  /** `array[i]`: `undefined` past the end. */
  function Entry<T>(arg: seq<T>, i: nat): Option<T>
  {
    if i < |arg| then Some(arg[i]) else None
  }

  /** `_.zip(...arrays)`: one row per index up to the longest argument's length,
      each row holding every argument's element at that index, `undefined`
      where an argument is too short. No arguments give an empty array. */
  method Zip<T>(arrays: seq<seq<T>>) returns (zipped: seq<seq<Option<T>>>)
    ensures forall j :: 0 <= j < |arrays| ==> |arrays[j]| <= |zipped|
    ensures |arrays| == 0 ==> |zipped| == 0
    ensures |arrays| > 0 ==> exists j :: 0 <= j < |arrays| && |arrays[j]| == |zipped|
    ensures forall i :: 0 <= i < |zipped| ==> |zipped[i]| == |arrays|
    ensures forall i, j :: 0 <= i < |zipped| && 0 <= j < |arrays| ==>
      zipped[i][j] == if i < |arrays[j]| then Some(arrays[j][i]) else None
  {
    var maxLength := MaxLength(arrays);
    zipped := [];
    var i := 0;
    while i < maxLength
      invariant 0 <= i <= maxLength && |zipped| == i
      invariant forall i' :: 0 <= i' < i ==> |zipped[i']| == |arrays|
      invariant forall i', j :: 0 <= i' < i && 0 <= j < |arrays| ==> zipped[i'][j] == Entry(arrays[j], i')
    {
      var row := [];
      var j := 0;
      while j < |arrays|
        invariant 0 <= j <= |arrays| && |row| == j
        invariant forall j' :: 0 <= j' < j ==> row[j'] == Entry(arrays[j'], i)
      {
        row := row + [Entry(arrays[j], i)];
        j := j + 1;
      }
      zipped := zipped + [row];
      i := i + 1;
    }
  }

  // ---------------------------------------------------------------- flatten

  /** A value inside a nested array: a non-array leaf, or an array. */
  datatype Nested<T> = Leaf(value: T) | List(items: seq<Nested<T>>)

  /** The number of nodes, the measure that shrinks on each recursive call of `_.flatten`. */
  function Size<T>(n: Nested<T>): nat
  {
    match n
    case Leaf(_) => 1
    case List(items) => 1 + SizeSeq(items)
  }

  function SizeSeq<T>(ws: seq<Nested<T>>): nat
  {
    if |ws| == 0 then 0 else Size(ws[0]) + SizeSeq(ws[1..])
  }

  lemma {:induction false} SizeSeqAppend<T>(a: seq<Nested<T>>, b: seq<Nested<T>>)
    ensures SizeSeq(a + b) == SizeSeq(a) + SizeSeq(b)
    decreases |a|
  {
    if |a| == 0 {
      assert a + b == b;
    } else {
      assert (a + b)[0] == a[0];
      assert (a + b)[1..] == a[1..] + b;
      SizeSeqAppend(a[1..], b);
    }
  }

  /** The leaves in left-to-right, depth-first order. */
  function Leaves<T>(ws: seq<Nested<T>>): seq<T>
  {
    if |ws| == 0 then []
    else
      (match ws[0]
       case Leaf(v) => [v]
       case List(items) => Leaves(items)) + Leaves(ws[1..])
  }

  lemma {:induction false} LeavesAppend<T>(a: seq<Nested<T>>, b: seq<Nested<T>>)
    ensures Leaves(a + b) == Leaves(a) + Leaves(b)
    decreases |a|
  {
    if |a| == 0 {
      assert a + b == b;
    } else {
      assert (a + b)[0] == a[0];
      assert (a + b)[1..] == a[1..] + b;
      LeavesAppend(a[1..], b);
    }
  }

  /** The work list ends, at some depth, in an empty array: `[]`, `[1, []]`,
      `[1, [2, []]]`. On such input `_.flatten` reaches an empty work list. */
  predicate EndsEmpty<T>(ws: seq<Nested<T>>)
  {
    |ws| == 0 || (ws[|ws| - 1].List? && EndsEmpty(ws[|ws| - 1].items))
  }

  /** The facts one recursive step of `_.flatten` needs: splicing the array at
      index `i` into the work list shrinks it, keeps the leaves in order and
      keeps how the list ends. */
  lemma SpliceFacts<T>(ws: seq<Nested<T>>, i: nat)
    requires i < |ws| && ws[i].List? && forall k :: 0 <= k < i ==> ws[k].Leaf?
    ensures var spliced := ws[i].items + ws[i + 1..];
      && SizeSeq(spliced) < SizeSeq(ws)
      && Leaves(ws) == Leaves(ws[..i]) + Leaves(spliced)
      && (EndsEmpty(spliced) <==> EndsEmpty(ws))
  {
    var items := ws[i].items;
    var rest := ws[i + 1..];
    assert ws == ws[..i] + ([ws[i]] + rest);
    SizeSeqAppend(ws[..i], [ws[i]] + rest);
    SizeSeqAppend(items, rest);
    LeavesAppend(ws[..i], [ws[i]] + rest);
    LeavesAppend(items, rest);
    assert ([ws[i]] + rest)[1..] == rest;
    if |rest| > 0 {
      assert (items + rest)[|items + rest| - 1] == ws[|ws| - 1];
    } else {
      assert items + rest == items;
    }
  }

  lemma LeavesSnocLeaf<T>(ws: seq<Nested<T>>, i: nat)
    requires i < |ws| && ws[i].Leaf?
    ensures Leaves(ws[..i + 1]) == Leaves(ws[..i]) + [ws[i].value]
  {
    assert ws[..i + 1] == ws[..i] + [ws[i]];
    LeavesAppend(ws[..i], [ws[i]]);
  }

  /** `_.flatten(nestedArray, result)`, as written: pushes the leaves into
      `result` (a fresh array when `undefined`) in place and returns it, except
      that when the work list becomes empty, as on `[]` or `[1, []]`, the loop
      falls through and `undefined` is returned. `buffer` is the caller's
      `result` array after the call: it holds every leaf on both paths. */
  method Flatten<T>(nestedArray: seq<Nested<T>>, result: Option<seq<T>>) returns (r: Option<seq<T>>, buffer: seq<T>)
    ensures buffer == OrEmpty(result) + Leaves(nestedArray)
    ensures EndsEmpty(nestedArray) ==> r == None
    ensures !EndsEmpty(nestedArray) ==> r == Some(buffer)
    decreases SizeSeq(nestedArray)
  {
    var flat := OrEmpty(result);
    var i := 0;
    while i < |nestedArray|
      invariant 0 <= i <= |nestedArray|
      invariant i == 0 || i < |nestedArray|
      invariant flat == OrEmpty(result) + Leaves(nestedArray[..i])
      invariant forall k :: 0 <= k < i ==> nestedArray[k].Leaf?
    {
      match nestedArray[i]
      case List(items) =>
        var newArr := items + nestedArray[i + 1..];
        SpliceFacts(nestedArray, i);
        r, buffer := Flatten(newArr, Some(flat));
        assert flat + Leaves(newArr) == OrEmpty(result) + Leaves(nestedArray);
        return;
      case Leaf(v) =>
        LeavesSnocLeaf(nestedArray, i);
        flat := flat + [v];
        assert flat == OrEmpty(result) + Leaves(nestedArray[..i + 1]);
        if i == |nestedArray| - 1 {
          assert nestedArray[..i + 1] == nestedArray;
          return Some(flat), flat;
        }
      i := i + 1;
    }
    r, buffer := None, flat;
  }

  /** `_.flatten` as evidently intended: the loop's fall-through returns the
      accumulated array too, so the result is always the prefix followed by
      every leaf. */
  method FlattenAll<T>(nestedArray: seq<Nested<T>>, result: Option<seq<T>>) returns (r: seq<T>)
    ensures r == OrEmpty(result) + Leaves(nestedArray)
    decreases SizeSeq(nestedArray)
  {
    var flat := OrEmpty(result);
    var i := 0;
    while i < |nestedArray|
      invariant 0 <= i <= |nestedArray|
      invariant flat == OrEmpty(result) + Leaves(nestedArray[..i])
      invariant forall k :: 0 <= k < i ==> nestedArray[k].Leaf?
    {
      match nestedArray[i]
      case List(items) =>
        var newArr := items + nestedArray[i + 1..];
        SpliceFacts(nestedArray, i);
        r := FlattenAll(newArr, Some(flat));
        assert flat + Leaves(newArr) == OrEmpty(result) + Leaves(nestedArray);
        return;
      case Leaf(v) =>
        LeavesSnocLeaf(nestedArray, i);
        flat := flat + [v];
      i := i + 1;
    }
    assert nestedArray[..i] == nestedArray;
    r := flat;
  }

  /** `[1, []]` has the leaf 1, yet its work list ends empty, so `_.flatten`
      as written returns `undefined` for it. */
  lemma TrailingEmptyArrayLosesLeaves()
    ensures EndsEmpty([Leaf(1), List([])])
    ensures Leaves([Leaf(1), List([])]) == [1]
  {
    assert Leaves<int>([List([])]) == [];
    assert [Leaf(1), List([])][1..] == [List([])];
  }

  // ---------------------------------------------------------------- intersection, difference

  /** `arrays[s]` is the shortest argument, and the first one of that length. */
  ghost predicate FirstShortest<T>(arrays: seq<seq<T>>, s: int)
  {
    && 0 <= s < |arrays|
    && (forall i :: 0 <= i < |arrays| ==> |arrays[s]| <= |arrays[i]|)
    && (forall i :: 0 <= i < s ==> |arrays[s]| < |arrays[i]|)
  }

  /** Only one index is the first shortest. */
  lemma FirstShortestUnique<T>(arrays: seq<seq<T>>, s: int, t: int)
    requires FirstShortest(arrays, s) && FirstShortest(arrays, t)
    ensures s == t
  {
    assert |arrays[s]| == |arrays[t]|;
  }

  /** The value occurs in every argument. */
  function InAll<T(==)>(arrays: seq<seq<T>>): T -> bool
  {
    value => forall i :: 0 <= i < |arrays| ==> value in arrays[i]
  }

  /** The value occurs in none of the arguments. */
  function InNone<T(==)>(arrays: seq<seq<T>>): T -> bool
  {
    value => forall i :: 0 <= i < |arrays| ==> value !in arrays[i]
  }

  /** `_.intersection(...arrays)`: the elements of the first shortest argument,
      in order and with its duplicates, that occur (`===`) in every other
      argument. Reading `arguments[0].length` with no arguments throws. */
  method Intersection<T(==)>(arrays: seq<seq<T>>) returns (r: Result<seq<T>>)
    ensures r.TypeError? <==> |arrays| == 0
    ensures r.Ok? ==> exists s :: FirstShortest(arrays, s) && r.value == Filter(arrays[s], InAll(arrays))
    ensures r.Ok? ==> forall k, i :: 0 <= k < |r.value| && 0 <= i < |arrays| ==> r.value[k] in arrays[i]
  {
    if |arrays| == 0 {
      return TypeError;
    }
    var smallestLength := |arrays[0]|;
    var smallest := 0;
    var i := 1;
    while i < |arrays|
      invariant 1 <= i <= |arrays|
      invariant 0 <= smallest < i && smallestLength == |arrays[smallest]|
      invariant forall i' :: 0 <= i' < i ==> |arrays[smallest]| <= |arrays[i']|
      invariant forall i' :: 0 <= i' < smallest ==> |arrays[smallest]| < |arrays[i']|
    {
      if |arrays[i]| < smallestLength {
        smallestLength := |arrays[i]|;
        smallest := i;
      }
      i := i + 1;
    }
    var shortest := arrays[smallest];
    var intersection := [];
    var index := 0;
    while index < |shortest|
      invariant 0 <= index <= |shortest|
      invariant intersection == Filter(shortest[..index], InAll(arrays))
    {
      var value := shortest[index];
      var hasValue := true;
      i := 0;
      while i < |arrays|
        invariant 0 <= i <= |arrays|
        invariant hasValue <==> forall i' :: 0 <= i' < i && i' != smallest ==> value in arrays[i']
      {
        if i != smallest && hasValue {
          hasValue := Contains(arrays[i], value);
        }
        i := i + 1;
      }
      assert hasValue <==> InAll(arrays)(value);
      FilterSnoc(shortest[..index], value, InAll(arrays));
      assert shortest[..index + 1] == shortest[..index] + [value];
      if hasValue {
        intersection := intersection + [value];
      }
      index := index + 1;
    }
    assert shortest[..index] == shortest;
    assert FirstShortest(arrays, smallest);
    return Ok(intersection);
  }

  /** `_.difference(array, ...others)`: the elements of the first argument, in
      order and with duplicates kept, that occur (`===`) in none of the others;
      with no others, the first argument unchanged. Reading
      `arguments[0].length` with no arguments throws. */
  method Difference<T(==)>(arrays: seq<seq<T>>) returns (r: Result<seq<T>>)
    ensures r.TypeError? <==> |arrays| == 0
    ensures r.Ok? ==> r.value == Filter(arrays[0], InNone(arrays[1..]))
    ensures r.Ok? ==> forall k :: 0 <= k < |r.value| ==> r.value[k] in arrays[0]
    ensures r.Ok? ==> forall k, i :: 0 <= k < |r.value| && 1 <= i < |arrays| ==> r.value[k] !in arrays[i]
    ensures r.Ok? ==> forall x :: x in arrays[0] && InNone(arrays[1..])(x) ==>
      multiset(r.value)[x] == multiset(arrays[0])[x]
    ensures |arrays| == 1 ==> r == Ok(arrays[0])
  {
    if |arrays| == 0 {
      return TypeError;
    }
    var first := arrays[0];
    var difference := [];
    var index := 0;
    while index < |first|
      invariant 0 <= index <= |first|
      invariant difference == Filter(first[..index], InNone(arrays[1..]))
    {
      var value := first[index];
      var hasValue := false;
      var i := 1;
      while i < |arrays|
        invariant 1 <= i <= |arrays|
        invariant hasValue <==> exists i' :: 1 <= i' < i && value in arrays[i']
      {
        if !hasValue {
          hasValue := Contains(arrays[i], value);
        }
        i := i + 1;
      }
      assert !hasValue <==> InNone(arrays[1..])(value) by {
        if hasValue {
          var i' :| 1 <= i' < |arrays| && value in arrays[i'];
          assert arrays[1..][i' - 1] == arrays[i'];
        }
      }
      FilterSnoc(first[..index], value, InNone(arrays[1..]));
      assert first[..index + 1] == first[..index] + [value];
      if !hasValue {
        difference := difference + [value];
      }
      index := index + 1;
    }
    assert first[..index] == first;
    forall x | x in first && InNone(arrays[1..])(x)
      ensures multiset(difference)[x] == multiset(first)[x]
    {
      FilterCount(first, InNone(arrays[1..]), x);
    }
    if |arrays| == 1 {
      FilterAll(first, InNone(arrays[1..]));
    }
    return Ok(difference);
  }
}
