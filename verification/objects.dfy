/** The OBJECTS section: `_.extend` and `_.defaults`, merges of keyed
    collections. Objects are maps from property names to values. */
module Objects {
  import opened Values
  import opened Traversal

  /** Some argument holds property `k`. */
  ghost predicate InSome<K, V>(args: seq<map<K, V>>, k: K)
  {
    exists j :: 0 <= j < |args| && k in args[j]
  }

  /** `args[j]` is the last argument holding property `k`. */
  ghost predicate LastHolder<K, V>(args: seq<map<K, V>>, k: K, j: int)
  {
    0 <= j < |args| && k in args[j] && forall j' :: j < j' < |args| ==> k !in args[j']
  }

  /** `args[j]` is the first argument holding property `k`. */
  ghost predicate FirstHolder<K, V>(args: seq<map<K, V>>, k: K, j: int)
  {
    0 <= j < |args| && k in args[j] && forall j' :: 0 <= j' < j ==> k !in args[j']
  }

  /** The target: a missing (`undefined`) object is replaced by `{}`. */
  function Target<K, V>(obj: Option<map<K, V>>): map<K, V>
  {
    match obj
    case None => map[]
    case Some(m) => m
  }

  /** The outer iterator of `_.extend`: copy every property of one argument,
      overwriting what the target holds. */
  function ExtendVisit<K, V>(): (map<K, V>, nat, map<K, V>) -> map<K, V>
  {
    (obj: map<K, V>, key: nat, source: map<K, V>) => obj + source
  }

  lemma {:induction false} ExtendFacts<K, V>(args: seq<map<K, V>>, init: map<K, V>)
    ensures var r := Each(args, ExtendVisit(), init);
      && (forall k :: k in r <==> k in init || InSome(args, k))
      && (forall k, j :: LastHolder(args, k, j) ==> k in r && r[k] == args[j][k])
      && (forall k :: k in init && !InSome(args, k) ==> r[k] == init[k])
  {
    if |args| > 0 {
      var p := args[..|args| - 1];
      var m := args[|args| - 1];
      assert args == p + [m];
      ExtendFacts(p, init);
      EachSnoc(p, m, ExtendVisit(), init);
      var rp := Each(p, ExtendVisit(), init);
      var r := Each(args, ExtendVisit(), init);
      assert r == rp + m;
      forall k | InSome(args, k)
        ensures k in init || InSome(args, k) ==> k in r
      {
        var j :| 0 <= j < |args| && k in args[j];
        if j < |p| {
          assert k in p[j];
        }
      }
      forall k | k in r
        ensures k in init || InSome(args, k)
      {
        if k in m {
          assert k in args[|args| - 1];
        } else {
          assert k in rp;
          if InSome(p, k) {
            var j :| 0 <= j < |p| && k in p[j];
            assert k in args[j];
          }
        }
      }
      forall k, j | LastHolder(args, k, j)
        ensures k in r && r[k] == args[j][k]
      {
        if j < |p| {
          assert k !in m;
          assert LastHolder(p, k, j);
        }
      }
    }
  }

  /** `_.extend(obj, ...sources)`: the result holds every property of the
      target and of the sources; each takes its value from the last argument
      holding it, so later sources override earlier ones and the target. */
  function Extend<K(!new), V>(obj: Option<map<K, V>>, sources: seq<map<K, V>>): (r: map<K, V>)
    ensures forall k :: k in r <==> InSome([Target(obj)] + sources, k)
    ensures forall k, j :: LastHolder([Target(obj)] + sources, k, j) ==>
      k in r && r[k] == ([Target(obj)] + sources)[j][k]
  {
    var target := Target(obj);
    var args := [target] + sources;
    ExtendFacts(args, target);
    assert forall k :: k in target ==> InSome(args, k) by {
      forall k | k in target ensures InSome(args, k) {
        assert k in args[0];
      }
    }
    Each(args, ExtendVisit(), target)
  }

  /** The properties of `source` that `obj` does not hold yet. */
  function Missing<K, V>(obj: map<K, V>, source: map<K, V>): (m: map<K, V>)
    ensures m.Keys == source.Keys - obj.Keys
    ensures forall k :: k in m ==> m[k] == source[k]
  {
    map k | k in source && k !in obj :: source[k]
  }

  /** The outer iterator of `_.defaults`: copy the properties of one argument
      that the target does not hold yet. */
  function DefaultsVisit<K, V>(): (map<K, V>, nat, map<K, V>) -> map<K, V>
  {
    (obj: map<K, V>, key: nat, source: map<K, V>) => obj + Missing(obj, source)
  }

  lemma {:induction false} DefaultsFacts<K, V>(args: seq<map<K, V>>, init: map<K, V>)
    ensures var r := Each(args, DefaultsVisit(), init);
      && (forall k :: k in r <==> k in init || InSome(args, k))
      && (forall k :: k in init ==> r[k] == init[k])
      && (forall k, j :: k !in init && FirstHolder(args, k, j) ==> r[k] == args[j][k])
  {
    if |args| > 0 {
      var p := args[..|args| - 1];
      var m := args[|args| - 1];
      assert args == p + [m];
      DefaultsFacts(p, init);
      EachSnoc(p, m, DefaultsVisit(), init);
      var rp := Each(p, DefaultsVisit(), init);
      var r := Each(args, DefaultsVisit(), init);
      assert r == rp + Missing(rp, m);
      forall k | InSome(args, k)
        ensures k in r
      {
        var j :| 0 <= j < |args| && k in args[j];
        if j < |p| {
          assert k in p[j];
        }
      }
      forall k | k in r
        ensures k in init || InSome(args, k)
      {
        if k !in rp {
          assert k in args[|args| - 1];
        } else if k !in init {
          var j :| 0 <= j < |p| && k in p[j];
          assert k in args[j];
        }
      }
      forall k, j | k !in init && FirstHolder(args, k, j)
        ensures r[k] == args[j][k]
      {
        if j < |p| {
          assert FirstHolder(p, k, j);
        }
      }
    }
  }

  /** `_.defaults(obj, ...sources)`: the same properties as `_.extend`, but a
      property the target already holds is never changed, and a new one takes
      its value from the first source holding it. */
  function Defaults<K(!new), V>(obj: Option<map<K, V>>, sources: seq<map<K, V>>): (r: map<K, V>)
    ensures forall k :: k in r <==> InSome([Target(obj)] + sources, k)
    ensures forall k :: k in Target(obj) ==> k in r && r[k] == Target(obj)[k]
    ensures forall k, j :: FirstHolder([Target(obj)] + sources, k, j) ==>
      k in r && r[k] == ([Target(obj)] + sources)[j][k]
  {
    var target := Target(obj);
    var args := [target] + sources;
    DefaultsFacts(args, target);
    assert forall k :: k in target ==> InSome(args, k) by {
      forall k | k in target ensures InSome(args, k) {
        assert k in args[0];
      }
    }
    assert forall k, j :: FirstHolder(args, k, j) ==> (j == 0 <==> k in target) by {
      forall k, j | FirstHolder(args, k, j) ensures j == 0 <==> k in target {
        assert args[0] == target;
      }
    }
    Each(args, DefaultsVisit(), target)
  }

  /** `_.extend` and `_.defaults` agree on which properties the result holds,
      and on every property only one argument holds. */
  lemma ExtendDefaultsAgree<K(!new), V>(obj: Option<map<K, V>>, sources: seq<map<K, V>>, k: K, j: int)
    requires FirstHolder([Target(obj)] + sources, k, j) && LastHolder([Target(obj)] + sources, k, j)
    ensures Extend(obj, sources).Keys == Defaults(obj, sources).Keys
    ensures Extend(obj, sources)[k] == Defaults(obj, sources)[k]
  {
  }
}
