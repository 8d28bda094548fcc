/** `dropDuplicates` (packages/iov-stream/src/dropduplicates.ts): of the values with the same
    key only the first passes. */
module DropDuplicatesStream {

  ghost function Keys<T, K>(key: T -> K, values: seq<T>): set<K> {
    if values == [] then {} else {key(values[0])} + Keys(key, values[1..])
  }

  /** The values whose key is not among those seen and which no earlier value has. */
  ghost function FirstOccurrences<T, K>(key: T -> K, values: seq<T>, seen: set<K>): seq<T> {
    if values == [] then []
    else if key(values[0]) in seen then FirstOccurrences(key, values[1..], seen)
    else [values[0]] + FirstOccurrences(key, values[1..], seen + {key(values[0])})
  }

  ghost predicate KeysDiffer<T, K>(key: T -> K, values: seq<T>, i: nat, j: nat)
    requires i < |values| && j < |values|
  {
    key(values[i]) != key(values[j])
  }

  ghost predicate DistinctKeys<T, K>(key: T -> K, values: seq<T>) {
    forall i: nat, j: nat | i < j < |values| :: KeysDiffer(key, values, i, j)
  }

  class DropDuplicates<T> {
    const valueToKey: T -> string
    var emittedKeys: set<string>
    /** What has been passed downstream, and what has come in. */
    var passed: seq<T>
    ghost var received: seq<T>

    ghost predicate Valid()
      reads this
    {
      && emittedKeys == Keys(valueToKey, received)
      && passed == FirstOccurrences(valueToKey, received, {})
    }

    constructor (valueToKey: T -> string)
      ensures Valid() && this.valueToKey == valueToKey && received == []
    {
      this.valueToKey := valueToKey;
      emittedKeys, passed, received := {}, [], [];
    }

    method Next(value: T)
      requires Valid()
      modifies this`emittedKeys, this`passed, this`received
      ensures Valid() && received == old(received) + [value]
      ensures passed == old(passed) || passed == old(passed) + [value]
    {
      FirstOccurrencesOfConcatenation(valueToKey, received, [value], {});
      KeysOfConcatenation(valueToKey, received, [value]);
      received := received + [value];
      if valueToKey(value) !in emittedKeys {
        emittedKeys := emittedKeys + {valueToKey(value)};
        passed := passed + [value];
      }
    }
  }

  lemma {:induction false} KeysContain<T, K>(key: T -> K, values: seq<T>, i: nat)
    requires i < |values|
    ensures key(values[i]) in Keys(key, values)
  {
    if i > 0 {
      KeysContain(key, values[1..], i - 1);
    }
  }

  lemma {:induction false} KeysHave<T, K>(key: T -> K, values: seq<T>, k: K)
    ensures k in Keys(key, values) <==> exists i | 0 <= i < |values| :: key(values[i]) == k
  {
    if values != [] {
      KeysHave(key, values[1..], k);
      if i :| 0 <= i < |values| && key(values[i]) == k && i > 0 {
        assert key(values[1..][i - 1]) == k;
      }
      if i :| 0 <= i < |values[1..]| && key(values[1..][i]) == k {
        assert key(values[i + 1]) == k;
      }
    }
  }

  lemma {:induction false} KeysOfConcatenation<T, K>(key: T -> K, a: seq<T>, b: seq<T>)
    ensures Keys(key, a + b) == Keys(key, a) + Keys(key, b)
  {
    if a == [] {
      assert a + b == b;
    } else {
      assert (a + b)[1..] == a[1..] + b;
      KeysOfConcatenation(key, a[1..], b);
    }
  }

  lemma DistinctPrepend<T, K>(key: T -> K, first: T, rest: seq<T>)
    requires DistinctKeys(key, rest) && key(first) !in Keys(key, rest)
    ensures DistinctKeys(key, [first] + rest) && Keys(key, [first] + rest) == {key(first)} + Keys(key, rest)
  {
    var r := [first] + rest;
    assert r[1..] == rest;
    forall i: nat, j: nat | i < j < |r|
      ensures KeysDiffer(key, r, i, j)
    {
      KeysContain(key, rest, j - 1);
      if i > 0 {
        assert KeysDiffer(key, rest, i - 1, j - 1);
      }
    }
  }

  /** Keys pass at most once, and every key that came in and was not seen before has passed. */
  lemma {:induction false} EachKeyPassesOnce<T, K>(key: T -> K, values: seq<T>, seen: set<K>)
    ensures DistinctKeys(key, FirstOccurrences(key, values, seen))
    ensures Keys(key, FirstOccurrences(key, values, seen)) == Keys(key, values) - seen
  {
    if values != [] {
      var k := key(values[0]);
      if k in seen {
        EachKeyPassesOnce(key, values[1..], seen);
      } else {
        EachKeyPassesOnce(key, values[1..], seen + {k});
        DistinctPrepend(key, values[0], FirstOccurrences(key, values[1..], seen + {k}));
      }
    }
  }

  /** What passes of `a` followed by `b` is what passes of `a` and then what of `b` is new after `a`. */
  lemma {:induction false} FirstOccurrencesOfConcatenation<T, K>(key: T -> K, a: seq<T>, b: seq<T>, seen: set<K>)
    ensures FirstOccurrences(key, a + b, seen)
         == FirstOccurrences(key, a, seen) + FirstOccurrences(key, b, seen + Keys(key, a))
  {
    if a == [] {
      assert a + b == b && seen + Keys(key, a) == seen;
    } else {
      var k := key(a[0]);
      assert (a + b)[1..] == a[1..] + b;
      if k in seen {
        FirstOccurrencesOfConcatenation(key, a[1..], b, seen);
        assert seen + Keys(key, a) == seen + Keys(key, a[1..]);
      } else {
        FirstOccurrencesOfConcatenation(key, a[1..], b, seen + {k});
        assert seen + Keys(key, a) == seen + {k} + Keys(key, a[1..]);
      }
    }
  }
}
