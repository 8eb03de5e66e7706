/** The `Object.groupBy` polyfill: partition a sequence into keyed groups,
    each group keeping the input order. */
module Grouping {

  /** The group of `k`, or the empty sequence when no group exists (the
      `= []` destructuring default every caller applies). */
  function GroupOf<K(==), T>(m: map<K, seq<T>>, k: K): seq<T>
  {
    if k in m then m[k] else []
  }

  /** One loop iteration: append `item` to the group of `k`, creating the
      group when the key is not yet present. */
  function Append<K(==), T>(m: map<K, seq<T>>, k: K, item: T): map<K, seq<T>>
  {
    if k in m then m[k := m[k] + [item]] else m[k := [item]]
  }

  /** The accumulator after the loop has visited the first `n` items; the
      callback receives each item together with its 0-based position. */
  function GroupPrefix<K(==), T>(items: seq<T>, key: (T, nat) -> K, n: nat): map<K, seq<T>>
    requires n <= |items|
  {
    if n == 0 then map[]
    else Append(GroupPrefix(items, key, n - 1), key(items[n - 1], n - 1), items[n - 1])
  }

  /** Reference description of one group, independent of the accumulator:
      the items among the first `n` whose key is `k`, in input order. */
  function Selected<K(==), T>(items: seq<T>, key: (T, nat) -> K, k: K, n: nat): seq<T>
    requires n <= |items|
  {
    if n == 0 then []
    else Selected(items, key, k, n - 1) + (if key(items[n - 1], n - 1) == k then [items[n - 1]] else [])
  }

  /** `k` is the key of at least one of the first `n` items. */
  predicate KeyUsed<K(==), T>(items: seq<T>, key: (T, nat) -> K, k: K, n: nat)
    requires n <= |items|
  {
    exists i :: 0 <= i < n && key(items[i], i) == k
  }

  lemma {:induction false} SelectedNonEmpty<K, T>(items: seq<T>, key: (T, nat) -> K, k: K, n: nat)
    requires n <= |items|
    ensures |Selected(items, key, k, n)| > 0 <==> KeyUsed(items, key, k, n)
  {
    if n > 0 {
      SelectedNonEmpty(items, key, k, n - 1);
      if key(items[n - 1], n - 1) == k {
        assert KeyUsed(items, key, k, n);
      } else if KeyUsed(items, key, k, n) {
        var i :| 0 <= i < n && key(items[i], i) == k;
        assert KeyUsed(items, key, k, n - 1);
      }
    }
  }

  /** After `n` iterations the accumulator holds exactly the used keys, each
      mapped to its reference group. */
  lemma {:induction false} GroupPrefixIsSelection<K, T>(items: seq<T>, key: (T, nat) -> K, n: nat)
    requires n <= |items|
    ensures forall k :: k in GroupPrefix(items, key, n) <==> KeyUsed(items, key, k, n)
    ensures forall k :: GroupOf(GroupPrefix(items, key, n), k) == Selected(items, key, k, n)
  {
    if n > 0 {
      GroupPrefixIsSelection(items, key, n - 1);
      forall k
        ensures k in GroupPrefix(items, key, n) <==> KeyUsed(items, key, k, n)
      {
        SelectedNonEmpty(items, key, k, n);
        SelectedNonEmpty(items, key, k, n - 1);
      }
    }
  }

  /** `Object.groupBy(items, key)`: every key produced by the callback owns a
      non-empty group holding exactly the items that produced it, in input
      order; no other key is present. */
  function GroupBy<K(==, !new), T>(items: seq<T>, key: (T, nat) -> K): (r: map<K, seq<T>>)
    ensures forall k :: k in r <==> exists i :: 0 <= i < |items| && key(items[i], i) == k
    ensures forall k :: GroupOf(r, k) == Selected(items, key, k, |items|)
    ensures forall k :: k in r ==> |r[k]| > 0
  {
    GroupPrefixIsSelection(items, key, |items|);
    forall k | k in GroupPrefix(items, key, |items|)
      ensures |GroupPrefix(items, key, |items|)[k]| > 0
    {
      SelectedNonEmpty(items, key, k, |items|);
    }
    GroupPrefix(items, key, |items|)
  }

  /** Sum of the group sizes over a list of keys. */
  function SumLengths<K(==), T>(m: map<K, seq<T>>, ks: seq<K>): nat
  {
    if ks == [] then 0 else |GroupOf(m, ks[0])| + SumLengths(m, ks[1..])
  }

  lemma SumLengthsFour<K, T>(m: map<K, seq<T>>, a: K, b: K, c: K, d: K)
    ensures SumLengths(m, [a, b, c, d])
            == |GroupOf(m, a)| + |GroupOf(m, b)| + |GroupOf(m, c)| + |GroupOf(m, d)|
  {
    assert [a, b, c, d][1..] == [b, c, d];
    assert [b, c, d][1..] == [c, d];
    assert [c, d][1..] == [d];
    assert [d][1..] == [];
    assert SumLengths(m, [d]) == |GroupOf(m, d)|;
    assert SumLengths(m, [c, d]) == |GroupOf(m, c)| + |GroupOf(m, d)|;
    assert SumLengths(m, [b, c, d]) == |GroupOf(m, b)| + |GroupOf(m, c)| + |GroupOf(m, d)|;
  }

  predicate Distinct<K(==)>(ks: seq<K>)
  {
    forall i, j :: 0 <= i < j < |ks| ==> ks[i] != ks[j]
  }

  lemma {:induction false} SumLengthsEmpty<K, T>(m: map<K, seq<T>>, ks: seq<K>)
    requires m == map[]
    ensures SumLengths(m, ks) == 0
  {
    if ks != [] {
      SumLengthsEmpty(m, ks[1..]);
    }
  }

  /** Appending one item to the group of `c` grows the sum over a
      duplicate-free key list by one exactly when `c` is listed. */
  lemma {:induction false} SumLengthsAppend<K, T>(m: map<K, seq<T>>, c: K, item: T, ks: seq<K>)
    requires Distinct(ks)
    ensures SumLengths(Append(m, c, item), ks) == SumLengths(m, ks) + (if c in ks then 1 else 0)
  {
    if ks != [] {
      SumLengthsAppend(m, c, item, ks[1..]);
      if ks[0] == c {
        assert c !in ks[1..] by {
          forall j | 0 <= j < |ks[1..]|
            ensures ks[1..][j] != c
          {
            assert ks[1..][j] == ks[j + 1];
          }
        }
      } else {
        assert c in ks[1..] <==> c in ks by {
          assert ks == [ks[0]] + ks[1..];
        }
      }
    }
  }

  /** One more loop iteration adds one to the sum when its key is listed. */
  lemma GroupPrefixStep<K, T>(items: seq<T>, key: (T, nat) -> K, ks: seq<K>, n: nat)
    requires 0 < n <= |items|
    requires Distinct(ks) && key(items[n - 1], n - 1) in ks
    requires SumLengths(GroupPrefix(items, key, n - 1), ks) == n - 1
    ensures SumLengths(GroupPrefix(items, key, n), ks) == n
  {
    SumLengthsAppend(GroupPrefix(items, key, n - 1), key(items[n - 1], n - 1), items[n - 1], ks);
  }

  lemma {:induction false} GroupPrefixSizes<K, T>(items: seq<T>, key: (T, nat) -> K, ks: seq<K>, n: nat)
    requires n <= |items|
    requires Distinct(ks)
    requires forall i :: 0 <= i < |items| ==> key(items[i], i) in ks
    ensures SumLengths(GroupPrefix(items, key, n), ks) == n
  {
    if n == 0 {
      SumLengthsEmpty(GroupPrefix(items, key, 0), ks);
    } else {
      GroupPrefixSizes(items, key, ks, n - 1);
      GroupPrefixStep(items, key, ks, n);
    }
  }

  /** The groups partition the input: over any duplicate-free list naming
      every produced key, the group sizes add up to the input length. */
  lemma GroupSizesSum<K(!new), T>(items: seq<T>, key: (T, nat) -> K, ks: seq<K>)
    requires Distinct(ks)
    requires forall k :: k in GroupBy(items, key) ==> k in ks
    ensures SumLengths(GroupBy(items, key), ks) == |items|
  {
    var r := GroupBy(items, key);
    forall i | 0 <= i < |items|
      ensures key(items[i], i) in ks
    {
      assert key(items[i], i) in r;
    }
    GroupPrefixSizes(items, key, ks, |items|);
  }
}
