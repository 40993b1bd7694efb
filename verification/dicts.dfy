/** Python dictionaries as insertion-ordered association lists.

    A `Dict` lists its entries in insertion order. Assigning to a key that is
    already present replaces the value where it stands; assigning a new key
    appends it. `Put` is `d[k] = v`; `PutAll` is a run of such assignments,
    `GroupBy` the usual "append to the list under the key" loop and
    `CountBy` the "`d[k] = d.get(k, 0) + 1`" loop. */
module Dicts {
  import opened Wrappers
  import opened Seqs

  type Dict<K, V> = seq<(K, V)>

  /** `list(d.keys())`. */
  function Keys<K, V>(d: Dict<K, V>): (ks: seq<K>)
    ensures |ks| == |d|
    ensures forall i :: 0 <= i < |d| ==> ks[i] == d[i].0
  {
    seq(|d|, i requires 0 <= i < |d| => d[i].0)
  }

  /** Every key is listed once; this holds of every dict built with `Put`. */
  predicate UniqueKeys<K(==), V>(d: Dict<K, V>)
  {
    NoDups(Keys(d))
  }

  /** `d.get(k)`. */
  function Get<K(==), V>(d: Dict<K, V>, k: K): Option<V>
    decreases |d|
  {
    if |d| == 0 then None
    else if d[0].0 == k then Some(d[0].1)
    else Get(d[1..], k)
  }

  /** The first entry with a key is what `Get` finds. */
  lemma {:induction false} GetAt<K, V>(d: Dict<K, V>, i: nat)
    requires i < |d|
    requires forall j :: 0 <= j < i ==> d[j].0 != d[i].0
    ensures Get(d, d[i].0) == Some(d[i].1)
    decreases i
  {
    if i > 0 {
      GetAt(d[1..], i - 1);
    }
  }

  /** `d.get(k)` is defined exactly for the listed keys. */
  lemma {:induction false} GetDefined<K, V>(d: Dict<K, V>, k: K)
    ensures Get(d, k).Some? <==> k in Keys(d)
    decreases |d|
  {
    if |d| > 0 && d[0].0 != k {
      GetDefined(d[1..], k);
      assert Keys(d) == [d[0].0] + Keys(d[1..]);
    }
  }

  /** In a dict with unique keys, each entry is what `Get` returns for its key. */
  lemma {:induction false} GetEntry<K, V>(d: Dict<K, V>, i: nat)
    requires UniqueKeys(d) && i < |d|
    ensures Get(d, d[i].0) == Some(d[i].1)
    decreases |d|
  {
    if i > 0 {
      assert Keys(d[1..]) == Keys(d)[1..];
      assert d[0].0 != d[i].0 by { assert Keys(d)[0] != Keys(d)[i]; }
      GetEntry(d[1..], i - 1);
    }
  }

  /** `d[k] = v`: replaces the value of a present key in place, appends a new one. */
  function Put<K(==), V>(d: Dict<K, V>, k: K, v: V): (r: Dict<K, V>)
    ensures Keys(r) == if k in Keys(d) then Keys(d) else Keys(d) + [k]
    ensures Get(r, k) == Some(v)
    decreases |d|
  {
    if |d| == 0 then [(k, v)]
    else if d[0].0 == k then
      KeysCons((k, v), d[1..]);
      KeysCons(d[0], d[1..]);
      [(k, v)] + d[1..]
    else
      KeysCons(d[0], d[1..]);
      assert d == [d[0]] + d[1..];
      var rest := Put(d[1..], k, v);
      KeysCons(d[0], rest);
      [d[0]] + rest
  }

  /** The keys of a dict with one more entry in front. */
  lemma KeysCons<K, V>(p: (K, V), d: Dict<K, V>)
    ensures Keys([p] + d) == [p.0] + Keys(d)
  {
  }

  /** Assignment leaves every other key's value alone. */
  lemma {:induction false} PutOther<K, V>(d: Dict<K, V>, k: K, v: V, k': K)
    requires k' != k
    ensures Get(Put(d, k, v), k') == Get(d, k')
    decreases |d|
  {
    if |d| > 0 && d[0].0 != k {
      PutOther(d[1..], k, v, k');
    }
  }

  /** Assigning a new key appends it at the end. */
  lemma {:induction false} PutNew<K, V>(d: Dict<K, V>, k: K, v: V)
    requires k !in Keys(d)
    ensures Put(d, k, v) == d + [(k, v)]
    decreases |d|
  {
    if |d| > 0 {
      assert Keys(d) == [d[0].0] + Keys(d[1..]);
      PutNew(d[1..], k, v);
      assert d == [d[0]] + d[1..];
    }
  }

  /** The keys after an assignment are the old ones and the assigned one. */
  lemma PutKeysMembers<K, V>(d: Dict<K, V>, k: K, v: V)
    ensures forall x :: x in Keys(Put(d, k, v)) <==> x in Keys(d) || x == k
  {
  }

  /** Assignment keeps keys unique. */
  lemma PutUnique<K, V>(d: Dict<K, V>, k: K, v: V)
    requires UniqueKeys(d)
    ensures UniqueKeys(Put(d, k, v))
  {
  }

  // ---------------------------------------------------------------- runs of assignments

  /** The value assigned to `k` by the last entry of `es` that names it. */
  function LastValue<K(==), V>(es: seq<(K, V)>, k: K): Option<V>
    decreases |es|
  {
    if |es| == 0 then None
    else if es[|es| - 1].0 == k then Some(es[|es| - 1].1)
    else LastValue(es[..|es| - 1], k)
  }

  /** `d = {}; for k, v in es: d[k] = v`. */
  function PutAll<K(==), V>(es: seq<(K, V)>): Dict<K, V>
    decreases |es|
  {
    if |es| == 0 then []
    else
      var last := es[|es| - 1];
      Put(PutAll(es[..|es| - 1]), last.0, last.1)
  }

  /** A run of assignments lists each assigned key once, at the position of
      its first assignment. */
  lemma {:induction false} PutAllKeys<K, V>(es: seq<(K, V)>)
    ensures Keys(PutAll(es)) == Distinct(Keys(es))
    ensures UniqueKeys(PutAll(es))
    decreases |es|
  {
    if |es| > 0 {
      var es' := es[..|es| - 1];
      PutAllKeys(es');
      assert Keys(es) == Keys(es') + [es[|es| - 1].0];
    }
    DistinctFacts(Keys(es));
  }

  /** A run of assignments to distinct keys builds exactly its own entries. */
  lemma {:induction false} PutAllDistinct<K, V>(es: seq<(K, V)>)
    requires NoDups(Keys(es))
    ensures PutAll(es) == es
    decreases |es|
  {
    if |es| > 0 {
      var es', p := es[..|es| - 1], es[|es| - 1];
      assert NoDups(Keys(es')) && p.0 !in Keys(es') by { KeysPrefixNoDups(es); }
      assert PutAll(es') == es' by { PutAllDistinct(es'); }
      PutNew(es', p.0, p.1);
      assert es == es' + [p];
    }
  }

  /** Without the last entry the keys stay distinct and miss the last key. */
  lemma KeysPrefixNoDups<K, V>(es: seq<(K, V)>)
    requires |es| > 0 && NoDups(Keys(es))
    ensures NoDups(Keys(es[..|es| - 1])) && es[|es| - 1].0 !in Keys(es[..|es| - 1])
  {
    var ks, ks' := Keys(es), Keys(es[..|es| - 1]);
    assert ks' == ks[..|es| - 1];
  }

  /** After a run of assignments each key holds the value of its last one. */
  lemma {:induction false} PutAllGet<K, V>(es: seq<(K, V)>, k: K)
    ensures Get(PutAll(es), k) == LastValue(es, k)
    decreases |es|
  {
    if |es| > 0 {
      var es' := es[..|es| - 1];
      PutAllGet(es', k);
      if es[|es| - 1].0 != k {
        PutOther(PutAll(es'), es[|es| - 1].0, es[|es| - 1].1, k);
      }
    }
  }

  /** The value found by `LastValue` comes from an entry with that key. */
  lemma {:induction false} LastValueFrom<K, V>(es: seq<(K, V)>, k: K)
    ensures LastValue(es, k).Some? <==> k in Keys(es)
    ensures LastValue(es, k).Some? ==>
              (exists i :: 0 <= i < |es| && es[i] == (k, LastValue(es, k).value)
                && forall j :: i < j < |es| ==> es[j].0 != k)
    decreases |es|
  {
    if |es| > 0 {
      var es' := es[..|es| - 1];
      LastValueFrom(es', k);
      assert Keys(es) == Keys(es') + [es[|es| - 1].0];
    }
  }

  /** When every entry's value is determined by its key through `val`, the
      run leaves `val(k)` at every key it assigns. */
  lemma LastValueKeyed<K, V>(es: seq<(K, V)>, val: K -> V, k: K)
    requires forall i :: 0 <= i < |es| ==> es[i].1 == val(es[i].0)
    ensures LastValue(es, k) == if k in Keys(es) then Some(val(k)) else None
  {
    LastValueFrom(es, k);
  }

  /** An entry that no later entry overrides is what the run leaves. */
  lemma {:induction false} LastValueOfUnshadowed<K, V>(es: seq<(K, V)>, i: nat)
    requires i < |es|
    requires forall j :: i < j < |es| ==> es[j].0 != es[i].0
    ensures LastValue(es, es[i].0) == Some(es[i].1)
    decreases |es|
  {
    if i < |es| - 1 {
      LastValueOfUnshadowed(es[..|es| - 1], i);
    }
  }

  // ---------------------------------------------------------------- grouping

  /** `groups.setdefault(k, []).append(x)`. */
  function AppendTo<K(==), T>(groups: Dict<K, seq<T>>, k: K, x: T): Dict<K, seq<T>>
  {
    Put(groups, k, Get(groups, k).GetOr([]) + [x])
  }

  /** `groups = {}; for x in xs: groups.setdefault(key(x), []).append(x)`. */
  function GroupBy<T, K(==)>(xs: seq<T>, key: T -> K): Dict<K, seq<T>>
    decreases |xs|
  {
    if |xs| == 0 then []
    else AppendTo(GroupBy(xs[..|xs| - 1], key), key(xs[|xs| - 1]), xs[|xs| - 1])
  }

  /** The groups are listed under the distinct keys of the input, in
      first-seen order. */
  lemma {:induction false} GroupByKeys<T, K>(xs: seq<T>, key: T -> K)
    ensures Keys(GroupBy(xs, key)) == Distinct(MapSeq(xs, key))
    ensures UniqueKeys(GroupBy(xs, key))
    decreases |xs|
  {
    if |xs| > 0 {
      var xs', x := xs[..|xs| - 1], xs[|xs| - 1];
      GroupByKeys(xs', key);
      MapSnoc(xs', x, key);
      assert xs == xs' + [x];
    }
    DistinctFacts(MapSeq(xs, key));
  }

  /** The group under a key is exactly the elements with that key, in input
      order; a key no element has has no group. */
  lemma {:induction false} GroupByGet<T, K>(xs: seq<T>, key: T -> K, k: K)
    ensures Get(GroupBy(xs, key), k) == if k in MapSeq(xs, key) then Some(WithKey(xs, key, k)) else None
    decreases |xs|
  {
    if |xs| > 0 {
      var xs', x := xs[..|xs| - 1], xs[|xs| - 1];
      var g' := GroupBy(xs', key);
      var v := Get(g', key(x)).GetOr([]) + [x];
      assert GroupBy(xs, key) == Put(g', key(x), v);
      assert Get(g', k) == if k in MapSeq(xs', key) then Some(WithKey(xs', key, k)) else None by {
        GroupByGet(xs', key, k);
      }
      assert k in MapSeq(xs, key) <==> k in MapSeq(xs', key) || k == key(x) by {
        MapSnoc(xs', x, key);
        assert xs == xs' + [x];
      }
      if key(x) != k {
        PutOther(g', key(x), v, k);
      } else if k !in MapSeq(xs', key) {
        WithKeyAbsent(xs', key, k);
      }
    }
  }

  /** Grouping two elements: one group when their keys agree, two
      otherwise. */
  lemma GroupByTwo<T, K>(x: T, y: T, key: T -> K)
    ensures GroupBy([x, y], key) == if key(x) == key(y) then [(key(x), [x, y])] else [(key(x), [x]), (key(y), [y])]
  {
    assert [x, y][..1] == [x] && [x][..0] == [];
    var g0: Dict<K, seq<T>> := GroupBy([], key);
    assert g0 == [];
    var g1 := GroupBy([x], key);
    assert g1 == AppendTo(g0, key(x), x);
    assert Get(g0, key(x)).GetOr([]) + [x] == [x];
    assert g1 == [(key(x), [x])];
    assert GroupBy([x, y], key) == AppendTo(g1, key(y), y);
    if key(x) == key(y) {
      assert Get(g1, key(y)).GetOr([]) + [y] == [x, y];
    } else {
      assert Get(g1, key(y)).GetOr([]) + [y] == [y];
    }
  }

  /** Two assignments: the second overwrites the first when the keys agree. */
  lemma PutAllTwo<K, V>(p: (K, V), q: (K, V))
    ensures PutAll([p, q]) == if p.0 == q.0 then [q] else [p, q]
  {
    assert [p, q][..1] == [p] && [p][..0] == [];
    assert PutAll([p]) == [p];
  }

  /** Each group is non-empty and holds only elements with its key. */
  lemma GroupsNonEmpty<T, K>(xs: seq<T>, key: T -> K, i: nat)
    requires i < |GroupBy(xs, key)|
    ensures |GroupBy(xs, key)[i].1| > 0
    ensures forall y :: y in GroupBy(xs, key)[i].1 ==> y in xs && key(y) == GroupBy(xs, key)[i].0
  {
    var g := GroupBy(xs, key);
    var k := g[i].0;
    GroupByKeys(xs, key);
    GetEntry(g, i);
    DistinctFacts(MapSeq(xs, key));
    assert k in Keys(g);
    GroupByGet(xs, key, k);
    var j :| 0 <= j < |xs| && key(xs[j]) == k;
    WithKeyFacts(xs, key, k);
    assert xs[j] in WithKey(xs, key, k);
  }

  /** `GroupsNonEmpty` for every group at once. */
  lemma GroupsAllNonEmpty<T, K>(xs: seq<T>, key: T -> K)
    ensures forall i :: 0 <= i < |GroupBy(xs, key)| ==> |GroupBy(xs, key)[i].1| > 0
  {
    forall i | 0 <= i < |GroupBy(xs, key)| ensures |GroupBy(xs, key)[i].1| > 0 {
      GroupsNonEmpty(xs, key, i);
    }
  }

  // ---------------------------------------------------------------- counting

  /** `d[k] = d.get(k, 0) + 1`. */
  function Increment<K(==)>(d: Dict<K, nat>, k: K): Dict<K, nat>
  {
    Put(d, k, Get(d, k).GetOr(0) + 1)
  }

  /** `counts = {}; for x in xs: counts[key(x)] = counts.get(key(x), 0) + 1`. */
  function CountBy<T, K(==)>(xs: seq<T>, key: T -> K): Dict<K, nat>
    decreases |xs|
  {
    if |xs| == 0 then [] else Increment(CountBy(xs[..|xs| - 1], key), key(xs[|xs| - 1]))
  }

  /** `sum(d.values())`. */
  function SumValues<K>(d: Dict<K, nat>): nat
    decreases |d|
  {
    if |d| == 0 then 0 else d[0].1 + SumValues(d[1..])
  }

  /** Assigning `v` to `k` changes the sum by `v` less the value replaced. */
  lemma {:induction false} SumAfterPut<K>(d: Dict<K, nat>, k: K, v: nat)
    ensures SumValues(Put(d, k, v)) + Get(d, k).GetOr(0) == SumValues(d) + v
    decreases |d|
  {
    if |d| > 0 && d[0].0 != k {
      SumAfterPut(d[1..], k, v);
    }
  }

  /** The counts are listed under the distinct keys in first-seen order. */
  lemma {:induction false} CountByKeys<T, K>(xs: seq<T>, key: T -> K)
    ensures Keys(CountBy(xs, key)) == Distinct(MapSeq(xs, key))
    ensures UniqueKeys(CountBy(xs, key))
    decreases |xs|
  {
    if |xs| > 0 {
      var xs', x := xs[..|xs| - 1], xs[|xs| - 1];
      CountByKeys(xs', key);
      MapSnoc(xs', x, key);
      assert xs == xs' + [x];
    }
    DistinctFacts(MapSeq(xs, key));
  }

  /** The count under a key is the number of elements with that key. */
  lemma {:induction false} CountByGet<T, K>(xs: seq<T>, key: T -> K, k: K)
    ensures Get(CountBy(xs, key), k).GetOr(0) == |WithKey(xs, key, k)|
    decreases |xs|
  {
    if |xs| > 0 {
      var xs', x := xs[..|xs| - 1], xs[|xs| - 1];
      CountByGet(xs', key, k);
      if key(x) != k {
        PutOther(CountBy(xs', key), key(x), Get(CountBy(xs', key), key(x)).GetOr(0) + 1, k);
      }
    }
  }

  /** The counts add up to the number of elements. */
  lemma {:induction false} CountBySum<T, K>(xs: seq<T>, key: T -> K)
    ensures SumValues(CountBy(xs, key)) == |xs|
    decreases |xs|
  {
    if |xs| > 0 {
      var xs', k := xs[..|xs| - 1], key(xs[|xs| - 1]);
      var d := CountBy(xs', key);
      assert CountBy(xs, key) == Increment(d, k);
      assert SumValues(d) == |xs'| by { CountBySum(xs', key); }
      assert SumValues(Increment(d, k)) == SumValues(d) + 1 by { IncrementSum(d, k); }
    }
  }

  /** Counting one more occurrence adds one to the total. */
  lemma IncrementSum<K>(d: Dict<K, nat>, k: K)
    ensures SumValues(Increment(d, k)) == SumValues(d) + 1
  {
    var n := Get(d, k).GetOr(0);
    assert Increment(d, k) == Put(d, k, n + 1);
    assert SumValues(Put(d, k, n + 1)) + n == SumValues(d) + n + 1 by { SumAfterPut(d, k, n + 1); }
  }
}
