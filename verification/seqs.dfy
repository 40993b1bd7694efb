/** Order-preserving sequence operations: subsequences, first-seen
    de-duplication, filtering by key. Most are defined by peeling off the
    last element, mirroring a Python loop that appends as it goes. */
module Seqs {
  import opened Wrappers

  /** No element occurs twice. */
  predicate NoDups<T(==)>(s: seq<T>)
  {
    forall i, j :: 0 <= i < j < |s| ==> s[i] != s[j]
  }

  /** `xs.index(x)`: the position of the first `x`, `None` where Python
      raises ValueError. */
  function IndexOf<T(==)>(xs: seq<T>, x: T): (r: Option<nat>)
    ensures r.None? <==> x !in xs
    ensures r.Some? ==> r.value < |xs| && xs[r.value] == x && x !in xs[..r.value]
  {
    if |xs| == 0 then None
    else if xs[0] == x then Some(0)
    else match IndexOf(xs[1..], x)
      case None => None
      case Some(i) =>
        assert xs[..i + 1] == [xs[0]] + xs[1..][..i];
        Some(i + 1)
  }

  /** In a duplicate-free sequence every position is its element's index. */
  lemma IndexOfDistinct<T>(xs: seq<T>, k: nat)
    requires NoDups(xs) && k < |xs|
    ensures IndexOf(xs, xs[k]) == Some(k)
  {
  }

  /** `a` is `b` with some elements left out, order kept. */
  predicate SubSeq<T(==)>(a: seq<T>, b: seq<T>)
    decreases |b|
  {
    if |a| == 0 then true
    else if |b| == 0 then false
    else if a[|a| - 1] == b[|b| - 1] then SubSeq(a[..|a| - 1], b[..|b| - 1])
    else SubSeq(a, b[..|b| - 1])
  }

  lemma {:induction false} SubSeqDropLast<T>(a: seq<T>, b: seq<T>)
    requires |a| > 0 && SubSeq(a, b)
    ensures SubSeq(a[..|a| - 1], b)
    decreases |b|
  {
    var a', b' := a[..|a| - 1], b[..|b| - 1];
    if |a'| > 0 {
      if a[|a| - 1] == b[|b| - 1] {
        if a'[|a'| - 1] == b[|b| - 1] {
          SubSeqDropLast(a', b');
        }
      } else {
        SubSeqDropLast(a, b');
        if a'[|a'| - 1] == b[|b| - 1] {
          SubSeqDropLast(a', b');
        }
      }
    }
  }

  /** Appending to the longer sequence keeps a subsequence one. */
  lemma SubSeqExtend<T>(a: seq<T>, b: seq<T>, x: T)
    requires SubSeq(a, b)
    ensures SubSeq(a, b + [x])
  {
    assert (b + [x])[..|b|] == b;
    if |a| > 0 && a[|a| - 1] == x {
      SubSeqDropLast(a, b);
    }
  }

  /** Appending the same element to both keeps a subsequence one. */
  lemma SubSeqSnoc<T>(a: seq<T>, b: seq<T>, x: T)
    requires SubSeq(a, b)
    ensures SubSeq(a + [x], b + [x])
  {
    assert (a + [x])[..|a|] == a;
    assert (b + [x])[..|b|] == b;
  }

  lemma {:induction false} SubSeqMembers<T>(a: seq<T>, b: seq<T>)
    requires SubSeq(a, b)
    ensures forall x :: x in a ==> x in b
    decreases |b|
  {
    if |a| > 0 {
      var a', b' := a[..|a| - 1], b[..|b| - 1];
      if a[|a| - 1] == b[|b| - 1] {
        SubSeqMembers(a', b');
        assert a == a' + [a[|a| - 1]];
        assert b == b' + [b[|b| - 1]];
      } else {
        SubSeqMembers(a, b');
        assert b == b' + [b[|b| - 1]];
      }
    }
  }

  /** `[f(x) for x in xs]`. */
  function MapSeq<T, U>(xs: seq<T>, f: T -> U): (ys: seq<U>)
    ensures |ys| == |xs|
    ensures forall i :: 0 <= i < |xs| ==> ys[i] == f(xs[i])
  {
    seq(|xs|, i requires 0 <= i < |xs| => f(xs[i]))
  }

  lemma MapSnoc<T, U>(xs: seq<T>, x: T, f: T -> U)
    ensures MapSeq(xs + [x], f) == MapSeq(xs, f) + [f(x)]
  {
  }

  lemma MapPrefix<T, U>(xs: seq<T>, n: nat, f: T -> U)
    requires n <= |xs|
    ensures MapSeq(xs[..n], f) == MapSeq(xs, f)[..n]
  {
  }

  // ---------------------------------------------------------------- distinct

  /** The distinct elements of `ks` in first-seen order. */
  function Distinct<K(==)>(ks: seq<K>): seq<K>
    decreases |ks|
  {
    if |ks| == 0 then []
    else
      var ds := Distinct(ks[..|ks| - 1]);
      if ks[|ks| - 1] in ds then ds else ds + [ks[|ks| - 1]]
  }

  /** `Distinct` keeps exactly the elements of its input, once each, in
      order of first appearance. */
  lemma {:induction false} DistinctFacts<K>(ks: seq<K>)
    ensures NoDups(Distinct(ks))
    ensures forall k :: k in Distinct(ks) <==> k in ks
    ensures SubSeq(Distinct(ks), ks)
    ensures |Distinct(ks)| <= |ks|
    decreases |ks|
  {
    if |ks| > 0 {
      var ks', x := ks[..|ks| - 1], ks[|ks| - 1];
      DistinctFacts(ks');
      assert ks == ks' + [x];
      if x in Distinct(ks') {
        SubSeqExtend(Distinct(ks'), ks', x);
      } else {
        SubSeqSnoc(Distinct(ks'), ks', x);
      }
    }
  }

  /** `DistinctFacts`' membership clause for one given element. */
  lemma DistinctMember<K>(ks: seq<K>, y: K)
    ensures y in Distinct(ks) <==> y in ks
  {
    DistinctFacts(ks);
  }

  lemma {:induction false} DistinctOfNoDups<K>(ks: seq<K>)
    requires NoDups(ks)
    ensures Distinct(ks) == ks
    decreases |ks|
  {
    if |ks| > 0 {
      var ks', x := ks[..|ks| - 1], ks[|ks| - 1];
      DistinctOfNoDups(ks');
      DistinctFacts(ks');
      assert x !in ks';
      assert ks == ks' + [x];
    }
  }

  /** A duplicate-free sequence has as many elements as its set. */
  lemma {:induction false} NoDupsCardinality<K>(ks: seq<K>)
    requires NoDups(ks)
    ensures |set k | k in ks| == |ks|
    decreases |ks|
  {
    if |ks| > 0 {
      var ks', x := ks[..|ks| - 1], ks[|ks| - 1];
      NoDupsCardinality(ks');
      assert (set k | k in ks) == (set k | k in ks') + {x};
      assert x !in ks';
    }
  }

  /** `f` tells the elements of `xs` apart. */
  ghost predicate InjectiveOn<T, U>(xs: seq<T>, f: T -> U)
  {
    forall i, j :: 0 <= i < |xs| && 0 <= j < |xs| && f(xs[i]) == f(xs[j]) ==> xs[i] == xs[j]
  }

  /** A map injective on the elements and on `x` keeps membership. */
  lemma MapMemberInjective<T, U>(xs: seq<T>, f: T -> U, x: T)
    requires InjectiveOn(xs + [x], f)
    ensures f(x) in MapSeq(xs, f) <==> x in xs
  {
    if f(x) in MapSeq(xs, f) {
      var i :| 0 <= i < |xs| && MapSeq(xs, f)[i] == f(x);
      var ys := xs + [x];
      assert ys[i] == xs[i] && ys[|xs|] == x;
    }
  }

  /** Injectivity on a sequence carries over to any sequence of its members. */
  lemma InjectiveOnMembers<T, U>(xs: seq<T>, ys: seq<T>, f: T -> U)
    requires InjectiveOn(ys, f)
    requires forall x :: x in xs ==> x in ys
    ensures InjectiveOn(xs, f)
  {
    forall i, j | 0 <= i < |xs| && 0 <= j < |xs| && f(xs[i]) == f(xs[j]) ensures xs[i] == xs[j] {
      assert xs[i] in ys && xs[j] in ys;
      var a :| 0 <= a < |ys| && ys[a] == xs[i];
      var b :| 0 <= b < |ys| && ys[b] == xs[j];
    }
  }

  /** Renaming by an injective map commutes with `Distinct`. */
  lemma {:induction false} DistinctMapInjective<T, U>(ks: seq<T>, f: T -> U)
    requires InjectiveOn(ks, f)
    ensures Distinct(MapSeq(ks, f)) == MapSeq(Distinct(ks), f)
    decreases |ks|
  {
    if |ks| > 0 {
      var ks', x := ks[..|ks| - 1], ks[|ks| - 1];
      var ds := Distinct(ks');
      assert InjectiveOn(ks', f) by { InjectiveOnPrefix(ks, f); }
      assert Distinct(MapSeq(ks', f)) == MapSeq(ds, f) by { DistinctMapInjective(ks', f); }
      assert Distinct(MapSeq(ks, f)) ==
               if f(x) in MapSeq(ds, f) then MapSeq(ds, f) else MapSeq(ds, f) + [f(x)] by {
        DistinctMapSnoc(ks, f);
      }
      assert f(x) in MapSeq(ds, f) <==> x in ds by { DistinctRenamedMember(ks, f); }
      assert Distinct(ks) == if x in ds then ds else ds + [x];
      MapSnoc(ds, x, f);
    }
  }

  /** Dropping the last element keeps a map injective. */
  lemma InjectiveOnPrefix<T, U>(ks: seq<T>, f: T -> U)
    requires |ks| > 0 && InjectiveOn(ks, f)
    ensures InjectiveOn(ks[..|ks| - 1], f)
  {
    var ks' := ks[..|ks| - 1];
    forall i, j | 0 <= i < |ks'| && 0 <= j < |ks'| && f(ks'[i]) == f(ks'[j]) ensures ks'[i] == ks'[j] {
      assert ks[i] == ks'[i] && ks[j] == ks'[j];
    }
  }

  /** One step of `Distinct` over the renamed sequence. */
  lemma DistinctMapSnoc<T, U>(ks: seq<T>, f: T -> U)
    requires |ks| > 0
    ensures var d := Distinct(MapSeq(ks[..|ks| - 1], f)); var y := f(ks[|ks| - 1]);
      Distinct(MapSeq(ks, f)) == if y in d then d else d + [y]
  {
    var ks', x := ks[..|ks| - 1], ks[|ks| - 1];
    assert ks == ks' + [x];
    MapSnoc(ks', x, f);
    assert MapSeq(ks, f)[..|ks| - 1] == MapSeq(ks', f);
  }

  /** Renamed, the last element is among the renamed distinct elements
      before it exactly when it is among them unrenamed. */
  lemma DistinctRenamedMember<T, U>(ks: seq<T>, f: T -> U)
    requires |ks| > 0 && InjectiveOn(ks, f)
    ensures var ds := Distinct(ks[..|ks| - 1]);
      f(ks[|ks| - 1]) in MapSeq(ds, f) <==> ks[|ks| - 1] in ds
  {
    var ks', x := ks[..|ks| - 1], ks[|ks| - 1];
    var ds := Distinct(ks');
    forall y | y in ds + [x] ensures y in ks {
      if y in ds {
        DistinctMember(ks', y);
        var i :| 0 <= i < |ks'| && ks'[i] == y;
        assert ks[i] == y;
      } else {
        assert ks[|ks| - 1] == y;
      }
    }
    InjectiveOnMembers(ds + [x], ks, f);
    MapMemberInjective(ds, f, x);
  }

  // ---------------------------------------------------------------- filter

  /** `[x for x in xs if key(x) == k]`. */
  function WithKey<T, K(==)>(xs: seq<T>, key: T -> K, k: K): seq<T>
    decreases |xs|
  {
    if |xs| == 0 then []
    else
      var p := WithKey(xs[..|xs| - 1], key, k);
      if key(xs[|xs| - 1]) == k then p + [xs[|xs| - 1]] else p
  }

  /** The filter keeps exactly the elements of `xs` whose key is `k`, in
      their original order. */
  lemma {:induction false} WithKeyFacts<T, K>(xs: seq<T>, key: T -> K, k: K)
    ensures forall x :: x in WithKey(xs, key, k) <==> x in xs && key(x) == k
    ensures SubSeq(WithKey(xs, key, k), xs)
    ensures NoDups(xs) ==> NoDups(WithKey(xs, key, k))
    decreases |xs|
  {
    if |xs| > 0 {
      var xs', x := xs[..|xs| - 1], xs[|xs| - 1];
      var p := WithKey(xs', key, k);
      WithKeyFacts(xs', key, k);
      assert xs == xs' + [x];
      assert forall y :: y in xs <==> y in xs' || y == x;
      if key(x) == k {
        assert WithKey(xs, key, k) == p + [x];
        SubSeqSnoc(p, xs', x);
        if NoDups(xs) {
          assert x !in xs' by { assert xs[|xs| - 1] == x; }
          assert x !in p;
        }
      } else {
        assert WithKey(xs, key, k) == p;
        SubSeqExtend(p, xs', x);
      }
    }
  }

  /** Everything passes the filter when every element has the key. */
  lemma {:induction false} WithKeyAll<T, K>(xs: seq<T>, key: T -> K, k: K)
    requires forall x :: x in xs ==> key(x) == k
    ensures WithKey(xs, key, k) == xs
    decreases |xs|
  {
    if |xs| > 0 {
      assert xs[|xs| - 1] in xs;
      assert xs == xs[..|xs| - 1] + [xs[|xs| - 1]];
      WithKeyAll(xs[..|xs| - 1], key, k);
    }
  }

  /** Nothing passes the filter for a key no element has. */
  lemma {:induction false} WithKeyAbsent<T, K>(xs: seq<T>, key: T -> K, k: K)
    requires k !in MapSeq(xs, key)
    ensures WithKey(xs, key, k) == []
    decreases |xs|
  {
    if |xs| > 0 {
      MapPrefix(xs, |xs| - 1, key);
      WithKeyAbsent(xs[..|xs| - 1], key, k);
    }
  }

  /** Filters for equal keys on sequences that agree pointwise on the key. */
  lemma {:induction false} WithKeySameKeys<T, K, L>(xs: seq<T>, key: T -> K, k: K, key2: T -> L, l: L)
    requires forall x :: x in xs ==> (key(x) == k <==> key2(x) == l)
    ensures WithKey(xs, key, k) == WithKey(xs, key2, l)
    decreases |xs|
  {
    if |xs| > 0 {
      WithKeySameKeys(xs[..|xs| - 1], key, k, key2, l);
    }
  }

  // ---------------------------------------------------------------- de-duplication

  /** First-seen de-duplication by key: walk `xs` left to right and keep an
      element only when no element kept so far has the same key. */
  function DedupBy<T, K(==)>(xs: seq<T>, key: T -> K): seq<T>
    decreases |xs|
  {
    if |xs| == 0 then []
    else
      var p := DedupBy(xs[..|xs| - 1], key);
      if key(xs[|xs| - 1]) in MapSeq(p, key) then p else p + [xs[|xs| - 1]]
  }

  /** `xs[j]` is the first element of `xs` with its key. */
  predicate FirstOfKey<T, K(==)>(xs: seq<T>, key: T -> K, j: nat)
    requires j < |xs|
  {
    key(xs[j]) !in MapSeq(xs[..j], key)
  }

  /** A key is kept exactly when the input has it. */
  lemma {:induction false} DedupByKeys<T, K>(xs: seq<T>, key: T -> K, k: K)
    ensures k in MapSeq(DedupBy(xs, key), key) <==> k in MapSeq(xs, key)
    decreases |xs|
  {
    if |xs| > 0 {
      var xs', x := xs[..|xs| - 1], xs[|xs| - 1];
      DedupByKeys(xs', key, k);
      MapSnoc(xs', x, key);
      assert xs == xs' + [x];
      MapSnoc(DedupBy(xs', key), x, key);
    }
  }

  /** The kept keys are pairwise different. */
  lemma {:induction false} DedupByUnique<T, K>(xs: seq<T>, key: T -> K)
    ensures NoDups(MapSeq(DedupBy(xs, key), key))
    decreases |xs|
  {
    if |xs| > 0 {
      var xs', x := xs[..|xs| - 1], xs[|xs| - 1];
      DedupByUnique(xs', key);
      MapSnoc(DedupBy(xs', key), x, key);
    }
  }

  /** The output is the input with elements left out, order kept. */
  lemma {:induction false} DedupBySubSeq<T, K>(xs: seq<T>, key: T -> K)
    ensures SubSeq(DedupBy(xs, key), xs)
    decreases |xs|
  {
    if |xs| > 0 {
      var xs', x := xs[..|xs| - 1], xs[|xs| - 1];
      DedupBySubSeq(xs', key);
      assert xs == xs' + [x];
      if key(x) in MapSeq(DedupBy(xs', key), key) {
        SubSeqExtend(DedupBy(xs', key), xs', x);
      } else {
        SubSeqSnoc(DedupBy(xs', key), xs', x);
      }
    }
  }

  lemma FirstOfKeyPrefix<T, K>(xs: seq<T>, key: T -> K, j: nat)
    requires j < |xs| - 1
    ensures FirstOfKey(xs, key, j) <==> FirstOfKey(xs[..|xs| - 1], key, j)
  {
    assert xs[..j] == xs[..|xs| - 1][..j];
  }

  /** Every kept element is the first element of the input with its key. */
  lemma {:induction false} DedupByKeepsOnlyFirst<T, K>(xs: seq<T>, key: T -> K)
    ensures forall y :: y in DedupBy(xs, key) ==>
              exists j :: 0 <= j < |xs| && xs[j] == y && FirstOfKey(xs, key, j)
    decreases |xs|
  {
    if |xs| > 0 {
      var n := |xs| - 1;
      var xs', x := xs[..n], xs[n];
      DedupByKeepsOnlyFirst(xs', key);
      DedupByKeys(xs', key, key(x));
      var p := DedupBy(xs', key);
      forall y | y in DedupBy(xs, key)
        ensures exists j :: 0 <= j < |xs| && xs[j] == y && FirstOfKey(xs, key, j)
      {
        if y in p {
          var j :| 0 <= j < n && xs'[j] == y && FirstOfKey(xs', key, j);
          FirstOfKeyPrefix(xs, key, j);
          assert xs[j] == y;
        } else {
          assert y == x && key(x) !in MapSeq(p, key);
          assert key(x) !in MapSeq(xs', key);
          assert FirstOfKey(xs, key, n);
        }
      }
    }
  }

  /** The first element of the input with each key is kept. */
  lemma {:induction false} DedupByKeepsEveryFirst<T, K>(xs: seq<T>, key: T -> K)
    ensures forall j :: 0 <= j < |xs| && FirstOfKey(xs, key, j) ==> xs[j] in DedupBy(xs, key)
    decreases |xs|
  {
    if |xs| > 0 {
      var n := |xs| - 1;
      var xs', x := xs[..n], xs[n];
      DedupByKeepsEveryFirst(xs', key);
      DedupByKeys(xs', key, key(x));
      var p := DedupBy(xs', key);
      forall j | 0 <= j < |xs| && FirstOfKey(xs, key, j)
        ensures xs[j] in DedupBy(xs, key)
      {
        if j < n {
          FirstOfKeyPrefix(xs, key, j);
          assert xs'[j] in p;
        } else {
          assert key(x) !in MapSeq(xs', key);
          assert key(x) !in MapSeq(p, key);
        }
      }
    }
  }

  /** An input whose keys are already distinct is returned unchanged. */
  lemma {:induction false} DedupByOfUnique<T, K>(xs: seq<T>, key: T -> K)
    requires NoDups(MapSeq(xs, key))
    ensures DedupBy(xs, key) == xs
    decreases |xs|
  {
    if |xs| > 0 {
      var xs', x := xs[..|xs| - 1], xs[|xs| - 1];
      MapPrefix(xs, |xs| - 1, key);
      DedupByOfUnique(xs', key);
      assert key(x) !in MapSeq(xs', key);
      assert xs == xs' + [x];
    }
  }

  /** De-duplicating twice is the same as once. */
  lemma DedupByIdempotent<T, K>(xs: seq<T>, key: T -> K)
    ensures DedupBy(DedupBy(xs, key), key) == DedupBy(xs, key)
  {
    DedupByUnique(xs, key);
    DedupByOfUnique(DedupBy(xs, key), key);
  }
}
