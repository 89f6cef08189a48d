/** Reading a mempool map in any order and sorting it in descending order: the sequence of sorted fees
    does not depend on the order of iteration or on how an unstable sort treats equal fees. */
module Sorting {

  /** What both estimators answer. */
  datatype EstimationSpeeds = EstimationSpeeds(verySlow: int, slow: int, medium: int, fast: int, veryFast: int)

  ghost predicate Descending(s: seq<int>) {
    forall i, j :: 0 <= i < j < |s| ==> s[i] >= s[j]
  }

  function Values<T>(s: seq<T>, value: T -> int): (r: seq<int>)
    ensures |r| == |s|
    ensures forall i :: 0 <= i < |s| ==> r[i] == value(s[i])
  {
    seq(|s|, i requires 0 <= i < |s| => value(s[i]))
  }

  lemma MultisetInsert<T>(s: seq<T>, k: nat, x: T)
    requires k <= |s|
    ensures multiset(s[..k] + [x] + s[k..]) == multiset(s) + multiset{x}
  {
    assert s == s[..k] + s[k..];
  }

  lemma MultisetRemove<T>(s: seq<T>, k: nat)
    requires k < |s|
    ensures multiset(s[..k] + s[k + 1..]) == multiset(s) - multiset{s[k]}
  {
    assert s == s[..k] + [s[k]] + s[k + 1..];
  }

  lemma SameSize<T>(a: seq<T>, b: seq<T>)
    requires multiset(a) == multiset(b)
    ensures |a| == |b|
  {
    assert |a| == |multiset(a)| == |multiset(b)| == |b|;
  }

  /** sort.Slice with a `greater` comparison: some descending permutation. */
  method SortDescending<T(==)>(items: seq<T>, value: T -> int) returns (sorted: seq<T>)
    ensures multiset(sorted) == multiset(items)
    ensures Descending(Values(sorted, value))
  {
    sorted := [];
    for n := 0 to |items|
      invariant multiset(sorted) == multiset(items[..n])
      invariant Descending(Values(sorted, value))
    {
      MultisetTake(items, n);
      sorted := InsertDescending(sorted, items[n], value);
    }
    assert items[..|items|] == items;
  }

  method InsertDescending<T(==)>(s: seq<T>, x: T, value: T -> int) returns (r: seq<T>)
    requires Descending(Values(s, value))
    ensures multiset(r) == multiset(s) + multiset{x}
    ensures Descending(Values(r, value))
  {
    var k := 0;
    while k < |s| && value(s[k]) >= value(x)
      invariant 0 <= k <= |s|
      invariant forall i :: 0 <= i < k ==> value(s[i]) >= value(x)
    {
      k := k + 1;
    }
    InsertKeepsDescending(s, k, x, value);
    MultisetInsert(s, k, x);
    r := s[..k] + [x] + s[k..];
  }

  lemma MultisetTake<T>(s: seq<T>, n: nat)
    requires n < |s|
    ensures multiset(s[..n + 1]) == multiset(s[..n]) + multiset{s[n]}
  {
    assert s[..n + 1] == s[..n] + [s[n]];
  }

  lemma InsertKeepsDescending<T>(s: seq<T>, k: nat, x: T, value: T -> int)
    requires Descending(Values(s, value)) && k <= |s|
    requires forall i :: 0 <= i < k ==> value(s[i]) >= value(x)
    requires k < |s| ==> value(s[k]) < value(x)
    ensures Descending(Values(s[..k] + [x] + s[k..], value))
  {
    var r := s[..k] + [x] + s[k..];
    var v, w := Values(s, value), Values(r, value);
    forall i, j | 0 <= i < j < |r| ensures w[i] >= w[j] {
      assert i < k ==> w[i] == v[i];
      assert i > k ==> w[i] == v[i - 1];
      assert j < k ==> w[j] == v[j];
      assert j > k ==> w[j] == v[j - 1];
    }
  }

  /** Descending sequences with the same elements are equal. */
  lemma {:induction false} DescendingUnique(a: seq<int>, b: seq<int>)
    requires Descending(a) && Descending(b) && multiset(a) == multiset(b)
    ensures a == b
  {
    SameSize(a, b);
    if a != [] {
      LastIsLeast(a, b);
      LastIsLeast(b, a);
      var n := |a| - 1;
      SameInit(a, b);
      DescendingUnique(a[..n], b[..n]);
    }
  }

  lemma SameInit(a: seq<int>, b: seq<int>)
    requires |a| == |b| > 0 && a[|a| - 1] == b[|a| - 1] && multiset(a) == multiset(b)
    ensures multiset(a[..|a| - 1]) == multiset(b[..|a| - 1])
  {
    var n := |a| - 1;
    MultisetTake(a, n);
    MultisetTake(b, n);
    assert a[..n + 1] == a && b[..n + 1] == b;
    assert multiset(a[..n]) == multiset(a) - multiset{a[n]};
    assert multiset(b[..n]) == multiset(b) - multiset{b[n]};
  }

  lemma LastIsLeast(a: seq<int>, b: seq<int>)
    requires Descending(a) && a != [] && b != [] && multiset(a) == multiset(b)
    ensures a[|a| - 1] <= b[|b| - 1]
  {
    assert b[|b| - 1] in multiset(b);
    assert b[|b| - 1] in a;
  }

  /** Permuting a sequence permutes its values. */
  lemma {:induction false} ValuesPermute<T>(a: seq<T>, b: seq<T>, value: T -> int)
    requires multiset(a) == multiset(b)
    ensures multiset(Values(a, value)) == multiset(Values(b, value))
  {
    SameSize(a, b);
    if a != [] {
      var n := |a| - 1;
      assert a[n] in multiset(b);
      var k :| 0 <= k < |b| && b[k] == a[n];
      MultisetRemove(a, n);
      MultisetRemove(b, k);
      assert a[..n] + a[n + 1..] == a[..n];
      ValuesPermute(a[..n], b[..k] + b[k + 1..], value);
      ValuesRemove(a, n, value);
      ValuesRemove(b, k, value);
    }
  }

  lemma ValuesRemove<T>(s: seq<T>, k: nat, value: T -> int)
    requires k < |s|
    ensures multiset(Values(s, value)) == multiset(Values(s[..k] + s[k + 1..], value)) + multiset{value(s[k])}
  {
    var v := Values(s, value);
    MultisetRemove(v, k);
    assert v[..k] + v[k + 1..] == Values(s[..k] + s[k + 1..], value);
    assert v[k] in multiset(v);
  }

  // ---------------------------------------------------------------- the mempool

  datatype Kv = Kv(key: string, value: int)

  function Fee(): Kv -> int { (r: Kv) => r.value }

  /** The records of a map in some iteration order. */
  ghost predicate Enumerates(mp: seq<Kv>, mempool: map<string, int>) {
    && (forall i :: 0 <= i < |mp| ==> mp[i].key in mempool && mempool[mp[i].key] == mp[i].value)
    && (forall i, j :: 0 <= i < j < |mp| ==> mp[i].key != mp[j].key)
    && (forall k :: k in mempool ==> Kv(k, mempool[k]) in mp)
  }

  /** sync.Map.Range, which visits the keys in no particular order. */
  method Range(mempool: map<string, int>) returns (mp: seq<Kv>)
    ensures Enumerates(mp, mempool) && |mp| == |mempool|
  {
    mp := [];
    var rest := mempool.Keys;
    while rest != {}
      invariant rest <= mempool.Keys && |mp| + |rest| == |mempool.Keys|
      invariant forall i :: 0 <= i < |mp| ==>
                  mp[i].key in mempool && mp[i].key !in rest && mempool[mp[i].key] == mp[i].value
      invariant forall i, j :: 0 <= i < j < |mp| ==> mp[i].key != mp[j].key
      invariant forall k :: k in mempool && k !in rest ==> Kv(k, mempool[k]) in mp
      decreases |rest|
    {
      var k :| k in rest;
      mp := mp + [Kv(k, mempool[k])];
      rest := rest - {k};
    }
  }

  lemma {:induction false} DistinctMultiset(mp: seq<Kv>, r: Kv)
    requires forall i, j :: 0 <= i < j < |mp| ==> mp[i].key != mp[j].key
    ensures multiset(mp)[r] == if r in mp then 1 else 0
  {
    if mp != [] {
      var n := |mp| - 1;
      assert mp == mp[..n] + [mp[n]];
      DistinctMultiset(mp[..n], r);
    }
  }

  /** Any two enumerations of a mempool sort to the same fees. */
  lemma SortedFeesAreUnique(a: seq<Kv>, b: seq<Kv>, x: seq<int>, y: seq<int>, mempool: map<string, int>)
    requires Enumerates(a, mempool) && Enumerates(b, mempool)
    requires Descending(x) && multiset(x) == multiset(Values(a, Fee()))
    requires Descending(y) && multiset(y) == multiset(Values(b, Fee()))
    ensures x == y
  {
    forall r: Kv ensures multiset(a)[r] == multiset(b)[r] {
      DistinctMultiset(a, r);
      DistinctMultiset(b, r);
      if r in a { assert r.key in mempool && mempool[r.key] == r.value; }
      if r in b { assert r.key in mempool && mempool[r.key] == r.value; }
    }
    assert multiset(a) == multiset(b);
    ValuesPermute(a, b, Fee());
    DescendingUnique(x, y);
  }

  /** `fees` is the mempool sorted in descending order. */
  ghost predicate SortedFees(fees: seq<int>, mempool: map<string, int>) {
    Descending(fees) && exists mp :: Enumerates(mp, mempool) && multiset(fees) == multiset(Values(mp, Fee()))
  }

  method SortedMempool(mempool: map<string, int>) returns (sorted: seq<Kv>)
    ensures |sorted| == |mempool|
    ensures SortedFees(Values(sorted, Fee()), mempool)
    ensures forall fees :: SortedFees(fees, mempool) ==> fees == Values(sorted, Fee())
  {
    var mp := Range(mempool);
    sorted := SortDescending(mp, Fee());
    SameSize(sorted, mp);
    ValuesPermute(sorted, mp, Fee());
    forall fees | SortedFees(fees, mempool) ensures fees == Values(sorted, Fee()) {
      var other :| Enumerates(other, mempool) && multiset(fees) == multiset(Values(other, Fee()));
      SortedFeesAreUnique(other, mp, fees, Values(sorted, Fee()), mempool);
    }
  }
}
