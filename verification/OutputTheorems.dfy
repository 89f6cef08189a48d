/** Order independence of output tracking, and what the balance of an address means after a resync. */
module OutputTheorems {
  import opened SpendableOutputs

  ghost predicate Sound(o: Outputs) {
    && OneRecordPerKey(o.spendable)
    && KeysOf(o.spendable) !! SpentKeys(o.spent)
  }

  ghost function Added(es: seq<Event>): set<Key> { set e | e in es && e.Add? :: e.out.key }

  ghost function Deleted(es: seq<Event>): set<Key> { set e | e in es && e.Delete? :: e.key }

  // ---------------------------------------------------------------- one event

  lemma IndexFinds(outs: seq<SpOut>, k: Key)
    ensures IndexOfKey(outs, k) < |outs| <==> k in KeysOf(outs)
  {
    var i := IndexOfKey(outs, k);
    if i < |outs| { assert outs[i] in outs; }
  }

  lemma AddEffect(o: Outputs, out: SpOut)
    requires Sound(o)
    ensures Sound(AddOut(o, out))
    ensures KeysOf(AddOut(o, out).spendable) ==
            if out.key in SpentKeys(o.spent) then KeysOf(o.spendable) else KeysOf(o.spendable) + {out.key}
    ensures AddOut(o, out).spent == o.spent
  {
    var p := AddOut(o, out);
    IndexFinds(o.spendable, out.key);
    if out.key !in o.spent {
      var i := IndexOfKey(o.spendable, out.key);
      if i < |o.spendable| {
        SameKeys(o.spendable, p.spendable);
      } else {
        assert p.spendable == o.spendable + [out];
      }
    }
  }

  lemma SameKeys(a: seq<SpOut>, b: seq<SpOut>)
    requires |a| == |b| && forall i :: 0 <= i < |a| ==> a[i].key == b[i].key
    ensures KeysOf(a) == KeysOf(b)
  {
    forall k | k in KeysOf(a) ensures k in KeysOf(b) {
      var i :| 0 <= i < |a| && a[i].key == k;
      assert b[i] in b;
    }
    forall k | k in KeysOf(b) ensures k in KeysOf(a) {
      var i :| 0 <= i < |b| && b[i].key == k;
      assert a[i] in a;
    }
  }

  lemma RemoveAt(outs: seq<SpOut>, i: nat)
    requires OneRecordPerKey(outs) && i < |outs|
    ensures OneRecordPerKey(outs[..i] + outs[i + 1..])
    ensures KeysOf(outs[..i] + outs[i + 1..]) == KeysOf(outs) - {outs[i].key}
  {
    var r := outs[..i] + outs[i + 1..];
    forall j | 0 <= j < |r| ensures r[j].key in KeysOf(outs) && r[j].key != outs[i].key {
      assert r[j] == outs[if j < i then j else j + 1];
      assert r[j] in outs;
    }
    forall x | x in KeysOf(outs) && x != outs[i].key ensures x in KeysOf(r) {
      var j :| 0 <= j < |outs| && outs[j].key == x;
      assert r[if j < i then j else j - 1] == outs[j];
    }
  }

  lemma DeleteEffect(o: Outputs, k: Key)
    requires Sound(o)
    ensures Sound(DeleteOut(o, k))
    ensures KeysOf(DeleteOut(o, k).spendable) == KeysOf(o.spendable) - {k}
    ensures SpentKeys(DeleteOut(o, k).spent) == SpentKeys(o.spent) + {k}
  {
    var i := IndexOfKey(o.spendable, k);
    IndexFinds(o.spendable, k);
    assert Repeated(k, DELETE_ATTEMPTS)[0] == k;
    if i < |o.spendable| { RemoveAt(o.spendable, i); }
  }

  lemma SetAlgebra(k0: set<Key>, a: set<Key>, s: set<Key>, k: Key)
    ensures (k0 + (a + {k})) - s == if k in s then (k0 + a) - s else ((k0 + a) - s) + {k}
    ensures (k0 + a) - (s + {k}) == ((k0 + a) - s) - {k}
  {
  }

  // ---------------------------------------------------------------- any list of events

  /** The final spendable keys are the added ones minus the deleted ones, whatever the order. */
  lemma {:induction false} TwoPhaseSet(o: Outputs, es: seq<Event>)
    requires Sound(o)
    ensures Sound(After(o, es))
    ensures KeysOf(After(o, es).spendable) == (KeysOf(o.spendable) + Added(es)) - (SpentKeys(o.spent) + Deleted(es))
    ensures SpentKeys(After(o, es).spent) == SpentKeys(o.spent) + Deleted(es)
  {
    if es != [] {
      var init, last := es[..|es| - 1], es[|es| - 1];
      assert es == init + [last];
      TwoPhaseSet(o, init);
      AddedSplit(init, last);
      var s := SpentKeys(o.spent) + Deleted(init);
      match last
      case Add(out) =>
        AddEffect(After(o, init), out);
        SetAlgebra(KeysOf(o.spendable), Added(init), s, out.key);
      case Delete(k) =>
        DeleteEffect(After(o, init), k);
        SetAlgebra(KeysOf(o.spendable), Added(init), s, k);
        assert s + {k} == SpentKeys(o.spent) + (Deleted(init) + {k});
    }
  }

  lemma AddedSplit(init: seq<Event>, last: Event)
    ensures Added(init + [last]) == Added(init) + (if last.Add? then {last.out.key} else {})
    ensures Deleted(init + [last]) == Deleted(init) + (if last.Delete? then {last.key} else {})
  {
  }

  /** Any reordering or repetition of the same events ends with the same spendable and spent keys. */
  lemma OrderDoesNotMatter(o: Outputs, es: seq<Event>, fs: seq<Event>)
    requires Sound(o)
    requires forall e :: e in es <==> e in fs
    ensures KeysOf(After(o, es).spendable) == KeysOf(After(o, fs).spendable)
    ensures |After(o, es).spendable| == |After(o, fs).spendable|
    ensures SpentKeys(After(o, es).spent) == SpentKeys(After(o, fs).spent)
  {
    TwoPhaseSet(o, es);
    TwoPhaseSet(o, fs);
    assert Added(es) == Added(fs) && Deleted(es) == Deleted(fs);
    AsManyAsKeys(After(o, es).spendable);
    AsManyAsKeys(After(o, fs).spendable);
  }

  lemma {:induction false} AsManyAsKeys(outs: seq<SpOut>)
    requires OneRecordPerKey(outs)
    ensures |KeysOf(outs)| == |outs|
  {
    if outs != [] {
      var init, last := outs[..|outs| - 1], outs[|outs| - 1];
      AsManyAsKeys(init);
      assert outs == init + [last];
      assert KeysOf(outs) == KeysOf(init) + {last.key};
      assert last.key !in KeysOf(init);
    }
  }

  // ---------------------------------------------------------------- the balance after a resync

  /** Is the i-th event the first add of its key? */
  ghost predicate FirstAdd(es: seq<Event>, i: nat)
    requires i < |es|
  {
    es[i].Add? && forall j :: 0 <= j < i && es[j].Add? ==> es[j].out.key != es[i].out.key
  }

  ghost predicate Survives(es: seq<Event>, i: nat, address: string)
    requires i < |es|
  {
    FirstAdd(es, i) && es[i].out.key.address == address && es[i].out.key !in Deleted(es)
  }

  /** Sum of the first-added amounts, among the first n events, of the keys of the address that are
      never deleted. */
  ghost function SurvivingAmount(es: seq<Event>, address: string, n: nat): int
    requires n <= |es|
  {
    if n == 0 then 0
    else SurvivingAmount(es, address, n - 1) + (if Survives(es, n - 1, address) then es[n - 1].out.amount else 0)
  }

  datatype Entry = Entry(key: Key, amount: int)

  /** The records of an address, without their status. */
  function EntriesOf(outs: seq<SpOut>, address: string): seq<Entry> {
    if outs == [] then []
    else
      var last := outs[|outs| - 1];
      var rest := EntriesOf(outs[..|outs| - 1], address);
      if last.key.address == address then rest + [Entry(last.key, last.amount)] else rest
  }

  ghost function SurvivingEntries(es: seq<Event>, address: string, n: nat): seq<Entry>
    requires n <= |es|
  {
    if n == 0 then []
    else
      var rest := SurvivingEntries(es, address, n - 1);
      if Survives(es, n - 1, address) then rest + [Entry(es[n - 1].out.key, es[n - 1].out.amount)] else rest
  }

  function Total(entries: seq<Entry>): int {
    if entries == [] then 0 else Total(entries[..|entries| - 1]) + entries[|entries| - 1].amount
  }

  function EntriesWithout(entries: seq<Entry>, k: Key): seq<Entry> {
    if entries == [] then []
    else
      var last := entries[|entries| - 1];
      var rest := EntriesWithout(entries[..|entries| - 1], k);
      if last.key != k then rest + [last] else rest
  }

  lemma TotalAppend(entries: seq<Entry>, e: Entry)
    ensures Total(entries + [e]) == Total(entries) + e.amount
  {
    assert (entries + [e])[..|entries|] == entries;
  }

  lemma WithoutAppend(entries: seq<Entry>, e: Entry, k: Key)
    ensures EntriesWithout(entries + [e], k)
         == if e.key != k then EntriesWithout(entries, k) + [e] else EntriesWithout(entries, k)
  {
    assert (entries + [e])[..|entries|] == entries;
  }

  lemma {:induction false} BalanceIsTotal(outs: seq<SpOut>, address: string)
    ensures Balance(outs, address) == Total(EntriesOf(outs, address))
  {
    if outs != [] {
      var init, last := outs[..|outs| - 1], outs[|outs| - 1];
      BalanceIsTotal(init, address);
      TotalAppend(EntriesOf(init, address), Entry(last.key, last.amount));
    }
  }

  lemma {:induction false} AmountIsTotal(es: seq<Event>, address: string, n: nat)
    requires n <= |es|
    ensures SurvivingAmount(es, address, n) == Total(SurvivingEntries(es, address, n))
  {
    if n > 0 {
      AmountIsTotal(es, address, n - 1);
      if Survives(es, n - 1, address) {
        TotalAppend(SurvivingEntries(es, address, n - 1), Entry(es[n - 1].out.key, es[n - 1].out.amount));
      }
    }
  }

  // entries across one change of the records

  lemma {:induction false} EntriesAppend(outs: seq<SpOut>, out: SpOut, address: string)
    ensures EntriesOf(outs + [out], address) ==
            if out.key.address == address then EntriesOf(outs, address) + [Entry(out.key, out.amount)]
            else EntriesOf(outs, address)
  {
    assert (outs + [out])[..|outs|] == outs;
  }

  lemma {:induction false} EntriesOfSameAmounts(a: seq<SpOut>, b: seq<SpOut>, address: string)
    requires |a| == |b| && forall i :: 0 <= i < |a| ==> a[i].key == b[i].key && a[i].amount == b[i].amount
    ensures EntriesOf(a, address) == EntriesOf(b, address)
  {
    if a != [] { EntriesOfSameAmounts(a[..|a| - 1], b[..|b| - 1], address); }
  }

  lemma {:induction false} EntriesAfterRemove(outs: seq<SpOut>, i: nat, address: string)
    requires OneRecordPerKey(outs) && i < |outs|
    ensures EntriesOf(outs[..i] + outs[i + 1..], address) == EntriesWithout(EntriesOf(outs, address), outs[i].key)
  {
    var init, last := outs[..|outs| - 1], outs[|outs| - 1];
    if i == |outs| - 1 {
      assert outs[..i] + outs[i + 1..] == init;
      NothingWithKey(init, last.key, address);
    } else {
      assert outs[..i] + outs[i + 1..] == (init[..i] + init[i + 1..]) + [last];
      EntriesAfterRemove(init, i, address);
      EntriesAppend(init[..i] + init[i + 1..], last, address);
    }
    if last.key.address == address {
      WithoutAppend(EntriesOf(init, address), Entry(last.key, last.amount), outs[i].key);
    }
  }

  lemma {:induction false} NothingWithKey(outs: seq<SpOut>, k: Key, address: string)
    requires forall i :: 0 <= i < |outs| ==> outs[i].key != k
    ensures EntriesWithout(EntriesOf(outs, address), k) == EntriesOf(outs, address)
  {
    if outs != [] {
      var init, last := outs[..|outs| - 1], outs[|outs| - 1];
      NothingWithKey(init, k, address);
      WithoutAppend(EntriesOf(init, address), Entry(last.key, last.amount), k);
    }
  }

  // surviving entries across one more event

  lemma {:induction false} SurvivorsAfterAdd(init: seq<Event>, out: SpOut, address: string, n: nat)
    requires n <= |init|
    ensures SurvivingEntries(init + [Add(out)], address, n) == SurvivingEntries(init, address, n)
  {
    AddedSplit(init, Add(out));
    if n > 0 {
      SurvivorsAfterAdd(init, out, address, n - 1);
      assert forall j :: 0 <= j < n ==> (init + [Add(out)])[j] == init[j];
      assert Survives(init + [Add(out)], n - 1, address) <==> Survives(init, n - 1, address);
    }
  }

  lemma SurvivesDelete(init: seq<Event>, es: seq<Event>, k: Key, address: string, n: nat)
    requires n < |init| && es == init + [Delete(k)]
    ensures es[n] == init[n]
    ensures Survives(es, n, address) <==> Survives(init, n, address) && init[n].out.key != k
  {
    AddedSplit(init, Delete(k));
    assert forall j :: 0 <= j <= n ==> es[j] == init[j];
  }

  lemma {:induction false} SurvivorsAfterDelete(init: seq<Event>, es: seq<Event>, k: Key, address: string, n: nat)
    requires n <= |init| && es == init + [Delete(k)]
    ensures SurvivingEntries(es, address, n) == EntriesWithout(SurvivingEntries(init, address, n), k)
  {
    if n > 0 {
      SurvivorsAfterDelete(init, es, k, address, n - 1);
      SurvivesDelete(init, es, k, address, n - 1);
      var rest := SurvivingEntries(init, address, n - 1);
      if Survives(init, n - 1, address) {
        WithoutAppend(rest, Entry(init[n - 1].out.key, init[n - 1].out.amount), k);
      }
    }
  }

  lemma DeleteIsNoSurvivor(es: seq<Event>, address: string)
    requires es != [] && es[|es| - 1].Delete?
    ensures SurvivingEntries(es, address, |es|) == SurvivingEntries(es, address, |es| - 1)
  {
  }

  // ---------------------------------------------------------------- the theorem

  lemma {:induction false} NoEntriesLeft(outs: seq<SpOut>, address: string)
    ensures EntriesOf(OutsElsewhere(outs, address), address) == []
  {
    if outs != [] {
      var init, last := outs[..|outs| - 1], outs[|outs| - 1];
      NoEntriesLeft(init, address);
      if last.key.address != address { EntriesAppend(OutsElsewhere(init, address), last, address); }
    }
  }

  lemma {:induction false} ElsewhereOneRecordPerKey(outs: seq<SpOut>, address: string)
    requires OneRecordPerKey(outs)
    ensures OneRecordPerKey(OutsElsewhere(outs, address))
  {
    if outs != [] {
      var init, last := outs[..|outs| - 1], outs[|outs| - 1];
      ElsewhereOneRecordPerKey(init, address);
      var r := OutsElsewhere(init, address);
      forall i | 0 <= i < |r| ensures r[i].key != last.key { assert r[i] in init; }
    }
  }

  lemma ClearKeepsSound(o: Outputs, address: string)
    requires Sound(o)
    ensures Sound(ClearAddress(o, address))
    ensures forall k :: k in KeysOf(ClearAddress(o, address).spendable) ==> k.address != address
    ensures forall k :: k in SpentKeys(ClearAddress(o, address).spent) ==> k.address != address
  {
    ElsewhereOneRecordPerKey(o.spendable, address);
    assert KeysOf(ClearAddress(o, address).spendable) <= KeysOf(o.spendable);
    assert SpentKeys(ClearAddress(o, address).spent) <= SpentKeys(o.spent);
  }

  lemma {:induction false} EntriesAfterResync(o: Outputs, address: string, es: seq<Event>)
    requires Sound(o)
    ensures EntriesOf(After(ClearAddress(o, address), es).spendable, address) == SurvivingEntries(es, address, |es|)
  {
    var start := ClearAddress(o, address);
    ClearKeepsSound(o, address);
    if es == [] {
      NoEntriesLeft(o.spendable, address);
    } else {
      var init, last := es[..|es| - 1], es[|es| - 1];
      assert es == init + [last];
      EntriesAfterResync(o, address, init);
      TwoPhaseSet(start, init);
      var mid := After(start, init);
      forall k: Key | k.address == address ensures k in mid.spent <==> k in Deleted(init) {
        assert k in mid.spent <==> k in SpentKeys(mid.spent);
      }
      assert Tracks(mid, address, init);
      match last
      case Add(out) => OneMoreAdd(mid, address, init, out);
      case Delete(k) => OneMoreDelete(mid, address, init, k);
    }
  }

  /** The records of the address before the event, in terms of the events so far. */
  ghost predicate Tracks(mid: Outputs, address: string, init: seq<Event>) {
    && Sound(mid)
    && EntriesOf(mid.spendable, address) == SurvivingEntries(init, address, |init|)
    && forall k: Key :: k.address == address ==>
         (k in KeysOf(mid.spendable) <==> k in Added(init) && k !in Deleted(init))
           && (k in mid.spent <==> k in Deleted(init))
  }

  lemma OneMoreAdd(mid: Outputs, address: string, init: seq<Event>, out: SpOut)
    requires Tracks(mid, address, init)
    ensures EntriesOf(AddOut(mid, out).spendable, address) == SurvivingEntries(init + [Add(out)], address, |init| + 1)
  {
    var es, n := init + [Add(out)], |init|;
    SurvivorsAfterAdd(init, out, address, n);
    IndexFinds(mid.spendable, out.key);
    AddedSplit(init, Add(out));
    assert es[n] == Add(out);
    FirstAddIffNew(init, out);
    if out.key !in mid.spent {
      if IndexOfKey(mid.spendable, out.key) == |mid.spendable| {
        EntriesAppend(mid.spendable, out, address);
      } else {
        EntriesOfSameAmounts(mid.spendable, AddOut(mid, out).spendable, address);
      }
    }
  }

  lemma OneMoreDelete(mid: Outputs, address: string, init: seq<Event>, k: Key)
    requires Tracks(mid, address, init)
    ensures EntriesOf(DeleteOut(mid, k).spendable, address) == SurvivingEntries(init + [Delete(k)], address, |init| + 1)
  {
    var es := init + [Delete(k)];
    SurvivorsAfterDelete(init, es, k, address, |init|);
    DeleteIsNoSurvivor(es, address);
    EntriesAfterDelete(mid, address, k);
  }

  lemma EntriesAfterDelete(mid: Outputs, address: string, k: Key)
    requires Sound(mid)
    ensures EntriesOf(DeleteOut(mid, k).spendable, address) == EntriesWithout(EntriesOf(mid.spendable, address), k)
  {
    var i := IndexOfKey(mid.spendable, k);
    if i < |mid.spendable| {
      EntriesAfterRemove(mid.spendable, i, address);
    } else {
      NothingWithKey(mid.spendable, k, address);
    }
  }

  lemma FirstAddIffNew(init: seq<Event>, out: SpOut)
    ensures FirstAdd(init + [Add(out)], |init|) <==> out.key !in Added(init)
  {
    var es := init + [Add(out)];
    if out.key in Added(init) {
      var e :| e in init && e.Add? && e.out.key == out.key;
      var j :| 0 <= j < |init| && init[j] == e;
      assert es[j] == e;
    } else {
      forall j | 0 <= j < |init| && es[j].Add? ensures es[j].out.key != out.key { assert init[j] in init; }
    }
  }

  /** After a resync of an address and any later events, its balance is the sum of the first-added
      amounts of the keys added and not deleted since. */
  lemma BalanceAfterResync(o: Outputs, address: string, es: seq<Event>)
    requires Sound(o)
    ensures Balance(After(ClearAddress(o, address), es).spendable, address) == SurvivingAmount(es, address, |es|)
  {
    EntriesAfterResync(o, address, es);
    BalanceIsTotal(After(ClearAddress(o, address), es).spendable, address);
    AmountIsTotal(es, address, |es|);
  }

  // ---------------------------------------------------------------- zero balances

  lemma {:induction false} BalanceNonNegative(outs: seq<SpOut>, address: string)
    requires forall o :: o in outs ==> o.amount >= 0
    ensures Balance(outs, address) >= 0
    ensures Balance(outs, address) == 0 <==> forall o :: o in outs && o.key.address == address ==> o.amount == 0
  {
    if outs != [] {
      var init, last := outs[..|outs| - 1], outs[|outs| - 1];
      assert outs == init + [last];
      BalanceNonNegative(init, address);
    }
  }

  /** A delete leaves one tombstone when it finds its record, and four when it does not. */
  lemma TombstonesOfDelete(o: Outputs, k: Key)
    ensures multiset(DeleteOut(o, k).spent)
         == multiset(o.spent)[k := multiset(o.spent)[k] + if k in KeysOf(o.spendable) then 1 else 4]
  {
    IndexFinds(o.spendable, k);
    assert Repeated(k, DELETE_ATTEMPTS) == [k, k, k, k];
  }
}
