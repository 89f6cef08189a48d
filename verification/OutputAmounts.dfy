/** The amounts that are recorded. The key of an output leaves out its index in the transaction, so two outputs
    of one transaction to one address share a record, and the amount added first is the one that stays. */
module OutputAmounts {
  import opened Schemas
  import opened SpendableOutputs
  import opened OutputTheorems

  function RecordOf(outs: seq<SpOut>, k: Key): Option<SpOut> {
    var i := IndexOfKey(outs, k);
    if i < |outs| then Some(outs[i]) else None
  }

  function AmountOf(outs: seq<SpOut>, k: Key): Option<int> {
    match RecordOf(outs, k)
    case None => None
    case Some(out) => Some(out.amount)
  }

  /** The amount of the first add of a key. */
  function FirstAmount(es: seq<Event>, k: Key): Option<int> {
    if es == [] then None
    else
      var before := FirstAmount(es[..|es| - 1], k);
      if before.Some? then before
      else AmountIn(es[|es| - 1], k)
  }

  function AmountIn(e: Event, k: Key): Option<int> {
    if e.Add? && e.out.key == k then Some(e.out.amount) else None
  }

  // ---------------------------------------------------------------- one record across one event

  lemma RecordAt(outs: seq<SpOut>, j: nat)
    requires OneRecordPerKey(outs) && j < |outs|
    ensures RecordOf(outs, outs[j].key) == Some(outs[j])
  {
    IndexFinds(outs, outs[j].key);
    assert outs[j] in outs;
    assert IndexOfKey(outs, outs[j].key) == j;
  }

  lemma NoRecord(outs: seq<SpOut>, k: Key)
    ensures RecordOf(outs, k).None? <==> k !in KeysOf(outs)
  {
    IndexFinds(outs, k);
  }

  /** An add inserts the record as it comes, or writes its status into the record that is there. */
  lemma RecordAfterAdd(o: Outputs, out: SpOut, k: Key)
    requires Sound(o) && k !in SpentKeys(o.spent)
    ensures RecordOf(AddOut(o, out).spendable, k) ==
            if out.key != k then RecordOf(o.spendable, k)
            else if RecordOf(o.spendable, k).None? then Some(out)
            else Some(RecordOf(o.spendable, k).value.(txStatus := out.txStatus))
  {
    var t := AddOut(o, out);
    AddEffect(o, out);
    NoRecord(o.spendable, k);
    NoRecord(t.spendable, k);
    if k in KeysOf(t.spendable) {
      var j :| 0 <= j < |t.spendable| && t.spendable[j].key == k;
      RecordAt(t.spendable, j);
      if j < |o.spendable| { RecordAt(o.spendable, j); }
    }
  }

  lemma RecordWithout(outs: seq<SpOut>, j: nat, x: Key)
    requires OneRecordPerKey(outs) && j < |outs| && x in KeysOf(outs) && x != outs[j].key
    ensures RecordOf(outs[..j] + outs[j + 1..], x) == RecordOf(outs, x)
  {
    var rest := outs[..j] + outs[j + 1..];
    RemoveAt(outs, j);
    var m :| 0 <= m < |outs| && outs[m].key == x;
    RecordAt(outs, m);
    RecordAt(rest, if m < j then m else m - 1);
  }

  lemma RecordAfterDelete(o: Outputs, d: Key, k: Key)
    requires Sound(o) && k != d
    ensures RecordOf(DeleteOut(o, d).spendable, k) == RecordOf(o.spendable, k)
  {
    var i := IndexOfKey(o.spendable, d);
    if i < |o.spendable| {
      RemoveAt(o.spendable, i);
      if k in KeysOf(o.spendable) {
        RecordWithout(o.spendable, i, k);
      } else {
        NoRecord(o.spendable, k);
        NoRecord(DeleteOut(o, d).spendable, k);
      }
    }
  }

  // ---------------------------------------------------------------- the recorded amount is the first one

  /** A key that is never deleted keeps the amount it had, or else that of its first add. */
  lemma {:induction false} AmountIsFirst(o: Outputs, es: seq<Event>, k: Key)
    requires Sound(o) && k !in SpentKeys(o.spent) && k !in Deleted(es)
    ensures AmountOf(After(o, es).spendable, k)
         == if k in KeysOf(o.spendable) then AmountOf(o.spendable, k) else FirstAmount(es, k)
  {
    NoRecord(o.spendable, k);
    if es != [] {
      var init, last := es[..|es| - 1], es[|es| - 1];
      assert es == init + [last];
      AddedSplit(init, last);
      AmountIsFirst(o, init, k);
      TwoPhaseSet(o, init);
      match last
      case Add(out) => RecordAfterAdd(After(o, init), out, k);
      case Delete(d) => RecordAfterDelete(After(o, init), d, k);
    }
  }

  // ---------------------------------------------------------------- when the order does not matter

  /** All adds of a key carry one amount. */
  ghost predicate OneAmount(es: seq<Event>, k: Key) {
    forall e, f :: e in es && f in es && AmountIn(e, k).Some? && AmountIn(f, k).Some? ==>
      AmountIn(e, k) == AmountIn(f, k)
  }

  ghost predicate Reordered(es: seq<Event>, fs: seq<Event>) { multiset(es) == multiset(fs) }

  lemma ReorderedIsSame(es: seq<Event>, fs: seq<Event>)
    requires Reordered(es, fs)
    ensures forall e :: e in es <==> e in fs
  {
    forall e ensures e in es <==> e in fs { assert e in es <==> e in multiset(es); }
  }

  lemma {:induction false} FirstAmountIsAdded(es: seq<Event>, k: Key)
    ensures FirstAmount(es, k).None? ==> forall e :: e in es ==> AmountIn(e, k).None?
    ensures FirstAmount(es, k).Some? ==> exists e :: e in es && AmountIn(e, k) == FirstAmount(es, k)
  {
    if es != [] {
      var init, last := es[..|es| - 1], es[|es| - 1];
      assert es == init + [last];
      FirstAmountIsAdded(init, k);
    }
  }

  lemma SameFirstAmount(es: seq<Event>, fs: seq<Event>, k: Key)
    requires OneAmount(es, k) && forall e :: e in es <==> e in fs
    ensures FirstAmount(es, k) == FirstAmount(fs, k)
  {
    FirstAmountIsAdded(es, k);
    FirstAmountIsAdded(fs, k);
  }

  lemma {:induction false} FirstAmountOfFront(e: Event, rest: seq<Event>, k: Key)
    requires AmountIn(e, k).Some?
    ensures FirstAmount([e] + rest, k) == AmountIn(e, k)
  {
    var es := [e] + rest;
    if rest == [] {
      assert es[..0] == [];
    } else {
      assert es[..|es| - 1] == [e] + rest[..|rest| - 1];
      FirstAmountOfFront(e, rest[..|rest| - 1], k);
    }
  }

  /** An order in which a given add of the key comes first. */
  lemma ThisOneFirst(es: seq<Event>, e: Event, k: Key) returns (fs: seq<Event>)
    requires e in es && AmountIn(e, k).Some?
    ensures Reordered(es, fs) && FirstAmount(fs, k) == AmountIn(e, k)
  {
    var n :| 0 <= n < |es| && es[n] == e;
    var rest := es[..n] + es[n + 1..];
    assert es == es[..n] + [e] + es[n + 1..];
    fs := [e] + rest;
    FirstAmountOfFront(e, rest, k);
  }

  ghost predicate AmountIgnoresOrder(o: Outputs, es: seq<Event>, k: Key) {
    forall fs, gs :: Reordered(es, fs) && Reordered(es, gs) ==>
      AmountOf(After(o, fs).spendable, k) == AmountOf(After(o, gs).spendable, k)
  }

  lemma AmountOfReordered(o: Outputs, es: seq<Event>, fs: seq<Event>, k: Key)
    requires Sound(o) && k !in KeysOf(o.spendable) && k !in SpentKeys(o.spent) && k !in Deleted(es)
    requires Reordered(es, fs)
    ensures AmountOf(After(o, fs).spendable, k) == FirstAmount(fs, k)
  {
    ReorderedIsSame(es, fs);
    assert Deleted(fs) == Deleted(es);
    AmountIsFirst(o, fs, k);
  }

  /** The recorded amount of a new key that is not deleted is the same for all orders of the events exactly when
      all its adds carry one amount. */
  lemma AmountIgnoresOrderIff(o: Outputs, es: seq<Event>, k: Key)
    requires Sound(o) && k !in KeysOf(o.spendable) && k !in SpentKeys(o.spent) && k !in Deleted(es)
    ensures AmountIgnoresOrder(o, es, k) <==> OneAmount(es, k)
  {
    if OneAmount(es, k) {
      forall fs, gs | Reordered(es, fs) && Reordered(es, gs)
        ensures AmountOf(After(o, fs).spendable, k) == AmountOf(After(o, gs).spendable, k)
      {
        ReorderedIsSame(es, fs);
        ReorderedIsSame(es, gs);
        AmountOfReordered(o, es, fs, k);
        AmountOfReordered(o, es, gs, k);
        SameFirstAmount(fs, gs, k);
      }
    } else {
      var e, f :| e in es && f in es && AmountIn(e, k).Some? && AmountIn(f, k).Some?
        && AmountIn(e, k) != AmountIn(f, k);
      var fs := ThisOneFirst(es, e, k);
      var gs := ThisOneFirst(es, f, k);
      AmountOfReordered(o, es, fs, k);
      AmountOfReordered(o, es, gs, k);
      assert AmountOf(After(o, fs).spendable, k) != AmountOf(After(o, gs).spendable, k);
    }
  }

  // ---------------------------------------------------------------- balances

  lemma {:induction false} BalanceRemove(outs: seq<SpOut>, j: nat, address: string)
    requires j < |outs|
    ensures Balance(outs, address)
         == Balance(outs[..j] + outs[j + 1..], address) + (if outs[j].key.address == address then outs[j].amount else 0)
  {
    var n := |outs| - 1;
    var rest := outs[..j] + outs[j + 1..];
    if j < n {
      BalanceRemove(outs[..n], j, address);
      assert outs[..n][..j] + outs[..n][j + 1..] == rest[..|rest| - 1];
      assert rest[|rest| - 1] == outs[n];
    } else {
      assert rest == outs[..n];
    }
  }

  /** Balances agree when the keys and the amounts of the keys do, whatever the order of the records is. */
  lemma {:induction false} BalanceOfAmounts(a: seq<SpOut>, b: seq<SpOut>, address: string)
    requires OneRecordPerKey(a) && OneRecordPerKey(b) && KeysOf(a) == KeysOf(b)
    requires forall k :: k in KeysOf(a) && k.address == address ==> AmountOf(a, k) == AmountOf(b, k)
    ensures Balance(a, address) == Balance(b, address)
  {
    if a == [] {
      AsManyAsKeys(b);
      assert KeysOf(a) == {};
    } else {
      var n := |a| - 1;
      var k := a[n].key;
      assert a[n] in a && k in KeysOf(b);
      var j :| 0 <= j < |b| && b[j].key == k;
      var c := b[..j] + b[j + 1..];
      RemoveAt(b, j);
      RemoveAt(a, n);
      assert a[..n] + a[n + 1..] == a[..n];
      forall x | x in KeysOf(a[..n]) && x.address == address ensures AmountOf(a[..n], x) == AmountOf(c, x) {
        RecordWithout(a, n, x);
        RecordWithout(b, j, x);
      }
      BalanceOfAmounts(a[..n], c, address);
      BalanceRemove(b, j, address);
      RecordAt(a, n);
      RecordAt(b, j);
    }
  }

  /** A balance does not depend on the order or the repetition of the events when all adds of every new key of
      the address carry one amount. */
  lemma BalanceIgnoresOrder(o: Outputs, es: seq<Event>, fs: seq<Event>, address: string)
    requires Sound(o) && forall e :: e in es <==> e in fs
    requires forall k: Key :: k.address == address && k !in KeysOf(o.spendable) ==> OneAmount(es, k)
    ensures Balance(After(o, es).spendable, address) == Balance(After(o, fs).spendable, address)
  {
    TwoPhaseSet(o, es);
    TwoPhaseSet(o, fs);
    OrderDoesNotMatter(o, es, fs);
    var a, b := After(o, es).spendable, After(o, fs).spendable;
    forall k | k in KeysOf(a) && k.address == address ensures AmountOf(a, k) == AmountOf(b, k) {
      assert Deleted(es) == Deleted(fs);
      AmountIsFirst(o, es, k);
      AmountIsFirst(o, fs, k);
      if k !in KeysOf(o.spendable) { SameFirstAmount(es, fs, k); }
    }
    BalanceOfAmounts(a, b, address);
  }

  /** Two outputs with one key: whichever is added second is lost. */
  lemma SecondAmountIsLost(a: SpOut, b: SpOut)
    requires a.key == b.key
    ensures Balance(After(Outputs([], []), [Add(a), Add(b)]).spendable, a.key.address) == a.amount
  {
    var o := Outputs([], []);
    var es := [Add(a), Add(b)];
    assert es[..1] == [Add(a)] && [Add(a)][..0] == [];
    assert After(o, [Add(a)]) == Outputs([a], []);
    assert After(o, es) == Outputs([a.(txStatus := b.txStatus)], []);
    var r := a.(txStatus := b.txStatus);
    assert [r][..0] == [];
    assert Balance([r], a.key.address) == r.amount;
  }

  // ---------------------------------------------------------------- the whole record

  predicate Adds(e: Event, k: Key) { e.Add? && e.out.key == k }

  /** Event n is the first add of the key. */
  ghost predicate FirstAddAt(es: seq<Event>, k: Key, n: nat) {
    n < |es| && Adds(es[n], k) && forall m :: 0 <= m < n ==> !Adds(es[m], k)
  }

  /** Event n is the last add of the key. */
  ghost predicate LastAddAt(es: seq<Event>, k: Key, n: nat) {
    n < |es| && Adds(es[n], k) && forall m :: n < m < |es| ==> !Adds(es[m], k)
  }

  /** The record of a new key that is not deleted has the output index and the amount of its first add, and the
      status of its last one. */
  lemma {:induction false} RecordOfKey(o: Outputs, es: seq<Event>, k: Key, first: nat, last: nat)
    requires Sound(o) && k !in KeysOf(o.spendable) && k !in SpentKeys(o.spent) && k !in Deleted(es)
    requires FirstAddAt(es, k, first) && LastAddAt(es, k, last)
    ensures RecordOf(After(o, es).spendable, k) == Some(es[first].out.(txStatus := es[last].out.txStatus))
  {
    var n := |es| - 1;
    var init := es[..n];
    assert es == init + [es[n]];
    AddedSplit(init, es[n]);
    TwoPhaseSet(o, init);
    if last < n {
      RecordOfKey(o, init, k, first, last);
      StepWithoutAdd(After(o, init), es[n], k);
    } else {
      RecordAfterAdd(After(o, init), es[n].out, k);
      if first < n {
        var before := LastAddBefore(init, k, first);
        RecordOfKey(o, init, k, first, before);
      } else {
        NoRecord(After(o, init).spendable, k);
        assert k !in Added(init);
      }
    }
  }

  lemma StepWithoutAdd(o: Outputs, e: Event, k: Key)
    requires Sound(o) && k !in SpentKeys(o.spent) && !Adds(e, k) && (e.Delete? ==> e.key != k)
    ensures RecordOf(Apply(o, e).spendable, k) == RecordOf(o.spendable, k)
  {
    match e
    case Add(out) => RecordAfterAdd(o, out, k);
    case Delete(d) => RecordAfterDelete(o, d, k);
  }

  lemma {:induction false} LastAddBefore(es: seq<Event>, k: Key, first: nat) returns (last: nat)
    requires first < |es| && Adds(es[first], k)
    ensures LastAddAt(es, k, last)
  {
    var n := |es| - 1;
    if Adds(es[n], k) {
      last := n;
    } else {
      last := LastAddBefore(es[..n], k, first);
      assert forall m :: last < m < n ==> !Adds(es[..n][m], k);
    }
  }

  /** A record that was there keeps its index and amount; adds only change its status. */
  lemma {:induction false} OldRecordStays(o: Outputs, es: seq<Event>, k: Key)
    requires Sound(o) && k in KeysOf(o.spendable) && k !in SpentKeys(o.spent) && k !in Deleted(es)
    ensures RecordOf(o.spendable, k).Some? && RecordOf(After(o, es).spendable, k).Some?
    ensures var was, now := RecordOf(o.spendable, k).value, RecordOf(After(o, es).spendable, k).value;
            && now == was.(txStatus := now.txStatus)
            && (forall n: nat :: LastAddAt(es, k, n) ==> now.txStatus == es[n].out.txStatus)
            && ((forall e :: e in es ==> !Adds(e, k)) ==> now == was)
  {
    NoRecord(o.spendable, k);
    if es != [] {
      var n := |es| - 1;
      var init := es[..n];
      assert es == init + [es[n]];
      AddedSplit(init, es[n]);
      TwoPhaseSet(o, init);
      OldRecordStays(o, init, k);
      if Adds(es[n], k) {
        RecordAfterAdd(After(o, init), es[n].out, k);
      } else {
        StepWithoutAdd(After(o, init), es[n], k);
        forall m: nat | LastAddAt(es, k, m) ensures LastAddAt(init, k, m) && init[m] == es[m] {}
      }
    }
  }
}
