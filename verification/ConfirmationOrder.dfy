/** Lists of confirms: the confirmations do not depend on their order, and exactly when the flag does not. */
module ConfirmationOrder {
  import opened Schemas
  import opened ConfirmationLedger
  import opened LedgerTheorems
  import opened RequestIds

  // ---------------------------------------------------------------- confirmations commute

  function AfterConfirms(txs: seq<Record>, ds: seq<Delivery>): seq<Record> {
    if ds == [] then txs else ApplyConfirm(AfterConfirms(txs, ds[..|ds| - 1]), ds[|ds| - 1])
  }

  ghost predicate AreConfirms(txs: seq<Record>, ds: seq<Delivery>) {
    forall d :: d in ds ==> d.now != 0 && NotASubmit(txs, d.hash)
  }

  /** Record i is a request, and no other request has its id. */
  ghost predicate OnlyRequest(txs: seq<Record>, i: nat) {
    && i < |txs| && txs[i].methodInvoked == SUBMIT_TRANSACTION
    && forall k :: 0 <= k < |txs| && IsRequest(txs[k], txs[i].contract, txs[i].requestID) ==> k == i
  }

  ghost predicate Names(d: Delivery, r: Record) { d.contract == r.contract && d.requestID == r.requestID }

  ghost predicate ConfirmedByOneOf(ds: seq<Delivery>, r: Record, address: string) {
    exists d :: d in ds && Names(d, r) && d.from == address
  }

  lemma {:induction false} ConfirmsKeepShape(txs: seq<Record>, ds: seq<Delivery>)
    requires Ledger(txs) && AreConfirms(txs, ds)
    ensures Ledger(AfterConfirms(txs, ds)) && |AfterConfirms(txs, ds)| >= |txs|
    ensures forall i :: 0 <= i < |txs| ==> SameButOwners(AfterConfirms(txs, ds)[i], txs[i])
    ensures forall i :: |txs| <= i < |AfterConfirms(txs, ds)| ==>
              AfterConfirms(txs, ds)[i].methodInvoked == CONFIRM_TRANSACTION
  {
    if ds != [] {
      var init, d := ds[..|ds| - 1], ds[|ds| - 1];
      ConfirmsKeepShape(txs, init);
      var mid := AfterConfirms(txs, init);
      StillNotASubmit(txs, mid, d.hash);
      OneConfirmKeepsShape(mid, d);
      var after := ApplyConfirm(mid, d);
      forall i | 0 <= i < |txs| ensures SameButOwners(after[i], txs[i]) {
        assert SameButOwners(mid[i], txs[i]) && SameButOwners(after[i], mid[i]);
      }
      forall i | |txs| <= i < |after| ensures after[i].methodInvoked == CONFIRM_TRANSACTION {
        if i < |mid| { assert SameButOwners(after[i], mid[i]); }
      }
    }
  }

  lemma OneConfirmKeepsShape(txs: seq<Record>, d: Delivery)
    requires Ledger(txs) && d.now != 0 && NotASubmit(txs, d.hash)
    ensures Ledger(ApplyConfirm(txs, d)) && |ApplyConfirm(txs, d)| >= |txs|
    ensures forall i :: 0 <= i < |txs| ==> SameButOwners(ApplyConfirm(txs, d)[i], txs[i])
    ensures forall i :: |txs| <= i < |ApplyConfirm(txs, d)| ==>
              ApplyConfirm(txs, d)[i].methodInvoked == CONFIRM_TRANSACTION
  {
    ConfirmKeepsLedger(txs, d);
    forall i | 0 <= i < |txs| ensures SameButOwners(ApplyConfirm(txs, d)[i], txs[i]) { ConfirmAt(txs, d, i); }
  }

  lemma StillNotASubmit(txs: seq<Record>, mid: seq<Record>, hash: string)
    requires |mid| >= |txs| && NotASubmit(txs, hash)
    requires forall i :: 0 <= i < |txs| ==> SameButOwners(mid[i], txs[i])
    requires forall i :: |txs| <= i < |mid| ==> mid[i].methodInvoked == CONFIRM_TRANSACTION
    ensures NotASubmit(mid, hash)
  {
    forall i | 0 <= i < |mid| && mid[i].hash == hash ensures mid[i].methodInvoked == CONFIRM_TRANSACTION {
      if i < |txs| { assert SameButOwners(mid[i], txs[i]); }
    }
  }

  /** The request across one more confirm. */
  lemma OneMoreConfirm(txs: seq<Record>, ds: seq<Delivery>, i: nat)
    requires Ledger(txs) && OnlyRequest(txs, i) && AreConfirms(txs, ds) && ds != []
    ensures var before, after, d := AfterConfirms(txs, ds[..|ds| - 1]), AfterConfirms(txs, ds), ds[|ds| - 1];
            && |after| >= |before| >= |txs| && AreConfirms(txs, ds[..|ds| - 1])
            && after[i].owners == (if Names(d, txs[i]) then ConfirmOwners(before[i].owners, d) else before[i].owners)
            && (after[i].confirmed <==>
                before[i].confirmed || (Names(d, txs[i]) && d.blockTime != 0 && d.threshold <= Count(after[i].owners)))
  {
    var init, d := ds[..|ds| - 1], ds[|ds| - 1];
    ConfirmsKeepShape(txs, init);
    var mid := AfterConfirms(txs, init);
    StillNotASubmit(txs, mid, d.hash);
    assert SameButOwners(mid[i], txs[i]);
    assert forall k :: 0 <= k < |txs| ==> SameButOwners(mid[k], txs[k]);
    assert OnlyRequest(mid, i);
    ConfirmAt(mid, d, i);
  }

  /** After any list of confirms, in any order and with any repetition, an owner of a request is
      confirmed exactly when he was before or one of the confirms of that request came from him. */
  lemma {:induction false} ConfirmedAfterAll(txs: seq<Record>, ds: seq<Delivery>, i: nat)
    requires Ledger(txs) && OnlyRequest(txs, i) && AreConfirms(txs, ds)
    ensures |AfterConfirms(txs, ds)| >= |txs| && SameAddresses(AfterConfirms(txs, ds)[i].owners, txs[i].owners)
    ensures forall j :: 0 <= j < |txs[i].owners| ==>
              (IsConfirmed(AfterConfirms(txs, ds)[i].owners[j]) <==>
               IsConfirmed(txs[i].owners[j]) || ConfirmedByOneOf(ds, txs[i], txs[i].owners[j].address))
  {
    if ds != [] {
      var init, d := ds[..|ds| - 1], ds[|ds| - 1];
      assert ds == init + [d];
      OneMoreConfirm(txs, ds, i);
      ConfirmedAfterAll(txs, init, i);
      forall a
        ensures ConfirmedByOneOf(ds, txs[i], a) <==>
                  ConfirmedByOneOf(init, txs[i], a) || (Names(d, txs[i]) && d.from == a)
      {
      }
    }
  }

  /** Hence the number of confirmations grows with the set of confirms, and depends on nothing else. */
  lemma MoreConfirmsCountMore(txs: seq<Record>, ds: seq<Delivery>, es: seq<Delivery>, i: nat)
    requires Ledger(txs) && OnlyRequest(txs, i) && AreConfirms(txs, ds) && AreConfirms(txs, es)
    requires forall d :: d in ds && Names(d, txs[i]) ==> d in es
    ensures |AfterConfirms(txs, ds)| >= |txs| && |AfterConfirms(txs, es)| >= |txs|
    ensures Count(AfterConfirms(txs, ds)[i].owners) <= Count(AfterConfirms(txs, es)[i].owners)
  {
    ConfirmedAfterAll(txs, ds, i);
    ConfirmedAfterAll(txs, es, i);
    var a, b := AfterConfirms(txs, ds)[i].owners, AfterConfirms(txs, es)[i].owners;
    forall j | 0 <= j < |a| && IsConfirmed(a[j]) ensures IsConfirmed(b[j]) {
      assert ConfirmedByOneOf(ds, txs[i], txs[i].owners[j].address) ==>
               ConfirmedByOneOf(es, txs[i], txs[i].owners[j].address);
    }
    CountMonotone(a, b);
  }

  ghost predicate SameConfirms(ds: seq<Delivery>, es: seq<Delivery>) {
    forall d :: d in ds <==> d in es
  }

  /** Neither the confirmed owners nor their number depend on the order or the repetition of the confirms. */
  lemma ConfirmsCommute(txs: seq<Record>, ds: seq<Delivery>, es: seq<Delivery>, i: nat)
    requires Ledger(txs) && OnlyRequest(txs, i) && AreConfirms(txs, ds) && SameConfirms(ds, es)
    ensures |AfterConfirms(txs, ds)| >= |txs| && |AfterConfirms(txs, es)| >= |txs|
    ensures Count(AfterConfirms(txs, ds)[i].owners) == Count(AfterConfirms(txs, es)[i].owners)
    ensures ConfirmedSet(AfterConfirms(txs, ds)[i].owners) == ConfirmedSet(AfterConfirms(txs, es)[i].owners)
  {
    MoreConfirmsCountMore(txs, ds, es, i);
    MoreConfirmsCountMore(txs, es, ds, i);
    ConfirmedAfterAll(txs, ds, i);
    ConfirmedAfterAll(txs, es, i);
    var a, b := AfterConfirms(txs, ds)[i].owners, AfterConfirms(txs, es)[i].owners;
    SameConfirmedSet(a, b);
  }

  lemma SameConfirmedSet(a: seq<OwnerHistory>, b: seq<OwnerHistory>)
    requires SameAddresses(a, b) && forall j :: 0 <= j < |a| ==> (IsConfirmed(a[j]) <==> IsConfirmed(b[j]))
    ensures ConfirmedSet(a) == ConfirmedSet(b)
  {
    forall x | x in ConfirmedSet(a) ensures x in ConfirmedSet(b) {
      var j :| 0 <= j < |a| && IsConfirmed(a[j]) && a[j].address == x;
      assert b[j] in b;
    }
    forall x | x in ConfirmedSet(b) ensures x in ConfirmedSet(a) {
      var j :| 0 <= j < |b| && IsConfirmed(b[j]) && b[j].address == x;
      assert a[j] in a;
    }
  }

  // ---------------------------------------------------------------- the flag after many confirms

  ghost predicate IsMinedConfirm(d: Delivery, r: Record) { Names(d, r) && d.blockTime != 0 }

  ghost predicate SomeMined(ds: seq<Delivery>, r: Record) { exists d :: d in ds && IsMinedConfirm(d, r) }

  ghost predicate ThresholdIs(ds: seq<Delivery>, r: Record, t: int) {
    forall d :: d in ds && Names(d, r) ==> d.threshold == t
  }

  function Mined(ds: seq<Delivery>): (ms: seq<Delivery>)
    ensures forall d :: d in ms <==> d in ds && d.blockTime != 0
  {
    if ds == [] then []
    else
      var last := ds[|ds| - 1];
      assert ds == ds[..|ds| - 1] + [last];
      if last.blockTime != 0 then Mined(ds[..|ds| - 1]) + [last] else Mined(ds[..|ds| - 1])
  }

  function Unmined(ds: seq<Delivery>): (us: seq<Delivery>)
    ensures forall d :: d in us <==> d in ds && d.blockTime == 0
  {
    if ds == [] then []
    else
      var last := ds[|ds| - 1];
      assert ds == ds[..|ds| - 1] + [last];
      if last.blockTime == 0 then Unmined(ds[..|ds| - 1]) + [last] else Unmined(ds[..|ds| - 1])
  }

  /** If every confirm of a request is mined and carries the same threshold, the flag is decided by the final
      number of confirmations. */
  lemma {:induction false} MinedConfirmsDecideFlag(txs: seq<Record>, ds: seq<Delivery>, i: nat, t: int)
    requires Ledger(txs) && OnlyRequest(txs, i) && AreConfirms(txs, ds)
    requires !txs[i].confirmed && ThresholdIs(ds, txs[i], t)
    requires forall d :: d in ds && Names(d, txs[i]) ==> d.blockTime != 0
    ensures |AfterConfirms(txs, ds)| >= |txs|
    ensures AfterConfirms(txs, ds)[i].confirmed <==>
              SomeMined(ds, txs[i]) && t <= Count(AfterConfirms(txs, ds)[i].owners)
  {
    if ds != [] {
      var init, d := ds[..|ds| - 1], ds[|ds| - 1];
      assert ds == init + [d];
      OneMoreConfirm(txs, ds, i);
      MinedConfirmsDecideFlag(txs, init, i, t);
      MoreConfirmsCountMore(txs, init, ds, i);
    }
  }

  /** The mined confirms alone reach the threshold. */
  ghost predicate MinedReach(txs: seq<Record>, ds: seq<Delivery>, i: nat, t: int) {
    i < |AfterConfirms(txs, Mined(ds))| && t <= Count(AfterConfirms(txs, Mined(ds))[i].owners)
  }

  lemma FlagStays(txs: seq<Record>, ds: seq<Delivery>, i: nat)
    requires Ledger(txs) && OnlyRequest(txs, i) && AreConfirms(txs, ds)
    requires ds != [] && FlaggedAfter(txs, ds[..|ds| - 1], i)
    ensures FlaggedAfter(txs, ds, i)
  {
    OneMoreConfirm(txs, ds, i);
  }

  lemma LastMinedRaises(txs: seq<Record>, ms: seq<Delivery>, ds: seq<Delivery>, i: nat, t: int)
    requires Ledger(txs) && OnlyRequest(txs, i) && AreConfirms(txs, ms) && AreConfirms(txs, ds)
    requires forall d :: d in ms && Names(d, txs[i]) ==> d in ds
    requires i < |AfterConfirms(txs, ms)| && t <= Count(AfterConfirms(txs, ms)[i].owners)
    requires ds != [] && IsMinedConfirm(ds[|ds| - 1], txs[i]) && ds[|ds| - 1].threshold == t
    ensures FlaggedAfter(txs, ds, i)
  {
    OneMoreConfirm(txs, ds, i);
    MoreConfirmsCountMore(txs, ms, ds, i);
  }

  /** Mined confirms ms that are enough raise the flag, wherever they stand among others. */
  lemma {:induction false} EnoughMined(txs: seq<Record>, ms: seq<Delivery>, ds: seq<Delivery>, i: nat, t: int)
    requires Ledger(txs) && OnlyRequest(txs, i) && AreConfirms(txs, ms) && AreConfirms(txs, ds)
    requires ThresholdIs(ds, txs[i], t) && SomeMined(ds, txs[i])
    requires forall d :: d in ms && Names(d, txs[i]) ==> d.blockTime != 0 && d in ds
    requires i < |AfterConfirms(txs, ms)| && t <= Count(AfterConfirms(txs, ms)[i].owners)
    ensures FlaggedAfter(txs, ds, i)
  {
    MinedBeforeLast(ds, txs[i]);
    if IsMinedConfirm(ds[|ds| - 1], txs[i]) {
      LastMinedRaises(txs, ms, ds, i, t);
    } else {
      EnoughMined(txs, ms, ds[..|ds| - 1], i, t);
      FlagStays(txs, ds, i);
    }
  }

  lemma MinedBeforeLast(ds: seq<Delivery>, r: Record)
    requires SomeMined(ds, r)
    ensures ds != [] && forall d :: d in ds[..|ds| - 1] ==> d in ds
    ensures !IsMinedConfirm(ds[|ds| - 1], r) ==> SomeMined(ds[..|ds| - 1], r)
    ensures !IsMinedConfirm(ds[|ds| - 1], r) ==> forall d :: d in ds && IsMinedConfirm(d, r) ==> d in ds[..|ds| - 1]
  {
    assert ds == ds[..|ds| - 1] + [ds[|ds| - 1]];
  }

  lemma {:induction false} UnminedRaiseNothing(txs: seq<Record>, ds: seq<Delivery>, us: seq<Delivery>, i: nat)
    requires Ledger(txs) && OnlyRequest(txs, i) && AreConfirms(txs, ds + us)
    requires forall d :: d in us ==> d.blockTime == 0
    ensures |AfterConfirms(txs, ds)| > i && |AfterConfirms(txs, ds + us)| > i
    ensures AfterConfirms(txs, ds + us)[i].confirmed == AfterConfirms(txs, ds)[i].confirmed
  {
    if us == [] {
      assert ds + us == ds;
      ConfirmsKeepShape(txs, ds);
    } else {
      var all, last := ds + us, us[|us| - 1];
      var init := us[..|us| - 1];
      assert all[..|all| - 1] == ds + init && all[|all| - 1] == last && last in us;
      UnminedRaiseNothing(txs, ds, init, i);
      OneMoreConfirm(txs, all, i);
    }
  }

  ghost predicate FlaggedAfter(txs: seq<Record>, ds: seq<Delivery>, i: nat) {
    i < |AfterConfirms(txs, ds)| && AfterConfirms(txs, ds)[i].confirmed
  }

  /** The same confirms, each as often, in another order. */
  ghost predicate Reordered(ds: seq<Delivery>, es: seq<Delivery>) {
    multiset(ds) == multiset(es)
  }

  lemma ReorderedIsSame(ds: seq<Delivery>, es: seq<Delivery>)
    requires Reordered(ds, es)
    ensures SameConfirms(ds, es)
  {
    forall d ensures d in ds <==> d in es { assert d in ds <==> d in multiset(ds); }
  }

  ghost predicate FlaggedInEveryOrder(txs: seq<Record>, ds: seq<Delivery>, i: nat) {
    forall es :: Reordered(ds, es) ==> FlaggedAfter(txs, es, i)
  }

  ghost predicate FlaggedInSomeOrder(txs: seq<Record>, ds: seq<Delivery>, i: nat) {
    exists es :: Reordered(ds, es) && FlaggedAfter(txs, es, i)
  }

  lemma {:induction false} MinedThenUnmined(ds: seq<Delivery>)
    ensures Reordered(ds, Mined(ds) + Unmined(ds))
  {
    if ds != [] {
      var init, last := ds[..|ds| - 1], ds[|ds| - 1];
      MinedThenUnmined(init);
      assert ds == init + [last];
    }
  }

  lemma MovedToEnd(ds: seq<Delivery>, k: nat)
    requires k < |ds|
    ensures Reordered(ds, ds[..k] + ds[k + 1..] + [ds[k]])
  {
    assert ds == ds[..k] + [ds[k]] + ds[k + 1..];
  }

  /** The flag is raised in every order exactly when the mined confirms alone reach the threshold. */
  lemma FlaggedInEveryOrderIff(txs: seq<Record>, ds: seq<Delivery>, i: nat, t: int)
    requires Ledger(txs) && OnlyRequest(txs, i) && AreConfirms(txs, ds)
    requires !txs[i].confirmed && ThresholdIs(ds, txs[i], t)
    ensures FlaggedInEveryOrder(txs, ds, i) <==> SomeMined(ds, txs[i]) && MinedReach(txs, ds, i, t)
  {
    ConfirmsKeepShape(txs, Mined(ds));
    MinedConfirmsDecideFlag(txs, Mined(ds), i, t);
    assert SomeMined(Mined(ds), txs[i]) <==> SomeMined(ds, txs[i]);
    if SomeMined(ds, txs[i]) && MinedReach(txs, ds, i, t) {
      forall es | Reordered(ds, es) ensures FlaggedAfter(txs, es, i) {
        ReorderedIsSame(ds, es);
        assert SomeMined(es, txs[i]);
        EnoughMined(txs, Mined(ds), es, i, t);
      }
    }
    if FlaggedInEveryOrder(txs, ds, i) {
      var es := Mined(ds) + Unmined(ds);
      MinedThenUnmined(ds);
      ReorderedIsSame(ds, es);
      UnminedRaiseNothing(txs, Mined(ds), Unmined(ds), i);
      assert FlaggedAfter(txs, es, i);
    }
  }

  lemma {:induction false} FlagNeedsCount(txs: seq<Record>, ds: seq<Delivery>, i: nat, t: int)
    requires Ledger(txs) && OnlyRequest(txs, i) && AreConfirms(txs, ds)
    requires !txs[i].confirmed && ThresholdIs(ds, txs[i], t)
    requires FlaggedAfter(txs, ds, i)
    ensures SomeMined(ds, txs[i]) && t <= Count(AfterConfirms(txs, ds)[i].owners)
  {
    var init := ds[..|ds| - 1];
    assert forall d :: d in init ==> d in ds;
    if FlaggedAfter(txs, init, i) {
      FlagNeedsCount(txs, init, i, t);
      MoreConfirmsCountMore(txs, init, ds, i);
    } else {
      LastConfirmRaises(txs, ds, i, t);
    }
  }

  lemma LastConfirmRaises(txs: seq<Record>, ds: seq<Delivery>, i: nat, t: int)
    requires Ledger(txs) && OnlyRequest(txs, i) && AreConfirms(txs, ds) && ThresholdIs(ds, txs[i], t) && ds != []
    requires !FlaggedAfter(txs, ds[..|ds| - 1], i) && FlaggedAfter(txs, ds, i)
    ensures SomeMined(ds, txs[i]) && t <= Count(AfterConfirms(txs, ds)[i].owners)
  {
    OneMoreConfirm(txs, ds, i);
    assert ds[|ds| - 1] in ds && IsMinedConfirm(ds[|ds| - 1], txs[i]);
  }

  /** When all confirms together are enough, an order that ends in a mined one raises the flag. */
  lemma MinedLast(txs: seq<Record>, ds: seq<Delivery>, es: seq<Delivery>, i: nat, t: int)
    requires Ledger(txs) && OnlyRequest(txs, i) && AreConfirms(txs, ds) && ThresholdIs(ds, txs[i], t)
    requires SameConfirms(ds, es) && es != [] && IsMinedConfirm(es[|es| - 1], txs[i])
    requires i < |AfterConfirms(txs, ds)| && t <= Count(AfterConfirms(txs, ds)[i].owners)
    ensures FlaggedAfter(txs, es, i)
  {
    assert es[|es| - 1] in ds;
    LastMinedRaises(txs, ds, es, i, t);
  }

  lemma SomeEndsMined(ds: seq<Delivery>, r: Record) returns (es: seq<Delivery>)
    requires SomeMined(ds, r)
    ensures Reordered(ds, es) && SameConfirms(ds, es) && es != [] && IsMinedConfirm(es[|es| - 1], r)
  {
    var k :| 0 <= k < |ds| && IsMinedConfirm(ds[k], r);
    es := ds[..k] + ds[k + 1..] + [ds[k]];
    MovedToEnd(ds, k);
    ReorderedIsSame(ds, es);
  }

  /** The flag is raised in some order exactly when some confirm is mined and all of them reach the threshold. */
  lemma FlaggedInSomeOrderIff(txs: seq<Record>, ds: seq<Delivery>, i: nat, t: int)
    requires Ledger(txs) && OnlyRequest(txs, i) && AreConfirms(txs, ds)
    requires !txs[i].confirmed && ThresholdIs(ds, txs[i], t)
    ensures |AfterConfirms(txs, ds)| > i
    ensures FlaggedInSomeOrder(txs, ds, i) <==> SomeMined(ds, txs[i]) && t <= Count(AfterConfirms(txs, ds)[i].owners)
  {
    ConfirmsKeepShape(txs, ds);
    if SomeMined(ds, txs[i]) && t <= Count(AfterConfirms(txs, ds)[i].owners) {
      var es := SomeEndsMined(ds, txs[i]);
      MinedLast(txs, ds, es, i, t);
      assert FlaggedInSomeOrder(txs, ds, i);
    }
    if FlaggedInSomeOrder(txs, ds, i) {
      var es :| Reordered(ds, es) && FlaggedAfter(txs, es, i);
      ReorderedIsSame(ds, es);
      FlagNeedsCount(txs, es, i, t);
      ConfirmsCommute(txs, ds, es, i);
    }
  }

  /** So the flag does not depend on the order exactly when no confirm is mined, or all confirms together miss
      the threshold, or the mined ones alone reach it. */
  lemma FlagIgnoresOrderIff(txs: seq<Record>, ds: seq<Delivery>, i: nat, t: int)
    requires Ledger(txs) && OnlyRequest(txs, i) && AreConfirms(txs, ds)
    requires !txs[i].confirmed && ThresholdIs(ds, txs[i], t)
    ensures |AfterConfirms(txs, ds)| > i
    ensures FlagIgnoresOrder(txs, ds, i) <==>
            || !SomeMined(ds, txs[i])
            || Count(AfterConfirms(txs, ds)[i].owners) < t
            || MinedReach(txs, ds, i, t)
  {
    FlaggedInEveryOrderIff(txs, ds, i, t);
    FlaggedInSomeOrderIff(txs, ds, i, t);
    MoreConfirmsCountMore(txs, Mined(ds), ds, i);
    EveryOrSome(txs, ds, i);
  }

  /** Any two orders of the confirms agree on the flag. */
  ghost predicate FlagIgnoresOrder(txs: seq<Record>, ds: seq<Delivery>, i: nat) {
    forall es, fs :: Reordered(ds, es) && Reordered(ds, fs) ==> FlaggedAfter(txs, es, i) == FlaggedAfter(txs, fs, i)
  }

  lemma EveryOrSome(txs: seq<Record>, ds: seq<Delivery>, i: nat)
    ensures FlagIgnoresOrder(txs, ds, i) <==> FlaggedInEveryOrder(txs, ds, i) || !FlaggedInSomeOrder(txs, ds, i)
  {
    assert Reordered(ds, ds);
    if !FlaggedInEveryOrder(txs, ds, i) && FlaggedInSomeOrder(txs, ds, i) {
      var es :| Reordered(ds, es) && !FlaggedAfter(txs, es, i);
      var fs :| Reordered(ds, fs) && FlaggedAfter(txs, fs, i);
      assert FlaggedAfter(txs, es, i) != FlaggedAfter(txs, fs, i);
    }
  }

  /** Two owners, threshold 2: Ann's confirm is mined, Bob's is in the mempool. The flag is raised only when
      Ann's comes second. */
  lemma FlagDependsOnOrder(ann: Delivery, bob: Delivery)
    requires ann.from == "ann" && bob.from == "bob" && ann.contract == bob.contract == "s"
    requires ann.requestID == bob.requestID == 7 && ann.threshold == bob.threshold == 2
    requires ann.blockTime != 0 && bob.blockTime == 0 && ann.now != 0 && bob.now != 0
    requires ann.hash != "h" && bob.hash != "h"
    ensures var request := Record("h", "s", SUBMIT_TRANSACTION, 7, WaitingOwners(["ann", "bob"]), false);
            !FlaggedAfter([request], [ann, bob], 0) && FlaggedAfter([request], [bob, ann], 0)
  {
    var request := Record("h", "s", SUBMIT_TRANSACTION, 7, WaitingOwners(["ann", "bob"]), false);
    var txs := [request];
    FlagOfTwo(request, ann, bob);
    FlagOfTwo(request, bob, ann);
  }

  lemma FlagOfTwo(r: Record, d: Delivery, e: Delivery)
    requires !r.confirmed && r.methodInvoked == SUBMIT_TRANSACTION && |r.owners| == 2
    requires Names(d, r) && Names(e, r) && d.now != 0 && e.now != 0 && d.hash != r.hash
    requires e.hash != r.hash && ConfirmedHasTime(r)
    requires d.threshold == e.threshold == 2 && forall j :: 0 <= j < 2 ==> !IsConfirmed(r.owners[j])
    requires d.from != e.from && {d.from, e.from} == {r.owners[0].address, r.owners[1].address}
    ensures FlaggedAfter([r], [d, e], 0) <==> e.blockTime != 0
  {
    assert [d, e][..1] == [d];
    OneMoreConfirm([r], [d], 0);
    OneMoreConfirm([r], [d, e], 0);
    CountOfTwo(AfterConfirms([r], [d])[0].owners);
    CountOfTwo(AfterConfirms([r], [d, e])[0].owners);
  }

  lemma CountOfTwo(owners: seq<OwnerHistory>)
    requires |owners| == 2
    ensures Count(owners) == (if IsConfirmed(owners[0]) then 1 else 0) + (if IsConfirmed(owners[1]) then 1 else 0)
  {
    var first := owners[..1];
    assert first[..0] == [] && first[0] == owners[0];
    assert Count(first) == if IsConfirmed(owners[0]) then 1 else 0;
  }
}
