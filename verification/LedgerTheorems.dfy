/** What every run of submit, confirm, view and decline events keeps, and who decides the confirmed flag. */
module LedgerTheorems {
  import opened Schemas
  import opened ConfirmationLedger

  // ---------------------------------------------------------------- events and the state they keep

  datatype Event =
    | Submit(d: Delivery)
    | Confirm(d: Delivery)
    | View(hash: string, address: string, now: int)
    | Decline(hash: string, address: string)

  function Apply(txs: seq<Record>, e: Event): seq<Record> {
    match e
    case Submit(d) => ApplySubmit(txs, d)
    case Confirm(d) => ApplyConfirm(txs, d)
    case View(hash, address, now) => ApplyView(txs, hash, address, now)
    case Decline(hash, address) => ApplyDecline(txs, hash, address)
  }

  function After(txs: seq<Record>, es: seq<Event>): seq<Record> {
    if es == [] then txs else Apply(After(txs, es[..|es| - 1]), es[|es| - 1])
  }

  ghost predicate IsConfirmed(o: OwnerHistory) { o.confirmationStatus == OWNER_CONFIRMED }

  ghost predicate ConfirmedHasTime(r: Record) {
    forall j :: 0 <= j < |r.owners| && IsConfirmed(r.owners[j]) ==> r.owners[j].confirmationTime != 0
  }

  /** A confirmed entry tells when it was confirmed. */
  ghost predicate ConfirmedHaveTime(txs: seq<Record>) {
    forall i :: 0 <= i < |txs| ==> ConfirmedHasTime(txs[i])
  }

  ghost predicate UniqueHashes(txs: seq<Record>) {
    forall i, j :: 0 <= i < j < |txs| ==> txs[i].hash != txs[j].hash
  }

  ghost predicate Ledger(txs: seq<Record>) {
    ConfirmedHaveTime(txs) && UniqueHashes(txs)
  }

  /** What is taken for granted about an event: the clock runs, and a hash names one transaction, so that it
      is delivered again with the same method and contract. */
  ghost predicate Possible(txs: seq<Record>, e: Event) {
    match e
    case Submit(d) => d.now != 0 && SubmitsOnly(txs, d)
    case Confirm(d) => d.now != 0 && NotASubmit(txs, d.hash)
    case View(_, _, _) => true
    case Decline(_, _) => true
  }

  ghost predicate NotASubmit(txs: seq<Record>, hash: string) {
    forall i :: 0 <= i < |txs| && txs[i].hash == hash ==> txs[i].methodInvoked == CONFIRM_TRANSACTION
  }

  ghost predicate SubmitsOnly(txs: seq<Record>, d: Delivery) {
    forall i :: 0 <= i < |txs| && txs[i].hash == d.hash ==>
      txs[i].methodInvoked == SUBMIT_TRANSACTION && txs[i].contract == d.contract
  }

  /** Every event is possible in the state it meets. */
  ghost predicate PossibleRun(txs: seq<Record>, es: seq<Event>) {
    es == [] || (PossibleRun(txs, es[..|es| - 1]) && Possible(After(txs, es[..|es| - 1]), es[|es| - 1]))
  }

  // ---------------------------------------------------------------- one record across one event

  /** A record after a submit: its own submit sets the request id and the flag, and nothing else. */
  lemma SubmitAt(txs: seq<Record>, d: Delivery, i: nat)
    requires UniqueHashes(txs) && i < |txs|
    ensures |ApplySubmit(txs, d)| >= |txs|
    ensures ApplySubmit(txs, d)[i] ==
            if txs[i].hash == d.hash
            then txs[i].(requestID := SubmitRecord(d).requestID, confirmed := SubmitRecord(d).confirmed)
            else txs[i]
  {
    assert txs[i].hash == d.hash ==> HashIndex(txs, d.hash) == i;
  }

  /** A record after the part of a confirm that updates requests. */
  lemma ConfirmationAt(txs: seq<Record>, d: Delivery, i: nat)
    requires UniqueHashes(txs) && i < |txs|
    ensures IsRequest(txs[i], d.contract, d.requestID) ==> RequestIndex(txs, d.contract, d.requestID) < |txs|
    ensures ApplyConfirmation(txs, d)[i] ==
            if !IsRequest(txs[i], d.contract, d.requestID) then txs[i]
            else txs[i].(owners := ConfirmOwners(txs[RequestIndex(txs, d.contract, d.requestID)].owners, d),
                         confirmed := txs[i].confirmed
                           || (i == RequestIndex(txs, d.contract, d.requestID) && ReachesThreshold(txs, d)))
  {
    var k := RequestIndex(txs, d.contract, d.requestID);
    assert k < |txs| && txs[i].hash == txs[k].hash ==> k == i;
  }

  /** A record after a confirm. Every request with the id gets the owners of the first one; only the first
      one can get the flag. */
  lemma ConfirmAt(txs: seq<Record>, d: Delivery, i: nat)
    requires UniqueHashes(txs) && i < |txs|
    ensures |ApplyConfirm(txs, d)| >= |txs|
    ensures IsRequest(txs[i], d.contract, d.requestID) ==> RequestIndex(txs, d.contract, d.requestID) < |txs|
    ensures ApplyConfirm(txs, d)[i].owners ==
            if IsRequest(txs[i], d.contract, d.requestID)
            then ConfirmOwners(txs[RequestIndex(txs, d.contract, d.requestID)].owners, d) else txs[i].owners
    ensures var r := ApplyConfirm(txs, d)[i];
            r.hash == txs[i].hash && r.contract == txs[i].contract && r.methodInvoked == txs[i].methodInvoked
    ensures NotASubmit(txs, d.hash) && txs[i].methodInvoked == SUBMIT_TRANSACTION ==>
              ApplyConfirm(txs, d)[i].requestID == txs[i].requestID
              && ApplyConfirm(txs, d)[i].confirmed ==
                 (txs[i].confirmed || (i == RequestIndex(txs, d.contract, d.requestID) && ReachesThreshold(txs, d)))
  {
    ConfirmationAt(txs, d, i);
    var mid := ApplyConfirmation(txs, d);
    var own := OwnRecord(txs, d);
    var after := WithOwnRecord(mid, own, HashIndex(txs, d.hash) < |txs|);
    var refreshed := mid[i].(requestID := own.requestID, confirmed := own.confirmed);
    assert after[i] == mid[i] || (mid[i].hash == own.hash && after[i] == refreshed);
  }

  lemma EntryChanged(txs: seq<Record>, hash: string, address: string, f: OwnerHistory -> OwnerHistory)
    ensures |WithEntry(txs, hash, address, f)| == |txs|
    ensures forall i :: 0 <= i < |txs| ==>
              var r := WithEntry(txs, hash, address, f)[i];
              r == txs[i] || exists j :: 0 <= j < |txs[i].owners| && txs[i].owners[j].address == address
                                      && r == txs[i].(owners := txs[i].owners[j := f(txs[i].owners[j])])
  {
  }

  // ---------------------------------------------------------------- counting

  lemma {:induction false} CountMonotone(a: seq<OwnerHistory>, b: seq<OwnerHistory>)
    requires |a| == |b|
    requires forall j :: 0 <= j < |a| && IsConfirmed(a[j]) ==> IsConfirmed(b[j])
    ensures Count(a) <= Count(b)
  {
    if a != [] { CountMonotone(a[..|a| - 1], b[..|b| - 1]); }
  }

  lemma {:induction false} CountOneChanged(a: seq<OwnerHistory>, k: nat, o: OwnerHistory)
    requires k < |a|
    ensures Count(a) - 1 <= Count(a[k := o]) <= Count(a) + 1
    ensures IsConfirmed(a[k]) && !IsConfirmed(o) ==> Count(a[k := o]) == Count(a) - 1
  {
    var n := |a| - 1;
    if k < n {
      assert a[k := o][..n] == a[..n][k := o];
      CountOneChanged(a[..n], k, o);
    } else {
      assert a[k := o][..n] == a[..n];
    }
  }

  // ---------------------------------------------------------------- invariants of the ledger

  /** The records that are stored keep their hashes, and at most the own record of the event is appended. */
  lemma AppendsOwnRecord(txs: seq<Record>, after: seq<Record>, hash: string)
    requires Ledger(txs) && |txs| <= |after| <= |txs| + 1
    requires forall i :: 0 <= i < |txs| ==> after[i].hash == txs[i].hash && ConfirmedHasTime(after[i])
    requires |after| > |txs| ==>
               after[|txs|].hash == hash && ConfirmedHasTime(after[|txs|]) && HashIndex(txs, hash) == |txs|
    ensures Ledger(after)
  {
    forall i, j | 0 <= i < j < |after| ensures after[i].hash != after[j].hash {
      if j < |txs| { assert txs[i].hash != txs[j].hash; }
    }
  }

  lemma SubmitKeepsLedger(txs: seq<Record>, d: Delivery)
    requires Ledger(txs) && Possible(txs, Submit(d))
    ensures Ledger(ApplySubmit(txs, d))
  {
    var after := ApplySubmit(txs, d);
    forall i | 0 <= i < |txs| ensures after[i].hash == txs[i].hash && ConfirmedHasTime(after[i]) {
      SubmitAt(txs, d, i);
      assert ConfirmedHasTime(txs[i]);
    }
    assert ConfirmedHasTime(SubmitRecord(d));
    AppendsOwnRecord(txs, after, d.hash);
  }

  lemma ConfirmingHasTime(r: Record, d: Delivery)
    requires ConfirmedHasTime(r) && d.now != 0
    ensures ConfirmedHasTime(r.(owners := ConfirmOwners(r.owners, d)))
  {
  }

  lemma ConfirmKeepsLedger(txs: seq<Record>, d: Delivery)
    requires Ledger(txs) && Possible(txs, Confirm(d))
    ensures Ledger(ApplyConfirm(txs, d))
  {
    var after := ApplyConfirm(txs, d);
    var k := RequestIndex(txs, d.contract, d.requestID);
    if k < |txs| { ConfirmingHasTime(txs[k], d); }
    forall i | 0 <= i < |txs| ensures after[i].hash == txs[i].hash && ConfirmedHasTime(after[i]) {
      ConfirmAt(txs, d, i);
      assert ConfirmedHasTime(txs[i]);
    }
    assert ConfirmedHasTime(OwnRecord(txs, d));
    AppendsOwnRecord(txs, after, d.hash);
  }

  lemma EntryKeepsLedger(txs: seq<Record>, hash: string, address: string, f: OwnerHistory -> OwnerHistory)
    requires Ledger(txs)
    requires forall o :: !IsConfirmed(f(o))
    ensures Ledger(WithEntry(txs, hash, address, f))
  {
    var after := WithEntry(txs, hash, address, f);
    EntryChanged(txs, hash, address, f);
    assert forall i :: 0 <= i < |txs| ==> after[i] == txs[i].(owners := after[i].owners);
    forall i | 0 <= i < |after| ensures ConfirmedHasTime(after[i]) { assert ConfirmedHasTime(txs[i]); }
  }

  lemma StepKeepsLedger(txs: seq<Record>, e: Event)
    requires Ledger(txs) && Possible(txs, e)
    ensures Ledger(Apply(txs, e)) && |Apply(txs, e)| >= |txs|
  {
    match e
    case Submit(d) => SubmitKeepsLedger(txs, d);
    case Confirm(d) => ConfirmKeepsLedger(txs, d);
    case View(hash, address, now) =>
      EntryKeepsLedger(txs, hash, address, Viewed(now));
      EntryChanged(txs, hash, address, Viewed(now));
    case Decline(hash, address) =>
      EntryKeepsLedger(txs, hash, address, Declined());
      EntryChanged(txs, hash, address, Declined());
  }

  lemma {:induction false} RunKeepsLedger(txs: seq<Record>, es: seq<Event>)
    requires Ledger(txs) && PossibleRun(txs, es)
    ensures Ledger(After(txs, es)) && |After(txs, es)| >= |txs|
  {
    if es != [] {
      RunKeepsLedger(txs, es[..|es| - 1]);
      StepKeepsLedger(After(txs, es[..|es| - 1]), es[|es| - 1]);
    }
  }

  // ---------------------------------------------------------------- view never demotes, decline costs one

  /** A view never touches an entry that is confirmed. */
  lemma ViewKeepsConfirmed(txs: seq<Record>, hash: string, address: string, now: int, i: nat, j: nat)
    requires ConfirmedHaveTime(txs) && i < |txs| && j < |txs[i].owners| && IsConfirmed(txs[i].owners[j])
    ensures |ApplyView(txs, hash, address, now)| == |txs|
            && |ApplyView(txs, hash, address, now)[i].owners| == |txs[i].owners|
    ensures ApplyView(txs, hash, address, now)[i].owners[j] == txs[i].owners[j]
  {
    EntryChanged(txs, hash, address, Viewed(now));
    var k := OwnedIndex(txs, hash, address);
    if k == i && !AlreadyConfirmedBy(txs[i], address) {
      var o := txs[i].owners[j];
      assert o in txs[i].owners && o.confirmationTime != 0;
      assert o.address != address;
    }
  }

  /** The event does not replace the owners of record i by those of another request with the same id. */
  ghost predicate NotOverwritten(txs: seq<Record>, e: Event, i: nat)
    requires i < |txs|
  {
    e.Confirm? && IsRequest(txs[i], e.d.contract, e.d.requestID) ==> i == RequestIndex(txs, e.d.contract, e.d.requestID)
  }

  ghost predicate SameAddresses(a: seq<OwnerHistory>, b: seq<OwnerHistory>) {
    |a| == |b| && forall j :: 0 <= j < |a| ==> a[j].address == b[j].address
  }

  /** No event changes the sequence of owner addresses of a stored record, and the number of confirmations
      falls only at a decline, by at most one, unless another request with the id overwrites the record. */
  lemma CountFallsOnlyAtDecline(txs: seq<Record>, e: Event, i: nat)
    requires Ledger(txs) && Possible(txs, e) && i < |txs| && NotOverwritten(txs, e, i)
    ensures |Apply(txs, e)| >= |txs|
    ensures SameAddresses(Apply(txs, e)[i].owners, txs[i].owners)
    ensures Count(Apply(txs, e)[i].owners) >= Count(txs[i].owners) - (if e.Decline? then 1 else 0)
  {
    match e
    case Submit(d) => SubmitAt(txs, d, i);
    case Confirm(d) =>
      ConfirmAt(txs, d, i);
      CountMonotone(txs[i].owners, ApplyConfirm(txs, d)[i].owners);
    case View(hash, address, now) => ViewKeepsCount(txs, hash, address, now, i);
    case Decline(hash, address) => DeclineCostsOne(txs, hash, address, i);
  }

  function Declines(es: seq<Event>): nat {
    if es == [] then 0
    else if es[|es| - 1].Decline? then Declines(es[..|es| - 1]) + 1
    else Declines(es[..|es| - 1])
  }

  ghost predicate NeverOverwritten(txs: seq<Record>, es: seq<Event>, i: nat) {
    es == [] || (
      var before := After(txs, es[..|es| - 1]);
      NeverOverwritten(txs, es[..|es| - 1], i) && i < |before| && NotOverwritten(before, es[|es| - 1], i))
  }

  /** Over every run a request loses at most one confirmation for every decline. */
  lemma {:induction false} CountOverRun(txs: seq<Record>, es: seq<Event>, i: nat)
    requires Ledger(txs) && PossibleRun(txs, es) && i < |txs| && NeverOverwritten(txs, es, i)
    ensures |After(txs, es)| >= |txs|
    ensures SameAddresses(After(txs, es)[i].owners, txs[i].owners)
    ensures Count(After(txs, es)[i].owners) + Declines(es) >= Count(txs[i].owners)
  {
    if es != [] {
      var init := es[..|es| - 1];
      RunKeepsLedger(txs, init);
      CountOverRun(txs, init, i);
      CountFallsOnlyAtDecline(After(txs, init), es[|es| - 1], i);
    }
  }

  lemma ViewKeepsCount(txs: seq<Record>, hash: string, address: string, now: int, i: nat)
    requires ConfirmedHaveTime(txs) && i < |txs|
    ensures |ApplyView(txs, hash, address, now)| == |txs|
    ensures |ApplyView(txs, hash, address, now)[i].owners| == |txs[i].owners|
    ensures forall j :: 0 <= j < |txs[i].owners| ==>
              ApplyView(txs, hash, address, now)[i].owners[j].address == txs[i].owners[j].address
    ensures Count(ApplyView(txs, hash, address, now)[i].owners) >= Count(txs[i].owners)
  {
    EntryChanged(txs, hash, address, Viewed(now));
    var before := txs[i].owners;
    forall j | 0 <= j < |before| && IsConfirmed(before[j])
      ensures ApplyView(txs, hash, address, now)[i].owners[j] == before[j]
    {
      ViewKeepsConfirmed(txs, hash, address, now, i, j);
    }
    CountMonotone(before, ApplyView(txs, hash, address, now)[i].owners);
  }

  lemma DeclineCostsOne(txs: seq<Record>, hash: string, address: string, i: nat)
    requires i < |txs|
    ensures |ApplyDecline(txs, hash, address)| == |txs|
    ensures |ApplyDecline(txs, hash, address)[i].owners| == |txs[i].owners|
    ensures forall j :: 0 <= j < |txs[i].owners| ==>
              ApplyDecline(txs, hash, address)[i].owners[j].address == txs[i].owners[j].address
    ensures Count(ApplyDecline(txs, hash, address)[i].owners) >= Count(txs[i].owners) - 1
  {
    EntryChanged(txs, hash, address, Declined());
    var before := txs[i].owners;
    if ApplyDecline(txs, hash, address)[i] != txs[i] {
      var j :| 0 <= j < |before|
        && ApplyDecline(txs, hash, address)[i] == txs[i].(owners := before[j := Declined()(before[j])]);
      CountOneChanged(before, j, Declined()(before[j]));
    }
  }

  // ---------------------------------------------------------------- the confirmed flag

  /** A confirm raises the confirmed flag of a request exactly when it is the first request with the id, the
      confirm is in a block, and the confirmations then stored reach the threshold. */
  lemma FlagNeedsThreshold(txs: seq<Record>, d: Delivery, i: nat)
    requires Ledger(txs) && Possible(txs, Confirm(d)) && i < |txs|
    requires txs[i].methodInvoked == SUBMIT_TRANSACTION && !txs[i].confirmed
    ensures |ApplyConfirm(txs, d)| >= |txs|
    ensures ApplyConfirm(txs, d)[i].confirmed <==>
            i == RequestIndex(txs, d.contract, d.requestID) && d.blockTime != 0
            && d.threshold <= Count(ApplyConfirm(txs, d)[i].owners)
  {
    ConfirmAt(txs, d, i);
  }

  /** A request that is delivered again loses the flag exactly when the delivery is not mined, has no
      readable return value, or the threshold is not 1; its owners and their confirmations stay. */
  lemma RedeliveryClearsFlagIff(txs: seq<Record>, d: Delivery, i: nat)
    requires Ledger(txs) && i < |txs| && txs[i].hash == d.hash && txs[i].confirmed
    ensures |ApplySubmit(txs, d)| == |txs| && ApplySubmit(txs, d)[i].owners == txs[i].owners
    ensures ApplySubmit(txs, d)[i].requestID == if HasRequestID(d) then d.returned.value else 0
    ensures !ApplySubmit(txs, d)[i].confirmed <==> d.blockTime == 0 || d.returned.None? || d.threshold != 1
  {
    SubmitAt(txs, d, i);
  }

  ghost predicate Raises(txs: seq<Record>, e: Event, i: nat)
    requires i < |txs|
  {
    match e
    case Submit(d) => d.hash == txs[i].hash && HasRequestID(d) && d.threshold == 1
    case Confirm(d) => i == RequestIndex(txs, d.contract, d.requestID) && ReachesThreshold(txs, d)
    case View(_, _, _) => false
    case Decline(_, _) => false
  }

  ghost predicate Clears(txs: seq<Record>, e: Event, i: nat)
    requires i < |txs|
  {
    e.Submit? && e.d.hash == txs[i].hash && !Raises(txs, e, i)
  }

  lemma FlagStep(txs: seq<Record>, e: Event, i: nat)
    requires Ledger(txs) && Possible(txs, e) && i < |txs| && txs[i].methodInvoked == SUBMIT_TRANSACTION
    ensures |Apply(txs, e)| >= |txs|
    ensures Apply(txs, e)[i].methodInvoked == SUBMIT_TRANSACTION && Apply(txs, e)[i].hash == txs[i].hash
    ensures Apply(txs, e)[i].confirmed <==> Raises(txs, e, i) || (txs[i].confirmed && !Clears(txs, e, i))
  {
    match e
    case Submit(d) => SubmitAt(txs, d, i);
    case Confirm(d) => ConfirmAt(txs, d, i);
    case View(hash, address, now) => EntryChanged(txs, hash, address, Viewed(now));
    case Decline(hash, address) => EntryChanged(txs, hash, address, Declined());
  }

  /** Event n of the run raises the flag of record i. */
  ghost predicate RaisedAt(txs: seq<Record>, es: seq<Event>, i: nat, n: nat)
    requires n < |es|
  {
    i < |After(txs, es[..n])| && Raises(After(txs, es[..n]), es[n], i)
  }

  /** No event of the run from number `from` on clears the flag of record i. */
  ghost predicate NotClearedFrom(txs: seq<Record>, es: seq<Event>, i: nat, from: nat) {
    |es| <= from || (
      var before := After(txs, es[..|es| - 1]);
      NotClearedFrom(txs, es[..|es| - 1], i, from) && i < |before| && !Clears(before, es[|es| - 1], i))
  }

  /** Event n raises the flag, and no later event clears it. */
  ghost predicate RaisedForGood(txs: seq<Record>, es: seq<Event>, i: nat, n: nat) {
    n < |es| && RaisedAt(txs, es, i, n) && NotClearedFrom(txs, es, i, n + 1)
  }

  ghost predicate SomeRaisesForGood(txs: seq<Record>, es: seq<Event>, i: nat) {
    exists n :: RaisedForGood(txs, es, i, n)
  }

  /** Over every run: a request is flagged exactly when some event raised its flag and no later delivery of
      the request cleared it, or it was flagged before and never cleared. */
  lemma {:induction false} FlagOverRun(txs: seq<Record>, es: seq<Event>, i: nat)
    requires Ledger(txs) && PossibleRun(txs, es) && i < |txs| && txs[i].methodInvoked == SUBMIT_TRANSACTION
    ensures |After(txs, es)| >= |txs| && After(txs, es)[i].methodInvoked == SUBMIT_TRANSACTION
    ensures After(txs, es)[i].confirmed <==>
              (txs[i].confirmed && NotClearedFrom(txs, es, i, 0)) || SomeRaisesForGood(txs, es, i)
  {
    if es != [] {
      var init := es[..|es| - 1];
      RunKeepsLedger(txs, init);
      FlagOverRun(txs, init, i);
      FlagStep(After(txs, init), es[|es| - 1], i);
      LastEventDecides(txs, es, i);
    }
  }

  lemma LastEventDecides(txs: seq<Record>, es: seq<Event>, i: nat)
    requires es != [] && i < |After(txs, es[..|es| - 1])|
    ensures var before, last := After(txs, es[..|es| - 1]), es[|es| - 1];
            SomeRaisesForGood(txs, es, i) <==>
              Raises(before, last, i) || (SomeRaisesForGood(txs, es[..|es| - 1], i) && !Clears(before, last, i))
  {
    var n := |es| - 1;
    var init := es[..n];
    if Raises(After(txs, init), es[n], i) { assert RaisedForGood(txs, es, i, n); }
    if SomeRaisesForGood(txs, init, i) && !Clears(After(txs, init), es[n], i) {
      var k: nat :| RaisedForGood(txs, init, i, k);
      RaisedForGoodSplits(txs, es, i, k);
    }
    if SomeRaisesForGood(txs, es, i) && !Raises(After(txs, init), es[n], i) {
      var k: nat :| RaisedForGood(txs, es, i, k);
      RaisedForGoodSplits(txs, es, i, k);
    }
  }

  lemma RaisedForGoodSplits(txs: seq<Record>, es: seq<Event>, i: nat, n: nat)
    requires n + 1 < |es| && i < |After(txs, es[..|es| - 1])|
    ensures RaisedForGood(txs, es, i, n) <==>
            RaisedForGood(txs, es[..|es| - 1], i, n) && !Clears(After(txs, es[..|es| - 1]), es[|es| - 1], i)
  {
    assert es[..|es| - 1][..n] == es[..n];
  }
}
