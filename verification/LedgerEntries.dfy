/** The owner entries of a request: what each event writes into them, and who is confirmed after a run. */
module LedgerEntries {
  import opened Schemas
  import opened ConfirmationLedger
  import opened LedgerTheorems

  // ---------------------------------------------------------------- the first delivery of a request

  /** Mined, but without a return value that can be read. */
  ghost predicate Unreadable(d: Delivery) { d.blockTime != 0 && d.returned.None? }

  ghost predicate Waits(o: OwnerHistory) {
    o.confirmationStatus == OWNER_WAITING && o.confirmationTX == "" && o.confirmationTime == 0 && o.seenTime == 0
  }

  ghost predicate ConfirmedBy(o: OwnerHistory, d: Delivery) {
    && o.confirmationStatus == OWNER_CONFIRMED && o.confirmationTX == d.hash
    && o.confirmationTime == d.now && o.seenTime == d.now
  }

  /** A request that is not stored yet is appended with the owners of the contract in their order. The sender's
      entries are confirmed unless the submit is unreadable, all others wait. The id and the flag are known only
      for a mined readable submit, and the flag is set when one confirmation is enough. */
  lemma FirstDelivery(txs: seq<Record>, d: Delivery, j: nat)
    requires forall i :: 0 <= i < |txs| ==> txs[i].hash != d.hash
    ensures var after := ApplySubmit(txs, d);
            && |after| == |txs| + 1 && after[..|txs|] == txs
            && var r := after[|txs|];
               && r.hash == d.hash && r.contract == d.contract && r.methodInvoked == SUBMIT_TRANSACTION
               && |r.owners| == |d.contractOwners|
               && (j < |r.owners| ==>
                     && r.owners[j].address == d.contractOwners[j]
                     && (if d.contractOwners[j] == d.from && !Unreadable(d) then ConfirmedBy(r.owners[j], d)
                         else Waits(r.owners[j])))
               && r.requestID == (if d.blockTime != 0 && d.returned.Some? then d.returned.value else 0)
               && (r.confirmed <==> d.blockTime != 0 && d.returned.Some? && d.threshold == 1)
  {
    assert HashIndex(txs, d.hash) == |txs|;
  }

  /** A confirm that is not stored yet is appended as a record of its own, without request id. It lists no owners
      when it found a request, and else those of the contract, waiting. */
  lemma ConfirmIsStored(txs: seq<Record>, d: Delivery)
    requires forall i :: 0 <= i < |txs| ==> txs[i].hash != d.hash
    ensures var after := ApplyConfirm(txs, d);
            && |after| == |txs| + 1
            && var r, k := after[|txs|], RequestIndex(txs, d.contract, d.requestID);
               && r.hash == d.hash && r.contract == d.contract
               && r.methodInvoked == CONFIRM_TRANSACTION && r.requestID == 0
               && (k < |txs| ==> r.owners == [])
               && (k == |txs| ==> |r.owners| == |d.contractOwners| && forall o :: o in r.owners ==> Waits(o))
               && (r.confirmed <==>
                   k < |txs| && d.blockTime != 0 && d.threshold <= Count(ConfirmOwners(txs[k].owners, d)))
  {
    assert HashIndex(txs, d.hash) == |txs|;
  }

  /** A confirm that is stored already is delivered again: its record has no request id, and is flagged exactly
      when this delivery reaches the threshold. */
  lemma ConfirmRedelivered(txs: seq<Record>, d: Delivery, i: nat)
    requires UniqueHashes(txs) && i < |txs| && txs[i].hash == d.hash && NotASubmit(txs, d.hash)
    ensures |ApplyConfirm(txs, d)| == |txs|
    ensures var k := RequestIndex(txs, d.contract, d.requestID);
            ApplyConfirm(txs, d)[i] == txs[i].(requestID := 0,
              confirmed := k < |txs| && d.blockTime != 0 && d.threshold <= Count(ConfirmOwners(txs[k].owners, d)))
  {
    ConfirmationAt(txs, d, i);
    var mid := ApplyConfirmation(txs, d);
    forall n | 0 <= n < |txs| ensures mid[n].hash == txs[n].hash { ConfirmationAt(txs, d, n); }
    assert HashIndex(mid, d.hash) == i && HashIndex(txs, d.hash) == i;
  }

  // ---------------------------------------------------------------- one entry across one event

  ghost predicate DistinctOwners(r: Record) {
    forall j, k :: 0 <= j < k < |r.owners| ==> r.owners[j].address != r.owners[k].address
  }

  lemma OwnerAt(r: Record, j: nat)
    requires DistinctOwners(r) && j < |r.owners|
    ensures OwnerIndex(r.owners, r.owners[j].address) == j && ListsOwner(r.owners, r.owners[j].address)
  {
    assert r.owners[j] in r.owners;
  }

  lemma OwnedAt(txs: seq<Record>, i: nat, address: string)
    requires UniqueHashes(txs) && i < |txs| && ListsOwner(txs[i].owners, address)
    ensures OwnedIndex(txs, txs[i].hash, address) == i
  {
  }

  /** A confirm marks exactly the entry of its sender. */
  lemma ConfirmWrites(txs: seq<Record>, d: Delivery, i: nat, j: nat)
    requires Ledger(txs) && NotASubmit(txs, d.hash) && i < |txs| && j < |txs[i].owners|
    requires NotOverwritten(txs, Confirm(d), i)
    ensures |ApplyConfirm(txs, d)| >= |txs| && |ApplyConfirm(txs, d)[i].owners| == |txs[i].owners|
    ensures var was, now := txs[i].owners[j], ApplyConfirm(txs, d)[i].owners[j];
            && now.address == was.address
            && (if IsRequest(txs[i], d.contract, d.requestID) && was.address == d.from then ConfirmedBy(now, d)
                else now == was)
  {
    ConfirmAt(txs, d, i);
  }

  ghost predicate HitsEntry(txs: seq<Record>, hash: string, address: string, i: nat, j: nat)
    requires i < |txs| && j < |txs[i].owners|
  {
    txs[i].hash == hash && txs[i].owners[j].address == address
  }

  lemma EntryWritten(txs: seq<Record>, hash: string, address: string, f: OwnerHistory -> OwnerHistory, i: nat, j: nat)
    requires UniqueHashes(txs) && i < |txs| && DistinctOwners(txs[i]) && j < |txs[i].owners|
    ensures |WithEntry(txs, hash, address, f)| == |txs|
    ensures |WithEntry(txs, hash, address, f)[i].owners| == |txs[i].owners|
    ensures WithEntry(txs, hash, address, f)[i].owners[j] ==
            if HitsEntry(txs, hash, address, i, j) then f(txs[i].owners[j]) else txs[i].owners[j]
  {
    OwnerAt(txs[i], j);
    if HitsEntry(txs, hash, address, i, j) { OwnedAt(txs, i, address); }
  }

  /** A decline writes the declined status into exactly the entry of the address, and nothing else. */
  lemma DeclineWrites(txs: seq<Record>, hash: string, address: string, i: nat, j: nat)
    requires UniqueHashes(txs) && i < |txs| && DistinctOwners(txs[i]) && j < |txs[i].owners|
    ensures |ApplyDecline(txs, hash, address)| == |txs|
    ensures |ApplyDecline(txs, hash, address)[i].owners| == |txs[i].owners|
    ensures var was, now := txs[i].owners[j], ApplyDecline(txs, hash, address)[i].owners[j];
            now == if HitsEntry(txs, hash, address, i, j) then was.(confirmationStatus := OWNER_DECLINED) else was
  {
    EntryWritten(txs, hash, address, Declined(), i, j);
  }

  /** A view writes the seen status and the time into exactly the entry of the address, unless that has a
      confirmation time. */
  lemma ViewWrites(txs: seq<Record>, hash: string, address: string, now: int, i: nat, j: nat)
    requires UniqueHashes(txs) && i < |txs| && DistinctOwners(txs[i]) && j < |txs[i].owners|
    ensures |ApplyView(txs, hash, address, now)| == |txs|
    ensures |ApplyView(txs, hash, address, now)[i].owners| == |txs[i].owners|
    ensures var o := txs[i].owners[j];
            ApplyView(txs, hash, address, now)[i].owners[j] ==
            if HitsEntry(txs, hash, address, i, j) && o.confirmationTime == 0
            then o.(confirmationStatus := OWNER_SEEN, seenTime := now) else o
  {
    EntryWritten(txs, hash, address, Viewed(now), i, j);
    OwnerAt(txs[i], j);
    if HitsEntry(txs, hash, address, i, j) {
      OwnedAt(txs, i, address);
      assert txs[i].owners[j] in txs[i].owners;
      forall o | o in txs[i].owners && o.address == address ensures o == txs[i].owners[j] {}
    }
  }

  // ---------------------------------------------------------------- who is confirmed after a run

  /** The event is a confirm of request i by the owner. */
  ghost predicate ConfirmsEntry(txs: seq<Record>, e: Event, i: nat, address: string) {
    e.Confirm? && i < |txs| && IsRequest(txs[i], e.d.contract, e.d.requestID) && e.d.from == address
  }

  /** The event is a decline of record i by the owner. */
  ghost predicate DeclinesEntry(txs: seq<Record>, e: Event, i: nat, address: string) {
    e.Decline? && i < |txs| && e.hash == txs[i].hash && e.address == address
  }

  lemma EntryStep(txs: seq<Record>, e: Event, i: nat, j: nat)
    requires Ledger(txs) && Possible(txs, e) && i < |txs| && DistinctOwners(txs[i]) && j < |txs[i].owners|
    requires NotOverwritten(txs, e, i)
    ensures |Apply(txs, e)| >= |txs| && SameAddresses(Apply(txs, e)[i].owners, txs[i].owners)
    ensures var a := txs[i].owners[j].address;
            IsConfirmed(Apply(txs, e)[i].owners[j]) <==>
            ConfirmsEntry(txs, e, i, a) || (IsConfirmed(txs[i].owners[j]) && !DeclinesEntry(txs, e, i, a))
  {
    CountFallsOnlyAtDecline(txs, e, i);
    match e
    case Submit(d) => SubmitAt(txs, d, i);
    case Confirm(d) => ConfirmWrites(txs, d, i, j);
    case View(hash, address, now) =>
      ViewWrites(txs, hash, address, now, i, j);
      assert ConfirmedHasTime(txs[i]);
    case Decline(hash, address) => DeclineWrites(txs, hash, address, i, j);
  }

  ghost predicate ConfirmedAtStep(txs: seq<Record>, es: seq<Event>, i: nat, address: string, n: nat) {
    n < |es| && ConfirmsEntry(After(txs, es[..n]), es[n], i, address)
  }

  /** No event of the run from number `from` on is a decline by the owner. */
  ghost predicate NotDeclinedFrom(txs: seq<Record>, es: seq<Event>, i: nat, address: string, from: nat) {
    |es| <= from || (
      var n := |es| - 1;
      NotDeclinedFrom(txs, es[..n], i, address, from) && !DeclinesEntry(After(txs, es[..n]), es[n], i, address))
  }

  /** Event n confirms the entry, and no later event declines it. */
  ghost predicate ConfirmedForGood(txs: seq<Record>, es: seq<Event>, i: nat, address: string, n: nat) {
    ConfirmedAtStep(txs, es, i, address, n) && NotDeclinedFrom(txs, es, i, address, n + 1)
  }

  ghost predicate SomeConfirmsForGood(txs: seq<Record>, es: seq<Event>, i: nat, address: string) {
    exists n :: ConfirmedForGood(txs, es, i, address, n)
  }

  lemma ConfirmedForGoodSplits(txs: seq<Record>, es: seq<Event>, i: nat, address: string, n: nat)
    requires n + 1 < |es|
    ensures ConfirmedForGood(txs, es, i, address, n) <==>
            && ConfirmedForGood(txs, es[..|es| - 1], i, address, n)
            && !DeclinesEntry(After(txs, es[..|es| - 1]), es[|es| - 1], i, address)
  {
    assert es[..|es| - 1][..n] == es[..n];
  }

  lemma LastEventOfOwner(txs: seq<Record>, es: seq<Event>, i: nat, address: string)
    requires es != []
    ensures var before, last := After(txs, es[..|es| - 1]), es[|es| - 1];
            SomeConfirmsForGood(txs, es, i, address) <==>
            || ConfirmsEntry(before, last, i, address)
            || (SomeConfirmsForGood(txs, es[..|es| - 1], i, address) && !DeclinesEntry(before, last, i, address))
  {
    var m := |es| - 1;
    var init := es[..m];
    if ConfirmsEntry(After(txs, init), es[m], i, address) { assert ConfirmedForGood(txs, es, i, address, m); }
    if SomeConfirmsForGood(txs, init, i, address) && !DeclinesEntry(After(txs, init), es[m], i, address) {
      var n: nat :| ConfirmedForGood(txs, init, i, address, n);
      ConfirmedForGoodSplits(txs, es, i, address, n);
    }
    if SomeConfirmsForGood(txs, es, i, address) && !ConfirmsEntry(After(txs, init), es[m], i, address) {
      var n: nat :| ConfirmedForGood(txs, es, i, address, n);
      ConfirmedForGoodSplits(txs, es, i, address, n);
    }
  }

  /** Over every run that never overwrites the request: an owner is confirmed exactly when one of the confirms
      is his and he declined none after it, or he was confirmed before and never declined. */
  lemma {:induction false} ConfirmedOverRun(txs: seq<Record>, es: seq<Event>, i: nat, j: nat)
    requires Ledger(txs) && PossibleRun(txs, es) && i < |txs| && NeverOverwritten(txs, es, i)
    requires DistinctOwners(txs[i]) && j < |txs[i].owners|
    ensures |After(txs, es)| >= |txs| && SameAddresses(After(txs, es)[i].owners, txs[i].owners)
    ensures var a := txs[i].owners[j].address;
            IsConfirmed(After(txs, es)[i].owners[j]) <==>
            || (IsConfirmed(txs[i].owners[j]) && NotDeclinedFrom(txs, es, i, a, 0))
            || SomeConfirmsForGood(txs, es, i, a)
  {
    if es != [] {
      var init := es[..|es| - 1];
      RunKeepsLedger(txs, init);
      ConfirmedOverRun(txs, init, i, j);
      EntryStep(After(txs, init), es[|es| - 1], i, j);
      LastEventOfOwner(txs, es, i, txs[i].owners[j].address);
    }
  }

  /** From the first delivery of a request on: an owner is confirmed exactly when he submitted it readably and
      never declined, or confirmed it and did not decline after that. */
  lemma ConfirmedSinceSubmit(txs: seq<Record>, d: Delivery, es: seq<Event>, j: nat)
    requires Ledger(txs) && d.now != 0 && forall i :: 0 <= i < |txs| ==> txs[i].hash != d.hash
    requires forall k, l :: 0 <= k < l < |d.contractOwners| ==> d.contractOwners[k] != d.contractOwners[l]
    requires j < |d.contractOwners|
    requires PossibleRun(ApplySubmit(txs, d), es) && NeverOverwritten(ApplySubmit(txs, d), es, |txs|)
    ensures var start, i, a := ApplySubmit(txs, d), |txs|, d.contractOwners[j];
            && |After(start, es)| > i && |After(start, es)[i].owners| == |d.contractOwners|
            && After(start, es)[i].owners[j].address == a
            && (IsConfirmed(After(start, es)[i].owners[j]) <==>
                || (a == d.from && !Unreadable(d) && NotDeclinedFrom(start, es, i, a, 0))
                || SomeConfirmsForGood(start, es, i, a))
  {
    var start := ApplySubmit(txs, d);
    FirstDelivery(txs, d, j);
    SubmitKeepsLedger(txs, d);
    forall k, l | 0 <= k < l < |d.contractOwners|
      ensures start[|txs|].owners[k].address != start[|txs|].owners[l].address
    {
      FirstDelivery(txs, d, k);
      FirstDelivery(txs, d, l);
    }
    ConfirmedOverRun(start, es, |txs|, j);
  }
}
