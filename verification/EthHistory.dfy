/** The history of Ether transactions: every wallet of a user has its own record of a transaction. Saving
    inserts the record or refreshes it; a new block may reject transactions. */
module EthHistory {
  import opened Schemas

  const APPEARED_IN_MEMPOOL_INCOMING := 1
  const APPEARED_IN_BLOCK_INCOMING := 2
  const APPEARED_IN_MEMPOOL_OUTCOMING := 3
  const APPEARED_IN_BLOCK_OUTCOMING := 4
  const IN_BLOCK_CONFIRMED_INCOMING := 5
  const IN_BLOCK_CONFIRMED_OUTCOMING := 6
  const REJECTED_INCOMING := 8
  const REJECTED_OUTGOING := 9

  const INCOMING: set<int> := {APPEARED_IN_MEMPOOL_INCOMING, APPEARED_IN_BLOCK_INCOMING, IN_BLOCK_CONFIRMED_INCOMING}
  const OUTCOMING: set<int> :=
    {APPEARED_IN_MEMPOOL_OUTCOMING, APPEARED_IN_BLOCK_OUTCOMING, IN_BLOCK_CONFIRMED_OUTCOMING}

  /** A TransactionETH without its contract-specific parts. */
  datatype Transaction = Transaction(
    userID: string,
    walletIndex: int,
    addressIndex: int,
    hash: string,
    from: string,
    to: string,
    amount: string,
    gasPrice: int,
    gasLimit: int,
    nonce: int,
    status: int,
    blockTime: int,
    poolTime: int,
    blockHeight: int,
    confirmations: int,
    isInternal: bool)

  datatype Selector = Selector(userID: string, hash: string, walletIndex: int)

  function SelectorOf(tx: Transaction): Selector { Selector(tx.userID, tx.hash, tx.walletIndex) }

  /** `was` with the fields that a later save overwrites. */
  function Refreshed(was: Transaction, tx: Transaction): Transaction {
    was.(status := tx.status, blockHeight := tx.blockHeight, blockTime := tx.blockTime,
         gasPrice := tx.gasPrice, gasLimit := tx.gasLimit)
  }

  function RejectedStatus(status: int): int {
    if status in INCOMING then REJECTED_INCOMING else if status in OUTCOMING then REJECTED_OUTGOING else status
  }

  // ---------------------------------------------------------------- the collection

  /** No two records have the same selector. */
  ghost predicate OneRecordEach(records: seq<Transaction>) {
    forall i, j :: 0 <= i < |records| && 0 <= j < |records| && SelectorOf(records[i]) == SelectorOf(records[j]) ==>
      i == j
  }

  /** The collection as a map from selectors to records. */
  ghost predicate Holds(records: seq<Transaction>, m: map<Selector, Transaction>) {
    && OneRecordEach(records)
    && (forall i {:trigger records[i]} :: 0 <= i < |records| ==>
           SelectorOf(records[i]) in m && m[SelectorOf(records[i])] == records[i])
    && (forall k {:trigger k in m} :: k in m ==> HasRecord(records, k))
  }

  ghost predicate HasRecord(records: seq<Transaction>, k: Selector) {
    exists i :: 0 <= i < |records| && SelectorOf(records[i]) == k
  }

  /** Records with some hash and a status among some are given another status. */
  function WithStatus(tx: Transaction, hash: string, statuses: set<int>, status: int): Transaction {
    if tx.hash == hash && tx.status in statuses then tx.(status := status) else tx
  }

  /** What the two updates of a rejection do to a record. */
  function RejectedBoth(tx: Transaction, hash: string): Transaction {
    WithStatus(WithStatus(tx, hash, INCOMING, REJECTED_INCOMING), hash, OUTCOMING, REJECTED_OUTGOING)
  }

  /** Of the records, only number i, the first with the selector, is refreshed. */
  ghost predicate IsUpdate(was: seq<Transaction>, now: seq<Transaction>, i: nat, sel: Selector, tx: Transaction) {
    && i < |was| && SelectorOf(was[i]) == sel && (forall k :: 0 <= k < i ==> SelectorOf(was[k]) != sel)
    && now == was[i := Refreshed(was[i], tx)]
  }

  class Collection {
    var records: seq<Transaction>

    method FindOne(sel: Selector) returns (at: Option<nat>)
      ensures at.Some? ==> at.value < |records| && SelectorOf(records[at.value]) == sel
      ensures at.Some? ==> forall i :: 0 <= i < at.value ==> SelectorOf(records[i]) != sel
      ensures at.None? ==> !HasRecord(records, sel)
    {
      for i := 0 to |records|
        invariant forall k :: 0 <= k < i ==> SelectorOf(records[k]) != sel
      {
        if SelectorOf(records[i]) == sel { return Some(i); }
      }
      return None;
    }

    method Insert(tx: Transaction)
      modifies this
      ensures records == old(records) + [tx]
    {
      records := records + [tx];
    }

    /** Updates the first record that matches; false when there is none. */
    method Update(sel: Selector, tx: Transaction) returns (ok: bool)
      modifies this
      ensures ok <==> HasRecord(old(records), sel)
      ensures !ok ==> records == old(records)
      ensures ok ==> exists i :: IsUpdate(old(records), records, i, sel, tx)
    {
      var at := FindOne(sel);
      if at.None? { return false; }
      records := records[at.value := Refreshed(records[at.value], tx)];
      assert IsUpdate(old(records), records, at.value, sel, tx);
      return true;
    }

    method UpdateAll(hash: string, statuses: set<int>, status: int)
      modifies this
      ensures |records| == |old(records)|
      ensures forall i :: 0 <= i < |records| ==> records[i] == WithStatus(old(records)[i], hash, statuses, status)
    {
      var i := 0;
      while i < |records|
        invariant 0 <= i <= |records| == |old(records)|
        invariant forall k :: 0 <= k < i ==> records[k] == WithStatus(old(records)[k], hash, statuses, status)
        invariant forall k :: i <= k < |records| ==> records[k] == old(records)[k]
      {
        if records[i].hash == hash && records[i].status in statuses {
          records := records[i := records[i].(status := status)];
        }
        i := i + 1;
      }
    }
  }

  // ---------------------------------------------------------------- the specification

  datatype Event = Save(tx: Transaction) | Reject(hash: string)

  predicate Saves(tx: Transaction) { tx.status in INCOMING || tx.status in OUTCOMING }

  function Step(m: map<Selector, Transaction>, e: Event): map<Selector, Transaction> {
    match e
    case Save(tx) =>
      var k := SelectorOf(tx);
      if !Saves(tx) then m
      else if k in m then m[k := Refreshed(m[k], tx)]
      else m[k := tx]
    case Reject(hash) =>
      map k | k in m :: if m[k].hash == hash then m[k].(status := RejectedStatus(m[k].status)) else m[k]
  }

  function Run(events: seq<Event>): map<Selector, Transaction> {
    if events == [] then map[] else Step(Run(events[..|events| - 1]), events[|events| - 1])
  }

  function Rejections(hashes: seq<string>): seq<Event> {
    seq(|hashes|, i requires 0 <= i < |hashes| => Reject(hashes[i]))
  }

  function StepAll(m: map<Selector, Transaction>, events: seq<Event>): map<Selector, Transaction> {
    if events == [] then m else Step(StepAll(m, events[..|events| - 1]), events[|events| - 1])
  }

  // ---------------------------------------------------------------- the code keeps the map

  lemma InsertHolds(records: seq<Transaction>, m: map<Selector, Transaction>, tx: Transaction)
    requires Holds(records, m) && !HasRecord(records, SelectorOf(tx)) && Saves(tx)
    ensures Holds(records + [tx], Step(m, Save(tx)))
  {
    var after := records + [tx];
    var n := Step(m, Save(tx));
    assert SelectorOf(tx) !in m;
    forall k | k in n ensures HasRecord(after, k) {
      if k == SelectorOf(tx) {
        assert SelectorOf(after[|records|]) == k;
      } else {
        assert HasRecord(records, k);
        var i :| 0 <= i < |records| && SelectorOf(records[i]) == k;
        assert SelectorOf(after[i]) == k;
      }
    }
  }

  lemma RefreshHolds(records: seq<Transaction>, m: map<Selector, Transaction>, tx: Transaction, i: nat)
    requires Holds(records, m) && i < |records| && SelectorOf(records[i]) == SelectorOf(tx) && Saves(tx)
    ensures Holds(records[i := Refreshed(records[i], tx)], Step(m, Save(tx)))
  {
    var after := records[i := Refreshed(records[i], tx)];
    assert forall j :: 0 <= j < |records| ==> SelectorOf(after[j]) == SelectorOf(records[j]);
    var n := Step(m, Save(tx));
    assert records[i] == m[SelectorOf(tx)];
    forall k | k in n ensures HasRecord(after, k) {
      assert HasRecord(records, k);
      var j :| 0 <= j < |records| && SelectorOf(records[j]) == k;
      assert SelectorOf(after[j]) == k;
    }
  }

  lemma RejectHolds(records: seq<Transaction>, after: seq<Transaction>, m: map<Selector, Transaction>, hash: string)
    requires Holds(records, m) && |after| == |records|
    requires forall i :: 0 <= i < |records| ==> after[i] == RejectedBoth(records[i], hash)
    ensures Holds(after, Step(m, Reject(hash)))
  {
    assert forall j :: 0 <= j < |records| ==> SelectorOf(after[j]) == SelectorOf(records[j]);
    SameSelectors(records, after);
    var n := Step(m, Reject(hash));
    forall k | k in n ensures HasRecord(after, k) { assert HasRecord(records, k); }
    forall j {:trigger after[j]} | 0 <= j < |after|
      ensures SelectorOf(after[j]) in n && n[SelectorOf(after[j])] == after[j]
    {
      assert m[SelectorOf(records[j])] == records[j];
    }
  }

  lemma SameSelectors(records: seq<Transaction>, after: seq<Transaction>)
    requires |after| == |records| && forall j :: 0 <= j < |records| ==> SelectorOf(after[j]) == SelectorOf(records[j])
    ensures OneRecordEach(records) ==> OneRecordEach(after)
    ensures forall k :: HasRecord(records, k) ==> HasRecord(after, k)
  {
    forall k | HasRecord(records, k) ensures HasRecord(after, k) {
      var j :| 0 <= j < |records| && SelectorOf(records[j]) == k;
      assert SelectorOf(after[j]) == k;
    }
  }

  class TransactionStore {
    const txsData: Collection
    const txsDataTest: Collection

    constructor ()
      ensures fresh(txsData) && fresh(txsDataTest) && txsData != txsDataTest
      ensures Holds(txsData.records, map[]) && Holds(txsDataTest.records, map[])
    {
      txsData := new Collection;
      txsDataTest := new Collection;
      new;
      txsData.records := [];
      txsDataTest.records := [];
    }

    /** saveTransaction. The other network is untouched, and an unknown network is an error. */
    method SaveTransaction(tx: Transaction, networkID: int, ghost m: map<Selector, Transaction>) returns (ok: bool)
      requires txsData != txsDataTest
      requires networkID == ETH_MAIN ==> Holds(txsData.records, m)
      requires networkID == ETH_TEST ==> Holds(txsDataTest.records, m)
      modifies txsData, txsDataTest
      ensures ok <==> networkID in {ETH_MAIN, ETH_TEST}
      ensures networkID == ETH_MAIN ==> Holds(txsData.records, Step(m, Save(tx)))
      ensures networkID != ETH_MAIN ==> txsData.records == old(txsData.records)
      ensures networkID == ETH_TEST ==> Holds(txsDataTest.records, Step(m, Save(tx)))
      ensures networkID != ETH_TEST ==> txsDataTest.records == old(txsDataTest.records)
    {
      var txStore;
      if networkID == ETH_MAIN {
        txStore := txsData;
      } else if networkID == ETH_TEST {
        txStore := txsDataTest;
      } else {
        return false;
      }
      if tx.status == APPEARED_IN_BLOCK_INCOMING || tx.status == APPEARED_IN_MEMPOOL_INCOMING
         || tx.status == IN_BLOCK_CONFIRMED_INCOMING {
        ok := Upsert(txStore, tx, m);
      } else if tx.status == APPEARED_IN_BLOCK_OUTCOMING || tx.status == APPEARED_IN_MEMPOOL_OUTCOMING
                || tx.status == IN_BLOCK_CONFIRMED_OUTCOMING {
        ok := Upsert(txStore, tx, m);
      } else {
        return true;
      }
    }

    /** What both branches do: insert the record, or refresh it. */
    method Upsert(txStore: Collection, tx: Transaction, ghost m: map<Selector, Transaction>) returns (ok: bool)
      requires Holds(txStore.records, m) && Saves(tx)
      modifies txStore
      ensures ok && Holds(txStore.records, Step(m, Save(tx)))
    {
      ghost var was := txStore.records;
      var sel := SelectorOf(tx);
      var at := txStore.FindOne(sel);
      if at.None? {
        InsertHolds(was, m, tx);
        txStore.Insert(tx);
        return true;
      }
      ok := txStore.Update(sel, tx);
      ghost var i :| IsUpdate(was, txStore.records, i, sel, tx);
      RefreshHolds(was, m, tx, i);
    }

    /** The rejections that come with a new block, for the network whose collection is given. */
    method RejectTransactions(txStore: Collection, hashes: seq<string>, ghost m: map<Selector, Transaction>)
      requires Holds(txStore.records, m)
      modifies txStore
      ensures Holds(txStore.records, StepAll(m, Rejections(hashes)))
    {
      ghost var now := m;
      for i := 0 to |hashes|
        invariant now == StepAll(m, Rejections(hashes[..i])) && Holds(txStore.records, now)
      {
        ghost var before := txStore.records;
        txStore.UpdateAll(hashes[i], INCOMING, REJECTED_INCOMING);
        txStore.UpdateAll(hashes[i], OUTCOMING, REJECTED_OUTGOING);
        RejectHolds(before, txStore.records, now, hashes[i]);
        assert Rejections(hashes[..i + 1])[..i] == Rejections(hashes[..i]);
        now := Step(now, Reject(hashes[i]));
      }
      assert hashes[..|hashes|] == hashes;
    }
  }

  // ---------------------------------------------------------------- the record is read off the log

  /** The first save of a selector in the log. */
  function FirstSave(events: seq<Event>, k: Selector): Option<Transaction> {
    if events == [] then None
    else
      var before := FirstSave(events[..|events| - 1], k);
      if before.Some? then before
      else
        match events[|events| - 1]
        case Save(tx) => if Saves(tx) && SelectorOf(tx) == k then Some(tx) else None
        case Reject(_) => None
  }

  /** The last save of a selector in the log. */
  function LastSave(events: seq<Event>, k: Selector): Option<Transaction> {
    if events == [] then None
    else if IsSaveOf(events[|events| - 1], k) then Some(events[|events| - 1].tx)
    else LastSave(events[..|events| - 1], k)
  }

  predicate IsSaveOf(e: Event, k: Selector) { e.Save? && Saves(e.tx) && SelectorOf(e.tx) == k }

  /** The transaction was rejected after its last save. */
  predicate RejectedSince(events: seq<Event>, k: Selector) {
    events != [] && !IsSaveOf(events[|events| - 1], k)
    && (events[|events| - 1] == Reject(k.hash) || RejectedSince(events[..|events| - 1], k))
  }

  /** What a wallet's record must be: everything as first saved, the refreshed fields as last saved, and the
      status rejected exactly when a rejection of its hash came after the last save. */
  function Expected(first: Transaction, last: Transaction, rejected: bool): Transaction {
    Refreshed(first, last).(status := if rejected then RejectedStatus(last.status) else last.status)
  }

  lemma {:induction false} RunFollowsLog(events: seq<Event>, k: Selector)
    ensures FirstSave(events, k).Some? <==> LastSave(events, k).Some?
    ensures k in Run(events) <==> FirstSave(events, k).Some?
    ensures LastSave(events, k).Some? ==> Saves(LastSave(events, k).value)
    ensures k in Run(events) ==>
              SelectorOf(FirstSave(events, k).value) == k
              && Run(events)[k] ==
                 Expected(FirstSave(events, k).value, LastSave(events, k).value, RejectedSince(events, k))
  {
    if events != [] {
      RunFollowsLog(events[..|events| - 1], k);
    }
  }

  // ---------------------------------------------------------------- consequences

  lemma SavingTwiceChangesNothing(m: map<Selector, Transaction>, tx: Transaction)
    ensures Step(Step(m, Save(tx)), Save(tx)) == Step(m, Save(tx))
  {
  }

  /** Rejecting is idempotent, and two rejections can be swapped. */
  lemma RejectionsCommute(m: map<Selector, Transaction>, a: string, b: string)
    ensures Step(Step(m, Reject(a)), Reject(a)) == Step(m, Reject(a))
    ensures Step(Step(m, Reject(a)), Reject(b)) == Step(Step(m, Reject(b)), Reject(a))
  {
    assert Step(Step(m, Reject(a)), Reject(a)) == Step(m, Reject(a));
    assert Step(Step(m, Reject(a)), Reject(b)).Keys == Step(Step(m, Reject(b)), Reject(a)).Keys;
  }

  /** Saves of different wallets, users or transactions can be swapped. */
  lemma SavesCommute(m: map<Selector, Transaction>, x: Transaction, y: Transaction)
    requires SelectorOf(x) != SelectorOf(y)
    ensures Step(Step(m, Save(x)), Save(y)) == Step(Step(m, Save(y)), Save(x))
  {
  }

  lemma {:induction false} StepAllIsRun(events: seq<Event>, more: seq<Event>)
    ensures StepAll(Run(events), more) == Run(events + more)
  {
    if more == [] {
      assert events + more == events;
    } else {
      StepAllIsRun(events, more[..|more| - 1]);
      assert (events + more)[..|events + more| - 1] == events + more[..|more| - 1];
    }
  }

  /** After the rejections of a block, every record of the collection is what the whole log says. */
  lemma CollectionFollowsLog(records: seq<Transaction>, events: seq<Event>, hashes: seq<string>, i: nat)
    requires Holds(records, StepAll(Run(events), Rejections(hashes))) && i < |records|
    ensures var log, k := events + Rejections(hashes), SelectorOf(records[i]);
            FirstSave(log, k).Some? && LastSave(log, k).Some?
            && records[i] == Expected(FirstSave(log, k).value, LastSave(log, k).value, RejectedSince(log, k))
  {
    StepAllIsRun(events, Rejections(hashes));
    RunFollowsLog(events + Rejections(hashes), SelectorOf(records[i]));
  }

  /** A save and a rejection can be swapped exactly when they are about different transactions, or the save
      is none: of the two the later one decides the status. */
  lemma SaveAndRejectCommuteIff(m: map<Selector, Transaction>, tx: Transaction, hash: string)
    requires forall k :: k in m ==> SelectorOf(m[k]) == k
    ensures Step(Step(m, Save(tx)), Reject(hash)) == Step(Step(m, Reject(hash)), Save(tx)) <==>
              tx.hash != hash || !Saves(tx)
  {
    var k := SelectorOf(tx);
    var a, b := Step(Step(m, Save(tx)), Reject(hash)), Step(Step(m, Reject(hash)), Save(tx));
    if tx.hash == hash && Saves(tx) {
      assert a[k].status == RejectedStatus(tx.status) != tx.status == b[k].status;
    } else {
      assert a == b;
    }
  }

  /** The record of a wallet after any log, field by field: what identifies the transaction comes from the first
      save, what changes on the chain from the last one. A rejection after the last save turns the statuses 1, 2
      and 5 into 8, and 3, 4 and 6 into 9. */
  lemma FieldsFollowLog(events: seq<Event>, k: Selector)
    requires k in Run(events)
    ensures FirstSave(events, k).Some? && LastSave(events, k).Some?
    ensures var r, first := Run(events)[k], FirstSave(events, k).value;
            && r.userID == first.userID && r.walletIndex == first.walletIndex && r.addressIndex == first.addressIndex
            && r.hash == first.hash && r.from == first.from && r.to == first.to && r.amount == first.amount
            && r.nonce == first.nonce && r.poolTime == first.poolTime && r.confirmations == first.confirmations
            && r.isInternal == first.isInternal
    ensures var r, last := Run(events)[k], LastSave(events, k).value;
            && r.blockHeight == last.blockHeight && r.blockTime == last.blockTime
            && r.gasPrice == last.gasPrice && r.gasLimit == last.gasLimit
    ensures var status := LastSave(events, k).value.status;
            && status in {1, 2, 3, 4, 5, 6}
            && Run(events)[k].status ==
               if !RejectedSince(events, k) then status
               else if status in {1, 2, 5} then 8 else 9
  {
    RunFollowsLog(events, k);
  }

  /** Two saves go to one record exactly when user, transaction and wallet are the same. */
  lemma SameRecordIff(x: Transaction, y: Transaction)
    ensures SelectorOf(x) == SelectorOf(y) <==>
            x.userID == y.userID && x.hash == y.hash && x.walletIndex == y.walletIndex
  {
  }

  /** Each of the six statuses is saved; others are neither saved nor rejected. */
  lemma OtherStatusesStay(m: map<Selector, Transaction>, tx: Transaction, hash: string, k: Selector)
    requires k in m
    ensures tx.status !in {1, 2, 3, 4, 5, 6} ==> Step(m, Save(tx)) == m
    ensures tx.status in {1, 2, 3, 4, 5, 6} ==>
              SelectorOf(tx) in Step(m, Save(tx)) && Step(m, Save(tx))[SelectorOf(tx)].status == tx.status
    ensures Step(m, Reject(hash)).Keys == m.Keys
    ensures m[k].status !in {1, 2, 3, 4, 5, 6} || m[k].hash != hash ==> Step(m, Reject(hash))[k] == m[k]
  {
  }
}
