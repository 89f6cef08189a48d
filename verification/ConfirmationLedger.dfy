/** The confirmation ledger of multisig transactions: submit, confirm, view and decline events
    update the list of owner statuses of a stored request. */
module ConfirmationLedger {
  import opened Schemas

  const OWNER_WAITING := 0
  const OWNER_SEEN := 1
  const OWNER_CONFIRMED := 2
  const OWNER_DECLINED := 3

  datatype OwnerHistory = OwnerHistory(
    address: string,
    confirmationTX: string,
    confirmationStatus: int,
    confirmationTime: int,
    seenTime: int)

  /** One document of the multisig transactions collection. */
  datatype Record = Record(
    hash: string,
    contract: string,
    methodInvoked: string,
    requestID: int,
    owners: seq<OwnerHistory>,
    confirmed: bool)

  /** What the node delivers for a transaction to a contract. `threshold` and `contractOwners` are what
      the users collection says about the contract, `now` is the clock. */
  datatype Delivery = Delivery(
    hash: string,
    from: string,
    contract: string,
    requestID: int,
    blockTime: int,
    returned: Option<int>,
    threshold: int,
    contractOwners: seq<string>,
    now: int)

  // ---------------------------------------------------------------- owner lists

  function Confirmation(d: Delivery): OwnerHistory {
    OwnerHistory(d.from, d.hash, OWNER_CONFIRMED, d.now, d.now)
  }

  /** The loop over the owners: every entry of the sender is replaced. */
  function ConfirmOwners(owners: seq<OwnerHistory>, d: Delivery): (r: seq<OwnerHistory>)
    ensures |r| == |owners|
    ensures forall j :: 0 <= j < |r| ==> r[j] == if owners[j].address == d.from then Confirmation(d) else owners[j]
  {
    seq(|owners|, j requires 0 <= j < |owners| => if owners[j].address == d.from then Confirmation(d) else owners[j])
  }

  /** FetchContractOwners: every owner waits. */
  function WaitingOwners(addresses: seq<string>): (r: seq<OwnerHistory>)
    ensures |r| == |addresses|
    ensures forall j :: 0 <= j < |r| ==> r[j] == OwnerHistory(addresses[j], "", OWNER_WAITING, 0, 0)
  {
    seq(|addresses|, j requires 0 <= j < |addresses| => OwnerHistory(addresses[j], "", OWNER_WAITING, 0, 0))
  }

  function Count(owners: seq<OwnerHistory>): nat {
    if owners == [] then 0
    else Count(owners[..|owners| - 1]) + (if owners[|owners| - 1].confirmationStatus == OWNER_CONFIRMED then 1 else 0)
  }

  ghost function ConfirmedSet(owners: seq<OwnerHistory>): set<string> {
    set o | o in owners && o.confirmationStatus == OWNER_CONFIRMED :: o.address
  }

  // ---------------------------------------------------------------- the collection

  predicate IsRequest(r: Record, contract: string, id: int) {
    r.contract == contract && r.requestID == id && r.methodInvoked == SUBMIT_TRANSACTION
  }

  function RequestIndex(txs: seq<Record>, contract: string, id: int): (i: nat)
    ensures i <= |txs|
    ensures i < |txs| ==> IsRequest(txs[i], contract, id)
    ensures forall j :: 0 <= j < i ==> !IsRequest(txs[j], contract, id)
  {
    if txs == [] || IsRequest(txs[0], contract, id) then 0 else 1 + RequestIndex(txs[1..], contract, id)
  }

  function HashIndex(txs: seq<Record>, hash: string): (i: nat)
    ensures i <= |txs|
    ensures i < |txs| ==> txs[i].hash == hash
    ensures forall j :: 0 <= j < i ==> txs[j].hash != hash
  {
    if txs == [] || txs[0].hash == hash then 0 else 1 + HashIndex(txs[1..], hash)
  }

  /** UpdateAll on the requests with this contract and id. */
  function WithRequestOwners(txs: seq<Record>, contract: string, id: int, owners: seq<OwnerHistory>): (r: seq<Record>)
    ensures |r| == |txs|
    ensures forall i :: 0 <= i < |r| ==>
              r[i] == if IsRequest(txs[i], contract, id) then txs[i].(owners := owners) else txs[i]
  {
    seq(|txs|, i requires 0 <= i < |txs| =>
        if IsRequest(txs[i], contract, id) then txs[i].(owners := owners) else txs[i])
  }

  /** UpdateAll on the records with the origin's hash. */
  function WithConfirmedFlag(txs: seq<Record>, hash: string, owners: seq<OwnerHistory>): (r: seq<Record>)
    ensures |r| == |txs|
    ensures forall i :: 0 <= i < |r| ==>
              r[i] == if txs[i].hash == hash then txs[i].(owners := owners, confirmed := true) else txs[i]
  {
    seq(|txs|, i requires 0 <= i < |txs| =>
      if txs[i].hash == hash then txs[i].(owners := owners, confirmed := true) else txs[i])
  }

  /** The record of the delivered transaction itself: inserted once, later only its fields are set. */
  function WithOwnRecord(txs: seq<Record>, own: Record, known: bool): (r: seq<Record>)
    ensures |txs| <= |r| <= |txs| + 1
    ensures forall i :: 0 <= i < |txs| ==>
              || r[i] == txs[i]
              || (txs[i].hash == own.hash && r[i] == txs[i].(requestID := own.requestID, confirmed := own.confirmed))
    ensures |r| == |txs| + 1 ==> r[|txs|] == own
  {
    if !known then txs + [own]
    else
      var i := HashIndex(txs, own.hash);
      if i < |txs| then txs[i := txs[i].(requestID := own.requestID, confirmed := own.confirmed)] else txs
  }

  /** A mined submit whose return value can be read; only then is the request id known. */
  predicate HasRequestID(d: Delivery) { d.blockTime != 0 && d.returned.Some? }

  /** The record a submit is stored as. A request that is not mined, or whose return value cannot be read,
      has the id 0; the latter is also stored without the confirmation of its sender. */
  function SubmitRecord(d: Delivery): Record {
    var owners := WaitingOwners(d.contractOwners);
    Record(d.hash, d.contract, SUBMIT_TRANSACTION,
           if HasRequestID(d) then d.returned.value else 0,
           if d.blockTime != 0 && d.returned.None? then owners else ConfirmOwners(owners, d),
           HasRequestID(d) && d.threshold == 1)
  }

  /** A submit inserts the record of its transaction, or refreshes the request id and the confirmed flag of
      a stored one. */
  function ApplySubmit(txs: seq<Record>, d: Delivery): seq<Record> {
    WithOwnRecord(txs, SubmitRecord(d), HashIndex(txs, d.hash) < |txs|)
  }

  /** The part of a confirm that updates the request it confirms. */
  function ApplyConfirmation(txs: seq<Record>, d: Delivery): (r: seq<Record>)
    ensures |r| == |txs|
  {
    var i := RequestIndex(txs, d.contract, d.requestID);
    if i == |txs| then txs
    else
      var owners := ConfirmOwners(txs[i].owners, d);
      var updated := WithRequestOwners(txs, d.contract, d.requestID, owners);
      if ReachesThreshold(txs, d) then WithConfirmedFlag(updated, txs[i].hash, owners) else updated
  }

  predicate ReachesThreshold(txs: seq<Record>, d: Delivery) {
    var i := RequestIndex(txs, d.contract, d.requestID);
    i < |txs| && d.threshold <= Count(ConfirmOwners(txs[i].owners, d)) && d.blockTime != 0
  }

  /** The confirming transaction's own record; `0` because a confirm carries no request id of its own. */
  function OwnRecord(txs: seq<Record>, d: Delivery): Record {
    Record(d.hash, d.contract, CONFIRM_TRANSACTION, 0,
           if RequestIndex(txs, d.contract, d.requestID) < |txs| then [] else WaitingOwners(d.contractOwners),
           ReachesThreshold(txs, d))
  }

  function ApplyConfirm(txs: seq<Record>, d: Delivery): seq<Record> {
    WithOwnRecord(ApplyConfirmation(txs, d), OwnRecord(txs, d), HashIndex(txs, d.hash) < |txs|)
  }

  // ---------------------------------------------------------------- view and decline

  predicate ListsOwner(owners: seq<OwnerHistory>, address: string) {
    exists o :: o in owners && o.address == address
  }

  function OwnerIndex(owners: seq<OwnerHistory>, address: string): (j: nat)
    ensures j <= |owners|
    ensures j < |owners| ==> owners[j].address == address
    ensures forall k :: 0 <= k < j ==> owners[k].address != address
  {
    if owners == [] || owners[0].address == address then 0 else 1 + OwnerIndex(owners[1..], address)
  }

  /** First record with this hash that lists the address. */
  function OwnedIndex(txs: seq<Record>, hash: string, address: string): (i: nat)
    ensures i <= |txs|
    ensures i < |txs| ==> txs[i].hash == hash && ListsOwner(txs[i].owners, address)
    ensures forall k :: 0 <= k < i ==> !(txs[k].hash == hash && ListsOwner(txs[k].owners, address))
  {
    if txs == [] || (txs[0].hash == hash && ListsOwner(txs[0].owners, address)) then 0
    else 1 + OwnedIndex(txs[1..], hash, address)
  }

  /** The positional update: the first entry of the address in the first matching record. */
  function WithEntry(txs: seq<Record>, hash: string, address: string, f: OwnerHistory -> OwnerHistory): seq<Record> {
    var i := OwnedIndex(txs, hash, address);
    if i == |txs| then txs
    else
      var j := OwnerIndex(txs[i].owners, address);
      if j == |txs[i].owners| then txs
      else txs[i := txs[i].(owners := txs[i].owners[j := f(txs[i].owners[j])])]
  }

  predicate AlreadyConfirmedBy(r: Record, address: string) {
    exists o :: o in r.owners && o.address == address && o.confirmationTime != 0
  }

  function Viewed(now: int): OwnerHistory -> OwnerHistory {
    (o: OwnerHistory) => o.(confirmationStatus := OWNER_SEEN, seenTime := now)
  }

  function Declined(): OwnerHistory -> OwnerHistory {
    (o: OwnerHistory) => o.(confirmationStatus := OWNER_DECLINED)
  }

  function ApplyView(txs: seq<Record>, hash: string, address: string, now: int): seq<Record> {
    var i := OwnedIndex(txs, hash, address);
    if i == |txs| || AlreadyConfirmedBy(txs[i], address) then txs
    else WithEntry(txs, hash, address, Viewed(now))
  }

  function ApplyDecline(txs: seq<Record>, hash: string, address: string): seq<Record> {
    WithEntry(txs, hash, address, Declined())
  }

  // ---------------------------------------------------------------- the code

  /** What a caller of ViewTransaction sees. On the test network a record that is not found is dereferenced. */
  datatype ViewResult = Seen | AlreadySeen | NotFound | NilDereference | Ignored

  /** The multisig transactions collection of one Ethereum network. */
  class MultisigHistory {
    const networkID: int
    var txs: seq<Record>

    constructor (networkID: int)
      ensures this.networkID == networkID && txs == []
    {
      this.networkID := networkID;
      txs := [];
    }

    static method ConfirmEntries(owners: seq<OwnerHistory>, d: Delivery) returns (ownerHistorys: seq<OwnerHistory>)
      ensures ownerHistorys == ConfirmOwners(owners, d)
    {
      ownerHistorys := [];
      for j := 0 to |owners|
        invariant |ownerHistorys| == j
        invariant forall k :: 0 <= k < j ==> ownerHistorys[k] == ConfirmOwners(owners, d)[k]
      {
        if owners[j].address == d.from {
          ownerHistorys := ownerHistorys + [OwnerHistory(d.from, d.hash, OWNER_CONFIRMED, d.now, d.now)];
        } else {
          ownerHistorys := ownerHistorys + [owners[j]];
        }
      }
    }

    static method CountConfirmations(owners: seq<OwnerHistory>) returns (confirmations: nat)
      ensures confirmations == Count(owners)
    {
      confirmations := 0;
      for j := 0 to |owners|
        invariant confirmations == Count(owners[..j])
      {
        assert owners[..j + 1][..j] == owners[..j];
        if owners[j].confirmationStatus == OWNER_CONFIRMED {
          confirmations := confirmations + 1;
        }
      }
      assert owners[..|owners|] == owners;
    }

    /** The end of processMultisig: the first delivery inserts, a later one sets fields of the stored record. */
    method Store(own: Record, known: bool)
      modifies this
      ensures txs == WithOwnRecord(old(txs), own, known)
    {
      if !known {
        txs := txs + [own];
        return;
      }
      for i := 0 to |txs|
        invariant txs == old(txs)
        invariant forall k :: 0 <= k < i ==> txs[k].hash != own.hash
      {
        if txs[i].hash == own.hash {
          txs := txs[i := txs[i].(requestID := own.requestID, confirmed := own.confirmed)];
          return;
        }
      }
    }

    method Submit(d: Delivery)
      modifies this
      ensures txs == ApplySubmit(old(txs), d)
    {
      var known := HashIndex(txs, d.hash) < |txs|;
      var owners := WaitingOwners(d.contractOwners);
      if d.blockTime != 0 && d.returned == None {
        Store(Record(d.hash, d.contract, SUBMIT_TRANSACTION, 0, owners, false), known);
        return;
      }
      var requestID, confirmed := 0, false;
      if d.blockTime != 0 {
        requestID := d.returned.value;
        if d.threshold == 1 {
          confirmed := true;
        }
      }
      var ownerHistorys := ConfirmEntries(owners, d);
      Store(Record(d.hash, d.contract, SUBMIT_TRANSACTION, requestID, ownerHistorys, confirmed), known);
    }

    method Confirm(d: Delivery)
      modifies this
      ensures txs == ApplyConfirm(old(txs), d)
    {
      var known := HashIndex(txs, d.hash) < |txs|;
      var own := Record(d.hash, d.contract, CONFIRM_TRANSACTION, 0, WaitingOwners(d.contractOwners), false);
      var origin := RequestIndex(txs, d.contract, d.requestID);
      if origin < |txs| {
        var originTx := txs[origin];
        var ownerHistorys := ConfirmEntries(originTx.owners, d);
        txs := WithRequestOwners(txs, d.contract, d.requestID, ownerHistorys);
        own := own.(owners := []);
        var confirmations := CountConfirmations(ownerHistorys);
        if d.threshold <= confirmations && d.blockTime != 0 {
          own := own.(confirmed := true);
          txs := WithConfirmedFlag(txs, originTx.hash, ownerHistorys);
        }
      }
      Store(own, known);
    }

    /** A positional update: the first entry of the address in the first record that has the hash and lists the
        address. */
    method UpdateEntry(txid: string, address: string, f: OwnerHistory -> OwnerHistory) returns (ok: bool)
      modifies this
      ensures ok == (OwnedIndex(old(txs), txid, address) < |old(txs)|)
      ensures txs == WithEntry(old(txs), txid, address, f)
    {
      for i := 0 to |txs|
        invariant txs == old(txs)
        invariant forall k :: 0 <= k < i ==> !(txs[k].hash == txid && ListsOwner(txs[k].owners, address))
      {
        if txs[i].hash == txid {
          var owners := txs[i].owners;
          for j := 0 to |owners|
            invariant txs == old(txs)
            invariant forall k :: 0 <= k < j ==> owners[k].address != address
          {
            if owners[j].address == address {
              assert owners[j] in owners;
              assert OwnedIndex(txs, txid, address) == i && OwnerIndex(owners, address) == j;
              txs := txs[i := txs[i].(owners := owners[j := f(owners[j])])];
              return true;
            }
          }
        }
      }
      ok := false;
    }

    method ViewTransaction(txid: string, address: string, currencyid: int, now: int) returns (result: ViewResult)
      modifies this
      ensures currencyid == ETHER && networkID in {ETH_MAIN, ETH_TEST} ==>
                txs == ApplyView(old(txs), txid, address, now)
      ensures !(currencyid == ETHER && networkID in {ETH_MAIN, ETH_TEST}) ==> result == Ignored && txs == old(txs)
      ensures currencyid == ETHER && networkID in {ETH_MAIN, ETH_TEST} ==>
                var i := OwnedIndex(old(txs), txid, address);
                && (result == AlreadySeen <==> i < |old(txs)| && AlreadyConfirmedBy(old(txs)[i], address))
                && (result == Seen <==> i < |old(txs)| && !AlreadyConfirmedBy(old(txs)[i], address))
                && (result == NotFound <==> i == |old(txs)| && networkID == ETH_MAIN)
      ensures result in {AlreadySeen, NotFound, NilDereference} ==> txs == old(txs)
      ensures result == NilDereference <==>
                currencyid == ETHER && networkID == ETH_TEST && OwnedIndex(old(txs), txid, address) == |old(txs)|
    {
      if currencyid != ETHER || networkID !in {ETH_MAIN, ETH_TEST} { return Ignored; }
      var i := OwnedIndex(txs, txid, address);
      if i == |txs| {
        return if networkID == ETH_TEST then NilDereference else NotFound;
      }
      var owners := txs[i].owners;
      for j := 0 to |owners|
        invariant forall k :: 0 <= k < j ==> !(owners[k].address == address && owners[k].confirmationTime != 0)
      {
        if owners[j].address == address && owners[j].confirmationTime != 0 {
          assert owners[j] in owners;
          return AlreadySeen;
        }
      }
      var _ := UpdateEntry(txid, address, Viewed(now));
      result := Seen;
    }

    method DeclineTransaction(txid: string, address: string, currencyid: int) returns (ok: bool)
      modifies this
      ensures currencyid == ETHER && networkID in {ETH_MAIN, ETH_TEST} ==>
                txs == ApplyDecline(old(txs), txid, address) && ok == (OwnedIndex(old(txs), txid, address) < |old(txs)|)
      ensures !(currencyid == ETHER && networkID in {ETH_MAIN, ETH_TEST}) ==> ok && txs == old(txs)
    {
      ok := true;
      if currencyid == ETHER && networkID in {ETH_MAIN, ETH_TEST} {
        ok := UpdateEntry(txid, address, Declined());
      }
    }
  }
}
