/** Requests of a contract are told apart by their ids: in which runs the ids are unique, and what is lost when
    they are not. */
module RequestIds {
  import opened Schemas
  import opened ConfirmationLedger
  import opened LedgerTheorems

  // ---------------------------------------------------------------- unique request ids

  ghost predicate SameRequest(r: Record, s: Record) {
    r.methodInvoked == SUBMIT_TRANSACTION && s.methodInvoked == SUBMIT_TRANSACTION
    && r.contract == s.contract && r.requestID == s.requestID
  }

  ghost predicate UniqueRequests(txs: seq<Record>) {
    forall i, j :: 0 <= i < j < |txs| ==> !SameRequest(txs[i], txs[j])
  }

  ghost predicate SameButOwners(r: Record, s: Record) {
    r.hash == s.hash && r.contract == s.contract && r.methodInvoked == s.methodInvoked
    && (r.methodInvoked == SUBMIT_TRANSACTION ==> r.requestID == s.requestID)
  }

  /** A submit brings an id that no other request of the contract has. A request from the mempool brings 0. */
  ghost predicate Fresh(txs: seq<Record>, e: Event) {
    e.Submit? ==> forall i :: 0 <= i < |txs| && txs[i].hash != e.d.hash ==>
      !IsRequest(txs[i], e.d.contract, SubmitRecord(e.d).requestID)
  }

  lemma SameRequestsStayUnique(txs: seq<Record>, after: seq<Record>)
    requires UniqueRequests(txs) && |txs| <= |after|
    requires forall i :: 0 <= i < |txs| ==> SameButOwners(after[i], txs[i])
    requires forall i :: |txs| <= i < |after| ==> after[i].methodInvoked == CONFIRM_TRANSACTION
    ensures UniqueRequests(after)
  {
    forall i, j | 0 <= i < j < |after| ensures !SameRequest(after[i], after[j]) {
      if j < |txs| { assert !SameRequest(txs[i], txs[j]); }
    }
  }

  lemma SubmitKeepsUniqueIff(txs: seq<Record>, d: Delivery)
    requires Ledger(txs) && Possible(txs, Submit(d)) && UniqueRequests(txs)
    ensures UniqueRequests(ApplySubmit(txs, d)) <==> Fresh(txs, Submit(d))
  {
    var after := ApplySubmit(txs, d);
    var k := HashIndex(txs, d.hash);
    forall i | 0 <= i < |txs|
      ensures after[i] ==
              if i == k then txs[i].(requestID := SubmitRecord(d).requestID, confirmed := SubmitRecord(d).confirmed)
              else txs[i]
      ensures i != k ==> txs[i].hash != d.hash
    {
      SubmitAt(txs, d, i);
    }
    assert k < |after| && IsRequest(after[k], d.contract, SubmitRecord(d).requestID);
    if Fresh(txs, Submit(d)) {
      forall i, j | 0 <= i < j < |after| ensures !SameRequest(after[i], after[j]) {
        if i != k && j != k { assert !SameRequest(txs[i], txs[j]); }
      }
    } else {
      var i :| 0 <= i < |txs| && txs[i].hash != d.hash && IsRequest(txs[i], d.contract, SubmitRecord(d).requestID);
      assert SameRequest(after[if i < k then i else k], after[if i < k then k else i]);
    }
  }

  lemma StepKeepsUniqueIff(txs: seq<Record>, e: Event)
    requires Ledger(txs) && Possible(txs, e) && UniqueRequests(txs)
    ensures UniqueRequests(Apply(txs, e)) <==> Fresh(txs, e)
  {
    match e
    case Submit(d) => SubmitKeepsUniqueIff(txs, d);
    case Confirm(d) =>
      forall i | 0 <= i < |txs| ensures SameButOwners(ApplyConfirm(txs, d)[i], txs[i]) { ConfirmAt(txs, d, i); }
      SameRequestsStayUnique(txs, ApplyConfirm(txs, d));
    case View(hash, address, now) =>
      EntryChanged(txs, hash, address, Viewed(now));
      SameRequestsStayUnique(txs, ApplyView(txs, hash, address, now));
    case Decline(hash, address) =>
      EntryChanged(txs, hash, address, Declined());
      SameRequestsStayUnique(txs, ApplyDecline(txs, hash, address));
  }

  /** Request ids are unique in every state of the run. */
  ghost predicate AlwaysUnique(txs: seq<Record>, es: seq<Event>) {
    UniqueRequests(After(txs, es)) && (es == [] || AlwaysUnique(txs, es[..|es| - 1]))
  }

  /** Every submit of the run is fresh in the state it meets. */
  ghost predicate AlwaysFresh(txs: seq<Record>, es: seq<Event>) {
    es == [] || (AlwaysFresh(txs, es[..|es| - 1]) && Fresh(After(txs, es[..|es| - 1]), es[|es| - 1]))
  }

  /** Over every run: request ids are unique in all states exactly when every submit is fresh. */
  lemma {:induction false} RunKeepsUniqueIff(txs: seq<Record>, es: seq<Event>)
    requires Ledger(txs) && PossibleRun(txs, es) && UniqueRequests(txs)
    ensures AlwaysUnique(txs, es) <==> AlwaysFresh(txs, es)
  {
    if es != [] {
      var init := es[..|es| - 1];
      RunKeepsUniqueIff(txs, init);
      RunKeepsLedger(txs, init);
      if UniqueRequests(After(txs, init)) { StepKeepsUniqueIff(After(txs, init), es[|es| - 1]); }
    }
  }

  lemma {:induction false} UniqueRunNeverOverwrites(txs: seq<Record>, es: seq<Event>, i: nat)
    requires Ledger(txs) && PossibleRun(txs, es) && AlwaysUnique(txs, es) && i < |txs|
    ensures NeverOverwritten(txs, es, i)
  {
    if es != [] {
      var init := es[..|es| - 1];
      RunKeepsLedger(txs, init);
      UniqueRunNeverOverwrites(txs, init, i);
      assert UniqueRequests(After(txs, init));
      UniqueMeansNotOverwritten(After(txs, init), es[|es| - 1], i);
    }
  }

  /** So in a run of fresh submits no request is ever overwritten, and confirmations are lost to declines only. */
  lemma FreshRunLosesOnlyByDecline(txs: seq<Record>, es: seq<Event>, i: nat)
    requires Ledger(txs) && PossibleRun(txs, es) && UniqueRequests(txs) && AlwaysFresh(txs, es) && i < |txs|
    ensures |After(txs, es)| >= |txs|
    ensures Count(After(txs, es)[i].owners) + Declines(es) >= Count(txs[i].owners)
  {
    RunKeepsUniqueIff(txs, es);
    UniqueRunNeverOverwrites(txs, es, i);
    CountOverRun(txs, es, i);
  }

  lemma UniqueMeansNotOverwritten(txs: seq<Record>, e: Event, i: nat)
    requires UniqueRequests(txs) && i < |txs|
    ensures NotOverwritten(txs, e, i)
  {
    if e.Confirm? && IsRequest(txs[i], e.d.contract, e.d.requestID) {
      assert SameRequest(txs[RequestIndex(txs, e.d.contract, e.d.requestID)], txs[i]);
    }
  }

  // ---------------------------------------------------------------- requests that share an id

  ghost predicate KeepsConfirmations(txs: seq<Record>, d: Delivery) {
    forall i :: 0 <= i < |txs| && IsRequest(txs[i], d.contract, d.requestID) ==>
      ConfirmedSet(txs[i].owners) <= ConfirmedSet(ApplyConfirmation(txs, d)[i].owners)
  }

  ghost predicate FirstHasAll(txs: seq<Record>, contract: string, id: int)
    requires RequestIndex(txs, contract, id) < |txs|
  {
    forall i :: 0 <= i < |txs| && IsRequest(txs[i], contract, id) ==>
      ConfirmedSet(txs[i].owners) <= ConfirmedSet(txs[RequestIndex(txs, contract, id)].owners)
  }

  /** The confirm does not lose what the requests with the id have: whoever is confirmed in one of them is
      confirmed in the first, or is the sender and among the first's owners. */
  ghost predicate NothingToLose(txs: seq<Record>, d: Delivery) {
    forall i, a :: 0 <= i < |txs| && IsRequest(txs[i], d.contract, d.requestID) && a in ConfirmedSet(txs[i].owners) ==>
      var first := txs[RequestIndex(txs, d.contract, d.requestID)].owners;
      a in ConfirmedSet(first) || (a == d.from && ListsOwner(first, a))
  }

  /** Without unique request ids a confirm overwrites the owners of every request with the id by those of the
      first. A given confirm keeps all confirmations exactly when it has nothing to lose. */
  lemma KeepsConfirmationsIff(txs: seq<Record>, d: Delivery)
    requires UniqueHashes(txs)
    ensures KeepsConfirmations(txs, d) <==> NothingToLose(txs, d)
  {
    if KeepsConfirmations(txs, d) {
      forall i, a | 0 <= i < |txs| && IsRequest(txs[i], d.contract, d.requestID) && a in ConfirmedSet(txs[i].owners)
        ensures var first := txs[RequestIndex(txs, d.contract, d.requestID)].owners;
                a in ConfirmedSet(first) || (a == d.from && ListsOwner(first, a))
      {
        ConfirmedInRequest(txs, d, i, a);
      }
    }
    if NothingToLose(txs, d) {
      forall i | 0 <= i < |txs| && IsRequest(txs[i], d.contract, d.requestID)
        ensures ConfirmedSet(txs[i].owners) <= ConfirmedSet(ApplyConfirmation(txs, d)[i].owners)
      {
        forall a | a in ConfirmedSet(txs[i].owners) ensures a in ConfirmedSet(ApplyConfirmation(txs, d)[i].owners) {
          ConfirmedInRequest(txs, d, i, a);
        }
      }
    }
  }

  lemma ConfirmedInRequest(txs: seq<Record>, d: Delivery, i: nat, a: string)
    requires UniqueHashes(txs) && i < |txs| && IsRequest(txs[i], d.contract, d.requestID)
    ensures RequestIndex(txs, d.contract, d.requestID) < |txs|
    ensures a in ConfirmedSet(ApplyConfirmation(txs, d)[i].owners) <==>
            var first := txs[RequestIndex(txs, d.contract, d.requestID)].owners;
            a in ConfirmedSet(first) || (a == d.from && ListsOwner(first, a))
  {
    ConfirmationAt(txs, d, i);
    ConfirmedByConfirm(txs[RequestIndex(txs, d.contract, d.requestID)].owners, d, a);
  }

  lemma ConfirmedByConfirm(owners: seq<OwnerHistory>, d: Delivery, a: string)
    ensures a in ConfirmedSet(ConfirmOwners(owners, d)) <==>
              a in ConfirmedSet(owners) || (a == d.from && ListsOwner(owners, a))
  {
    var r := ConfirmOwners(owners, d);
    if a in ConfirmedSet(r) {
      var j :| 0 <= j < |r| && IsConfirmed(r[j]) && r[j].address == a;
      assert owners[j] in owners;
    }
    if a in ConfirmedSet(owners) || (a == d.from && ListsOwner(owners, a)) {
      var j :| 0 <= j < |owners| && owners[j].address == a && (IsConfirmed(owners[j]) || a == d.from);
      assert r[j] in r && IsConfirmed(r[j]);
    }
  }

  /** Confirms of an id keep all confirmations, whoever sends them, exactly when each request with the id is
      confirmed by no more owners than the first one. */
  lemma ConfirmKeepsConfirmationsIff(txs: seq<Record>, contract: string, id: int)
    requires UniqueHashes(txs) && RequestIndex(txs, contract, id) < |txs|
    ensures (forall d: Delivery :: d.contract == contract && d.requestID == id ==> KeepsConfirmations(txs, d))
            <==> FirstHasAll(txs, contract, id)
  {
    if FirstHasAll(txs, contract, id) {
      forall d: Delivery | d.contract == contract && d.requestID == id ensures KeepsConfirmations(txs, d) {
        KeepsConfirmationsIff(txs, d);
      }
    } else {
      var i, a :| 0 <= i < |txs| && IsRequest(txs[i], contract, id) && a in ConfirmedSet(txs[i].owners)
        && a !in ConfirmedSet(txs[RequestIndex(txs, contract, id)].owners);
      var d := SentBySomebodyElse(txs, contract, id, i, a);
    }
  }

  lemma SentBySomebodyElse(txs: seq<Record>, contract: string, id: int, i: nat, a: string) returns (d: Delivery)
    requires UniqueHashes(txs) && i < |txs| && IsRequest(txs[i], contract, id) && a in ConfirmedSet(txs[i].owners)
    requires RequestIndex(txs, contract, id) < |txs| && a !in ConfirmedSet(txs[RequestIndex(txs, contract, id)].owners)
    ensures d.contract == contract && d.requestID == id && !KeepsConfirmations(txs, d)
  {
    d := Delivery("", a + "x", contract, id, 0, None, 0, [], 1);
    assert |d.from| != |a|;
    KeepsConfirmationsIff(txs, d);
  }

  const ANN_WAITS := OwnerHistory("ann", "", OWNER_WAITING, 0, 0)
  const BOB_WAITS := OwnerHistory("bob", "", OWNER_WAITING, 0, 0)
  const ANN_CONFIRMED := OwnerHistory("ann", "h2", OWNER_CONFIRMED, 1, 1)

  /** Two requests stored from the mempool both have id 0: Bob's confirm of the first wipes out the
      confirmation Ann gave to the second. */
  lemma SharedRequestIdLosesConfirmation()
    ensures var first := Record("h1", "s", SUBMIT_TRANSACTION, 0, [ANN_WAITS, BOB_WAITS], false);
            var second := Record("h2", "s", SUBMIT_TRANSACTION, 0, [ANN_CONFIRMED, BOB_WAITS], false);
            var after := ApplyConfirm([first, second], Delivery("h3", "bob", "s", 0, 0, None, 2, ["ann", "bob"], 2));
            && IsConfirmed(second.owners[0]) && |after| == 3 && |after[1].owners| == 2
            && !IsConfirmed(after[1].owners[0]) && after[1].hash == "h2"
  {
    var first := Record("h1", "s", SUBMIT_TRANSACTION, 0, [ANN_WAITS, BOB_WAITS], false);
    var second := Record("h2", "s", SUBMIT_TRANSACTION, 0, [ANN_CONFIRMED, BOB_WAITS], false);
    var d := Delivery("h3", "bob", "s", 0, 0, None, 2, ["ann", "bob"], 2);
    var txs := [first, second];
    assert RequestIndex(txs, "s", 0) == 0;
    assert HashIndex(txs, "h3") == |txs|;
    assert ApplyConfirmation(txs, d)[1].owners == ConfirmOwners(first.owners, d);
  }
}
