/** What holds of a user's wallets over every run of requests, and where the selectors miss. */
module WalletTheorems {
  import opened Schemas
  import opened MachineIntegers
  import opened SpendableOutputs
  import OutputTheorems
  import opened WalletTable

  // ---------------------------------------------------------------- the invariant

  /** No two wallets that are not imported share currency, network and index. */
  ghost predicate IndexesUnique(ws: seq<Wallet>) {
    forall i, j :: 0 <= i < j < |ws| && !ws[i].isImported && !ws[j].isImported ==>
      !Matches(ws[i], ws[j].currencyID, ws[j].networkID, ws[j].walletIndex)
  }

  ghost predicate AddressesUnique(w: Wallet) {
    forall i, j :: 0 <= i < j < |w.addresses| ==> w.addresses[i].addressIndex != w.addresses[j].addressIndex
  }

  ghost predicate AllAddressesUnique(ws: seq<Wallet>) {
    forall i {:trigger ws[i]} :: 0 <= i < |ws| ==> AddressesUnique(ws[i])
  }

  ghost predicate TableOk(ws: seq<Wallet>) { IndexesUnique(ws) && AllAddressesUnique(ws) }

  /** Wallets are only appended; an old one keeps its position and identity, only gains addresses, and is
      not brought back once it is marked. */
  ghost predicate Grows(was: seq<Wallet>, now: seq<Wallet>) {
    |was| <= |now| && forall i {:trigger was[i]} {:trigger now[i]} :: 0 <= i < |was| ==> SameWallet(was[i], now[i])
  }

  ghost predicate SameWallet(w: Wallet, v: Wallet) {
    && v == w.(addresses := v.addresses, status := v.status)
    && w.addresses <= v.addresses
    && (w.status == StatusDeleted ==> v.status == StatusDeleted)
  }

  // ---------------------------------------------------------------- requests

  datatype Request =
    | Add(wp: WalletParams, history: set<Network>)
    | DiscoverAll(currencyID: int, networkID: int, ds: seq<Discovered>)
    | AddAddress(currencyID: int, networkID: int, walletIndex: int, a: Address)
    | Delete(currencyID: int, networkID: int, walletIndex: int)

  function Result(ws: seq<Wallet>, o: Outcome): seq<Wallet> { if o.Done? then o.wallets else ws }

  function Serve(ws: seq<Wallet>, r: Request): seq<Wallet> {
    match r
    case Add(wp, history) => Result(ws, Added(ws, wp, history))
    case DiscoverAll(c, n, ds) => Discover(ws, c, n, ds)
    case AddAddress(c, n, i, a) => Result(ws, AddressAdded(ws, c, n, i, a))
    case Delete(c, n, i) => Result(ws, Deleted(ws, c, n, i))
  }

  function Serving(ws: seq<Wallet>, rs: seq<Request>): seq<Wallet> {
    if rs == [] then ws else Serve(Serving(ws, rs[..|rs| - 1]), rs[|rs| - 1])
  }

  /** The request names a currency, a network and an index that all occur, but not in one wallet. */
  predicate Misdirected(ws: seq<Wallet>, currencyID: int, networkID: int, walletIndex: int) {
    Selected(ws, currencyID, networkID, walletIndex) && !HasMatch(ws, currencyID, networkID, walletIndex)
  }

  /** An address is pushed to the first wallet by mistake, and the first wallet has its index already. */
  predicate Clashes(ws: seq<Wallet>, r: Request) {
    r.AddAddress? && Misdirected(ws, r.currencyID, r.networkID, r.walletIndex)
      && HasAddressIndex(ws[0], r.a.addressIndex)
  }

  // ---------------------------------------------------------------- one request

  lemma CreatedKeepsTable(ws: seq<Wallet>, wp: WalletParams, isEmpty: bool)
    ensures TableOk(ws) ==> TableOk(Result(ws, Created(ws, wp, isEmpty)))
    ensures Grows(ws, Result(ws, Created(ws, wp, isEmpty)))
  {
    var now := Result(ws, Created(ws, wp, isEmpty));
    if TableOk(ws) && Created(ws, wp, isEmpty).Done? {
      forall i, j | 0 <= i < j < |now| && !now[i].isImported && !now[j].isImported
        ensures !Matches(now[i], now[j].currencyID, now[j].networkID, now[j].walletIndex)
      {
        assert now[i] in ws;
      }
    }
  }

  lemma {:induction false} DiscoverKeepsTable(ws: seq<Wallet>, c: int, n: int, ds: seq<Discovered>)
    ensures TableOk(ws) ==> TableOk(Discover(ws, c, n, ds))
    ensures Grows(ws, Discover(ws, c, n, ds))
  {
    if ds != [] {
      var init, d := ds[..|ds| - 1], ds[|ds| - 1];
      DiscoverKeepsTable(ws, c, n, init);
      var before := Discover(ws, c, n, init);
      CreatedKeepsTable(before, ParamsOf(c, n, d), d.isEmpty);
      GrowsTransitive(ws, before, Discover(ws, c, n, ds));
    }
  }

  lemma GrowsTransitive(a: seq<Wallet>, b: seq<Wallet>, c: seq<Wallet>)
    requires Grows(a, b) && Grows(b, c)
    ensures Grows(a, c)
  {
    forall i {:trigger a[i]} | 0 <= i < |a| ensures SameWallet(a[i], c[i]) {
      assert SameWallet(a[i], b[i]) && SameWallet(b[i], c[i]);
    }
  }

  lemma AddAddressKeepsTableIff(ws: seq<Wallet>, r: Request)
    requires r.AddAddress? && TableOk(ws)
    ensures TableOk(Serve(ws, r)) <==> !Clashes(ws, r)
  {
    var now := Serve(ws, r);
    var o := AddressAdded(ws, r.currencyID, r.networkID, r.walletIndex, r.a);
    assert o == Failed(AddressIndexTaken) ==> HasMatch(ws, r.currencyID, r.networkID, r.walletIndex);
    if o.Done? {
      var p := LastMatch(ws, r.currencyID, r.networkID, r.walletIndex);
      assert now == ws[p := WithAddress(ws[p], r.a)];
      if !HasMatch(ws, r.currencyID, r.networkID, r.walletIndex) {
        NoMatchIsZero(ws, r.currencyID, r.networkID, r.walletIndex);
      }
      AddressStaysUniqueIff(ws[p], r.a);
      assert AllAddressesUnique(now) <==> AddressesUnique(now[p]);
      assert ws[p] in ws;
      assert IndexesUnique(now);
    }
  }

  lemma {:induction false} NoMatchIsZero(ws: seq<Wallet>, c: int, n: int, i: int)
    requires !HasMatch(ws, c, n, i)
    ensures LastMatch(ws, c, n, i) == 0
  {
    if ws != [] { NoMatchIsZero(ws[..|ws| - 1], c, n, i); }
  }

  lemma AddressStaysUniqueIff(w: Wallet, a: Address)
    requires AddressesUnique(w)
    ensures AddressesUnique(WithAddress(w, a)) <==> !HasAddressIndex(w, a.addressIndex)
  {
    var v := WithAddress(w, a);
    if HasAddressIndex(w, a.addressIndex) {
      var i :| 0 <= i < |w.addresses| && w.addresses[i].addressIndex == a.addressIndex;
      assert v.addresses[i].addressIndex == v.addresses[|w.addresses|].addressIndex;
    }
  }

  lemma UpdatesGrow(ws: seq<Wallet>, r: Request)
    requires r.AddAddress? || r.Delete?
    ensures Grows(ws, Serve(ws, r))
  {
  }

  lemma DeleteKeepsTable(ws: seq<Wallet>, r: Request)
    requires r.Delete? && TableOk(ws)
    ensures TableOk(Serve(ws, r))
  {
  }

  lemma ServeKeepsTableIff(ws: seq<Wallet>, r: Request)
    ensures Grows(ws, Serve(ws, r))
    ensures TableOk(ws) ==> (TableOk(Serve(ws, r)) <==> !Clashes(ws, r))
  {
    match r
    case Add(wp, history) => CreatedKeepsTable(ws, wp, false);
    case DiscoverAll(c, n, ds) => DiscoverKeepsTable(ws, c, n, ds);
    case AddAddress(_, _, _, _) =>
      UpdatesGrow(ws, r);
      if TableOk(ws) { AddAddressKeepsTableIff(ws, r); }
    case Delete(_, _, _) =>
      UpdatesGrow(ws, r);
      if TableOk(ws) { DeleteKeepsTable(ws, r); }
  }

  // ---------------------------------------------------------------- every run

  lemma TableWasOk(was: seq<Wallet>, now: seq<Wallet>)
    requires Grows(was, now) && TableOk(now)
    ensures TableOk(was)
  {
    forall i {:trigger was[i]} | 0 <= i < |was| ensures AddressesUnique(was[i]) {
      assert SameWallet(was[i], now[i]) && AddressesUnique(now[i]);
    }
    forall i, j | 0 <= i < j < |was| && !was[i].isImported && !was[j].isImported
      ensures !Matches(was[i], was[j].currencyID, was[j].networkID, was[j].walletIndex)
    {
      assert SameWallet(was[i], now[i]) && SameWallet(was[j], now[j]);
    }
  }

  predicate ClashAt(ws: seq<Wallet>, rs: seq<Request>, k: nat)
    requires k < |rs|
  {
    Clashes(Serving(ws, rs[..k]), rs[k])
  }

  /** Over every run wallets only grow. */
  lemma {:induction false} RunGrows(ws: seq<Wallet>, rs: seq<Request>)
    ensures Grows(ws, Serving(ws, rs))
  {
    if rs != [] {
      var last := |rs| - 1;
      var before := Serving(ws, rs[..last]);
      RunGrows(ws, rs[..last]);
      ServeKeepsTableIff(before, rs[last]);
      GrowsTransitive(ws, before, Serving(ws, rs));
    }
  }

  /** Over every run the table is in order at the end exactly when no request clashed. */
  lemma {:induction false} RunKeepsTableIff(ws: seq<Wallet>, rs: seq<Request>)
    requires TableOk(ws)
    ensures TableOk(Serving(ws, rs)) <==> NoClash(ws, rs)
  {
    if rs != [] {
      var last := |rs| - 1;
      var before, after := Serving(ws, rs[..last]), Serving(ws, rs);
      RunKeepsTableIff(ws, rs[..last]);
      NoClashSplits(ws, rs);
      ServeKeepsTableIff(before, rs[last]);
      if TableOk(after) { TableWasOk(before, after); }
    }
  }

  ghost predicate NoClash(ws: seq<Wallet>, rs: seq<Request>) {
    forall k :: 0 <= k < |rs| ==> !ClashAt(ws, rs, k)
  }

  lemma NoClashSplits(ws: seq<Wallet>, rs: seq<Request>)
    requires rs != []
    ensures NoClash(ws, rs) <==> NoClash(ws, rs[..|rs| - 1]) && !Clashes(Serving(ws, rs[..|rs| - 1]), rs[|rs| - 1])
  {
    var last := |rs| - 1;
    var init := rs[..last];
    assert forall k :: 0 <= k < last ==> init[..k] == rs[..k];
    assert forall k :: 0 <= k < last ==> ClashAt(ws, init, k) == ClashAt(ws, rs, k);
    assert ClashAt(ws, rs, last) == Clashes(Serving(ws, init), rs[last]);
    if NoClash(ws, init) && !Clashes(Serving(ws, init), rs[last]) {
      forall k | 0 <= k < |rs| ensures !ClashAt(ws, rs, k) {
        if k < last { assert !ClashAt(ws, init, k); }
      }
    }
    if NoClash(ws, rs) {
      forall k | 0 <= k < |init| ensures !ClashAt(ws, init, k) { assert !ClashAt(ws, rs, k); }
    }
  }

  /** The update reaches a wallet with the given currency, network and index exactly when there is one; else
      a request that passes the selector changes the first wallet. */
  lemma DeleteReachesMatchIff(ws: seq<Wallet>, c: int, n: int, i: int)
    requires Deleted(ws, c, n, i).Done?
    ensures Position(ws, c, n, i) < |ws|
    ensures Matches(ws[Position(ws, c, n, i)], c, n, i) <==> HasMatch(ws, c, n, i)
    ensures Misdirected(ws, c, n, i) <==> !HasMatch(ws, c, n, i)
    ensures Misdirected(ws, c, n, i) ==> Deleted(ws, c, n, i) == Done(MarkedAt(ws, 0))
  {
    if HasMatch(ws, c, n, i) {
      var k :| 0 <= k < |ws| && Matches(ws[k], c, n, i);
    }
  }

  lemma AddAddressReachesMatchIff(ws: seq<Wallet>, c: int, n: int, i: int, a: Address)
    requires AddressAdded(ws, c, n, i, a).Done?
    ensures LastMatch(ws, c, n, i) < |ws|
    ensures Matches(ws[LastMatch(ws, c, n, i)], c, n, i) <==> HasMatch(ws, c, n, i)
    ensures AddressAdded(ws, c, n, i, a).wallets[LastMatch(ws, c, n, i)].addresses
            == ws[LastMatch(ws, c, n, i)].addresses + [a]
  {
    var p := LastMatch(ws, c, n, i);
    assert ws[p] in ws;
  }

  // ---------------------------------------------------------------- discovering again

  /** After a discovery every index in it has a wallet. */
  lemma {:induction false} DiscoverCovers(ws: seq<Wallet>, c: int, n: int, ds: seq<Discovered>)
    ensures forall d :: d in ds ==> HasMatch(Discover(ws, c, n, ds), c, n, d.walletIndex)
  {
    if ds != [] {
      var last := |ds| - 1;
      var before, after := Discover(ws, c, n, ds[..last]), Discover(ws, c, n, ds);
      DiscoverCovers(ws, c, n, ds[..last]);
      assert ds == ds[..last] + [ds[last]];
      var o := Created(before, ParamsOf(c, n, ds[last]), ds[last].isEmpty);
      if o.Done? { assert after[|before|] in after && Matches(after[|before|], c, n, ds[last].walletIndex); }
      assert forall w :: w in before ==> w in after;
      forall d | d in ds ensures HasMatch(after, c, n, d.walletIndex) {
        if d in ds[..last] { assert HasMatch(before, c, n, d.walletIndex); }
      }
    }
  }

  lemma {:induction false} DiscoverNothingNew(ws: seq<Wallet>, c: int, n: int, ds: seq<Discovered>)
    requires forall d :: d in ds ==> HasMatch(ws, c, n, d.walletIndex)
    ensures Discover(ws, c, n, ds) == ws
  {
    if ds != [] {
      var last := |ds| - 1;
      assert ds == ds[..last] + [ds[last]];
      DiscoverNothingNew(ws, c, n, ds[..last]);
    }
  }

  /** Discovering is idempotent: a second discovery of indexes that the first one had changes nothing, even
      with other names and addresses and other answers about emptiness. */
  lemma DiscoverIsIdempotent(ws: seq<Wallet>, c: int, n: int, ds: seq<Discovered>, again: seq<Discovered>)
    requires forall d :: d in again ==> exists e :: e in ds && e.walletIndex == d.walletIndex
    ensures Discover(Discover(ws, c, n, ds), c, n, again) == Discover(ws, c, n, ds)
  {
    DiscoverCovers(ws, c, n, ds);
    DiscoverNothingNew(Discover(ws, c, n, ds), c, n, again);
  }

  // ---------------------------------------------------------------- importing again

  /** Importing an address a second time is refused for certain exactly when the address is lower case:
      it is stored in lower case and compared as it comes. */
  lemma ImportTwice(ws: seq<Wallet>, wp: WalletParams)
    requires wp.isImported && Created(ws, wp, false).Done?
    ensures Created(Created(ws, wp, false).wallets, wp, false) == Failed(KnownAddress) <==>
              Lower(wp.address) == wp.address
  {
    var now := Created(ws, wp, false).wallets;
    var w := now[|ws|];
    assert w in now && w.addresses[0].address == Lower(wp.address);
  }

  // ---------------------------------------------------------------- the limit

  lemma {:induction false} CountAppend(ws: seq<Wallet>, w: Wallet, c: int, n: int)
    ensures Count(ws + [w], c, n) == Count(ws, c, n) + if w.currencyID == c && w.networkID == n then 1 else 0
  {
    assert (ws + [w])[..|ws|] == ws;
  }

  lemma {:induction false} CountUpdate(ws: seq<Wallet>, p: nat, w: Wallet, c: int, n: int)
    requires p < |ws| && w.currencyID == ws[p].currencyID && w.networkID == ws[p].networkID
    ensures Count(ws[p := w], c, n) == Count(ws, c, n)
  {
    var last := |ws| - 1;
    if p < last {
      CountUpdate(ws[..last], p, w, c, n);
      assert ws[p := w][..last] == ws[..last][p := w];
    } else {
      assert ws[p := w][..last] == ws[..last];
    }
  }

  /** A run without discoveries, by a user who never has a history in the network. */
  predicate OnlyAdds(rs: seq<Request>, c: int, n: int) {
    forall k {:trigger rs[k]} :: 0 <= k < |rs| ==>
      !rs[k].DiscoverAll? && (rs[k].Add? ==> Network(c, n) !in rs[k].history)
  }

  /** Such a run does not bring the number of wallets of a currency and network above the limit. */
  lemma {:induction false} LimitHolds(ws: seq<Wallet>, rs: seq<Request>, c: int, n: int)
    requires c in {ETHER, BITCOIN} && OnlyAdds(rs, c, n)
    requires Count(ws, c, n) <= MAXIMUM_AVAILABLE_EMPTY_WALLETS
    ensures Count(Serving(ws, rs), c, n) <= MAXIMUM_AVAILABLE_EMPTY_WALLETS
  {
    if rs != [] {
      var last := |rs| - 1;
      LimitHolds(ws, rs[..last], c, n);
      LimitHoldsOnce(Serving(ws, rs[..last]), rs[last], c, n);
    }
  }

  lemma LimitHoldsOnce(ws: seq<Wallet>, r: Request, c: int, n: int)
    requires c in {ETHER, BITCOIN} && !r.DiscoverAll? && (r.Add? ==> Network(c, n) !in r.history)
    requires Count(ws, c, n) <= MAXIMUM_AVAILABLE_EMPTY_WALLETS
    ensures Count(Serve(ws, r), c, n) <= MAXIMUM_AVAILABLE_EMPTY_WALLETS
  {
    match r
    case Add(wp, history) => AddWithinLimit(ws, wp, history, c, n);
    case AddAddress(c', n', i, a) =>
      var p := LastMatch(ws, c', n', i);
      if AddressAdded(ws, c', n', i, a).Done? { CountUpdate(ws, p, WithAddress(ws[p], a), c, n); }
    case Delete(c', n', i) =>
      var p := Position(ws, c', n', i);
      if Deleted(ws, c', n', i).Done? { CountUpdate(ws, p, ws[p].(status := StatusDeleted), c, n); }
  }

  lemma AddWithinLimit(ws: seq<Wallet>, wp: WalletParams, history: set<Network>, c: int, n: int)
    requires c in {ETHER, BITCOIN} && Network(c, n) !in history
    requires Count(ws, c, n) <= MAXIMUM_AVAILABLE_EMPTY_WALLETS
    ensures Count(Serve(ws, Request.Add(wp, history)), c, n) <= MAXIMUM_AVAILABLE_EMPTY_WALLETS
  {
    var o := Added(ws, wp, history);
    if o.Done? { CountAppend(ws, o.wallets[|ws|], c, n); }
  }

  /** Discovering has no limit: every index that had no wallet adds one. */
  lemma {:induction false} DiscoverIgnoresLimit(ws: seq<Wallet>, c: int, n: int, ds: seq<Discovered>)
    requires forall d :: d in ds ==> !HasMatch(ws, c, n, d.walletIndex)
    requires forall i, j :: 0 <= i < j < |ds| ==> ds[i].walletIndex != ds[j].walletIndex
    ensures Count(Discover(ws, c, n, ds), c, n) == Count(ws, c, n) + |ds|
    ensures forall i :: HasMatch(Discover(ws, c, n, ds), c, n, i) ==>
              HasMatch(ws, c, n, i) || exists d :: d in ds && d.walletIndex == i
  {
    if ds != [] {
      var last := |ds| - 1;
      var init, d := ds[..last], ds[last];
      assert ds == init + [d];
      DiscoverIgnoresLimit(ws, c, n, init);
      var before := Discover(ws, c, n, init);
      var o := Created(before, ParamsOf(c, n, d), d.isEmpty);
      assert o.Done? && Discover(ws, c, n, ds) == o.wallets;
      CountAppend(before, o.wallets[|before|], c, n);
    }
  }

  // ---------------------------------------------------------------- the balance gate

  lemma {:induction false} AddressesBalanceZero(addresses: seq<Address>, outs: seq<SpOut>)
    requires forall o :: o in outs ==> o.amount >= 0
    ensures AddressesBalance(addresses, outs) >= 0
    ensures AddressesBalance(addresses, outs) == 0 <==> NothingLeftOn(addresses, outs)
  {
    if addresses != [] {
      var last := |addresses| - 1;
      assert addresses == addresses[..last] + [addresses[last]];
      AddressesBalanceZero(addresses[..last], outs);
      OutputTheorems.BalanceNonNegative(outs, addresses[last].address);
    }
  }

  /** Every spendable output on the addresses has the amount zero. */
  ghost predicate NothingLeftOn(addresses: seq<Address>, outs: seq<SpOut>) {
    forall a, o :: a in addresses && o in outs && o.key.address == a.address ==> o.amount == 0
  }

  lemma {:induction false} TotalBalanceZero(ws: seq<Wallet>, i: int, outs: seq<SpOut>)
    requires forall o :: o in outs ==> o.amount >= 0
    ensures TotalBalance(ws, i, outs) >= 0
    ensures TotalBalance(ws, i, outs) == 0 <==>
              forall w :: w in ws && w.walletIndex == i ==> NothingLeftOn(w.addresses, outs)
  {
    if ws != [] {
      var last := |ws| - 1;
      assert ws == ws[..last] + [ws[last]];
      TotalBalanceZero(ws[..last], i, outs);
      AddressesBalanceZero(ws[last].addresses, outs);
    }
  }

  /** The outputs that the request for a network looks at. */
  function OutputsOf(networkID: int, main: seq<SpOut>, test: seq<SpOut>): seq<SpOut> {
    if networkID == BTC_MAIN then main else test
  }

  /** A Bitcoin wallet that exists is marked exactly when every spendable output on the addresses of the
      wallets with its index is zero, if amounts are not negative and do not wrap 64 bits; then the wallet
      that is marked is the one asked for, and nothing is left on its addresses. */
  lemma BitcoinDeletedIff(ws: seq<Wallet>, i: int, n: int, main: seq<SpOut>, test: seq<SpOut>)
    requires n in {BTC_MAIN, BTC_TEST} && HasMatch(ws, BITCOIN, n, i)
    requires forall o :: o in OutputsOf(n, main, test) ==> o.amount >= 0
    requires TotalBalance(ws, i, OutputsOf(n, main, test)) < 0x1_0000_0000_0000_0000
    ensures BitcoinDeleted(ws, i, n, main, test).Done? <==>
            forall w :: w in ws && w.walletIndex == i ==> NothingLeftOn(w.addresses, OutputsOf(n, main, test))
    ensures BitcoinDeleted(ws, i, n, main, test).Done? ==>
              var p := Position(ws, BITCOIN, n, i);
              p < |ws| && Matches(ws[p], BITCOIN, n, i)
                && BitcoinDeleted(ws, i, n, main, test).wallets == MarkedAt(ws, p)
              && NothingLeftOn(ws[p].addresses, OutputsOf(n, main, test))
  {
    var outs := OutputsOf(n, main, test);
    TotalBalanceZero(ws, i, outs);
    assert BalanceSeen(ws, i, n, main, test) == Signed64(TotalBalance(ws, i, outs));
    assert Selected(ws, BITCOIN, n, i);
    DeleteReachesMatchIff(ws, BITCOIN, n, i);
    assert ws[Position(ws, BITCOIN, n, i)] in ws;
  }

  /** For every accepted request under the same assumptions on amounts: nothing is left on the wallet that is
      marked exactly when some wallet has the currency, network and index together, or nothing is left on the
      first wallet, which is marked by mistake otherwise. */
  lemma MarkedIsEmptyIff(ws: seq<Wallet>, i: int, n: int, main: seq<SpOut>, test: seq<SpOut>)
    requires n in {BTC_MAIN, BTC_TEST} && BitcoinDeleted(ws, i, n, main, test).Done?
    requires forall o :: o in OutputsOf(n, main, test) ==> o.amount >= 0
    requires TotalBalance(ws, i, OutputsOf(n, main, test)) < 0x1_0000_0000_0000_0000
    ensures Position(ws, BITCOIN, n, i) < |ws|
    ensures BitcoinDeleted(ws, i, n, main, test) == Done(MarkedAt(ws, Position(ws, BITCOIN, n, i)))
    ensures NothingLeftOn(ws[Position(ws, BITCOIN, n, i)].addresses, OutputsOf(n, main, test)) <==>
            HasMatch(ws, BITCOIN, n, i) || NothingLeftOn(ws[0].addresses, OutputsOf(n, main, test))
  {
    DeleteReachesMatchIff(ws, BITCOIN, n, i);
    if HasMatch(ws, BITCOIN, n, i) {
      BitcoinDeletedIff(ws, i, n, main, test);
    } else {
      assert Position(ws, BITCOIN, n, i) == 0;
    }
  }

  /** When no wallet has the currency, network and index together, a wallet with money can be marked. */
  lemma MisdirectedDeleteMarksWalletWithMoney(rich: Wallet, other: Wallet, out: SpOut)
    requires rich.currencyID == BITCOIN && rich.networkID == BTC_MAIN && rich.walletIndex == 1
    requires rich.addresses == [Address(out.key.address, 0)] && out.amount > 0
    requires other.currencyID == ETHER && other.walletIndex == 0 && other.addresses == []
    ensures NothingLeftOn(rich.addresses, [out]) == false
    ensures BitcoinDeleted([rich, other], 0, BTC_MAIN, [out], []) == Done(MarkedAt([rich, other], 0))
  {
    var ws := [rich, other];
    assert ws[0] in ws && ws[1] in ws;
    assert ws[..1] == [rich] && [rich][..0] == [];
    assert TotalBalance([rich], 0, [out]) == 0;
    assert TotalBalance(ws, 0, [out]) == 0;
    assert out in [out] && rich.addresses[0] in rich.addresses;
    assert !HasMatch(ws, BITCOIN, BTC_MAIN, 0);
  }
}
