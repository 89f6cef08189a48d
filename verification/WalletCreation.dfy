/** What the wallets are that creations, discoveries and updates leave behind, field by field. */
module WalletCreation {
  import opened Schemas
  import opened SpendableOutputs
  import opened WalletTable

  ghost predicate NoneMatches(ws: seq<Wallet>, currencyID: int, networkID: int, walletIndex: int) {
    forall i :: 0 <= i < |ws| ==>
      ws[i].currencyID != currencyID || ws[i].networkID != networkID || ws[i].walletIndex != walletIndex
  }

  lemma NoMatchIff(ws: seq<Wallet>, currencyID: int, networkID: int, walletIndex: int)
    ensures HasMatch(ws, currencyID, networkID, walletIndex) <==> !NoneMatches(ws, currencyID, networkID, walletIndex)
  {
    if !NoneMatches(ws, currencyID, networkID, walletIndex) {
      var i :| 0 <= i < |ws| && Matches(ws[i], currencyID, networkID, walletIndex);
      assert ws[i] in ws;
    }
  }

  /** Another wallet of the currency and network starts with the address. */
  ghost predicate Known(ws: seq<Wallet>, wp: WalletParams) {
    exists i :: 0 <= i < |ws| && ws[i].currencyID == wp.currencyID && ws[i].networkID == wp.networkID
                && |ws[i].addresses| > 0 && ws[i].addresses[0].address == wp.address
  }

  lemma KnownIff(ws: seq<Wallet>, wp: WalletParams)
    ensures Imported(ws, wp) <==> Known(ws, wp)
  {
    if Known(ws, wp) {
      var i :| 0 <= i < |ws| && ws[i].currencyID == wp.currencyID && ws[i].networkID == wp.networkID
        && |ws[i].addresses| > 0 && ws[i].addresses[0].address == wp.address;
      assert ws[i] in ws;
    }
  }

  /** Which creations are accepted, and why others are not: an internal wallet needs a free triple, an imported one
      an address that is not known and not too short. */
  lemma CreatedIff(ws: seq<Wallet>, wp: WalletParams, isEmpty: bool)
    ensures !wp.isImported ==>
              && (Created(ws, wp, isEmpty).Done? <==> NoneMatches(ws, wp.currencyID, wp.networkID, wp.walletIndex))
              && (Created(ws, wp, isEmpty).Failed? ==> Created(ws, wp, isEmpty).error == WalletIndexTaken)
    ensures wp.isImported ==>
              && (Created(ws, wp, isEmpty).Done? <==> !Known(ws, wp) && |wp.address| >= 2)
              && (Created(ws, wp, isEmpty).Failed? ==>
                    Created(ws, wp, isEmpty).error == if Known(ws, wp) then KnownAddress else BadAddress)
  {
    NoMatchIff(ws, wp.currencyID, wp.networkID, wp.walletIndex);
    KnownIff(ws, wp);
  }

  /** The wallet is the one that was sent: an internal one with its indexes, an imported one with wallet index -1 and
      address index 0; the address is in lower case for Ether and for imports. */
  ghost predicate IsWalletOf(w: Wallet, wp: WalletParams) {
    && w.currencyID == wp.currencyID && w.networkID == wp.networkID && w.walletName == wp.walletName
    && w.isImported == wp.isImported
    && w.walletIndex == (if wp.isImported then -1 else wp.walletIndex)
    && |w.addresses| == 1
    && w.addresses[0].addressIndex == (if wp.isImported then 0 else wp.addressIndex)
    && w.addresses[0].address == (if wp.isImported || wp.currencyID == ETHER then Lower(wp.address) else wp.address)
  }

  /** An accepted creation appends one wallet, which is marked exactly when it is internal and called empty. */
  lemma CreatedAppends(ws: seq<Wallet>, wp: WalletParams, isEmpty: bool)
    requires Created(ws, wp, isEmpty).Done?
    ensures var now := Created(ws, wp, isEmpty).wallets;
            && |now| == |ws| + 1 && now[..|ws|] == ws && IsWalletOf(now[|ws|], wp)
            && (now[|ws|].status == StatusDeleted <==> !wp.isImported && isEmpty)
  {
  }

  /** An accepted add appends one wallet that is not marked. */
  lemma AddedAppends(ws: seq<Wallet>, wp: WalletParams, history: set<Network>)
    requires Added(ws, wp, history).Done?
    ensures var now := Added(ws, wp, history).wallets;
            |now| == |ws| + 1 && now[..|ws|] == ws && IsWalletOf(now[|ws|], wp) && now[|ws|].status == StatusOk
  {
    CreatedAppends(ws, wp, false);
  }

  /** Beyond 20 wallets an add is refused exactly for Ether (60) and Bitcoin (0), unless the user has transactions
      in that network and it is one of 1 and 4 for Ether, 0 and 1 for Bitcoin. */
  lemma LimitReachedIff(ws: seq<Wallet>, wp: WalletParams, history: set<Network>)
    ensures Added(ws, wp, history) == Failed(LimitReached) <==>
            && Count(ws, wp.currencyID, wp.networkID) >= 20
            && wp.currencyID in {0, 60}
            && !(Network(wp.currencyID, wp.networkID) in history
                 && wp.networkID in (if wp.currencyID == 60 then {1, 4} else {0, 1}))
  {
  }

  // ---------------------------------------------------------------- discoveries

  /** Entry k of a discovery is the first one with its index, and no wallet had the index before. */
  ghost predicate FirstNew(ws: seq<Wallet>, c: int, n: int, ds: seq<Discovered>, k: nat) {
    && k < |ds| && NoneMatches(ws, c, n, ds[k].walletIndex)
    && forall j :: 0 <= j < k ==> ds[j].walletIndex != ds[k].walletIndex
  }

  /** The wallet of a discovered entry; it is marked exactly when the node called the address empty. */
  ghost predicate IsDiscovered(w: Wallet, c: int, n: int, d: Discovered) {
    && IsWalletOf(w, WalletParams(c, n, d.walletIndex, d.addressIndex, d.address, d.walletName, false))
    && (w.status == StatusDeleted <==> d.isEmpty)
  }

  ghost predicate FromEntry(ws: seq<Wallet>, c: int, n: int, ds: seq<Discovered>, w: Wallet) {
    exists k: nat :: FirstNew(ws, c, n, ds, k) && IsDiscovered(w, c, n, ds[k])
  }

  ghost predicate HasWallet(now: seq<Wallet>, start: nat, c: int, n: int, d: Discovered) {
    exists i :: start <= i < |now| && IsDiscovered(now[i], c, n, d)
  }

  lemma {:induction false} DiscoveredMatches(ws: seq<Wallet>, c: int, n: int, ds: seq<Discovered>, index: int)
    ensures NoneMatches(Discover(ws, c, n, ds), c, n, index) <==>
            NoneMatches(ws, c, n, index) && forall j :: 0 <= j < |ds| ==> ds[j].walletIndex != index
  {
    if ds != [] {
      var m := |ds| - 1;
      var before, after := Discover(ws, c, n, ds[..m]), Discover(ws, c, n, ds);
      DiscoveredMatches(ws, c, n, ds[..m], index);
      NoMatchIff(before, c, n, ds[m].walletIndex);
      var o := Created(before, ParamsOf(c, n, ds[m]), ds[m].isEmpty);
      if o.Done? {
        assert after == before + [after[|before|]] && Matches(after[|before|], c, n, ds[m].walletIndex);
        MatchOfSnoc(before, after[|before|], c, n, index);
      }
      assert (forall j :: 0 <= j < |ds| ==> ds[j].walletIndex != index) <==>
             (forall j :: 0 <= j < m ==> ds[..m][j].walletIndex != index) && ds[m].walletIndex != index;
    }
  }

  lemma MatchOfSnoc(ws: seq<Wallet>, w: Wallet, c: int, n: int, index: int)
    ensures NoneMatches(ws + [w], c, n, index) <==> NoneMatches(ws, c, n, index) && !Matches(w, c, n, index)
  {
    var now := ws + [w];
    assert now[|ws|] == w;
    if NoneMatches(now, c, n, index) {
      forall i | 0 <= i < |ws| ensures !Matches(ws[i], c, n, index) { assert now[i] == ws[i]; }
    }
  }

  /** The last entry is accepted exactly when it is the first one with a new index. */
  lemma LastEntryIsNewIff(ws: seq<Wallet>, c: int, n: int, ds: seq<Discovered>)
    requires ds != []
    ensures var m := |ds| - 1;
            && var o := Created(Discover(ws, c, n, ds[..m]), ParamsOf(c, n, ds[m]), ds[m].isEmpty);
               (FirstNew(ws, c, n, ds, m) <==> o.Done?)
  {
    var m := |ds| - 1;
    DiscoveredMatches(ws, c, n, ds[..m], ds[m].walletIndex);
    CreatedIff(Discover(ws, c, n, ds[..m]), ParamsOf(c, n, ds[m]), ds[m].isEmpty);
    assert forall j :: 0 <= j < m ==> ds[..m][j] == ds[j];
  }

  ghost predicate AppendsAll(ws: seq<Wallet>, c: int, n: int, ds: seq<Discovered>, now: seq<Wallet>) {
    && |now| >= |ws| && now[..|ws|] == ws
    && (forall i :: |ws| <= i < |now| ==> FromEntry(ws, c, n, ds, now[i]))
    && forall k: nat :: FirstNew(ws, c, n, ds, k) ==> HasWallet(now, |ws|, c, n, ds[k])
  }

  lemma OldEntry(ws: seq<Wallet>, c: int, n: int, ds: seq<Discovered>, before: seq<Wallet>)
    requires ds != [] && AppendsAll(ws, c, n, ds[..|ds| - 1], before) && !FirstNew(ws, c, n, ds, |ds| - 1)
    ensures AppendsAll(ws, c, n, ds, before)
  {
    var m := |ds| - 1;
    forall i | |ws| <= i < |before| ensures FromEntry(ws, c, n, ds, before[i]) {
      FromEntryGrows(ws, c, n, ds, before[i]);
    }
    forall k: nat | FirstNew(ws, c, n, ds, k) ensures HasWallet(before, |ws|, c, n, ds[k]) {
      assert k < m && FirstNew(ws, c, n, ds[..m], k) && ds[..m][k] == ds[k];
    }
  }

  lemma NewEntry(ws: seq<Wallet>, c: int, n: int, ds: seq<Discovered>, before: seq<Wallet>, w: Wallet)
    requires ds != [] && AppendsAll(ws, c, n, ds[..|ds| - 1], before) && FirstNew(ws, c, n, ds, |ds| - 1)
    requires IsDiscovered(w, c, n, ds[|ds| - 1])
    ensures AppendsAll(ws, c, n, ds, before + [w])
  {
    var m: nat, after := |ds| - 1, before + [w];
    assert after[..|ws|] == before[..|ws|];
    forall i | |ws| <= i < |after| ensures FromEntry(ws, c, n, ds, after[i]) {
      if i < |before| {
        FromEntryGrows(ws, c, n, ds, before[i]);
      } else {
        assert FirstNew(ws, c, n, ds, m) && IsDiscovered(after[i], c, n, ds[m]);
      }
    }
    forall k: nat | FirstNew(ws, c, n, ds, k) ensures HasWallet(after, |ws|, c, n, ds[k]) {
      if k < m {
        assert FirstNew(ws, c, n, ds[..m], k) && ds[..m][k] == ds[k];
        HasWalletGrows(before, after, |ws|, c, n, ds[k]);
      } else {
        assert IsDiscovered(after[|before|], c, n, ds[k]);
      }
    }
  }

  /** A discovery appends, for every index that had no wallet, the wallet of the first entry with it, and nothing
      else. */
  lemma {:induction false} DiscoverAppends(ws: seq<Wallet>, c: int, n: int, ds: seq<Discovered>)
    ensures AppendsAll(ws, c, n, ds, Discover(ws, c, n, ds))
  {
    if ds != [] {
      var m := |ds| - 1;
      var before := Discover(ws, c, n, ds[..m]);
      DiscoverAppends(ws, c, n, ds[..m]);
      LastEntryIsNewIff(ws, c, n, ds);
      var o := Created(before, ParamsOf(c, n, ds[m]), ds[m].isEmpty);
      if o.Done? {
        CreatedAppends(before, ParamsOf(c, n, ds[m]), ds[m].isEmpty);
        assert o.wallets == before + [o.wallets[|before|]];
        NewEntry(ws, c, n, ds, before, o.wallets[|before|]);
      } else {
        OldEntry(ws, c, n, ds, before);
      }
    }
  }

  lemma FromEntryGrows(ws: seq<Wallet>, c: int, n: int, ds: seq<Discovered>, w: Wallet)
    requires ds != [] && FromEntry(ws, c, n, ds[..|ds| - 1], w)
    ensures FromEntry(ws, c, n, ds, w)
  {
    var init := ds[..|ds| - 1];
    var k: nat :| FirstNew(ws, c, n, init, k) && IsDiscovered(w, c, n, init[k]);
    assert FirstNew(ws, c, n, ds, k) && ds[k] == init[k];
  }

  lemma HasWalletGrows(before: seq<Wallet>, after: seq<Wallet>, start: nat, c: int, n: int, d: Discovered)
    requires HasWallet(before, start, c, n, d) && |before| <= |after| && after[..|before|] == before
    ensures HasWallet(after, start, c, n, d)
  {
    var i :| start <= i < |before| && IsDiscovered(before[i], c, n, d);
    assert after[i] == before[i];
  }

  // ---------------------------------------------------------------- updates

  /** Some wallet has the currency, some the network and some the index. */
  ghost predicate AllOccur(ws: seq<Wallet>, c: int, n: int, index: int) {
    && (exists i :: 0 <= i < |ws| && ws[i].currencyID == c)
    && (exists i :: 0 <= i < |ws| && ws[i].networkID == n)
    && (exists i :: 0 <= i < |ws| && ws[i].walletIndex == index)
  }

  lemma SelectedIff(ws: seq<Wallet>, c: int, n: int, index: int)
    ensures Selected(ws, c, n, index) <==> AllOccur(ws, c, n, index)
  {
    forall i | 0 <= i < |ws| ensures ws[i] in ws {}
  }

  /** A matching wallet has an address with the index. */
  ghost predicate IndexInUse(ws: seq<Wallet>, c: int, n: int, index: int, addressIndex: int) {
    exists i, j :: 0 <= i < |ws| && 0 <= j < |ws[i].addresses| && Matches(ws[i], c, n, index)
                   && ws[i].addresses[j].addressIndex == addressIndex
  }

  lemma TakenIff(ws: seq<Wallet>, c: int, n: int, index: int, addressIndex: int)
    ensures AddressTaken(ws, c, n, index, addressIndex) <==> IndexInUse(ws, c, n, index, addressIndex)
  {
    if IndexInUse(ws, c, n, index, addressIndex) {
      var i, j :| 0 <= i < |ws| && 0 <= j < |ws[i].addresses| && Matches(ws[i], c, n, index)
        && ws[i].addresses[j].addressIndex == addressIndex;
      assert ws[i] in ws && ws[i].addresses[j] in ws[i].addresses;
    }
    if AddressTaken(ws, c, n, index, addressIndex) {
      var w :| w in ws && Matches(w, c, n, index) && HasAddressIndex(w, addressIndex);
      var i :| 0 <= i < |ws| && ws[i] == w;
      var a :| a in w.addresses && a.addressIndex == addressIndex;
      var j :| 0 <= j < |w.addresses| && w.addresses[j] == a;
    }
  }

  /** Which updates are accepted: the three values must occur, if not together, and for an address no matching
      wallet may have its index. */
  lemma UpdateAcceptedIff(ws: seq<Wallet>, c: int, n: int, index: int, a: Address)
    ensures Deleted(ws, c, n, index).Done? <==> AllOccur(ws, c, n, index)
    ensures AddressAdded(ws, c, n, index, a).Done? <==>
            AllOccur(ws, c, n, index) && !IndexInUse(ws, c, n, index, a.addressIndex)
    ensures AddressAdded(ws, c, n, index, a) == Failed(AddressIndexTaken) <==>
            IndexInUse(ws, c, n, index, a.addressIndex)
  {
    SelectedIff(ws, c, n, index);
    TakenIff(ws, c, n, index, a.addressIndex);
  }

  /** An accepted delete marks the wallet at its position and changes nothing else. */
  lemma DeletedMarks(ws: seq<Wallet>, c: int, n: int, index: int, i: nat)
    requires Deleted(ws, c, n, index).Done? && i < |ws|
    ensures var now := Deleted(ws, c, n, index).wallets;
            && |now| == |ws|
            && now[i].addresses == ws[i].addresses && now[i].isImported == ws[i].isImported
            && Matches(now[i], ws[i].currencyID, ws[i].networkID, ws[i].walletIndex)
            && now[i].walletName == ws[i].walletName
            && now[i].status == if i == Position(ws, c, n, index) then StatusDeleted else ws[i].status
  {
  }

  /** An accepted address is appended to one wallet, the last match or the first, and no other wallet changes. */
  lemma AddressAddedAppends(ws: seq<Wallet>, c: int, n: int, index: int, a: Address, i: nat)
    requires AddressAdded(ws, c, n, index, a).Done? && i < |ws|
    ensures var now := AddressAdded(ws, c, n, index, a).wallets;
            && |now| == |ws|
            && now[i].addresses == ws[i].addresses + (if i == LastMatch(ws, c, n, index) then [a] else [])
            && now[i] == ws[i].(addresses := now[i].addresses)
  {
  }

  /** A positive balance that does not wrap keeps a Bitcoin wallet of the two networks from being deleted. */
  lemma MoneyRefusesDelete(ws: seq<Wallet>, index: int, n: int, main: seq<SpOut>, test: seq<SpOut>)
    requires n in {0, 1}
    requires 0 < TotalBalance(ws, index, if n == 0 then main else test) < 0x8000_0000_0000_0000
    ensures BitcoinDeleted(ws, index, n, main, test) == Failed(NonZeroBalance)
  {
  }
}
