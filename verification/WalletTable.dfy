/** The wallets of the users: creating, discovering, importing, adding addresses, and marking as deleted.
    Updates select a user by field values and then write at a position that was computed before. */
module WalletTable {
  import opened Schemas
  import opened MachineIntegers
  import opened SpendableOutputs

  const MAXIMUM_AVAILABLE_EMPTY_WALLETS := 20

  datatype WalletParams = WalletParams(
    currencyID: int,
    networkID: int,
    walletIndex: int,
    addressIndex: int,
    address: string,
    walletName: string,
    isImported: bool)

  /** One address of a discovery, with the answer of the node whether it is empty. */
  datatype Discovered = Discovered(walletIndex: int, walletName: string, addressIndex: int, address: string,
                                   isEmpty: bool)

  datatype WalletError = UserNotFound | WalletIndexTaken | KnownAddress | BadAddress | AddressIndexTaken | NoSuchWallet
                       | LimitReached | NonZeroBalance

  datatype Outcome = Done(wallets: seq<Wallet>) | Failed(error: WalletError)

  /** The networks in which a user has transactions. */
  datatype Network = Network(currencyID: int, networkID: int)

  // ---------------------------------------------------------------- one user's wallets, as values

  predicate Matches(w: Wallet, currencyID: int, networkID: int, walletIndex: int) {
    w.currencyID == currencyID && w.networkID == networkID && w.walletIndex == walletIndex
  }

  predicate HasMatch(ws: seq<Wallet>, currencyID: int, networkID: int, walletIndex: int) {
    exists w :: w in ws && Matches(w, currencyID, networkID, walletIndex)
  }

  /** What a selector on three fields of an array of wallets asks for: every value occurs in some wallet. */
  predicate Selected(ws: seq<Wallet>, currencyID: int, networkID: int, walletIndex: int) {
    && (exists w :: w in ws && w.currencyID == currencyID)
    && (exists w :: w in ws && w.networkID == networkID)
    && (exists w :: w in ws && w.walletIndex == walletIndex)
  }

  function FirstMatch(ws: seq<Wallet>, currencyID: int, networkID: int, walletIndex: int): (i: nat)
    ensures i <= |ws|
    ensures i < |ws| ==> Matches(ws[i], currencyID, networkID, walletIndex)
    ensures forall k :: 0 <= k < i ==> !Matches(ws[k], currencyID, networkID, walletIndex)
  {
    if ws == [] || Matches(ws[0], currencyID, networkID, walletIndex) then 0
    else 1 + FirstMatch(ws[1..], currencyID, networkID, walletIndex)
  }

  /** The last match, or 0 when there is none. */
  function LastMatch(ws: seq<Wallet>, currencyID: int, networkID: int, walletIndex: int): (i: nat)
    ensures i < |ws| || i == 0
    ensures HasMatch(ws, currencyID, networkID, walletIndex) ==>
              i < |ws| && Matches(ws[i], currencyID, networkID, walletIndex)
    ensures forall k :: i < k < |ws| ==> !Matches(ws[k], currencyID, networkID, walletIndex)
  {
    if ws == [] then 0
    else
      var last := |ws| - 1;
      assert ws == ws[..last] + [ws[last]];
      if Matches(ws[last], currencyID, networkID, walletIndex) then last
      else LastMatch(ws[..last], currencyID, networkID, walletIndex)
  }

  predicate HasAddressIndex(w: Wallet, addressIndex: int) {
    exists a :: a in w.addresses && a.addressIndex == addressIndex
  }

  function NewWallet(wp: WalletParams, address: string, addressIndex: int, walletIndex: int,
                     status: WalletStatus): Wallet {
    Wallet(wp.currencyID, wp.networkID, walletIndex, wp.walletName, [Address(address, addressIndex)], status,
           wp.isImported)
  }

  predicate Imported(ws: seq<Wallet>, wp: WalletParams) {
    exists w :: w in ws && |w.addresses| > 0 && w.currencyID == wp.currencyID && w.networkID == wp.networkID
                && w.addresses[0].address == wp.address
  }

  function Created(ws: seq<Wallet>, wp: WalletParams, isEmpty: bool): Outcome {
    if !wp.isImported then
      if HasMatch(ws, wp.currencyID, wp.networkID, wp.walletIndex) then Failed(WalletIndexTaken)
      else
        var address := if wp.currencyID == ETHER then Lower(wp.address) else wp.address;
        var status := if isEmpty then StatusDeleted else StatusOk;
        Done(ws + [NewWallet(wp, address, wp.addressIndex, wp.walletIndex, status)])
    else if Imported(ws, wp) then Failed(KnownAddress)
    else if |wp.address| < 2 then Failed(BadAddress)
    else Done(ws + [NewWallet(wp, Lower(wp.address), 0, -1, StatusOk)])
  }

  function Count(ws: seq<Wallet>, currencyID: int, networkID: int): nat {
    if ws == [] then 0
    else
      var last := ws[|ws| - 1];
      Count(ws[..|ws| - 1], currencyID, networkID)
      + if last.currencyID == currencyID && last.networkID == networkID then 1 else 0
  }

  /** Only Ether and Bitcoin have a limit; a history in one of the four known networks lifts it. */
  predicate MayAdd(ws: seq<Wallet>, currencyID: int, networkID: int, history: set<Network>) {
    || Count(ws, currencyID, networkID) < MAXIMUM_AVAILABLE_EMPTY_WALLETS
    || currencyID !in {ETHER, BITCOIN}
    || (currencyID == ETHER && networkID in {ETH_MAIN, ETH_TEST} && Network(currencyID, networkID) in history)
    || (currencyID == BITCOIN && networkID in {BTC_MAIN, BTC_TEST} && Network(currencyID, networkID) in history)
  }

  function Added(ws: seq<Wallet>, wp: WalletParams, history: set<Network>): Outcome {
    if MayAdd(ws, wp.currencyID, wp.networkID, history) then Created(ws, wp, false) else Failed(LimitReached)
  }

  function ParamsOf(currencyID: int, networkID: int, d: Discovered): WalletParams {
    WalletParams(currencyID, networkID, d.walletIndex, d.addressIndex, d.address, d.walletName, false)
  }

  function Discover(ws: seq<Wallet>, currencyID: int, networkID: int, ds: seq<Discovered>): seq<Wallet> {
    if ds == [] then ws
    else
      var before := Discover(ws, currencyID, networkID, ds[..|ds| - 1]);
      var last := ds[|ds| - 1];
      match Created(before, ParamsOf(currencyID, networkID, last), last.isEmpty)
      case Done(after) => after
      case Failed(_) => before
  }

  function WithAddress(w: Wallet, a: Address): Wallet { w.(addresses := w.addresses + [a]) }

  predicate AddressTaken(ws: seq<Wallet>, currencyID: int, networkID: int, walletIndex: int, addressIndex: int) {
    exists w :: w in ws && Matches(w, currencyID, networkID, walletIndex) && HasAddressIndex(w, addressIndex)
  }

  lemma AddressTakenNext(ws: seq<Wallet>, i: nat, currencyID: int, networkID: int, walletIndex: int, addressIndex: int)
    requires i < |ws|
    ensures AddressTaken(ws[..i + 1], currencyID, networkID, walletIndex, addressIndex) <==>
            AddressTaken(ws[..i], currencyID, networkID, walletIndex, addressIndex)
            || (Matches(ws[i], currencyID, networkID, walletIndex) && HasAddressIndex(ws[i], addressIndex))
    ensures AddressTaken(ws[..i + 1], currencyID, networkID, walletIndex, addressIndex) ==>
              AddressTaken(ws, currencyID, networkID, walletIndex, addressIndex)
  {
    assert ws[..i + 1] == ws[..i] + [ws[i]];
    assert forall w :: w in ws[..i + 1] ==> w in ws;
  }

  function AddressAdded(ws: seq<Wallet>, currencyID: int, networkID: int, walletIndex: int, a: Address): Outcome {
    if AddressTaken(ws, currencyID, networkID, walletIndex, a.addressIndex) then Failed(AddressIndexTaken)
    else if !Selected(ws, currencyID, networkID, walletIndex) then Failed(NoSuchWallet)
    else
      var position := LastMatch(ws, currencyID, networkID, walletIndex);
      Done(ws[position := WithAddress(ws[position], a)])
  }

  function MarkedAt(ws: seq<Wallet>, i: nat): seq<Wallet>
    requires i < |ws|
  {
    ws[i := ws[i].(status := StatusDeleted)]
  }

  /** The first match, or 0 when there is none. */
  function Position(ws: seq<Wallet>, currencyID: int, networkID: int, walletIndex: int): (i: nat)
    ensures i < |ws| || i == 0
  {
    var i := FirstMatch(ws, currencyID, networkID, walletIndex);
    if i < |ws| then i else 0
  }

  function Deleted(ws: seq<Wallet>, currencyID: int, networkID: int, walletIndex: int): Outcome {
    if !Selected(ws, currencyID, networkID, walletIndex) then Failed(NoSuchWallet)
    else Done(MarkedAt(ws, Position(ws, currencyID, networkID, walletIndex)))
  }

  /** What is left on the addresses of all wallets with an index, whatever their currency or network is. */
  function TotalBalance(ws: seq<Wallet>, walletIndex: int, outs: seq<SpOut>): int {
    if ws == [] then 0
    else
      var last := ws[|ws| - 1];
      TotalBalance(ws[..|ws| - 1], walletIndex, outs)
      + if last.walletIndex == walletIndex then AddressesBalance(last.addresses, outs) else 0
  }

  function AddressesBalance(addresses: seq<Address>, outs: seq<SpOut>): int {
    if addresses == [] then 0
    else AddressesBalance(addresses[..|addresses| - 1], outs) + Balance(outs, addresses[|addresses| - 1].address)
  }

  // ---------------------------------------------------------------- the code

  function WalletsOf(users: map<string, seq<Wallet>>, user: Option<string>): seq<Wallet> {
    if user.None? || user.value !in users then [] else users[user.value]
  }

  /** What a request does to the user of a session: `after` is the outcome for his wallets. Other users keep
      theirs, and a request that fails changes nothing. */
  ghost predicate Stored(was: map<string, seq<Wallet>>, now: map<string, seq<Wallet>>, user: Option<string>,
                         after: Outcome, error: Option<WalletError>) {
    if user.None? || user.value !in was then now == was && error == Some(UserNotFound)
    else
      match after
      case Failed(e) => now == was && error == Some(e)
      case Done(ws) => now == was[user.value := ws] && error == None
  }

  class WalletServer {
    var users: map<string, seq<Wallet>>       // user id to wallets
    var sessions: map<string, string>         // token to user id
    var histories: map<string, set<Network>>  // user id to the networks with transactions

    constructor ()
      ensures users == map[] && sessions == map[] && histories == map[]
    {
      users, sessions, histories := map[], map[], map[];
    }

    function User(token: string): Option<string>
      reads this
    {
      if token in sessions then Some(sessions[token]) else None
    }

    function HistoryOf(token: string): set<Network>
      reads this
    {
      if User(token).Some? && User(token).value in histories then histories[User(token).value] else {}
    }

    method FindUser(token: string) returns (user: Option<string>)
      ensures user == if token in sessions && sessions[token] in users then Some(sessions[token]) else None
    {
      if token in sessions && sessions[token] in users { return Some(sessions[token]); }
      return None;
    }

    method CreateCustomWallet(wp: WalletParams, token: string, isEmpty: bool) returns (error: Option<WalletError>)
      modifies this`users
      ensures Stored(old(users), users, User(token), Created(WalletsOf(old(users), User(token)), wp, isEmpty), error)
    {
      var user := FindUser(token);
      if user.None? { return Some(UserNotFound); }
      var ws := users[user.value];
      var wallet;
      if !wp.isImported {
        for i := 0 to |ws|
          invariant forall k :: 0 <= k < i ==> !Matches(ws[k], wp.currencyID, wp.networkID, wp.walletIndex)
        {
          if ws[i].currencyID == wp.currencyID && ws[i].networkID == wp.networkID
            && ws[i].walletIndex == wp.walletIndex {
            assert ws[i] in ws;
            return Some(WalletIndexTaken);
          }
        }
        var address := wp.address;
        if wp.currencyID == ETHER { address := Lower(address); }
        var walletStatus := StatusOk;
        if isEmpty { walletStatus := StatusDeleted; }
        wallet := NewWallet(wp, address, wp.addressIndex, wp.walletIndex, walletStatus);
      } else {
        for i := 0 to |ws|
          invariant !Imported(ws[..i], wp)
        {
          assert ws[..i + 1] == ws[..i] + [ws[i]];
          if |ws[i].addresses| > 0 {
            if ws[i].currencyID == wp.currencyID && ws[i].networkID == wp.networkID
               && ws[i].addresses[0].address == wp.address {
              assert ws[i] in ws;
              return Some(KnownAddress);
            }
          }
        }
        assert ws[..|ws|] == ws;
        if |wp.address| < 2 { return Some(BadAddress); }
        wallet := NewWallet(wp, Lower(wp.address), 0, -1, StatusOk);
      }
      users := users[user.value := ws + [wallet]];
      return None;
    }

    method CheckAddWallet(wp: WalletParams, token: string) returns (error: Option<WalletError>)
      ensures error == if User(token).None? || User(token).value !in users then Some(UserNotFound)
                       else if MayAdd(WalletsOf(users, User(token)), wp.currencyID, wp.networkID, HistoryOf(token))
                       then None
                       else Some(LimitReached)
    {
      var user := FindUser(token);
      if user.None? { return Some(UserNotFound); }
      var ws := users[user.value];
      var count := 0;
      for i := 0 to |ws|
        invariant count == Count(ws[..i], wp.currencyID, wp.networkID)
      {
        assert ws[..i + 1][..i] == ws[..i];
        if ws[i].currencyID == wp.currencyID && ws[i].networkID == wp.networkID { count := count + 1; }
      }
      assert ws[..|ws|] == ws;
      if count < MAXIMUM_AVAILABLE_EMPTY_WALLETS { return None; }
      var txs := false;
      if wp.currencyID == ETHER {
        if wp.networkID == ETH_MAIN {
          txs := Network(ETHER, ETH_MAIN) in HistoryOf(token);
        } else if wp.networkID == ETH_TEST {
          txs := Network(ETHER, ETH_TEST) in HistoryOf(token);
        }
        if !txs { return Some(LimitReached); }
      } else if wp.currencyID == BITCOIN {
        if wp.networkID == BTC_MAIN {
          txs := Network(BITCOIN, BTC_MAIN) in HistoryOf(token);
        } else if wp.networkID == BTC_TEST {
          txs := Network(BITCOIN, BTC_TEST) in HistoryOf(token);
        }
        if !txs { return Some(LimitReached); }
      }
      return None;
    }

    /** addWallet for a wallet that is not a multisig. */
    method AddWallet(wp: WalletParams, token: string) returns (error: Option<WalletError>)
      modifies this`users
      ensures Stored(old(users), users, User(token),
                     Added(WalletsOf(old(users), User(token)), wp, HistoryOf(token)), error)
    {
      error := CheckAddWallet(wp, token);
      if error.Some? { return; }
      error := CreateCustomWallet(wp, token, false);
    }

    method DiscoverWallets(currencyID: int, networkID: int, ds: seq<Discovered>, token: string)
      returns (error: Option<WalletError>)
      modifies this`users
      ensures ds != [] ==> Stored(old(users), users, User(token),
                                  Done(Discover(WalletsOf(old(users), User(token)), currencyID, networkID, ds)), error)
      ensures ds == [] ==> users == old(users) && error == None
    {
      ghost var known := User(token).Some? && User(token).value in users;
      for i := 0 to |ds|
        invariant User(token) == old(User(token))
        invariant !known ==> users == old(users) && i == 0
        invariant known && i == 0 ==> users == old(users)
        invariant known ==> users == old(users)[User(token).value :=
          Discover(old(users)[User(token).value], currencyID, networkID, ds[..i])]
      {
        assert ds[..i + 1][..i] == ds[..i];
        var wp := WalletParams(currencyID, networkID, ds[i].walletIndex, ds[i].addressIndex, ds[i].address,
                               ds[i].walletName, false);
        var err := CreateCustomWallet(wp, token, ds[i].isEmpty);
        if err.Some? && err.value != WalletIndexTaken { return err; }
      }
      assert ds[..|ds|] == ds;
      return None;
    }

    method AddAddressToWallet(address: string, token: string, currencyID: int, networkID: int, walletIndex: int,
                              addressIndex: int)
      returns (error: Option<WalletError>)
      modifies this`users
      ensures Stored(old(users), users, User(token),
                     AddressAdded(WalletsOf(old(users), User(token)), currencyID, networkID, walletIndex,
                                  Address(address, addressIndex)), error)
    {
      var user := FindUser(token);
      if user.None? { return Some(UserNotFound); }
      var ws := users[user.value];
      var taken, position := LookForAddress(ws, currencyID, networkID, walletIndex, addressIndex);
      if taken { return Some(AddressIndexTaken); }
      if !Selected(ws, currencyID, networkID, walletIndex) { return Some(NoSuchWallet); }
      users := users[user.value := ws[position := WithAddress(ws[position], Address(address, addressIndex))]];
      return None;
    }

    /** The loop of addAddressToWallet: whether a match has the address index, and else the last match. */
    static method LookForAddress(ws: seq<Wallet>, currencyID: int, networkID: int, walletIndex: int, addressIndex: int)
      returns (taken: bool, position: nat)
      ensures taken <==> AddressTaken(ws, currencyID, networkID, walletIndex, addressIndex)
      ensures !taken ==> position == LastMatch(ws, currencyID, networkID, walletIndex)
    {
      position := 0;
      for i := 0 to |ws|
        invariant position == LastMatch(ws[..i], currencyID, networkID, walletIndex)
        invariant !AddressTaken(ws[..i], currencyID, networkID, walletIndex, addressIndex)
      {
        assert ws[..i + 1][..i] == ws[..i];
        AddressTakenNext(ws, i, currencyID, networkID, walletIndex, addressIndex);
        if ws[i].networkID == networkID && ws[i].currencyID == currencyID && ws[i].walletIndex == walletIndex {
          position := i;
          for j := 0 to |ws[i].addresses|
            invariant forall k :: 0 <= k < j ==> ws[i].addresses[k].addressIndex != addressIndex
          {
            if ws[i].addresses[j].addressIndex == addressIndex {
              assert ws[i].addresses[j] in ws[i].addresses;
              return true, position;
            }
          }
        }
      }
      assert ws[..|ws|] == ws;
      taken := false;
    }

    /** The store's DeleteWallet for wallets that are not imported. */
    method DeleteWallet(userID: string, currencyID: int, networkID: int, walletIndex: int)
      returns (error: Option<WalletError>)
      modifies this`users
      ensures Stored(old(users), users, Some(userID),
                     Deleted(WalletsOf(old(users), Some(userID)), currencyID, networkID, walletIndex), error)
    {
      if userID !in users { return Some(UserNotFound); }
      var ws := users[userID];
      var position := 0;
      for i := 0 to |ws|
        invariant position == 0 && i <= FirstMatch(ws, currencyID, networkID, walletIndex)
      {
        if ws[i].networkID == networkID && ws[i].walletIndex == walletIndex && ws[i].currencyID == currencyID {
          position := i;
          break;
        }
      }
      if !Selected(ws, currencyID, networkID, walletIndex) { return Some(NoSuchWallet); }
      users := users[userID := ws[position := ws[position].(status := StatusDeleted)]];
      return None;
    }

    /** deleteWallet for Bitcoin: the balance decides whether the wallet may be marked. Networks other than
        the two of Bitcoin have no balance to look at. */
    method DeleteBitcoinWallet(token: string, walletIndex: int, networkID: int, main: OutputCollections,
                               test: OutputCollections)
      returns (error: Option<WalletError>)
      modifies this`users
      ensures Stored(old(users), users, User(token),
                     BitcoinDeleted(WalletsOf(old(users), User(token)), walletIndex, networkID,
                                    main.outputs.spendable, test.outputs.spendable), error)
    {
      var user := FindUser(token);
      if user.None? { return Some(UserNotFound); }
      var ws := users[user.value];
      var totalBalance := 0;
      if networkID == BTC_MAIN {
        totalBalance := SumBalances(ws, walletIndex, main);
      }
      if networkID == BTC_TEST {
        totalBalance := SumBalances(ws, walletIndex, test);
      }
      if totalBalance == 0 {
        error := DeleteWallet(user.value, BITCOIN, networkID, walletIndex);
      } else {
        error := Some(NonZeroBalance);
      }
    }

    method SumBalances(ws: seq<Wallet>, walletIndex: int, collections: OutputCollections) returns (totalBalance: int)
      ensures totalBalance == Signed64(TotalBalance(ws, walletIndex, collections.outputs.spendable))
    {
      totalBalance := 0;
      ghost var outs := collections.outputs.spendable;
      for i := 0 to |ws|
        invariant totalBalance == Signed64(TotalBalance(ws[..i], walletIndex, outs))
      {
        assert ws[..i + 1][..i] == ws[..i];
        if ws[i].walletIndex == walletIndex {
          ghost var before := TotalBalance(ws[..i], walletIndex, outs);
          var addresses := ws[i].addresses;
          assert AddressesBalance(addresses[..0], outs) == 0;
          for j := 0 to |addresses|
            invariant totalBalance == Signed64(before + AddressesBalance(addresses[..j], outs))
          {
            assert addresses[..j + 1][..j] == addresses[..j];
            var balance := collections.AddressBalance(addresses[j].address);
            AddSigned64(before + AddressesBalance(addresses[..j], outs), Balance(outs, addresses[j].address));
            totalBalance := Signed64(totalBalance + balance);
          }
          assert addresses[..|addresses|] == addresses;
        }
      }
      assert ws[..|ws|] == ws;
    }
  }

  function BalanceSeen(ws: seq<Wallet>, walletIndex: int, networkID: int, main: seq<SpOut>, test: seq<SpOut>): int {
    if networkID == BTC_MAIN then Signed64(TotalBalance(ws, walletIndex, main))
    else if networkID == BTC_TEST then Signed64(TotalBalance(ws, walletIndex, test))
    else 0
  }

  function BitcoinDeleted(ws: seq<Wallet>, walletIndex: int, networkID: int, main: seq<SpOut>,
                          test: seq<SpOut>): Outcome {
    if BalanceSeen(ws, walletIndex, networkID, main, test) == 0 then Deleted(ws, BITCOIN, networkID, walletIndex)
    else Failed(NonZeroBalance)
  }
}
