/** The stored documents that several components share. Mongo collections are modelled as
    sequences of documents in natural order; every `find one` takes the first match. */
module Schemas {

  datatype Option<+T> = None | Some(value: T)

  // currencies/currencies.go and currencies/subnets.go
  const BITCOIN := 0
  const ETHER := 60
  const BTC_MAIN := 0
  const BTC_TEST := 1
  const ETH_MAIN := 1
  const ETH_TEST := 4

  // store/schemas.go: selectors of the contract calls
  const SUBMIT_TRANSACTION := "0xc6427474"
  const CONFIRM_TRANSACTION := "0xc01a8c84"

  // store/schemas.go: deploy status of a multisig
  const WAITING_FOR_JOIN := 1
  const ALL_JOINED := 2

  datatype WalletStatus = StatusOk | StatusDeleted

  datatype Address = Address(address: string, addressIndex: int)

  datatype Wallet = Wallet(
    currencyID: int,
    networkID: int,
    walletIndex: int,
    walletName: string,
    addresses: seq<Address>,
    status: WalletStatus,
    isImported: bool)

  datatype AddressExtended = AddressExtended(
    userID: string,
    address: string,
    associated: bool,
    creator: bool,
    walletIndex: int,
    addressIndex: int)

  datatype Multisig = Multisig(
    currencyID: int,
    networkID: int,
    confirmations: int,
    walletName: string,
    owners: seq<AddressExtended>,
    deployStatus: int,
    inviteCode: string,
    ownersCount: int)

  datatype User = User(userID: string, wallets: seq<Wallet>, multisigs: seq<Multisig>)

  /** strings.ToLower on ASCII text. */
  function LowerChar(c: char): char {
    if 'A' <= c <= 'Z' then (c as int + 32) as char else c
  }

  function Lower(s: string): (r: string)
    ensures |r| == |s|
    ensures forall i :: 0 <= i < |s| ==> r[i] == LowerChar(s[i])
  {
    seq(|s|, i requires 0 <= i < |s| => LowerChar(s[i]))
  }
}
