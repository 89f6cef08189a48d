/** What an owner entry of a stored copy carries: the tags of the user who holds the copy on his own address, and
    none on the others. */
module OwnerTags {
  import opened Schemas
  import opened Membership
  import opened Roster

  /** Wallet i is the last one whose first address is a. Further addresses of a wallet are not looked at. */
  ghost predicate LastWalletWith(ws: seq<Wallet>, a: string, i: nat) {
    && i < |ws| && StartsWith(ws[i], a)
    && forall k :: i < k < |ws| ==> !StartsWith(ws[k], a)
  }

  ghost predicate StartsWith(w: Wallet, a: string) {
    w.addresses != [] && w.addresses[0].address == a
  }

  ghost predicate NoWalletWith(ws: seq<Wallet>, a: string) {
    forall k :: 0 <= k < |ws| ==> !StartsWith(ws[k], a)
  }

  /** The entry is tagged with the user and his wallet. */
  ghost predicate TaggedWith(o: AddressExtended, userID: string, w: Wallet) {
    && o.userID == userID && o.associated
    && o.walletIndex == w.walletIndex
    && w.addresses != [] && o.address == w.addresses[0].address && o.addressIndex == w.addresses[0].addressIndex
  }

  /** The entry carries no user, and the indexes it came with. */
  ghost predicate Unmarked(o: AddressExtended, from: AddressExtended) {
    o.userID == "" && !o.associated && o.walletIndex == from.walletIndex && o.addressIndex == from.addressIndex
  }

  /** Entry i of the list is the last one with its address. */
  ghost predicate LastEntry(owners: seq<AddressExtended>, i: nat) {
    i < |owners| && forall k :: i < k < |owners| ==> owners[k].address != owners[i].address
  }

  lemma {:induction false} UntaggedEntry(owners: seq<AddressExtended>, i: nat)
    requires LastEntry(owners, i)
    ensures owners[i].address in OwnerMap(owners)
    ensures var o := OwnerMap(owners)[owners[i].address];
            o.address == owners[i].address && o.creator == owners[i].creator && Unmarked(o, owners[i])
  {
    var n := |owners| - 1;
    if i < n {
      assert owners[n].address != owners[i].address;
      UntaggedEntry(owners[..n], i);
    }
  }

  lemma TagOfWallet(m: map<string, AddressExtended>, w: Wallet, userID: string, a: string)
    requires a in m && m[a].address == a
    ensures a in TagWallet(m, w, userID)
    ensures var o := TagWallet(m, w, userID)[a];
            && o.address == a && o.creator == m[a].creator
            && (if StartsWith(w, a) then TaggedWith(o, userID, w) else o == m[a])
  {
  }

  /** What the wallets make of an entry: the last one that starts with its address tags it. */
  ghost predicate Tagged(o: AddressExtended, was: AddressExtended, ws: seq<Wallet>, userID: string) {
    && o.address == was.address && o.creator == was.creator
    && (NoWalletWith(ws, was.address) ==> o == was)
    && forall i: nat :: LastWalletWith(ws, was.address, i) ==> TaggedWith(o, userID, ws[i])
  }

  lemma TaggedByLast(o: AddressExtended, was: AddressExtended, ws: seq<Wallet>, userID: string)
    requires o.address == was.address && o.creator == was.creator
    requires ws != [] && StartsWith(ws[|ws| - 1], was.address) && TaggedWith(o, userID, ws[|ws| - 1])
    ensures Tagged(o, was, ws, userID)
  {
    forall i: nat | LastWalletWith(ws, was.address, i) ensures i == |ws| - 1 {}
  }

  lemma NotTaggedByLast(o: AddressExtended, was: AddressExtended, ws: seq<Wallet>, userID: string)
    requires ws != [] && !StartsWith(ws[|ws| - 1], was.address) && Tagged(o, was, ws[..|ws| - 1], userID)
    ensures Tagged(o, was, ws, userID)
  {
    var init := ws[..|ws| - 1];
    forall i: nat | LastWalletWith(ws, was.address, i)
      ensures LastWalletWith(init, was.address, i) && init[i] == ws[i]
    {
      assert i < |init|;
    }
    if NoWalletWith(ws, was.address) {
      forall k | 0 <= k < |init| ensures !StartsWith(init[k], was.address) { assert init[k] == ws[k]; }
    }
  }

  lemma {:induction false} TagsOfWallets(m: map<string, AddressExtended>, ws: seq<Wallet>, userID: string, a: string)
    requires a in m && m[a].address == a
    ensures a in TagWallets(m, ws, userID)
    ensures Tagged(TagWallets(m, ws, userID)[a], m[a], ws, userID)
  {
    if ws != [] {
      var n := |ws| - 1;
      TagsOfWallets(m, ws[..n], userID, a);
      TagOfWallet(TagWallets(m, ws[..n], userID), ws[n], userID, a);
      var o := TagWallets(m, ws, userID)[a];
      if StartsWith(ws[n], a) { TaggedByLast(o, m[a], ws, userID); } else { NotTaggedByLast(o, m[a], ws, userID); }
    }
  }

  /** An entry of a rewritten copy, from the user's wallets and the list the copy was made from. */
  ghost predicate EntryFor(o: AddressExtended, u: User, from: AddressExtended) {
    && o.address == from.address && o.creator == from.creator
    && (NoWalletWith(u.wallets, from.address) ==> Unmarked(o, from))
    && forall i: nat :: LastWalletWith(u.wallets, from.address, i) ==> TaggedWith(o, u.userID, u.wallets[i])
  }

  lemma EntryOfUser(u: User, owners: seq<AddressExtended>, i: nat)
    requires LastEntry(owners, i)
    ensures owners[i].address in OwnersFor(u, owners)
    ensures EntryFor(OwnersFor(u, owners)[owners[i].address], u, owners[i])
  {
    UntaggedEntry(owners, i);
    TagsOfWallets(OwnerMap(owners), u.wallets, u.userID, owners[i].address);
  }

  /** After updateUserOwners every entry of the copy belongs to one of the owners and is tagged exactly when the
      user has a wallet that starts with its address; nothing else of the copy changes but the status. */
  lemma RewrittenCopyEntries(u: User, v: User, c: string, owners: seq<AddressExtended>, status: int)
    requires CopyRewritten(u, v, c, owners, status) && Holds(u, c) && DistinctAddresses(owners)
    ensures v.userID == u.userID && v.wallets == u.wallets && |v.multisigs| == |u.multisigs|
    ensures var k := CopyIndex(u.multisigs, c);
            && v.multisigs[k] == u.multisigs[k].(owners := v.multisigs[k].owners, deployStatus := status)
            && |v.multisigs[k].owners| == |owners|
            && (forall j :: 0 <= j < |u.multisigs| && j != k ==> v.multisigs[j] == u.multisigs[j])
            && forall o :: o in v.multisigs[k].owners ==> exists i :: 0 <= i < |owners| && EntryFor(o, u, owners[i])
  {
    var fo :| Lists(fo, OwnersFor(u, owners)) && v == u.(multisigs := SetCopy(u.multisigs, c, fo, status));
    forall o | o in fo ensures exists i :: 0 <= i < |owners| && EntryFor(o, u, owners[i]) {
      var j :| 0 <= j < |fo| && fo[j] == o;
      var i := IndexOfOwner(u, owners, o.address);
      EntryOfUser(u, owners, i);
    }
    SameNumber(u, owners, fo);
  }

  lemma OwnerKeys(u: User, owners: seq<AddressExtended>)
    ensures OwnersFor(u, owners).Keys == AddressesOf(owners)
  {
    OwnerMapFacts(owners);
    TaggingKeepsRoster(OwnerMap(owners), u.wallets, u.userID);
  }

  lemma IndexOfOwner(u: User, owners: seq<AddressExtended>, a: string) returns (i: nat)
    requires a in OwnersFor(u, owners) && DistinctAddresses(owners)
    ensures LastEntry(owners, i) && owners[i].address == a
  {
    OwnerKeys(u, owners);
    AddressListed(owners, a);
    i :| 0 <= i < |owners| && owners[i].address == a;
  }

  lemma SameNumber(u: User, owners: seq<AddressExtended>, fo: seq<AddressExtended>)
    requires Lists(fo, OwnersFor(u, owners)) && DistinctAddresses(owners)
    ensures |fo| == |owners|
  {
    OwnerKeys(u, owners);
    DistinctCount(owners);
    assert |OwnersFor(u, owners)| == |OwnersFor(u, owners).Keys|;
  }

  /** The copy a joining user gets: the owners so far without tags, and himself with the wallet he named; it is
      complete exactly when he takes the last seat. */
  lemma JoinedCopyEntries(found: Multisig, msg: MultisigMsg, i: nat)
    requires i <= |found.owners|
    ensures var m, n := JoinedCopy(found, msg), |found.owners|;
            && |m.owners| == n + 1
            && (i < n ==>
                  && m.owners[i].address == found.owners[i].address && m.owners[i].creator == found.owners[i].creator
                  && Unmarked(m.owners[i], found.owners[i]))
            && m.owners[n].userID == msg.userID && m.owners[n].address == msg.address
            && m.owners[n].associated && !m.owners[n].creator
            && m.owners[n].walletIndex == msg.walletIndex && m.owners[n].addressIndex == 0
            && m == found.(owners := m.owners, deployStatus := m.deployStatus)
            && (m.deployStatus != found.deployStatus ==> n + 1 == found.ownersCount)
            && (n + 1 == found.ownersCount ==> m.deployStatus == ALL_JOINED)
  {
  }

  /** The copy a creator gets: he is its only owner, tagged with the wallet he named, under the lower-cased code
      and address. */
  lemma CreatedCopyEntry(p: CreateParams, userID: string)
    ensures var m := NewMultisig(p, userID);
            && |m.owners| == 1 && m.owners[0].userID == userID && m.owners[0].address == Lower(p.address)
            && m.owners[0].associated && m.owners[0].creator
            && m.owners[0].walletIndex == p.walletIndex && m.owners[0].addressIndex == p.addressIndex
            && m.currencyID == p.currencyID && m.networkID == p.networkID && m.walletName == p.walletName
            && m.confirmations == p.signaturesRequired && m.ownersCount == p.ownersCount
            && m.deployStatus == WAITING_FOR_JOIN && m.inviteCode == Lower(p.inviteCode)
  {
  }
}
