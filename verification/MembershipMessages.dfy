/** What the remaining holders are told after a leave or a kick, against what their stored copies say. */
module MembershipMessages {
  import opened Schemas
  import opened Membership
  import opened Roster
  import opened MembershipProtocol
  import opened SeatRemoval
  import opened MembershipTheorems

  /** The copy of a code that a user holds. */
  function StoredCopy(u: User, c: string): (m: Multisig)
    requires Holds(u, c)
    ensures m in u.multisigs && m.inviteCode == c
  {
    u.multisigs[CopyIndex(u.multisigs, c)]
  }

  /** Every stored copy that remains is waiting and lists the addresses that were kept. */
  lemma RemainingIsWaiting(us: seq<User>, vs: seq<User>, k0: nat, c: string, owners: seq<AddressExtended>, v: User)
    requires SeatRemoved(us, vs, k0, c, owners) && v in vs && Holds(v, c)
    ensures StoredCopy(v, c).deployStatus == WAITING_FOR_JOIN
    ensures AddressesOf(StoredCopy(v, c).owners) == AddressesOf(owners)
  {
    var k :| 0 <= k < |vs| && vs[k] == v;
    DroppedHoldsNothing(us, k0, c);
    assert Dropped(us, k0, c)[k0] == vs[k0];
    RewrittenCopy(us[k], v, c, owners);
  }

  lemma RewrittenCopy(u: User, v: User, c: string, owners: seq<AddressExtended>)
    requires Holds(u, c) && CopyRewritten(u, v, c, owners, WAITING_FOR_JOIN) && Holds(v, c)
    ensures StoredCopy(v, c).deployStatus == WAITING_FOR_JOIN
    ensures AddressesOf(StoredCopy(v, c).owners) == AddressesOf(owners)
  {
    var fo :| Lists(fo, OwnersFor(u, owners)) && v == u.(multisigs := SetCopy(u.multisigs, c, fo, WAITING_FOR_JOIN));
    SetCopyStays(u.multisigs, c, fo, WAITING_FOR_JOIN);
    ListedAddresses(u, owners, fo);
  }

  lemma SetCopyStays(ms: seq<Multisig>, c: string, owners: seq<AddressExtended>, status: int)
    requires CopyIndex(ms, c) < |ms|
    ensures var after, i := SetCopy(ms, c, owners, status), CopyIndex(ms, c);
            |after| == |ms| && CopyIndex(after, c) == i && after[i] == ms[i].(owners := owners, deployStatus := status)
  {
    var after, i := SetCopy(ms, c, owners, status), CopyIndex(ms, c);
    var j := CopyIndex(after, c);
    assert after[i].inviteCode == c;
    assert forall n :: 0 <= n < i ==> after[n] == ms[n];
    assert j >= i;
  }

  lemma ListedAddresses(u: User, owners: seq<AddressExtended>, fo: seq<AddressExtended>)
    requires Lists(fo, OwnersFor(u, owners))
    ensures AddressesOf(fo) == AddressesOf(owners)
  {
    OwnerMapFacts(owners);
    TaggingKeepsRoster(OwnerMap(owners), u.wallets, u.userID);
    DistinctCount(fo);
    forall a | a in AddressesOf(fo) ensures a in OwnersFor(u, owners) { AddressListed(fo, a); }
    SubsetOfEqualSize(AddressesOf(fo), OwnersFor(u, owners).Keys);
  }

  /** In a consistent store a multisig waits exactly when it has room. */
  lemma WaitingIffRoom(us: seq<User>, c: string)
    requires Consistent(us) && FoundCopy(us, c).Some?
    ensures var found := FoundCopy(us, c).value;
            found.deployStatus == WAITING_FOR_JOIN <==> |found.owners| < found.ownersCount
  {
    var rs: Rosters :| Represents(us, rs);
    FoundMatches(us, rs, c);
    assert RosterOk(rs[c]);
  }

  /** After an accepted leave the message lists the addresses of every stored copy that remains, but its status
      is the stored one exactly when the multisig was not full before. */
  lemma LeaveMessageAgreesIff(us: seq<User>, msg: MultisigMsg, vs: seq<User>, v: User)
    requires Consistent(us) && LeaveStep(us, msg, vs) && LeaveReply(us, msg) == Done
    requires v in vs && Holds(v, msg.inviteCode)
    ensures var found := FoundCopy(us, msg.inviteCode).value;
            var message, stored := CopyWithout(found, msg.address), StoredCopy(v, msg.inviteCode);
            && AddressesOf(message.owners) == AddressesOf(stored.owners)
            && (message.deployStatus == stored.deployStatus <==> |found.owners| < found.ownersCount)
  {
    LeaveIsRemoval(us, msg, vs);
    var kept := OwnersWithout(FoundCopy(us, msg.inviteCode).value.owners, msg.address);
    var k0 :| SeatRemoved(us, vs, k0, msg.inviteCode, kept);
    RemainingIsWaiting(us, vs, k0, msg.inviteCode, kept, v);
    WaitingIffRoom(us, msg.inviteCode);
  }

  /** The same after an accepted kick. */
  lemma KickMessageAgreesIff(us: seq<User>, msg: MultisigMsg, vs: seq<User>, v: User)
    requires Consistent(us) && KickStep(us, msg, vs) && KickReply(us, msg) == Done
    requires v in vs && Holds(v, msg.inviteCode)
    ensures var found := FoundCopy(us, msg.inviteCode).value;
            var message, stored := CopyWithout(found, msg.addressToKick), StoredCopy(v, msg.inviteCode);
            && AddressesOf(message.owners) == AddressesOf(stored.owners)
            && (message.deployStatus == stored.deployStatus <==> |found.owners| < found.ownersCount)
  {
    var rs: Rosters :| Represents(us, rs);
    KickIsRemoval(us, msg, vs, rs);
    var kept := OwnersWithout(FoundCopy(us, msg.inviteCode).value.owners, msg.addressToKick);
    var k0 :| SeatRemoved(us, vs, k0, msg.inviteCode, kept);
    RemainingIsWaiting(us, vs, k0, msg.inviteCode, kept, v);
    WaitingIffRoom(us, msg.inviteCode);
  }
}
