/** The users collection and the message handlers, changing their state in place as the source does.
    Each handler is one atomic step: the source checks and then acts without a lock. */
module MembershipServer {
  import opened Schemas
  import opened Membership
  import Roster

  /** The first user with this id who holds this code, or the number of users. */
  function HolderIndex(users: seq<User>, userID: string, c: string): (i: nat)
    ensures i <= |users|
    ensures i < |users| ==> users[i].userID == userID && Holds(users[i], c)
    ensures forall j :: 0 <= j < i ==> !(users[j].userID == userID && Holds(users[j], c))
  {
    if users == [] || (users[0].userID == userID && Holds(users[0], c)) then 0
    else 1 + HolderIndex(users[1..], userID, c)
  }

  function IdIndex(users: seq<User>, userID: string): (i: nat)
    ensures i <= |users|
    ensures i < |users| ==> FirstWithId(users, userID, i)
    ensures i == |users| ==> !UserExists(users, userID)
  {
    if users == [] || users[0].userID == userID then 0 else 1 + IdIndex(users[1..], userID)
  }

  function AddressIndex(users: seq<User>, a: string): (i: nat)
    ensures i <= |users|
    ensures i < |users| ==> FirstWithAddress(users, a, i)
    ensures i == |users| ==> !AddressKnown(users, a)
  {
    if users == [] || HasAddress(users[0], a) then 0 else 1 + AddressIndex(users[1..], a)
  }

  /** The collection after one positional update of a user's copy. */
  function WithOwners(users: seq<User>, userID: string, c: string, fo: seq<AddressExtended>, status: int): seq<User> {
    var k := HolderIndex(users, userID, c);
    if k < |users| then users[k := users[k].(multisigs := SetCopy(users[k].multisigs, c, fo, status))] else users
  }

  ghost predicate OwnersUpdated(before: seq<User>, after: seq<User>, u: User, c: string,
                                owners: seq<AddressExtended>, status: int)
  {
    exists fo :: Lists(fo, OwnersFor(u, owners)) && after == WithOwners(before, u.userID, c, fo, status)
  }

  /** The owners of a map, in whatever order it is iterated. */
  method ListValues(owners: map<string, AddressExtended>) returns (fo: seq<AddressExtended>)
    requires forall a :: a in owners ==> owners[a].address == a
    ensures Lists(fo, owners)
  {
    fo := [];
    var rest := owners.Keys;
    while rest != {}
      invariant rest <= owners.Keys && |fo| + |rest| == |owners.Keys|
      invariant DistinctAddresses(fo)
      invariant forall i :: 0 <= i < |fo| ==>
                  fo[i].address in owners && fo[i].address !in rest && owners[fo[i].address] == fo[i]
      decreases |rest|
    {
      var a :| a in rest;
      assert owners[a].address == a;
      fo := fo + [owners[a]];
      rest := rest - {a};
    }
  }

  /** A *store.Multisig: two variables may point to the same record. */
  class MultisigRecord {
    var doc: Multisig

    constructor (doc: Multisig)
      ensures this.doc == doc
    {
      this.doc := doc;
    }
  }

  class MongoUserStore {
    var users: seq<User>

    constructor (users: seq<User>)
      ensures this.users == users
    {
      this.users := users;
    }

    method CheckInviteCode(invitecode: string) returns (free: bool)
      ensures free <==> FoundCopy(users, invitecode).None?
    {
      var found := HoldersOf(users, invitecode);
      free := found == [];
    }

    method FindMultisig(invitecode: string) returns (multisig: MultisigRecord?)
      ensures FoundCopy(users, invitecode).None? <==> multisig == null
      ensures multisig != null ==> fresh(multisig) && multisig.doc == FoundCopy(users, invitecode).value
    {
      var found := HoldersOf(users, invitecode);
      if found == [] { return null; }
      assert found[0] in found;
      var i := 0;
      while i < |found[0].multisigs|
        invariant 0 <= i <= |found[0].multisigs|
        invariant forall j :: 0 <= j < i ==> found[0].multisigs[j].inviteCode != invitecode
      {
        if found[0].multisigs[i].inviteCode == invitecode {
          multisig := new MultisigRecord(found[0].multisigs[i]);
          return;
        }
        i := i + 1;
      }
      assert false;
    }

    method CheckMultisigCurrency(invitecode: string, currencyid: int, networkid: int) returns (ok: bool)
      ensures ok == CurrencyMatches(users, invitecode, currencyid, networkid)
    {
      var found := HoldersOf(users, invitecode);
      ok := false;
      if found != [] {
        var ms := found[0].multisigs;
        for i := 0 to |ms|
          invariant ok == LastCopyHasCurrency(ms[..i], invitecode, currencyid, networkid)
        {
          assert ms[..i + 1][..i] == ms[..i];
          if ms[i].inviteCode == invitecode {
            ok := ms[i].currencyID == currencyid && ms[i].networkID == networkid;
          }
        }
        assert ms[..|ms|] == ms;
      }
    }

    method JoinMultisig(userid: string, multisig: MultisigRecord) returns (ok: bool)
      modifies this
      ensures ok == UserExists(old(users), userid)
      ensures ok ==> Pushed(old(users), users, userid, multisig.doc)
      ensures !ok ==> users == old(users)
    {
      var i := IdIndex(users, userid);
      ok := i < |users|;
      if ok {
        assert users[i] in users;
        users := users[i := users[i].(multisigs := users[i].multisigs + [multisig.doc])];
      }
    }

    method LeaveMultisig(userid: string, invitecode: string) returns (ok: bool)
      modifies this
      ensures ok == UserExists(old(users), userid)
      ensures ok ==> exists k :: FirstWithId(old(users), userid, k) && users == Dropped(old(users), k, invitecode)
      ensures !ok ==> users == old(users)
    {
      var k := IdIndex(users, userid);
      ok := k < |users|;
      if ok {
        assert users[k] in users;
        var multisigs := Filter(users[k].multisigs, invitecode);
        users := users[k := users[k].(multisigs := multisigs)];
      }
    }

    method KickMultisig(address: string, invitecode: string) returns (ok: bool)
      modifies this
      ensures ok == AddressKnown(old(users), address)
      ensures ok ==> exists k :: FirstWithAddress(old(users), address, k) && users == Dropped(old(users), k, invitecode)
      ensures !ok ==> users == old(users)
    {
      var k := AddressIndex(users, address);
      ok := k < |users|;
      if ok {
        assert users[k] in users;
        var multisigs := Filter(users[k].multisigs, invitecode);
        users := users[k := users[k].(multisigs := multisigs)];
      }
    }

    method DeleteMultisig(invitecode: string)
      requires UniqueIds(users)
      modifies this
      ensures |users| == |old(users)|
      ensures forall k :: 0 <= k < |users| ==>
                users[k] == old(users)[k].(multisigs := Without(old(users)[k].multisigs, invitecode))
    {
      var k := 0;
      while k < |users|
        invariant 0 <= k <= |users| == |old(users)|
        invariant forall j :: 0 <= j < k ==>
                    users[j] == old(users)[j].(multisigs := Without(old(users)[j].multisigs, invitecode))
        invariant forall j :: k <= j < |users| ==> users[j] == old(users)[j]
      {
        if Holds(users[k], invitecode) {
          var okMultisigs := Filter(users[k].multisigs, invitecode);
          users := users[k := users[k].(multisigs := okMultisigs)];
        } else {
          NothingToFilter(users[k].multisigs, invitecode);
        }
        k := k + 1;
      }
    }

    method UpdateMultisigOwners(userid: string, invitecode: string, owners: seq<AddressExtended>, deployStatus: int)
      returns (ok: bool)
      modifies this
      ensures users == WithOwners(old(users), userid, invitecode, owners, deployStatus)
      ensures ok == (HolderIndex(old(users), userid, invitecode) < |old(users)|)
    {
      var k := HolderIndex(users, userid, invitecode);
      ok := k < |users|;
      if ok {
        users := users[k := users[k].(multisigs := SetCopy(users[k].multisigs, invitecode, owners, deployStatus))];
      }
    }
  }

  lemma {:induction false} NothingToFilter(ms: seq<Multisig>, c: string)
    requires forall i :: 0 <= i < |ms| ==> ms[i].inviteCode != c
    ensures Without(ms, c) == ms
  {
    if ms != [] {
      NothingToFilter(ms[..|ms| - 1], c);
      assert Without(ms, c) == ms[..|ms| - 1] + [ms[|ms| - 1]];
    }
  }

  method Filter(multisigs: seq<Multisig>, invitecode: string) returns (kept: seq<Multisig>)
    ensures kept == Without(multisigs, invitecode)
  {
    kept := [];
    for i := 0 to |multisigs|
      invariant kept == Without(multisigs[..i], invitecode)
    {
      assert multisigs[..i + 1][..i] == multisigs[..i];
      if multisigs[i].inviteCode != invitecode {
        kept := kept + [multisigs[i]];
      }
    }
    assert multisigs[..|multisigs|] == multisigs;
  }

  // ---------------------------------------------------------------- the socket server

  datatype MessageType = JoinMultisig | LeaveMultisig | KickMultisig | DeleteMultisig

  datatype Payload = Copy(multisig: Multisig) | Kicked(copy: Multisig, address: string) | Code(inviteCode: string)

  datatype Broadcast = Broadcast(kind: MessageType, to: string, payload: Payload)

  /** One message to every listed user who is online, in order. */
  function Notices(us: seq<User>, online: set<string>, kind: MessageType, payload: Payload): seq<Broadcast> {
    if us == [] then []
    else
      var last := us[|us| - 1];
      Notices(us[..|us| - 1], online, kind, payload)
      + (if last.userID in online then [Broadcast(kind, last.userID, payload)] else [])
  }

  /** The listed users are accounts of the store as it is now. */
  ghost predicate Accounts(list: seq<User>, users: seq<User>) {
    && UniqueIds(list)
    && forall u :: u in list ==>
         exists k :: 0 <= k < |users| && users[k].userID == u.userID && users[k].wallets == u.wallets
  }

  class SocketServer {
    const ratesDB: MongoUserStore
    var online: set<string>
    var sent: seq<Broadcast>

    constructor (ratesDB: MongoUserStore)
      ensures this.ratesDB == ratesDB && sent == [] && online == {}
    {
      this.ratesDB := ratesDB;
      online, sent := {}, [];
    }

    method UpdateUserOwners(user: User, multisig: MultisigRecord, deployStatus: int)
      modifies ratesDB
      ensures OwnersUpdated(old(ratesDB.users), ratesDB.users, user, multisig.doc.inviteCode, multisig.doc.owners,
                            deployStatus)
    {
      var all := multisig.doc.owners;
      var owners: map<string, AddressExtended> := map[];
      for i := 0 to |all|
        invariant owners == OwnerMap(all[..i])
      {
        assert all[..i + 1][..i] == all[..i];
        owners := owners[all[i].address := Untagged(all[i])];
      }
      assert all[..|all|] == all;

      for i := 0 to |user.wallets|
        invariant owners == TagWallets(OwnerMap(all), user.wallets[..i], user.userID)
      {
        assert user.wallets[..i + 1][..i] == user.wallets[..i];
        var wallet := user.wallets[i];
        if wallet.addresses != [] {
          // the loop over the addresses ends after its first round
          var address := wallet.addresses[0];
          if address.address in owners {
            var owner := owners[address.address];
            owners := owners[address.address := AddressExtended(user.userID, address.address, true, owner.creator,
                                                                wallet.walletIndex, address.addressIndex)];
          }
        }
      }
      assert user.wallets[..|user.wallets|] == user.wallets;
      assert owners == OwnersFor(user, all);
      OwnersKeyed(user, all);

      var fo := ListValues(owners);
      ghost var before := ratesDB.users;
      var _ := ratesDB.UpdateMultisigOwners(user.userID, multisig.doc.inviteCode, fo, deployStatus);
      assert ratesDB.users == WithOwners(before, user.userID, multisig.doc.inviteCode, fo, deployStatus);
    }

    method Notify(userID: string, kind: MessageType, payload: Payload)
      modifies this`sent
      ensures sent == old(sent) + (if userID in online then [Broadcast(kind, userID, payload)] else [])
    {
      if userID in online {
        sent := sent + [Broadcast(kind, userID, payload)];
      }
    }

    method NotifyAll(users: seq<User>, kind: MessageType, payload: Payload)
      modifies this`sent
      ensures sent == old(sent) + Notices(users, online, kind, payload)
    {
      for i := 0 to |users|
        invariant sent == old(sent) + Notices(users[..i], online, kind, payload)
      {
        Notify(users[i].userID, kind, payload);
        NoticesOneMore(users, i, online, kind, payload);
      }
      assert users[..|users|] == users;
    }

    /** The loop of join, leave and kick over the users of the multisig. */
    method UpdateAndNotify(users: seq<User>, multisig: MultisigRecord, deployStatus: int, kind: MessageType,
                           payload: Payload)
      requires UniqueIds(ratesDB.users) && Accounts(users, ratesDB.users)
      modifies ratesDB, this`sent
      ensures Rewritten(old(ratesDB.users), ratesDB.users, IdsOf(users), multisig.doc.inviteCode, multisig.doc.owners,
                        deployStatus)
      ensures sent == old(sent) + Notices(users, online, kind, payload)
    {
      ghost var start := ratesDB.users;
      NothingRewritten(start, users, multisig.doc.inviteCode, multisig.doc.owners, deployStatus);
      for i := 0 to |users|
        invariant Rewritten(start, ratesDB.users, IdsOf(users[..i]), multisig.doc.inviteCode, multisig.doc.owners,
                            deployStatus)
        invariant sent == old(sent) + Notices(users[..i], online, kind, payload)
      {
        UpdateOne(users, i, multisig, deployStatus, start);
        Notify(users[i].userID, kind, payload);
        NoticesOneMore(users, i, online, kind, payload);
      }
      assert users[..|users|] == users;
    }

    method OnJoinMultisig(msgMultisig: MultisigMsg) returns (reply: Reply)
      requires UniqueIds(ratesDB.users)
      modifies ratesDB, this`sent
      ensures reply == JoinReply(old(ratesDB.users), msgMultisig)
      ensures JoinStep(old(ratesDB.users), msgMultisig, ratesDB.users)
      ensures sent == old(sent) +
                if reply != Done then []
                else Notices(HoldersOf(old(ratesDB.users), msgMultisig.inviteCode), online, JoinMultisig,
                             Copy(JoinedCopy(FoundCopy(old(ratesDB.users), msgMultisig.inviteCode).value, msgMultisig)))
    {
      var c := msgMultisig.inviteCode;
      ghost var us := ratesDB.users;
      var free := ratesDB.CheckInviteCode(c);
      if free { return Refused(WrongPayload); }
      var users := HoldersOf(ratesDB.users, c);
      if exists u :: u in users && u.userID == msgMultisig.userID { return Refused(MultipleJoin); }
      if !Related(ratesDB.users, msgMultisig.userID, msgMultisig.address) { return Refused(AddressNotRelated); }
      var sameCurrency := ratesDB.CheckMultisigCurrency(c, msgMultisig.currencyID, msgMultisig.networkID);
      if !sameCurrency { return Refused(WrongCurrency); }
      var multisig := ratesDB.FindMultisig(c);
      if multisig == null { return Refused(WrongPayload); }
      if multisig.doc.ownersCount <= |multisig.doc.owners| { return Refused(WrongPayload); }
      assert JoinReply(us, msgMultisig) == Done;
      Admit(msgMultisig, multisig, users);
      reply := Done;
    }

    /** The accepted branch of join. `multisigToJoin` and `multisig` are one record, and the messages
        carry the new owner only because of that. */
    method Admit(msgMultisig: MultisigMsg, multisig: MultisigRecord, users: seq<User>)
      requires UniqueIds(ratesDB.users) && users == HoldersOf(ratesDB.users, msgMultisig.inviteCode)
      requires UserExists(ratesDB.users, msgMultisig.userID) && multisig.doc.inviteCode == msgMultisig.inviteCode
      modifies ratesDB, this`sent, multisig
      ensures exists mid ::
                && Pushed(old(ratesDB.users), mid, msgMultisig.userID, JoinedCopy(old(multisig.doc), msgMultisig))
                && Rewritten(mid, ratesDB.users, IdsOf(users), msgMultisig.inviteCode,
                             JoinedCopy(old(multisig.doc), msgMultisig).owners, JoinStatus(old(multisig.doc)))
      ensures sent == old(sent) + Notices(users, online, JoinMultisig, Copy(JoinedCopy(old(multisig.doc), msgMultisig)))
    {
      ghost var us, found := ratesDB.users, multisig.doc;
      var multisigToJoin := multisig;
      var joined := |multisig.doc.owners|;
      var owners := UntagOwners(multisigToJoin.doc.owners);
      owners := owners
        + [AddressExtended(msgMultisig.userID, msgMultisig.address, true, false, msgMultisig.walletIndex, 0)];

      var deployStatus := WAITING_FOR_JOIN;
      joined := joined + 1;
      if joined == multisig.doc.ownersCount {
        multisigToJoin.doc := multisigToJoin.doc.(deployStatus := ALL_JOINED);
        deployStatus := ALL_JOINED;
      }
      multisigToJoin.doc := multisigToJoin.doc.(owners := owners);
      assert multisig.doc == JoinedCopy(found, msgMultisig);
      var _ := ratesDB.JoinMultisig(msgMultisig.userID, multisigToJoin);
      ghost var mid := ratesDB.users;
      HoldersAreAccounts(us, mid, msgMultisig.inviteCode);
      UpdateAndNotify(users, multisig, deployStatus, JoinMultisig, Copy(multisig.doc));
    }

    method OnLeaveMultisig(msgMultisig: MultisigMsg) returns (reply: Reply)
      requires UniqueIds(ratesDB.users)
      modifies ratesDB, this`sent
      ensures reply == LeaveReply(old(ratesDB.users), msgMultisig)
      ensures LeaveStep(old(ratesDB.users), msgMultisig, ratesDB.users)
      ensures reply != Done ==> sent == old(sent)
      ensures reply == Done ==>
                // the remaining holders are told
                var found := FoundCopy(old(ratesDB.users), msgMultisig.inviteCode).value;
                exists k :: FirstWithId(old(ratesDB.users), msgMultisig.userID, k)
                  && var mid := Dropped(old(ratesDB.users), k, msgMultisig.inviteCode);
                     sent == old(sent) + Notices(HoldersOf(mid, msgMultisig.inviteCode), online, LeaveMultisig,
                                                 Copy(CopyWithout(found, msgMultisig.address)))
    {
      var c := msgMultisig.inviteCode;
      ghost var us := ratesDB.users;
      var multisig := ratesDB.FindMultisig(c);
      if multisig == null { return Refused(WrongPayload); }
      var exists_, creator := LookForOwner(multisig.doc.owners, msgMultisig.address);
      if creator { return Refused(CreatorMustDelete); }
      if !exists_ { return Refused(NotAnOwner); }
      var ok := ratesDB.LeaveMultisig(msgMultisig.userID, c);
      if !ok { return Refused(StoreError); }
      ghost var k :| FirstWithId(us, msgMultisig.userID, k) && ratesDB.users == Dropped(us, k, c);
      ghost var mid := ratesDB.users;
      var users := HoldersOf(ratesDB.users, c);
      var owners := FilterOwners(multisig.doc.owners, msgMultisig.address);
      multisig.doc := multisig.doc.(owners := owners);
      HoldersAreAccounts(mid, mid, c);
      UpdateAndNotify(users, multisig, WAITING_FOR_JOIN, LeaveMultisig, Copy(multisig.doc));
      reply := Done;
    }

    method OnKickMultisig(msgMultisig: MultisigMsg) returns (reply: Reply)
      requires UniqueIds(ratesDB.users)
      modifies ratesDB, this`sent
      ensures reply == KickReply(old(ratesDB.users), msgMultisig)
      ensures KickStep(old(ratesDB.users), msgMultisig, ratesDB.users)
      ensures reply != Done ==> sent == old(sent)
      ensures reply == Done ==>
                // everyone who held a copy is told, the kicked user included
                var found := FoundCopy(old(ratesDB.users), msgMultisig.inviteCode).value;
                sent == old(sent) + Notices(HoldersOf(old(ratesDB.users), msgMultisig.inviteCode), online, KickMultisig,
                                            Kicked(CopyWithout(found, msgMultisig.addressToKick),
                                                   msgMultisig.addressToKick))
    {
      var c := msgMultisig.inviteCode;
      ghost var us := ratesDB.users;
      var multisig := ratesDB.FindMultisig(c);
      if multisig == null { return Refused(WrongPayload); }
      var admin := HasCreator(multisig.doc.owners, msgMultisig.address);
      if !admin { return Refused(OnlyAdmin); }
      var users := HoldersOf(ratesDB.users, c);
      var ok := ratesDB.KickMultisig(msgMultisig.addressToKick, c);
      if !ok { return Refused(StoreError); }
      ghost var k :| FirstWithAddress(us, msgMultisig.addressToKick, k) && ratesDB.users == Dropped(us, k, c);
      ghost var mid := ratesDB.users;
      var owners := FilterOwners(multisig.doc.owners, msgMultisig.addressToKick);
      multisig.doc := multisig.doc.(owners := owners);
      HoldersAreAccounts(us, mid, c);
      UpdateAndNotify(users, multisig, WAITING_FOR_JOIN, KickMultisig, Kicked(multisig.doc, msgMultisig.addressToKick));
      reply := Done;
    }

    method OnDeleteMultisig(msgMultisig: MultisigMsg) returns (reply: Reply)
      requires UniqueIds(ratesDB.users)
      modifies ratesDB, this`sent
      ensures reply == DeleteReply(old(ratesDB.users), msgMultisig)
      ensures DeleteStep(old(ratesDB.users), msgMultisig, ratesDB.users)
      ensures sent == old(sent) +
                if reply != Done then []
                else Notices(HoldersOf(old(ratesDB.users), msgMultisig.inviteCode), online, DeleteMultisig,
                             Code(msgMultisig.inviteCode))
    {
      var c := msgMultisig.inviteCode;
      var multisig := ratesDB.FindMultisig(c);
      if multisig == null { return Refused(WrongPayload); }
      var admin := HasCreator(multisig.doc.owners, msgMultisig.address);
      if !admin { return Refused(OnlyAdmin); }
      var users := HoldersOf(ratesDB.users, c);
      ratesDB.DeleteMultisig(c);
      NotifyAll(users, DeleteMultisig, Code(c));
      reply := Done;
    }

    /** The multisig branch of addWallet for the user of the token, after the wallet-count check. */
    method CreateMultisig(userID: string, wp: CreateParams) returns (created: bool)
      requires UniqueIds(ratesDB.users)
      modifies ratesDB
      ensures created == CreateAccepted(old(ratesDB.users), userID, wp)
      ensures CreateStep(old(ratesDB.users), userID, wp, ratesDB.users)
    {
      if wp.ownersCount < wp.signaturesRequired || wp.ownersCount < 2 { return false; }
      var free := ratesDB.CheckInviteCode(wp.inviteCode);
      if !free { return false; }
      var multisig := new MultisigRecord(NewMultisig(wp, userID));
      created := ratesDB.JoinMultisig(userID, multisig);
    }

    method UpdateOne(users: seq<User>, i: nat, multisig: MultisigRecord, deployStatus: int, ghost start: seq<User>)
      requires UniqueIds(start) && Accounts(users, start) && i < |users|
      requires Rewritten(start, ratesDB.users, IdsOf(users[..i]), multisig.doc.inviteCode, multisig.doc.owners,
                         deployStatus)
      modifies ratesDB
      ensures Rewritten(start, ratesDB.users, IdsOf(users[..i + 1]), multisig.doc.inviteCode, multisig.doc.owners,
                        deployStatus)
    {
      ghost var before := ratesDB.users;
      UpdateUserOwners(users[i], multisig, deployStatus);
      OneMoreRewritten(start, before, ratesDB.users, users, i, multisig.doc.inviteCode, multisig.doc.owners,
                       deployStatus);
    }
  }

  method UntagOwners(all: seq<AddressExtended>) returns (owners: seq<AddressExtended>)
    ensures owners == UntaggedAll(all)
  {
    owners := [];
    for i := 0 to |all|
      invariant owners == UntaggedAll(all[..i])
    {
      assert all[..i + 1][..i] == all[..i];
      owners := owners + [Untagged(all[i])];
    }
    assert all[..|all|] == all;
  }

  /** The first loop of leave; it ends at the creator. */
  method LookForOwner(all: seq<AddressExtended>, address: string) returns (exists_: bool, creator: bool)
    ensures exists_ == OwnerListed(all, address) && creator == CreatorListed(all, address)
  {
    exists_ := false;
    for i := 0 to |all|
      invariant exists_ == OwnerListed(all[..i], address) && !CreatorListed(all[..i], address)
    {
      assert all[..i + 1] == all[..i] + [all[i]];
      if all[i].address == address {
        exists_ := true;
        if all[i].creator {
          assert all[i] in all;
          return true, true;
        }
      }
    }
    assert all[..|all|] == all;
    creator := false;
  }

  method FilterOwners(all: seq<AddressExtended>, address: string) returns (owners: seq<AddressExtended>)
    ensures owners == OwnersWithout(all, address)
  {
    owners := [];
    for i := 0 to |all|
      invariant owners == OwnersWithout(all[..i], address)
    {
      assert all[..i + 1][..i] == all[..i];
      if all[i].address != address {
        owners := owners + [all[i]];
      }
    }
    assert all[..|all|] == all;
  }

  method HasCreator(all: seq<AddressExtended>, address: string) returns (admin: bool)
    ensures admin == CreatorListed(all, address)
  {
    admin := false;
    for i := 0 to |all|
      invariant admin == CreatorListed(all[..i], address)
    {
      assert all[..i + 1] == all[..i] + [all[i]];
      if all[i].address == address {
        if all[i].creator {
          admin := true;
        }
      }
    }
    assert all[..|all|] == all;
  }

  lemma {:induction false} HoldersUnique(us: seq<User>, c: string)
    requires UniqueIds(us)
    ensures UniqueIds(HoldersOf(us, c))
  {
    if us != [] {
      HoldersUnique(us[1..], c);
      var rest := HoldersOf(us[1..], c);
      forall i | 0 <= i < |rest| ensures rest[i].userID != us[0].userID {
        assert rest[i] in us[1..];
      }
    }
  }

  /** Holders found earlier are still accounts after one user's copies were edited. */
  lemma HoldersAreAccounts(us: seq<User>, mid: seq<User>, c: string)
    requires UniqueIds(us) && |us| == |mid|
    requires forall k :: 0 <= k < |us| ==> us[k].userID == mid[k].userID && us[k].wallets == mid[k].wallets
    ensures Accounts(HoldersOf(us, c), mid) && UniqueIds(mid)
  {
    HoldersUnique(us, c);
    forall u | u in HoldersOf(us, c)
      ensures exists k :: 0 <= k < |mid| && mid[k].userID == u.userID && mid[k].wallets == u.wallets
    {
      assert u in us;
      var k :| 0 <= k < |us| && us[k] == u;
      assert mid[k].userID == u.userID;
    }
  }

  lemma NothingRewritten(us: seq<User>, list: seq<User>, c: string, owners: seq<AddressExtended>, status: int)
    ensures Rewritten(us, us, IdsOf(list[..0]), c, owners, status)
  {
  }

  lemma NoticesOneMore(us: seq<User>, i: nat, online: set<string>, kind: MessageType, payload: Payload)
    requires i < |us|
    ensures Notices(us[..i + 1], online, kind, payload)
         == Notices(us[..i], online, kind, payload)
           + (if us[i].userID in online then [Broadcast(kind, us[i].userID, payload)] else [])
  {
    assert us[..i + 1][..i] == us[..i];
  }

  lemma OwnersKeyed(user: User, owners: seq<AddressExtended>)
    ensures forall a :: a in OwnersFor(user, owners) ==> OwnersFor(user, owners)[a].address == a
  {
    Roster.OwnerMapFacts(owners);
    Roster.TaggingKeepsRoster(OwnerMap(owners), user.wallets, user.userID);
  }

  /** One round of the loop extends the set of rewritten users by one. */
  lemma OneMoreRewritten(start: seq<User>, before: seq<User>, after: seq<User>, list: seq<User>, i: nat, c: string,
                         owners: seq<AddressExtended>, status: int)
    requires UniqueIds(start) && Accounts(list, start) && i < |list|
    requires Rewritten(start, before, IdsOf(list[..i]), c, owners, status)
    requires OwnersUpdated(before, after, list[i], c, owners, status)
    ensures Rewritten(start, after, IdsOf(list[..i + 1]), c, owners, status)
  {
    var u := list[i];
    assert u in list;
    var n :| 0 <= n < |start| && start[n].userID == u.userID && start[n].wallets == u.wallets;
    IdsOfOneMore(list, i);
    var fo :| Lists(fo, OwnersFor(u, owners)) && after == WithOwners(before, u.userID, c, fo, status);
    assert OwnersFor(u, owners) == OwnersFor(start[n], owners);
    RewrittenKeepsIds(start, before, IdsOf(list[..i]), c, owners, status);
    assert before[n] == start[n];
    var k := HolderIndex(before, u.userID, c);
    if k < |before| {
      assert k == n;
      assert CopyRewritten(start[n], after[n], c, owners, status);
    }
  }

  lemma IdsOfOneMore(list: seq<User>, i: nat)
    requires UniqueIds(list) && i < |list|
    ensures IdsOf(list[..i + 1]) == IdsOf(list[..i]) + {list[i].userID}
    ensures list[i].userID !in IdsOf(list[..i])
  {
    assert list[..i + 1] == list[..i] + [list[i]];
  }

  lemma RewrittenKeepsIds(us: seq<User>, vs: seq<User>, ids: set<string>, c: string, owners: seq<AddressExtended>,
                          status: int)
    requires Rewritten(us, vs, ids, c, owners, status)
    ensures |us| == |vs| && forall k {:trigger vs[k]} :: 0 <= k < |us| ==>
              vs[k].userID == us[k].userID && vs[k].wallets == us[k].wallets
  {
  }

  /** A message goes to the users of the list who are online, once for each, and to nobody else. */
  lemma {:induction false} NoticesReachOnline(us: seq<User>, online: set<string>, kind: MessageType, payload: Payload)
    ensures forall b :: b in Notices(us, online, kind, payload) <==>
              b.kind == kind && b.payload == payload && b.to in online && exists u :: u in us && u.userID == b.to
    ensures UniqueIds(us) ==>
              forall i, j :: 0 <= i < j < |Notices(us, online, kind, payload)| ==>
                Notices(us, online, kind, payload)[i].to != Notices(us, online, kind, payload)[j].to
  {
    if us != [] {
      var init, last := us[..|us| - 1], us[|us| - 1];
      assert us == init + [last];
      NoticesReachOnline(init, online, kind, payload);
    }
  }
}
