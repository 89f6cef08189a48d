/** Agreement, capacity and status over every run of create, join, leave, kick and delete,
    with the exact condition under which each handler keeps them. */
module MembershipTheorems {
  import opened Schemas
  import opened Membership
  import opened Roster
  import opened MembershipProtocol
  import opened SeatRemoval

  // ---------------------------------------------------------------- what consistency means to a caller

  lemma HeldCopyOk(us: seq<User>, rs: Rosters, u: User, i: nat)
    requires Represents(us, rs) && u in us && i < |u.multisigs|
    ensures CopyOk(u, u.multisigs[i], rs) && RosterOk(rs[u.multisigs[i].inviteCode])
  {
    assert UserMatches(u, rs);
  }

  /** All copies of one multisig agree on everything but the per-user tags. */
  lemma CopiesAgree(us: seq<User>, u: User, i: nat, v: User, j: nat, a: string)
    requires Consistent(us) && u in us && v in us && i < |u.multisigs| && j < |v.multisigs|
    requires u.multisigs[i].inviteCode == v.multisigs[j].inviteCode
    ensures var m, n := u.multisigs[i], v.multisigs[j];
            && m.currencyID == n.currencyID && m.networkID == n.networkID
            && m.confirmations == n.confirmations && m.ownersCount == n.ownersCount
            && m.deployStatus == n.deployStatus && |m.owners| == |n.owners|
            && (OwnerListed(m.owners, a) <==> OwnerListed(n.owners, a))
            && (CreatorListed(m.owners, a) <==> CreatorListed(n.owners, a))
    ensures u == v ==> i == j
  {
    var rs: Rosters :| Represents(us, rs);
    HeldCopyOk(us, rs, u, i);
    HeldCopyOk(us, rs, v, j);
    var members := rs[u.multisigs[i].inviteCode].members;
    ListedInRoster(u.multisigs[i].owners, members, a);
    ListedInRoster(v.multisigs[j].owners, members, a);
    assert UserMatches(u, rs);
  }

  /** Capacity, status and the single creator, on every copy. */
  lemma CopyIsSound(us: seq<User>, u: User, i: nat, a: string, b: string)
    requires Consistent(us) && u in us && i < |u.multisigs|
    ensures var m := u.multisigs[i];
            && DistinctAddresses(m.owners)
            && 1 <= |m.owners| <= m.ownersCount
            && m.deployStatus in {WAITING_FOR_JOIN, ALL_JOINED}
            && (m.deployStatus == ALL_JOINED <==> |m.owners| == m.ownersCount)
            && (exists o :: o in m.owners && o.creator)
            && (CreatorListed(m.owners, a) && CreatorListed(m.owners, b) ==> a == b)
  {
    var rs: Rosters :| Represents(us, rs);
    HeldCopyOk(us, rs, u, i);
    var m := u.multisigs[i];
    var r := rs[m.inviteCode];
    var c :| c in r.members && r.members[c].creator;
    ListedInRoster(m.owners, r.members, c);
    ListedInRoster(m.owners, r.members, a);
    ListedInRoster(m.owners, r.members, b);
  }

  /** Holders and owner addresses are in bijection: each holder has exactly one listed address, and
      whoever has a listed address is a holder. */
  lemma HoldersAndOwnersCorrespond(us: seq<User>, u: User, i: nat, v: User)
    requires Consistent(us) && u in us && v in us && i < |u.multisigs|
    ensures var m := u.multisigs[i];
            && (Holds(v, m.inviteCode) <==> exists a :: OwnerListed(m.owners, a) && HasAddress(v, a))
            && (forall a, b :: OwnerListed(m.owners, a) && OwnerListed(m.owners, b) ==>
                  HasAddress(v, a) && HasAddress(v, b) ==> a == b)
            && (forall a :: OwnerListed(m.owners, a) ==> exists w :: w in us && HasAddress(w, a))
  {
    var rs: Rosters :| Represents(us, rs);
    HeldCopyOk(us, rs, u, i);
    var m := u.multisigs[i];
    var c := m.inviteCode;
    var r := rs[c];
    assert RosterOk(r) && Backed(us, r);
    HolderIffMember(us, rs, v, c);
    if Holds(v, c) {
      var a :| a in r.members && r.members[a].userID == v.userID && HasAddress(v, a);
      ListedInRoster(m.owners, r.members, a);
    }
    forall a | OwnerListed(m.owners, a)
      ensures a in r.members && (HasAddress(v, a) ==> r.members[a].userID == v.userID && Holds(v, c))
      ensures exists w :: w in us && HasAddress(w, a)
    {
      ListedInRoster(m.owners, r.members, a);
      assert SeatTaken(us, r, a);
      if HasAddress(v, a) { SeatOwner(us, rs, c, a, v); }
    }
  }

  // ---------------------------------------------------------------- leave

  /** Leaving keeps the copies consistent exactly when the request was refused or the address sent
      belongs to the user sent. */
  lemma LeaveKeepsConsistencyIff(us: seq<User>, msg: MultisigMsg, vs: seq<User>)
    requires Consistent(us) && LeaveStep(us, msg, vs)
    ensures Consistent(vs) <==> LeaveReply(us, msg) != Done || Related(us, msg.userID, msg.address)
  {
    var rs: Rosters :| Represents(us, rs);
    if LeaveReply(us, msg) == Done {
      LeaveCases(us, msg, vs, rs);
    }
  }

  lemma LeaveIsRemoval(us: seq<User>, msg: MultisigMsg, vs: seq<User>)
    requires Directory(us) && LeaveStep(us, msg, vs) && LeaveReply(us, msg) == Done
    ensures exists k0 :: FirstWithId(us, msg.userID, k0)
              && SeatRemoved(us, vs, k0, msg.inviteCode,
                             OwnersWithout(FoundCopy(us, msg.inviteCode).value.owners, msg.address))
  {
    var c := msg.inviteCode;
    var kept := OwnersWithout(FoundCopy(us, c).value.owners, msg.address);
    var k0 :| FirstWithId(us, msg.userID, k0)
      && var mid := Dropped(us, k0, c);
         Rewritten(mid, vs, IdsOf(HoldersOf(mid, c)), c, kept, WAITING_FOR_JOIN);
    var mid := Dropped(us, k0, c);
    forall k | 0 <= k < |us| && k != k0 && Holds(us[k], c) ensures us[k].userID in IdsOf(HoldersOf(mid, c)) {
      assert mid[k] == us[k] && mid[k] in mid && us[k] in HoldersOf(mid, c);
    }
    RewrittenIsSeatRemoved(us, vs, k0, c, IdsOf(HoldersOf(mid, c)), kept);
  }

  lemma LeaveCases(us: seq<User>, msg: MultisigMsg, vs: seq<User>, rs: Rosters)
    requires Represents(us, rs) && LeaveStep(us, msg, vs) && LeaveReply(us, msg) == Done
    ensures msg.inviteCode in rs
    ensures msg.address in rs[msg.inviteCode].members && !rs[msg.inviteCode].members[msg.address].creator
    ensures Related(us, msg.userID, msg.address) ==> Represents(vs, WithoutMember(rs, msg.inviteCode, msg.address))
    ensures !Related(us, msg.userID, msg.address) ==> !Consistent(vs)
  {
    var c, x := msg.inviteCode, msg.address;
    FoundMatches(us, rs, c);
    var found := FoundCopy(us, c).value;
    ListedInRoster(found.owners, rs[c].members, x);
    LeaveIsRemoval(us, msg, vs);
    var k0 :| FirstWithId(us, msg.userID, k0) && SeatRemoved(us, vs, k0, c, OwnersWithout(found.owners, x));
    assert Backed(us, rs[c]) && SeatTaken(us, rs[c], x);
    var w :| w in us && w.userID == rs[c].members[x].userID && HasAddress(w, x);
    var k :| 0 <= k < |us| && us[k] == w;
    if Related(us, msg.userID, x) {
      var y :| y in us && y.userID == msg.userID && HasAddress(y, x);
      SameIdSameUser(us, y, us[k0]);
      SeatRemovedRefines(us, vs, rs, c, x, k0, found);
    } else {
      assert us[k0] in us && k != k0;
      SeatOwner(us, rs, c, x, us[k]);
      CopyWithoutSeat(us, vs, rs, c, x, k0, found, k);
    }
  }

  // ---------------------------------------------------------------- kick

  /** When is a kick harmless? The address is a current non-creator owner; or its user is the only
      holder; or its user holds nothing and the multisig is not full. */
  ghost predicate KickSafe(us: seq<User>, msg: MultisigMsg)
    requires FoundCopy(us, msg.inviteCode).Some?
  {
    var found := FoundCopy(us, msg.inviteCode).value;
    var x := msg.addressToKick;
    || (OwnerListed(found.owners, x) && !CreatorListed(found.owners, x))
    || (forall u :: u in us && Holds(u, msg.inviteCode) ==> HasAddress(u, x))
    || ((forall u :: u in us && HasAddress(u, x) ==> !Holds(u, msg.inviteCode)) && |found.owners| < found.ownersCount)
  }

  lemma KickKeepsConsistencyIff(us: seq<User>, msg: MultisigMsg, vs: seq<User>)
    requires Consistent(us) && KickStep(us, msg, vs)
    ensures Consistent(vs) <==> KickReply(us, msg) != Done || KickSafe(us, msg)
  {
    var rs: Rosters :| Represents(us, rs);
    if KickReply(us, msg) == Done {
      KickIsRemoval(us, msg, vs, rs);
      var k0 :| FirstWithAddress(us, msg.addressToKick, k0)
        && SeatRemoved(us, vs, k0, msg.inviteCode,
                       OwnersWithout(FoundCopy(us, msg.inviteCode).value.owners, msg.addressToKick));
      if KickSafe(us, msg) {
        SafeKick(us, msg, vs, rs, k0);
      } else {
        UnsafeKick(us, msg, vs, rs, k0);
      }
    }
  }

  lemma KickIsRemoval(us: seq<User>, msg: MultisigMsg, vs: seq<User>, rs: Rosters)
    requires Represents(us, rs) && KickStep(us, msg, vs) && KickReply(us, msg) == Done
    ensures exists k0 :: FirstWithAddress(us, msg.addressToKick, k0)
              && SeatRemoved(us, vs, k0, msg.inviteCode,
                             OwnersWithout(FoundCopy(us, msg.inviteCode).value.owners, msg.addressToKick))
  {
    var c := msg.inviteCode;
    var kept := OwnersWithout(FoundCopy(us, c).value.owners, msg.addressToKick);
    var k0 :| FirstWithAddress(us, msg.addressToKick, k0)
      && Rewritten(Dropped(us, k0, c), vs, IdsOf(HoldersOf(us, c)), c, kept, WAITING_FOR_JOIN);
    forall k | 0 <= k < |us| && k != k0 && Holds(us[k], c) ensures us[k].userID in IdsOf(HoldersOf(us, c)) {
      assert us[k] in HoldersOf(us, c);
    }
    RewrittenIsSeatRemoved(us, vs, k0, c, IdsOf(HoldersOf(us, c)), kept);
  }

  ghost predicate Kicks(us: seq<User>, msg: MultisigMsg, vs: seq<User>, rs: Rosters, k0: nat) {
    && Represents(us, rs) && KickReply(us, msg) == Done
    && FirstWithAddress(us, msg.addressToKick, k0)
    && SeatRemoved(us, vs, k0, msg.inviteCode,
                   OwnersWithout(FoundCopy(us, msg.inviteCode).value.owners, msg.addressToKick))
  }

  lemma SafeKick(us: seq<User>, msg: MultisigMsg, vs: seq<User>, rs: Rosters, k0: nat)
    requires Kicks(us, msg, vs, rs, k0) && KickSafe(us, msg)
    ensures Consistent(vs)
  {
    var c, x := msg.inviteCode, msg.addressToKick;
    FoundMatches(us, rs, c);
    var found := FoundCopy(us, c).value;
    ListedInRoster(found.owners, rs[c].members, x);
    assert us[k0] in us && HasAddress(us[k0], x);
    if OwnerListed(found.owners, x) && !CreatorListed(found.owners, x) {
      SeatRemovedRefines(us, vs, rs, c, x, k0, found);
    } else if forall u :: u in us && Holds(u, c) ==> HasAddress(u, x) {
      forall k | 0 <= k < |us| && Holds(us[k], c) ensures k == k0 { assert us[k] in us; }
      LastCopyRemovedRefines(us, vs, rs, c, x, k0, found);
    } else {
      if x in rs[c].members { SeatOwner(us, rs, c, x, us[k0]); }
      StrangerRemovedRefines(us, vs, rs, c, x, k0, found);
    }
  }

  lemma UnsafeKick(us: seq<User>, msg: MultisigMsg, vs: seq<User>, rs: Rosters, k0: nat)
    requires Kicks(us, msg, vs, rs, k0) && !KickSafe(us, msg)
    ensures !Consistent(vs)
  {
    var c, x := msg.inviteCode, msg.addressToKick;
    FoundMatches(us, rs, c);
    var found := FoundCopy(us, c).value;
    ListedInRoster(found.owners, rs[c].members, x);
    var u :| u in us && Holds(u, c) && !HasAddress(u, x);
    var k :| 0 <= k < |us| && us[k] == u;
    assert us[k0] in us && RosterOk(rs[c]);
    if x in rs[c].members {
      NobodyIsCreator(us, vs, rs, c, x, k0, found, k);
    } else if Holds(us[k0], c) {
      SeatWithoutCopy(us, vs, rs, c, x, k0, found, k);
    } else {
      FullButWaiting(us, vs, rs, c, x, k0, found, k);
    }
  }

  // ---------------------------------------------------------------- delete

  /** Deleting removes every copy and frees the code. */
  lemma DeleteRefines(us: seq<User>, msg: MultisigMsg, vs: seq<User>, rs: Rosters)
    requires Represents(us, rs) && DeleteStep(us, msg, vs) && DeleteReply(us, msg) == Done
    ensures Represents(vs, rs - {msg.inviteCode})
    ensures FoundCopy(vs, msg.inviteCode) == None
  {
    var c := msg.inviteCode;
    forall k | 0 <= k < |us|
      ensures vs[k].userID == us[k].userID && vs[k].wallets == us[k].wallets && UserMatches(vs[k], rs - {c})
    {
      assert us[k] in us && UserMatches(us[k], rs);
      DroppedUserMatches(us[k], vs[k], rs, c, rs - {c});
    }
    RepresentsAfter(us, vs, rs, c, rs - {c});
    FoundMatches(vs, rs - {c}, c);
  }

  // ---------------------------------------------------------------- create

  /** An accepted create keeps the copies consistent exactly when the lower-cased code is free and the
      lower-cased address belongs to the creating user. */
  ghost predicate CreateSafe(us: seq<User>, userID: string, p: CreateParams) {
    FoundCopy(us, Lower(p.inviteCode)).None? && Related(us, userID, Lower(p.address))
  }

  lemma CreateKeepsConsistencyIff(us: seq<User>, userID: string, p: CreateParams, vs: seq<User>)
    requires Consistent(us) && CreateStep(us, userID, p, vs)
    ensures Consistent(vs) <==> !CreateAccepted(us, userID, p) || CreateSafe(us, userID, p)
  {
    var rs: Rosters :| Represents(us, rs);
    if CreateAccepted(us, userID, p) {
      var copy := NewMultisig(p, userID);
      var k0 :| 0 <= k0 < |us| && us[k0].userID == userID
        && vs == us[k0 := us[k0].(multisigs := us[k0].multisigs + [copy])];
      FoundMatches(us, rs, copy.inviteCode);
      if CreateSafe(us, userID, p) {
        CreateRefines(us, userID, p, vs, rs, k0);
      } else {
        CreateBreaks(us, userID, p, vs, rs, k0);
      }
    }
  }

  lemma CreateRefines(us: seq<User>, userID: string, p: CreateParams, vs: seq<User>, rs: Rosters, k0: nat)
    requires Represents(us, rs) && k0 < |us| && us[k0].userID == userID && p.ownersCount >= 2
    requires vs == us[k0 := us[k0].(multisigs := us[k0].multisigs + [NewMultisig(p, userID)])]
    requires Lower(p.inviteCode) !in rs && Related(us, userID, Lower(p.address))
    ensures var r := Roster(p.currencyID, p.networkID, p.signaturesRequired, p.ownersCount,
                            map[Lower(p.address) := Member(userID, true)]);
            Represents(vs, rs[Lower(p.inviteCode) := r])
  {
    var c, a := Lower(p.inviteCode), Lower(p.address);
    var r := Roster(p.currencyID, p.networkID, p.signaturesRequired, p.ownersCount, map[a := Member(userID, true)]);
    var w :| w in us && w.userID == userID && HasAddress(w, a);
    assert us[k0] in us;
    SameIdSameUser(us, w, us[k0]);
    assert r.members.Keys == {a};
    assert |r.members| == |r.members.Keys| == 1;
    assert r.members[a].creator && MemberOf(r, us[k0]);
    assert RosterOk(r);
    assert SeatTaken(us, r, a);
    forall k | 0 <= k < |us|
      ensures vs[k].userID == us[k].userID && vs[k].wallets == us[k].wallets && UserMatches(vs[k], rs[c := r])
    {
      assert us[k] in us && UserMatches(us[k], rs);
      HolderIffMember(us, rs, us[k], c);
      if k == k0 {
        PushedUserMatches(us[k], vs[k], rs, c, r, NewMultisig(p, userID));
      } else {
        OtherUserMatches(us[k], rs, c, rs[c := r]);
      }
    }
    RepresentsAfter(us, vs, rs, c, rs[c := r]);
  }

  /** Any roster that would describe the new copy has the new owner as its only seat. */
  lemma NewCopyPinsRoster(vs: seq<User>, rs': Rosters, k0: nat, userID: string, p: CreateParams)
    requires Represents(vs, rs') && k0 < |vs| && vs[k0].multisigs != []
    requires vs[k0].multisigs[|vs[k0].multisigs| - 1] == NewMultisig(p, userID)
    ensures Lower(p.inviteCode) in rs' && rs'[Lower(p.inviteCode)].members.Keys == {Lower(p.address)}
    ensures HasAddress(vs[k0], Lower(p.address))
    ensures forall k :: 0 <= k < |vs| && Holds(vs[k], Lower(p.inviteCode)) ==> k == k0
  {
    var c, a := Lower(p.inviteCode), Lower(p.address);
    var n := |vs[k0].multisigs| - 1;
    var copy := vs[k0].multisigs[n];
    assert vs[k0] in vs;
    HeldCopyOk(vs, rs', vs[k0], n);
    OwnersMatchKeys(copy.owners, rs'[c].members);
    assert AddressesOf(copy.owners) == {a} by {
      assert copy.owners[..0] == [];
    }
    assert MemberOf(rs'[c], vs[k0]);
    forall k | 0 <= k < |vs| && Holds(vs[k], c) ensures k == k0 {
      assert vs[k] in vs;
      HolderIffMember(vs, rs', vs[k], c);
    }
  }

  lemma CreateBreaks(us: seq<User>, userID: string, p: CreateParams, vs: seq<User>, rs: Rosters, k0: nat)
    requires Represents(us, rs) && k0 < |us| && us[k0].userID == userID
    requires vs == us[k0 := us[k0].(multisigs := us[k0].multisigs + [NewMultisig(p, userID)])]
    requires Lower(p.inviteCode) in rs || !Related(us, userID, Lower(p.address))
    ensures !Consistent(vs)
  {
    var c := Lower(p.inviteCode);
    SameAddresses(us[k0], vs[k0]);
    assert us[k0] in us;
    if Holds(us[k0], c) {
      SecondCopy(us[k0], vs[k0], c);
      assert vs[k0] in vs;
      forall rs': Rosters ensures !Represents(vs, rs') { assert !UserMatches(vs[k0], rs'); }
    } else if Consistent(vs) {
      var rs': Rosters :| Represents(vs, rs');
      if c in rs {
        FoundMatches(us, rs, c);
        var u :| u in us && Holds(u, c);
        var k :| 0 <= k < |us| && us[k] == u;
        assert vs[k] == u;
        NewCopyPinsRoster(vs, rs', k0, userID, p);
      } else {
        NewCopyPinsRoster(vs, rs', k0, userID, p);
      }
    }
  }

  lemma SecondCopy(u: User, v: User, c: string)
    requires Holds(u, c) && |v.multisigs| == |u.multisigs| + 1 && u.multisigs == v.multisigs[..|u.multisigs|]
    requires v.multisigs[|u.multisigs|].inviteCode == c
    ensures !DistinctCodes(v.multisigs)
  {
    var i :| 0 <= i < |u.multisigs| && u.multisigs[i].inviteCode == c;
    assert v.multisigs[i].inviteCode == v.multisigs[|u.multisigs|].inviteCode;
  }

  // ---------------------------------------------------------------- runs

  datatype Event =
    | Create(userID: string, params: CreateParams)
    | Join(msg: MultisigMsg)
    | Leave(msg: MultisigMsg)
    | Kick(msg: MultisigMsg)
    | Delete(msg: MultisigMsg)

  ghost predicate Step(us: seq<User>, e: Event, vs: seq<User>) {
    match e
    case Create(userID, p) => CreateStep(us, userID, p, vs)
    case Join(msg) => JoinStep(us, msg, vs)
    case Leave(msg) => LeaveStep(us, msg, vs)
    case Kick(msg) => KickStep(us, msg, vs)
    case Delete(msg) => DeleteStep(us, msg, vs)
  }

  /** What a caller can check before sending the event. Join and delete need nothing. */
  ghost predicate Safe(us: seq<User>, e: Event) {
    match e
    case Create(userID, p) => !CreateAccepted(us, userID, p) || CreateSafe(us, userID, p)
    case Join(_) => true
    case Leave(msg) => LeaveReply(us, msg) != Done || Related(us, msg.userID, msg.address)
    case Kick(msg) => KickReply(us, msg) != Done || KickSafe(us, msg)
    case Delete(_) => true
  }

  lemma StepKeepsConsistencyIff(us: seq<User>, e: Event, vs: seq<User>)
    requires Consistent(us) && Step(us, e, vs)
    ensures Consistent(vs) <==> Safe(us, e)
  {
    match e
    case Create(userID, p) => CreateKeepsConsistencyIff(us, userID, p, vs);
    case Join(msg) =>
      var rs: Rosters :| Represents(us, rs);
      if JoinReply(us, msg) == Done { JoinRefines(us, msg, vs, rs); }
    case Leave(msg) => LeaveKeepsConsistencyIff(us, msg, vs);
    case Kick(msg) => KickKeepsConsistencyIff(us, msg, vs);
    case Delete(msg) =>
      var rs: Rosters :| Represents(us, rs);
      if DeleteReply(us, msg) == Done { DeleteRefines(us, msg, vs, rs); }
  }

  ghost predicate Run(states: seq<seq<User>>, events: seq<Event>) {
    && |states| == |events| + 1
    && forall i {:trigger events[i]} :: 0 <= i < |events| ==> Step(states[i], events[i], states[i + 1])
  }

  lemma EmptyIsConsistent(us: seq<User>)
    requires Directory(us) && forall u :: u in us ==> u.multisigs == []
    ensures Consistent(us)
  {
    var rs: Rosters := map[];
    assert Represents(us, rs);
  }

  lemma {:induction false} SafePrefixIsConsistent(states: seq<seq<User>>, events: seq<Event>, n: nat)
    requires Run(states, events) && Consistent(states[0]) && n <= |events|
    requires forall i :: 0 <= i < n ==> Safe(states[i], events[i])
    ensures Consistent(states[n])
  {
    if n > 0 {
      SafePrefixIsConsistent(states, events, n - 1);
      StepKeepsConsistencyIff(states[n - 1], events[n - 1], states[n]);
    }
  }

  /** Over a whole run, every state is consistent exactly when every event was safe where it happened. */
  lemma RunStaysConsistentIff(states: seq<seq<User>>, events: seq<Event>)
    requires Run(states, events) && Consistent(states[0])
    ensures (forall i :: 0 <= i < |states| ==> Consistent(states[i])) <==>
            (forall i :: 0 <= i < |events| ==> Safe(states[i], events[i]))
  {
    if forall i :: 0 <= i < |events| ==> Safe(states[i], events[i]) {
      forall n | 0 <= n < |states| ensures Consistent(states[n]) { SafePrefixIsConsistent(states, events, n); }
    }
    if forall i :: 0 <= i < |states| ==> Consistent(states[i]) {
      forall i | 0 <= i < |events| ensures Safe(states[i], events[i]) {
        StepKeepsConsistencyIff(states[i], events[i], states[i + 1]);
      }
    }
  }

  // ---------------------------------------------------------------- what a step leaves alone

  lemma {:induction false} WithoutAppend(ms: seq<Multisig>, m: Multisig, c: string)
    ensures Without(ms + [m], c) == if m.inviteCode == c then Without(ms, c) else Without(ms, c) + [m]
  {
    assert (ms + [m])[..|ms|] == ms;
  }

  lemma {:induction false} WithoutTwice(ms: seq<Multisig>, c: string)
    ensures Without(Without(ms, c), c) == Without(ms, c)
  {
    if ms != [] {
      WithoutTwice(ms[..|ms| - 1], c);
      if ms[|ms| - 1].inviteCode != c { WithoutAppend(Without(ms[..|ms| - 1], c), ms[|ms| - 1], c); }
    }
  }

  lemma {:induction false} WithoutReplaced(ms: seq<Multisig>, i: nat, m: Multisig, c: string)
    requires i < |ms| && ms[i].inviteCode == c && m.inviteCode == c
    ensures Without(ms[i := m], c) == Without(ms, c)
  {
    var n := |ms| - 1;
    var after := ms[i := m];
    if i < n {
      assert after[..n] == ms[..n][i := m] && after[n] == ms[n];
      WithoutReplaced(ms[..n], i, m, c);
      assert Without(after[..n], c) == Without(ms[..n], c);
    } else {
      assert after[..n] == ms[..n] && after[n] == m;
    }
  }

  /** Ids and wallets never change, and neither do the copies of any other code. */
  ghost predicate OthersUntouched(us: seq<User>, vs: seq<User>, c: string) {
    && SameAccounts(us, vs)
    && forall k {:trigger vs[k]} :: 0 <= k < |us| ==> Without(vs[k].multisigs, c) == Without(us[k].multisigs, c)
  }

  lemma RewrittenOthersUntouched(us: seq<User>, vs: seq<User>, ids: set<string>, c: string,
                                 owners: seq<AddressExtended>, status: int)
    requires Rewritten(us, vs, ids, c, owners, status)
    ensures OthersUntouched(us, vs, c)
  {
    forall k {:trigger vs[k]} | 0 <= k < |us|
      ensures vs[k].userID == us[k].userID && vs[k].wallets == us[k].wallets
      ensures Without(vs[k].multisigs, c) == Without(us[k].multisigs, c)
    {
      if us[k].userID in ids && Holds(us[k], c) {
        assert CopyRewritten(us[k], vs[k], c, owners, status);
        var fo :| Lists(fo, OwnersFor(us[k], owners))
          && vs[k] == us[k].(multisigs := SetCopy(us[k].multisigs, c, fo, status));
        var i := CopyIndex(us[k].multisigs, c);
        if i < |us[k].multisigs| {
          WithoutReplaced(us[k].multisigs, i, us[k].multisigs[i].(owners := fo, deployStatus := status), c);
        }
      }
    }
  }

  lemma DroppedOthersUntouched(us: seq<User>, k: nat, c: string)
    requires k < |us|
    ensures OthersUntouched(us, Dropped(us, k, c), c)
  {
    WithoutTwice(us[k].multisigs, c);
  }

  function CodeOf(e: Event): string {
    match e
    case Create(_, p) => Lower(p.inviteCode)
    case Join(msg) => msg.inviteCode
    case Leave(msg) => msg.inviteCode
    case Kick(msg) => msg.inviteCode
    case Delete(msg) => msg.inviteCode
  }

  /** No event, safe or not, touches another invite code or anybody's wallets. */
  lemma StepLeavesOthersAlone(us: seq<User>, e: Event, vs: seq<User>)
    requires Step(us, e, vs)
    ensures OthersUntouched(us, vs, CodeOf(e))
  {
    match e
    case Create(userID, p) =>
      if CreateAccepted(us, userID, p) { PushedOthersUntouched(us, vs, userID, NewMultisig(p, userID)); }
    case Join(msg) => JoinLeavesOthersAlone(us, msg, vs);
    case Leave(msg) => LeaveLeavesOthersAlone(us, msg, vs);
    case Kick(msg) => KickLeavesOthersAlone(us, msg, vs);
    case Delete(msg) =>
      if DeleteReply(us, msg) == Done {
        forall k {:trigger vs[k]} | 0 <= k < |us|
          ensures Without(vs[k].multisigs, msg.inviteCode) == Without(us[k].multisigs, msg.inviteCode)
        {
          WithoutTwice(us[k].multisigs, msg.inviteCode);
        }
      }
  }

  lemma DropAndRewrite(us: seq<User>, k: nat, vs: seq<User>, ids: set<string>, c: string, kept: seq<AddressExtended>)
    requires k < |us| && Rewritten(Dropped(us, k, c), vs, ids, c, kept, WAITING_FOR_JOIN)
    ensures OthersUntouched(us, vs, c)
  {
    DroppedOthersUntouched(us, k, c);
    RewrittenOthersUntouched(Dropped(us, k, c), vs, ids, c, kept, WAITING_FOR_JOIN);
  }

  lemma PushAndRewrite(us: seq<User>, mid: seq<User>, vs: seq<User>, userID: string, copy: Multisig, ids: set<string>,
                       status: int)
    requires Pushed(us, mid, userID, copy) && Rewritten(mid, vs, ids, copy.inviteCode, copy.owners, status)
    ensures OthersUntouched(us, vs, copy.inviteCode)
  {
    PushedOthersUntouched(us, mid, userID, copy);
    RewrittenOthersUntouched(mid, vs, ids, copy.inviteCode, copy.owners, status);
  }

  lemma JoinLeavesOthersAlone(us: seq<User>, msg: MultisigMsg, vs: seq<User>)
    requires JoinStep(us, msg, vs)
    ensures OthersUntouched(us, vs, msg.inviteCode)
  {
    if JoinReply(us, msg) == Done {
      var c := msg.inviteCode;
      var found := FoundCopy(us, c).value;
      var copy := JoinedCopy(found, msg);
      var mid :| Pushed(us, mid, msg.userID, copy)
        && Rewritten(mid, vs, IdsOf(HoldersOf(us, c)), c, copy.owners, JoinStatus(found));
      PushAndRewrite(us, mid, vs, msg.userID, copy, IdsOf(HoldersOf(us, c)), JoinStatus(found));
    }
  }

  lemma LeaveLeavesOthersAlone(us: seq<User>, msg: MultisigMsg, vs: seq<User>)
    requires LeaveStep(us, msg, vs)
    ensures OthersUntouched(us, vs, msg.inviteCode)
  {
    if LeaveReply(us, msg) == Done {
      var c := msg.inviteCode;
      var kept := OwnersWithout(FoundCopy(us, c).value.owners, msg.address);
      var k :| FirstWithId(us, msg.userID, k)
        && var mid := Dropped(us, k, c); Rewritten(mid, vs, IdsOf(HoldersOf(mid, c)), c, kept, WAITING_FOR_JOIN);
      DropAndRewrite(us, k, vs, IdsOf(HoldersOf(Dropped(us, k, c), c)), c, kept);
    }
  }

  lemma KickLeavesOthersAlone(us: seq<User>, msg: MultisigMsg, vs: seq<User>)
    requires KickStep(us, msg, vs)
    ensures OthersUntouched(us, vs, msg.inviteCode)
  {
    if KickReply(us, msg) == Done {
      var c := msg.inviteCode;
      var kept := OwnersWithout(FoundCopy(us, c).value.owners, msg.addressToKick);
      var k :| FirstWithAddress(us, msg.addressToKick, k)
        && Rewritten(Dropped(us, k, c), vs, IdsOf(HoldersOf(us, c)), c, kept, WAITING_FOR_JOIN);
      DropAndRewrite(us, k, vs, IdsOf(HoldersOf(us, c)), c, kept);
    }
  }

  lemma PushedOthersUntouched(us: seq<User>, vs: seq<User>, userID: string, copy: Multisig)
    requires Pushed(us, vs, userID, copy)
    ensures OthersUntouched(us, vs, copy.inviteCode)
  {
    var k :| 0 <= k < |us| && us[k].userID == userID && vs == us[k := us[k].(multisigs := us[k].multisigs + [copy])];
    WithoutAppend(us[k].multisigs, copy, copy.inviteCode);
  }
}
