/** Leave and kick: one user's copy is dropped, every other copy is rewritten.
    When the dropped copy and the removed address belong together the rosters are refined; otherwise
    the copies that remain cannot describe any roster. */
module SeatRemoval {
  import opened Schemas
  import opened Membership
  import opened Roster
  import opened MembershipProtocol

  /** The common effect of leave and kick. */
  ghost predicate SeatRemoved(us: seq<User>, vs: seq<User>, k0: nat, c: string, owners: seq<AddressExtended>) {
    && |vs| == |us| && k0 < |us|
    && vs[k0] == us[k0].(multisigs := Without(us[k0].multisigs, c))
    && forall k {:trigger vs[k]} :: 0 <= k < |us| && k != k0 ==>
         if Holds(us[k], c) then CopyRewritten(us[k], vs[k], c, owners, WAITING_FOR_JOIN) else vs[k] == us[k]
  }

  lemma DroppedHoldsNothing(us: seq<User>, k: nat, c: string)
    requires k < |us|
    ensures !Holds(Dropped(us, k, c)[k], c)
  {
    var ms := Without(us[k].multisigs, c);
    forall i | 0 <= i < |ms| ensures ms[i].inviteCode != c { assert ms[i] in ms; }
  }

  lemma RewrittenIsSeatRemoved(us: seq<User>, vs: seq<User>, k0: nat, c: string, ids: set<string>,
                               owners: seq<AddressExtended>)
    requires Directory(us) && k0 < |us|
    requires Rewritten(Dropped(us, k0, c), vs, ids, c, owners, WAITING_FOR_JOIN)
    requires forall k :: 0 <= k < |us| && k != k0 && Holds(us[k], c) ==> us[k].userID in ids
    ensures SeatRemoved(us, vs, k0, c, owners)
  {
    DroppedHoldsNothing(us, k0, c);
    forall k {:trigger vs[k]} | 0 <= k < |us| && k != k0
      ensures if Holds(us[k], c) then CopyRewritten(us[k], vs[k], c, owners, WAITING_FOR_JOIN) else vs[k] == us[k]
    {
      assert Dropped(us, k0, c)[k] == us[k];
    }
  }

  lemma {:induction false} OwnersWithoutMatch(owners: seq<AddressExtended>, members: map<string, Member>, x: string)
    requires OwnersMatch(owners, members)
    ensures OwnersMatch(OwnersWithout(owners, x), members - {x})
  {
    OwnersWithoutDistinct(owners, x);
    OwnersMatchKeys(owners, members);
    var kept := OwnersWithout(owners, x);
    forall i | 0 <= i < |kept|
      ensures kept[i].address in members - {x} && (members - {x})[kept[i].address].creator == kept[i].creator
    {
      assert kept[i] in owners;
    }
    DistinctCount(kept);
    forall a ensures a in AddressesOf(kept) <==> a in (members - {x}).Keys {
      AddressListed(kept, a);
      AddressListed(owners, a);
      if a in (members - {x}).Keys {
        var i :| 0 <= i < |owners| && owners[i].address == a;
        assert owners[i] in kept;
      }
      if i :| 0 <= i < |kept| && kept[i].address == a { assert kept[i] in kept; }
    }
    assert AddressesOf(kept) == (members - {x}).Keys;
  }

  lemma {:induction false} OwnersWithoutDistinct(owners: seq<AddressExtended>, x: string)
    requires DistinctAddresses(owners)
    ensures DistinctAddresses(OwnersWithout(owners, x))
  {
    if owners != [] {
      var init, last := owners[..|owners| - 1], owners[|owners| - 1];
      OwnersWithoutDistinct(init, x);
      var kept := OwnersWithout(init, x);
      forall i | 0 <= i < |kept| ensures kept[i].address != last.address { assert kept[i] in init; }
    }
  }

  /** Who is listed, in terms of the roster. */
  lemma ListedInRoster(owners: seq<AddressExtended>, members: map<string, Member>, a: string)
    requires OwnersMatch(owners, members)
    ensures OwnerListed(owners, a) <==> a in members
    ensures CreatorListed(owners, a) <==> a in members && members[a].creator
  {
    OwnersMatchKeys(owners, members);
    AddressListed(owners, a);
  }

  // ---------------------------------------------------------------- the good case

  lemma SmallerRosterOk(r: Roster, x: string)
    requires RosterOk(r) && x in r.members && !r.members[x].creator
    ensures RosterOk(r.(members := r.members - {x}))
    ensures |r.members - {x}| == |r.members| - 1
  {
    var ms := r.members - {x};
    assert ms.Keys == r.members.Keys - {x};
    assert |ms| == |ms.Keys| == |r.members.Keys| - 1;
    var b :| b in r.members && r.members[b].creator;
    assert b in ms && ms[b].creator;
  }

  lemma RemovedUser(us: seq<User>, vs: seq<User>, rs: Rosters, c: string, x: string, k0: nat, found: Multisig, k: nat)
    requires Represents(us, rs) && c in rs && Matches(found, rs[c])
    requires SeatRemoved(us, vs, k0, c, OwnersWithout(found.owners, x))
    requires x in rs[c].members && !rs[c].members[x].creator && HasAddress(us[k0], x)
    requires k < |us|
    ensures vs[k].userID == us[k].userID && vs[k].wallets == us[k].wallets
    ensures UserMatches(vs[k], WithoutMember(rs, c, x))
  {
    var r := rs[c];
    var rs' := WithoutMember(rs, c, x);
    var r' := rs'[c];
    assert RosterOk(r);
    SmallerRosterOk(r, x);
    OwnersWithoutMatch(found.owners, r.members, x);
    assert us[k] in us && UserMatches(us[k], rs);
    HolderIffMember(us, rs, us[k], c);
    SeatOwner(us, rs, c, x, us[k0]);
    if k == k0 {
      forall a | a in r'.members ensures r'.members[a].userID != us[k].userID {
        assert r.members[x].userID == us[k].userID && a != x;
      }
      DroppedUserMatches(us[k], vs[k], rs, c, rs');
    } else if Holds(us[k], c) {
      var a :| a in r.members && r.members[a].userID == us[k].userID && HasAddress(us[k], a);
      assert a != x;
      assert a in r'.members && r'.members[a] == r.members[a];
      RewrittenUserMatches(us[k], vs[k], rs, c, r', OwnersWithout(found.owners, x), WAITING_FOR_JOIN);
    } else {
      OtherUserMatches(us[k], rs, c, rs');
    }
  }

  /** Removing a non-creator owner together with his copy is removing his seat from the roster. */
  lemma SeatRemovedRefines(us: seq<User>, vs: seq<User>, rs: Rosters, c: string, x: string, k0: nat, found: Multisig)
    requires Represents(us, rs) && c in rs && Matches(found, rs[c])
    requires SeatRemoved(us, vs, k0, c, OwnersWithout(found.owners, x))
    requires x in rs[c].members && !rs[c].members[x].creator && HasAddress(us[k0], x)
    ensures Represents(vs, WithoutMember(rs, c, x))
    ensures SameAccounts(us, vs)
  {
    var rs' := WithoutMember(rs, c, x);
    forall k | 0 <= k < |us|
      ensures vs[k].userID == us[k].userID && vs[k].wallets == us[k].wallets && UserMatches(vs[k], rs')
    {
      RemovedUser(us, vs, rs, c, x, k0, found, k);
    }
    assert RosterOk(rs[c]) && Backed(us, rs[c]);
    SmallerRosterOk(rs[c], x);
    forall a | a in rs'[c].members ensures SeatTaken(us, rs'[c], a) { assert SeatTaken(us, rs[c], a); }
    RepresentsAfter(us, vs, rs, c, rs');
  }

  // ---------------------------------------------------------------- the remaining copies pin down any roster

  /** If some roster describes the store afterwards, a remaining copy tells what it is. */
  lemma RemainingCopy(us: seq<User>, vs: seq<User>, rs: Rosters, rs': Rosters, c: string, x: string,
                      k0: nat, found: Multisig, k: nat)
    requires Represents(us, rs) && c in rs && Matches(found, rs[c])
    requires SeatRemoved(us, vs, k0, c, OwnersWithout(found.owners, x))
    requires k < |us| && k != k0 && Holds(us[k], c)
    requires Represents(vs, rs')
    ensures c in rs' && MemberOf(rs'[c], us[k])
    ensures rs'[c].members.Keys == rs[c].members.Keys - {x}
    ensures forall a :: a in rs'[c].members ==> rs'[c].members[a].creator == rs[c].members[a].creator
    ensures RosterOk(rs'[c]) && |rs'[c].members| == |rs[c].members - {x}|
    ensures rs'[c].ownersCount == rs[c].ownersCount
    ensures Status(rs'[c]) == WAITING_FOR_JOIN
  {
    var u, v := us[k], vs[k];
    var kept := OwnersWithout(found.owners, x);
    OwnersWithoutMatch(found.owners, rs[c].members, x);
    assert CopyRewritten(u, v, c, kept, WAITING_FOR_JOIN);
    var fo :| Lists(fo, OwnersFor(u, kept)) && v == u.(multisigs := SetCopy(u.multisigs, c, fo, WAITING_FOR_JOIN));
    RewritingKeepsMatch(u, kept, fo, rs[c].members - {x});
    var i := CopyIndex(u.multisigs, c);
    assert UserMatches(u, rs) && CopyOk(u, u.multisigs[i], rs);
    assert v in vs;
    assert UserMatches(v, rs') && CopyOk(v, v.multisigs[i], rs');
    assert v.multisigs[i] == u.multisigs[i].(owners := fo, deployStatus := WAITING_FOR_JOIN);
    SameMembership(u, v, rs'[c]);
    OwnersMatchKeys(fo, rs[c].members - {x});
    OwnersMatchKeys(fo, rs'[c].members);
    forall a | a in rs'[c].members ensures rs'[c].members[a].creator == rs[c].members[a].creator {
      AddressListed(fo, a);
    }
  }

  /** A dropped copy whose owner address is still listed by another copy. */
  lemma SeatWithoutCopy(us: seq<User>, vs: seq<User>, rs: Rosters, c: string, x: string, k0: nat, found: Multisig,
                        k: nat)
    requires Represents(us, rs) && c in rs && Matches(found, rs[c])
    requires SeatRemoved(us, vs, k0, c, OwnersWithout(found.owners, x))
    requires k < |us| && k != k0 && Holds(us[k], c)
    requires Holds(us[k0], c) && !(x in rs[c].members && HasAddress(us[k0], x))
    ensures !Consistent(vs)
  {
    if Consistent(vs) {
      var rs': Rosters :| Represents(vs, rs');
      RemainingCopy(us, vs, rs, rs', c, x, k0, found, k);
      var a := SeatOf(us, rs, c, us[k0]);
      DroppedUserHasNoSeat(us, vs, rs', k0, c, a);
    }
  }

  lemma SeatOf(us: seq<User>, rs: Rosters, c: string, u: User) returns (a: string)
    requires Represents(us, rs) && c in rs && u in us && Holds(u, c)
    ensures a in rs[c].members && HasAddress(u, a)
  {
    HolderIffMember(us, rs, u, c);
    a :| a in rs[c].members && rs[c].members[a].userID == u.userID && HasAddress(u, a);
  }

  lemma DroppedUserHasNoSeat(us: seq<User>, vs: seq<User>, rs': Rosters, k0: nat, c: string, a: string)
    requires |vs| == |us| && k0 < |us| && vs[k0] == us[k0].(multisigs := Without(us[k0].multisigs, c))
    requires Represents(vs, rs') && c in rs' && HasAddress(us[k0], a)
    ensures a !in rs'[c].members
  {
    DroppedHoldsNothing(us, k0, c);
    assert vs[k0] == Dropped(us, k0, c)[k0] && vs[k0] in vs;
    SameAddresses(us[k0], vs[k0]);
    if a in rs'[c].members { SeatOwner(vs, rs', c, a, vs[k0]); }
  }

  /** A copy that remains although its owner address is gone from the list. */
  lemma CopyWithoutSeat(us: seq<User>, vs: seq<User>, rs: Rosters, c: string, x: string, k0: nat, found: Multisig,
                        k: nat)
    requires Represents(us, rs) && c in rs && Matches(found, rs[c])
    requires SeatRemoved(us, vs, k0, c, OwnersWithout(found.owners, x))
    requires k < |us| && k != k0 && Holds(us[k], c)
    requires x in rs[c].members && HasAddress(us[k], x)
    ensures !Consistent(vs)
  {
    if Consistent(vs) {
      var rs': Rosters :| Represents(vs, rs');
      assert RosterOk(rs[c]);
      RemainingCopy(us, vs, rs, rs', c, x, k0, found, k);
      var a :| a in rs'[c].members && rs'[c].members[a].userID == us[k].userID && HasAddress(us[k], a);
      assert us[k] in us;
      SeatOwner(us, rs, c, x, us[k]);
      SeatOwner(us, rs, c, a, us[k]);
    }
  }

  /** A list without the creator, while copies remain. */
  lemma NobodyIsCreator(us: seq<User>, vs: seq<User>, rs: Rosters, c: string, x: string, k0: nat, found: Multisig,
                        k: nat)
    requires Represents(us, rs) && c in rs && Matches(found, rs[c])
    requires SeatRemoved(us, vs, k0, c, OwnersWithout(found.owners, x))
    requires k < |us| && k != k0 && Holds(us[k], c)
    requires x in rs[c].members && rs[c].members[x].creator
    ensures !Consistent(vs)
  {
    if Consistent(vs) {
      var rs': Rosters :| Represents(vs, rs');
      assert RosterOk(rs[c]);
      RemainingCopy(us, vs, rs, rs', c, x, k0, found, k);
    }
  }

  /** A full list marked as waiting. */
  lemma FullButWaiting(us: seq<User>, vs: seq<User>, rs: Rosters, c: string, x: string, k0: nat, found: Multisig,
                       k: nat)
    requires Represents(us, rs) && c in rs && Matches(found, rs[c])
    requires SeatRemoved(us, vs, k0, c, OwnersWithout(found.owners, x))
    requires k < |us| && k != k0 && Holds(us[k], c)
    requires x !in rs[c].members && |rs[c].members| == rs[c].ownersCount
    ensures !Consistent(vs)
  {
    if Consistent(vs) {
      var rs': Rosters :| Represents(vs, rs');
      assert rs[c].members - {x} == rs[c].members;
      RemainingCopy(us, vs, rs, rs', c, x, k0, found, k);
    }
  }

  // ---------------------------------------------------------------- kicks that remove nobody

  /** A stranger is kicked from a multisig that is still waiting: nothing changes for anyone. */
  lemma StrangerRemovedRefines(us: seq<User>, vs: seq<User>, rs: Rosters, c: string, x: string, k0: nat,
                               found: Multisig)
    requires Represents(us, rs) && c in rs && Matches(found, rs[c])
    requires SeatRemoved(us, vs, k0, c, OwnersWithout(found.owners, x))
    requires !Holds(us[k0], c) && x !in rs[c].members && |rs[c].members| < rs[c].ownersCount
    ensures Represents(vs, rs)
    ensures SameAccounts(us, vs)
  {
    forall k | 0 <= k < |us|
      ensures vs[k].userID == us[k].userID && vs[k].wallets == us[k].wallets && UserMatches(vs[k], rs)
    {
      UserAfterStranger(us, vs, rs, c, x, k0, found, k);
    }
    assert RosterOk(rs[c]) && Backed(us, rs[c]);
    RepresentsAfter(us, vs, rs, c, rs);
  }

  lemma UserAfterStranger(us: seq<User>, vs: seq<User>, rs: Rosters, c: string, x: string, k0: nat, found: Multisig,
                          k: nat)
    requires Represents(us, rs) && c in rs && Matches(found, rs[c])
    requires SeatRemoved(us, vs, k0, c, OwnersWithout(found.owners, x))
    requires !Holds(us[k0], c) && x !in rs[c].members && |rs[c].members| < rs[c].ownersCount && k < |us|
    ensures vs[k].userID == us[k].userID && vs[k].wallets == us[k].wallets && UserMatches(vs[k], rs)
  {
    var r := rs[c];
    assert us[k] in us && UserMatches(us[k], rs);
    HolderIffMember(us, rs, us[k], c);
    if k == k0 {
      DroppedUserMatches(us[k], vs[k], rs, c, rs);
    } else if Holds(us[k], c) {
      OwnersWithoutMatch(found.owners, r.members, x);
      assert r.members - {x} == r.members && rs[c := r] == rs;
      RewrittenUserMatches(us[k], vs[k], rs, c, r, OwnersWithout(found.owners, x), WAITING_FOR_JOIN);
    }
  }

  /** The last holder is removed: the code becomes free. */
  lemma LastCopyRemovedRefines(us: seq<User>, vs: seq<User>, rs: Rosters, c: string, x: string, k0: nat,
                               found: Multisig)
    requires Represents(us, rs) && c in rs && Matches(found, rs[c])
    requires SeatRemoved(us, vs, k0, c, OwnersWithout(found.owners, x))
    requires forall k :: 0 <= k < |us| && Holds(us[k], c) ==> k == k0
    ensures Represents(vs, rs - {c})
    ensures SameAccounts(us, vs)
  {
    var rs' := rs - {c};
    forall k | 0 <= k < |us|
      ensures vs[k].userID == us[k].userID && vs[k].wallets == us[k].wallets && UserMatches(vs[k], rs')
    {
      assert us[k] in us && UserMatches(us[k], rs);
      if k == k0 {
        DroppedUserMatches(us[k], vs[k], rs, c, rs');
      } else {
        OtherUserMatches(us[k], rs, c, rs');
      }
    }
    RepresentsAfter(us, vs, rs, c, rs');
  }
}
