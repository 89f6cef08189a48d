/** The simple machine that the replicated copies refine: one roster per invite code. */
module Roster {
  import opened Schemas
  import opened Membership

  datatype Member = Member(userID: string, creator: bool)

  datatype Roster = Roster(
    currencyID: int,
    networkID: int,
    confirmations: int,
    ownersCount: int,
    members: map<string, Member>)

  type Rosters = map<string, Roster>

  function Status(r: Roster): int {
    if |r.members| == r.ownersCount then ALL_JOINED else WAITING_FOR_JOIN
  }

  /** Capacity is respected, one member is the creator, and no user is listed twice. */
  ghost predicate RosterOk(r: Roster) {
    && 2 <= r.ownersCount
    && 1 <= |r.members| <= r.ownersCount
    && (exists a :: a in r.members && r.members[a].creator)
    && (forall a, b :: a in r.members && b in r.members && r.members[a].creator && r.members[b].creator ==> a == b)
    && (forall a, b :: a in r.members && b in r.members && r.members[a].userID == r.members[b].userID ==> a == b)
  }

  ghost predicate MemberOf(r: Roster, u: User) {
    exists a :: a in r.members && r.members[a].userID == u.userID && HasAddress(u, a)
  }

  ghost predicate OwnersMatch(owners: seq<AddressExtended>, members: map<string, Member>) {
    && |owners| == |members|
    && DistinctAddresses(owners)
    && forall i :: 0 <= i < |owners| ==>
         owners[i].address in members && members[owners[i].address].creator == owners[i].creator
  }

  /** A copy tells exactly what the roster says. */
  ghost predicate Matches(copy: Multisig, r: Roster) {
    && copy.currencyID == r.currencyID
    && copy.networkID == r.networkID
    && copy.confirmations == r.confirmations
    && copy.ownersCount == r.ownersCount
    && copy.deployStatus == Status(r)
    && OwnersMatch(copy.owners, r.members)
  }

  /** The assumptions about accounts: ids are unique and an address belongs to at most one user. */
  ghost predicate Directory(users: seq<User>) {
    && UniqueIds(users)
    && (forall i, j, a :: 0 <= i < |users| && 0 <= j < |users| ==>
          HasAddress(users[i], a) && HasAddress(users[j], a) ==> i == j)
  }

  /** One copy held by a user: the user has a seat in the roster, and the copy says what the roster says. */
  ghost predicate CopyOk(u: User, copy: Multisig, rs: Rosters) {
    copy.inviteCode in rs && MemberOf(rs[copy.inviteCode], u) && Matches(copy, rs[copy.inviteCode])
  }

  ghost predicate DistinctCodes(ms: seq<Multisig>) {
    forall i, j :: 0 <= i < j < |ms| ==> ms[i].inviteCode != ms[j].inviteCode
  }

  ghost predicate SeatsHeld(u: User, rs: Rosters) {
    forall c {:trigger MemberOf(rs[c], u)} :: c in rs && MemberOf(rs[c], u) ==> Holds(u, c)
  }

  /** The copies held by one user, against the rosters. */
  ghost predicate UserMatches(u: User, rs: Rosters) {
    && (forall i {:trigger CopyOk(u, u.multisigs[i], rs)} :: 0 <= i < |u.multisigs| ==> CopyOk(u, u.multisigs[i], rs))
    && DistinctCodes(u.multisigs)
    && SeatsHeld(u, rs)
  }

  /** The seat with this address is held by a registered user who owns the address. */
  ghost predicate SeatTaken(users: seq<User>, r: Roster, a: string)
    requires a in r.members
  {
    exists u :: u in users && u.userID == r.members[a].userID && HasAddress(u, a)
  }

  ghost predicate Backed(users: seq<User>, r: Roster) {
    forall a {:trigger SeatTaken(users, r, a)} :: a in r.members ==> SeatTaken(users, r, a)
  }

  ghost predicate Represents(users: seq<User>, rs: Rosters) {
    && Directory(users)
    && (forall c {:trigger RosterOk(rs[c])} {:trigger Backed(users, rs[c])} ::
          c in rs ==> RosterOk(rs[c]) && Backed(users, rs[c]))
    && (forall u {:trigger UserMatches(u, rs)} :: u in users ==> UserMatches(u, rs))
  }

  ghost predicate Consistent(users: seq<User>) {
    exists rs: Rosters :: Represents(users, rs)
  }

  // ---------------------------------------------------------------- the abstract operations

  function WithMember(rs: Rosters, c: string, a: string, m: Member): Rosters
    requires c in rs
  {
    rs[c := rs[c].(members := rs[c].members[a := m])]
  }

  function WithoutMember(rs: Rosters, c: string, a: string): Rosters
    requires c in rs
  {
    rs[c := rs[c].(members := rs[c].members - {a})]
  }

  // ---------------------------------------------------------------- facts about lists of addresses

  function AddressesOf(owners: seq<AddressExtended>): set<string> {
    if owners == [] then {} else AddressesOf(owners[..|owners| - 1]) + {owners[|owners| - 1].address}
  }

  lemma {:induction false} AddressListed(owners: seq<AddressExtended>, a: string)
    ensures a in AddressesOf(owners) <==> exists i :: 0 <= i < |owners| && owners[i].address == a
  {
    if owners != [] {
      var init := owners[..|owners| - 1];
      AddressListed(init, a);
      if i :| 0 <= i < |owners| && owners[i].address == a {
        if i < |init| { assert init[i].address == a; }
      }
      if i :| 0 <= i < |init| && init[i].address == a { assert owners[i].address == a; }
    }
  }

  lemma {:induction false} DistinctCount(owners: seq<AddressExtended>)
    requires DistinctAddresses(owners)
    ensures |AddressesOf(owners)| == |owners|
  {
    if owners != [] {
      var init := owners[..|owners| - 1];
      DistinctCount(init);
      AddressListed(init, owners[|owners| - 1].address);
    }
  }

  lemma SubsetOfEqualSize<T>(a: set<T>, b: set<T>)
    requires a <= b && |a| == |b|
    ensures a == b
  {
    assert b == a + (b - a);
  }

  /** A matching list names every member. */
  lemma OwnersMatchKeys(owners: seq<AddressExtended>, members: map<string, Member>)
    requires OwnersMatch(owners, members)
    ensures AddressesOf(owners) == members.Keys
  {
    DistinctCount(owners);
    forall a | a in AddressesOf(owners) ensures a in members { AddressListed(owners, a); }
    assert |members.Keys| == |members|;
    SubsetOfEqualSize(AddressesOf(owners), members.Keys);
  }

  // ---------------------------------------------------------------- updateUserOwners keeps addresses and creator flags

  lemma {:induction false} OwnerMapFacts(owners: seq<AddressExtended>)
    ensures OwnerMap(owners).Keys == AddressesOf(owners)
    ensures forall a :: a in OwnerMap(owners) ==> OwnerMap(owners)[a].address == a
  {
    if owners != [] {
      OwnerMapFacts(owners[..|owners| - 1]);
    }
  }

  lemma {:induction false} OwnerMapCreator(owners: seq<AddressExtended>, i: nat)
    requires DistinctAddresses(owners) && i < |owners|
    ensures owners[i].address in OwnerMap(owners)
    ensures OwnerMap(owners)[owners[i].address].creator == owners[i].creator
  {
    if i < |owners| - 1 {
      OwnerMapCreator(owners[..|owners| - 1], i);
    }
  }

  /** Tagging with a user's wallets changes neither the addresses nor the creator flags. */
  lemma {:induction false} TaggingKeepsRoster(m: map<string, AddressExtended>, ws: seq<Wallet>, userID: string)
    requires forall a :: a in m ==> m[a].address == a
    ensures TagWallets(m, ws, userID).Keys == m.Keys
    ensures forall a :: a in m ==> TagWallets(m, ws, userID)[a].address == a
    ensures forall a :: a in m ==> TagWallets(m, ws, userID)[a].creator == m[a].creator
  {
    if ws != [] {
      TaggingKeepsRoster(m, ws[..|ws| - 1], userID);
    }
  }

  /** The list stored by updateUserOwners matches the same members, in whatever order the map is iterated. */
  lemma RewritingKeepsMatch(u: User, owners: seq<AddressExtended>, fo: seq<AddressExtended>,
                            members: map<string, Member>)
    requires OwnersMatch(owners, members)
    requires Lists(fo, OwnersFor(u, owners))
    ensures OwnersMatch(fo, members)
  {
    OwnerMapFacts(owners);
    OwnersMatchKeys(owners, members);
    TaggingKeepsRoster(OwnerMap(owners), u.wallets, u.userID);
    assert |OwnersFor(u, owners)| == |OwnersFor(u, owners).Keys| == |members.Keys| == |members|;
    forall i | 0 <= i < |fo| ensures fo[i].address in members && members[fo[i].address].creator == fo[i].creator {
      var a := fo[i].address;
      AddressListed(owners, a);
      var j :| 0 <= j < |owners| && owners[j].address == a;
      OwnerMapCreator(owners, j);
    }
  }

  // ---------------------------------------------------------------- edits of one user's copies

  lemma {:induction false} WithoutKeepsOthers(ms: seq<Multisig>, c: string)
    ensures forall m :: m in ms && m.inviteCode != c ==> m in Without(ms, c)
  {
    if ms != [] {
      WithoutKeepsOthers(ms[..|ms| - 1], c);
      assert ms == ms[..|ms| - 1] + [ms[|ms| - 1]];
    }
  }

  lemma {:induction false} WithoutKeepsDistinct(ms: seq<Multisig>, c: string)
    requires DistinctCodes(ms)
    ensures DistinctCodes(Without(ms, c))
  {
    if ms != [] {
      var init, last := ms[..|ms| - 1], ms[|ms| - 1];
      WithoutKeepsDistinct(init, c);
      var r := Without(init, c);
      forall i | 0 <= i < |r| ensures r[i].inviteCode != last.inviteCode {
        assert r[i] in init;
      }
    }
  }

  /** The two rosters tables differ at most at c. */
  ghost predicate SameElsewhere(rs: Rosters, rs': Rosters, c: string) {
    forall d :: d != c ==> (d in rs <==> d in rs') && (d in rs ==> rs[d] == rs'[d])
  }

  lemma CopyOkElsewhere(u: User, v: User, copy: Multisig, rs: Rosters, rs': Rosters, c: string)
    requires CopyOk(u, copy, rs) && copy.inviteCode != c && SameElsewhere(rs, rs', c)
    requires u.userID == v.userID && u.wallets == v.wallets
    ensures CopyOk(v, copy, rs')
  {
    SameMembership(u, v, rs[copy.inviteCode]);
  }

  lemma SameAddresses(u: User, v: User)
    requires u.wallets == v.wallets
    ensures forall a :: HasAddress(u, a) <==> HasAddress(v, a)
  {
  }

  lemma SameMembership(u: User, v: User, r: Roster)
    requires u.wallets == v.wallets && u.userID == v.userID
    ensures MemberOf(r, u) <==> MemberOf(r, v)
  {
    SameAddresses(u, v);
  }

  /** Seats stay held when no copy of another code is lost. */
  lemma SeatsHeldAfter(u: User, v: User, rs: Rosters, rs': Rosters, c: string)
    requires SeatsHeld(u, rs) && SameElsewhere(rs, rs', c)
    requires u.userID == v.userID && u.wallets == v.wallets
    requires forall d :: d != c && Holds(u, d) ==> Holds(v, d)
    requires c in rs' && MemberOf(rs'[c], v) ==> Holds(v, c)
    ensures SeatsHeld(v, rs')
  {
    forall d | d in rs' && MemberOf(rs'[d], v) ensures Holds(v, d) {
      SameMembership(u, v, rs'[d]);
    }
  }

  /** A user with no copy of c and no seat in it is unaffected by any change to c's roster. */
  lemma OtherUserMatches(u: User, rs: Rosters, c: string, rs': Rosters)
    requires UserMatches(u, rs) && !Holds(u, c) && SameElsewhere(rs, rs', c)
    requires c in rs' ==> !MemberOf(rs'[c], u)
    ensures UserMatches(u, rs')
  {
    forall i | 0 <= i < |u.multisigs| ensures CopyOk(u, u.multisigs[i], rs') {
      CopyOkElsewhere(u, u, u.multisigs[i], rs, rs', c);
    }
  }

  lemma RewrittenUserMatches(u: User, v: User, rs: Rosters, c: string, r: Roster,
                             owners: seq<AddressExtended>, status: int)
    requires UserMatches(u, rs) && c in rs && Holds(u, c)
    requires CopyRewritten(u, v, c, owners, status)
    requires OwnersMatch(owners, r.members) && status == Status(r)
    requires r == rs[c].(members := r.members)
    requires MemberOf(r, u)
    ensures UserMatches(v, rs[c := r])
    ensures v.userID == u.userID && v.wallets == u.wallets
  {
    var fo :| Lists(fo, OwnersFor(u, owners)) && v == u.(multisigs := SetCopy(u.multisigs, c, fo, status));
    RewritingKeepsMatch(u, owners, fo, r.members);
    var rs' := rs[c := r];
    var k := CopyIndex(u.multisigs, c);
    assert k < |u.multisigs|;
    assert CopyOk(u, u.multisigs[k], rs);
    forall i | 0 <= i < |v.multisigs| ensures CopyOk(v, v.multisigs[i], rs') {
      if i == k {
        SameMembership(u, v, r);
      } else {
        CopyOkElsewhere(u, v, u.multisigs[i], rs, rs', c);
      }
    }
    forall d | Holds(u, d) ensures Holds(v, d) {
      var j :| 0 <= j < |u.multisigs| && u.multisigs[j].inviteCode == d;
      assert v.multisigs[j].inviteCode == d;
    }
    SeatsHeldAfter(u, v, rs, rs', c);
  }

  lemma PushedUserMatches(u: User, v: User, rs: Rosters, c: string, r: Roster, copy: Multisig)
    requires UserMatches(u, rs) && !Holds(u, c)
    requires v == u.(multisigs := u.multisigs + [copy])
    requires copy.inviteCode == c && Matches(copy, r) && MemberOf(r, u)
    ensures UserMatches(v, rs[c := r])
  {
    var rs' := rs[c := r];
    forall i | 0 <= i < |v.multisigs| ensures CopyOk(v, v.multisigs[i], rs') {
      if i == |u.multisigs| {
        SameMembership(u, v, r);
      } else {
        CopyOkElsewhere(u, v, u.multisigs[i], rs, rs', c);
      }
    }
    assert v.multisigs[|u.multisigs|].inviteCode == c;
    forall d | Holds(u, d) ensures Holds(v, d) {
      var j :| 0 <= j < |u.multisigs| && u.multisigs[j].inviteCode == d;
      assert v.multisigs[j].inviteCode == d;
    }
    SeatsHeldAfter(u, v, rs, rs', c);
  }

  lemma DroppedUserMatches(u: User, v: User, rs: Rosters, c: string, rs': Rosters)
    requires UserMatches(u, rs) && SameElsewhere(rs, rs', c)
    requires v == u.(multisigs := Without(u.multisigs, c))
    requires c in rs' ==> !MemberOf(rs'[c], u)
    ensures UserMatches(v, rs')
    ensures !Holds(v, c)
  {
    WithoutKeepsOthers(u.multisigs, c);
    WithoutKeepsDistinct(u.multisigs, c);
    forall i | 0 <= i < |v.multisigs| ensures CopyOk(v, v.multisigs[i], rs') {
      assert v.multisigs[i] in u.multisigs;
      CopyOkElsewhere(u, v, v.multisigs[i], rs, rs', c);
    }
    forall d | d != c && Holds(u, d) ensures Holds(v, d) {
      var j :| 0 <= j < |u.multisigs| && u.multisigs[j].inviteCode == d;
      assert u.multisigs[j] in v.multisigs;
    }
    if c in rs' { SameMembership(u, v, rs'[c]); }
    SeatsHeldAfter(u, v, rs, rs', c);
  }
}
