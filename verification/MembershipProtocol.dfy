/** Every message handler of the membership protocol refines one operation on the rosters. */
module MembershipProtocol {
  import opened Schemas
  import opened Membership
  import opened Roster

  // ---------------------------------------------------------------- what a represented store looks like

  lemma HolderIffMember(us: seq<User>, rs: Rosters, u: User, c: string)
    requires Represents(us, rs) && u in us
    ensures Holds(u, c) <==> c in rs && MemberOf(rs[c], u)
  {
    assert UserMatches(u, rs);
    if c in rs && MemberOf(rs[c], u) { assert Holds(u, c); }
    if Holds(u, c) {
      var i :| 0 <= i < |u.multisigs| && u.multisigs[i].inviteCode == c;
      assert CopyOk(u, u.multisigs[i], rs);
    }
  }

  /** The copy FindMultisig returns is the roster; a code is free exactly when it has no roster. */
  lemma FoundMatches(us: seq<User>, rs: Rosters, c: string)
    requires Represents(us, rs)
    ensures FoundCopy(us, c).Some? <==> c in rs
    ensures c in rs ==> FoundCopy(us, c).value.inviteCode == c && Matches(FoundCopy(us, c).value, rs[c])
  {
    var found := FoundCopy(us, c);
    if c in rs {
      assert RosterOk(rs[c]) && Backed(us, rs[c]);
      var a :| a in rs[c].members;
      assert SeatTaken(us, rs[c], a);
      var u :| u in us && u.userID == rs[c].members[a].userID && HasAddress(u, a);
      assert MemberOf(rs[c], u);
      HolderIffMember(us, rs, u, c);
      assert found.Some?;
    }
    if found.Some? {
      var u :| u in us && found.value in u.multisigs && found.value.inviteCode == c;
      var i :| 0 <= i < |u.multisigs| && u.multisigs[i] == found.value;
      assert UserMatches(u, rs);
      assert CopyOk(u, u.multisigs[i], rs);
    }
  }

  lemma {:induction false} LastCopyIsTheCopy(ms: seq<Multisig>, c: string, i: nat, currencyID: int, networkID: int)
    requires DistinctCodes(ms) && i < |ms| && ms[i].inviteCode == c
    ensures LastCopyHasCurrency(ms, c, currencyID, networkID) <==>
            ms[i].currencyID == currencyID && ms[i].networkID == networkID
  {
    if i < |ms| - 1 {
      LastCopyIsTheCopy(ms[..|ms| - 1], c, i, currencyID, networkID);
    }
  }

  lemma CurrencyOfRoster(us: seq<User>, rs: Rosters, c: string, currencyID: int, networkID: int)
    requires Represents(us, rs) && c in rs
    ensures CurrencyMatches(us, c, currencyID, networkID) <==>
            rs[c].currencyID == currencyID && rs[c].networkID == networkID
  {
    FoundMatches(us, rs, c);
    var hs := HoldersOf(us, c);
    assert hs[0] in hs;
    var i := CopyIndex(hs[0].multisigs, c);
    assert UserMatches(hs[0], rs) && CopyOk(hs[0], hs[0].multisigs[i], rs);
    LastCopyIsTheCopy(hs[0].multisigs, c, i, currencyID, networkID);
  }

  lemma SeatIffHolder(us: seq<User>, rs: Rosters, c: string, userID: string)
    requires Represents(us, rs) && c in rs
    ensures (exists u :: u in us && Holds(u, c) && u.userID == userID) <==>
            (exists a :: a in rs[c].members && rs[c].members[a].userID == userID)
  {
    if u :| u in us && Holds(u, c) && u.userID == userID {
      HolderIffMember(us, rs, u, c);
    }
    if a :| a in rs[c].members && rs[c].members[a].userID == userID {
      assert Backed(us, rs[c]) && SeatTaken(us, rs[c], a);
      var w :| w in us && w.userID == userID && HasAddress(w, a);
      SeatOwner(us, rs, c, a, w);
    }
  }

  /** A join is accepted exactly when the code has a roster, the user has no seat in it, the address is his, the
      currency and the network agree, and there is room. */
  lemma JoinAcceptedIff(us: seq<User>, rs: Rosters, msg: MultisigMsg)
    requires Represents(us, rs)
    ensures JoinReply(us, msg) == Done <==>
            && msg.inviteCode in rs
            && (forall a :: a in rs[msg.inviteCode].members ==> rs[msg.inviteCode].members[a].userID != msg.userID)
            && Related(us, msg.userID, msg.address)
            && rs[msg.inviteCode].currencyID == msg.currencyID && rs[msg.inviteCode].networkID == msg.networkID
            && |rs[msg.inviteCode].members| < rs[msg.inviteCode].ownersCount
  {
    FoundMatches(us, rs, msg.inviteCode);
    if msg.inviteCode in rs {
      SeatIffHolder(us, rs, msg.inviteCode, msg.userID);
      CurrencyOfRoster(us, rs, msg.inviteCode, msg.currencyID, msg.networkID);
    }
  }

  /** An owner address in the roster belongs to the user who holds the seat. */
  lemma SeatOwner(us: seq<User>, rs: Rosters, c: string, a: string, u: User)
    requires Represents(us, rs) && c in rs && a in rs[c].members && u in us && HasAddress(u, a)
    ensures rs[c].members[a].userID == u.userID && Holds(u, c)
  {
    assert Backed(us, rs[c]) && SeatTaken(us, rs[c], a);
    var w :| w in us && w.userID == rs[c].members[a].userID && HasAddress(w, a);
    var i :| 0 <= i < |us| && us[i] == u;
    var j :| 0 <= j < |us| && us[j] == w;
    assert i == j;
    assert MemberOf(rs[c], u);
    HolderIffMember(us, rs, u, c);
  }

  lemma SameIdSameUser(us: seq<User>, u: User, w: User)
    requires Directory(us) && u in us && w in us && u.userID == w.userID
    ensures u == w
  {
  }

  /** Handlers touch neither ids nor wallets. */
  ghost predicate SameAccounts(us: seq<User>, vs: seq<User>) {
    |us| == |vs| && forall k :: 0 <= k < |us| ==> us[k].userID == vs[k].userID && us[k].wallets == vs[k].wallets
  }

  lemma SameAccountsFacts(us: seq<User>, vs: seq<User>)
    requires SameAccounts(us, vs)
    ensures Directory(us) ==> Directory(vs)
    ensures forall r :: Backed(us, r) ==> Backed(vs, r)
  {
    forall k | 0 <= k < |us| ensures forall a :: HasAddress(us[k], a) <==> HasAddress(vs[k], a) {
      SameAddresses(us[k], vs[k]);
    }
    if Directory(us) {
      forall i, j, a | 0 <= i < |vs| && 0 <= j < |vs| && HasAddress(vs[i], a) && HasAddress(vs[j], a) ensures i == j {
        assert HasAddress(us[i], a) && HasAddress(us[j], a);
      }
    }
    forall r | Backed(us, r) ensures Backed(vs, r) {
      forall a | a in r.members ensures SeatTaken(vs, r, a) {
        assert SeatTaken(us, r, a);
        var u :| u in us && u.userID == r.members[a].userID && HasAddress(u, a);
        var k :| 0 <= k < |us| && us[k] == u;
        assert vs[k] in vs && HasAddress(vs[k], a);
      }
    }
  }

  /** Assembling the refinement from its parts. */
  lemma RepresentsAfter(us: seq<User>, vs: seq<User>, rs: Rosters, c: string, rs': Rosters)
    requires Represents(us, rs) && SameAccounts(us, vs) && SameElsewhere(rs, rs', c)
    requires c in rs' ==> RosterOk(rs'[c]) && Backed(us, rs'[c])
    requires forall k :: 0 <= k < |vs| ==> UserMatches(vs[k], rs')
    ensures Represents(vs, rs')
  {
    SameAccountsFacts(us, vs);
  }

  // ---------------------------------------------------------------- join

  lemma JoinOwnersMatch(found: Multisig, msg: MultisigMsg, r: Roster)
    requires Matches(found, r) && msg.address !in r.members
    ensures OwnersMatch(JoinedCopy(found, msg).owners, r.members[msg.address := Member(msg.userID, false)])
  {
    var owners := JoinedCopy(found, msg).owners;
    var members := r.members[msg.address := Member(msg.userID, false)];
    assert forall i :: 0 <= i < |found.owners| ==>
      owners[i].address == found.owners[i].address && owners[i].creator == found.owners[i].creator;
    assert members.Keys == r.members.Keys + {msg.address};
    assert |members| == |members.Keys| == |r.members.Keys| + 1;
  }

  lemma NoSeat(us: seq<User>, rs: Rosters, u: User, c: string)
    requires Represents(us, rs) && u in us && c in rs && !Holds(u, c)
    ensures forall a :: a in rs[c].members ==> rs[c].members[a].userID != u.userID && !HasAddress(u, a)
  {
    forall a | a in rs[c].members ensures rs[c].members[a].userID != u.userID && !HasAddress(u, a) {
      if HasAddress(u, a) { SeatOwner(us, rs, c, a, u); }
      if rs[c].members[a].userID == u.userID {
        assert Backed(us, rs[c]) && SeatTaken(us, rs[c], a);
        var w :| w in us && w.userID == rs[c].members[a].userID && HasAddress(w, a);
        SameIdSameUser(us, u, w);
        SeatOwner(us, rs, c, a, u);
      }
    }
  }

  lemma LargerRosterOk(r: Roster, a: string, userID: string)
    requires RosterOk(r) && a !in r.members && |r.members| < r.ownersCount
    requires forall b :: b in r.members ==> r.members[b].userID != userID
    ensures RosterOk(r.(members := r.members[a := Member(userID, false)]))
    ensures |r.members[a := Member(userID, false)]| == |r.members| + 1
  {
    var ms := r.members[a := Member(userID, false)];
    assert ms.Keys == r.members.Keys + {a};
    assert |ms| == |ms.Keys| == |r.members.Keys| + 1;
    var b :| b in r.members && r.members[b].creator;
    assert ms[b].creator;
  }

  /** What an accepted join tells about the joiner and the roster. */
  lemma JoinerIsNew(us: seq<User>, rs: Rosters, msg: MultisigMsg, u: User)
    requires Represents(us, rs) && JoinReply(us, msg) == Done
    requires u in us && u.userID == msg.userID
    ensures msg.inviteCode in rs && msg.address !in rs[msg.inviteCode].members
    ensures HasAddress(u, msg.address) && !Holds(u, msg.inviteCode)
    ensures |rs[msg.inviteCode].members| < rs[msg.inviteCode].ownersCount
  {
    FoundMatches(us, rs, msg.inviteCode);
    var w :| w in us && w.userID == msg.userID && HasAddress(w, msg.address);
    SameIdSameUser(us, u, w);
    NoSeat(us, rs, u, msg.inviteCode);
  }

  lemma BackedWithJoiner(us: seq<User>, r: Roster, u: User, a: string)
    requires Backed(us, r) && u in us && HasAddress(u, a)
    ensures Backed(us, r.(members := r.members[a := Member(u.userID, false)]))
  {
    var r' := r.(members := r.members[a := Member(u.userID, false)]);
    forall b | b in r'.members ensures SeatTaken(us, r', b) {
      if b != a { assert SeatTaken(us, r, b); }
    }
  }

  lemma JoinRefines(us: seq<User>, msg: MultisigMsg, vs: seq<User>, rs: Rosters)
    requires Represents(us, rs) && JoinStep(us, msg, vs) && JoinReply(us, msg) == Done
    ensures msg.inviteCode in rs && msg.address !in rs[msg.inviteCode].members
    ensures Represents(vs, WithMember(rs, msg.inviteCode, msg.address, Member(msg.userID, false)))
    ensures SameAccounts(us, vs)
  {
    var found := FoundCopy(us, msg.inviteCode).value;
    var mid :| Pushed(us, mid, msg.userID, JoinedCopy(found, msg))
      && Rewritten(mid, vs, IdsOf(HoldersOf(us, msg.inviteCode)), msg.inviteCode,
                   JoinedCopy(found, msg).owners, JoinStatus(found));
    var k0 :| 0 <= k0 < |us| && us[k0].userID == msg.userID
      && mid == us[k0 := us[k0].(multisigs := us[k0].multisigs + [JoinedCopy(found, msg)])];
    JoinerIsNew(us, rs, msg, us[k0]);
    FoundMatches(us, rs, msg.inviteCode);
    JoinRefinesAt(us, msg, rs, found, k0, mid, vs);
  }

  lemma JoinRefinesAt(us: seq<User>, msg: MultisigMsg, rs: Rosters, found: Multisig, k0: nat, mid: seq<User>,
                      vs: seq<User>)
    requires Represents(us, rs) && msg.inviteCode in rs && JoinsAt(us, msg, rs[msg.inviteCode], found, k0, mid, vs)
    ensures Represents(vs, WithMember(rs, msg.inviteCode, msg.address, Member(msg.userID, false)))
    ensures SameAccounts(us, vs)
  {
    var c := msg.inviteCode;
    var rs' := WithMember(rs, c, msg.address, Member(msg.userID, false));
    forall k | 0 <= k < |us|
      ensures vs[k].userID == us[k].userID && vs[k].wallets == us[k].wallets && UserMatches(vs[k], rs')
    {
      JoinOneUser(us, msg, rs, found, k0, mid, vs, k);
    }
    NoSeat(us, rs, us[k0], c);
    assert RosterOk(rs[c]) && Backed(us, rs[c]);
    LargerRosterOk(rs[c], msg.address, msg.userID);
    BackedWithJoiner(us, rs[c], us[k0], msg.address);
    RepresentsAfter(us, vs, rs, c, rs');
  }

  ghost predicate JoinsAt(us: seq<User>, msg: MultisigMsg, r: Roster, found: Multisig, k0: nat, mid: seq<User>,
                          vs: seq<User>) {
    && k0 < |us| && us[k0].userID == msg.userID && HasAddress(us[k0], msg.address) && !Holds(us[k0], msg.inviteCode)
    && Matches(found, r) && found.inviteCode == msg.inviteCode
    && msg.address !in r.members && |r.members| < r.ownersCount
    && mid == us[k0 := us[k0].(multisigs := us[k0].multisigs + [JoinedCopy(found, msg)])]
    && Rewritten(mid, vs, IdsOf(HoldersOf(us, msg.inviteCode)), msg.inviteCode,
                 JoinedCopy(found, msg).owners, JoinStatus(found))
  }

  lemma JoinOneUser(us: seq<User>, msg: MultisigMsg, rs: Rosters, found: Multisig, k0: nat, mid: seq<User>,
                    vs: seq<User>, k: nat)
    requires Represents(us, rs) && msg.inviteCode in rs && JoinsAt(us, msg, rs[msg.inviteCode], found, k0, mid, vs)
    requires k < |us|
    ensures vs[k].userID == us[k].userID && vs[k].wallets == us[k].wallets
    ensures UserMatches(vs[k], WithMember(rs, msg.inviteCode, msg.address, Member(msg.userID, false)))
  {
    var c := msg.inviteCode;
    var copy := JoinedCopy(found, msg);
    var r := rs[c];
    JoinOwnersMatch(found, msg, r);
    var rs' := WithMember(rs, c, msg.address, Member(msg.userID, false));
    var r' := rs'[c];
    assert |r'.members| == |copy.owners|;
    assert us[k] in us && UserMatches(us[k], rs);
    HolderIffMember(us, rs, us[k], c);
    if k == k0 {
      assert r'.members[msg.address].userID == us[k].userID;
      assert MemberOf(r', us[k]);
      PushedUserMatches(us[k], vs[k], rs, c, r', copy);
    } else if Holds(us[k], c) {
      assert us[k] in HoldersOf(us, c);
      var a :| a in r.members && r.members[a].userID == us[k].userID && HasAddress(us[k], a);
      assert r'.members[a] == r.members[a];
      RewrittenUserMatches(us[k], vs[k], rs, c, r', copy.owners, JoinStatus(found));
    } else {
      OtherUserMatches(us[k], rs, c, rs');
    }
  }
}
