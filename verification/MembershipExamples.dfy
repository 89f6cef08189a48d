/** Concrete inputs on which leave, kick and create break the agreement of the copies. */
module MembershipExamples {
  import opened Schemas
  import opened Membership
  import opened Roster
  import opened MembershipTheorems

  const ANN := AddressExtended("ann", "a", true, true, 0, 0)
  const BOB := AddressExtended("bob", "b", true, false, 0, 0)
  const FULL := Multisig(ETHER, ETH_MAIN, 2, "safe", [ANN, BOB], ALL_JOINED, "c", 2)

  function WalletOf(a: string): Wallet {
    Wallet(ETHER, ETH_MAIN, 0, "w", [Address(a, 0)], StatusOk, false)
  }

  function Accounts(): seq<User> {
    [User("ann", [WalletOf("a")], [FULL]), User("bob", [WalletOf("b")], [FULL]), User("eve", [WalletOf("e")], [])]
  }

  lemma OnlyAddress(id: string, a: string, ms: seq<Multisig>, b: string)
    ensures HasAddress(User(id, [WalletOf(a)], ms), b) <==> a == b
  {
    if a == b {
      assert WalletOf(a) in User(id, [WalletOf(a)], ms).wallets;
      assert Address(a, 0) in WalletOf(a).addresses;
    }
  }

  const MEMBERS := map["a" := Member("ann", true), "b" := Member("bob", false)]
  const ROSTER := Roster(ETHER, ETH_MAIN, 2, 2, MEMBERS)

  lemma TheRoster()
    ensures RosterOk(ROSTER) && OwnersMatch(FULL.owners, MEMBERS) && Matches(FULL, ROSTER)
  {
    assert MEMBERS["a"].creator && MEMBERS.Keys == {"a", "b"};
    assert |MEMBERS| == |MEMBERS.Keys| == 2;
  }

  lemma MemberMatches(id: string, a: string)
    requires a in MEMBERS && MEMBERS[a].userID == id
    ensures UserMatches(User(id, [WalletOf(a)], [FULL]), map["c" := ROSTER])
  {
    var u := User(id, [WalletOf(a)], [FULL]);
    TheRoster();
    OnlyAddress(id, a, [FULL], a);
    assert MemberOf(ROSTER, u);
    assert CopyOk(u, FULL, map["c" := ROSTER]);
    assert u.multisigs[0].inviteCode == "c";
  }

  lemma AddressesApart()
    ensures Directory(Accounts())
  {
    var us := Accounts();
    forall b ensures HasAddress(us[0], b) <==> b == "a" { OnlyAddress("ann", "a", [FULL], b); }
    forall b ensures HasAddress(us[1], b) <==> b == "b" { OnlyAddress("bob", "b", [FULL], b); }
    forall b ensures HasAddress(us[2], b) <==> b == "e" { OnlyAddress("eve", "e", [], b); }
  }

  lemma StrangerMatches()
    ensures UserMatches(User("eve", [WalletOf("e")], []), map["c" := ROSTER])
  {
    OnlyAddress("eve", "e", [], "a");
    OnlyAddress("eve", "e", [], "b");
  }

  lemma SeatsAreTaken()
    ensures Backed(Accounts(), ROSTER)
  {
    var us := Accounts();
    OnlyAddress("ann", "a", [FULL], "a");
    OnlyAddress("bob", "b", [FULL], "b");
    assert us[0] in us && us[1] in us;
  }

  lemma AccountsAreConsistent()
    ensures Consistent(Accounts())
  {
    TheRoster();
    AddressesApart();
    SeatsAreTaken();
    MemberMatches("ann", "a");
    MemberMatches("bob", "b");
    StrangerMatches();
    ConsistentBy(Accounts(), map["c" := ROSTER]);
  }

  lemma ConsistentBy(us: seq<User>, rs: Rosters)
    requires Represents(us, rs)
    ensures Consistent(us)
  {
  }

  /** The creator kicks the address of a user who is no owner: a full multisig becomes a waiting one. */
  lemma KickingAStrangerBreaksAFullMultisig(vs: seq<User>)
    requires KickStep(Accounts(), MultisigMsg("ann", "a", "c", "e", 0, ETHER, ETH_MAIN), vs)
    ensures Consistent(Accounts()) && !Consistent(vs)
  {
    AccountsAreConsistent();
    KickIsAccepted();
    KickIsNotSafe();
    KickKeepsConsistencyIff(Accounts(), MultisigMsg("ann", "a", "c", "e", 0, ETHER, ETH_MAIN), vs);
  }

  lemma KickIsAccepted()
    ensures KickReply(Accounts(), MultisigMsg("ann", "a", "c", "e", 0, ETHER, ETH_MAIN)) == Done
  {
    var us := Accounts();
    AccountsHold();
    OnlyAddress("eve", "e", [], "e");
    assert us[2] in us && ANN in FULL.owners;
  }

  lemma KickIsNotSafe()
    ensures FoundCopy(Accounts(), "c").Some?
    ensures !KickSafe(Accounts(), MultisigMsg("ann", "a", "c", "e", 0, ETHER, ETH_MAIN))
  {
    var us := Accounts();
    AccountsHold();
    OnlyAddress("ann", "a", [FULL], "e");
    assert us[0] in us;
  }

  /** Bob's address is sent with Eve's id: Bob keeps a copy of a multisig he no longer owns. */
  lemma LeavingForSomeoneElseBreaks(vs: seq<User>)
    requires LeaveStep(Accounts(), MultisigMsg("eve", "b", "c", "", 0, ETHER, ETH_MAIN), vs)
    ensures Consistent(Accounts()) && !Consistent(vs)
  {
    AccountsAreConsistent();
    LeaveIsAccepted();
    LeaveKeepsConsistencyIff(Accounts(), MultisigMsg("eve", "b", "c", "", 0, ETHER, ETH_MAIN), vs);
  }

  lemma LeaveIsAccepted()
    ensures LeaveReply(Accounts(), MultisigMsg("eve", "b", "c", "", 0, ETHER, ETH_MAIN)) == Done
    ensures !Related(Accounts(), "eve", "b")
  {
    var us := Accounts();
    AccountsHold();
    OnlyAddress("eve", "e", [], "b");
    assert us[2] in us && BOB in FULL.owners;
  }

  /** The code is checked as sent and stored in lower case, so "C" collides with "c". */
  lemma UpperCaseCodeBreaks(vs: seq<User>)
    requires CreateStep(Accounts(), "eve", CreateParams("e", "C", "mine", ETHER, ETH_MAIN, 0, 0, 2, 2), vs)
    ensures Consistent(Accounts()) && !Consistent(vs)
  {
    var us := Accounts();
    var p := CreateParams("e", "C", "mine", ETHER, ETH_MAIN, 0, 0, 2, 2);
    AccountsAreConsistent();
    AccountsHold();
    assert us[2] in us;
    assert Lower("C") == "c";
    CreateKeepsConsistencyIff(us, "eve", p, vs);
  }

  lemma AccountsHold()
    ensures FoundCopy(Accounts(), "c") == Some(FULL)
    ensures FoundCopy(Accounts(), "C") == None
    ensures Holds(Accounts()[0], "c") && !Holds(Accounts()[2], "c")
  {
    var us := Accounts();
    assert us[0].multisigs[0].inviteCode == "c";
    assert CopyIndex(us[0].multisigs, "c") == 0;
  }
}
