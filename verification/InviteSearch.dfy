/** The search for the invite code of a contract that has just been deployed: the users found under the
    addresses of the contract are visited in an arbitrary order, and the last multisig with enough of its
    owners among the addresses gives the code. */
module InviteSearch {
  import opened Schemas

  // ---------------------------------------------------------------- the specification

  /** How many owner entries have one of the addresses. */
  function Present(owners: seq<AddressExtended>, addresses: set<string>): nat {
    if owners == [] then 0
    else Present(owners[..|owners| - 1], addresses) + if owners[|owners| - 1].address in addresses then 1 else 0
  }

  predicate Qualifies(ms: Multisig, addresses: set<string>) {
    0 < ms.ownersCount <= Present(ms.owners, addresses)
  }

  /** The code of the last multisig that qualifies. */
  function CodeAmong(multisigs: seq<Multisig>, addresses: set<string>): Option<string> {
    if multisigs == [] then None
    else if Qualifies(multisigs[|multisigs| - 1], addresses) then Some(multisigs[|multisigs| - 1].inviteCode)
    else CodeAmong(multisigs[..|multisigs| - 1], addresses)
  }

  function CodeOf(users: map<string, User>, address: string): Option<string>
    requires address in users
  {
    CodeAmong(users[address].multisigs, users.Keys)
  }

  function Found(users: map<string, User>, order: seq<string>): string
    requires forall a :: a in order ==> a in users
  {
    if order == [] then ""
    else
      var last := order[|order| - 1];
      assert last in order;
      match CodeOf(users, last)
      case Some(code) => code
      case None => Found(users, order[..|order| - 1])
  }

  /** Every key once, in some order. */
  ghost predicate IsOrder(users: map<string, User>, order: seq<string>) {
    && (forall a :: a in order <==> a in users)
    && (forall i, j :: 0 <= i < j < |order| ==> order[i] != order[j])
  }

  // ---------------------------------------------------------------- the code

  /** fetchInviteUndeployed. `order` is the order in which the outer loop visits the map; the inner loop
      visits it in any order. Its break leaves the innermost loop only. */
  method FetchInviteUndeployed(users: map<string, User>, order: seq<string>) returns (inviteCode: string)
    requires IsOrder(users, order)
    ensures inviteCode == Found(users, order)
  {
    inviteCode := "";
    var ownersCount := 0;
    var n := 0;
    while n < |order|
      invariant 0 <= n <= |order| && ownersCount == 0 && inviteCode == Found(users, order[..n])
    {
      assert order[n] in order;
      var multisigs := users[order[n]].multisigs;
      ghost var before := inviteCode;
      var m := 0;
      while m < |multisigs|
        invariant 0 <= m <= |multisigs| && ownersCount == 0
        invariant inviteCode == CodeOr(CodeAmong(multisigs[..m], users.Keys), before)
      {
        var ms := multisigs[m];
        ghost var start := inviteCode;
        var i := 0;
        while i < |ms.owners|
          invariant 0 <= i <= |ms.owners|
          invariant ownersCount == Present(ms.owners[..i], users.Keys)
          invariant inviteCode == if 0 < ms.ownersCount <= ownersCount then ms.inviteCode else start
        {
          ghost var count, code := ownersCount, inviteCode;
          assert ms.owners[..i + 1][..i] == ms.owners[..i];
          var rest := users.Keys;
          while rest != {}
            invariant rest <= users.Keys
            invariant ms.owners[i].address !in users.Keys - rest ==> ownersCount == count && inviteCode == code
            invariant ms.owners[i].address in users.Keys - rest ==>
              ownersCount == count + 1 && inviteCode == if ownersCount == ms.ownersCount then ms.inviteCode else code
          {
            var address :| address in rest;
            rest := rest - {address};
            if address == ms.owners[i].address {
              ownersCount := ownersCount + 1;
              if ownersCount == ms.ownersCount {
                inviteCode := ms.inviteCode;
                break;
              }
            }
          }
          i := i + 1;
        }
        assert ms.owners[..|ms.owners|] == ms.owners;
        assert multisigs[..m + 1][..m] == multisigs[..m];
        ownersCount := 0;
        m := m + 1;
      }
      assert multisigs[..|multisigs|] == multisigs;
      assert order[..n + 1][..n] == order[..n];
      n := n + 1;
    }
    assert order[..|order|] == order;
  }

  function CodeOr(code: Option<string>, other: string): string { if code.Some? then code.value else other }

  // ---------------------------------------------------------------- what is found

  lemma {:induction false} CodeQualifies(multisigs: seq<Multisig>, addresses: set<string>)
    ensures CodeAmong(multisigs, addresses).Some? ==>
              exists ms :: ms in multisigs && Qualifies(ms, addresses)
                && ms.inviteCode == CodeAmong(multisigs, addresses).value
    ensures (exists ms :: ms in multisigs && Qualifies(ms, addresses)) ==> CodeAmong(multisigs, addresses).Some?
  {
    if multisigs != [] {
      var last := |multisigs| - 1;
      CodeQualifies(multisigs[..last], addresses);
      assert multisigs == multisigs[..last] + [multisigs[last]];
    }
  }

  lemma {:induction false} FoundIsLast(users: map<string, User>, order: seq<string>)
    requires forall a :: a in order ==> a in users
    ensures (exists a :: a in order && CodeOf(users, a).Some?) ==>
              exists a :: a in order && CodeOf(users, a) == Some(Found(users, order))
    ensures (forall a :: a in order ==> CodeOf(users, a).None?) ==> Found(users, order) == ""
  {
    if order != [] {
      var last := |order| - 1;
      assert order == order[..last] + [order[last]];
      FoundIsLast(users, order[..last]);
    }
  }

  lemma {:induction false} SomeOrder(keys: set<string>) returns (order: seq<string>)
    ensures forall a :: a in order <==> a in keys
    ensures forall i, j :: 0 <= i < j < |order| ==> order[i] != order[j]
    decreases keys
  {
    if keys == {} {
      order := [];
    } else {
      var a :| a in keys;
      order := SomeOrder(keys - {a});
      assert forall i :: 0 <= i < |order| ==> order[i] in order;
      order := order + [a];
    }
  }

  lemma OrderEndingIn(users: map<string, User>, a: string) returns (order: seq<string>)
    requires a in users
    ensures IsOrder(users, order) && order != [] && order[|order| - 1] == a
  {
    var front := SomeOrder(users.Keys - {a});
    assert forall i :: 0 <= i < |front| ==> front[i] in front;
    order := front + [a];
  }

  /** A user one of whose multisigs qualifies. */
  ghost predicate Candidate(users: map<string, User>, a: string) {
    a in users && exists ms :: ms in users[a].multisigs && Qualifies(ms, users.Keys)
  }

  lemma CandidateHasCode(users: map<string, User>, a: string)
    requires a in users
    ensures Candidate(users, a) <==> CodeOf(users, a).Some?
  {
    CodeQualifies(users[a].multisigs, users.Keys);
  }

  ghost predicate AlwaysFinds(users: map<string, User>) {
    forall order :: IsOrder(users, order) ==> Found(users, order) != ""
  }

  /** The search finds a code whatever the order is, exactly when some user has a qualifying multisig and no
      user's last qualifying multisig has the empty code. */
  lemma AlwaysFindsIff(users: map<string, User>)
    ensures AlwaysFinds(users) <==>
              (exists a :: Candidate(users, a)) && (forall a :: a in users ==> CodeOf(users, a) != Some(""))
  {
    forall a | a in users ensures Candidate(users, a) <==> CodeOf(users, a).Some? { CandidateHasCode(users, a); }
    if AlwaysFinds(users) {
      forall a | a in users ensures CodeOf(users, a) != Some("") {
        var order := OrderEndingIn(users, a);
        assert Found(users, order) != "";
      }
      var order := SomeOrder(users.Keys);
      assert IsOrder(users, order);
      FoundIsLast(users, order);
    }
    if (exists a :: Candidate(users, a)) && (forall a :: a in users ==> CodeOf(users, a) != Some("")) {
      forall order | IsOrder(users, order) ensures Found(users, order) != "" { FoundIsLast(users, order); }
    }
  }

  /** The code does not depend on the order exactly when all users with a qualifying multisig have the same
      code in their last one. */
  lemma OrderDoesNotMatterIff(users: map<string, User>)
    ensures SameForAllOrders(users) <==>
            (forall a, b :: Candidate(users, a) && Candidate(users, b) ==> CodeOf(users, a) == CodeOf(users, b))
  {
    if SameForAllOrders(users) {
      forall a, b | Candidate(users, a) && Candidate(users, b) ensures CodeOf(users, a) == CodeOf(users, b) {
        SameCodes(users, a, b);
      }
    }
    if forall a, b :: Candidate(users, a) && Candidate(users, b) ==> CodeOf(users, a) == CodeOf(users, b) {
      forall o, p | IsOrder(users, o) && IsOrder(users, p) ensures Found(users, o) == Found(users, p) {
        SameFound(users, o, p);
      }
    }
  }

  ghost predicate SameForAllOrders(users: map<string, User>) {
    forall o, p :: IsOrder(users, o) && IsOrder(users, p) ==> Found(users, o) == Found(users, p)
  }

  lemma SameCodes(users: map<string, User>, a: string, b: string)
    requires SameForAllOrders(users) && Candidate(users, a) && Candidate(users, b)
    ensures CodeOf(users, a) == CodeOf(users, b)
  {
    CandidateHasCode(users, a);
    CandidateHasCode(users, b);
    var o := OrderEndingIn(users, a);
    var p := OrderEndingIn(users, b);
    assert Found(users, o) == Found(users, p);
  }

  lemma SameFound(users: map<string, User>, o: seq<string>, p: seq<string>)
    requires IsOrder(users, o) && IsOrder(users, p)
    requires forall a, b :: Candidate(users, a) && Candidate(users, b) ==> CodeOf(users, a) == CodeOf(users, b)
    ensures Found(users, o) == Found(users, p)
  {
    forall a | a in users ensures Candidate(users, a) <==> CodeOf(users, a).Some? { CandidateHasCode(users, a); }
    FoundIsLast(users, o);
    FoundIsLast(users, p);
  }

  /** A code that is found belongs to a multisig that qualifies. */
  lemma FoundQualifies(users: map<string, User>, order: seq<string>)
    requires IsOrder(users, order) && Found(users, order) != ""
    ensures exists a, ms :: a in users && ms in users[a].multisigs && Qualifies(ms, users.Keys)
                            && ms.inviteCode == Found(users, order)
  {
    FoundIsLast(users, order);
    var a :| a in order && CodeOf(users, a) == Some(Found(users, order));
    CodeQualifies(users[a].multisigs, users.Keys);
  }

  /** If every qualifying multisig has a code, then in every order a code is found exactly when one qualifies. */
  lemma FindsWhenCodesExist(users: map<string, User>, order: seq<string>)
    requires IsOrder(users, order)
    requires forall a, ms :: a in users && ms in users[a].multisigs && Qualifies(ms, users.Keys) ==> ms.inviteCode != ""
    ensures Found(users, order) != "" <==> exists a :: Candidate(users, a)
  {
    forall a | a in users
      ensures Candidate(users, a) <==> CodeOf(users, a).Some?
      ensures CodeOf(users, a) != Some("")
    {
      CandidateHasCode(users, a);
      CodeQualifies(users[a].multisigs, users.Keys);
    }
    FoundIsLast(users, order);
  }

  /** A later multisig without a code hides an earlier one with a code. */
  lemma EmptyCodeHidesCode(owner: AddressExtended, good: Multisig, bad: Multisig, users: map<string, User>)
    requires good.owners == [owner] && bad == good.(inviteCode := "")
    requires good.ownersCount == 1 && good.inviteCode != ""
    requires users == map[owner.address := User("u", [], [good, bad])]
    ensures Qualifies(good, users.Keys) && IsOrder(users, [owner.address]) && Found(users, [owner.address]) == ""
  {
    assert Present([owner], users.Keys) == 1;
    assert CodeOf(users, owner.address) == Some("");
  }

  // ---------------------------------------------------------------- the last one decides

  /** The code comes from the last user in the order who has a qualifying multisig. */
  lemma {:induction false} LastUserDecides(users: map<string, User>, order: seq<string>, n: nat)
    requires forall a :: a in order ==> a in users
    requires n < |order| && CodeOf(users, order[n]).Some?
    requires forall m :: n < m < |order| ==> CodeOf(users, order[m]).None?
    ensures Found(users, order) == CodeOf(users, order[n]).value
  {
    if n < |order| - 1 { LastUserDecides(users, order[..|order| - 1], n); }
  }

  /** A user's code is that of his last multisig that qualifies. */
  lemma {:induction false} LastMultisigDecides(multisigs: seq<Multisig>, addresses: set<string>, n: nat)
    requires n < |multisigs| && Qualifies(multisigs[n], addresses)
    requires forall m :: n < m < |multisigs| ==> !Qualifies(multisigs[m], addresses)
    ensures CodeAmong(multisigs, addresses) == Some(multisigs[n].inviteCode)
  {
    if n < |multisigs| - 1 { LastMultisigDecides(multisigs[..|multisigs| - 1], addresses, n); }
  }

  /** A multisig qualifies exactly when it has a positive number of owners and at least so many of its entries have
      one of the addresses. */
  lemma QualifiesIff(ms: Multisig, addresses: set<string>)
    ensures Qualifies(ms, addresses) <==>
            && ms.ownersCount > 0
            && exists s: set<nat> :: |s| == ms.ownersCount
                 && forall i :: i in s ==> i < |ms.owners| && ms.owners[i].address in addresses
  {
    PresentCounts(ms.owners, addresses);
    var all := PresentAt(ms.owners, addresses);
    if Qualifies(ms, addresses) {
      var s := SubsetOfSize(all, ms.ownersCount);
      assert forall i :: i in s ==> i in all;
    }
    if ms.ownersCount > 0 {
      forall s: set<nat> | |s| == ms.ownersCount
                           && forall i :: i in s ==> i < |ms.owners| && ms.owners[i].address in addresses
        ensures Qualifies(ms, addresses)
      {
        assert s <= all;
        SubsetIsSmaller(s, all);
      }
    }
  }

  /** The positions of the entries that have one of the addresses. */
  ghost function PresentAt(owners: seq<AddressExtended>, addresses: set<string>): set<nat> {
    set i: nat | i < |owners| && owners[i].address in addresses
  }

  lemma {:induction false} PresentCounts(owners: seq<AddressExtended>, addresses: set<string>)
    ensures |PresentAt(owners, addresses)| == Present(owners, addresses)
  {
    if owners != [] {
      var n: nat := |owners| - 1;
      PresentCounts(owners[..n], addresses);
      var before := PresentAt(owners[..n], addresses);
      if owners[n].address in addresses {
        assert PresentAt(owners, addresses) == before + {n};
      } else {
        assert PresentAt(owners, addresses) == before;
      }
    } else {
      assert PresentAt(owners, addresses) == {};
    }
  }

  lemma {:induction false} SubsetOfSize(s: set<nat>, n: nat) returns (r: set<nat>)
    requires n <= |s|
    ensures r <= s && |r| == n
  {
    if n == |s| {
      r := s;
    } else {
      var x :| x in s;
      r := SubsetOfSize(s - {x}, n);
    }
  }

  lemma {:induction false} SubsetIsSmaller(a: set<nat>, b: set<nat>)
    requires a <= b
    ensures |a| <= |b|
  {
    if a != {} {
      var x :| x in a;
      SubsetIsSmaller(a - {x}, b - {x});
    }
  }
}
