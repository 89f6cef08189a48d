/** Who may do what: the replies of the handlers, in terms of the rosters. */
module MembershipReplies {
  import opened Schemas
  import opened Membership
  import opened Roster
  import opened MembershipProtocol
  import opened SeatRemoval

  ghost predicate HasSeat(rs: Rosters, c: string, a: string) {
    c in rs && a in rs[c].members
  }

  /** The address is the creator's seat. */
  ghost predicate HasCreatorSeat(rs: Rosters, c: string, a: string) {
    HasSeat(rs, c, a) && rs[c].members[a].creator
  }

  lemma ListedIsSeat(us: seq<User>, rs: Rosters, c: string, a: string)
    requires Represents(us, rs)
    ensures FoundCopy(us, c).Some? <==> c in rs
    ensures c in rs ==> (OwnerListed(FoundCopy(us, c).value.owners, a) <==> HasSeat(rs, c, a))
    ensures c in rs ==> (CreatorListed(FoundCopy(us, c).value.owners, a) <==> HasCreatorSeat(rs, c, a))
  {
    FoundMatches(us, rs, c);
    if c in rs { ListedInRoster(FoundCopy(us, c).value.owners, rs[c].members, a); }
  }

  /** A kick is accepted exactly when it comes from the creator's address and somebody has the address to kick;
      anybody else is told that he is not the admin. */
  lemma KickAcceptedIff(us: seq<User>, rs: Rosters, msg: MultisigMsg)
    requires Represents(us, rs)
    ensures KickReply(us, msg) == Done <==>
            HasCreatorSeat(rs, msg.inviteCode, msg.address) && exists u :: u in us && HasAddress(u, msg.addressToKick)
    ensures KickReply(us, msg) == Refused(OnlyAdmin) <==>
            msg.inviteCode in rs && !HasCreatorSeat(rs, msg.inviteCode, msg.address)
    ensures KickReply(us, msg) == Refused(WrongPayload) <==> msg.inviteCode !in rs
  {
    ListedIsSeat(us, rs, msg.inviteCode, msg.address);
  }

  /** A delete is accepted exactly when it comes from the creator's address. */
  lemma DeleteAcceptedIff(us: seq<User>, rs: Rosters, msg: MultisigMsg)
    requires Represents(us, rs)
    ensures DeleteReply(us, msg) == Done <==> HasCreatorSeat(rs, msg.inviteCode, msg.address)
    ensures DeleteReply(us, msg) == Refused(OnlyAdmin) <==>
            msg.inviteCode in rs && !HasCreatorSeat(rs, msg.inviteCode, msg.address)
    ensures DeleteReply(us, msg) == Refused(WrongPayload) <==> msg.inviteCode !in rs
  {
    ListedIsSeat(us, rs, msg.inviteCode, msg.address);
  }

  /** A leave is accepted exactly when the address has a seat that is not the creator's and the user exists;
      whether the multisig is full does not matter. */
  lemma LeaveAcceptedIff(us: seq<User>, rs: Rosters, msg: MultisigMsg)
    requires Represents(us, rs)
    ensures LeaveReply(us, msg) == Done <==>
            && HasSeat(rs, msg.inviteCode, msg.address)
            && !HasCreatorSeat(rs, msg.inviteCode, msg.address)
            && exists u :: u in us && u.userID == msg.userID
    ensures LeaveReply(us, msg) == Refused(CreatorMustDelete) <==> HasCreatorSeat(rs, msg.inviteCode, msg.address)
    ensures LeaveReply(us, msg) == Refused(NotAnOwner) <==>
            msg.inviteCode in rs && !HasSeat(rs, msg.inviteCode, msg.address)
    ensures LeaveReply(us, msg) == Refused(WrongPayload) <==> msg.inviteCode !in rs
  {
    ListedIsSeat(us, rs, msg.inviteCode, msg.address);
  }

  /** A create is accepted exactly when at least two owners are asked for, no more signatures than owners, the
      code as it was sent has no roster, and the user exists. */
  lemma CreateAcceptedIff(us: seq<User>, rs: Rosters, userID: string, p: CreateParams)
    requires Represents(us, rs)
    ensures CreateAccepted(us, userID, p) <==>
            && 2 <= p.ownersCount && p.signaturesRequired <= p.ownersCount
            && p.inviteCode !in rs
            && exists u :: u in us && u.userID == userID
  {
    FoundMatches(us, rs, p.inviteCode);
  }

  ghost predicate UserHasSeat(rs: Rosters, c: string, userID: string)
    requires c in rs
  {
    exists a :: a in rs[c].members && rs[c].members[a].userID == userID
  }

  /** What a refused join is told, in the order of the checks. */
  lemma JoinRefusedFor(us: seq<User>, rs: Rosters, msg: MultisigMsg)
    requires Represents(us, rs) && msg.inviteCode in rs
    ensures var r, c := rs[msg.inviteCode], msg.inviteCode;
            var agrees := r.currencyID == msg.currencyID && r.networkID == msg.networkID;
            && (JoinReply(us, msg) == Refused(MultipleJoin) <==> UserHasSeat(rs, c, msg.userID))
            && (JoinReply(us, msg) == Refused(AddressNotRelated) <==>
                  !UserHasSeat(rs, c, msg.userID) && !Related(us, msg.userID, msg.address))
            && (JoinReply(us, msg) == Refused(WrongCurrency) <==>
                  !UserHasSeat(rs, c, msg.userID) && Related(us, msg.userID, msg.address) && !agrees)
            && (JoinReply(us, msg) == Refused(WrongPayload) <==>
                  !UserHasSeat(rs, c, msg.userID) && Related(us, msg.userID, msg.address) && agrees
                  && |r.members| == r.ownersCount)
  {
    FoundMatches(us, rs, msg.inviteCode);
    SeatIffHolder(us, rs, msg.inviteCode, msg.userID);
    CurrencyOfRoster(us, rs, msg.inviteCode, msg.currencyID, msg.networkID);
    assert RosterOk(rs[msg.inviteCode]);
  }
}
