/** The multisig membership protocol on values.

    There is no record of a multisig: every member user holds a copy of it. This module says what
    one store query or one message handler does to the collection of users, and proves that the
    replicated copies refine a single roster per invite code. */
module Membership {
  import opened Schemas

  // ---------------------------------------------------------------- queries on the users collection

  predicate HasAddress(u: User, a: string) {
    exists w, x :: w in u.wallets && x in w.addresses && x.address == a
  }

  predicate Holds(u: User, c: string) {
    exists i :: 0 <= i < |u.multisigs| && u.multisigs[i].inviteCode == c
  }

  /** Index of the first copy with this code, or the number of copies. */
  function CopyIndex(ms: seq<Multisig>, c: string): (i: nat)
    ensures i <= |ms|
    ensures forall j :: 0 <= j < i ==> ms[j].inviteCode != c
    ensures i < |ms| ==> ms[i].inviteCode == c
  {
    if ms == [] || ms[0].inviteCode == c then 0 else 1 + CopyIndex(ms[1..], c)
  }

  /** The copies of all other multisigs, as the filter loops of leave, kick and delete keep them. */
  function Without(ms: seq<Multisig>, c: string): (r: seq<Multisig>)
    ensures forall m :: m in r ==> m in ms && m.inviteCode != c
  {
    if ms == [] then []
    else
      var rest := Without(ms[..|ms| - 1], c);
      if ms[|ms| - 1].inviteCode != c then rest + [ms[|ms| - 1]] else rest
  }

  /** The positional update of the first copy with this code. */
  function SetCopy(ms: seq<Multisig>, c: string, owners: seq<AddressExtended>, status: int): seq<Multisig> {
    var i := CopyIndex(ms, c);
    if i < |ms| then ms[i := ms[i].(owners := owners, deployStatus := status)] else ms
  }

  /** The users holding a code, in natural order (FindMultisigUsers). */
  function HoldersOf(users: seq<User>, c: string): (r: seq<User>)
    ensures forall u :: u in r <==> u in users && Holds(u, c)
  {
    if users == [] then []
    else if Holds(users[0], c) then [users[0]] + HoldersOf(users[1..], c)
    else HoldersOf(users[1..], c)
  }

  /** FindMultisig: the first copy held by the first holder. */
  function FoundCopy(users: seq<User>, c: string): (r: Option<Multisig>)
    ensures r.Some? <==> exists u :: u in users && Holds(u, c)
    ensures r.Some? ==> exists u :: u in users && r.value in u.multisigs && r.value.inviteCode == c
  {
    var hs := HoldersOf(users, c);
    if hs == [] then None
    else
      assert hs[0] in hs;
      Some(hs[0].multisigs[CopyIndex(hs[0].multisigs, c)])
  }

  // ---------------------------------------------------------------- updateUserOwners

  /** An owner entry without the tags of the user it was read from. */
  function Untagged(o: AddressExtended): AddressExtended {
    AddressExtended("", o.address, false, o.creator, o.walletIndex, o.addressIndex)
  }

  /** The map filled by the first loop; a later entry with the same address wins. */
  function OwnerMap(owners: seq<AddressExtended>): map<string, AddressExtended> {
    if owners == [] then map[]
    else
      var last := owners[|owners| - 1];
      OwnerMap(owners[..|owners| - 1])[last.address := Untagged(last)]
  }

  /** What the second loop does for one wallet: only its first address is looked at. */
  function TagWallet(m: map<string, AddressExtended>, w: Wallet, userID: string): map<string, AddressExtended> {
    if w.addresses != [] && w.addresses[0].address in m then
      var x := w.addresses[0];
      m[x.address := AddressExtended(userID, x.address, true, m[x.address].creator, w.walletIndex, x.addressIndex)]
    else m
  }

  function TagWallets(m: map<string, AddressExtended>, ws: seq<Wallet>, userID: string): map<string, AddressExtended> {
    if ws == [] then m
    else TagWallet(TagWallets(m, ws[..|ws| - 1], userID), ws[|ws| - 1], userID)
  }

  /** The owner map that a user's copy must list after an update. */
  function OwnersFor(u: User, owners: seq<AddressExtended>): map<string, AddressExtended> {
    TagWallets(OwnerMap(owners), u.wallets, u.userID)
  }

  ghost predicate DistinctAddresses(owners: seq<AddressExtended>) {
    forall i, j :: 0 <= i < j < |owners| ==> owners[i].address != owners[j].address
  }

  /** `fo` lists the values of `m` in some iteration order. */
  ghost predicate Lists(fo: seq<AddressExtended>, m: map<string, AddressExtended>) {
    && |fo| == |m|
    && DistinctAddresses(fo)
    && forall i :: 0 <= i < |fo| ==> fo[i].address in m && m[fo[i].address] == fo[i]
  }

  /** One user after updateUserOwners: the first copy lists the owners in some order. */
  ghost predicate CopyRewritten(u: User, v: User, c: string, owners: seq<AddressExtended>, status: int) {
    exists fo :: Lists(fo, OwnersFor(u, owners)) && v == u.(multisigs := SetCopy(u.multisigs, c, fo, status))
  }

  /** The effect of calling updateUserOwners for every user id in `ids`. */
  ghost predicate Rewritten(us: seq<User>, vs: seq<User>, ids: set<string>, c: string,
                            owners: seq<AddressExtended>, status: int)
  {
    && |vs| == |us|
    && forall k {:trigger vs[k]} :: 0 <= k < |us| ==>
         if us[k].userID in ids && Holds(us[k], c) then CopyRewritten(us[k], vs[k], c, owners, status)
         else vs[k] == us[k]
  }

  function IdsOf(us: seq<User>): set<string> { set u | u in us :: u.userID }

  // ---------------------------------------------------------------- messages

  datatype MultisigMsg = MultisigMsg(
    userID: string,
    address: string,
    inviteCode: string,
    addressToKick: string,
    walletIndex: int,
    currencyID: int,
    networkID: int)

  datatype Reply = Done | Refused(reason: Refusal)

  datatype Refusal =
    | WrongPayload
    | MultipleJoin
    | AddressNotRelated
    | WrongCurrency
    | CreatorMustDelete
    | NotAnOwner
    | OnlyAdmin
    | StoreError

  ghost predicate UniqueIds(users: seq<User>) {
    forall i, j :: 0 <= i < j < |users| ==> users[i].userID != users[j].userID
  }

  // ---------------------------------------------------------------- join

  predicate Related(users: seq<User>, userID: string, a: string) {
    exists u :: u in users && u.userID == userID && HasAddress(u, a)
  }

  /** CheckMultisigCurrency looks at the last copy with the code held by the first holder. */
  predicate CurrencyMatches(users: seq<User>, c: string, currencyID: int, networkID: int) {
    var hs := HoldersOf(users, c);
    hs != [] && LastCopyHasCurrency(hs[0].multisigs, c, currencyID, networkID)
  }

  predicate LastCopyHasCurrency(ms: seq<Multisig>, c: string, currencyID: int, networkID: int) {
    if ms == [] then false
    else
      var last := ms[|ms| - 1];
      if last.inviteCode == c then last.currencyID == currencyID && last.networkID == networkID
      else LastCopyHasCurrency(ms[..|ms| - 1], c, currencyID, networkID)
  }

  function NewOwner(msg: MultisigMsg): AddressExtended {
    AddressExtended(msg.userID, msg.address, true, false, msg.walletIndex, 0)
  }

  function UntaggedAll(owners: seq<AddressExtended>): (r: seq<AddressExtended>)
    ensures |r| == |owners|
    ensures forall i :: 0 <= i < |r| ==> r[i] == Untagged(owners[i])
  {
    if owners == [] then [] else UntaggedAll(owners[..|owners| - 1]) + [Untagged(owners[|owners| - 1])]
  }

  /** The record that `multisig` and `multisigToJoin` both point to when it is pushed. */
  function JoinedCopy(found: Multisig, msg: MultisigMsg): Multisig {
    found.(owners := UntaggedAll(found.owners) + [NewOwner(msg)],
           deployStatus := if |found.owners| + 1 == found.ownersCount then ALL_JOINED else found.deployStatus)
  }

  function JoinStatus(found: Multisig): int {
    if |found.owners| + 1 == found.ownersCount then ALL_JOINED else WAITING_FOR_JOIN
  }

  function JoinReply(users: seq<User>, msg: MultisigMsg): Reply {
    var c := msg.inviteCode;
    if FoundCopy(users, c).None? then Refused(WrongPayload)
    else if exists u :: u in users && Holds(u, c) && u.userID == msg.userID then Refused(MultipleJoin)
    else if !Related(users, msg.userID, msg.address) then Refused(AddressNotRelated)
    else if !CurrencyMatches(users, c, msg.currencyID, msg.networkID) then Refused(WrongCurrency)
    else if FoundCopy(users, c).value.ownersCount > |FoundCopy(users, c).value.owners| then Done
    else Refused(WrongPayload)
  }

  /** The $push of a copy to the first user with this id. */
  ghost predicate Pushed(us: seq<User>, vs: seq<User>, userID: string, copy: Multisig) {
    && |vs| == |us|
    && exists k :: 0 <= k < |us| && us[k].userID == userID && (forall i :: 0 <= i < k ==> us[i].userID != userID)
        && vs == us[k := us[k].(multisigs := us[k].multisigs + [copy])]
  }

  ghost predicate JoinStep(us: seq<User>, msg: MultisigMsg, vs: seq<User>) {
    if JoinReply(us, msg) != Done then vs == us
    else
      var found := FoundCopy(us, msg.inviteCode).value;
      exists mid ::
        && Pushed(us, mid, msg.userID, JoinedCopy(found, msg))
        && Rewritten(mid, vs, IdsOf(HoldersOf(us, msg.inviteCode)), msg.inviteCode,
                     JoinedCopy(found, msg).owners, JoinStatus(found))
  }

  // ---------------------------------------------------------------- leave

  predicate OwnerListed(owners: seq<AddressExtended>, a: string) {
    exists o :: o in owners && o.address == a
  }

  predicate CreatorListed(owners: seq<AddressExtended>, a: string) {
    exists o :: o in owners && o.address == a && o.creator
  }

  function OwnersWithout(owners: seq<AddressExtended>, a: string): (r: seq<AddressExtended>)
    ensures forall o :: o in r <==> o in owners && o.address != a
  {
    if owners == [] then []
    else
      var last := owners[|owners| - 1];
      assert owners == owners[..|owners| - 1] + [last];
      if last.address != a then OwnersWithout(owners[..|owners| - 1], a) + [last]
      else OwnersWithout(owners[..|owners| - 1], a)
  }

  predicate UserExists(users: seq<User>, userID: string) {
    exists u :: u in users && u.userID == userID
  }

  function LeaveReply(users: seq<User>, msg: MultisigMsg): Reply {
    match FoundCopy(users, msg.inviteCode)
    case None => Refused(WrongPayload)
    case Some(found) =>
      if CreatorListed(found.owners, msg.address) then Refused(CreatorMustDelete)
      else if !OwnerListed(found.owners, msg.address) then Refused(NotAnOwner)
      else if !UserExists(users, msg.userID) then Refused(StoreError)
      else Done
  }

  /** The copies with code c of the user at index k are removed. */
  function Dropped(us: seq<User>, k: nat, c: string): seq<User>
    requires k < |us|
  {
    us[k := us[k].(multisigs := Without(us[k].multisigs, c))]
  }

  /** k is the first user with this id. */
  ghost predicate FirstWithId(us: seq<User>, userID: string, k: int) {
    0 <= k < |us| && us[k].userID == userID && forall i :: 0 <= i < k ==> us[i].userID != userID
  }

  /** k is the first user with this wallet address. */
  ghost predicate FirstWithAddress(us: seq<User>, a: string, k: int) {
    0 <= k < |us| && HasAddress(us[k], a) && forall i :: 0 <= i < k ==> !HasAddress(us[i], a)
  }

  /** The copy that the remaining holders are told: fewer owners, and the status the multisig had before. */
  function CopyWithout(found: Multisig, a: string): Multisig {
    found.(owners := OwnersWithout(found.owners, a))
  }

  ghost predicate LeaveStep(us: seq<User>, msg: MultisigMsg, vs: seq<User>) {
    if LeaveReply(us, msg) != Done then vs == us
    else
      var found := FoundCopy(us, msg.inviteCode).value;
      exists k ::
        && FirstWithId(us, msg.userID, k)
        && var mid := Dropped(us, k, msg.inviteCode);
           Rewritten(mid, vs, IdsOf(HoldersOf(mid, msg.inviteCode)), msg.inviteCode,
                     OwnersWithout(found.owners, msg.address), WAITING_FOR_JOIN)
  }

  // ---------------------------------------------------------------- kick

  predicate AddressKnown(users: seq<User>, a: string) {
    exists u :: u in users && HasAddress(u, a)
  }

  function KickReply(users: seq<User>, msg: MultisigMsg): Reply {
    match FoundCopy(users, msg.inviteCode)
    case None => Refused(WrongPayload)
    case Some(found) =>
      if !CreatorListed(found.owners, msg.address) then Refused(OnlyAdmin)
      else if !AddressKnown(users, msg.addressToKick) then Refused(StoreError)
      else Done
  }

  ghost predicate KickStep(us: seq<User>, msg: MultisigMsg, vs: seq<User>) {
    if KickReply(us, msg) != Done then vs == us
    else
      var found := FoundCopy(us, msg.inviteCode).value;
      exists k ::
        && FirstWithAddress(us, msg.addressToKick, k)
        && Rewritten(Dropped(us, k, msg.inviteCode), vs, IdsOf(HoldersOf(us, msg.inviteCode)), msg.inviteCode,
                     OwnersWithout(found.owners, msg.addressToKick), WAITING_FOR_JOIN)
  }

  // ---------------------------------------------------------------- delete

  function DeleteReply(users: seq<User>, msg: MultisigMsg): Reply {
    match FoundCopy(users, msg.inviteCode)
    case None => Refused(WrongPayload)
    case Some(found) =>
      if !CreatorListed(found.owners, msg.address) then Refused(OnlyAdmin) else Done
  }

  ghost predicate DeleteStep(us: seq<User>, msg: MultisigMsg, vs: seq<User>) {
    if DeleteReply(us, msg) != Done then vs == us
    else
      && |vs| == |us|
      && forall k :: 0 <= k < |us| ==> vs[k] == us[k].(multisigs := Without(us[k].multisigs, msg.inviteCode))
  }

  // ---------------------------------------------------------------- create

  datatype CreateParams = CreateParams(
    address: string,
    inviteCode: string,
    walletName: string,
    currencyID: int,
    networkID: int,
    walletIndex: int,
    addressIndex: int,
    signaturesRequired: int,
    ownersCount: int)

  function NewMultisig(p: CreateParams, userID: string): Multisig {
    Multisig(p.currencyID, p.networkID, p.signaturesRequired, p.walletName,
             [AddressExtended(userID, Lower(p.address), true, true, p.walletIndex, p.addressIndex)],
             WAITING_FOR_JOIN, Lower(p.inviteCode), p.ownersCount)
  }

  /** The invite code is checked as it was sent, and stored in lower case. */
  predicate CreateAccepted(users: seq<User>, userID: string, p: CreateParams) {
    && p.ownersCount >= p.signaturesRequired
    && p.ownersCount >= 2
    && FoundCopy(users, p.inviteCode).None?
    && UserExists(users, userID)
  }

  ghost predicate CreateStep(us: seq<User>, userID: string, p: CreateParams, vs: seq<User>) {
    if CreateAccepted(us, userID, p) then Pushed(us, vs, userID, NewMultisig(p, userID)) else vs == us
  }
}
